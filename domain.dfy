/** The entities, request body and errors the two services exchange. */
module Domain {
  import opened Wrappers
  import opened Storage

  /** A blog post. `id` is absent until the post is first persisted and never changes after. */
  datatype Post = Post(id: Option<Id>, title: string, content: string)

  /** A book, the second resource built on the same pattern. */
  datatype Book = Book(id: Option<Id>, title: string, author: string)

  /** The body of a create or update request for a post. */
  datatype WritePostReq = WritePostReq(title: string, content: string)

  /**
    The exceptions a service call can end with: PostService signals a missing id with
    NoSuchElementException, BookService with IllegalArgumentException, and BookService's
    delete lets the repository's own failure through.
  */
  datatype ServiceError =
    | NoSuchElement(message: string)
    | IllegalArgument(message: string)
    | DataAccess(cause: StorageError)

  /** The message of every not-found error ("check the id!!"). */
  const IdCheckMessage: string := "id를 확인해주세요!!"

  /** What a successful delete returns. */
  const Acknowledgement: string := "ok"
}
