# Blog-post CRUD services, modelled in Dafny

The repository this models is a small Spring Boot backend. It stores blog posts (title and
content) and books (title and author) in a relational table through a JPA repository. It
offers five service calls for each: create (`저장하기`), fetch one (`한건가져오기`), fetch all
(`모두가져오기`), update (`수정하기`) and delete (`삭제하기`). Nearly all of the logic is in the
two service classes, `PostService` and `BookService`. This project models those two classes
and the storage they rely on.

Files:

- `wrappers.dfy`: module `Wrappers`, which defines `Option`, `Result` and `Outcome`.
- `storage.dfy`: module `Storage`, the JPA repository the services call.
  - Table state: `Table(rows, order, nextId)`. It holds the stored rows by key, the keys in
    insertion order, and the next value of the IDENTITY column.
  - Pure functions, one per repository operation:
    - `SaveRow` (`save`)
    - `FindRow` (`findById`)
    - `AllRows` (`findAll`)
    - `DeleteRow` (`deleteById`)
  - Class `Repository<V>`: holds the same state in fields its methods update. Each method is
    proved to act as the matching function says.
  - `save` follows Spring Data's persist-or-merge rule:
    - an entity without an id is inserted under a fresh key;
    - an entity whose id is stored is merged onto that row;
    - an entity whose id is not stored is inserted under a fresh key.
- `domain.dfy`: module `Domain`, which defines:
  - `Post(id, title, content)` and `Book(id, title, author)`;
  - the request body `WritePostReq`;
  - the three exceptions the services can end with, as `ServiceError`;
  - the message `"id를 확인해주세요!!"` and the acknowledgement `"ok"`.
- `post_service.dfy`: module `Posts`.
  - One pure function per PostService call, giving its result and the table it leaves.
  - Lemmas that relate calls to each other.
  - Class `PostService`, built around a `Repository<Post>`. Its methods perform each call
    step by step: look up, throw, set fields, save. Each method is proved equal to its
    function.
- `book_service.dfy`: module `Books`, the same structure for BookService. It keeps
  BookService's three differences as separate contracts:
  - create takes a caller-built `Book`;
  - a missing id is reported with `IllegalArgument` instead of `NoSuchElement`;
  - delete passes the repository's `EmptyResultDataAccess` through untranslated.

Update no longer relies on JPA dirty checking, where a changed managed entity is flushed at
commit. It is an explicit find, overwrite of the two fields, and save of the entity back.
Its effect on the table is therefore part of the contract.

Both tables share one invariant:
- the keys listed in `order` strictly increase;
- `order` lists exactly the stored keys;
- every stored key is below the IDENTITY counter;
- every stored entity carries the key it is stored under.

From this invariant: a generated id is always fresh, fetch-all lists every row exactly once in
insertion order, and a deleted id is never handed out again. No contract fixes the first id
to 1.

## Model

| member | source | states |
|---|---|---|
| `Storage.FindRow` | src/main/java/com/example/demo/repository/PostRepository.java:9 | `findById` yields a row exactly when the key is stored, and then the stored row |
| `Storage.AllRows` | src/test/java/com/example/demo/web/PostControllerIntegreTest.java:94-107 | `findAll` yields one row per stored key, the row at each position is the one whose key holds that position in insertion order |
| `Storage.SaveRow` | src/main/java/com/example/demo/domain/Post.java:17-19 | `save` keeps the table invariant; an entity without a stored key gets an IDENTITY key that is fresh, above every stored key and not below the counter, which moves past it; it goes last in insertion order; an entity with a stored key replaces that row in place |
| `Storage.DeleteRow` | src/main/java/com/example/demo/service/PostService.java:51-55 | `deleteById` removes exactly the row of a stored key, keeps the others in order and keeps the counter; on a missing key it fails with EmptyResultDataAccess and changes nothing |
| `Storage.InsertAll` | src/test/java/com/example/demo/web/PostControllerIntegreTest.java:94-107 | inserting a row without a key appends it to the end of `findAll` |
| `Storage.DeleteAll` | src/test/java/com/example/demo/unit/repository/PostRepositoryUnitTest.java:118-135 | deleting a stored key cuts exactly its row out of `findAll`, the others keep their order |
| `Storage.Repository.constructor` | src/main/java/com/example/demo/repository/PostRepository.java:9 | a new repository is an empty, valid table |
| `Storage.Repository.Save` | src/main/java/com/example/demo/domain/Post.java:17-19 | the repository's new state and the key used are those of `SaveRow` |
| `Storage.Repository.FindById` | src/main/java/com/example/demo/repository/PostRepository.java:9 | returns what `FindRow` gives on the current state and changes nothing |
| `Storage.Repository.FindAll` | src/main/java/com/example/demo/repository/PostRepository.java:9 | returns what `AllRows` gives on the current state and changes nothing |
| `Storage.Repository.DeleteById` | src/main/java/com/example/demo/repository/PostRepository.java:9 | the new state and the outcome are those of `DeleteRow` |
| `Posts.WritePostReqToPost` | src/main/java/com/example/demo/service/PostService.java:60-64 | the built post has no id and the request's title and content |
| `Posts.SavePost` | src/main/java/com/example/demo/service/PostService.java:20-23 | create stores one new post with the request's title and content under a key not stored before, above every stored key and not below the IDENTITY counter, returns it carrying that key, changes no other post and lists it last |
| `Posts.FindPost` | src/main/java/com/example/demo/service/PostService.java:26-30 | fetch-one succeeds exactly when the id is stored and returns the stored post unchanged; otherwise NoSuchElement("id를 확인해주세요!!") |
| `Posts.AllPosts` | src/main/java/com/example/demo/service/PostService.java:32-35 | fetch-all has one entry per stored post, in insertion order: the entry at each position is the post stored under the id at that position of the insertion order, and carries that id |
| `Posts.AllPostsExact` | src/test/java/com/example/demo/unit/service/PostServiceUnitTest.java:94-109 | fetch-all holds no post twice and omits no stored post |
| `Posts.UpdatePost` | src/main/java/com/example/demo/service/PostService.java:37-47 | on a stored id: returns the post with that id and the request's title and content, stores it there and changes no other post; on a missing id: NoSuchElement and the table unchanged |
| `Posts.DeletePost` | src/main/java/com/example/demo/service/PostService.java:49-58 | on a stored id: removes only that post and returns "ok"; on a missing id: the storage failure becomes NoSuchElement("id를 확인해주세요!!") and the table is unchanged |
| `Posts.SaveThenFind` | src/main/java/com/example/demo/service/PostService.java:21-30 | a created post can be fetched by its new id and equals what create returned |
| `Posts.SaveThenFindAll` | src/test/java/com/example/demo/web/PostControllerIntegreTest.java:94-107 | after create, fetch-all is the old list followed by the new post |
| `Posts.UpdateThenFind` | src/test/java/com/example/demo/web/PostControllerIntegreTest.java:137-165 | after an update, fetching the id gives the new title and content under the same id |
| `Posts.UpdateThenFindAll` | src/main/java/com/example/demo/service/PostService.java:38-46 | an update replaces the updated post at its place in fetch-all and leaves every other entry unchanged |
| `Posts.DeleteThenFind` | src/main/java/com/example/demo/service/PostService.java:49-58 | a successful delete returns "ok", and fetching the deleted id afterwards fails with NoSuchElement |
| `Posts.DeleteTwice` | src/main/java/com/example/demo/service/PostService.java:51-55 | deleting the same id twice fails the second time with NoSuchElement: delete is not idempotent |
| `Posts.DeleteThenSave` | src/main/java/com/example/demo/domain/Post.java:17-19 | a post created after a delete never receives the deleted id |
| `Posts.DeleteThenFindAll` | src/main/java/com/example/demo/service/PostService.java:49-58 | a delete removes exactly the deleted post from fetch-all, the rest keep their order |
| `Posts.CreateTwoThenFindAll` | src/test/java/com/example/demo/web/PostControllerIntegreTest.java:89-110 | two posts created on an empty table come back from fetch-all as [first, second] with increasing ids |
| `Posts.UpdateFirstDeleteSecond` | src/test/java/com/example/demo/web/PostControllerIntegreTest.java:137-188 | with two posts listed, updating the first and deleting the second leaves only the updated first post |
| `Posts.Walkthrough` | src/test/java/com/example/demo/web/PostControllerIntegreTest.java:61-188 | the create, fetch-all, update, delete sequence: [p1, p2] after two creates, then only the updated p1 |
| `Posts.PostService.constructor` | src/main/java/com/example/demo/service/PostService.java:14-18 | the service is built around the repository it is given (constructor injection) |
| `Posts.PostService.Save` | src/main/java/com/example/demo/service/PostService.java:20-23 | the repository's new state and the returned post are those of `SavePost` |
| `Posts.PostService.FindById` | src/main/java/com/example/demo/service/PostService.java:26-30 | returns `FindPost` of the current state; the repository is not modified |
| `Posts.PostService.FindAll` | src/main/java/com/example/demo/service/PostService.java:32-35 | returns `AllPosts` of the current state; the repository is not modified |
| `Posts.PostService.Update` | src/main/java/com/example/demo/service/PostService.java:37-47 | find, set title and content, write back: the new state and result are those of `UpdatePost` |
| `Posts.PostService.Delete` | src/main/java/com/example/demo/service/PostService.java:49-58 | the new state and result are those of `DeletePost` |
| `Books.SaveBook` | src/main/java/com/example/demo/service/BookService.java:17-20 | create keeps title and author; a book without a stored id goes under a fresh key, last in order; a book with a stored id replaces that row in place; nothing else changes |
| `Books.FindBook` | src/main/java/com/example/demo/service/BookService.java:23-27 | fetch-one succeeds exactly when the id is stored and returns the stored book; otherwise IllegalArgument("id를 확인해주세요!!") |
| `Books.AllBooks` | src/main/java/com/example/demo/service/BookService.java:29-32 | fetch-all has one entry per stored book, in insertion order: the entry at each position is the book stored under the id at that position of the insertion order, and carries that id |
| `Books.AllBooksExact` | src/main/java/com/example/demo/service/BookService.java:29-32 | fetch-all holds no book twice and omits no stored book |
| `Books.UpdateBook` | src/main/java/com/example/demo/service/BookService.java:34-44 | on a stored id: title and author overwritten, id kept, other books unchanged; on a missing id: IllegalArgument and the table unchanged |
| `Books.DeleteBook` | src/main/java/com/example/demo/service/BookService.java:46-50 | on a stored id: removes only that book and returns "ok"; on a missing id: the repository's EmptyResultDataAccess passes through untranslated and the table is unchanged |
| `Books.SaveThenFind` | src/main/java/com/example/demo/service/BookService.java:17-27 | a saved book can be fetched under the id it was saved with |
| `Books.SaveNewThenFindAll` | src/main/java/com/example/demo/service/BookService.java:17-32 | saving a book without an id appends it to fetch-all |
| `Books.UpdateThenFind` | src/main/java/com/example/demo/service/BookService.java:34-44 | after an update, fetching the id gives the new title and author under the same id |
| `Books.UpdateThenFindAll` | src/main/java/com/example/demo/service/BookService.java:34-44 | an update replaces the updated book at its place in fetch-all and leaves every other entry unchanged |
| `Books.DeleteThenFind` | src/main/java/com/example/demo/service/BookService.java:46-50 | a successful delete returns "ok", and fetching the id afterwards fails with IllegalArgument |
| `Books.DeleteTwice` | src/main/java/com/example/demo/service/BookService.java:46-50 | deleting the same id twice fails the second time with the repository's EmptyResultDataAccess |
| `Books.DeleteThenFindAll` | src/main/java/com/example/demo/service/BookService.java:46-50 | a delete removes exactly the deleted book from fetch-all, the rest keep their order |
| `Books.BookService.constructor` | src/main/java/com/example/demo/service/BookService.java:11-15 | the service is built around the repository it is given |
| `Books.BookService.Save` | src/main/java/com/example/demo/service/BookService.java:17-20 | the new state and the returned book are those of `SaveBook` |
| `Books.BookService.FindById` | src/main/java/com/example/demo/service/BookService.java:23-27 | returns `FindBook` of the current state; the repository is not modified |
| `Books.BookService.FindAll` | src/main/java/com/example/demo/service/BookService.java:29-32 | returns `AllBooks` of the current state; the repository is not modified |
| `Books.BookService.Update` | src/main/java/com/example/demo/service/BookService.java:34-44 | find, set title and author, write back: the new state and result are those of `UpdateBook` |
| `Books.BookService.Delete` | src/main/java/com/example/demo/service/BookService.java:46-50 | the new state and result are those of `DeleteBook` |

## Left out

- HTTP controllers (PostController, BookController), the exception-to-HTTP mapping
  (GlobalExceptionHandler, ErrorResponse), CORS and Swagger annotations: these only route
  requests and format responses.
- Transactions: `@Transactional` commit and rollback, read-only flags, isolation between
  concurrent callers. Each call is modelled as one atomic step on the table.
- Dirty checking: update is modelled as an explicit save of the changed entity. That save is
  what the flush at commit amounts to.
- Object identity and aliasing: entities are values. The JPA behaviour where `save` writes
  the generated id into the caller's own `Book` or `Post` object is not modelled. Neither is
  the way a managed entity returned by a call stays attached to the persistence context.
- The 50,000-character limit on `content`: the database schema enforces it, not the service.
- Ids are unbounded naturals: the `Long` key's 64-bit range is not modelled, and neither is
  a null id passed to a fetch, update or delete.
- The H2 IDENTITY column starting at 1 (and the tests resetting it): the repository
  constructor starts the counter at 1, but no contract depends on the first key.
- Fields a caller sets to null are carried as they are. Strings here cannot be null, and
  the services perform no validation.
