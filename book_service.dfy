/**
  BookService: the same five calls for books, with three differences from PostService.
  Create takes a Book the caller built and hands it to the repository's save as it is. A
  missing id on fetch or update ends with IllegalArgument instead of NoSuchElement. Delete
  does not translate the repository's failure, so EmptyResultDataAccess reaches the caller.
*/
module Books {
  import opened Wrappers
  import opened Storage
  import opened Domain

  /** Every stored book carries the key it is stored under. */
  ghost predicate Keyed(t: Table<Book>)
  {
    forall k :: k in t.rows ==> t.rows[k].id == Some(k)
  }

  /** The book table's invariant: a well-formed table whose books know their own keys. */
  ghost predicate Consistent(t: Table<Book>)
  {
    WellFormed(t) && Keyed(t)
  }

  /** The not-found error of this service. */
  function NotFound(): ServiceError
  {
    IllegalArgument(IdCheckMessage)
  }

  /**
    Create: the caller's book is saved as it is and the saved book returned, with its title
    and author. A book without a stored id is inserted under a fresh key; a book whose id is
    stored replaces that row and keeps its place. Nothing else changes.
  */
  function SaveBook(t: Table<Book>, book: Book): (r: (Table<Book>, Book))
    requires Consistent(t)
    ensures Consistent(r.0)
    ensures r.1.id.Some? && r.1.title == book.title && r.1.author == book.author
    ensures r.0.rows == t.rows[r.1.id.value := r.1]
    ensures book.id.Some? && book.id.value in t.rows ==> r.1 == book && r.0.order == t.order
    ensures !(book.id.Some? && book.id.value in t.rows) ==>
              r.1.id.value !in t.rows && r.0.order == t.order + [r.1.id.value]
  {
    var (t', id) := SaveRow(t, book.id, (k: Id) => book.(id := Some(k)));
    (t', book.(id := Some(id)))
  }

  /** Fetch one: the stored book, unchanged, or IllegalArgument when the id is not stored. */
  function FindBook(t: Table<Book>, id: Id): (r: Result<Book, ServiceError>)
    ensures r.Ok? <==> id in t.rows
    ensures r.Ok? ==> r.value == t.rows[id]
    ensures r.Err? ==> r.error == IllegalArgument("id를 확인해주세요!!")
  {
    match FindRow(t, id)
    case Some(book) => Ok(book)
    case None => Err(NotFound())
  }

  /**
    Fetch all: every stored book in insertion order. The entry at each position is the
    book whose id holds that position in insertion order. `AllBooksExact` adds that no
    book occurs twice and that every stored book occurs.
  */
  function AllBooks(t: Table<Book>): (bs: seq<Book>)
    requires Consistent(t)
    ensures |bs| == |t.rows| == |t.order|
    ensures forall i :: 0 <= i < |bs| ==> bs[i].id == Some(t.order[i]) && bs[i] == t.rows[t.order[i]]
  {
    var bs := AllRows(t);
    assert forall i :: 0 <= i < |bs| ==> bs[i].id == Some(t.order[i]) by {
      forall i | 0 <= i < |bs| ensures bs[i].id == Some(t.order[i]) {
        assert t.order[i] in t.rows;
      }
    }
    bs
  }

  /** Fetch all lists each stored book exactly once: no duplicates and no omissions. */
  lemma AllBooksExact(t: Table<Book>)
    requires Consistent(t)
    ensures forall i, j :: 0 <= i < j < |AllBooks(t)| ==> AllBooks(t)[i] != AllBooks(t)[j]
    ensures forall k :: k in t.rows ==> t.rows[k] in AllBooks(t)
  {
    var bs := AllBooks(t);
    forall i, j | 0 <= i < j < |bs| ensures bs[i] != bs[j] {
      assert bs[i].id == Some(t.order[i]) && bs[j].id == Some(t.order[j]);
    }
    forall k | k in t.rows ensures t.rows[k] in bs {
      var i :| 0 <= i < |t.order| && t.order[i] == k;
      assert bs[i] == t.rows[k];
    }
  }


  /**
    Update: the book stored under `id` takes the title and author of `book` and keeps its
    own id (the id inside `book` is ignored); no other book changes. A missing id ends with
    IllegalArgument and the table is left as it was.
  */
  function UpdateBook(t: Table<Book>, id: Id, book: Book): (r: (Table<Book>, Result<Book, ServiceError>))
    requires Consistent(t)
    ensures Consistent(r.0)
    ensures id !in t.rows ==> r.0 == t && r.1 == Err(IllegalArgument("id를 확인해주세요!!"))
    ensures id in t.rows ==> r.1 == Ok(Book(Some(id), book.title, book.author))
    ensures id in t.rows ==> r.0.rows == t.rows[id := r.1.value] && r.0.order == t.order && r.0.nextId == t.nextId
  {
    match FindBook(t, id)
    case Err(e) => (t, Err(e))
    case Ok(entity) =>
      var updated := entity.(title := book.title, author := book.author);
      var (t', _) := SaveRow(t, updated.id, _ => updated);
      (t', Ok(updated))
  }

  /**
    Delete: the book stored under `id` is removed and "ok" returned. When nothing is stored
    under `id` the repository's EmptyResultDataAccess is passed on untranslated and the
    table is left as it was.
  */
  function DeleteBook(t: Table<Book>, id: Id): (r: (Table<Book>, Result<string, ServiceError>))
    requires Consistent(t)
    ensures Consistent(r.0)
    ensures id in t.rows ==> r.1 == Ok("ok") && r.0.rows == t.rows - {id} && r.0.nextId == t.nextId
    ensures id !in t.rows ==> r.0 == t && r.1 == Err(DataAccess(EmptyResultDataAccess(id)))
  {
    var (t', outcome) := DeleteRow(t, id);
    match outcome
    case Fail(cause) => (t', Err(DataAccess(cause)))
    case Pass => (t', Ok(Acknowledgement))
  }

  /** A saved book can be fetched back under the key it was saved with. */
  lemma SaveThenFind(t: Table<Book>, book: Book)
    requires Consistent(t)
    ensures var (t', saved) := SaveBook(t, book); saved.id.Some? && FindBook(t', saved.id.value) == Ok(saved)
  {
  }

  /** A book without an id comes last in fetch-all after saving, the others keep their order. */
  lemma SaveNewThenFindAll(t: Table<Book>, book: Book)
    requires Consistent(t) && book.id == None
    ensures var (t', saved) := SaveBook(t, book); AllBooks(t') == AllBooks(t) + [saved]
  {
    InsertAll(t, (k: Id) => book.(id := Some(k)));
  }

  /** After an update, fetching the id returns the new title and author under the same id. */
  lemma UpdateThenFind(t: Table<Book>, id: Id, book: Book)
    requires Consistent(t) && id in t.rows
    ensures FindBook(UpdateBook(t, id, book).0, id) == Ok(Book(Some(id), book.title, book.author))
  {
  }

  /** An update changes the updated book in place in fetch-all and nothing else. */
  lemma UpdateThenFindAll(t: Table<Book>, id: Id, book: Book)
    requires Consistent(t)
    ensures var before, after := AllBooks(t), AllBooks(UpdateBook(t, id, book).0);
            && |after| == |before|
            && forall i :: 0 <= i < |before| ==>
                 after[i] == if before[i].id == Some(id) then Book(Some(id), book.title, book.author) else before[i]
  {
    var t' := UpdateBook(t, id, book).0;
    var before, after := AllBooks(t), AllBooks(t');
    if id in t.rows {
      var updated := Book(Some(id), book.title, book.author);
      assert t'.order == t.order && t'.rows == t.rows[id := updated];
      forall i | 0 <= i < |before|
        ensures after[i] == if before[i].id == Some(id) then updated else before[i]
      {
        assert after[i] == t'.rows[t.order[i]] && before[i] == t.rows[t.order[i]];
      }
    }
  }

  /** After a successful delete, fetching the same id fails with IllegalArgument. */
  lemma DeleteThenFind(t: Table<Book>, id: Id)
    requires Consistent(t) && id in t.rows
    ensures var (t', ack) := DeleteBook(t, id);
            ack == Ok("ok") && FindBook(t', id) == Err(IllegalArgument("id를 확인해주세요!!"))
  {
  }

  /** Deleting the same id twice: the second call fails with the repository's own error. */
  lemma DeleteTwice(t: Table<Book>, id: Id)
    requires Consistent(t)
    ensures DeleteBook(DeleteBook(t, id).0, id).1 == Err(DataAccess(EmptyResultDataAccess(id)))
  {
  }

  /** A delete drops exactly the deleted book from fetch-all; the others keep their order. */
  lemma DeleteThenFindAll(t: Table<Book>, id: Id)
    requires Consistent(t) && id in t.rows
    ensures exists i :: 0 <= i < |AllBooks(t)| && AllBooks(t)[i].id == Some(id) &&
              AllBooks(DeleteBook(t, id).0) == AllBooks(t)[..i] + AllBooks(t)[i + 1..]
  {
    var i := DeleteAll(t, id);
    assert AllBooks(t)[i].id == Some(id);
  }

  /** The service object: constructed around the repository it stores books in. */
  class BookService {
    const repository: Repository<Book>

    ghost predicate Valid()
      reads this, repository
    {
      Consistent(repository.State())
    }

    constructor (repository: Repository<Book>)
      requires Consistent(repository.State())
      ensures this.repository == repository && Valid()
    {
      this.repository := repository;
    }

    /** 저장하기 */
    method Save(book: Book) returns (saved: Book)
      requires Valid()
      modifies repository
      ensures Valid()
      ensures (repository.State(), saved) == SaveBook(old(repository.State()), book)
    {
      var id := repository.Save(book.id, (k: Id) => book.(id := Some(k)));
      saved := book.(id := Some(id));
    }

    /** 한건가져오기 */
    method FindById(id: Id) returns (r: Result<Book, ServiceError>)
      requires Valid()
      ensures r == FindBook(repository.State(), id)
    {
      var found := repository.FindById(id);
      match found
      case Some(book) => r := Ok(book);
      case None => r := Err(NotFound());
    }

    /** 모두가져오기 */
    method FindAll() returns (books: seq<Book>)
      requires Valid()
      ensures books == AllBooks(repository.State())
    {
      books := repository.FindAll();
    }

    /** 수정하기: find, overwrite title and author, write back. */
    method Update(id: Id, book: Book) returns (r: Result<Book, ServiceError>)
      requires Valid()
      modifies repository
      ensures Valid()
      ensures (repository.State(), r) == UpdateBook(old(repository.State()), id, book)
    {
      var found := repository.FindById(id);
      if found.None? {
        return Err(NotFound());
      }
      var entity := found.value;
      entity := entity.(title := book.title);
      entity := entity.(author := book.author);
      var _ := repository.Save(entity.id, _ => entity);
      r := Ok(entity);
    }

    /** 삭제하기 */
    method Delete(id: Id) returns (r: Result<string, ServiceError>)
      requires Valid()
      modifies repository
      ensures Valid()
      ensures (repository.State(), r) == DeleteBook(old(repository.State()), id)
    {
      var outcome := repository.DeleteById(id);
      match outcome
      case Fail(cause) => r := Err(DataAccess(cause));
      case Pass => r := Ok(Acknowledgement);
    }
  }
}
