/**
  PostService: create, fetch one, fetch all, update and delete blog posts on top of the
  post repository, with one not-found rule: a missing id ends the call with
  NoSuchElement carrying `IdCheckMessage`.

  The functions say what each call returns and what it leaves in the table; the class
  `PostService` performs the calls step by step against a `Repository<Post>` and is proved
  to agree with them. The lemmas relate calls to each other.
*/
module Posts {
  import opened Wrappers
  import opened Storage
  import opened Domain

  /** Every stored post carries the key it is stored under. */
  ghost predicate Keyed(t: Table<Post>)
  {
    forall k :: k in t.rows ==> t.rows[k].id == Some(k)
  }

  /** The post table's invariant: a well-formed table whose posts know their own keys. */
  ghost predicate Consistent(t: Table<Post>)
  {
    WellFormed(t) && Keyed(t)
  }

  /** The not-found error of this service. */
  function NotFound(): ServiceError
  {
    NoSuchElement(IdCheckMessage)
  }

  /** A new, not yet persisted post holding the request's fields. */
  function WritePostReqToPost(req: WritePostReq): (p: Post)
    ensures p.id == None
    ensures p.title == req.title && p.content == req.content
  {
    Post(None, req.title, req.content)
  }

  /**
    Create: the request becomes a new post, which is stored under a fresh key and returned
    carrying that key. Nothing already stored changes, and the new post comes last in
    insertion order.
  */
  function SavePost(t: Table<Post>, req: WritePostReq): (r: (Table<Post>, Post))
    requires Consistent(t)
    ensures Consistent(r.0)
    ensures r.1.id.Some? && r.1.id.value !in t.rows
    ensures forall k :: k in t.rows ==> k < r.1.id.value
    ensures t.nextId <= r.1.id.value < r.0.nextId
    ensures r.1.title == req.title && r.1.content == req.content
    ensures r.0.rows == t.rows[r.1.id.value := r.1]
    ensures r.0.order == t.order + [r.1.id.value]
  {
    var post := WritePostReqToPost(req);
    var (t', id) := SaveRow(t, post.id, (k: Id) => post.(id := Some(k)));
    (t', post.(id := Some(id)))
  }

  /** Fetch one: the stored post, unchanged, or NoSuchElement when the id is not stored. */
  function FindPost(t: Table<Post>, id: Id): (r: Result<Post, ServiceError>)
    ensures r.Ok? <==> id in t.rows
    ensures r.Ok? ==> r.value == t.rows[id]
    ensures r.Err? ==> r.error == NoSuchElement("id를 확인해주세요!!")
  {
    match FindRow(t, id)
    case Some(post) => Ok(post)
    case None => Err(NotFound())
  }

  /**
    Fetch all: every stored post in insertion order. The entry at each position is the
    post whose id holds that position in insertion order. `AllPostsExact` adds that no
    post occurs twice and that every stored post occurs.
  */
  function AllPosts(t: Table<Post>): (ps: seq<Post>)
    requires Consistent(t)
    ensures |ps| == |t.rows| == |t.order|
    ensures forall i :: 0 <= i < |ps| ==> ps[i].id == Some(t.order[i]) && ps[i] == t.rows[t.order[i]]
  {
    var ps := AllRows(t);
    assert forall i :: 0 <= i < |ps| ==> ps[i].id == Some(t.order[i]) by {
      forall i | 0 <= i < |ps| ensures ps[i].id == Some(t.order[i]) {
        assert t.order[i] in t.rows;
      }
    }
    ps
  }

  /** Fetch all lists each stored post exactly once: no duplicates and no omissions. */
  lemma AllPostsExact(t: Table<Post>)
    requires Consistent(t)
    ensures forall i, j :: 0 <= i < j < |AllPosts(t)| ==> AllPosts(t)[i] != AllPosts(t)[j]
    ensures forall k :: k in t.rows ==> t.rows[k] in AllPosts(t)
  {
    var ps := AllPosts(t);
    forall i, j | 0 <= i < j < |ps| ensures ps[i] != ps[j] {
      assert ps[i].id == Some(t.order[i]) && ps[j].id == Some(t.order[j]);
    }
    forall k | k in t.rows ensures t.rows[k] in ps {
      var i :| 0 <= i < |t.order| && t.order[i] == k;
      assert ps[i] == t.rows[k];
    }
  }


  /**
    Update: the post stored under `id` gets the request's title and content and keeps its
    id; it is written back and returned, and no other post changes. A missing id ends
    with NoSuchElement and the table is left as it was.
  */
  function UpdatePost(t: Table<Post>, id: Id, req: WritePostReq): (r: (Table<Post>, Result<Post, ServiceError>))
    requires Consistent(t)
    ensures Consistent(r.0)
    ensures id !in t.rows ==> r.0 == t && r.1 == Err(NoSuchElement("id를 확인해주세요!!"))
    ensures id in t.rows ==> r.1 == Ok(Post(Some(id), req.title, req.content))
    ensures id in t.rows ==> r.0.rows == t.rows[id := r.1.value] && r.0.order == t.order && r.0.nextId == t.nextId
  {
    match FindPost(t, id)
    case Err(e) => (t, Err(e))
    case Ok(post) =>
      var updated := post.(title := req.title, content := req.content);
      var (t', _) := SaveRow(t, updated.id, _ => updated);
      (t', Ok(updated))
  }

  /**
    Delete: the post stored under `id` is removed and "ok" returned. When nothing is stored
    under `id`, the repository's EmptyResultDataAccess is turned into NoSuchElement and the
    table is left as it was.
  */
  function DeletePost(t: Table<Post>, id: Id): (r: (Table<Post>, Result<string, ServiceError>))
    requires Consistent(t)
    ensures Consistent(r.0)
    ensures id in t.rows ==> r.1 == Ok("ok") && r.0.rows == t.rows - {id} && r.0.nextId == t.nextId
    ensures id !in t.rows ==> r.0 == t && r.1 == Err(NoSuchElement("id를 확인해주세요!!"))
  {
    var (t', outcome) := DeleteRow(t, id);
    match outcome
    case Fail(_) => (t', Err(NotFound()))
    case Pass => (t', Ok(Acknowledgement))
  }

  /** A saved post can be fetched back under its new key, equal to what create returned. */
  lemma SaveThenFind(t: Table<Post>, req: WritePostReq)
    requires Consistent(t)
    ensures var (t', p) := SavePost(t, req); p.id.Some? && FindPost(t', p.id.value) == Ok(p)
  {
  }

  /** A saved post comes last in fetch-all, after the posts that were already there, in their order. */
  lemma SaveThenFindAll(t: Table<Post>, req: WritePostReq)
    requires Consistent(t)
    ensures var (t', p) := SavePost(t, req); AllPosts(t') == AllPosts(t) + [p]
  {
    var post := WritePostReqToPost(req);
    InsertAll(t, (k: Id) => post.(id := Some(k)));
  }

  /** After an update, fetching the id returns the new title and content under the same id. */
  lemma UpdateThenFind(t: Table<Post>, id: Id, req: WritePostReq)
    requires Consistent(t) && id in t.rows
    ensures FindPost(UpdatePost(t, id, req).0, id) == Ok(Post(Some(id), req.title, req.content))
  {
  }

  /** An update changes the updated post in place in fetch-all and nothing else. */
  lemma UpdateThenFindAll(t: Table<Post>, id: Id, req: WritePostReq)
    requires Consistent(t)
    ensures var before, after := AllPosts(t), AllPosts(UpdatePost(t, id, req).0);
            && |after| == |before|
            && forall i :: 0 <= i < |before| ==>
                 after[i] == if before[i].id == Some(id) then Post(Some(id), req.title, req.content) else before[i]
  {
    var t' := UpdatePost(t, id, req).0;
    var before, after := AllPosts(t), AllPosts(t');
    if id in t.rows {
      var updated := Post(Some(id), req.title, req.content);
      assert t'.order == t.order && t'.rows == t.rows[id := updated];
      forall i | 0 <= i < |before|
        ensures after[i] == if before[i].id == Some(id) then updated else before[i]
      {
        assert after[i] == t'.rows[t.order[i]] && before[i] == t.rows[t.order[i]];
      }
    }
  }

  /** After a successful delete, fetching the same id fails with NoSuchElement. */
  lemma DeleteThenFind(t: Table<Post>, id: Id)
    requires Consistent(t) && id in t.rows
    ensures var (t', ack) := DeletePost(t, id);
            ack == Ok("ok") && FindPost(t', id) == Err(NoSuchElement("id를 확인해주세요!!"))
  {
  }

  /** Delete is not idempotent: deleting the same id a second time fails with NoSuchElement. */
  lemma DeleteTwice(t: Table<Post>, id: Id)
    requires Consistent(t)
    ensures DeletePost(DeletePost(t, id).0, id).1 == Err(NoSuchElement("id를 확인해주세요!!"))
  {
  }

  /** A deleted id is never handed out again: a post created after the delete gets another id. */
  lemma DeleteThenSave(t: Table<Post>, id: Id, req: WritePostReq)
    requires Consistent(t) && id in t.rows
    ensures SavePost(DeletePost(t, id).0, req).1.id != Some(id)
  {
    assert id < t.nextId == DeletePost(t, id).0.nextId;
  }

  /** A delete drops exactly the deleted post from fetch-all; the others keep their order. */
  lemma DeleteThenFindAll(t: Table<Post>, id: Id)
    requires Consistent(t) && id in t.rows
    ensures exists i :: 0 <= i < |AllPosts(t)| && AllPosts(t)[i].id == Some(id) &&
              AllPosts(DeletePost(t, id).0) == AllPosts(t)[..i] + AllPosts(t)[i + 1..]
  {
    var i := DeleteAll(t, id);
    assert AllPosts(t)[i].id == Some(id);
  }

  /** On an empty table, two posts created one after the other are listed in creation order. */
  lemma {:induction false} CreateTwoThenFindAll(t0: Table<Post>, a: WritePostReq, b: WritePostReq)
    requires Consistent(t0) && t0.rows == map[]
    ensures
      var (t1, p1) := SavePost(t0, a);
      var (t2, p2) := SavePost(t1, b);
      && p1 == Post(p1.id, a.title, a.content)
      && p2 == Post(p2.id, b.title, b.content)
      && p1.id.value < p2.id.value
      && t2.order == [p1.id.value, p2.id.value]
      && AllPosts(t2) == [p1, p2]
  {
    assert |AllRows(t0)| == |t0.order| == 0;
    var (t1, p1) := SavePost(t0, a);
    SaveThenFindAll(t0, a);
    assert AllPosts(t1) == [p1];
    var (t2, p2) := SavePost(t1, b);
    SaveThenFindAll(t1, b);
    assert AllPosts(t2) == [p1, p2];
    assert p1.id.value in t1.rows;
  }

  /**
    With two posts listed, updating the first and deleting the second leaves only the
    updated first post.
  */
  lemma {:induction false} UpdateFirstDeleteSecond(t2: Table<Post>, i1: Id, i2: Id, req: WritePostReq)
    requires Consistent(t2) && t2.order == [i1, i2]
    ensures
      var (t3, u) := UpdatePost(t2, i1, req);
      var (t4, d) := DeletePost(t3, i2);
      && u == Ok(Post(Some(i1), req.title, req.content))
      && d == Ok("ok")
      && AllPosts(t4) == [Post(Some(i1), req.title, req.content)]
  {
    assert i1 in t2.rows && i2 in t2.rows;
    var (t3, u) := UpdatePost(t2, i1, req);
    var (t4, d) := DeletePost(t3, i2);
    WithoutAt(t3.order, 1);
    assert t4.order == [i1];
    var all := AllRows(t4);
    assert all[0] == t4.rows[i1];
  }

  /**
    The create / fetch-all / update / delete walk-through: two posts created on an empty
    table are listed in creation order; after updating the first and deleting the second,
    only the updated first post is listed. No particular first key is assumed.
  */
  lemma {:induction false} Walkthrough(t0: Table<Post>, a: WritePostReq, b: WritePostReq, a2: WritePostReq)
    requires Consistent(t0) && t0.rows == map[]
    ensures
      var (t1, p1) := SavePost(t0, a);
      var (t2, p2) := SavePost(t1, b);
      var (t3, u) := UpdatePost(t2, p1.id.value, a2);
      var (t4, d) := DeletePost(t3, p2.id.value);
      && AllPosts(t2) == [p1, p2]
      && u == Ok(Post(p1.id, a2.title, a2.content))
      && d == Ok("ok")
      && AllPosts(t4) == [Post(p1.id, a2.title, a2.content)]
  {
    var (t1, p1) := SavePost(t0, a);
    var (t2, p2) := SavePost(t1, b);
    CreateTwoThenFindAll(t0, a, b);
    UpdateFirstDeleteSecond(t2, p1.id.value, p2.id.value, a2);
  }

  /** The service object: constructed around the repository it stores posts in. */
  class PostService {
    const repository: Repository<Post>

    ghost predicate Valid()
      reads this, repository
    {
      Consistent(repository.State())
    }

    constructor (repository: Repository<Post>)
      requires Consistent(repository.State())
      ensures this.repository == repository && Valid()
    {
      this.repository := repository;
    }

    /** 저장하기 */
    method Save(req: WritePostReq) returns (post: Post)
      requires Valid()
      modifies repository
      ensures Valid()
      ensures (repository.State(), post) == SavePost(old(repository.State()), req)
    {
      var entity := WritePostReqToPost(req);
      var id := repository.Save(entity.id, (k: Id) => entity.(id := Some(k)));
      post := entity.(id := Some(id));
    }

    /** 한건가져오기 */
    method FindById(id: Id) returns (r: Result<Post, ServiceError>)
      requires Valid()
      ensures r == FindPost(repository.State(), id)
    {
      var found := repository.FindById(id);
      match found
      case Some(post) => r := Ok(post);
      case None => r := Err(NotFound());
    }

    /** 모두가져오기 */
    method FindAll() returns (posts: seq<Post>)
      requires Valid()
      ensures posts == AllPosts(repository.State())
    {
      posts := repository.FindAll();
    }

    /** 수정하기: find, overwrite title and content, write back. */
    method Update(id: Id, req: WritePostReq) returns (r: Result<Post, ServiceError>)
      requires Valid()
      modifies repository
      ensures Valid()
      ensures (repository.State(), r) == UpdatePost(old(repository.State()), id, req)
    {
      var found := repository.FindById(id);
      if found.None? {
        return Err(NotFound());
      }
      var entity := found.value;
      entity := entity.(title := req.title);
      entity := entity.(content := req.content);
      var _ := repository.Save(entity.id, _ => entity);
      r := Ok(entity);
    }

    /** 삭제하기 */
    method Delete(id: Id) returns (r: Result<string, ServiceError>)
      requires Valid()
      modifies repository
      ensures Valid()
      ensures (repository.State(), r) == DeletePost(old(repository.State()), id)
    {
      var outcome := repository.DeleteById(id);
      match outcome
      case Fail(_) => r := Err(NotFound());
      case Pass => r := Ok(Acknowledgement);
    }
  }
}
