/**
  The persistence collaborator both services are built on: a `JpaRepository` over one table
  whose primary key comes from an IDENTITY column.

  The state of a table is `Table(rows, order, nextId)`: the stored rows by key, the keys in
  the order the rows were inserted (the order `findAll` reports them in), and the next value
  the IDENTITY column will hand out. The pure functions below say what each repository
  operation does to that state; the class `Repository` holds the same three things in
  fields and its methods are proved to act as the functions say.
*/
module Storage {
  import opened Wrappers

  /** A primary key as produced by the IDENTITY column. */
  type Id = nat

  /** The failure `deleteById` reports when no row has the key (Spring's EmptyResultDataAccessException). */
  datatype StorageError = EmptyResultDataAccess(id: Id)

  datatype Table<V> = Table(rows: map<Id, V>, order: seq<Id>, nextId: Id)

  /** Keys strictly increase along `ids` (so no key occurs twice). */
  ghost predicate Increasing(ids: seq<Id>)
  {
    forall i, j :: 0 <= i < j < |ids| ==> ids[i] < ids[j]
  }

  /**
    The table invariant: `order` lists exactly the stored keys, oldest first, and every
    stored key is below the next IDENTITY value, so a newly generated key is fresh.
  */
  ghost predicate WellFormed<V>(t: Table<V>)
  {
    && Increasing(t.order)
    && (forall k :: k in t.rows <==> k in t.order)
    && (forall k :: k in t.rows ==> k < t.nextId)
  }

  /** `findById`: the row stored under `id`, if there is one. */
  function FindRow<V>(t: Table<V>, id: Id): (r: Option<V>)
    ensures r.Some? <==> id in t.rows
    ensures r.Some? ==> r.value == t.rows[id]
  {
    if id in t.rows then Some(t.rows[id]) else None
  }

  /** The rows stored under `ids`, in the order of `ids`. */
  function Project<V>(ids: seq<Id>, rows: map<Id, V>): (vs: seq<V>)
    requires forall k :: k in ids ==> k in rows
    ensures |vs| == |ids|
    ensures forall i :: 0 <= i < |ids| ==> vs[i] == rows[ids[i]]
  {
    if ids == [] then [] else [rows[ids[0]]] + Project(ids[1..], rows)
  }

  /** Prepending a key below every key of an increasing sequence keeps it increasing. */
  lemma IncreasingCons(x: Id, ids: seq<Id>)
    requires Increasing(ids)
    requires forall k :: k in ids ==> x < k
    ensures Increasing([x] + ids)
  {
    var s := [x] + ids;
    forall i, j | 0 <= i < j < |s| ensures s[i] < s[j] {
      assert s[j] == ids[j - 1] && ids[j - 1] in ids;
      if i > 0 {
        assert s[i] == ids[i - 1];
      }
    }
  }

  /** Appending a key above every key of an increasing sequence keeps it increasing. */
  lemma IncreasingSnoc(ids: seq<Id>, x: Id)
    requires Increasing(ids)
    requires forall k :: k in ids ==> k < x
    ensures Increasing(ids + [x])
  {
    var s := ids + [x];
    forall i, j | 0 <= i < j < |s| ensures s[i] < s[j] {
      assert s[i] == ids[i] && ids[i] in ids;
      if j < |ids| {
        assert s[j] == ids[j];
      }
    }
  }

  /** The tail of an increasing sequence is increasing, and its head lies below the whole tail. */
  lemma IncreasingTail(ids: seq<Id>)
    requires Increasing(ids) && ids != []
    ensures Increasing(ids[1..])
    ensures forall k :: k in ids[1..] ==> ids[0] < k
  {
    var tail := ids[1..];
    forall i, j | 0 <= i < j < |tail| ensures tail[i] < tail[j] {
      assert tail[i] == ids[i + 1] && tail[j] == ids[j + 1];
    }
    forall k | k in tail ensures ids[0] < k {
      var j :| 0 <= j < |tail| && tail[j] == k;
      assert tail[j] == ids[j + 1];
    }
  }

  /** A set holding exactly the keys of an increasing sequence has as many elements as the sequence. */
  lemma {:induction false} IncreasingCard(ids: seq<Id>, keys: set<Id>)
    requires Increasing(ids)
    requires forall k :: k in keys <==> k in ids
    ensures |keys| == |ids|
  {
    if ids == [] {
      assert keys == {};
    } else {
      var tail := ids[1..];
      IncreasingTail(ids);
      assert ids == [ids[0]] + tail;
      var rest := keys - {ids[0]};
      assert forall k :: k in rest <==> k in tail;
      IncreasingCard(tail, rest);
      assert keys == rest + {ids[0]};
    }
  }

  /**
    `findAll`: every stored row exactly once, in insertion order. The result has one entry
    per stored key, each entry is the row of the key in that position of `order`, and every
    stored row occurs in it.
  */
  function AllRows<V>(t: Table<V>): (vs: seq<V>)
    requires WellFormed(t)
    ensures |vs| == |t.rows| == |t.order|
    ensures forall i :: 0 <= i < |vs| ==> vs[i] == t.rows[t.order[i]]
  {
    IncreasingCard(t.order, t.rows.Keys);
    Project(t.order, t.rows)
  }

  /**
    `save`: a row without a stored key (`key` absent, or naming no stored row) is inserted
    under the next IDENTITY value; a row whose key is stored is merged onto that row. `stamp`
    builds the row from the key it ends up under. The key used is returned with the new state.
  */
  function SaveRow<V>(t: Table<V>, key: Option<Id>, stamp: Id -> V): (r: (Table<V>, Id))
    requires WellFormed(t)
    ensures WellFormed(r.0)
    ensures r.0.rows == t.rows[r.1 := stamp(r.1)]
    ensures key.Some? && key.value in t.rows ==> r.1 == key.value && r.0.order == t.order && r.0.nextId == t.nextId
    ensures !(key.Some? && key.value in t.rows) ==>
              && r.1 !in t.rows
              && r.0.order == t.order + [r.1]
              && (forall k :: k in t.rows ==> k < r.1)
              && t.nextId <= r.1 < r.0.nextId
  {
    if key.Some? && key.value in t.rows then
      (Table(t.rows[key.value := stamp(key.value)], t.order, t.nextId), key.value)
    else
      IncreasingSnoc(t.order, t.nextId);
      (Table(t.rows[t.nextId := stamp(t.nextId)], t.order + [t.nextId], t.nextId + 1), t.nextId)
  }

  /** `ids` with every occurrence of `id` removed, the rest in their original order. */
  function Without(ids: seq<Id>, id: Id): (r: seq<Id>)
    ensures forall k :: k in r <==> k in ids && k != id
  {
    if ids == [] then []
    else if ids[0] == id then Without(ids[1..], id)
    else [ids[0]] + Without(ids[1..], id)
  }

  /** Removing a key from an increasing sequence leaves it increasing. */
  lemma {:induction false} WithoutIncreasing(ids: seq<Id>, id: Id)
    requires Increasing(ids)
    ensures Increasing(Without(ids, id))
  {
    if ids != [] {
      IncreasingTail(ids);
      WithoutIncreasing(ids[1..], id);
      if ids[0] != id {
        IncreasingCons(ids[0], Without(ids[1..], id));
      }
    }
  }

  /**
    `deleteById`: removes the row stored under `id`; fails with EmptyResultDataAccess and
    changes nothing when there is none. The remaining rows keep their order and the
    IDENTITY counter does not go back, so a deleted key is never handed out again.
  */
  function DeleteRow<V>(t: Table<V>, id: Id): (r: (Table<V>, Outcome<StorageError>))
    requires WellFormed(t)
    ensures WellFormed(r.0)
    ensures r.1.Pass? <==> id in t.rows
    ensures r.1.Fail? ==> r.0 == t && r.1.error == EmptyResultDataAccess(id)
    ensures r.1.Pass? ==> r.0.rows == t.rows - {id} && r.0.order == Without(t.order, id) && r.0.nextId == t.nextId
  {
    if id in t.rows then
      WithoutIncreasing(t.order, id);
      (Table(t.rows - {id}, Without(t.order, id), t.nextId), Pass)
    else (t, Fail(EmptyResultDataAccess(id)))
  }

  /** Inserting a row that carries no key appends it at the end of findAll. */
  lemma InsertAll<V>(t: Table<V>, stamp: Id -> V)
    requires WellFormed(t)
    ensures var (t', id) := SaveRow(t, None, stamp); AllRows(t') == AllRows(t) + [stamp(id)]
  {
    var (t', id) := SaveRow(t, None, stamp);
    var before, after := AllRows(t), AllRows(t');
    forall i | 0 <= i < |before| ensures after[i] == before[i] {
      assert t.order[i] in t.rows;
    }
    assert after == before + [stamp(id)];
  }

  /** Removing a key that does not occur changes nothing. */
  lemma {:induction false} WithoutAbsent(ids: seq<Id>, id: Id)
    requires id !in ids
    ensures Without(ids, id) == ids
  {
    if ids != [] {
      WithoutAbsent(ids[1..], id);
      assert ids == [ids[0]] + ids[1..];
    }
  }

  /** In an increasing sequence, removing the key at position `i` cuts out exactly that position. */
  lemma {:induction false} WithoutAt(ids: seq<Id>, i: nat)
    requires Increasing(ids) && i < |ids|
    ensures Without(ids, ids[i]) == ids[..i] + ids[i + 1..]
  {
    IncreasingTail(ids);
    if i == 0 {
      WithoutAbsent(ids[1..], ids[0]);
    } else {
      WithoutAt(ids[1..], i - 1);
      assert ids[1..][i - 1] == ids[i];
      assert ids[..i] == [ids[0]] + ids[1..][..i - 1];
      assert ids[i + 1..] == ids[1..][i..];
    }
  }

  /** Cutting position `i` out of the keys cuts the same position out of their rows. */
  lemma ProjectCut<V>(ids: seq<Id>, rows: map<Id, V>, rows': map<Id, V>, i: nat)
    requires i < |ids|
    requires forall k :: k in ids ==> k in rows
    requires forall k :: k in ids[..i] + ids[i + 1..] ==> k in rows' && rows'[k] == rows[k]
    ensures Project(ids[..i] + ids[i + 1..], rows') == Project(ids, rows)[..i] + Project(ids, rows)[i + 1..]
  {
    var cut := ids[..i] + ids[i + 1..];
    var before, after := Project(ids, rows), Project(cut, rows');
    forall j | 0 <= j < |after| ensures after[j] == (before[..i] + before[i + 1..])[j] {
      if j < i {
        assert cut[j] == ids[j];
      } else {
        assert cut[j] == ids[j + 1];
      }
    }
  }

  /**
    Deleting a stored key cuts its row out of findAll and leaves the other rows in their
    order; the position it had is returned.
  */
  lemma DeleteAll<V>(t: Table<V>, id: Id) returns (i: nat)
    requires WellFormed(t) && id in t.rows
    ensures i < |t.order| && t.order[i] == id
    ensures AllRows(DeleteRow(t, id).0) == AllRows(t)[..i] + AllRows(t)[i + 1..]
  {
    i :| 0 <= i < |t.order| && t.order[i] == id;
    WithoutAt(t.order, i);
    var t' := DeleteRow(t, id).0;
    assert t'.order == t.order[..i] + t.order[i + 1..];
    ProjectCut(t.order, t.rows, t'.rows, i);
  }

  /** The repository object: the table's state held in fields that its operations update. */
  class Repository<V> {
    var rows: map<Id, V>
    var order: seq<Id>
    var nextId: Id

    /** The state as a value, for the specifications above. */
    function State(): Table<V>
      reads this
    {
      Table(rows, order, nextId)
    }

    ghost predicate Valid()
      reads this
    {
      WellFormed(State())
    }

    /** An empty table. */
    constructor ()
      ensures Valid() && rows == map[] && order == []
    {
      rows, order, nextId := map[], [], 1;
    }

    method Save(key: Option<Id>, stamp: Id -> V) returns (id: Id)
      requires Valid()
      modifies this
      ensures Valid()
      ensures (State(), id) == SaveRow(old(State()), key, stamp)
    {
      if key.Some? && key.value in rows {
        id := key.value;
      } else {
        id := nextId;
        IncreasingSnoc(order, id);
        order := order + [id];
        nextId := nextId + 1;
      }
      rows := rows[id := stamp(id)];
    }

    method FindById(id: Id) returns (r: Option<V>)
      ensures r == FindRow(State(), id)
    {
      if id in rows {
        r := Some(rows[id]);
      } else {
        r := None;
      }
    }

    method FindAll() returns (vs: seq<V>)
      requires Valid()
      ensures vs == AllRows(State())
    {
      vs := Project(order, rows);
    }

    method DeleteById(id: Id) returns (outcome: Outcome<StorageError>)
      requires Valid()
      modifies this
      ensures Valid()
      ensures (State(), outcome) == DeleteRow(old(State()), id)
    {
      if id !in rows {
        return Fail(EmptyResultDataAccess(id));
      }
      WithoutIncreasing(order, id);
      rows := rows - {id};
      order := Without(order, id);
      outcome := Pass;
    }
  }
}
