/**
 * The in-memory table of a database-backed model (Sources/TableModel.h): a
 * cache of rows, a log of local edits and a log of edits staged for the
 * database. Every edit changes the cache at once and is logged; `stage`
 * moves the local log onto the staged one; `rollback` forgets both logs.
 *
 * The row type is a parameter; only its `id` is looked at.
 */
module TableModelMod {
  import opened Wrappers

  /** A row: its `id` and the rest of its columns. */
  datatype Row<T> = Row(id: int, columns: T)

  /** `Op` (TableModel.h:6). */
  datatype Op = Insert | Update | Delete

  /** `PendingOp` (TableModel.h:8-12): an edit and the row it carries. */
  datatype PendingOp<T> = PendingOp(op: Op, row: Row<T>)

  /** The index of the first row of `c` with the given id: the iterator `std::find_if` returns. */
  function FindFirst<T>(c: seq<Row<T>>, id: int): Option<nat>
  {
    FirstWhere(c, (row: Row<T>) => row.id == id)
  }

  /** The cache after one logged edit is applied to it. */
  function ApplyOp<T>(c: seq<Row<T>>, p: PendingOp<T>): seq<Row<T>>
  {
    match p.op
    case Insert => c + [p.row]
    case Update =>
      (match FindFirst(c, p.row.id)
       case None => c
       case Some(i) => c[i := p.row])
    case Delete =>
      (match FindFirst(c, p.row.id)
       case None => c
       case Some(i) => c[..i] + c[i + 1..])
  }

  /** The cache after a log of edits is applied to it, oldest first. */
  function Replay<T>(c: seq<Row<T>>, ops: seq<PendingOp<T>>): seq<Row<T>>
    decreases |ops|
  {
    if |ops| == 0 then c else Replay(ApplyOp(c, ops[0]), ops[1..])
  }

  /** Replaying a log with one more edit at its end applies that edit last. */
  lemma {:induction false} ReplayAppend<T>(c: seq<Row<T>>, ops: seq<PendingOp<T>>, p: PendingOp<T>)
    ensures Replay(c, ops + [p]) == ApplyOp(Replay(c, ops), p)
    decreases |ops|
  {
    if |ops| == 0 {
      assert ops + [p] == [p];
      assert [p][1..] == [];
    } else {
      assert (ops + [p])[0] == ops[0];
      assert (ops + [p])[1..] == ops[1..] + [p];
      ReplayAppend(ApplyOp(c, ops[0]), ops[1..], p);
    }
  }

  /** `TableModel<RowT>`. */
  class TableModel<T> {
    var cache: seq<Row<T>>
    var original: seq<Row<T>>
    var local: seq<PendingOp<T>>
    var dbPending: seq<PendingOp<T>>
    /** The cache as it stood before the first edit of either log. */
    ghost var base: seq<Row<T>>

    /** The two logs, staged edits first, replay the base into the cache. */
    ghost predicate Valid()
      reads this
    {
      cache == Replay(base, dbPending + local)
    }

    constructor ()
      ensures Valid() && cache == [] && original == [] && local == [] && dbPending == []
    {
      cache := [];
      original := [];
      local := [];
      dbPending := [];
      base := [];
    }

    /** `data` (TableModel.h:25). */
    function Data(): seq<Row<T>>
      reads this
    {
      cache
    }

    /** The `find_if` loop of `update` and `remove`: the first cached row with the id. */
    method Find(id: int) returns (r: Option<nat>)
      ensures r == FindFirst(cache, id)
    {
      var i := 0;
      while i < |cache|
        invariant 0 <= i <= |cache|
        invariant forall j | 0 <= j < i :: cache[j].id != id
        invariant FindFirst(cache[i..], id) == (match FindFirst(cache, id) case None => None case Some(k) => Some(k - i))
      {
        if cache[i].id == id {
          return Some(i);
        }
        assert cache[i..][1..] == cache[i + 1..];
        i := i + 1;
      }
      return None;
    }

    /** Logs one edit after it has been applied to the cache. */
    method Log(p: PendingOp<T>)
      requires cache == ApplyOp(Replay(base, dbPending + local), p)
      modifies this
      ensures Valid() && local == old(local) + [p]
      ensures cache == old(cache) && original == old(original) && dbPending == old(dbPending) && base == old(base)
    {
      ReplayAppend(base, dbPending + local, p);
      assert dbPending + local + [p] == dbPending + (local + [p]);
      local := local + [p];
    }

    /** `insert` (TableModel.h:27-30): the row is appended to the cache and an Insert is logged. */
    method InsertRow(r: Row<T>)
      requires Valid()
      modifies this
      ensures Valid()
      ensures cache == old(cache) + [r] && local == old(local) + [PendingOp(Insert, r)]
      ensures dbPending == old(dbPending) && original == old(original)
    {
      cache := cache + [r];
      Log(PendingOp(Insert, r));
    }

    /**
     * `update` (TableModel.h:32-39): the first cached row with the same id is
     * replaced and an Update is logged; an unknown id changes nothing.
     */
    method UpdateRow(r: Row<T>)
      requires Valid()
      modifies this
      ensures Valid()
      ensures FindFirst(old(cache), r.id).None? ==>
        cache == old(cache) && local == old(local)
      ensures FindFirst(old(cache), r.id).Some? ==>
        cache == old(cache)[FindFirst(old(cache), r.id).value := r] && local == old(local) + [PendingOp(Update, r)]
      ensures dbPending == old(dbPending) && original == old(original)
    {
      var it := Find(r.id);
      if it.Some? {
        cache := cache[it.value := r];
        Log(PendingOp(Update, r));
      }
    }

    /**
     * `remove` (TableModel.h:41-48): the first cached row with the id is
     * erased and a Delete carrying that row is logged; an unknown id changes nothing.
     */
    method RemoveRow(id: int)
      requires Valid()
      modifies this
      ensures Valid()
      ensures FindFirst(old(cache), id).None? ==> cache == old(cache) && local == old(local)
      ensures FindFirst(old(cache), id).Some? ==>
        var i := FindFirst(old(cache), id).value;
        cache == old(cache)[..i] + old(cache)[i + 1..] &&
        local == old(local) + [PendingOp(Delete, old(cache)[i])]
      ensures |cache| <= |old(cache)| && dbPending == old(dbPending) && original == old(original)
    {
      var it := Find(id);
      if it.Some? {
        var i := it.value;
        var row := cache[i];
        assert FindFirst(cache, row.id) == it;
        cache := cache[..i] + cache[i + 1..];
        Log(PendingOp(Delete, row));
      }
    }

    /** `load_from_storage` (TableModel.h:50-56), with the rows the storage returns as a parameter. */
    method LoadFromStorage(rows: seq<Row<T>>)
      modifies this
      ensures Valid() && cache == rows && original == rows && local == [] && dbPending == []
    {
      cache := rows;
      original := cache;
      local := [];
      dbPending := [];
      base := rows;
    }

    /** `stage` (TableModel.h:58-63): the local edits move, in order, to the end of the staged ones. */
    method Stage()
      requires Valid()
      modifies this
      ensures Valid()
      ensures dbPending == old(dbPending) + old(local) && local == []
      ensures cache == old(cache) && original == old(original)
    {
      var i := 0;
      while i < |local|
        invariant 0 <= i <= |local|
        invariant dbPending == old(dbPending) + local[..i]
        invariant cache == old(cache) && local == old(local) && base == old(base) && original == old(original)
      {
        assert local[..i + 1] == local[..i] + [local[i]];
        dbPending := dbPending + [local[i]];
        i := i + 1;
      }
      assert local[..i] == local;
      local := [];
      assert dbPending + local == old(dbPending) + old(local);
    }

    /**
     * `rollback` (TableModel.h:65-68): both logs are emptied and the cache is
     * kept as it is, so the edits stay visible and are simply never written.
     */
    method Rollback()
      modifies this
      ensures Valid() && local == [] && dbPending == []
      ensures cache == old(cache) && original == old(original)
    {
      dbPending := [];
      local := [];
      base := cache;
    }

    /** `get_pending_copy` (TableModel.h:71-73). */
    function GetPendingCopy(): seq<PendingOp<T>>
      reads this
    {
      dbPending
    }

    /** `pending_count` (TableModel.h:75-77). */
    function PendingCount(): (n: nat)
      reads this
      ensures n == |GetPendingCopy()|
    {
      |dbPending|
    }
  }

  /** Staging loses and reorders nothing: replaying the staged log gives the cache once the local log is empty. */
  lemma StagedLogReplays<T>(m: TableModel<T>)
    requires m.Valid() && m.local == []
    ensures m.cache == Replay(m.base, m.GetPendingCopy())
  {
    assert m.dbPending + m.local == m.dbPending;
  }
}
