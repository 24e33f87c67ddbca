/** The generic record store (app/crud/base.py, `CRUDBase`): one table of rows with an
    auto-incremented primary key, kept in insertion order. */
module Crud {
  import opened Wrappers

  /** A stored record: its primary key and its other columns. */
  datatype Row<R> = Row(id: int, rec: R)

  /** The first row that satisfies `p`, in store order (`.scalars().first()`). */
  function First<R>(rows: seq<Row<R>>, p: Row<R> -> bool): (r: Option<Row<R>>)
    ensures r.Some? ==> r.value in rows && p(r.value)
    ensures r.Some? ==> exists i :: 0 <= i < |rows| && rows[i] == r.value && forall j :: 0 <= j < i ==> !p(rows[j])
    ensures r.None? <==> forall i :: 0 <= i < |rows| ==> !p(rows[i])
  {
    if rows == [] then None
    else if p(rows[0]) then Some(rows[0])
    else First(rows[1..], p)
  }

  /** The rows that satisfy `p`, in store order (a SQL `WHERE`). */
  function Filter<R>(rows: seq<Row<R>>, p: Row<R> -> bool): (r: seq<Row<R>>)
    ensures |r| <= |rows|
    ensures forall i :: 0 <= i < |r| ==> r[i] in rows && p(r[i])
    ensures forall i :: 0 <= i < |rows| && p(rows[i]) ==> rows[i] in r
  {
    if rows == [] then []
    else if p(rows[0]) then [rows[0]] + Filter(rows[1..], p)
    else Filter(rows[1..], p)
  }

  /** `OFFSET skip LIMIT limit`: at most `limit` elements, starting at position `skip`. */
  function Page<T>(s: seq<T>, skip: nat, limit: nat): (r: seq<T>)
    ensures |r| <= limit
    ensures skip >= |s| ==> r == []
    ensures skip < |s| ==> |r| == if skip + limit <= |s| then limit else |s| - skip
    ensures forall k :: 0 <= k < |r| ==> skip + k < |s| && r[k] == s[skip + k]
  {
    if skip >= |s| then []
    else if skip + limit <= |s| then s[skip..skip + limit]
    else s[skip..]
  }

  /** The rows after `row` has overwritten the row that has its key. */
  function Replace<R>(rows: seq<Row<R>>, row: Row<R>): (r: seq<Row<R>>)
    ensures |r| == |rows|
    ensures forall i :: 0 <= i < |rows| ==> r[i] == if rows[i].id == row.id then row else rows[i]
  {
    seq(|rows|, i requires 0 <= i < |rows| => if rows[i].id == row.id then row else rows[i])
  }

  /** After `Replace`, a row whose key was present is in the table. */
  lemma ReplacedIsPresent<R>(rows: seq<Row<R>>, row: Row<R>)
    requires exists i :: 0 <= i < |rows| && rows[i].id == row.id
    ensures row in Replace(rows, row)
  {
    var i :| 0 <= i < |rows| && rows[i].id == row.id;
    assert Replace(rows, row)[i] == row;
  }

  /** The rows without the one whose key is `id`, the others in their order. */
  function Without<R>(rows: seq<Row<R>>, id: int): (r: seq<Row<R>>)
    ensures forall i :: 0 <= i < |r| ==> r[i] in rows && r[i].id != id
    ensures forall i :: 0 <= i < |rows| && rows[i].id != id ==> rows[i] in r
  {
    Filter(rows, (x: Row<R>) => x.id != id)
  }

  /** Filtering distributes over concatenation: each part keeps its own matching rows, in
      order, so no row is repeated or moved. */
  lemma {:induction false} FilterConcat<R>(a: seq<Row<R>>, b: seq<Row<R>>, p: Row<R> -> bool)
    ensures Filter(a + b, p) == Filter(a, p) + Filter(b, p)
  {
    if a == [] {
      assert a + b == b;
    } else {
      assert (a + b)[0] == a[0] && (a + b)[1..] == a[1..] + b;
      FilterConcat(a[1..], b, p);
    }
  }

  /** A row appended to the store comes last among the matching rows when it matches. */
  lemma FilterAppend<R>(rows: seq<Row<R>>, x: Row<R>, p: Row<R> -> bool)
    ensures Filter(rows + [x], p) == Filter(rows, p) + (if p(x) then [x] else [])
  {
    FilterConcat(rows, [x], p);
    assert [x][1..] == [];
  }

  /** When every row matches, filtering keeps the store as it is. */
  lemma {:induction false} FilterAll<R>(rows: seq<Row<R>>, p: Row<R> -> bool)
    requires forall i :: 0 <= i < |rows| ==> p(rows[i])
    ensures Filter(rows, p) == rows
  {
    if rows != [] {
      FilterAll(rows[1..], p);
    }
  }

  /** Deleting a stored key takes out exactly the one row at its position and keeps every
      other row in its order. */
  lemma WithoutAt<R>(rows: seq<Row<R>>, i: int)
    requires KeysUnique(rows) && 0 <= i < |rows|
    ensures Without(rows, rows[i].id) == rows[..i] + rows[i + 1..]
    ensures |Without(rows, rows[i].id)| == |rows| - 1
  {
    var id := rows[i].id;
    var p := (x: Row<R>) => x.id != id;
    var a, b := rows[..i], rows[i + 1..];
    assert rows == a + [rows[i]] + b;
    FilterConcat(a + [rows[i]], b, p);
    FilterConcat(a, [rows[i]], p);
    assert [rows[i]][1..] == [];
    forall k | 0 <= k < |a| ensures p(a[k]) {
      assert a[k] == rows[k];
    }
    FilterAll(a, p);
    forall k | 0 <= k < |b| ensures p(b[k]) {
      assert b[k] == rows[i + 1 + k];
    }
    FilterAll(b, p);
  }

  /** Deleting a key that is not stored changes nothing. */
  lemma WithoutMissing<R>(rows: seq<Row<R>>, id: int)
    requires forall i :: 0 <= i < |rows| ==> rows[i].id != id
    ensures Without(rows, id) == rows
  {
    FilterAll(rows, (x: Row<R>) => x.id != id);
  }

  /** The partial update of `rec` by the assignments of `data`, applied in order through
      `assign` (the `setattr` loop); defined from the last assignment backwards. */
  function Merge<R, A>(rec: R, data: seq<A>, assign: (R, A) -> R): R {
    if data == [] then rec
    else assign(Merge(rec, data[..|data| - 1], assign), data[|data| - 1])
  }

  /** Primary keys are unique: no two positions of the store hold the same key. */
  ghost predicate KeysUnique<R>(rows: seq<Row<R>>) {
    forall i, j :: 0 <= i < |rows| && 0 <= j < |rows| && rows[i].id == rows[j].id ==> i == j
  }

  /** In a table with unique keys, looking a row's key up finds that row. */
  lemma FindByKey<R>(rows: seq<Row<R>>, row: Row<R>)
    requires KeysUnique(rows) && row in rows
    ensures First(rows, (x: Row<R>) => x.id == row.id) == Some(row)
  {
  }

  class Table<R> {
    /** The rows in insertion order. */
    var rows: seq<Row<R>>
    /** The next value of the key sequence; keys are never reused. */
    var nextId: int

    ghost predicate Valid()
      reads this
    {
      && KeysUnique(rows)
      && nextId >= 1
      && forall x :: x in rows ==> 1 <= x.id < nextId
    }

    constructor ()
      ensures Valid() && rows == [] && nextId == 1
    {
      rows := [];
      nextId := 1;
    }

    /** `get`: the row with that key, or `None` when there is none. */
    function Get(id: int): (r: Option<Row<R>>)
      reads this
      ensures r.Some? ==> r.value in rows && r.value.id == id
      ensures r.None? <==> forall i :: 0 <= i < |rows| ==> rows[i].id != id
    {
      First(rows, (x: Row<R>) => x.id == id)
    }

    /** `get_multi`: at most `limit` rows from position `skip`, in store order. */
    function GetMulti(skip: nat, limit: nat): (r: seq<Row<R>>)
      reads this
      ensures |r| <= limit
      ensures forall k :: 0 <= k < |r| ==> skip + k < |rows| && r[k] == rows[skip + k]
      ensures skip < |rows| ==> |r| == if skip + limit <= |rows| then limit else |rows| - skip
    {
      Page(rows, skip, limit)
    }

    /** `create`: insert one row; the database assigns the next key. */
    method Create(rec: R) returns (row: Row<R>)
      requires Valid()
      modifies this
      ensures Valid()
      ensures row == Row(old(nextId), rec)
      ensures rows == old(rows) + [row] && nextId == old(nextId) + 1
    {
      row := Row(nextId, rec);
      rows := rows + [row];
      nextId := nextId + 1;
    }

    /** `update`: apply the assignments of `data` to the stored object `obj` one after the
        other, then write it back; no other row changes. */
    method Update<A>(obj: Row<R>, data: seq<A>, assign: (R, A) -> R) returns (updated: Row<R>)
      requires Valid() && obj in rows
      modifies this
      ensures Valid()
      ensures updated == Row(obj.id, Merge(obj.rec, data, assign))
      ensures rows == Replace(old(rows), updated) && nextId == old(nextId)
    {
      var rec := obj.rec;
      var i := 0;
      while i < |data|
        invariant 0 <= i <= |data|
        invariant rec == Merge(obj.rec, data[..i], assign)
      {
        assert data[..i + 1][..i] == data[..i];
        rec := assign(rec, data[i]);
        i := i + 1;
      }
      assert data[..|data|] == data;
      updated := Row(obj.id, rec);
      rows := Replace(rows, updated);
    }

    /** `remove`: delete the row with that key and return it, or return `None` and change
        nothing when there is no such row. */
    method Remove(id: int) returns (removed: Option<Row<R>>)
      requires Valid()
      modifies this
      ensures Valid()
      ensures removed == old(Get(id))
      ensures removed.None? ==> rows == old(rows)
      ensures removed.Some? ==> rows == Without(old(rows), id)
      ensures removed.Some? ==>
        exists i :: 0 <= i < |old(rows)| && old(rows)[i] == removed.value && rows == old(rows)[..i] + old(rows)[i + 1..]
      ensures nextId == old(nextId)
    {
      removed := Get(id);
      if removed.Some? {
        ghost var i :| 0 <= i < |rows| && rows[i] == removed.value;
        WithoutAt(rows, i);
        rows := Without(rows, id);
      }
    }
  }
}
