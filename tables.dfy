/** Database tables as sequences of keyed rows in rowid order: the order in
    which SQLite keeps an INTEGER PRIMARY KEY table and scans it when a
    query has no ORDER BY. */
module Tables {
  import opened Wrappers

  /** A stored row together with its integer primary key. */
  datatype Keyed<T> = Keyed(id: int, row: T)

  /** Keys are positive and strictly increase along the table. */
  ghost predicate WellFormed<T>(t: seq<Keyed<T>>)
  {
    && (forall i :: 0 <= i < |t| ==> t[i].id >= 1)
    && (forall i, j :: 0 <= i < j < |t| ==> t[i].id < t[j].id)
  }

  /** The key SQLite gives an inserted row: one more than the largest key,
      or 1 in an empty table. */
  function NextId<T>(t: seq<Keyed<T>>): (id: int)
    ensures WellFormed(t) ==> id >= 1 && forall i :: 0 <= i < |t| ==> t[i].id < id
  {
    if t == [] then 1 else t[|t| - 1].id + 1
  }

  /** INSERT of one row. */
  function Insert<T>(t: seq<Keyed<T>>, x: T): seq<Keyed<T>>
  {
    t + [Keyed(NextId(t), x)]
  }

  /** INSERT of a batch of rows, in batch order, as `session.add_all` does. */
  function InsertAll<T>(t: seq<Keyed<T>>, xs: seq<T>): seq<Keyed<T>>
    decreases |xs|
  {
    if xs == [] then t else InsertAll(Insert(t, xs[0]), xs[1..])
  }

  /** DELETE ... WHERE id = key. */
  function Delete<T>(t: seq<Keyed<T>>, key: int): (r: seq<Keyed<T>>)
    ensures forall i :: 0 <= i < |r| ==> r[i] in t && r[i].id != key
    ensures forall i :: 0 <= i < |t| && t[i].id != key ==> t[i] in r
    ensures |r| <= |t|
  {
    if t == [] then []
    else (if t[0].id == key then [] else [t[0]]) + Delete(t[1..], key)
  }

  /** Lookup by primary key; the first row with that key. */
  function Find<T>(t: seq<Keyed<T>>, key: int): (r: Option<T>)
    ensures r.Some? ==> Keyed(key, r.value) in t
    ensures r.None? ==> forall i :: 0 <= i < |t| ==> t[i].id != key
  {
    if t == [] then None
    else if t[0].id == key then Some(t[0].row)
    else Find(t[1..], key)
  }

  /** In a well-formed table a key finds the row stored under it. */
  lemma {:induction false} FindAt<T>(t: seq<Keyed<T>>, i: int)
    requires WellFormed(t) && 0 <= i < |t|
    ensures Find(t, t[i].id) == Some(t[i].row)
  {
    if i > 0 {
      assert t[0].id < t[i].id;
      FindAt(t[1..], i - 1);
    }
  }

  /** The stored rows without their keys. */
  function Rows<T>(t: seq<Keyed<T>>): (r: seq<T>)
    ensures |r| == |t|
    ensures forall i :: 0 <= i < |t| ==> r[i] == t[i].row
  {
    seq(|t|, i requires 0 <= i < |t| => t[i].row)
  }

  /** Inserting keeps the keys positive and increasing, the new row gets a
      key no other row has, and nothing else changes. */
  lemma InsertWellFormed<T>(t: seq<Keyed<T>>, x: T)
    requires WellFormed(t)
    ensures WellFormed(Insert(t, x))
    ensures Rows(Insert(t, x)) == Rows(t) + [x]
    ensures forall i :: 0 <= i < |t| ==> t[i].id != NextId(t)
  {
    assert Rows(Insert(t, x)) == Rows(t) + [x];
  }

  /** A batch insert appends exactly the batch, in order, after the old rows. */
  lemma {:induction false} InsertAllWellFormed<T>(t: seq<Keyed<T>>, xs: seq<T>)
    requires WellFormed(t)
    ensures WellFormed(InsertAll(t, xs))
    ensures Rows(InsertAll(t, xs)) == Rows(t) + xs
    ensures InsertAll(t, xs)[..|t|] == t
    decreases |xs|
  {
    if xs == [] {
      assert Rows(t) + [] == Rows(t);
    } else {
      InsertWellFormed(t, xs[0]);
      InsertAllWellFormed(Insert(t, xs[0]), xs[1..]);
      assert Rows(t) + [xs[0]] + xs[1..] == Rows(t) + xs;
      assert InsertAll(t, xs)[..|t|] == InsertAll(Insert(t, xs[0]), xs[1..])[..|t| + 1][..|t|];
    }
  }

  /** A row whose key is below every key of a well-formed table can be put in front of it. */
  lemma PrependWellFormed<T>(x: Keyed<T>, r: seq<Keyed<T>>)
    requires WellFormed(r) && x.id >= 1
    requires forall i :: 0 <= i < |r| ==> x.id < r[i].id
    ensures WellFormed([x] + r)
  {
    var s := [x] + r;
    forall i, j | 0 <= i < j < |s| ensures s[i].id < s[j].id {
      assert s[j] == r[j - 1];
      if i > 0 { assert s[i] == r[i - 1]; }
    }
  }

  /** Deleting keeps the remaining rows in order. */
  lemma {:induction false} DeleteWellFormed<T>(t: seq<Keyed<T>>, key: int)
    requires WellFormed(t)
    ensures WellFormed(Delete(t, key))
  {
    if t != [] {
      var tail := t[1..];
      var rest := Delete(tail, key);
      DeleteWellFormed(tail, key);
      forall i | 0 <= i < |rest| ensures t[0].id < rest[i].id {
        var k :| 0 <= k < |tail| && tail[k] == rest[i];
        assert t[k + 1] == rest[i];
      }
      if t[0].id != key {
        PrependWellFormed(t[0], rest);
      }
    }
  }

  /** Deleting a key that no row has leaves the table as it was. */
  lemma {:induction false} DeleteMissing<T>(t: seq<Keyed<T>>, key: int)
    requires forall i :: 0 <= i < |t| ==> t[i].id != key
    ensures Delete(t, key) == t
  {
    if t != [] {
      assert t[0].id != key;
      DeleteMissing(t[1..], key);
      assert [t[0]] + t[1..] == t;
    }
  }
}
