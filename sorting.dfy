/** A stable sort on an integer key: the model of `ORDER BY date` and of
    pandas' `sort_values('date')`, with rows of equal date kept in the order
    the table scan produced them. */
module Sorting {
  import RealSeq

  ghost predicate SortedBy<T>(s: seq<T>, key: T -> int)
  {
    forall i, j :: 0 <= i < j < |s| ==> key(s[i]) <= key(s[j])
  }

  /** The rows of `s` whose key is `k`, in order. */
  function WithKey<T>(s: seq<T>, key: T -> int, k: int): (r: seq<T>)
    ensures |r| <= |s|
  {
    if s == [] then []
    else (if key(s[0]) == k then [s[0]] else []) + WithKey(s[1..], key, k)
  }

  /** Puts `x` before the first row whose key is not below `x`'s. */
  function InsertByKey<T>(x: T, s: seq<T>, key: T -> int): (r: seq<T>)
    ensures |r| == |s| + 1
    ensures multiset(r) == multiset(s) + multiset{x}
  {
    if s == [] then [x]
    else if key(x) <= key(s[0]) then [x] + s
    else
      assert s == [s[0]] + s[1..];
      [s[0]] + InsertByKey(x, s[1..], key)
  }

  function SortByKey<T>(s: seq<T>, key: T -> int): (r: seq<T>)
    ensures |r| == |s|
    ensures multiset(r) == multiset(s)
  {
    if s == [] then []
    else
      assert s == [s[0]] + s[1..];
      InsertByKey(s[0], SortByKey(s[1..], key), key)
  }

  lemma {:induction false} InsertSorted<T>(x: T, s: seq<T>, key: T -> int)
    requires SortedBy(s, key)
    ensures SortedBy(InsertByKey(x, s, key), key)
  {
    if s == [] || key(x) <= key(s[0]) {
      InsertInFront(x, s, key);
    } else {
      assert SortedBy(s[1..], key);
      InsertSorted(x, s[1..], key);
      InsertLowerBound(x, s, key);
      PrependSorted(s[0], InsertByKey(x, s[1..], key), key);
    }
  }

  lemma InsertInFront<T>(x: T, s: seq<T>, key: T -> int)
    requires SortedBy(s, key) && (s == [] || key(x) <= key(s[0]))
    ensures SortedBy(InsertByKey(x, s, key), key)
  {
    assert InsertByKey(x, s, key) == [x] + s;
    PrependSorted(x, s, key);
  }

  /** Every row of the inserted tail is at or above the head it follows. */
  lemma InsertLowerBound<T>(x: T, s: seq<T>, key: T -> int)
    requires SortedBy(s, key) && s != [] && key(x) > key(s[0])
    ensures forall i :: 0 <= i < |InsertByKey(x, s[1..], key)| ==> key(s[0]) <= key(InsertByKey(x, s[1..], key)[i])
  {
    var rest := InsertByKey(x, s[1..], key);
    forall i | 0 <= i < |rest| ensures key(s[0]) <= key(rest[i]) {
      assert rest[i] in multiset(rest);
      if rest[i] != x {
        assert rest[i] in multiset(s[1..]);
        var j :| 0 <= j < |s[1..]| && s[1..][j] == rest[i];
        assert s[j + 1] == rest[i];
      }
    }
  }

  lemma PrependSorted<T>(y: T, r: seq<T>, key: T -> int)
    requires SortedBy(r, key)
    requires forall i :: 0 <= i < |r| ==> key(y) <= key(r[i])
    ensures SortedBy([y] + r, key)
  {
    var t := [y] + r;
    forall i, j | 0 <= i < j < |t| ensures key(t[i]) <= key(t[j]) {
      assert t[j] == r[j - 1];
      if i > 0 { assert t[i] == r[i - 1]; }
    }
  }

  /** The sorted rows are in ascending key order ... */
  lemma {:induction false} SortSorted<T>(s: seq<T>, key: T -> int)
    ensures SortedBy(SortByKey(s, key), key)
  {
    if s != [] {
      SortSorted(s[1..], key);
      InsertSorted(s[0], SortByKey(s[1..], key), key);
    }
  }

  /** `WithKey` of a sequence with a known first row. */
  lemma WithKeyCons<T>(y: T, s: seq<T>, key: T -> int, k: int)
    ensures WithKey([y] + s, key, k) == (if key(y) == k then [y] else []) + WithKey(s, key, k)
  {
    assert ([y] + s)[0] == y && ([y] + s)[1..] == s;
  }

  lemma SwapDisjoint<T>(xs: seq<T>, ys: seq<T>, zs: seq<T>)
    requires xs == [] || ys == []
    ensures ys + (xs + zs) == xs + (ys + zs)
  {
  }

  lemma {:induction false} InsertWithKey<T>(x: T, s: seq<T>, key: T -> int, k: int)
    ensures WithKey(InsertByKey(x, s, key), key, k)
         == (if key(x) == k then [x] else []) + WithKey(s, key, k)
  {
    if s == [] {
      WithKeyCons(x, s, key, k);
      assert InsertByKey(x, s, key) == [x] + s;
    } else if key(x) <= key(s[0]) {
      WithKeyCons(x, s, key, k);
    } else {
      InsertWithKey(x, s[1..], key, k);
      InsertAfterFirst(x, s, key, k);
    }
  }

  lemma InsertAfterFirst<T>(x: T, s: seq<T>, key: T -> int, k: int)
    requires s != [] && key(x) > key(s[0])
    requires WithKey(InsertByKey(x, s[1..], key), key, k)
          == (if key(x) == k then [x] else []) + WithKey(s[1..], key, k)
    ensures WithKey(InsertByKey(x, s, key), key, k)
         == (if key(x) == k then [x] else []) + WithKey(s, key, k)
  {
    var rest := InsertByKey(x, s[1..], key);
    assert InsertByKey(x, s, key) == [s[0]] + rest;
    WithKeyCons(s[0], rest, key, k);
    WithKeyCons(s[0], s[1..], key, k);
    assert s == [s[0]] + s[1..];
    SwapDisjoint(if key(x) == k then [x] else [], if key(s[0]) == k then [s[0]] else [], WithKey(s[1..], key, k));
  }

  /** ... and rows with the same key keep their relative order (stability). */
  lemma {:induction false} SortStable<T>(s: seq<T>, key: T -> int, k: int)
    ensures WithKey(SortByKey(s, key), key, k) == WithKey(s, key, k)
  {
    if s != [] {
      SortStable(s[1..], key, k);
      InsertWithKey(s[0], SortByKey(s[1..], key), key, k);
    }
  }

  lemma ColumnCons<T>(y: T, s: seq<T>, f: T -> real)
    ensures RealSeq.Column([y] + s, f) == [f(y)] + RealSeq.Column(s, f)
  {
  }

  lemma SumCons(v: real, s: seq<real>)
    ensures RealSeq.Sum([v] + s) == v + RealSeq.Sum(s)
  {
    RealSeq.SumConcat([v], s);
    assert RealSeq.Sum([v]) == v by { RealSeq.SumAppend([], v); assert [] + [v] == [v]; }
  }

  lemma {:induction false} InsertSum<T>(x: T, s: seq<T>, key: T -> int, f: T -> real)
    ensures RealSeq.Sum(RealSeq.Column(InsertByKey(x, s, key), f))
         == f(x) + RealSeq.Sum(RealSeq.Column(s, f))
  {
    if s == [] || key(x) <= key(s[0]) {
      assert InsertByKey(x, s, key) == [x] + s;
      ColumnCons(x, s, f);
      SumCons(f(x), RealSeq.Column(s, f));
    } else {
      InsertSum(x, s[1..], key, f);
      InsertSumStep(x, s, key, f);
    }
  }

  lemma InsertSumStep<T>(x: T, s: seq<T>, key: T -> int, f: T -> real)
    requires s != [] && key(x) > key(s[0])
    requires RealSeq.Sum(RealSeq.Column(InsertByKey(x, s[1..], key), f))
          == f(x) + RealSeq.Sum(RealSeq.Column(s[1..], f))
    ensures RealSeq.Sum(RealSeq.Column(InsertByKey(x, s, key), f))
         == f(x) + RealSeq.Sum(RealSeq.Column(s, f))
  {
    var rest := InsertByKey(x, s[1..], key);
    assert InsertByKey(x, s, key) == [s[0]] + rest;
    assert s == [s[0]] + s[1..];
    ColumnCons(s[0], rest, f);
    ColumnCons(s[0], s[1..], f);
    SumCons(f(s[0]), RealSeq.Column(rest, f));
    SumCons(f(s[0]), RealSeq.Column(s[1..], f));
  }

  /** Sorting does not change the sum of a column. */
  lemma {:induction false} SortSum<T>(s: seq<T>, key: T -> int, f: T -> real)
    ensures RealSeq.Sum(RealSeq.Column(SortByKey(s, key), f)) == RealSeq.Sum(RealSeq.Column(s, f))
  {
    if s != [] {
      SortSum(s[1..], key, f);
      InsertSum(s[0], SortByKey(s[1..], key), key, f);
      assert RealSeq.Column(s, f) == [f(s[0])] + RealSeq.Column(s[1..], f);
    }
  }
}
