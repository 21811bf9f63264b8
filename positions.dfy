/** Increasing sequences of positions: how a row filter keeps its rows in
    their original order, each at most once. */
module Positions {

  /** `idx` lists positions below `n` in strictly increasing order. */
  ghost predicate Increasing(idx: seq<int>, n: int)
  {
    && (forall i :: 0 <= i < |idx| ==> 0 <= idx[i] < n)
    && (forall i, j :: 0 <= i < j < |idx| ==> idx[i] < idx[j])
  }

  /** `r` is `s` read at the increasing positions `idx`. */
  ghost predicate Picks<T>(r: seq<T>, s: seq<T>, idx: seq<int>)
  {
    && Increasing(idx, |s|)
    && |idx| == |r|
    && (forall i :: 0 <= i < |idx| ==> r[i] == s[idx[i]])
  }

  function Shift(idx: seq<int>): (r: seq<int>)
    ensures |r| == |idx|
    ensures forall i :: 0 <= i < |idx| ==> r[i] == idx[i] + 1
  {
    seq(|idx|, i requires 0 <= i < |idx| => idx[i] + 1)
  }

  /** The positions after a new first element: the old ones move up by one,
      and 0 comes first when that element is kept. */
  function Front(idx: seq<int>, keep: bool): seq<int>
  {
    (if keep then [0] else []) + Shift(idx)
  }

  lemma FrontIncreasing(idx: seq<int>, n: int, keep: bool)
    requires Increasing(idx, n) && n >= 0
    ensures Increasing(Front(idx, keep), n + 1)
    ensures forall j :: 0 <= j <= n ==> (j in Front(idx, keep) <==> if j == 0 then keep else j - 1 in idx)
  {
    var f := Front(idx, keep);
    var sh := Shift(idx);
    ShiftIncreasing(idx, n);
    if keep {
      PrependZero(sh, n + 1);
    } else {
      assert f == sh;
    }
    forall j | 0 <= j <= n ensures j in f <==> if j == 0 then keep else j - 1 in idx {
      ShiftMember(idx, j);
    }
  }

  lemma ShiftIncreasing(idx: seq<int>, n: int)
    requires Increasing(idx, n)
    ensures Increasing(Shift(idx), n + 1)
    ensures forall i :: 0 <= i < |idx| ==> Shift(idx)[i] >= 1
  {
  }

  lemma PrependZero(sh: seq<int>, m: int)
    requires Increasing(sh, m) && m >= 1
    requires forall i :: 0 <= i < |sh| ==> sh[i] >= 1
    ensures Increasing([0] + sh, m)
  {
    var f := [0] + sh;
    forall i, j | 0 <= i < j < |f| ensures f[i] < f[j] {
      assert f[j] == sh[j - 1];
      if i > 0 { assert f[i] == sh[i - 1]; }
    }
  }

  lemma ShiftMember(idx: seq<int>, j: int)
    ensures j in Shift(idx) <==> j - 1 in idx
  {
    var sh := Shift(idx);
    if j in sh {
      var k :| 0 <= k < |sh| && sh[k] == j;
      assert idx[k] == j - 1;
    }
    if j - 1 in idx {
      var k :| 0 <= k < |idx| && idx[k] == j - 1;
      assert sh[k] == j;
    }
  }

  /** The positions after a new last element at position `n`. */
  function Back(idx: seq<int>, n: int, keep: bool): seq<int>
  {
    idx + (if keep then [n] else [])
  }

  lemma BackIncreasing(idx: seq<int>, n: int, keep: bool)
    requires Increasing(idx, n) && n >= 0
    ensures Increasing(Back(idx, n, keep), n + 1)
    ensures forall j :: 0 <= j <= n ==> (j in Back(idx, n, keep) <==> if j == n then keep else j in idx)
  {
    var b := Back(idx, n, keep);
    forall j | 0 <= j <= n ensures j in b <==> if j == n then keep else j in idx {
      if j in idx {
        var k :| 0 <= k < |idx| && idx[k] == j;
        assert b[k] == j;
      }
      if j in b {
        var k :| 0 <= k < |b| && b[k] == j;
        if k < |idx| { assert idx[k] == j; }
      }
    }
  }

  /** A filter that looks at a new first element keeps reading its input
      at increasing positions. */
  lemma PicksFront<T>(x: T, s: seq<T>, r: seq<T>, idx: seq<int>, keep: bool)
    requires Picks(r, s, idx)
    ensures Picks((if keep then [x] else []) + r, [x] + s, Front(idx, keep))
    ensures forall j :: 0 <= j <= |s| ==> (j in Front(idx, keep) <==> if j == 0 then keep else j - 1 in idx)
  {
    FrontIncreasing(idx, |s|, keep);
    var r', s', f := (if keep then [x] else []) + r, [x] + s, Front(idx, keep);
    forall i | 0 <= i < |f| ensures r'[i] == s'[f[i]] {
      if !keep || i > 0 {
        var k := if keep then i - 1 else i;
        assert f[i] == idx[k] + 1;
        assert r'[i] == r[k];
      }
    }
  }

  /** A filter that looks at a new last element keeps reading its input
      at increasing positions. */
  lemma PicksBack<T>(s: seq<T>, x: T, r: seq<T>, idx: seq<int>, keep: bool)
    requires Picks(r, s, idx)
    ensures Picks(r + (if keep then [x] else []), s + [x], Back(idx, |s|, keep))
    ensures forall j :: 0 <= j <= |s| ==> (j in Back(idx, |s|, keep) <==> if j == |s| then keep else j in idx)
  {
    BackIncreasing(idx, |s|, keep);
    var r', s', b := r + (if keep then [x] else []), s + [x], Back(idx, |s|, keep);
    forall i | 0 <= i < |b| ensures r'[i] == s'[b[i]] {
      if i < |idx| {
        assert b[i] == idx[i] && r'[i] == r[i];
      }
    }
  }
}
