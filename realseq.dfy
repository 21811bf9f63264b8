/** Sums over sequences of reals and the pointwise operations that the
    consumption totals and the least-squares fit are written with. */
module RealSeq {

  /** Sum of a sequence, in index order. */
  function Sum(s: seq<real>): real
  {
    if s == [] then 0.0 else s[0] + Sum(s[1..])
  }

  /** The column of `f` over a table of rows, as pandas' `df[col]`. */
  function Column<T>(rows: seq<T>, f: T -> real): (r: seq<real>)
    ensures |r| == |rows|
    ensures forall i :: 0 <= i < |r| ==> r[i] == f(rows[i])
  {
    seq(|rows|, i requires 0 <= i < |rows| => f(rows[i]))
  }

  lemma ColumnConcat<T>(a: seq<T>, b: seq<T>, f: T -> real)
    ensures Column(a + b, f) == Column(a, f) + Column(b, f)
  {
  }

  /** Pointwise `alpha * u[i] + beta * v[i]`. */
  function Lin(alpha: real, u: seq<real>, beta: real, v: seq<real>): (r: seq<real>)
    requires |u| == |v|
    ensures |r| == |u|
    ensures forall i :: 0 <= i < |r| ==> r[i] == alpha * u[i] + beta * v[i]
  {
    seq(|u|, i requires 0 <= i < |u| => alpha * u[i] + beta * v[i])
  }

  /** Pointwise product. */
  function Mul(u: seq<real>, v: seq<real>): (r: seq<real>)
    requires |u| == |v|
    ensures |r| == |u|
    ensures forall i :: 0 <= i < |r| ==> r[i] == u[i] * v[i]
  {
    seq(|u|, i requires 0 <= i < |u| => u[i] * v[i])
  }

  /** Pointwise difference. */
  function Sub(u: seq<real>, v: seq<real>): (r: seq<real>)
    requires |u| == |v|
    ensures |r| == |u|
    ensures forall i :: 0 <= i < |r| ==> r[i] == u[i] - v[i]
  {
    seq(|u|, i requires 0 <= i < |u| => u[i] - v[i])
  }

  /** `a + b * x` at every point of `xs`. */
  function Affine(a: real, b: real, xs: seq<real>): (r: seq<real>)
    ensures |r| == |xs|
    ensures forall i :: 0 <= i < |r| ==> r[i] == a + b * xs[i]
  {
    seq(|xs|, i requires 0 <= i < |xs| => a + b * xs[i])
  }

  /** Sum of squares. */
  function SumSq(s: seq<real>): real
  {
    Sum(Mul(s, s))
  }

  /** Arithmetic mean; the source only averages non-empty columns here. */
  function Mean(s: seq<real>): real
    requires |s| > 0
  {
    Sum(s) / (|s| as real)
  }

  lemma {:induction false} SumAppend(s: seq<real>, x: real)
    ensures Sum(s + [x]) == Sum(s) + x
  {
    if s == [] {
      assert [] + [x] == [x];
    } else {
      assert (s + [x])[1..] == s[1..] + [x];
      SumAppend(s[1..], x);
    }
  }

  lemma {:induction false} SumConcat(s: seq<real>, t: seq<real>)
    ensures Sum(s + t) == Sum(s) + Sum(t)
  {
    if s == [] {
      assert [] + t == t;
    } else {
      assert (s + t)[1..] == s[1..] + t;
      SumConcat(s[1..], t);
    }
  }

  /** Pointwise `alpha * u[i]`. */
  function Scale(alpha: real, u: seq<real>): (r: seq<real>)
    ensures |r| == |u|
    ensures forall i :: 0 <= i < |r| ==> r[i] == alpha * u[i]
  {
    seq(|u|, i requires 0 <= i < |u| => alpha * u[i])
  }

  /** Pointwise sum. */
  function Add(u: seq<real>, v: seq<real>): (r: seq<real>)
    requires |u| == |v|
    ensures |r| == |u|
    ensures forall i :: 0 <= i < |r| ==> r[i] == u[i] + v[i]
  {
    seq(|u|, i requires 0 <= i < |u| => u[i] + v[i])
  }

  lemma ScaleStep(alpha: real, s0: real, st: real, u0: real, su: real, tu: real)
    requires s0 == alpha * u0 && st == alpha * su && tu == u0 + su
    ensures s0 + st == alpha * tu
  {
  }

  lemma ScaleTail(alpha: real, u: seq<real>)
    requires u != []
    ensures Scale(alpha, u)[1..] == Scale(alpha, u[1..])
  {
    var sc := Scale(alpha, u);
    forall i | 0 <= i < |u| - 1 ensures sc[1..][i] == Scale(alpha, u[1..])[i] {
      assert sc[1..][i] == sc[i + 1];
    }
  }

  lemma {:induction false} SumScale(alpha: real, u: seq<real>)
    ensures Sum(Scale(alpha, u)) == alpha * Sum(u)
    decreases |u|
  {
    var sc := Scale(alpha, u);
    if u == [] {
      assert sc == [];
    } else {
      ScaleTail(alpha, u);
      SumScale(alpha, u[1..]);
      ScaleStep(alpha, sc[0], Sum(sc[1..]), u[0], Sum(u[1..]), Sum(u));
    }
  }

  lemma {:induction false} SumAdd(u: seq<real>, v: seq<real>)
    requires |u| == |v|
    ensures Sum(Add(u, v)) == Sum(u) + Sum(v)
    decreases |u|
  {
    if u != [] {
      forall i | 0 <= i < |u| - 1 ensures Add(u, v)[1..][i] == Add(u[1..], v[1..])[i] {
        assert Add(u, v)[1..][i] == Add(u, v)[i + 1];
      }
      assert Add(u, v)[1..] == Add(u[1..], v[1..]);
      SumAdd(u[1..], v[1..]);
    }
  }

  /** Sums are linear. */
  lemma SumLin(alpha: real, u: seq<real>, beta: real, v: seq<real>)
    requires |u| == |v|
    ensures Sum(Lin(alpha, u, beta, v)) == alpha * Sum(u) + beta * Sum(v)
  {
    assert Lin(alpha, u, beta, v) == Add(Scale(alpha, u), Scale(beta, v));
    SumAdd(Scale(alpha, u), Scale(beta, v));
    SumScale(alpha, u);
    SumScale(beta, v);
  }


  lemma {:induction false} SumAffine(a: real, b: real, xs: seq<real>)
    ensures Sum(Affine(a, b, xs)) == (|xs| as real) * a + b * Sum(xs)
  {
    if xs != [] {
      var tail := Affine(a, b, xs)[1..];
      forall i | 0 <= i < |tail| ensures tail[i] == Affine(a, b, xs[1..])[i] {
        assert tail[i] == Affine(a, b, xs)[i + 1];
      }
      assert tail == Affine(a, b, xs[1..]);
      SumAffine(a, b, xs[1..]);
    }
  }

  lemma {:induction false} SumNonNegative(s: seq<real>)
    requires forall i :: 0 <= i < |s| ==> s[i] >= 0.0
    ensures Sum(s) >= 0.0
  {
    if s != [] {
      SumNonNegative(s[1..]);
    }
  }

  /** A sum of non-negative terms is zero only when every term is. */
  lemma {:induction false} SumZeroOnlyIfAllZero(s: seq<real>)
    requires forall i :: 0 <= i < |s| ==> s[i] >= 0.0
    requires Sum(s) == 0.0
    ensures forall i :: 0 <= i < |s| ==> s[i] == 0.0
  {
    if s != [] {
      SumNonNegative(s[1..]);
      SumZeroOnlyIfAllZero(s[1..]);
      forall i | 0 <= i < |s| ensures s[i] == 0.0 {
        if i > 0 { assert s[i] == s[1..][i - 1]; }
      }
    }
  }

  lemma SquarePositive(x: real)
    ensures x != 0.0 ==> x * x > 0.0
  {
    if x < 0.0 { assert x * x == (-x) * (-x); }
  }

  lemma SumSqNonNegative(s: seq<real>)
    ensures SumSq(s) >= 0.0
  {
    forall i | 0 <= i < |s| ensures Mul(s, s)[i] >= 0.0 {
      assert Mul(s, s)[i] == s[i] * s[i];
    }
    SumNonNegative(Mul(s, s));
  }

  /** The sum of squares vanishes exactly when every entry does. */
  lemma SumSqZero(s: seq<real>)
    ensures SumSq(s) == 0.0 <==> forall i :: 0 <= i < |s| ==> s[i] == 0.0
  {
    forall i | 0 <= i < |s| ensures Mul(s, s)[i] >= 0.0 {
      assert Mul(s, s)[i] == s[i] * s[i];
    }
    if SumSq(s) == 0.0 {
      SumZeroOnlyIfAllZero(Mul(s, s));
      forall i | 0 <= i < |s| ensures s[i] == 0.0 {
        if s[i] != 0.0 {
          calc {
            0.0;
          ==
            Mul(s, s)[i];
          ==
            s[i] * s[i];
          > { SquarePositive(s[i]); }
            0.0;
          }
        }
      }
    }
    if forall i :: 0 <= i < |s| ==> s[i] == 0.0 {
      assert Mul(s, s) == Lin(0.0, s, 0.0, s);
      SumLin(0.0, s, 0.0, s);
    }
  }
}
