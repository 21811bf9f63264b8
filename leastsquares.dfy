/** Ordinary least squares with one feature and an intercept, scored with
    the coefficient of determination: what `LinearRegression().fit`,
    `predict` and `r2_score` compute, written in exact real arithmetic. */
module LeastSquares {
  import opened RealSeq

  datatype Line = Line(intercept: real, slope: real)

  /** Deviations from the mean. */
  function Centered(s: seq<real>): (c: seq<real>)
    requires |s| > 0
    ensures |c| == |s|
    ensures forall i :: 0 <= i < |s| ==> c[i] == s[i] - Mean(s)
  {
    seq(|s|, i requires 0 <= i < |s| => s[i] - Mean(s))
  }

  /** The line evaluated at every point of `xs`. */
  function Predict(l: Line, xs: seq<real>): (ps: seq<real>)
    ensures |ps| == |xs|
    ensures forall i :: 0 <= i < |xs| ==> ps[i] == l.intercept + l.slope * xs[i]
  {
    Affine(l.intercept, l.slope, xs)
  }

  /** Sum of squared residuals of a line. */
  function SSRes(l: Line, xs: seq<real>, ys: seq<real>): real
    requires |xs| == |ys|
  {
    SumSq(Sub(ys, Predict(l, xs)))
  }

  /** The closed form: slope = Sxy / Sxx and intercept = mean(y) - slope *
      mean(x). When every x is the same (Sxx = 0) the slope is 0, the
      minimum-norm solution the least-squares solver returns. */
  function Fit(xs: seq<real>, ys: seq<real>): Line
    requires |xs| == |ys| > 0
  {
    var cx, cy := Centered(xs), Centered(ys);
    var sxx := SumSq(cx);
    var b := if sxx == 0.0 then 0.0 else Sum(Mul(cx, cy)) / sxx;
    Line(Mean(ys) - b * Mean(xs), b)
  }

  /** `r2_score(y, pred)`: 1 - SSres / SStot; when the data is constant
      (SStot = 0) it is 1 for a perfect prediction and 0 otherwise. */
  function R2Score(ys: seq<real>, preds: seq<real>): real
    requires |ys| == |preds| > 0
  {
    var ssRes := SumSq(Sub(ys, preds));
    var ssTot := SumSq(Centered(ys));
    if ssTot == 0.0 then (if ssRes == 0.0 then 1.0 else 0.0) else 1.0 - ssRes / ssTot
  }

  // ---- Scalar facts kept small, so that each product is handled alone ----

  lemma MeanTimesCount(s: seq<real>)
    requires |s| > 0
    ensures (|s| as real) * Mean(s) == Sum(s)
  {
    var n := |s| as real;
    calc {
      n * Mean(s);
      n * (Sum(s) / n);
      Sum(s);
    }
  }

  lemma ResidualIdentity(y: real, x: real, my: real, mx: real, b: real)
    ensures y - ((my - b * mx) + b * x) == 1.0 * (y - my) + (-b) * (x - mx)
  {
    calc {
      1.0 * (y - my) + (-b) * (x - mx);
      y - my - b * x + b * mx;
      y - ((my - b * mx) + b * x);
    }
  }

  lemma CrossIdentity(cx: real, cy: real, b: real)
    ensures cx * (1.0 * cy + (-b) * cx) == 1.0 * (cx * cy) + (-b) * (cx * cx)
  {
    calc {
      cx * (1.0 * cy + (-b) * cx);
      cx * cy - b * (cx * cx);
    }
  }

  lemma SquareOfSum(r: real, d: real)
    ensures (r + d) * (r + d) == 1.0 * (r * r) + 1.0 * (2.0 * (r * d) + d * d)
  {
    calc {
      (r + d) * (r + d);
      r * r + 2.0 * (r * d) + d * d;
    }
  }

  lemma ShiftIdentity(r: real, c0: real, db: real, cx: real)
    ensures r * (c0 + db * cx) == c0 * r + db * (cx * r)
  {
    calc {
      r * (c0 + db * cx);
      c0 * r + db * (cx * r);
    }
  }

  lemma LineDifference(fa: real, fb: real, la: real, lb: real, x: real, mx: real, y: real)
    ensures y - (la + lb * x) == (y - (fa + fb * x)) + (((fa - la) + (fb - lb) * mx) + (fb - lb) * (x - mx))
  {
    calc {
      (y - (fa + fb * x)) + (((fa - la) + (fb - lb) * mx) + (fb - lb) * (x - mx));
      y - fa - fb * x + fa - la + (fb - lb) * mx + (fb - lb) * x - (fb - lb) * mx;
      y - fa - fb * x + fa - la + fb * x - lb * x;
      y - (la + lb * x);
    }
  }

  lemma QuotientBounds(a: real, b: real)
    requires 0.0 <= a <= b && b > 0.0
    ensures 0.0 <= a / b <= 1.0
  {
    calc {
      a / b * b;
      a;
    }
  }

  lemma SumOfZeros(s: seq<real>)
    requires forall i :: 0 <= i < |s| ==> s[i] == 0.0
    ensures Sum(s) == 0.0
  {
    SumSqZero(s);
    assert Lin(1.0, s, 0.0, s) == s;
    SumLin(1.0, s, 0.0, s);
    SumLin(0.0, s, 0.0, s);
    assert Lin(0.0, s, 0.0, s) == s;
  }

  lemma CrossSeq(cx: seq<real>, cy: seq<real>, b: real)
    requires |cx| == |cy|
    ensures Mul(cx, Lin(1.0, cy, -b, cx)) == Lin(1.0, Mul(cx, cy), -b, Mul(cx, cx))
  {
    var m := Mul(cx, Lin(1.0, cy, -b, cx));
    var e := Lin(1.0, Mul(cx, cy), -b, Mul(cx, cx));
    forall i | 0 <= i < |m| ensures m[i] == e[i] {
      var x, y := cx[i], cy[i];
      assert m[i] == x * (1.0 * y + (-b) * x);
      assert e[i] == 1.0 * (x * y) + (-b) * (x * x);
      CrossIdentity(x, y, b);
    }
  }

  lemma ShiftSeq(r: seq<real>, c0: real, db: real, cx: seq<real>)
    requires |r| == |cx|
    ensures Mul(r, Affine(c0, db, cx)) == Lin(c0, r, db, Mul(cx, r))
  {
    var m := Mul(r, Affine(c0, db, cx));
    var e := Lin(c0, r, db, Mul(cx, r));
    forall i | 0 <= i < |m| ensures m[i] == e[i] {
      var u, x := r[i], cx[i];
      assert m[i] == u * (c0 + db * x);
      assert e[i] == c0 * u + db * (x * u);
      ShiftIdentity(u, c0, db, x);
    }
  }

  lemma SquareSeq(r: seq<real>, d: seq<real>)
    requires |r| == |d|
    ensures var e := Lin(1.0, r, 1.0, d);
            Mul(e, e) == Lin(1.0, Mul(r, r), 1.0, Lin(2.0, Mul(r, d), 1.0, Mul(d, d)))
  {
    var e := Lin(1.0, r, 1.0, d);
    var m := Mul(e, e);
    var rhs := Lin(1.0, Mul(r, r), 1.0, Lin(2.0, Mul(r, d), 1.0, Mul(d, d)));
    forall i | 0 <= i < |m| ensures m[i] == rhs[i] {
      var u, v := r[i], d[i];
      assert e[i] == 1.0 * u + 1.0 * v;
      assert m[i] == (u + v) * (u + v);
      assert rhs[i] == 1.0 * (u * u) + 1.0 * (2.0 * (u * v) + v * v);
      SquareOfSum(u, v);
    }
  }

  /** Residuals of any line are those of `f` plus a line in the centred feature. */
  lemma SplitResidual(xs: seq<real>, ys: seq<real>, f: Line, l: Line, c0: real, db: real)
    requires |xs| == |ys| > 0
    requires db == f.slope - l.slope && c0 == (f.intercept - l.intercept) + db * Mean(xs)
    ensures Sub(ys, Predict(l, xs)) == Lin(1.0, Sub(ys, Predict(f, xs)), 1.0, Affine(c0, db, Centered(xs)))
  {
    var e := Sub(ys, Predict(l, xs));
    var rhs := Lin(1.0, Sub(ys, Predict(f, xs)), 1.0, Affine(c0, db, Centered(xs)));
    forall i | 0 <= i < |e| ensures e[i] == rhs[i] {
      SplitAt(xs, ys, f, l, c0, db, i);
    }
    assert e == rhs;
  }

  lemma SplitAt(xs: seq<real>, ys: seq<real>, f: Line, l: Line, c0: real, db: real, i: int)
    requires |xs| == |ys| > 0 && 0 <= i < |xs|
    requires db == f.slope - l.slope && c0 == (f.intercept - l.intercept) + db * Mean(xs)
    ensures Sub(ys, Predict(l, xs))[i] == Lin(1.0, Sub(ys, Predict(f, xs)), 1.0, Affine(c0, db, Centered(xs)))[i]
  {
    var x, y, mx := xs[i], ys[i], Mean(xs);
    assert Centered(xs)[i] == x - mx;
    LineDifference(f.intercept, f.slope, l.intercept, l.slope, x, mx, y);
  }

  // ---- The normal equations ----------------------------------------------

  lemma CenteredSumZero(s: seq<real>)
    requires |s| > 0
    ensures Sum(Centered(s)) == 0.0
  {
    assert Centered(s) == Affine(-Mean(s), 1.0, s);
    SumAffine(-Mean(s), 1.0, s);
    MeanTimesCount(s);
  }

  /** The residuals of the fitted line, in centred form. */
  lemma FitResiduals(xs: seq<real>, ys: seq<real>)
    requires |xs| == |ys| > 0
    ensures var f := Fit(xs, ys);
            Sub(ys, Predict(f, xs)) == Lin(1.0, Centered(ys), -f.slope, Centered(xs))
  {
    var f := Fit(xs, ys);
    var r := Sub(ys, Predict(f, xs));
    var e := Lin(1.0, Centered(ys), -f.slope, Centered(xs));
    forall i | 0 <= i < |r| ensures r[i] == e[i] {
      ResidualIdentity(ys[i], xs[i], Mean(ys), Mean(xs), f.slope);
    }
    assert r == e;
  }

  /** Residuals of the fitted line sum to zero and are orthogonal to the
      centred feature: the normal equations of least squares. */
  lemma NormalEquations(xs: seq<real>, ys: seq<real>)
    requires |xs| == |ys| > 0
    ensures var r := Sub(ys, Predict(Fit(xs, ys), xs));
            Sum(r) == 0.0 && Sum(Mul(Centered(xs), r)) == 0.0
  {
    var f := Fit(xs, ys);
    var cx, cy := Centered(xs), Centered(ys);
    var b := f.slope;
    var r := Sub(ys, Predict(f, xs));
    FitResiduals(xs, ys);
    SumLin(1.0, cy, -b, cx);
    CenteredSumZero(xs);
    CenteredSumZero(ys);
    Orthogonal(cx, cy, b, r);
  }

  lemma Orthogonal(cx: seq<real>, cy: seq<real>, b: real, r: seq<real>)
    requires |cx| == |cy| && r == Lin(1.0, cy, -b, cx)
    requires b == if SumSq(cx) == 0.0 then 0.0 else Sum(Mul(cx, cy)) / SumSq(cx)
    ensures Sum(Mul(cx, r)) == 0.0
  {
    var sxx := SumSq(cx);
    var sxy := Sum(Mul(cx, cy));
    if sxx == 0.0 {
      SumSqZero(cx);
      forall i | 0 <= i < |cx| ensures Mul(cx, r)[i] == 0.0 {
        assert cx[i] == 0.0;
      }
      SumOfZeros(Mul(cx, r));
    } else {
      CrossSeq(cx, cy, b);
      SumLin(1.0, Mul(cx, cy), -b, Mul(cx, cx));
      calc {
        Sum(Mul(cx, r));
        1.0 * sxy + (-b) * sxx;
        sxy - (sxy / sxx) * sxx;
        0.0;
      }
    }
  }

  // ---- Optimality --------------------------------------------------------

  /** The fitted line has the least sum of squared residuals of all lines. */
  lemma FitIsOptimal(xs: seq<real>, ys: seq<real>, l: Line)
    requires |xs| == |ys| > 0
    ensures SSRes(Fit(xs, ys), xs, ys) <= SSRes(l, xs, ys)
  {
    var f := Fit(xs, ys);
    var cx := Centered(xs);
    var r := Sub(ys, Predict(f, xs));
    var db := f.slope - l.slope;
    var c0 := (f.intercept - l.intercept) + db * Mean(xs);
    var d := Affine(c0, db, cx);
    var e := Sub(ys, Predict(l, xs));
    // e = r + d, pointwise
    SplitResidual(xs, ys, f, l, c0, db);
    // the cross term vanishes by the normal equations
    NormalEquations(xs, ys);
    ShiftSeq(r, c0, db, cx);
    SumLin(c0, r, db, Mul(cx, r));
    // expand the square
    SquareSeq(r, d);
    SumLin(1.0, Mul(r, r), 1.0, Lin(2.0, Mul(r, d), 1.0, Mul(d, d)));
    SumLin(2.0, Mul(r, d), 1.0, Mul(d, d));
    SumSqNonNegative(d);
  }

  // ---- Goodness of fit ---------------------------------------------------

  /** The in-sample R² of the fitted line lies between 0 and 1. */
  lemma FitAccuracyBounds(xs: seq<real>, ys: seq<real>)
    requires |xs| == |ys| > 0
    ensures 0.0 <= R2Score(ys, Predict(Fit(xs, ys), xs)) <= 1.0
  {
    var f := Fit(xs, ys);
    var flat := Line(Mean(ys), 0.0);
    FitIsOptimal(xs, ys, flat);
    assert Sub(ys, Predict(flat, xs)) == Centered(ys);
    SumSqNonNegative(Sub(ys, Predict(f, xs)));
    var ssRes := SumSq(Sub(ys, Predict(f, xs)));
    var ssTot := SumSq(Centered(ys));
    if ssTot != 0.0 {
      SumSqNonNegative(Centered(ys));
      QuotientBounds(ssRes, ssTot);
    }
  }

  /** Data lying exactly on a line is reproduced exactly by the fit, which
      then scores R² = 1. */
  lemma FitOfExactLine(xs: seq<real>, ys: seq<real>, l: Line)
    requires |xs| == |ys| > 0
    requires ys == Predict(l, xs)
    ensures Predict(Fit(xs, ys), xs) == ys
    ensures R2Score(ys, Predict(Fit(xs, ys), xs)) == 1.0
  {
    var f := Fit(xs, ys);
    var r := Sub(ys, Predict(f, xs));
    SumSqZero(Sub(ys, Predict(l, xs)));
    FitIsOptimal(xs, ys, l);
    SumSqNonNegative(r);
    SumSqZero(r);
    assert Predict(f, xs) == ys;
  }

  lemma ZeroFactor(a: real, b: real)
    requires a * b == 0.0 && b != 0.0
    ensures a == 0.0
  {
    calc {
      a;
      a * b / b;
      0.0;
    }
  }

  /** When the data lies on a line and the feature takes two different
      values, the fit is that line. */
  lemma FitRecoversLine(xs: seq<real>, ys: seq<real>, l: Line, i: int, j: int)
    requires |xs| == |ys| > 0
    requires ys == Predict(l, xs)
    requires 0 <= i < |xs| && 0 <= j < |xs| && xs[i] != xs[j]
    ensures Fit(xs, ys) == l
  {
    FitOfExactLine(xs, ys, l);
    SameLine(Fit(xs, ys), l, xs, i, j);
  }

  /** Two lines with the same predictions at two different points are the same line. */
  lemma SameLine(f: Line, l: Line, xs: seq<real>, i: int, j: int)
    requires Predict(f, xs) == Predict(l, xs)
    requires 0 <= i < |xs| && 0 <= j < |xs| && xs[i] != xs[j]
    ensures f == l
  {
    SameAt(f, l, xs, i);
    SameAt(f, l, xs, j);
    TwoPoints(f, l, xs[i], xs[j]);
  }

  lemma SameAt(f: Line, l: Line, xs: seq<real>, i: int)
    requires Predict(f, xs) == Predict(l, xs) && 0 <= i < |xs|
    ensures f.intercept + f.slope * xs[i] == l.intercept + l.slope * xs[i]
  {
    assert Predict(f, xs)[i] == Predict(l, xs)[i];
  }

  /** Two lines that agree at two different points are the same line. */
  lemma TwoPoints(f: Line, l: Line, x: real, y: real)
    requires x != y
    requires f.intercept + f.slope * x == l.intercept + l.slope * x
    requires f.intercept + f.slope * y == l.intercept + l.slope * y
    ensures f == l
  {
    calc {
      (f.slope - l.slope) * (x - y);
      (f.intercept + f.slope * x - (l.intercept + l.slope * x))
        - (f.intercept + f.slope * y - (l.intercept + l.slope * y));
      0.0;
    }
    ZeroFactor(f.slope - l.slope, x - y);
  }
}
