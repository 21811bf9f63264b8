/** `predict_usage`: a linear trend fitted to one meter's daily usage and
    extended thirty days past its last reading. */
module Forecast {
  import opened Tables
  import opened Calendar
  import opened Schema
  import opened RealSeq
  import opened LeastSquares
  import opened Positions
  import Sorting
  import Consumption

  /** Fewer readings than this give an empty forecast. */
  const MinReadings: nat := 30
  /** Days predicted past the last reading. */
  const Horizon: nat := 30

  datatype Label = Historical | Predicted

  /** A row of the returned frame: day, usage, and whether it is observed
      or predicted. */
  datatype ForecastPoint = ForecastPoint(date: Date, y: real, tag: Label)

  /** The frame, the mean of the predictions, and the in-sample R². */
  datatype Forecast = Forecast(points: seq<ForecastPoint>, meanPrediction: real, accuracy: real)

  function ReadingDate(r: Reading): int { r.date }
  function ReadingValue(r: Reading): real { r.value }
  function PointY(p: ForecastPoint): real { p.y }
  function PointDay(p: ForecastPoint): real { p.date as real }

  /** `filter_by(meter_id=...)` on the readings table, straight from the
      table: a reading whose meter was deleted is still found. */
  function ReadingsOf(rs: seq<Keyed<Reading>>, meterId: int): (r: seq<Reading>)
    ensures forall x :: x in r <==> x in Rows(rs) && x.meterId == meterId
  {
    if rs == [] then []
    else
      assert Rows(rs) == [rs[0].row] + Rows(rs[1..]);
      (if rs[0].row.meterId == meterId then [rs[0].row] else []) + ReadingsOf(rs[1..], meterId)
  }

  /** `r` is `readings` read, in order, at the positions `idx`, which are
      exactly the positions of the readings of meter `meterId`. */
  ghost predicate OfMeterAt(r: seq<Reading>, readings: seq<Reading>, meterId: int, idx: seq<int>)
  {
    Picks(r, readings, idx) && forall j :: 0 <= j < |readings| ==> (j in idx <==> readings[j].meterId == meterId)
  }

  /** The meter's readings come in table order, each as often as it is
      stored. */
  lemma {:induction false} ReadingsOfKeepsOrder(rs: seq<Keyed<Reading>>, meterId: int)
    ensures exists idx :: OfMeterAt(ReadingsOf(rs, meterId), Rows(rs), meterId, idx)
  {
    if rs == [] {
      assert OfMeterAt(ReadingsOf(rs, meterId), Rows(rs), meterId, []);
    } else {
      ReadingsOfKeepsOrder(rs[1..], meterId);
      var idx :| OfMeterAt(ReadingsOf(rs[1..], meterId), Rows(rs[1..]), meterId, idx);
      OfMeterFront(rs[0].row, Rows(rs[1..]), ReadingsOf(rs[1..], meterId), meterId, idx);
      ReadingsOfCons(rs, meterId);
      assert OfMeterAt(ReadingsOf(rs, meterId), Rows(rs), meterId, Front(idx, rs[0].row.meterId == meterId));
    }
  }

  /** A stored reading of the meter is selected as often as it is stored,
      and no other reading is selected. */
  lemma {:induction false} ReadingsOfMultiplicity(rs: seq<Keyed<Reading>>, meterId: int)
    ensures forall x :: multiset(ReadingsOf(rs, meterId))[x] == if x.meterId == meterId then multiset(Rows(rs))[x] else 0
  {
    if rs != [] {
      ReadingsOfMultiplicity(rs[1..], meterId);
      ReadingsOfCons(rs, meterId);
      var x := rs[0].row;
      var rest := ReadingsOf(rs[1..], meterId);
      assert multiset(ReadingsOf(rs, meterId)) == multiset(if x.meterId == meterId then [x] else []) + multiset(rest);
      assert multiset(Rows(rs)) == multiset([x]) + multiset(Rows(rs[1..]));
    }
  }

  lemma ReadingsOfCons(rs: seq<Keyed<Reading>>, meterId: int)
    requires rs != []
    ensures ReadingsOf(rs, meterId)
         == (if rs[0].row.meterId == meterId then [rs[0].row] else []) + ReadingsOf(rs[1..], meterId)
    ensures Rows(rs) == [rs[0].row] + Rows(rs[1..])
  {
    assert Rows(rs) == [rs[0].row] + Rows(rs[1..]);
  }

  lemma OfMeterFront(x: Reading, tail: seq<Reading>, rest: seq<Reading>, meterId: int, idx: seq<int>)
    requires OfMeterAt(rest, tail, meterId, idx)
    ensures OfMeterAt((if x.meterId == meterId then [x] else []) + rest, [x] + tail, meterId,
                      Front(idx, x.meterId == meterId))
  {
    var s := [x] + tail;
    PicksFront(x, tail, rest, idx, x.meterId == meterId);
    forall j | 0 < j < |s| ensures s[j] == tail[j - 1] {
    }
  }

  /** The meter's readings ordered by date. */
  function History(db: Db, meterId: int): seq<Reading>
  {
    Sorting.SortByKey(ReadingsOf(db.readings, meterId), ReadingDate)
  }

  /** `diff()` of the values, without its first row: one point per reading
      after the first. */
  function Observed(rs: seq<Reading>): (h: seq<ForecastPoint>)
    requires |rs| > 0
    ensures |h| == |rs| - 1
  {
    var d := Consumption.Differences(Column(rs, ReadingValue));
    seq(|rs| - 1, i requires 0 <= i < |rs| - 1 => ForecastPoint(rs[i + 1].date, d[i + 1], Historical))
  }

  /** `df['ds'].max()`: the latest day among the points. */
  function LastDay(ps: seq<ForecastPoint>): Date
    requires |ps| > 0
  {
    if |ps| == 1 then ps[0].date
    else
      var rest := LastDay(ps[1..]);
      if ps[0].date >= rest then ps[0].date else rest
  }

  lemma {:induction false} LastDayIsLatest(ps: seq<ForecastPoint>)
    requires |ps| > 0
    ensures exists i :: 0 <= i < |ps| && ps[i].date == LastDay(ps)
    ensures forall i :: 0 <= i < |ps| ==> ps[i].date <= LastDay(ps)
  {
    if |ps| == 1 {
      assert ps[0].date == LastDay(ps);
    } else {
      LastDayIsLatest(ps[1..]);
      assert forall i :: 1 <= i < |ps| ==> ps[i] == ps[1..][i - 1];
      var j :| 0 <= j < |ps| - 1 && ps[1..][j].date == LastDay(ps[1..]);
      if ps[0].date < LastDay(ps[1..]) {
        assert ps[j + 1].date == LastDay(ps);
      } else {
        assert ps[0].date == LastDay(ps);
      }
    }
  }

  /** The `Horizon` days after `last`, each with the line's value. */
  function Future(last: Date, l: Line): (f: seq<ForecastPoint>)
    ensures |f| == Horizon
  {
    seq(Horizon, k requires 0 <= k < Horizon =>
      ForecastPoint(last + k + 1, l.intercept + l.slope * ((last + k + 1) as real), Predicted))
  }

  /** Fit the line to the observed points, score it on them, and extend it
      past `last`. */
  function Extrapolate(hist: seq<ForecastPoint>, last: Date): Forecast
    requires |hist| > 0
  {
    var xs, ys := Column(hist, PointDay), Column(hist, PointY);
    var line := Fit(xs, ys);
    var future := Future(last, line);
    Forecast(hist + future, Mean(Column(future, PointY)), R2Score(ys, Predict(line, xs)))
  }

  function PredictUsage(db: Db, meterId: int): Forecast
  {
    var rs := History(db, meterId);
    if |rs| < MinReadings then Forecast([], 0.0, 0.0)
    else
      var hist := Observed(rs);
      Extrapolate(hist, LastDay(hist))
  }

  // ---- What the forecast is made of --------------------------------------

  /** Each observed point is the rise of the meter since its previous
      reading, dated on the later one. */
  lemma ObservedUsage(rs: seq<Reading>)
    requires |rs| > 0
    ensures forall i :: 0 <= i < |rs| - 1 ==>
              Observed(rs)[i] == ForecastPoint(rs[i + 1].date, rs[i + 1].value - rs[i].value, Historical)
  {
  }

  lemma ObservedAt(rs: seq<Reading>, i: int)
    requires 0 <= i < |rs| - 1
    ensures Observed(rs)[i] == ForecastPoint(rs[i + 1].date, rs[i + 1].value - rs[i].value, Historical)
  {
  }

  /** On readings in date order the latest observed day is the last
      reading's. */
  lemma LastDayOfSorted(rs: seq<Reading>)
    requires |rs| > 1
    requires Sorting.SortedBy(rs, ReadingDate)
    ensures LastDay(Observed(rs)) == rs[|rs| - 1].date
  {
    var h := Observed(rs);
    var d := LastDay(h);
    LastDayIsLatest(h);
    var last := rs[|rs| - 1].date;
    ObservedAt(rs, |rs| - 2);
    assert h[|h| - 1].date == last;
    var i :| 0 <= i < |h| && h[i].date == d;
    ObservedAt(rs, i);
    SortedAt(rs, i + 1, |rs| - 1);
  }

  lemma SortedAt(rs: seq<Reading>, i: int, j: int)
    requires Sorting.SortedBy(rs, ReadingDate) && 0 <= i <= j < |rs|
    ensures rs[i].date <= rs[j].date
  {
    if i < j {
      assert ReadingDate(rs[i]) <= ReadingDate(rs[j]);
    }
  }

  /** The history is in date order. */
  lemma HistorySorted(db: Db, meterId: int)
    ensures Sorting.SortedBy(History(db, meterId), ReadingDate)
  {
    Sorting.SortSorted(ReadingsOf(db.readings, meterId), ReadingDate);
  }

  /** The latest observed day is the day of the meter's latest reading. */
  lemma LastDayOfHistory(db: Db, meterId: int)
    requires |History(db, meterId)| > 1
    ensures var rs := History(db, meterId);
            LastDay(Observed(rs)) == rs[|rs| - 1].date
  {
    HistorySorted(db, meterId);
    LastDayOfSorted(History(db, meterId));
  }

  /** Too few readings: an empty frame and zero for both numbers. */
  lemma TooFewReadings(db: Db, meterId: int)
    requires |ReadingsOf(db.readings, meterId)| < MinReadings
    ensures PredictUsage(db, meterId) == Forecast([], 0.0, 0.0)
  {
  }

  /** The frame: the observed usage in date order, then `Horizon` predicted
      days on the fitted line, starting the day after the last reading. */
  lemma ForecastFrame(db: Db, meterId: int)
    requires |ReadingsOf(db.readings, meterId)| >= MinReadings
    ensures var rs := History(db, meterId);
            var hist := Observed(rs);
            var line := Fit(Column(hist, PointDay), Column(hist, PointY));
            var last, points := rs[|rs| - 1].date, PredictUsage(db, meterId).points;
            && points == hist + Future(last, line)
            && FramedBy(points, hist, last, line)
  {
    ForecastOfHistory(db, meterId);
    var rs := History(db, meterId);
    var hist := Observed(rs);
    FutureFrame(hist, rs[|rs| - 1].date, Fit(Column(hist, PointDay), Column(hist, PointY)));
  }

  /** `points` is `hist` followed by `Horizon` days on `line`, tagged as
      predicted, from the day after `last`. */
  ghost predicate FramedBy(points: seq<ForecastPoint>, hist: seq<ForecastPoint>, last: Date, line: Line)
  {
    && |points| == |hist| + Horizon
    && points[..|hist|] == hist
    && forall k :: |hist| <= k < |points| ==>
         var day := last + (k - |hist|) + 1;
         points[k] == ForecastPoint(day, line.intercept + line.slope * (day as real), Predicted)
  }

  lemma FutureFrame(hist: seq<ForecastPoint>, last: Date, line: Line)
    ensures FramedBy(hist + Future(last, line), hist, last, line)
  {
    var f := Future(last, line);
    assert (hist + f)[..|hist|] == hist;
    forall k | |hist| <= k < |hist| + Horizon
      ensures (hist + f)[k] == f[k - |hist|]
    {
    }
  }

  /** Observed days never decrease, every predicted day comes after every
      observed day, and predicted days are consecutive. */
  lemma DatesOrdered(rs: seq<Reading>, l: Line)
    requires |rs| > 1
    requires Sorting.SortedBy(rs, ReadingDate)
    ensures var h, f := Observed(rs), Future(rs[|rs| - 1].date, l);
            && (forall i, j :: 0 <= i < j < |h| ==> h[i].date <= h[j].date)
            && (forall i, k :: 0 <= i < |h| && 0 <= k < |f| ==> h[i].date < f[k].date)
            && (forall k :: 0 < k < |f| ==> f[k].date == f[k - 1].date + 1)
  {
    var h, f := Observed(rs), Future(rs[|rs| - 1].date, l);
    forall i, j | 0 <= i < j < |h| ensures h[i].date <= h[j].date {
      assert ReadingDate(rs[i + 1]) <= ReadingDate(rs[j + 1]);
    }
    forall i, k | 0 <= i < |h| && 0 <= k < |f| ensures h[i].date < f[k].date {
      assert ReadingDate(rs[i + 1]) <= ReadingDate(rs[|rs| - 1]);
    }
  }

  // ---- The numbers -------------------------------------------------------

  function Ramp(n: nat): (r: seq<real>)
    ensures |r| == n
    ensures forall k :: 0 <= k < n ==> r[k] == k as real
  {
    seq(n, k requires 0 <= k < n => k as real)
  }

  lemma {:induction false} SumRamp(n: nat)
    ensures 2.0 * Sum(Ramp(n)) == (n * (n - 1)) as real
  {
    if n > 0 {
      SumRamp(n - 1);
      assert Ramp(n) == Ramp(n - 1) + [(n - 1) as real];
      SumAppend(Ramp(n - 1), (n - 1) as real);
      calc {
        n * (n - 1);
        (n - 1) * (n - 2) + 2 * (n - 1);
      }
    }
  }

  /** The mean of the predictions is the line's value half-way through the
      horizon. */
  lemma MeanOfFuture(last: Date, l: Line)
    ensures Mean(Column(Future(last, l), PointY)) == l.intercept + l.slope * (last as real + 15.5)
  {
    var ys := Column(Future(last, l), PointY);
    var days := Affine(last as real + 1.0, 1.0, Ramp(Horizon));
    forall k | 0 <= k < Horizon ensures ys[k] == Predict(l, days)[k] {
      assert days[k] == (last + k + 1) as real;
    }
    assert ys == Predict(l, days);
    SumAffine(l.intercept, l.slope, days);
    SumAffine(last as real + 1.0, 1.0, Ramp(Horizon));
    SumRamp(Horizon);
    var a, b, L := l.intercept, l.slope, last as real;
    calc {
      Mean(ys);
      Sum(ys) / 30.0;
      (30.0 * a + b * (30.0 * (L + 1.0) + 435.0)) / 30.0;
      a + b * (L + 15.5);
    }
  }

  lemma ExtrapolateMean(hist: seq<ForecastPoint>, last: Date)
    requires |hist| > 0
    ensures var line := Fit(Column(hist, PointDay), Column(hist, PointY));
            Extrapolate(hist, last).meanPrediction == line.intercept + line.slope * (last as real + 15.5)
  {
    MeanOfFuture(last, Fit(Column(hist, PointDay), Column(hist, PointY)));
  }

  /** With enough readings, the forecast extrapolates the observed usage
      from the day of the latest reading. */
  lemma ForecastOfHistory(db: Db, meterId: int)
    requires |ReadingsOf(db.readings, meterId)| >= MinReadings
    ensures var rs := History(db, meterId);
            PredictUsage(db, meterId) == Extrapolate(Observed(rs), rs[|rs| - 1].date)
  {
    LastDayOfHistory(db, meterId);
  }

  /** The accuracy lies between 0 and 1. */
  lemma ExtrapolateAccuracy(hist: seq<ForecastPoint>, last: Date)
    requires |hist| > 0
    ensures 0.0 <= Extrapolate(hist, last).accuracy <= 1.0
  {
    FitAccuracyBounds(Column(hist, PointDay), Column(hist, PointY));
  }

  /** Usage that lies exactly on a line in the day is fitted with
      accuracy 1. */
  lemma ExtrapolateExact(hist: seq<ForecastPoint>, last: Date, l: Line)
    requires |hist| > 0
    requires forall i :: 0 <= i < |hist| ==> hist[i].y == l.intercept + l.slope * (hist[i].date as real)
    ensures Extrapolate(hist, last).accuracy == 1.0
  {
    OnLine(hist, l);
    ExtrapolateOfLine(hist, last, l);
  }

  lemma ExtrapolateOfLine(hist: seq<ForecastPoint>, last: Date, l: Line)
    requires |hist| > 0
    requires Column(hist, PointY) == Predict(l, Column(hist, PointDay))
    ensures Extrapolate(hist, last).accuracy == 1.0
  {
    FitOfExactLine(Column(hist, PointDay), Column(hist, PointY), l);
  }

  /** ... and, once it spans two different days, the predictions continue
      that very line. */
  lemma ExtrapolateContinuesLine(hist: seq<ForecastPoint>, last: Date, l: Line)
    requires |hist| > 0
    requires forall i :: 0 <= i < |hist| ==> hist[i].y == l.intercept + l.slope * (hist[i].date as real)
    requires hist[0].date != hist[|hist| - 1].date
    ensures Extrapolate(hist, last).points == hist + Future(last, l)
  {
    OnLine(hist, l);
    FitRecoversLine(Column(hist, PointDay), Column(hist, PointY), l, 0, |hist| - 1);
  }

  lemma OnLine(hist: seq<ForecastPoint>, l: Line)
    requires forall i :: 0 <= i < |hist| ==> hist[i].y == l.intercept + l.slope * (hist[i].date as real)
    ensures Column(hist, PointY) == Predict(l, Column(hist, PointDay))
  {
    assert Column(hist, PointY) == Predict(l, Column(hist, PointDay));
  }

  /** The accuracy of a meter's forecast lies between 0 and 1. */
  lemma ForecastAccuracy(db: Db, meterId: int)
    requires |ReadingsOf(db.readings, meterId)| >= MinReadings
    ensures 0.0 <= PredictUsage(db, meterId).accuracy <= 1.0
  {
    var hist := Observed(History(db, meterId));
    ExtrapolateAccuracy(hist, LastDay(hist));
  }

  /** A meter whose daily usage grows exactly linearly with the day is
      forecast with accuracy 1. */
  lemma LinearUsageForecast(db: Db, meterId: int, l: Line)
    requires |ReadingsOf(db.readings, meterId)| >= MinReadings
    requires RisesOnLine(History(db, meterId), l)
    ensures PredictUsage(db, meterId).accuracy == 1.0
  {
    var rs := History(db, meterId);
    var hist := Observed(rs);
    UsageOnLineExact(rs, l);
    assert PredictUsage(db, meterId) == Extrapolate(hist, LastDay(hist));
  }

  /** The rise between consecutive readings lies on line `l` at the later
      reading's day. */
  ghost predicate RisesOnLine(rs: seq<Reading>, l: Line)
  {
    forall i :: 0 < i < |rs| ==>
      rs[i].value - rs[i - 1].value == l.intercept + l.slope * (rs[i].date as real)
  }

  lemma UsageOnLineExact(rs: seq<Reading>, l: Line)
    requires |rs| > 1
    requires RisesOnLine(rs, l)
    ensures Extrapolate(Observed(rs), LastDay(Observed(rs))).accuracy == 1.0
  {
    ObservedOnLine(rs, l);
    ExtrapolateOfLine(Observed(rs), LastDay(Observed(rs)), l);
  }

  /** Readings whose rises lie on a line give observed points on it. */
  lemma ObservedOnLine(rs: seq<Reading>, l: Line)
    requires |rs| > 0
    requires RisesOnLine(rs, l)
    ensures Column(Observed(rs), PointY) == Predict(l, Column(Observed(rs), PointDay))
  {
    var hist := Observed(rs);
    forall i | 0 <= i < |hist| ensures hist[i].y == l.intercept + l.slope * (hist[i].date as real) {
      ObservedAt(rs, i);
    }
    OnLine(hist, l);
  }

  /** Deleting a meter does not delete its readings, and they are still
      forecast. */
  lemma DeletedMeterStillForecast(db: Db, meterId: int)
    ensures PredictUsage(db.(meters := Delete(db.meters, meterId)), meterId) == PredictUsage(db, meterId)
  {
  }
}
