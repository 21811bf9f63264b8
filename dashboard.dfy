/** The decision layer of `app.py`: the dashboard's filters, figures and
    aggregations, the forecast warning, and the manual reading entry. */
module Dashboard {
  import opened Wrappers
  import opened Calendar
  import opened Schema
  import opened RealSeq
  import opened Consumption
  import opened Grouping
  import LeastSquares
  import Forecast
  import ReadingStore
  import opened Positions

  // ---- Filters -----------------------------------------------------------

  /** The date picker yields a tuple of one date while a range is being
      picked and of two once it is complete; only a complete range bounds
      the query. */
  function DateWindow(picked: seq<Date>): Filters
  {
    if |picked| == 2 then Filters(None, None, Some(picked[0]), Some(picked[1]))
    else Filters(None, None, None, None)
  }

  /** A row passes the selection when its mosque is selected (or no mosque
      is) and its type is selected (or no type is). */
  predicate Selected(r: Row, mosqueIds: seq<int>, kinds: seq<Utility>)
  {
    (mosqueIds == [] || r.mosqueId in mosqueIds) && (kinds == [] || r.kind in kinds)
  }

  /** The dashboard's mosque filter followed by its type filter. */
  function SelectPoints(ps: seq<Point>, mosqueIds: seq<int>, kinds: seq<Utility>): (r: seq<Point>)
    ensures forall p :: p in r <==> p in ps && Selected(p.row, mosqueIds, kinds)
    ensures |r| <= |ps|
  {
    if ps == [] then []
    else
      var init := SelectPoints(ps[..|ps| - 1], mosqueIds, kinds);
      var last := ps[|ps| - 1];
      assert forall p :: p in ps <==> p in ps[..|ps| - 1] || p == last by {
        assert ps == ps[..|ps| - 1] + [last];
      }
      init + (if Selected(last.row, mosqueIds, kinds) then [last] else [])
  }

  /** `r` is `ps` read, in order, at the positions `idx`, which are exactly
      the positions of the selected points. */
  ghost predicate SelectedAt(r: seq<Point>, ps: seq<Point>, mosqueIds: seq<int>, kinds: seq<Utility>, idx: seq<int>)
  {
    Picks(r, ps, idx) && forall j :: 0 <= j < |ps| ==> (j in idx <==> Selected(ps[j].row, mosqueIds, kinds))
  }

  /** The selection keeps the chart's order and each selected point as often
      as it occurs. */
  lemma {:induction false} SelectPointsKeepsOrder(ps: seq<Point>, mosqueIds: seq<int>, kinds: seq<Utility>)
    ensures exists idx :: SelectedAt(SelectPoints(ps, mosqueIds, kinds), ps, mosqueIds, kinds, idx)
  {
    if ps == [] {
      assert SelectedAt(SelectPoints(ps, mosqueIds, kinds), ps, mosqueIds, kinds, []);
    } else {
      var init, last := ps[..|ps| - 1], ps[|ps| - 1];
      SelectPointsKeepsOrder(init, mosqueIds, kinds);
      var idx :| SelectedAt(SelectPoints(init, mosqueIds, kinds), init, mosqueIds, kinds, idx);
      var keep := Selected(last.row, mosqueIds, kinds);
      SelectedBack(init, last, SelectPoints(init, mosqueIds, kinds), mosqueIds, kinds, idx);
      SelectPointsSnoc(init, last, mosqueIds, kinds);
      assert init + [last] == ps;
      assert SelectedAt(SelectPoints(ps, mosqueIds, kinds), ps, mosqueIds, kinds, Back(idx, |init|, keep));
    }
  }

  lemma SelectedBack(init: seq<Point>, last: Point, rest: seq<Point>, mosqueIds: seq<int>, kinds: seq<Utility>, idx: seq<int>)
    requires SelectedAt(rest, init, mosqueIds, kinds, idx)
    ensures SelectedAt(rest + (if Selected(last.row, mosqueIds, kinds) then [last] else []), init + [last],
                       mosqueIds, kinds, Back(idx, |init|, Selected(last.row, mosqueIds, kinds)))
  {
    var s := init + [last];
    PicksBack(init, last, rest, idx, Selected(last.row, mosqueIds, kinds));
    forall j | 0 <= j < |init| ensures s[j] == init[j] {
    }
  }

  /** A selected point is kept as often as it occurs; no other point is. */
  lemma {:induction false} SelectPointsMultiplicity(ps: seq<Point>, mosqueIds: seq<int>, kinds: seq<Utility>)
    ensures forall p :: multiset(SelectPoints(ps, mosqueIds, kinds))[p]
                     == if Selected(p.row, mosqueIds, kinds) then multiset(ps)[p] else 0
  {
    forall p {
      SelectPointsCount(ps, mosqueIds, kinds, p);
    }
  }

  lemma {:induction false} SelectPointsCount(ps: seq<Point>, mosqueIds: seq<int>, kinds: seq<Utility>, p: Point)
    ensures multiset(SelectPoints(ps, mosqueIds, kinds))[p] == if Selected(p.row, mosqueIds, kinds) then multiset(ps)[p] else 0
  {
    if ps != [] {
      var init, last := ps[..|ps| - 1], ps[|ps| - 1];
      SelectPointsCount(init, mosqueIds, kinds, p);
      SelectPointsSnoc(init, last, mosqueIds, kinds);
      assert init + [last] == ps;
      assert multiset(ps) == multiset(init) + multiset([last]);
    }
  }

  /** The dashboard frame: the chart data of the date window, then the
      mosque and type selection. */
  function DashboardFrame(db: Db, picked: seq<Date>, mosqueIds: seq<int>, kinds: seq<Utility>): seq<Point>
  {
    SelectPoints(GetChartData(db, DateWindow(picked)), mosqueIds, kinds)
  }

  /** Without a complete range and without a selection the dashboard shows
      every joined reading. */
  lemma NoFilterShowsAll(db: Db, picked: seq<Date>)
    requires |picked| != 2
    ensures FrameRows(DashboardFrame(db, picked, [], [])) == Join(db)
  {
    var f := DateWindow(picked);
    ChartDataRows(db, f);
    var ps := GetChartData(db, f);
    assert SelectPoints(ps, [], []) == ps by {
      SelectNothingRemoved(ps);
    }
    WhereAll(Join(db), f);
  }

  lemma {:induction false} SelectNothingRemoved(ps: seq<Point>)
    ensures SelectPoints(ps, [], []) == ps
  {
    if ps != [] {
      var init := ps[..|ps| - 1];
      SelectNothingRemoved(init);
      assert Selected(ps[|ps| - 1].row, [], []);
      assert init + [ps[|ps| - 1]] == ps;
    }
  }

  lemma {:induction false} WhereAll(rows: seq<Row>, f: Filters)
    requires f == Filters(None, None, None, None)
    ensures Where(rows, f) == rows
  {
    if rows != [] {
      WhereAll(rows[1..], f);
    }
  }

  /** Selecting after differencing keeps each point's daily consumption as
      the date-window frame computed it. */
  lemma SelectionKeepsDaily(db: Db, picked: seq<Date>, mosqueIds: seq<int>, kinds: seq<Utility>)
    ensures forall p :: p in DashboardFrame(db, picked, mosqueIds, kinds) <==>
              p in GetChartData(db, DateWindow(picked)) && Selected(p.row, mosqueIds, kinds)
  {
  }

  // ---- Selection commutes with differencing -------------------------------

  /** Rows of one meter agree on its mosque and type. */
  ghost predicate MeterDetermines(rows: seq<Row>)
  {
    forall x, y :: x in rows && y in rows && x.meterId == y.meterId ==> x.mosqueId == y.mosqueId && x.kind == y.kind
  }

  function SelectRows(rows: seq<Row>, mosqueIds: seq<int>, kinds: seq<Utility>): (r: seq<Row>)
    ensures forall x :: x in r ==> x in rows
  {
    if rows == [] then []
    else
      var init := SelectRows(rows[..|rows| - 1], mosqueIds, kinds);
      var last := rows[|rows| - 1];
      assert forall x :: x in rows[..|rows| - 1] ==> x in rows;
      init + (if Selected(last, mosqueIds, kinds) then [last] else [])
  }

  lemma JoinMeterDetermines(db: Db, f: Filters)
    ensures MeterDetermines(Where(Join(db), f))
  {
    var rows := Join(db);
    forall x, y | x in rows && y in rows && x.meterId == y.meterId
      ensures x.mosqueId == y.mosqueId && x.kind == y.kind
    {
      var i :| 0 <= i < |rows| && rows[i] == x;
      var j :| 0 <= j < |rows| && rows[j] == y;
    }
  }

  lemma {:induction false} LastValueOfSelected(rows: seq<Row>, mosqueIds: seq<int>, kinds: seq<Utility>, m: int)
    requires forall x :: x in rows && x.meterId == m ==> Selected(x, mosqueIds, kinds)
    ensures LastValue(SelectRows(rows, mosqueIds, kinds), m) == LastValue(rows, m)
  {
    if rows != [] {
      var init := rows[..|rows| - 1];
      var last := rows[|rows| - 1];
      assert forall x :: x in init ==> x in rows;
      LastValueOfSelected(init, mosqueIds, kinds, m);
      var s := SelectRows(init, mosqueIds, kinds);
      assert LastValue(rows, m) == if last.meterId == m then Some(last.value) else LastValue(init, m);
      if Selected(last, mosqueIds, kinds) {
        assert SelectRows(rows, mosqueIds, kinds) == s + [last];
        assert (s + [last])[..|s|] == s;
      } else {
        assert last.meterId != m;
        assert SelectRows(rows, mosqueIds, kinds) == s + [];
        assert s + [] == s;
      }
    }
  }

  lemma NextDailySame(rows: seq<Row>, other: seq<Row>, x: Row)
    requires LastValue(other, x.meterId) == LastValue(rows, x.meterId)
    ensures NextDaily(other, x) == NextDaily(rows, x)
  {
  }

  lemma SelectPointsSnoc(ps: seq<Point>, p: Point, mosqueIds: seq<int>, kinds: seq<Utility>)
    ensures SelectPoints(ps + [p], mosqueIds, kinds)
         == SelectPoints(ps, mosqueIds, kinds) + (if Selected(p.row, mosqueIds, kinds) then [p] else [])
  {
    assert (ps + [p])[..|ps|] == ps;
  }

  lemma SelectRowsSnoc(rows: seq<Row>, x: Row, mosqueIds: seq<int>, kinds: seq<Utility>)
    ensures SelectRows(rows + [x], mosqueIds, kinds)
         == SelectRows(rows, mosqueIds, kinds) + (if Selected(x, mosqueIds, kinds) then [x] else [])
  {
    assert (rows + [x])[..|rows|] == rows;
  }

  /** One step of the induction: appending a row whose meter is either
      wholly selected or not selected at all. */
  lemma SelectionStep(init: seq<Row>, x: Row, mosqueIds: seq<int>, kinds: seq<Utility>)
    requires SelectPoints(DailyConsumption(init), mosqueIds, kinds)
          == DailyConsumption(SelectRows(init, mosqueIds, kinds))
    requires Selected(x, mosqueIds, kinds) ==>
               forall r :: r in init && r.meterId == x.meterId ==> Selected(r, mosqueIds, kinds)
    ensures SelectPoints(DailyConsumption(init + [x]), mosqueIds, kinds)
         == DailyConsumption(SelectRows(init + [x], mosqueIds, kinds))
  {
    var s := SelectRows(init, mosqueIds, kinds);
    var p := Point(x, NextDaily(init, x));
    DailySnoc(init, x);
    SelectPointsSnoc(DailyConsumption(init), p, mosqueIds, kinds);
    SelectRowsSnoc(init, x, mosqueIds, kinds);
    if Selected(x, mosqueIds, kinds) {
      LastValueOfSelected(init, mosqueIds, kinds, x.meterId);
      DailySnoc(s, x);
      NextDailySame(init, s, x);
      calc {
        SelectPoints(DailyConsumption(init + [x]), mosqueIds, kinds);
        SelectPoints(DailyConsumption(init), mosqueIds, kinds) + [p];
        DailyConsumption(s) + [p];
        DailyConsumption(s) + [Point(x, NextDaily(s, x))];
        DailyConsumption(SelectRows(init + [x], mosqueIds, kinds));
      }
    } else {
      calc {
        SelectPoints(DailyConsumption(init + [x]), mosqueIds, kinds);
        SelectPoints(DailyConsumption(init), mosqueIds, kinds) + [];
        DailyConsumption(s);
        { assert s + [] == s; }
        DailyConsumption(SelectRows(init + [x], mosqueIds, kinds));
      }
    }
  }

  /** Because a mosque or type selection keeps either all of a meter's rows
      or none, filtering the derived frame gives the same points as
      differencing only the selected rows. */
  lemma {:induction false} SelectionCommutes(rows: seq<Row>, mosqueIds: seq<int>, kinds: seq<Utility>)
    requires MeterDetermines(rows)
    ensures SelectPoints(DailyConsumption(rows), mosqueIds, kinds)
         == DailyConsumption(SelectRows(rows, mosqueIds, kinds))
  {
    if rows != [] {
      var init := rows[..|rows| - 1];
      var x := rows[|rows| - 1];
      assert rows == init + [x];
      assert forall r :: r in init ==> r in rows;
      SelectionCommutes(init, mosqueIds, kinds);
      forall r | r in init && r.meterId == x.meterId
        ensures r.mosqueId == x.mosqueId && r.kind == x.kind
      {
        assert r in rows && x in rows;
      }
      SelectionStep(init, x, mosqueIds, kinds);
    }
  }

  /** The dashboard frame is the date-window query differenced over the
      selected meters only. */
  lemma DashboardFrameSpec(db: Db, picked: seq<Date>, mosqueIds: seq<int>, kinds: seq<Utility>)
    ensures DashboardFrame(db, picked, mosqueIds, kinds)
         == DailyConsumption(SelectRows(Where(Join(db), DateWindow(picked)), mosqueIds, kinds))
  {
    var rows := Where(Join(db), DateWindow(picked));
    JoinMeterDetermines(db, DateWindow(picked));
    SelectionCommutes(rows, mosqueIds, kinds);
  }

  // ---- Figures and aggregations -------------------------------------------

  datatype Figures = Figures(totalConsumption: real, totalCost: real, count: nat)

  /** The three figures, shown only when the frame is not empty. */
  function KeyFigures(ps: seq<Point>): (r: Option<Figures>)
    ensures r.None? <==> ps == []
  {
    if ps == [] then None
    else Some(Figures(Sum(Column(ps, DailyOf)), Sum(Column(ps, PointCost)), |ps|))
  }

  function TrendKey(p: Point): (Date, Utility) { (p.row.date, p.row.kind) }

  function MonthKey(p: Point): (string, Utility) { (MonthLabel(p.row.date), p.row.kind) }

  /** The group key of every point, in frame order. */
  function KeyColumn<K>(ps: seq<Point>, key: Point -> K): (ks: seq<K>)
    ensures |ks| == |ps| && forall i :: 0 <= i < |ps| ==> ks[i] == key(ps[i])
  {
    seq(|ps|, i requires 0 <= i < |ps| => key(ps[i]))
  }

  /** `df.groupby(key)[val].sum()` over a frame of points. */
  function GroupBy<K(==)>(ps: seq<Point>, key: Point -> K, val: Point -> real): seq<Group<K>>
  {
    GroupSum(KeyColumn(ps, key), Column(ps, val))
  }

  /** `gs` has one group per distinct key of the points, and each group
      holds the sum of `val` over the points with its key. */
  ghost predicate GroupsOf<K(!new)>(gs: seq<Group<K>>, ps: seq<Point>, key: Point -> K, val: Point -> real)
  {
    && DistinctKeys(gs)
    && (forall k :: k in Keys(gs) <==> exists i :: 0 <= i < |ps| && key(ps[i]) == k)
    && (forall j :: 0 <= j < |gs| ==> gs[j].total == SumWhere(KeyColumn(ps, key), Column(ps, val), gs[j].key))
  }

  lemma GroupBySpec<K(!new)>(ps: seq<Point>, key: Point -> K, val: Point -> real)
    ensures GroupsOf(GroupBy(ps, key, val), ps, key, val)
    ensures Sum(Totals(GroupBy(ps, key, val))) == Sum(Column(ps, val))
  {
    var ks := KeyColumn(ps, key);
    GroupSumSpec(ks, Column(ps, val));
    forall k ensures k in ks <==> exists i :: 0 <= i < |ps| && key(ps[i]) == k {
      if k in ks {
        var i :| 0 <= i < |ks| && ks[i] == k;
      }
    }
  }

  /** `groupby(['date', 'type'])['daily_consumption'].sum()`. */
  function Trend(ps: seq<Point>): seq<Group<(Date, Utility)>>
  {
    GroupBy(ps, TrendKey, DailyOf)
  }

  /** `groupby(['month', 'type'])['cost'].sum()` with the `YYYY-MM` label. */
  function MonthlyCost(ps: seq<Point>): seq<Group<(string, Utility)>>
  {
    GroupBy(ps, MonthKey, PointCost)
  }

  /** One group per distinct (date, type) of the frame, each holding the
      consumption of its points, and together the total consumption. */
  lemma TrendSpec(ps: seq<Point>)
    requires ps != []
    ensures GroupsOf(Trend(ps), ps, TrendKey, DailyOf)
    ensures Sum(Totals(Trend(ps))) == KeyFigures(ps).value.totalConsumption
  {
    GroupBySpec(ps, TrendKey, DailyOf);
  }

  /** One group per distinct (month label, type), each holding the cost of
      its points, and together the total cost. */
  lemma MonthlyCostSpec(ps: seq<Point>)
    requires ps != []
    ensures GroupsOf(MonthlyCost(ps), ps, MonthKey, PointCost)
    ensures Sum(Totals(MonthlyCost(ps))) == KeyFigures(ps).value.totalCost
  {
    GroupBySpec(ps, MonthKey, PointCost);
  }

  /** Two points share a monthly group exactly when they have the same type
      and fall in the same calendar month of the same year. */
  lemma SameMonthGroup(p: Point, q: Point)
    requires FromOrdinal(p.row.date).year < 10000 && FromOrdinal(q.row.date).year < 10000
    ensures MonthKey(p) == MonthKey(q) <==>
              && FromOrdinal(p.row.date).year == FromOrdinal(q.row.date).year
              && FromOrdinal(p.row.date).month == FromOrdinal(q.row.date).month
              && p.row.kind == q.row.kind
  {
    MonthLabelKeysYearMonth(p.row.date, q.row.date);
  }

  // ---- The forecast warning -----------------------------------------------

  /** The historical usage rows of a forecast frame. */
  function HistoricalYs(ps: seq<Forecast.ForecastPoint>): (ys: seq<real>)
    ensures |ys| <= |ps|
  {
    if ps == [] then []
    else
      HistoricalYs(ps[..|ps| - 1])
        + (if ps[|ps| - 1].tag == Forecast.Historical then [ps[|ps| - 1].y] else [])
  }

  /** `avg_pred > hist_avg * 1.2`: strictly more than 20% above. */
  predicate ExceedsBaseline(predicted: real, historical: real)
  {
    predicted > historical * 1.2
  }

  /** The warning shown for a forecast, or nothing when the frame is empty.
      A frame without historical rows has an undefined (NaN) mean, against
      which the comparison is false. */
  function ForecastWarning(fc: Forecast.Forecast): Option<bool>
  {
    if fc.points == [] then None
    else
      var hs := HistoricalYs(fc.points);
      Some(hs != [] && ExceedsBaseline(fc.meanPrediction, Mean(hs)))
  }

  lemma {:induction false} HistoricalOfObserved(h: seq<Forecast.ForecastPoint>, f: seq<Forecast.ForecastPoint>)
    requires forall i :: 0 <= i < |h| ==> h[i].tag == Forecast.Historical
    requires forall k :: 0 <= k < |f| ==> f[k].tag == Forecast.Predicted
    ensures HistoricalYs(h + f) == Column(h, Forecast.PointY)
    decreases |f|, |h|
  {
    if f != [] {
      assert (h + f)[..|h + f| - 1] == h + f[..|f| - 1];
      HistoricalOfObserved(h, f[..|f| - 1]);
    } else if h != [] {
      assert h + f == h;
      assert (h[..|h| - 1]) + [] == h[..|h| - 1];
      HistoricalOfObserved(h[..|h| - 1], []);
      assert Column(h, Forecast.PointY) == Column(h[..|h| - 1], Forecast.PointY) + [h[|h| - 1].y];
    }
  }

  /** For a meter with enough readings, the warning compares the mean
      prediction with 1.2 times the mean observed daily usage. */
  lemma WarningOfForecast(db: Db, meterId: int)
    requires |Forecast.ReadingsOf(db.readings, meterId)| >= Forecast.MinReadings
    ensures var rs := Forecast.History(db, meterId);
            var fc := Forecast.PredictUsage(db, meterId);
            var hs := Column(Forecast.Observed(rs), Forecast.PointY);
            ForecastWarning(fc) == Some(ExceedsBaseline(fc.meanPrediction, Mean(hs)))
  {
    var rs := Forecast.History(db, meterId);
    Forecast.ForecastOfHistory(db, meterId);
    Forecast.ObservedUsage(rs);
    WarningOfExtrapolate(Forecast.Observed(rs), rs[|rs| - 1].date);
  }

  lemma WarningOfExtrapolate(hist: seq<Forecast.ForecastPoint>, last: Date)
    requires |hist| > 0
    requires forall i :: 0 <= i < |hist| ==> hist[i].tag == Forecast.Historical
    ensures var fc := Forecast.Extrapolate(hist, last);
            ForecastWarning(fc) == Some(ExceedsBaseline(fc.meanPrediction, Mean(Column(hist, Forecast.PointY))))
  {
    var line := LeastSquares.Fit(Column(hist, Forecast.PointDay), Column(hist, Forecast.PointY));
    var future := Forecast.Future(last, line);
    assert Forecast.Extrapolate(hist, last).points == hist + future;
    HistoricalOfObserved(hist, future);
  }

  /** Exactly 20% above does not warn; anything above that does. */
  lemma WarningIsStrict(historical: real, excess: real)
    requires excess > 0.0
    ensures !ExceedsBaseline(historical * 1.2, historical)
    ensures ExceedsBaseline(historical * 1.2 + excess, historical)
  {
  }

  // ---- Manual entry ---------------------------------------------------------

  /** The unit price shown on the entry form. */
  function UnitPrice(kind: Utility): (price: real)
    ensures price > 0.0
    ensures kind == Electricity ==> price == 0.18
    ensures kind == Water ==> price == 5.0
  {
    if kind == Electricity then 0.18 else 5.0
  }

  /** The entry form: the meter is picked among the meters of the picked
      mosque; the form shows the unit price of that meter's stored type and
      stores the reading with cost 0 whatever that price is. */
  method ManualEntry(s: ReadingStore.Store, mosqueId: int, meterId: int, date: Date, value: real)
      returns (price: real, ok: bool)
    requires s.Valid() && value >= 0.0
    requires exists k :: k in ReadingStore.MetersOf(s.meters, mosqueId) && k.id == meterId
    modifies s
    ensures s.Valid() && ok
    ensures forall k :: k in old(s.meters) && k.id == meterId ==> price == UnitPrice(k.row.kind)
    ensures s.readings == Tables.Insert(old(s.readings), Reading(meterId, date, value, 0.0))
    ensures s.mosques == old(s.mosques) && s.meters == old(s.meters) && s.users == old(s.users)
  {
    var meter := Tables.Find(s.meters, meterId);
    assert meter.Some?;
    forall k | k in s.meters && k.id == meterId ensures meter.value.kind == k.row.kind {
      var i :| 0 <= i < |s.meters| && s.meters[i] == k;
      Tables.FindAt(s.meters, i);
    }
    price := UnitPrice(meter.value.kind);
    ok := s.AddReading(meterId, date, value, 0.0);
  }
}
