/** Daily consumption derived from cumulative readings (`get_chart_data`,
    `get_consumption_stats`): each row's consumption is its reading minus
    the previous reading of the same meter in row order, and the first
    row of every meter gets 0. */
module Consumption {
  import opened Wrappers
  import opened Tables
  import opened Calendar
  import opened Schema
  import opened RealSeq
  import opened Positions
  import Sorting

  /** A reading joined with its meter and that meter's mosque: the columns
      date, value, cost, meter_id, mosque_id and type. */
  datatype Row = Row(date: Date, value: real, cost: real, meterId: int, mosqueId: int, kind: Utility)

  /** A row with its derived `daily_consumption`. */
  datatype Point = Point(row: Row, daily: real)

  function ValueOf(r: Row): real { r.value }
  function CostOf(r: Row): real { r.cost }
  function DateOf(r: Row): int { r.date }
  function DailyOf(p: Point): real { p.daily }
  function PointCost(p: Point): real { p.row.cost }

  /** The row a reading contributes to the join when its meter is `m`. */
  function JoinedRow(r: Reading, m: Meter): Row
  {
    Row(r.date, r.value, r.cost, r.meterId, m.mosqueId, m.kind)
  }

  /** The inner join Reading ⋈ Meter ⋈ Mosque, in reading-table order. */
  function JoinReadings(rs: seq<Keyed<Reading>>, meters: seq<Keyed<Meter>>, mosques: seq<Keyed<Mosque>>): (rows: seq<Row>)
    ensures |rows| <= |rs|
    ensures forall i :: 0 <= i < |rows| ==>
      && Find(meters, rows[i].meterId) == Some(Meter(rows[i].mosqueId, rows[i].kind))
      && Find(mosques, rows[i].mosqueId).Some?
    ensures forall j :: 0 <= j < |rs| && Find(meters, rs[j].row.meterId).Some?
                        && Find(mosques, Find(meters, rs[j].row.meterId).value.mosqueId).Some?
                        ==> JoinedRow(rs[j].row, Find(meters, rs[j].row.meterId).value) in rows
  {
    if rs == [] then []
    else
      var r := rs[0].row;
      var here := match Find(meters, r.meterId)
        case None => []
        case Some(m) => if Find(mosques, m.mosqueId).Some? then [JoinedRow(r, m)] else [];
      var rest := JoinReadings(rs[1..], meters, mosques);
      assert forall j :: 1 <= j < |rs| ==> rs[j] == rs[1..][j - 1];
      here + rest
  }

  function Join(db: Db): seq<Row>
  {
    JoinReadings(db.readings, db.meters, db.mosques)
  }

  /** A reading joins when its meter exists and that meter's mosque exists. */
  predicate Joinable(r: Reading, meters: seq<Keyed<Meter>>, mosques: seq<Keyed<Mosque>>)
  {
    Find(meters, r.meterId).Some? && Find(mosques, Find(meters, r.meterId).value.mosqueId).Some?
  }

  /** The joined rows come from the readings in table order, one row per
      joinable reading and none from any other. */
  lemma {:induction false} JoinKeepsOrder(rs: seq<Keyed<Reading>>, meters: seq<Keyed<Meter>>, mosques: seq<Keyed<Mosque>>)
    ensures exists idx :: JoinedAt(JoinReadings(rs, meters, mosques), rs, meters, mosques, idx)
  {
    var rows := JoinReadings(rs, meters, mosques);
    if rs == [] {
      assert JoinedAt(rows, rs, meters, mosques, []);
    } else {
      var tail := rs[1..];
      JoinKeepsOrder(tail, meters, mosques);
      var idx :| JoinedAt(JoinReadings(tail, meters, mosques), tail, meters, mosques, idx);
      JoinStep(rs, meters, mosques, idx);
    }
  }

  /** `rows` is the join of the readings at the increasing positions `idx`,
      which are exactly the positions of the joinable readings. */
  ghost predicate JoinedAt(rows: seq<Row>, rs: seq<Keyed<Reading>>, meters: seq<Keyed<Meter>>, mosques: seq<Keyed<Mosque>>, idx: seq<int>)
  {
    && Increasing(idx, |rs|)
    && |idx| == |rows|
    && (forall i :: 0 <= i < |idx| ==>
          && Joinable(rs[idx[i]].row, meters, mosques)
          && rows[i] == JoinedRow(rs[idx[i]].row, Find(meters, rs[idx[i]].row.meterId).value))
    && (forall j :: 0 <= j < |rs| ==> (j in idx <==> Joinable(rs[j].row, meters, mosques)))
  }

  lemma JoinStep(rs: seq<Keyed<Reading>>, meters: seq<Keyed<Meter>>, mosques: seq<Keyed<Mosque>>, idx: seq<int>)
    requires rs != []
    requires JoinedAt(JoinReadings(rs[1..], meters, mosques), rs[1..], meters, mosques, idx)
    ensures JoinedAt(JoinReadings(rs, meters, mosques), rs, meters, mosques, Front(idx, Joinable(rs[0].row, meters, mosques)))
  {
    var keep := Joinable(rs[0].row, meters, mosques);
    FrontIncreasing(idx, |rs| - 1, keep);
    JoinCons(rs, meters, mosques);
    JoinStepRows(rs, meters, mosques, idx, JoinReadings(rs[1..], meters, mosques), JoinReadings(rs, meters, mosques));
    JoinStepMembers(rs, meters, mosques, idx);
  }

  /** The join of a table with a known first reading. */
  lemma JoinCons(rs: seq<Keyed<Reading>>, meters: seq<Keyed<Meter>>, mosques: seq<Keyed<Mosque>>)
    requires rs != []
    ensures JoinReadings(rs, meters, mosques)
         == (if Joinable(rs[0].row, meters, mosques)
             then [JoinedRow(rs[0].row, Find(meters, rs[0].row.meterId).value)] else [])
            + JoinReadings(rs[1..], meters, mosques)
  {
  }

  lemma JoinStepRows(rs: seq<Keyed<Reading>>, meters: seq<Keyed<Meter>>, mosques: seq<Keyed<Mosque>>,
                     idx: seq<int>, rest: seq<Row>, rows: seq<Row>)
    requires rs != [] && |idx| == |rest|
    requires forall i :: 0 <= i < |idx| ==> 0 <= idx[i] < |rs| - 1
    requires forall i :: 0 <= i < |idx| ==>
               && Joinable(rs[1..][idx[i]].row, meters, mosques)
               && rest[i] == JoinedRow(rs[1..][idx[i]].row, Find(meters, rs[1..][idx[i]].row.meterId).value)
    requires rows == (if Joinable(rs[0].row, meters, mosques)
                      then [JoinedRow(rs[0].row, Find(meters, rs[0].row.meterId).value)] else []) + rest
    ensures var f := Front(idx, Joinable(rs[0].row, meters, mosques));
            |f| == |rows| &&
            forall i :: 0 <= i < |f| ==>
              && Joinable(rs[f[i]].row, meters, mosques)
              && rows[i] == JoinedRow(rs[f[i]].row, Find(meters, rs[f[i]].row.meterId).value)
  {
    var keep := Joinable(rs[0].row, meters, mosques);
    var f := Front(idx, keep);
    forall i | 0 <= i < |f| ensures Joinable(rs[f[i]].row, meters, mosques)
        && rows[i] == JoinedRow(rs[f[i]].row, Find(meters, rs[f[i]].row.meterId).value) {
      if !keep || i > 0 {
        var k := if keep then i - 1 else i;
        assert f[i] == idx[k] + 1 && rows[i] == rest[k] && rs[f[i]] == rs[1..][idx[k]];
      }
    }
  }

  lemma JoinStepMembers(rs: seq<Keyed<Reading>>, meters: seq<Keyed<Meter>>, mosques: seq<Keyed<Mosque>>, idx: seq<int>)
    requires rs != []
    requires forall j :: 0 <= j < |rs| - 1 ==> (j in idx <==> Joinable(rs[1..][j].row, meters, mosques))
    requires var keep := Joinable(rs[0].row, meters, mosques);
             forall j :: 0 <= j < |rs| ==> (j in Front(idx, keep) <==> if j == 0 then keep else j - 1 in idx)
    ensures forall j :: 0 <= j < |rs| ==>
              (j in Front(idx, Joinable(rs[0].row, meters, mosques)) <==> Joinable(rs[j].row, meters, mosques))
  {
    forall j | 0 < j < |rs| ensures rs[j] == rs[1..][j - 1] {
    }
  }

  /** The optional query filters: mosque id, meter type, first and last day
      (both inclusive). An absent filter, and a mosque id of 0 (which
      Python's `if mosque_id:` treats as false), select every row. */
  datatype Filters = Filters(mosqueId: Option<int>, kind: Option<Utility>, start: Option<Date>, end: Option<Date>)

  predicate Matches(f: Filters, r: Row)
  {
    && (f.mosqueId.Some? && f.mosqueId.value != 0 ==> r.mosqueId == f.mosqueId.value)
    && (f.kind.Some? ==> r.kind == f.kind.value)
    && (f.start.Some? ==> r.date >= f.start.value)
    && (f.end.Some? ==> r.date <= f.end.value)
  }

  /** The rows of the query that pass every filter, in query order. */
  function Where(rows: seq<Row>, f: Filters): (r: seq<Row>)
    ensures forall x :: x in r <==> x in rows && Matches(f, x)
    ensures |r| <= |rows|
  {
    if rows == [] then []
    else (if Matches(f, rows[0]) then [rows[0]] else []) + Where(rows[1..], f)
  }

  /** `r` is `rows` read, in order, at the positions `idx`, which are
      exactly the positions of the rows that pass `f`. */
  ghost predicate KeptAt(r: seq<Row>, rows: seq<Row>, f: Filters, idx: seq<int>)
  {
    Picks(r, rows, idx) && forall j :: 0 <= j < |rows| ==> (j in idx <==> Matches(f, rows[j]))
  }

  /** The kept rows are in query order, each as often as in the query. */
  lemma {:induction false} WhereKeepsOrder(rows: seq<Row>, f: Filters)
    ensures exists idx :: KeptAt(Where(rows, f), rows, f, idx)
  {
    if rows == [] {
      assert KeptAt(Where(rows, f), rows, f, []);
    } else {
      WhereKeepsOrder(rows[1..], f);
      var idx :| KeptAt(Where(rows[1..], f), rows[1..], f, idx);
      WhereStep(rows, f, idx);
    }
  }

  lemma WhereStep(rows: seq<Row>, f: Filters, idx: seq<int>)
    requires rows != []
    requires KeptAt(Where(rows[1..], f), rows[1..], f, idx)
    ensures KeptAt(Where(rows, f), rows, f, Front(idx, Matches(f, rows[0])))
  {
    KeptFront(rows[0], rows[1..], Where(rows[1..], f), f, idx);
    WhereCons(rows, f);
    assert [rows[0]] + rows[1..] == rows;
  }

  /** A kept row occurs as often as in the query; any other row not at all. */
  lemma {:induction false} WhereMultiplicity(rows: seq<Row>, f: Filters)
    ensures forall x :: multiset(Where(rows, f))[x] == if Matches(f, x) then multiset(rows)[x] else 0
  {
    if rows != [] {
      WhereMultiplicity(rows[1..], f);
      CountFront(rows[0], rows[1..], Where(rows[1..], f), f);
      WhereCons(rows, f);
      assert [rows[0]] + rows[1..] == rows;
      var w := Where(rows, f);
      assert multiset(w) == multiset((if Matches(f, rows[0]) then [rows[0]] else []) + Where(rows[1..], f));
    }
  }

  lemma CountFront(x: Row, tail: seq<Row>, rest: seq<Row>, f: Filters)
    requires forall y :: multiset(rest)[y] == if Matches(f, y) then multiset(tail)[y] else 0
    ensures forall y :: multiset((if Matches(f, x) then [x] else []) + rest)[y]
                     == if Matches(f, y) then multiset([x] + tail)[y] else 0
  {
  }

  lemma WhereCons(rows: seq<Row>, f: Filters)
    requires rows != []
    ensures Where(rows, f) == (if Matches(f, rows[0]) then [rows[0]] else []) + Where(rows[1..], f)
  {
  }

  /** Looking at one more first row keeps the rows kept at increasing
      positions. */
  lemma KeptFront(x: Row, tail: seq<Row>, rest: seq<Row>, f: Filters, idx: seq<int>)
    requires KeptAt(rest, tail, f, idx)
    ensures KeptAt((if Matches(f, x) then [x] else []) + rest, [x] + tail, f, Front(idx, Matches(f, x)))
  {
    var s := [x] + tail;
    PicksFront(x, tail, rest, idx, Matches(f, x));
    forall j | 0 < j < |s| ensures s[j] == tail[j - 1] {
    }
  }

  /** The value of the last row of meter `m` in `rows`, if there is one. */
  function LastValue(rows: seq<Row>, m: int): Option<real>
  {
    if rows == [] then None
    else if rows[|rows| - 1].meterId == m then Some(rows[|rows| - 1].value)
    else LastValue(rows[..|rows| - 1], m)
  }

  /** `df.groupby('meter_id')['value'].diff().fillna(0)`: one point per row,
      in row order. */
  function DailyConsumption(rows: seq<Row>): (ps: seq<Point>)
    ensures |ps| == |rows|
    ensures forall i :: 0 <= i < |ps| ==> ps[i].row == rows[i]
  {
    seq(|rows|, i requires 0 <= i < |rows| => Point(rows[i], NextDaily(rows[..i], rows[i])))
  }

  /** The consumption of row `x` coming after `before`: its value minus the
      last value of its meter, or 0 for the meter's first row. */
  function NextDaily(before: seq<Row>, x: Row): real
  {
    match LastValue(before, x.meterId)
    case None => 0.0
    case Some(v) => x.value - v
  }

  /** `get_chart_data`: filter in the query, then derive. */
  function GetChartData(db: Db, f: Filters): seq<Point>
  {
    var rows := Where(Join(db), f);
    if rows == [] then [] else DailyConsumption(rows)
  }

  /** The totals and the frame `get_consumption_stats` returns. */
  datatype Stats = Stats(totalConsumption: real, totalCost: real, frame: seq<Point>)

  /** `get_consumption_stats`: filter by mosque, sort by date, derive, sum. */
  function GetConsumptionStats(db: Db, mosqueId: Option<int>): Stats
  {
    var rows := Where(Join(db), Filters(mosqueId, None, None, None));
    if rows == [] then Stats(0.0, 0.0, [])
    else
      var ps := DailyConsumption(Sorting.SortByKey(rows, DateOf));
      Stats(Sum(Column(ps, DailyOf)), Sum(Column(ps, PointCost)), ps)
  }

  // ---- Reference definitions for one meter -------------------------------

  /** The rows of meter `m`, in order. */
  function OfMeter(rows: seq<Row>, m: int): seq<Row>
  {
    if rows == [] then []
    else OfMeter(rows[..|rows| - 1], m) + (if rows[|rows| - 1].meterId == m then [rows[|rows| - 1]] else [])
  }

  /** The points of meter `m`, in order. */
  function PointsOfMeter(ps: seq<Point>, m: int): seq<Point>
  {
    if ps == [] then []
    else PointsOfMeter(ps[..|ps| - 1], m) + (if ps[|ps| - 1].row.meterId == m then [ps[|ps| - 1]] else [])
  }

  /** Consecutive differences of one series, 0 for its first element. */
  function Differences(vs: seq<real>): (d: seq<real>)
    ensures |d| == |vs|
  {
    seq(|vs|, i requires 0 <= i < |vs| => if i == 0 then 0.0 else vs[i] - vs[i - 1])
  }

  // ---- Lemmas ------------------------------------------------------------

  lemma {:induction false} LastValueOfMeter(rows: seq<Row>, m: int)
    ensures var own := OfMeter(rows, m);
            LastValue(rows, m) == if own == [] then None else Some(own[|own| - 1].value)
  {
    if rows != [] {
      LastValueOfMeter(rows[..|rows| - 1], m);
    }
  }

  /** The last row of meter `m` is the one whose value is remembered. */
  lemma {:induction false} LastValueAt(rows: seq<Row>, m: int, j: int)
    requires 0 <= j < |rows| && rows[j].meterId == m
    requires forall k :: j < k < |rows| ==> rows[k].meterId != m
    ensures LastValue(rows, m) == Some(rows[j].value)
  {
    if j < |rows| - 1 {
      LastValueAt(rows[..|rows| - 1], m, j);
    }
  }

  /** No value is remembered for a meter that has no row. */
  lemma {:induction false} LastValueAbsent(rows: seq<Row>, m: int)
    ensures LastValue(rows, m).None? <==> forall j :: 0 <= j < |rows| ==> rows[j].meterId != m
  {
    if rows != [] {
      LastValueAbsent(rows[..|rows| - 1], m);
    }
  }

  /** The first row of each meter gets consumption 0. */
  lemma FirstOfMeterIsZero(rows: seq<Row>, i: int)
    requires 0 <= i < |rows|
    requires forall j :: 0 <= j < i ==> rows[j].meterId != rows[i].meterId
    ensures DailyConsumption(rows)[i].daily == 0.0
  {
    LastValueAbsent(rows[..i], rows[i].meterId);
  }

  /** Every other row gets its value minus the previous value of the same
      meter, with no clamping of negative differences. */
  lemma DifferenceFromPrevious(rows: seq<Row>, j: int, i: int)
    requires 0 <= j < i < |rows| && rows[j].meterId == rows[i].meterId
    requires forall k :: j < k < i ==> rows[k].meterId != rows[i].meterId
    ensures DailyConsumption(rows)[i].daily == rows[i].value - rows[j].value
  {
    LastValueAt(rows[..i], rows[i].meterId, j);
  }

  lemma DailyAt(rows: seq<Row>, i: int)
    requires 0 <= i < |rows|
    ensures DailyConsumption(rows)[i] == Point(rows[i], NextDaily(rows[..i], rows[i]))
  {
  }

  lemma DailySnoc(rows: seq<Row>, x: Row)
    ensures DailyConsumption(rows + [x]) == DailyConsumption(rows) + [Point(x, NextDaily(rows, x))]
  {
    var a := DailyConsumption(rows + [x]);
    var b := DailyConsumption(rows) + [Point(x, NextDaily(rows, x))];
    forall i | 0 <= i < |a| ensures a[i] == b[i] {
      DailyAt(rows + [x], i);
      if i < |rows| {
        assert (rows + [x])[..i] == rows[..i];
        DailyAt(rows, i);
      } else {
        assert (rows + [x])[..i] == rows;
      }
    }
    assert a == b;
  }

  lemma OfMeterSnoc(rows: seq<Row>, x: Row, m: int)
    ensures OfMeter(rows + [x], m) == OfMeter(rows, m) + (if x.meterId == m then [x] else [])
  {
    assert (rows + [x])[..|rows|] == rows;
  }

  lemma PointsOfMeterSnoc(ps: seq<Point>, p: Point, m: int)
    ensures PointsOfMeter(ps + [p], m) == PointsOfMeter(ps, m) + (if p.row.meterId == m then [p] else [])
  {
    assert (ps + [p])[..|ps|] == ps;
  }

  lemma DifferencesSnoc(vs: seq<real>, v: real)
    ensures Differences(vs + [v]) == Differences(vs) + [if vs == [] then 0.0 else v - vs[|vs| - 1]]
  {
    var a := Differences(vs + [v]);
    var b := Differences(vs) + [if vs == [] then 0.0 else v - vs[|vs| - 1]];
    assert forall i :: 0 <= i < |a| ==> a[i] == b[i];
    assert a == b;
  }

  /** Restricted to one meter, the derived column is exactly the consecutive
      differences of that meter's readings: other meters' rows in between
      do not disturb it. */
  lemma {:induction false} DailyPerMeter(rows: seq<Row>, m: int)
    ensures Column(PointsOfMeter(DailyConsumption(rows), m), DailyOf)
         == Differences(Column(OfMeter(rows, m), ValueOf))
  {
    if rows != [] {
      var init, x := rows[..|rows| - 1], rows[|rows| - 1];
      assert rows == init + [x];
      var p := Point(x, NextDaily(init, x));
      DailySnoc(init, x);
      var before := PointsOfMeter(DailyConsumption(init), m);
      var own := OfMeter(init, m);
      OfMeterSnoc(init, x, m);
      PointsOfMeterSnoc(DailyConsumption(init), p, m);
      DailyPerMeter(init, m);
      if x.meterId == m {
        LastValueOfMeter(init, m);
        PerMeterStep(before, own, x, p.daily);
      } else {
        assert before + [] == before && own + [] == own;
      }
    }
  }

  /** Appending a row of the meter appends its difference to the previous
      row of the meter. */
  lemma PerMeterStep(before: seq<Point>, own: seq<Row>, x: Row, d: real)
    requires Column(before, DailyOf) == Differences(Column(own, ValueOf))
    requires d == if own == [] then 0.0 else x.value - own[|own| - 1].value
    ensures Column(before + [Point(x, d)], DailyOf) == Differences(Column(own + [x], ValueOf))
  {
    var vs := Column(own, ValueOf);
    calc {
      Column(before + [Point(x, d)], DailyOf);
      { ColumnConcat(before, [Point(x, d)], DailyOf); }
      Column(before, DailyOf) + [d];
      Differences(vs) + [d];
      { DifferencesSnoc(vs, x.value); }
      Differences(vs + [x.value]);
      { ColumnConcat(own, [x], ValueOf);
        assert Column([x], ValueOf) == [x.value]; }
      Differences(Column(own + [x], ValueOf));
    }
  }

  /** The differences of a series add up to its last value minus its first. */
  lemma {:induction false} Telescoping(vs: seq<real>)
    requires vs != []
    ensures Sum(Differences(vs)) == vs[|vs| - 1] - vs[0]
  {
    if |vs| == 1 {
      assert Differences(vs) == [0.0];
    } else {
      var init := vs[..|vs| - 1];
      assert vs == init + [vs[|vs| - 1]];
      Telescoping(init);
      DifferencesSnoc(init, vs[|vs| - 1]);
      SumAppend(Differences(init), vs[|vs| - 1] - init[|init| - 1]);
    }
  }

  /** A meter's consumption over the rows adds up to its last reading minus
      its first. */
  lemma MeterTotal(rows: seq<Row>, m: int)
    requires OfMeter(rows, m) != []
    ensures var own := OfMeter(rows, m);
            Sum(Column(PointsOfMeter(DailyConsumption(rows), m), DailyOf)) == own[|own| - 1].value - own[0].value
  {
    DailyPerMeter(rows, m);
    Telescoping(Column(OfMeter(rows, m), ValueOf));
  }

  /** Readings that never go down give consumption that is never negative. */
  lemma NonDecreasingGivesNonNegative(vs: seq<real>)
    requires forall i :: 0 < i < |vs| ==> vs[i - 1] <= vs[i]
    ensures forall i :: 0 <= i < |vs| ==> Differences(vs)[i] >= 0.0
  {
  }

  /** The rows a frame of points was derived from. */
  function FrameRows(ps: seq<Point>): (rows: seq<Row>)
    ensures |rows| == |ps|
    ensures forall i :: 0 <= i < |ps| ==> rows[i] == ps[i].row
  {
    seq(|ps|, i requires 0 <= i < |ps| => ps[i].row)
  }

  lemma FrameRowsOfDaily(rows: seq<Row>)
    ensures FrameRows(DailyConsumption(rows)) == rows
  {
  }

  /** `get_chart_data` returns one point per reading that passes the
      filters, in query order, and nothing exactly when no reading passes. */
  lemma ChartDataRows(db: Db, f: Filters)
    ensures FrameRows(GetChartData(db, f)) == Where(Join(db), f)
    ensures GetChartData(db, f) == [] <==> forall r :: r in Join(db) ==> !Matches(f, r)
    ensures forall m :: Column(PointsOfMeter(GetChartData(db, f), m), DailyOf)
                     == Differences(Column(OfMeter(Where(Join(db), f), m), ValueOf))
  {
    var rows := Where(Join(db), f);
    FrameRowsOfDaily(rows);
    if rows != [] {
      assert rows[0] in rows;
    }
    forall m ensures Column(PointsOfMeter(GetChartData(db, f), m), DailyOf)
                  == Differences(Column(OfMeter(rows, m), ValueOf)) {
      DailyPerMeter(rows, m);
    }
  }

  /** `get_consumption_stats`: (0, 0, empty) when no reading matches;
      otherwise a frame holding every matching reading once, in date order,
      whose cost total is the total cost of the readings and whose
      consumption total is the sum of the derived column. */
  lemma ConsumptionStatsSpec(db: Db, mosqueId: Option<int>)
    ensures var rows := Where(Join(db), Filters(mosqueId, None, None, None));
            var s := GetConsumptionStats(db, mosqueId);
            && (rows == [] ==> s == Stats(0.0, 0.0, []))
            && multiset(FrameRows(s.frame)) == multiset(rows)
            && Sorting.SortedBy(FrameRows(s.frame), DateOf)
            && s.totalCost == Sum(Column(rows, CostOf))
            && s.totalConsumption == Sum(Column(s.frame, DailyOf))
  {
    var rows := Where(Join(db), Filters(mosqueId, None, None, None));
    if rows != [] {
      var sorted := Sorting.SortByKey(rows, DateOf);
      var ps := DailyConsumption(sorted);
      FrameRowsOfDaily(sorted);
      Sorting.SortSorted(rows, DateOf);
      Sorting.SortSum(rows, DateOf, CostOf);
      assert Column(ps, PointCost) == Column(sorted, CostOf);
    }
  }

  /** Per meter, the consumption in the statistics frame adds up to the
      meter's last reading minus its first, in date order. */
  lemma ConsumptionStatsPerMeter(db: Db, mosqueId: Option<int>, m: int)
    requires OfMeter(FrameRows(GetConsumptionStats(db, mosqueId).frame), m) != []
    ensures var own := OfMeter(FrameRows(GetConsumptionStats(db, mosqueId).frame), m);
            Sum(Column(PointsOfMeter(GetConsumptionStats(db, mosqueId).frame, m), DailyOf))
              == own[|own| - 1].value - own[0].value
  {
    var rows := Where(Join(db), Filters(mosqueId, None, None, None));
    StatsFrame(db, mosqueId);
    FrameMeterTotal(GetConsumptionStats(db, mosqueId).frame, Sorting.SortByKey(rows, DateOf), m);
  }

  lemma FrameMeterTotal(frame: seq<Point>, rows: seq<Row>, m: int)
    requires frame == DailyConsumption(rows)
    requires OfMeter(FrameRows(frame), m) != []
    ensures var own := OfMeter(FrameRows(frame), m);
            Sum(Column(PointsOfMeter(frame, m), DailyOf)) == own[|own| - 1].value - own[0].value
  {
    FrameRowsOfDaily(rows);
    MeterTotal(rows, m);
  }

  /** The statistics frame is the derived column over the matching readings
      in date order. */
  lemma StatsFrame(db: Db, mosqueId: Option<int>)
    ensures GetConsumptionStats(db, mosqueId).frame
         == DailyConsumption(Sorting.SortByKey(Where(Join(db), Filters(mosqueId, None, None, None)), DateOf))
  {
    var rows := Where(Join(db), Filters(mosqueId, None, None, None));
    if rows == [] {
      assert Sorting.SortByKey(rows, DateOf) == [];
    }
  }

  /** Three cumulative readings 1000, 1050 and 1100 of one meter derive the
      daily usage 0, 50 and 50, which add up to 100. */
  lemma ThreeReadingsExample(d0: Date, d1: Date, d2: Date, meter: int, mosque: int, kind: Utility)
    ensures var rows := [Row(d0, 1000.0, 0.0, meter, mosque, kind),
                         Row(d1, 1050.0, 0.0, meter, mosque, kind),
                         Row(d2, 1100.0, 0.0, meter, mosque, kind)];
            && Column(DailyConsumption(rows), DailyOf) == [0.0, 50.0, 50.0]
            && Sum(Column(DailyConsumption(rows), DailyOf)) == 100.0
  {
    var rows := [Row(d0, 1000.0, 0.0, meter, mosque, kind),
                 Row(d1, 1050.0, 0.0, meter, mosque, kind),
                 Row(d2, 1100.0, 0.0, meter, mosque, kind)];
    FirstOfMeterIsZero(rows, 0);
    DifferenceFromPrevious(rows, 0, 1);
    DifferenceFromPrevious(rows, 1, 2);
    var c := Column(DailyConsumption(rows), DailyOf);
    assert c == [0.0, 50.0, 50.0];
    assert c[1..] == [50.0, 50.0] && c[1..][1..] == [50.0];
    calc {
      Sum(c);
      0.0 + Sum([50.0, 50.0]);
      0.0 + (50.0 + Sum([50.0]));
      { assert [50.0][1..] == []; }
      0.0 + (50.0 + (50.0 + Sum([])));
      100.0;
    }
  }

  /** A reading below the previous one of its meter gives negative
      consumption; nothing clamps it. */
  lemma RollbackIsNegative(rows: seq<Row>, j: int, i: int)
    requires 0 <= j < i < |rows| && rows[j].meterId == rows[i].meterId
    requires forall k :: j < k < i ==> rows[k].meterId != rows[i].meterId
    requires rows[i].value < rows[j].value
    ensures DailyConsumption(rows)[i].daily < 0.0
  {
    DifferenceFromPrevious(rows, j, i);
  }

  /** Readings 1000 then 900 of one meter give -100. */
  lemma RollbackExample(d0: Date, d1: Date, meter: int, mosque: int, kind: Utility)
    ensures var rows := [Row(d0, 1000.0, 0.0, meter, mosque, kind), Row(d1, 900.0, 0.0, meter, mosque, kind)];
            DailyConsumption(rows)[1].daily == -100.0
  {
    var rows := [Row(d0, 1000.0, 0.0, meter, mosque, kind), Row(d1, 900.0, 0.0, meter, mosque, kind)];
    DifferenceFromPrevious(rows, 0, 1);
  }
}
