/** `process_csv_upload` without the store: the column check, the
    conversion of each row into a reading, and the all-or-nothing batch. */
module CsvImport {
  import opened Wrappers
  import opened Calendar
  import opened Schema
  import Decimal

  /** A table as `pd.read_csv` produces it: the header and one map from
      column name to cell text per row. */
  datatype CsvTable = CsvTable(columns: seq<string>, rows: seq<map<string, string>>)

  /** Every row of a data frame has exactly the frame's columns. */
  predicate Rectangular(t: CsvTable)
  {
    forall r | r in t.rows :: r.Keys == set c | c in t.columns
  }

  type Frame = t: CsvTable | Rectangular(t) witness CsvTable([], [])

  /** The cell conversions `int(...)`, `pd.to_datetime(...).date()` and
      `float(...)`; each either yields a value or raises with a message. */
  datatype CellParsers = CellParsers(
    toInt: string -> Result<int, string>,
    toDate: string -> Result<Date, string>,
    toReal: string -> Result<real, string>)

  const MissingColumns := "Missing columns: meter_id, date, value"

  function SuccessMessage(count: nat): string
  {
    "Successfully added " + Decimal.NatToString(count) + " readings"
  }

  /** The message reports the count: between its fixed words stands the
      decimal text of exactly `count`. */
  lemma SuccessMessageCount(count: nat)
    ensures var m := SuccessMessage(count);
            && |m| > 28
            && m[..19] == "Successfully added "
            && m[|m| - 9..] == " readings"
            && (forall i :: 19 <= i < |m| - 9 ==> Decimal.IsDigit(m[i]))
            && Decimal.Value(m[19..|m| - 9]) == count
  {
    var m, d := SuccessMessage(count), Decimal.NatToString(count);
    assert m[19..|m| - 9] == d;
    Decimal.NatToStringValue(count);
  }

  /** The `{'meter_id', 'date', 'value'}.issubset(df.columns)` check. */
  predicate HasRequired(t: CsvTable)
  {
    "meter_id" in t.columns && "date" in t.columns && "value" in t.columns
  }

  predicate HasCells(row: map<string, string>, hasCost: bool)
  {
    "meter_id" in row && "date" in row && "value" in row && (hasCost ==> "cost" in row)
  }

  /** One row of the loop body: meter id, date, value, then cost, which is 0
      when the file has no cost column. The first conversion that fails
      decides the error. */
  function ParseRow(row: map<string, string>, hasCost: bool, p: CellParsers): (r: Result<Reading, string>)
    requires HasCells(row, hasCost)
    ensures r.Success? <==>
              && p.toInt(row["meter_id"]).Success? && p.toDate(row["date"]).Success?
              && p.toReal(row["value"]).Success? && (hasCost ==> p.toReal(row["cost"]).Success?)
    ensures r.Success? ==>
              r.value == Reading(p.toInt(row["meter_id"]).value, p.toDate(row["date"]).value,
                                 p.toReal(row["value"]).value,
                                 if hasCost then p.toReal(row["cost"]).value else 0.0)
  {
    match p.toInt(row["meter_id"])
    case Failure(e) => Failure(e)
    case Success(m) =>
      match p.toDate(row["date"])
      case Failure(e) => Failure(e)
      case Success(d) =>
        match p.toReal(row["value"])
        case Failure(e) => Failure(e)
        case Success(v) =>
          match (if hasCost then p.toReal(row["cost"]) else Success(0.0))
          case Failure(e) => Failure(e)
          case Success(c) => Success(Reading(m, d, v, c))
  }

  /** The rows in file order; the first row that fails stops the batch. */
  function ParseRows(rows: seq<map<string, string>>, hasCost: bool, p: CellParsers): Result<seq<Reading>, string>
    requires forall i :: 0 <= i < |rows| ==> HasCells(rows[i], hasCost)
  {
    if rows == [] then Success([])
    else
      match ParseRows(rows[..|rows| - 1], hasCost, p)
      case Failure(e) => Failure(e)
      case Success(xs) =>
        match ParseRow(rows[|rows| - 1], hasCost, p)
        case Failure(e) => Failure(e)
        case Success(x) => Success(xs + [x])
  }

  lemma FrameHasCells(t: Frame)
    requires HasRequired(t)
    ensures forall i :: 0 <= i < |t.rows| ==> HasCells(t.rows[i], "cost" in t.columns)
  {
    forall i | 0 <= i < |t.rows| ensures HasCells(t.rows[i], "cost" in t.columns) {
      assert t.rows[i] in t.rows;
    }
  }

  /** The whole import decision: the file could not be read, a required
      column is missing, a row fails, or every row becomes a reading. */
  function Upload(upload: Result<Frame, string>, p: CellParsers): Result<seq<Reading>, string>
  {
    match upload
    case Failure(e) => Failure(e)
    case Success(t) =>
      if !HasRequired(t) then Failure(MissingColumns)
      else
        FrameHasCells(t);
        ParseRows(t.rows, "cost" in t.columns, p)
  }

  // ---- Properties of the batch -------------------------------------------

  /** The batch succeeds exactly when every row converts, and then it holds
      one reading per row, in file order. */
  lemma {:induction false} ParseRowsSuccess(rows: seq<map<string, string>>, hasCost: bool, p: CellParsers)
    requires forall i :: 0 <= i < |rows| ==> HasCells(rows[i], hasCost)
    ensures ParseRows(rows, hasCost, p).Success? <==>
              forall i :: 0 <= i < |rows| ==> ParseRow(rows[i], hasCost, p).Success?
    ensures ParseRows(rows, hasCost, p).Success? ==>
              var xs := ParseRows(rows, hasCost, p).value;
              |xs| == |rows| && forall i :: 0 <= i < |rows| ==> xs[i] == ParseRow(rows[i], hasCost, p).value
  {
    if rows != [] {
      var init := rows[..|rows| - 1];
      ParseRowsSuccess(init, hasCost, p);
      assert forall i :: 0 <= i < |init| ==> init[i] == rows[i];
    }
  }

  /** A failing batch reports the error of its first failing row. */
  lemma {:induction false} ParseRowsFailure(rows: seq<map<string, string>>, hasCost: bool, p: CellParsers)
    requires forall i :: 0 <= i < |rows| ==> HasCells(rows[i], hasCost)
    requires ParseRows(rows, hasCost, p).Failure?
    ensures exists k :: 0 <= k < |rows|
              && ParseRow(rows[k], hasCost, p) == Failure(ParseRows(rows, hasCost, p).error)
              && forall j :: 0 <= j < k ==> ParseRow(rows[j], hasCost, p).Success?
  {
    var init := rows[..|rows| - 1];
    assert forall i :: 0 <= i < |init| ==> init[i] == rows[i];
    if ParseRows(init, hasCost, p).Failure? {
      ParseRowsFailure(init, hasCost, p);
      var k :| 0 <= k < |init|
        && ParseRow(init[k], hasCost, p) == Failure(ParseRows(init, hasCost, p).error)
        && forall j :: 0 <= j < k ==> ParseRow(init[j], hasCost, p).Success?;
      assert ParseRow(rows[k], hasCost, p) == Failure(ParseRows(rows, hasCost, p).error);
    } else {
      ParseRowsSuccess(init, hasCost, p);
      var k := |rows| - 1;
      assert forall j :: 0 <= j < k ==> ParseRow(rows[j], hasCost, p).Success?;
    }
  }

  /** Once a prefix fails, every longer prefix fails with the same error. */
  lemma {:induction false} FailureSticks(rows: seq<map<string, string>>, k: nat, m: nat, hasCost: bool, p: CellParsers)
    requires forall i :: 0 <= i < |rows| ==> HasCells(rows[i], hasCost)
    requires k <= m <= |rows|
    requires ParseRows(rows[..k], hasCost, p).Failure?
    ensures ParseRows(rows[..m], hasCost, p) == ParseRows(rows[..k], hasCost, p)
    decreases m - k
  {
    if m > k {
      FailureSticks(rows, k, m - 1, hasCost, p);
      assert rows[..m][..m - 1] == rows[..m - 1];
    }
  }

  /** The loop of `process_csv_upload`: convert row after row into the
      batch, stopping at the first row that fails. */
  method BuildBatch(rows: seq<map<string, string>>, hasCost: bool, p: CellParsers)
      returns (res: Result<seq<Reading>, string>)
    requires forall i :: 0 <= i < |rows| ==> HasCells(rows[i], hasCost)
    ensures res == ParseRows(rows, hasCost, p)
  {
    var objects: seq<Reading> := [];
    var i := 0;
    while i < |rows|
      invariant 0 <= i <= |rows|
      invariant ParseRows(rows[..i], hasCost, p) == Success(objects)
    {
      var r := ParseRow(rows[i], hasCost, p);
      assert rows[..i + 1][..i] == rows[..i];
      if r.Failure? {
        FailureSticks(rows, i + 1, |rows|, hasCost, p);
        assert rows[..|rows|] == rows;
        return Failure(r.error);
      }
      objects := objects + [r.value];
      i := i + 1;
    }
    assert rows[..i] == rows;
    return Success(objects);
  }

  /** A file without one of the required columns is refused with the fixed
      message, whatever its rows. */
  lemma MissingColumnRefused(t: Frame, p: CellParsers)
    requires !("meter_id" in t.columns && "date" in t.columns && "value" in t.columns)
    ensures Upload(Success(t), p) == Failure(MissingColumns)
  {
  }

  /** Without a cost column every imported reading costs 0. */
  lemma CostDefaultsToZero(t: Frame, p: CellParsers)
    requires HasRequired(t) && "cost" !in t.columns
    requires Upload(Success(t), p).Success?
    ensures forall i :: 0 <= i < |Upload(Success(t), p).value| ==> Upload(Success(t), p).value[i].cost == 0.0
  {
    FrameHasCells(t);
    ParseRowsSuccess(t.rows, false, p);
  }
}
