/** The proleptic Gregorian calendar of Python's `datetime.date`: dates
    are day ordinals (0001-01-01 is day 1, `date.toordinal`), and the
    year-month key used for monthly totals is `strftime('%Y-%m')`. */
module Calendar {
  import Decimal

  /** A calendar date held as its day ordinal. */
  type Date = n: int | n >= 1 witness 1

  predicate IsLeap(y: int)
  {
    y % 4 == 0 && (y % 100 != 0 || y % 400 == 0)
  }

  function DaysInYear(y: int): int
  {
    if IsLeap(y) then 366 else 365
  }

  function DaysInMonth(y: int, m: int): (d: int)
    requires 1 <= m <= 12
    ensures 28 <= d <= 31
  {
    if m == 2 then (if IsLeap(y) then 29 else 28)
    else if m == 4 || m == 6 || m == 9 || m == 11 then 30
    else 31
  }

  /** Days in the months of year `y` before month `m`. */
  function DaysBeforeMonth(y: int, m: int): int
    requires 1 <= m <= 12
  {
    if m == 1 then 0 else DaysBeforeMonth(y, m - 1) + DaysInMonth(y, m - 1)
  }

  /** Days in the years before year `y`, in closed form. */
  function DaysBeforeYear(y: int): int
    requires y >= 1
  {
    var p := y - 1;
    365 * p + p / 4 - p / 100 + p / 400
  }

  datatype Civil = Civil(year: int, month: int, day: int)

  ghost predicate ValidCivil(c: Civil)
  {
    c.year >= 1 && 1 <= c.month <= 12 && 1 <= c.day <= DaysInMonth(c.year, c.month)
  }

  /** `date(y, m, d).toordinal()`. */
  function ToOrdinal(c: Civil): int
    requires ValidCivil(c)
  {
    DaysBeforeYear(c.year) + DaysBeforeMonth(c.year, c.month) + c.day
  }

  lemma YearLength(y: int)
    requires y >= 1
    ensures DaysBeforeYear(y + 1) == DaysBeforeYear(y) + DaysInYear(y)
  {
    var p := y - 1;
    assert (p + 1) / 4 == p / 4 + (if y % 4 == 0 then 1 else 0);
    assert (p + 1) / 100 == p / 100 + (if y % 100 == 0 then 1 else 0);
    assert (p + 1) / 400 == p / 400 + (if y % 400 == 0 then 1 else 0);
  }

  lemma YearOfMonths(y: int)
    ensures DaysBeforeMonth(y, 12) + DaysInMonth(y, 12) == DaysInYear(y)
  {
    var f := if IsLeap(y) then 1 else 0;
    assert DaysBeforeMonth(y, 2) == 31;
    assert DaysBeforeMonth(y, 3) == 59 + f;
    assert DaysBeforeMonth(y, 4) == 90 + f;
    assert DaysBeforeMonth(y, 5) == 120 + f;
    assert DaysBeforeMonth(y, 6) == 151 + f;
    assert DaysBeforeMonth(y, 7) == 181 + f;
    assert DaysBeforeMonth(y, 8) == 212 + f;
    assert DaysBeforeMonth(y, 9) == 243 + f;
    assert DaysBeforeMonth(y, 10) == 273 + f;
    assert DaysBeforeMonth(y, 11) == 304 + f;
    assert DaysBeforeMonth(y, 12) == 334 + f;
  }

  /** Civil date of the `n`-th day (1-based) counted from the first day of
      month `m` of year `y`. */
  function MonthFrom(y: int, m: int, n: int): (c: Civil)
    requires y >= 1 && 1 <= m <= 12 && n >= 1
    requires DaysBeforeMonth(y, m) + n <= DaysInYear(y)
    ensures ValidCivil(c) && c.year == y
    ensures DaysBeforeMonth(y, c.month) + c.day == DaysBeforeMonth(y, m) + n
    decreases 12 - m
  {
    YearOfMonths(y);
    if n > DaysInMonth(y, m) then MonthFrom(y, m + 1, n - DaysInMonth(y, m))
    else Civil(y, m, n)
  }

  /** Civil date of the `n`-th day (1-based) counted from 1 January of year `y`. */
  function YearFrom(y: int, n: int): (c: Civil)
    requires y >= 1 && n >= 1
    ensures ValidCivil(c) && ToOrdinal(c) == DaysBeforeYear(y) + n
    decreases n
  {
    if n > DaysInYear(y) then
      YearLength(y);
      YearFrom(y + 1, n - DaysInYear(y))
    else MonthFrom(y, 1, n)
  }

  /** `date.fromordinal(n)`: the one civil date whose ordinal is `n`. */
  function FromOrdinal(n: int): (c: Civil)
    requires n >= 1
    ensures ValidCivil(c) && ToOrdinal(c) == n
  {
    YearFrom(1, n)
  }

  /** `strftime('%Y-%m')` of the date with ordinal `n`. The year field is
      four digits wide, which every date pandas can hold (years 1677 to
      2262) fills exactly. */
  function MonthLabel(n: int): (s: string)
    requires n >= 1
    ensures |s| == 7 && s[4] == '-'
  {
    var c := FromOrdinal(n);
    Decimal.Fixed(c.year, 4) + "-" + Decimal.Fixed(c.month, 2)
  }

  /** Two dates of four-digit years get the same label exactly when they
      fall in the same month of the same year. */
  lemma MonthLabelKeysYearMonth(n1: int, n2: int)
    requires n1 >= 1 && n2 >= 1
    requires FromOrdinal(n1).year < 10000 && FromOrdinal(n2).year < 10000
    ensures MonthLabel(n1) == MonthLabel(n2)
        <==> FromOrdinal(n1).year == FromOrdinal(n2).year && FromOrdinal(n1).month == FromOrdinal(n2).month
  {
    var c1, c2 := FromOrdinal(n1), FromOrdinal(n2);
    var l1, l2 := MonthLabel(n1), MonthLabel(n2);
    assert Decimal.Pow10(4) == 10000 && Decimal.Pow10(2) == 100;
    if l1 == l2 {
      assert l1[..4] == Decimal.Fixed(c1.year, 4) && l2[..4] == Decimal.Fixed(c2.year, 4);
      assert l1[5..] == Decimal.Fixed(c1.month, 2) && l2[5..] == Decimal.Fixed(c2.month, 2);
      Decimal.FixedValue(c1.year, 4);
      Decimal.FixedValue(c2.year, 4);
      Decimal.FixedValue(c1.month, 2);
      Decimal.FixedValue(c2.month, 2);
    }
  }
}
