/**
  Calendar dates as day ordinals, numbered as Python's `date.toordinal()`
  numbers them (0001-01-01 is day 1), and the `strptime(s, "%Y%m%d")` step
  that turns a file-name field into one.
 */
module Dates {
  import opened Common
  import opened Decimal

  predicate IsLeap(y: int) {
    y % 4 == 0 && (y % 100 != 0 || y % 400 == 0)
  }

  function DaysInMonth(y: int, m: int): (n: nat)
    requires 1 <= m <= 12
    ensures 28 <= n <= 31
  {
    if m == 2 then (if IsLeap(y) then 29 else 28)
    else if m == 4 || m == 6 || m == 9 || m == 11 then 30
    else 31
  }

  /** Days of year y before the first of month m. */
  function DaysBeforeMonth(y: int, m: int): nat
    requires 1 <= m <= 12
  {
    if m == 1 then 0 else DaysBeforeMonth(y, m - 1) + DaysInMonth(y, m - 1)
  }

  /** Days before 1 January of year y, counted from 1 January of year 1. */
  function DaysBeforeYear(y: int): int {
    var p := y - 1;
    p * 365 + p / 4 - p / 100 + p / 400
  }

  predicate ValidDate(y: int, m: int, d: int) {
    1 <= y && 1 <= m <= 12 && 1 <= d <= DaysInMonth(y, m)
  }

  function ToOrdinal(y: int, m: int, d: int): int
    requires ValidDate(y, m, d)
  {
    DaysBeforeYear(y) + DaysBeforeMonth(y, m) + d
  }

  /** The day after the last of a month other than December is the first of the next month. */
  lemma MonthBoundary(y: int, m: int)
    requires 1 <= y && 1 <= m < 12
    ensures ValidDate(y, m, DaysInMonth(y, m)) && ValidDate(y, m + 1, 1)
    ensures ToOrdinal(y, m + 1, 1) == ToOrdinal(y, m, DaysInMonth(y, m)) + 1
  {
  }

  /** A year has 366 days when it is a leap year and 365 otherwise. */
  lemma YearLength(y: int)
    requires 1 <= y
    ensures DaysBeforeYear(y + 1) - DaysBeforeYear(y) == if IsLeap(y) then 366 else 365
  {
    var p := y - 1;
    assert (p + 1) / 4 - p / 4 == (if y % 4 == 0 then 1 else 0);
    assert (p + 1) / 100 - p / 100 == (if y % 100 == 0 then 1 else 0);
    assert (p + 1) / 400 - p / 400 == (if y % 400 == 0 then 1 else 0);
  }

  /** December starts 334 days into a year, one day later in a leap year. */
  lemma DaysBeforeDecember(y: int)
    ensures DaysBeforeMonth(y, 12) == if IsLeap(y) then 335 else 334
  {
    var leap := if IsLeap(y) then 1 else 0;
    assert DaysBeforeMonth(y, 2) == 31;
    assert DaysBeforeMonth(y, 3) == 59 + leap;
    assert DaysBeforeMonth(y, 4) == 90 + leap;
    assert DaysBeforeMonth(y, 5) == 120 + leap;
    assert DaysBeforeMonth(y, 6) == 151 + leap;
    assert DaysBeforeMonth(y, 7) == 181 + leap;
    assert DaysBeforeMonth(y, 8) == 212 + leap;
    assert DaysBeforeMonth(y, 9) == 243 + leap;
    assert DaysBeforeMonth(y, 10) == 273 + leap;
    assert DaysBeforeMonth(y, 11) == 304 + leap;
    assert DaysBeforeMonth(y, 12) == 334 + leap;
  }

  /** The day after 31 December is 1 January of the next year: ordinals count days without gaps. */
  lemma YearBoundary(y: int)
    requires 1 <= y
    ensures ValidDate(y, 12, 31) && ValidDate(y + 1, 1, 1)
    ensures ToOrdinal(y + 1, 1, 1) == ToOrdinal(y, 12, 31) + 1
  {
    YearLength(y);
    DaysBeforeDecember(y);
  }

  /** A month ends no later than a later month begins. */
  lemma {:induction false} MonthsInOrder(y: int, m1: int, m2: int)
    requires 1 <= m1 < m2 <= 12
    ensures DaysBeforeMonth(y, m1) + DaysInMonth(y, m1) <= DaysBeforeMonth(y, m2)
    decreases m2
  {
    if m1 < m2 - 1 {
      MonthsInOrder(y, m1, m2 - 1);
    }
  }

  /** Every day of year y falls before the first day of year y + 1. */
  lemma WithinYear(y: int, m: int, d: int)
    requires ValidDate(y, m, d)
    ensures DaysBeforeYear(y) < ToOrdinal(y, m, d) <= DaysBeforeYear(y + 1)
  {
    YearLength(y);
    DaysBeforeDecember(y);
    if m < 12 {
      MonthsInOrder(y, m, 12);
    }
  }

  /** A year ends no later than a later year begins. */
  lemma {:induction false} YearsInOrder(y1: int, y2: int)
    requires 1 <= y1 < y2
    ensures DaysBeforeYear(y1 + 1) <= DaysBeforeYear(y2)
    decreases y2
  {
    if y1 < y2 - 1 {
      YearsInOrder(y1, y2 - 1);
      YearLength(y2 - 1);
    }
  }

  /** (y1, m1, d1) comes before (y2, m2, d2) on the calendar. */
  predicate DateBefore(y1: int, m1: int, d1: int, y2: int, m2: int, d2: int) {
    y1 < y2 || (y1 == y2 && (m1 < m2 || (m1 == m2 && d1 < d2)))
  }

  /** An earlier calendar date has a smaller ordinal. */
  lemma OrdinalIncreasing(y1: int, m1: int, d1: int, y2: int, m2: int, d2: int)
    requires ValidDate(y1, m1, d1) && ValidDate(y2, m2, d2) && DateBefore(y1, m1, d1, y2, m2, d2)
    ensures ToOrdinal(y1, m1, d1) < ToOrdinal(y2, m2, d2)
  {
    if y1 < y2 {
      WithinYear(y1, m1, d1);
      WithinYear(y2, m2, d2);
      if y1 + 1 < y2 {
        YearsInOrder(y1, y2);
      }
    } else if m1 < m2 {
      MonthsInOrder(y1, m1, m2);
    }
  }

  /**
    Ordinals compare as the dates do: comparing two `datetime` values at
    midnight, as the window test does, is comparing their ordinals, and
    distinct dates have distinct ordinals.
   */
  lemma OrdinalOrder(y1: int, m1: int, d1: int, y2: int, m2: int, d2: int)
    requires ValidDate(y1, m1, d1) && ValidDate(y2, m2, d2)
    ensures ToOrdinal(y1, m1, d1) < ToOrdinal(y2, m2, d2) <==> DateBefore(y1, m1, d1, y2, m2, d2)
    ensures ToOrdinal(y1, m1, d1) == ToOrdinal(y2, m2, d2) <==> (y1, m1, d1) == (y2, m2, d2)
  {
    if DateBefore(y1, m1, d1, y2, m2, d2) {
      OrdinalIncreasing(y1, m1, d1, y2, m2, d2);
    } else if DateBefore(y2, m2, d2, y1, m1, d1) {
      OrdinalIncreasing(y2, m2, d2, y1, m1, d1);
    }
  }

  /**
    `datetime.strptime(s, "%Y%m%d")` on an eight-digit field, as a day
    ordinal; `None` where it raises (not eight digits, or not a calendar date).
   */
  function ParseYmd(s: string): (r: Option<int>)
    ensures r.Some? ==> |s| == 8 && AllDigits(s)
  {
    if |s| == 8 && AllDigits(s) then
      var y, m, d := DigitsValue(s[..4]), DigitsValue(s[4..6]), DigitsValue(s[6..]);
      if ValidDate(y, m, d) then Some(ToOrdinal(y, m, d)) else None
    else None
  }

  /** The eight-digit `%Y%m%d` spelling of a date (`date.strftime("%Y%m%d")` for years 1..9999). */
  function YmdString(y: nat, m: nat, d: nat): (s: string)
    ensures |s| == 8 && AllDigits(s)
  {
    Pad(y, 4) + Pad(m, 2) + Pad(d, 2)
  }

  /** The three fields of a `%Y%m%d` spelling. */
  lemma YmdFields(y: nat, m: nat, d: nat)
    ensures var s := YmdString(y, m, d);
      s[..4] == Pad(y, 4) && s[4..6] == Pad(m, 2) && s[6..] == Pad(d, 2)
  {
  }

  /** Every calendar date of years 1..9999, spelled `%Y%m%d`, parses back to its ordinal. */
  lemma ParseYmdRoundTrip(y: int, m: int, d: int)
    requires ValidDate(y, m, d) && y <= 9999
    ensures ParseYmd(YmdString(y, m, d)) == Some(ToOrdinal(y, m, d))
  {
    YmdFields(y, m, d);
    assert Pow10(4) == 10000 && Pow10(2) == 100;
    PadValue(y, 4);
    PadValue(m, 2);
    PadValue(d, 2);
  }

  /** Whatever parses is the `%Y%m%d` spelling of a calendar date, and its ordinal is that date's. */
  lemma ParseYmdOnlyDates(s: string)
    requires ParseYmd(s).Some?
    ensures var y, m, d := DigitsValue(s[..4]), DigitsValue(s[4..6]), DigitsValue(s[6..]);
      ValidDate(y, m, d) && y <= 9999 && s == YmdString(y, m, d) && ParseYmd(s) == Some(ToOrdinal(y, m, d))
  {
    var y, m, d := DigitsValue(s[..4]), DigitsValue(s[4..6]), DigitsValue(s[6..]);
    PadDigits(s[..4]);
    PadDigits(s[4..6]);
    PadDigits(s[6..]);
    assert Pow10(4) == 10000;
    YmdFields(y, m, d);
    assert s == s[..4] + s[4..6] + s[6..];
  }

  /** The four-digit and two-digit fields of the window's dates. */
  lemma WindowFields()
    ensures DigitsValue("2023") == 2023
    ensures DigitsValue("08") == 8 && DigitsValue("29") == 29 && DigitsValue("11") == 11
    ensures DigitsValue("30") == 30 && DigitsValue("02") == 2
  {
    assert "2023"[..3] == "202" && "202"[..2] == "20" && "20"[..1] == "2";
    assert "08"[..1] == "0" && "29"[..1] == "2" && "11"[..1] == "1";
    assert "30"[..1] == "3" && "02"[..1] == "0";
  }

  /** The first day of the configured extraction window. */
  lemma ParseYmdWindowStart()
    ensures ParseYmd("20230829") == Some(738761)
  {
    WindowFields();
    assert "20230829"[..4] == "2023";
    assert "20230829"[4..6] == "08";
    assert "20230829"[6..] == "29";
  }

  /** The last day of the configured extraction window. */
  lemma ParseYmdWindowEnd()
    ensures ParseYmd("20231130") == Some(738854)
  {
    WindowFields();
    assert "20231130"[..4] == "2023";
    assert "20231130"[4..6] == "11";
    assert "20231130"[6..] == "30";
  }

  /** A field that is eight digits but no calendar date is refused. */
  lemma ParseYmdRefusesFeb30()
    ensures ParseYmd("20230230") == None
  {
    WindowFields();
    assert "20230230"[..4] == "2023";
    assert "20230230"[4..6] == "02";
    assert "20230230"[6..] == "30";
  }
}
