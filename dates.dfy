/** Proleptic Gregorian calendar dates as (year, month, day) triples, in place of
    JavaScript's `Date` and Python's `datetime.date`: month lengths, the day after
    a date, chronological order, the inclusive run of days between two dates,
    the day of the week, and the two textual keys the calendar uses. */
module Dates {
  import opened Wrappers
  import opened Text

  datatype Date = Date(year: int, month: int, day: int)

  predicate IsLeapYear(y: int) {
    y % 4 == 0 && (y % 100 != 0 || y % 400 == 0)
  }

  function YearLength(y: int): int {
    if IsLeapYear(y) then 366 else 365
  }

  /** `new Date(year, month, 0).getDate()`: the number of days in `month`. */
  function DaysInMonth(y: int, m: int): (n: int)
    requires 1 <= m <= 12
    ensures 28 <= n <= 31
    ensures m == 2 ==> (n == 29 <==> IsLeapYear(y))
  {
    if m == 2 then (if IsLeapYear(y) then 29 else 28)
    else if m == 4 || m == 6 || m == 9 || m == 11 then 30
    else 31
  }

  /** A real calendar day; years start at 1, as for Python's `date`. */
  predicate Valid(d: Date) {
    1 <= d.year && 1 <= d.month <= 12 && 1 <= d.day <= DaysInMonth(d.year, d.month)
  }

  /** Days in the years before `y`, counting from year 1. */
  function DaysBeforeYear(y: int): nat
    decreases y
  {
    if y <= 1 then 0 else DaysBeforeYear(y - 1) + YearLength(y - 1)
  }

  /** Days in the months of year `y` before month `m`. */
  function DaysBeforeMonth(y: int, m: int): nat
    requires 1 <= m <= 12
  {
    [0, 31, 59, 90, 120, 151, 181, 212, 243, 273, 304, 334][m - 1]
      + (if m > 2 && IsLeapYear(y) then 1 else 0)
  }

  /** The day number of `d`, 0001-01-01 being day 1: what a timestamp orders by. */
  function Ordinal(d: Date): int
    requires Valid(d)
  {
    DaysBeforeYear(d.year) + DaysBeforeMonth(d.year, d.month) + d.day
  }

  lemma DaysBeforeMonthStep(y: int, m: int)
    requires 1 <= m <= 12
    ensures m < 12 ==> DaysBeforeMonth(y, m + 1) == DaysBeforeMonth(y, m) + DaysInMonth(y, m)
    ensures m == 12 ==> DaysBeforeMonth(y, m) + DaysInMonth(y, m) == YearLength(y)
  {
  }

  /** The day after `d` (`setDate(getDate() + 1)`): next day of the month, first of
      the next month, or January 1 of the next year; one day later in time. */
  function NextDay(d: Date): (r: Date)
    requires Valid(d)
    ensures Valid(r) && Ordinal(r) == Ordinal(d) + 1
  {
    DaysBeforeMonthStep(d.year, d.month);
    if d.day < DaysInMonth(d.year, d.month) then Date(d.year, d.month, d.day + 1)
    else if d.month < 12 then Date(d.year, d.month + 1, 1)
    else Date(d.year + 1, 1, 1)
  }

  /** `getDay()`: 0 for Sunday up to 6 for Saturday (0001-01-01 was a Monday). */
  function Weekday(d: Date): (w: int)
    requires Valid(d)
  {
    Ordinal(d) % 7
  }

  /** The weekday of the first of a month, the number of blank cells before day 1. */
  function FirstWeekday(y: int, m: int): (w: int)
    requires 1 <= y && 1 <= m <= 12
    ensures 0 <= w < 7 && w == Weekday(Date(y, m, 1))
  {
    Weekday(Date(y, m, 1))
  }

  /** Calendar order on (year, month, day), as Python and SQL compare dates. */
  predicate Before(a: Date, b: Date) {
    a.year < b.year || (a.year == b.year && (a.month < b.month || (a.month == b.month && a.day < b.day)))
  }

  /** Every day from `s` to `e` inclusive, in order: the loop of `saveEvent`. */
  function RangeDays(s: Date, e: Date): (days: seq<Date>)
    requires Valid(s) && Valid(e)
    ensures |days| == if Ordinal(s) <= Ordinal(e) then Ordinal(e) - Ordinal(s) + 1 else 0
    ensures forall i :: 0 <= i < |days| ==> Valid(days[i]) && Ordinal(days[i]) == Ordinal(s) + i
    decreases Ordinal(e) - Ordinal(s)
  {
    if Ordinal(s) > Ordinal(e) then [] else [s] + RangeDays(NextDay(s), e)
  }

  // ------------------------------------------------------- order lemmas

  lemma DayOfYearBound(d: Date)
    requires Valid(d)
    ensures DaysBeforeYear(d.year) < Ordinal(d) <= DaysBeforeYear(d.year) + YearLength(d.year)
  {
    DaysBeforeMonthStep(d.year, d.month);
    if d.month < 12 {
      MonthsBeforeMonotone(d.year, d.month + 1, 12);
      DaysBeforeMonthStep(d.year, 12);
    }
  }

  lemma {:induction false} MonthsBeforeMonotone(y: int, m1: int, m2: int)
    requires 1 <= m1 <= m2 <= 12
    ensures DaysBeforeMonth(y, m1) <= DaysBeforeMonth(y, m2)
    decreases m2 - m1
  {
    if m1 < m2 {
      DaysBeforeMonthStep(y, m1);
      MonthsBeforeMonotone(y, m1 + 1, m2);
    }
  }

  lemma {:induction false} YearsBeforeMonotone(y1: int, y2: int)
    requires 1 <= y1 < y2
    ensures DaysBeforeYear(y1) + YearLength(y1) <= DaysBeforeYear(y2)
    decreases y2 - y1
  {
    if y1 + 1 < y2 {
      YearsBeforeMonotone(y1, y2 - 1);
    }
  }

  /** A date earlier in the calendar is earlier in time. */
  lemma BeforeOrdinal(a: Date, b: Date)
    requires Valid(a) && Valid(b) && Before(a, b)
    ensures Ordinal(a) < Ordinal(b)
  {
    if a.year < b.year {
      DayOfYearBound(a);
      YearsBeforeMonotone(a.year, b.year);
      DayOfYearBound(b);
    } else if a.month < b.month {
      DaysBeforeMonthStep(a.year, a.month);
      MonthsBeforeMonotone(a.year, a.month + 1, b.month);
    }
  }

  /** Calendar order and time order agree on real days, and a day number names
      exactly one day. */
  lemma OrdinalOrder(a: Date, b: Date)
    requires Valid(a) && Valid(b)
    ensures Before(a, b) <==> Ordinal(a) < Ordinal(b)
    ensures Ordinal(a) == Ordinal(b) <==> a == b
  {
    if Before(a, b) {
      BeforeOrdinal(a, b);
    } else if Before(b, a) {
      BeforeOrdinal(b, a);
    }
  }

  /** The range holds exactly the real days between its ends, first `s` and last `e`. */
  lemma RangeDaysExactly(s: Date, e: Date, d: Date)
    requires Valid(s) && Valid(e) && Valid(d)
    ensures d in RangeDays(s, e) <==> Ordinal(s) <= Ordinal(d) <= Ordinal(e)
    ensures Ordinal(s) <= Ordinal(e) ==> RangeDays(s, e)[0] == s && RangeDays(s, e)[|RangeDays(s, e)| - 1] == e
  {
    var days := RangeDays(s, e);
    if Ordinal(s) <= Ordinal(d) <= Ordinal(e) {
      var i := Ordinal(d) - Ordinal(s);
      OrdinalOrder(days[i], d);
    }
    if Ordinal(s) <= Ordinal(e) {
      OrdinalOrder(days[0], s);
      OrdinalOrder(days[|days| - 1], e);
    }
  }

  /** No day occurs twice in a range. */
  lemma RangeDaysDistinct(s: Date, e: Date, i: int, j: int)
    requires Valid(s) && Valid(e)
    requires 0 <= i < j < |RangeDays(s, e)|
    ensures RangeDays(s, e)[i] != RangeDays(s, e)[j]
  {
  }

  /** 0001-01-01 of the proleptic Gregorian calendar was a Monday; with
      `WeekdayNext` this fixes the weekday of every day. */
  lemma WeekdayAnchor()
    ensures Weekday(Date(1, 1, 1)) == 1
  {
  }

  /** Each day of the week follows the one before. */
  lemma WeekdayNext(d: Date)
    requires Valid(d)
    ensures Weekday(NextDay(d)) == (Weekday(d) + 1) % 7
  {
    var e := NextDay(d);
    assert Weekday(e) == (Ordinal(d) + 1) % 7;
    NextResidue(Ordinal(d));
  }

  lemma NextResidue(n: int)
    ensures (n + 1) % 7 == (n % 7 + 1) % 7
  {
  }

  // ------------------------------------------------------------- keys

  /** `${year}-${mm}-${dd}` with the year padded to `yearWidth` digits and month and
      day padded to two: width 1 is the grid's template literal, width 4 the ISO form
      of `toISOString` and Python's `isoformat`. */
  function DateText(y: nat, yearWidth: nat, m: nat, d: nat): string {
    PadStart(NatToString(y), yearWidth) + "-" + PadStart(NatToString(m), 2) + "-" + PadStart(NatToString(d), 2)
  }

  /** The key a grid cell looks events up by. */
  function GridKey(y: nat, m: nat, d: nat): string {
    DateText(y, 1, m, d)
  }

  /** The ISO `YYYY-MM-DD` key of a day. */
  function IsoKey(d: Date): string
    requires Valid(d)
  {
    DateText(d.year, 4, d.month, d.day)
  }

  /** The three numbers `parseInt(key.split('-')[i])` reads back; `None` is NaN
      (also for a part that does not exist). */
  datatype KeyFields = KeyFields(year: Option<nat>, month: Option<nat>, day: Option<nat>)

  function ParseKey(key: string): KeyFields {
    var parts := Split(key, '-');
    KeyFields(
      ParseInt(parts[0]),
      if |parts| > 1 then ParseInt(parts[1]) else None,
      if |parts| > 2 then ParseInt(parts[2]) else None)
  }

  /** The parts of a formatted key are its three padded numbers. */
  lemma SplitDateText(y: nat, yearWidth: nat, m: nat, d: nat)
    ensures Split(DateText(y, yearWidth, m, d), '-') ==
      [PadStart(NatToString(y), yearWidth), PadStart(NatToString(m), 2), PadStart(NatToString(d), 2)]
  {
    var ys, ms, ds := PadStart(NatToString(y), yearWidth), PadStart(NatToString(m), 2), PadStart(NatToString(d), 2);
    DigitsHaveNo(ys, '-');
    DigitsHaveNo(ms, '-');
    DigitsHaveNo(ds, '-');
    assert DateText(y, yearWidth, m, d) == ys + ['-'] + (ms + ['-'] + ds);
    SplitAtSeparator(ys, '-', ms + ['-'] + ds);
    SplitAtSeparator(ms, '-', ds);
    SplitNoSeparator(ds, '-');
  }

  /** Formatting a date as text and splitting it on '-' gives back the same numbers. */
  lemma DateTextRoundTrip(y: nat, yearWidth: nat, m: nat, d: nat)
    ensures ParseKey(DateText(y, yearWidth, m, d)) == KeyFields(Some(y), Some(m), Some(d))
  {
    SplitDateText(y, yearWidth, m, d);
    PaddedRoundTrip(y, yearWidth);
    PaddedRoundTrip(m, 2);
    PaddedRoundTrip(d, 2);
  }

  /** Different days have different ISO keys. */
  lemma IsoKeyInjective(a: Date, b: Date)
    requires Valid(a) && Valid(b) && IsoKey(a) == IsoKey(b)
    ensures a == b
  {
    DateTextRoundTrip(a.year, 4, a.month, a.day);
    DateTextRoundTrip(b.year, 4, b.month, b.day);
  }

  /** From year 1000 on, the grid's key and the ISO key of a day coincide. */
  lemma GridKeyIsIsoKey(d: Date)
    requires Valid(d) && d.year >= 1000
    ensures GridKey(d.year, d.month, d.day) == IsoKey(d)
  {
    var y: nat := d.year;
    assert |NatToString(y)| == |NatToString(y / 10)| + 1;
    assert |NatToString(y / 10)| == |NatToString(y / 10 / 10)| + 1;
    assert |NatToString(y / 10 / 10)| == |NatToString(y / 10 / 10 / 10)| + 1;
  }
}
