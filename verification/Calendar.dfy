/**
 Date.UTC and the UTC field getters of JavaScript dates (section 21.4.1 of ECMA-262), on whole days
 counted from 1970-01-01, against the Gregorian calendar.
 */
module Calendar {
  const DAY_MS: int := 86_400_000

  // ---------- the Gregorian calendar ----------

  predicate IsLeap(y: int) {
    y % 4 == 0 && (y % 100 != 0 || y % 400 == 0)
  }

  function DaysInMonth(y: int, m: int): (n: int)
    ensures 28 <= n <= 31
  {
    if m == 2 then (if IsLeap(y) then 29 else 28)
    else if m == 4 || m == 6 || m == 9 || m == 11 then 30
    else 31
  }

  /** A date of the calendar, months counted from 1. */
  predicate IsDate(y: int, m: int, d: int) {
    1 <= m <= 12 && 1 <= d <= DaysInMonth(y, m)
  }

  // ---------- ECMA-262 day arithmetic ----------

  function DayFromYear(y: int): int {
    365 * (y - 1970) + (y - 1969) / 4 - (y - 1901) / 100 + (y - 1601) / 400
  }

  /** Days of year y before its month m, months counted from 0. */
  function DaysBefore(y: int, m: int): int {
    var leap := if IsLeap(y) then 1 else 0;
    if m <= 0 then 0
    else if m == 1 then 31
    else if m == 2 then 59 + leap
    else if m == 3 then 90 + leap
    else if m == 4 then 120 + leap
    else if m == 5 then 151 + leap
    else if m == 6 then 181 + leap
    else if m == 7 then 212 + leap
    else if m == 8 then 243 + leap
    else if m == 9 then 273 + leap
    else if m == 10 then 304 + leap
    else 334 + leap
  }

  /** MakeDay: month and day of month may be out of range and carry. */
  function MakeDay(y: int, month: int, date: int): int {
    var ym := y + month / 12;
    DayFromYear(ym) + DaysBefore(ym, month % 12) + date - 1
  }

  /** The day Date.UTC(y, month, date) falls on: years 0 to 99 mean 1900 to 1999. */
  function UtcDay(y: int, month: int, date: int): int {
    MakeDay(if 0 <= y <= 99 then 1900 + y else y, month, date)
  }

  lemma CenturyIsFourth(y: int)
    ensures y % 100 == 0 ==> y % 4 == 0
  {
    var q := y / 100;
    if y % 100 == 0 { assert y == 4 * (25 * q); }
  }

  lemma FourCenturiesIsCentury(y: int)
    ensures y % 400 == 0 ==> y % 100 == 0
  {
    var q := y / 400;
    if y % 400 == 0 { assert y == 100 * (4 * q); }
  }

  lemma LeapCount(y: int)
    ensures (if IsLeap(y) then 1 else 0) ==
            (if y % 4 == 0 then 1 else 0) - (if y % 100 == 0 then 1 else 0) + (if y % 400 == 0 then 1 else 0)
  {
    CenturyIsFourth(y);
    FourCenturiesIsCentury(y);
  }

  lemma Fourths(y: int)
    ensures (y - 1968) / 4 == (y - 1969) / 4 + (if y % 4 == 0 then 1 else 0)
  {
  }

  lemma Hundredths(y: int)
    ensures (y - 1900) / 100 == (y - 1901) / 100 + (if y % 100 == 0 then 1 else 0)
  {
  }

  lemma FourHundredths(y: int)
    ensures (y - 1600) / 400 == (y - 1601) / 400 + (if y % 400 == 0 then 1 else 0)
  {
  }

  lemma YearLength(y: int)
    ensures DayFromYear(y + 1) == DayFromYear(y) + 365 + (if IsLeap(y) then 1 else 0)
  {
    Fourths(y);
    Hundredths(y);
    FourHundredths(y);
    LeapCount(y);
    hide IsLeap;
  }

  /** The largest year starting no later than day, searched upwards from y. */
  function YearFrom(day: int, y: int): (r: int)
    requires DayFromYear(y) <= day
    ensures DayFromYear(r) <= day < DayFromYear(r + 1)
    decreases day - DayFromYear(y)
  {
    YearLength(y);
    if DayFromYear(y + 1) <= day then YearFrom(day, y + 1) else y
  }

  /** Years before 1970 start no later than 365 days a year back, years after it no later than 366. */
  lemma {:induction false} YearStartsEarly(y: int)
    ensures y >= 1970 ==> DayFromYear(y) <= 366 * (y - 1970)
    ensures y <= 1970 ==> DayFromYear(y) <= 365 * (y - 1970)
    decreases if y >= 1970 then y - 1970 else 1970 - y
  {
    if y > 1970 {
      YearLength(y - 1);
      YearStartsEarly(y - 1);
    } else if y < 1970 {
      YearLength(y);
      YearStartsEarly(y + 1);
    }
  }

  function YearOf(day: int): (r: int)
    ensures DayFromYear(r) <= day < DayFromYear(r + 1)
  {
    var y := 1970 + (if day >= 0 then day / 366 else day / 365);
    YearStartsEarly(y);
    YearFrom(day, y)
  }

  function MonthIn(y: int, n: int): (m: int)
    ensures 0 <= m <= 11
    ensures 0 <= n < 365 + (if IsLeap(y) then 1 else 0) ==>
              DaysBefore(y, m) <= n < DaysBefore(y, m) + DaysInMonth(y, m + 1)
  {
    if n < DaysBefore(y, 1) then 0
    else if n < DaysBefore(y, 2) then 1
    else if n < DaysBefore(y, 3) then 2
    else if n < DaysBefore(y, 4) then 3
    else if n < DaysBefore(y, 5) then 4
    else if n < DaysBefore(y, 6) then 5
    else if n < DaysBefore(y, 7) then 6
    else if n < DaysBefore(y, 8) then 7
    else if n < DaysBefore(y, 9) then 8
    else if n < DaysBefore(y, 10) then 9
    else if n < DaysBefore(y, 11) then 10
    else 11
  }

  function MonthOf(day: int): (m: int)
    ensures 0 <= m <= 11
  {
    var y := YearOf(day);
    MonthIn(y, day - DayFromYear(y))
  }

  function DateOf(day: int): int {
    var y := YearOf(day);
    day - DayFromYear(y) - DaysBefore(y, MonthOf(day)) + 1
  }

  lemma EpochYear()
    ensures DayFromYear(1970) == 0
  {
  }

  lemma {:induction false} YearsOrdered(a: int, b: int)
    requires a <= b
    ensures DayFromYear(a) + 365 * (b - a) <= DayFromYear(b) <= DayFromYear(a) + 366 * (b - a)
    decreases b - a
  {
    if a < b {
      YearLength(a);
      YearsOrdered(a + 1, b);
    }
  }

  lemma YearIs(day: int, y: int)
    requires DayFromYear(y) <= day < DayFromYear(y + 1)
    ensures YearOf(day) == y
  {
    hide DayFromYear;
    var r := YearOf(day);
    if r < y { YearsOrdered(r + 1, y); }
    if y < r { YearsOrdered(y + 1, r); }
  }

  lemma DayInYear(y: int, m: int, d: int)
    requires IsDate(y, m, d)
    ensures var n := DaysBefore(y, m - 1) + d - 1;
            0 <= n < 365 + (if IsLeap(y) then 1 else 0) && MonthIn(y, n) == m - 1
  {
  }

  lemma MakeDayOfDate(y: int, m: int, d: int)
    requires IsDate(y, m, d)
    ensures MakeDay(y, m - 1, d) == DayFromYear(y) + DaysBefore(y, m - 1) + d - 1
    ensures DayFromYear(y) <= MakeDay(y, m - 1, d) < DayFromYear(y + 1)
  {
    hide DaysBefore, DayFromYear, DaysInMonth, MonthIn;
    assert (m - 1) / 12 == 0 && (m - 1) % 12 == m - 1;
    DayInYear(y, m, d);
    YearLength(y);
  }

  /** The getters give back every date of the calendar, in any year. */
  lemma FieldsOfDate(y: int, m: int, d: int)
    requires IsDate(y, m, d)
    ensures var day := MakeDay(y, m - 1, d); YearOf(day) == y && MonthOf(day) == m - 1 && DateOf(day) == d
  {
    hide DaysBefore, DayFromYear, MakeDay, MonthIn, YearOf, DaysInMonth;
    MakeDayOfDate(y, m, d);
    DayInYear(y, m, d);
    YearIs(MakeDay(y, m - 1, d), y);
  }

  /** Every day has a date of the calendar, and MakeDay finds it again. */
  lemma DateOfDay(day: int)
    ensures IsDate(YearOf(day), MonthOf(day) + 1, DateOf(day))
    ensures MakeDay(YearOf(day), MonthOf(day), DateOf(day)) == day
  {
    hide DayFromYear, YearOf, DaysInMonth, MonthIn, DaysBefore;
    YearLength(YearOf(day));
  }

  /** Comparing the normalised fields with the input accepts exactly the calendar's dates. */
  lemma NormalisedIffDate(y: int, m: int, d: int)
    ensures var day := MakeDay(y, m - 1, d);
            (YearOf(day) == y && MonthOf(day) == m - 1 && DateOf(day) == d) <==> IsDate(y, m, d)
  {
    DateOfDay(MakeDay(y, m - 1, d));
    if IsDate(y, m, d) { FieldsOfDate(y, m, d); }
  }

  /** Day numbers order dates as the calendar does: by year, then month, then day. */
  lemma DatesOrdered(y: int, m: int, d: int, y': int, m': int, d': int)
    requires IsDate(y, m, d) && IsDate(y', m', d')
    ensures MakeDay(y, m - 1, d) < MakeDay(y', m' - 1, d') <==>
            y < y' || (y == y' && (m < m' || (m == m' && d < d')))
  {
    hide DayFromYear, MakeDay;
    MakeDayOfDate(y, m, d);
    MakeDayOfDate(y', m', d');
    if y < y' { YearsOrdered(y + 1, y'); }
    if y' < y { YearsOrdered(y' + 1, y); }
  }
}
