/** Date ranges of the admin CRM analytics screen: whole UTC days as half-open intervals of instants. */
module AdminAnalytics {
  import opened Wrappers
  import opened Calendar
  import opened DayText

  const MAX_RANGE_DAYS := 366

  /** Milliseconds of 00:00 UTC on a real day of years 2000 to 2999. */
  function ParseDay(s: string): Option<int> {
    if !HasShape(s) then None
    else if YearIn(s) < 2000 || YearIn(s) > 2999 then None
    else if FieldsAgree(s) then Some(DayNamed(s) * DAY_MS)
    else None
  }

  datatype Range = Range(from: int, to: int, days: int)

  datatype Problem = InvalidStart | InvalidEnd | WrongOrder | TooLong(days: int)

  /** Math.round of t / DAY_MS: the half is rounded up. */
  function RoundDays(ms: int): int {
    (2 * ms + DAY_MS) / (2 * DAY_MS)
  }

  function AnalyticsRange(fromDay: string, toDay: string): Result<Range, Problem> {
    match ParseDay(fromDay)
    case None => Err(InvalidStart)
    case Some(f) =>
      match ParseDay(toDay)
      case None => Err(InvalidEnd)
      case Some(t) =>
        if t < f then Err(WrongOrder) else
        var days := RoundDays(t - f) + 1;
        if days > MAX_RANGE_DAYS then Err(TooLong(days)) else Ok(Range(f, t + DAY_MS, days))
  }

  datatype Preset = Last7 | Last30 | Last90 | ThisMonth | LastMonth

  datatype Days = Days(from: string, to: string)

  /** A clock after 1970 and within the range of dates. */
  predicate ClockReading(now: int) {
    0 <= now <= 100_000_000 * DAY_MS
  }

  /** Today, the first of this month and the first of the last one. */
  lemma MonthStarts(day: int)
    requires day >= 0
    ensures var y, m := YearOf(day), MonthOf(day);
            var first, previous := UtcDay(y, m, 1), UtcDay(y, m - 1, 1);
            UtcDay(y, m, DateOf(day)) == day && first == day - DateOf(day) + 1 && 1 <= DateOf(day) <= 31 &&
            first - previous == (if m == 0 then 31 else DaysInMonth(y, m))
  {
    hide DayFromYear, YearOf, MonthOf, DateOf;
    var y, m := YearOf(day), MonthOf(day);
    DateOfDay(day);
    EpochYear();
    if y < 1970 { YearsOrdered(y + 1, 1970); }
    assert (m - 1) / 12 == (if m == 0 then -1 else 0) && (m - 1) % 12 == (if m == 0 then 11 else m - 1);
    YearLength(y - 1);
  }

  lemma PresetBounds(now: int)
    requires ClockReading(now)
    ensures var day := now / DAY_MS;
            var y, m := YearOf(day), MonthOf(day);
            var first, previous := UtcDay(y, m, 1), UtcDay(y, m - 1, 1);
            0 <= day <= 100_000_000 && UtcDay(y, m, DateOf(day)) == day && -100 <= previous < first <= day
  {
    hide YearOf, MonthOf, DateOf, UtcDay;
    MonthStarts(now / DAY_MS);
  }

  function PresetDays(id: Preset, now: int): Days
    requires ClockReading(now)
  {
    hide YearOf, MonthOf, DateOf, UtcDay;
    var day := now / DAY_MS;
    var y, m := YearOf(day), MonthOf(day);
    var today := UtcDay(y, m, DateOf(day)) * DAY_MS;
    PresetBounds(now);
    match id
    case Last7 => Days(UtcDayString(today - 6 * DAY_MS), UtcDayString(today))
    case Last30 => Days(UtcDayString(today - 29 * DAY_MS), UtcDayString(today))
    case Last90 => Days(UtcDayString(today - 89 * DAY_MS), UtcDayString(today))
    case ThisMonth => Days(UtcDayString(UtcDay(y, m, 1) * DAY_MS), UtcDayString(today))
    case LastMonth =>
      Days(UtcDayString(UtcDay(y, m - 1, 1) * DAY_MS), UtcDayString(UtcDay(y, m, 1) * DAY_MS - DAY_MS))
  }

  // ---------- properties ----------

  /** A text is accepted exactly when it is a calendar date of years 2000 to 2999, and then names
      the midnight that starts it. */
  lemma ParseDayExact(s: string)
    ensures ParseDay(s).Some? <==> NamesDate(s) && 2000 <= YearIn(s) <= 2999
    ensures ParseDay(s).Some? ==> ParseDay(s).value == MakeDay(YearIn(s), MonthTextIn(s) - 1, DateIn(s)) * DAY_MS
  {
    if HasShape(s) { FieldsAgreeIff(s); }
  }

  lemma DayOfMidnight(day: int, ms: int)
    requires 0 <= ms < DAY_MS
    ensures (day * DAY_MS + ms) / DAY_MS == day
  {
  }

  lemma AcceptedDaysValid(s: string)
    requires ParseDay(s).Some?
    ensures ValidInstant(ParseDay(s).value)
  {
    ParseDayExact(s);
    var y := YearIn(s);
    MakeDayOfDate(y, MonthTextIn(s), DateIn(s));
    YearsOrdered(1970, y);
    YearsOrdered(y, y + 1);
  }

  lemma MidnightWritten(day: int, y: int, m: int, d: int)
    requires IsDate(y, m, d) && 0 <= y <= 9999 && day == MakeDay(y, m - 1, d) && ValidInstant(day * DAY_MS)
    ensures UtcDayString(day * DAY_MS) == Written(y, m, d)
  {
    hide YearOf, MonthOf, DateOf, MakeDay, Written;
    FieldsOfDate(y, m, d);
    DayOfMidnight(day, 0);
  }

  /** Writing the day of an accepted text gives the text again. */
  lemma PrintAfterParse(s: string)
    requires ParseDay(s).Some?
    ensures ValidInstant(ParseDay(s).value)
    ensures UtcDayString(ParseDay(s).value) == s
  {
    hide UtcDayString, MakeDay, DigitValue, ParseDay;
    AcceptedDaysValid(s);
    ParseDayExact(s);
    var y, m, d := YearIn(s), MonthTextIn(s), DateIn(s);
    MidnightWritten(MakeDay(y, m - 1, d), y, m, d);
    SameNumbersSameText(s, Written(y, m, d));
  }

  /** Reading the written day of any instant of years 2000 to 2999 gives the midnight before it. */
  lemma ParseAfterPrint(ms: int)
    requires ValidInstant(ms) && 2000 <= YearOf(ms / DAY_MS) <= 2999
    ensures ParseDay(UtcDayString(ms)) == Some(ms / DAY_MS * DAY_MS)
  {
    hide YearOf, MonthOf, DateOf, MakeDay, DigitValue;
    DateOfDay(ms / DAY_MS);
    ParseDayExact(UtcDayString(ms));
  }

  /** The range is accepted exactly for two accepted days, in order, at most 366 of them; it then
      spans exactly that many whole days and holds an instant exactly when the instant's UTC day
      lies between the chosen ones. */
  lemma AnalyticsRangeExact(fromDay: string, toDay: string)
    ensures var r := AnalyticsRange(fromDay, toDay);
            r.Ok? <==> ParseDay(fromDay).Some? && ParseDay(toDay).Some? &&
                       0 <= DayNamed(toDay) - DayNamed(fromDay) < 366
    ensures var r := AnalyticsRange(fromDay, toDay);
            r.Ok? ==> r.value.days == DayNamed(toDay) - DayNamed(fromDay) + 1 &&
                      r.value.to - r.value.from == r.value.days * DAY_MS &&
                      forall x: int :: r.value.from <= x < r.value.to <==>
                                         DayNamed(fromDay) <= x / DAY_MS <= DayNamed(toDay)
  {
    hide DayNamed;
    var f, t := ParseDay(fromDay), ParseDay(toDay);
    if f.Some? && t.Some? {
      var a, b := DayNamed(fromDay), DayNamed(toDay);
      assert t.value - f.value == (b - a) * DAY_MS;
      assert RoundDays((b - a) * DAY_MS) == b - a;
      forall x: int
        ensures a * DAY_MS <= x < b * DAY_MS + DAY_MS <==> a <= x / DAY_MS <= b
      {
      }
    }
  }

  /** And a refused range says why. */
  lemma RangeProblems(fromDay: string, toDay: string)
    ensures var r, bothDays := AnalyticsRange(fromDay, toDay), ParseDay(fromDay).Some? && ParseDay(toDay).Some?;
            (r == Err(InvalidStart) <==> ParseDay(fromDay).None?) &&
            (r == Err(InvalidEnd) <==> ParseDay(fromDay).Some? && ParseDay(toDay).None?) &&
            (r == Err(WrongOrder) <==> bothDays && DayNamed(toDay) < DayNamed(fromDay)) &&
            (forall n :: r == Err(TooLong(n)) <==> bothDays && n == DayNamed(toDay) - DayNamed(fromDay) + 1 > 366)
  {
    hide DayNamed, HasShape, FieldsAgree;
    var f, t := ParseDay(fromDay), ParseDay(toDay);
    if f.Some? && t.Some? {
      var a, b := DayNamed(fromDay), DayNamed(toDay);
      assert t.value - f.value == (b - a) * DAY_MS;
      assert RoundDays((b - a) * DAY_MS) == b - a;
    }
  }

  /** Fewer than 365 days back is at most one year back. */
  lemma YearWithin(earlier: int, day: int)
    requires day - 365 <= earlier <= day
    ensures YearOf(day) - 1 <= YearOf(earlier) <= YearOf(day)
  {
    hide DayFromYear;
    var a, b := YearOf(earlier), YearOf(day);
    if a < b - 1 { YearsOrdered(a + 1, b - 1); YearsOrdered(b - 1, b); }
    if b < a { YearsOrdered(b + 1, a); }
  }

  /** How many days each preset promises. */
  function PromisedDays(id: Preset, now: int): int {
    var day := now / DAY_MS;
    var y, m := YearOf(day), MonthOf(day);
    match id
    case Last7 => 7
    case Last30 => 30
    case Last90 => 90
    case ThisMonth => DateOf(day)
    case LastMonth => if m == 0 then 31 else DaysInMonth(y, m)
  }

  lemma RangeOfDays(a: int, b: int, day: int)
    requires 0 <= b - a < MAX_RANGE_DAYS && b <= day && day - 365 <= a
    requires 2001 <= YearOf(day) <= 2999 && 0 <= day <= 100_000_000
    ensures AnalyticsRange(UtcDayString(a * DAY_MS), UtcDayString(b * DAY_MS)) ==
            Ok(Range(a * DAY_MS, (b + 1) * DAY_MS, b - a + 1))
  {
    hide YearOf, UtcDayString, ParseDay;
    assert a * DAY_MS / DAY_MS == a && b * DAY_MS / DAY_MS == b;
    YearWithin(a, day);
    YearWithin(b, day);
    ParseAfterPrint(a * DAY_MS);
    ParseAfterPrint(b * DAY_MS);
    assert RoundDays((b - a) * DAY_MS) == b - a;
  }

  /** For every clock reading of years 2001 to 2999, every preset is accepted with the length it
      promises; all but "last month" end with today, and "last month" ends exactly where "this month"
      begins. */
  lemma PresetsAccepted(id: Preset, now: int)
    requires ClockReading(now) && 2001 <= YearOf(now / DAY_MS) <= 2999
    ensures var p := PresetDays(id, now);
            var month := PresetDays(ThisMonth, now);
            var r := AnalyticsRange(p.from, p.to);
            r.Ok? && r.value.days == PromisedDays(id, now) &&
            AnalyticsRange(month.from, month.to).Ok? &&
            r.value.to == if id == LastMonth then AnalyticsRange(month.from, month.to).value.from
                          else (now / DAY_MS + 1) * DAY_MS
  {
    hide YearOf, MonthOf, DateOf, UtcDay, UtcDayString, AnalyticsRange;
    var day := now / DAY_MS;
    PresetBounds(now);
    MonthStarts(day);
    var y, m := YearOf(day), MonthOf(day);
    var first, previous := UtcDay(y, m, 1), UtcDay(y, m - 1, 1);
    assert first * DAY_MS - DAY_MS == (first - 1) * DAY_MS;
    RangeOfDays(first, day, day);
    match id
    case Last7 => RangeOfDays(day - 6, day, day); assert (day - 6) * DAY_MS == day * DAY_MS - 6 * DAY_MS;
    case Last30 => RangeOfDays(day - 29, day, day); assert (day - 29) * DAY_MS == day * DAY_MS - 29 * DAY_MS;
    case Last90 => RangeOfDays(day - 89, day, day); assert (day - 89) * DAY_MS == day * DAY_MS - 89 * DAY_MS;
    case ThisMonth =>
    case LastMonth => RangeOfDays(previous, first - 1, day);
  }
}
