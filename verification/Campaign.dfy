/** Campaign windows of the owner dashboard: a form of shop-local days becomes a half-open interval of
    instants, in milliseconds. */
module Campaign {
  import opened Wrappers
  import opened Calendar
  import opened DayText
  import opened Zone

  // ---------- the source's operations ----------

  predicate RealDate(s: string) {
    HasShape(s) && FieldsAgree(s)
  }

  /** What the formatter's fields, put through Date.UTC, say about an instant: the local day is read
      as a date, so a year below 100 is taken for one of the 1900s. */
  function ZoneOffsetMs(ms: int, z: Zone): int {
    var local := Local(z, ms / 1000);
    var day := local / DAY;
    UtcDay(YearOf(day), MonthOf(day), DateOf(day)) * DAY_MS + local % DAY * 1000 - ms
  }

  function StartOf(guess: int, z: Zone): int {
    guess - ZoneOffsetMs(guess - ZoneOffsetMs(guess, z), z)
  }

  method StartOfZonedDay(date: string, z: Zone) returns (utc: int)
    requires HasShape(date)
    ensures utc == StartOf(DayNamed(date) * DAY_MS, z)
  {
    hide ZoneOffsetMs, DayNamed;
    var guess := DayNamed(date) * DAY_MS;
    utc := guess - ZoneOffsetMs(guess, z);
    utc := guess - ZoneOffsetMs(utc, z);
  }

  lemma NextDayValidFrom(y: int, m: int, d: int)
    requires 0 <= y <= 9999 && -1 <= m <= 98 && 1 <= d <= 100
    ensures ValidInstant(UtcDay(y, m, d) * DAY_MS)
  {
    hide DayFromYear;
    var ym := (if 0 <= y <= 99 then 1900 + y else y) + m / 12;
    assert UtcDay(y, m, d) == DayFromYear(ym) + DaysBefore(ym, m % 12) + d - 1;
    assert -1 <= m / 12 <= 9;
    EpochYear();
    if ym <= 1970 { YearsOrdered(ym, 1970); } else { YearsOrdered(1970, ym); }
  }

  lemma NextDayValid(s: string)
    requires HasShape(s)
    ensures ValidInstant(UtcDay(YearIn(s), MonthTextIn(s) - 1, DateIn(s) + 1) * DAY_MS)
  {
    hide HasShape, YearIn, MonthTextIn, DateIn, UtcDay, ValidInstant;
    NextDayValidFrom(YearIn(s), MonthTextIn(s) - 1, DateIn(s) + 1);
  }

  /** The text of the following day: toISOString normalises the day of month. */
  function NextDay(s: string): string
    requires HasShape(s)
  {
    NextDayValid(s);
    UtcDayString(UtcDay(YearIn(s), MonthTextIn(s) - 1, DateIn(s) + 1) * DAY_MS)
  }

  datatype Form = Form(firstDay: string, lastDay: string)

  datatype Body = Body(startsAt: Option<int>, endsAt: Option<int>)

  /** An absent day is the empty text. */
  predicate Accepted(f: Form) {
    && (f.firstDay == "" || RealDate(f.firstDay))
    && (f.lastDay == "" || RealDate(f.lastDay))
    && (f.firstDay != "" && f.lastDay != "" ==> !TextBefore(f.lastDay, f.firstDay))
  }

  function BodyOf(f: Form, z: Zone): Option<Body>
    requires Accepted(f)
  {
    if f.lastDay != "" && !HasShape(NextDay(f.lastDay)) then None else
    Some(Body(
      if f.firstDay == "" then None else Some(StartOf(DayNamed(f.firstDay) * DAY_MS, z)),
      if f.lastDay == "" then None else Some(StartOf(DayNamed(NextDay(f.lastDay)) * DAY_MS, z))))
  }

  /** The body, or None when the next day's text does not split into numbers, so that formatting it
      throws. */
  method ToCreateBody(f: Form, z: Zone) returns (body: Option<Body>)
    requires Accepted(f)
    ensures body == BodyOf(f, z)
  {
    var startsAt, endsAt := None, None;
    if f.firstDay != "" {
      var start := StartOfZonedDay(f.firstDay, z);
      startsAt := Some(start);
    }
    if f.lastDay != "" {
      var next := NextDay(f.lastDay);
      if !HasShape(next) {
        return None;
      }
      var end := StartOfZonedDay(next, z);
      endsAt := Some(end);
    }
    return Some(Body(startsAt, endsAt));
  }

  datatype Status = ACTIVE | SCHEDULED | ENDED | REVOKED

  function CampaignStatus(revoked: bool, body: Body, t: int): Status {
    if revoked then REVOKED
    else if body.startsAt.Some? && body.startsAt.value > t then SCHEDULED
    else if body.endsAt.Some? && body.endsAt.value <= t then ENDED
    else ACTIVE
  }

  /** The shop-local day of an instant. */
  function ShopDay(z: Zone, ms: int): int {
    Local(z, ms / 1000) / DAY
  }

  /** The day formatLastDay shows for an exclusive end. */
  function LastDayShown(endsAt: int, z: Zone): int {
    ShopDay(z, endsAt - 1)
  }

  // ---------- days ----------

  /** Two days into year 100: from here on every local reading near the day is of year 100 or later. */
  const EARLIEST: int := -683_001

  lemma EarliestIs()
    ensures EARLIEST == DayFromYear(100) + 2
  {
  }

  lemma ReadingIsExact(day: int)
    requires day >= EARLIEST - 2
    ensures UtcDay(YearOf(day), MonthOf(day), DateOf(day)) == day
  {
    hide DayFromYear, MakeDay;
    EarliestIs();
    DateOfDay(day);
    if YearOf(day) < 100 { YearsOrdered(YearOf(day) + 1, 100); }
  }

  lemma OffsetIs(u: int, z: Zone, day: int)
    requires Bounded(z) && day >= EARLIEST - 2 && u - day * DAY >= DAY
    ensures ZoneOffsetMs(u * 1000, z) == z(u) * 1000
    ensures u + z(u) >= day * DAY && u - z(u) >= day * DAY
  {
    hide UtcDay, YearOf, MonthOf, DateOf;
    assert u * 1000 / 1000 == u;
    assert -DAY < z(u) < DAY;
    var local := Local(z, u);
    assert local / DAY >= day;
    ReadingIsExact(local / DAY);
    assert local / DAY * DAY + local % DAY == local;
  }

  /** The program's two passes in milliseconds are the two passes on whole seconds. */
  lemma StartIsTwoPass(day: int, z: Zone)
    requires Bounded(z) && day >= EARLIEST
    ensures StartOf(day * DAY_MS, z) == TwoPass(z, day * DAY) * 1000
  {
    hide ZoneOffsetMs;
    var g := day * DAY;
    OffsetIs(g, z, day - 1);
    OffsetIs(g - z(g), z, day - 2);
    assert day * DAY_MS == g * 1000;
  }

  lemma CarryDay(y: int, m: int, d: int)
    ensures MakeDay(y, m - 1, d + 1) == MakeDay(y, m - 1, d) + 1
  {
  }

  lemma LastDayOfYear(y: int, m: int, d: int)
    requires IsDate(y, m, d)
    ensures MakeDay(y, m - 1, d) + 1 == DayFromYear(y + 1) <==> m == 12 && d == 31
  {
    hide DayFromYear;
    MakeDayOfDate(y, m, d);
    YearLength(y);
  }

  /** The date of the following day stays in the year, except after 31 December. */
  lemma FollowingDay(y: int, m: int, d: int)
    requires IsDate(y, m, d)
    ensures var next := MakeDay(y, m - 1, d) + 1;
            MakeDay(y, m - 1, d + 1) == next && YearOf(next) == (if m == 12 && d == 31 then y + 1 else y)
  {
    hide YearOf, DayFromYear, MakeDay;
    MakeDayOfDate(y, m, d);
    LastDayOfYear(y, m, d);
    CarryDay(y, m, d);
    YearLength(y);
    YearLength(y + 1);
    var next := MakeDay(y, m - 1, d) + 1;
    YearIs(next, if m == 12 && d == 31 then y + 1 else y);
  }

  lemma NextDayText(s: string, next: int)
    requires HasShape(s) && next == UtcDay(YearIn(s), MonthTextIn(s) - 1, DateIn(s) + 1)
    requires 100 <= YearOf(next)
    ensures HasShape(NextDay(s)) <==> YearOf(next) <= 9999
    ensures YearOf(next) <= 9999 ==> RealDate(NextDay(s)) && DayNamed(NextDay(s)) == next
  {
    hide UtcDay, YearOf, MonthOf, DateOf, DigitValue, FieldsAgree, MakeDay;
    NextDayValid(s);
    assert next * DAY_MS / DAY_MS == next;
    DateOfDay(next);
    if YearOf(next) <= 9999 { FieldsAgreeIff(NextDay(s)); }
  }

  lemma LastText(s: string)
    requires HasShape(s)
    ensures s == "9999-12-31" <==> YearIn(s) == 9999 && MonthTextIn(s) == 12 && DateIn(s) == 31
  {
    var last := "9999-12-31";
    assert DigitValue('9') == 9 && DigitValue('1') == 1 && DigitValue('2') == 2 && DigitValue('3') == 3;
    if YearIn(s) == 9999 && MonthTextIn(s) == 12 && DateIn(s) == 31 { SameNumbersSameText(s, last); }
  }

  /** The day after a date: the text of the next calendar day, save after 9999-12-31. */
  lemma NextDayIs(s: string)
    requires RealDate(s)
    ensures HasShape(NextDay(s)) <==> s != "9999-12-31"
    ensures s != "9999-12-31" ==> RealDate(NextDay(s)) && DayNamed(NextDay(s)) == DayNamed(s) + 1
  {
    hide YearOf, DigitValue, FieldsAgree, MakeDay, NextDay, DaysInMonth;
    FieldsAgreeIff(s);
    var y, m, d := YearIn(s), MonthTextIn(s), DateIn(s);
    FollowingDay(y, m, d);
    NextDayText(s, MakeDay(y, m - 1, d) + 1);
    LastText(s);
  }

  // ---------- what a campaign's window means ----------

  /** The offset change within a day of a midnight, if any: at an instant, from one offset to another. */
  datatype Change = Change(at: int, before: int, after: int)

  /** The local midnight that starts a day, and the one change the zone may have around it. */
  ghost predicate Boundary(z: Zone, day: int, c: Change) {
    day >= EARLIEST && ChangesOnce(z, day * DAY, DAY, c.at, c.before, c.after)
  }

  predicate Harmless(day: int, c: Change) {
    HarmlessAt(day * DAY, c.at, c.before, c.after)
  }

  /** The midnight that starts the day is not skipped. */
  predicate HasMidnight(day: int, c: Change) {
    !Skipped(day * DAY, c.at, c.before, c.after)
  }

  ghost predicate Boundaries(f: Form, z: Zone, first: Change, last: Change)
    requires Accepted(f)
  {
    (f.firstDay != "" ==> Boundary(z, DayNamed(f.firstDay), first)) &&
    (f.lastDay != "" ==> f.lastDay != "9999-12-31" && Boundary(z, DayNamed(f.lastDay) + 1, last))
  }

  ghost predicate BothHarmless(f: Form, first: Change, last: Change)
    requires Accepted(f)
  {
    (f.firstDay != "" ==> Harmless(DayNamed(f.firstDay), first)) &&
    (f.lastDay != "" ==> Harmless(DayNamed(f.lastDay) + 1, last))
  }

  lemma BodyIs(f: Form, z: Zone)
    requires Accepted(f) && Bounded(z) && f.lastDay != "9999-12-31"
    requires f.firstDay != "" ==> DayNamed(f.firstDay) >= EARLIEST
    requires f.lastDay != "" ==> DayNamed(f.lastDay) + 1 >= EARLIEST
    ensures var body := BodyOf(f, z);
            body.Some? && (body.value.startsAt.Some? <==> f.firstDay != "") &&
            (body.value.endsAt.Some? <==> f.lastDay != "") &&
            (f.firstDay != "" ==> body.value.startsAt.value == TwoPass(z, DayNamed(f.firstDay) * DAY) * 1000) &&
            (f.lastDay != "" ==> body.value.endsAt.value == TwoPass(z, (DayNamed(f.lastDay) + 1) * DAY) * 1000)
  {
    hide StartOf, TwoPass, NextDay, FieldsAgree, DayNamed;
    if f.firstDay != "" { StartIsTwoPass(DayNamed(f.firstDay), z); }
    if f.lastDay != "" {
      NextDayIs(f.lastDay);
      StartIsTwoPass(DayNamed(f.lastDay) + 1, z);
    }
  }

  /** A boundary in milliseconds is reached exactly when the local day is, at every instant, if and only
      if the change around it is harmless. */
  lemma ReachedIff(z: Zone, day: int, c: Change)
    requires Bounded(z) && Boundary(z, day, c)
    ensures Harmless(day, c) <==> forall t :: TwoPass(z, day * DAY) * 1000 <= t <==> ShopDay(z, t) >= day
  {
    var g, r := day * DAY, TwoPass(z, day * DAY);
    SeparatesIff(z, g, c.at, c.before, c.after);
    hide TwoPass, ChangesOnce;
    if Harmless(day, c) {
      forall t ensures r * 1000 <= t <==> ShopDay(z, t) >= day {
        assert Local(z, t / 1000) >= g <==> t / 1000 >= r;
      }
    }
    if forall t :: r * 1000 <= t <==> ShopDay(z, t) >= day {
      forall u ensures Local(z, u) >= g <==> u >= r {
        assert u * 1000 / 1000 == u;
        assert r * 1000 <= u * 1000 <==> ShopDay(z, u * 1000) >= day;
      }
    }
  }

  lemma Reached(z: Zone, day: int, c: Change, t: int)
    requires Bounded(z) && Boundary(z, day, c) && Harmless(day, c)
    ensures TwoPass(z, day * DAY) * 1000 <= t <==> ShopDay(z, t) >= day
  {
    hide TwoPass, ShopDay, Harmless, Boundary;
    ReachedIff(z, day, c);
  }

  /** The instant's shop-local day lies between the chosen days, both included. */
  ghost predicate OnChosenDays(f: Form, z: Zone, t: int)
    requires Accepted(f)
  {
    (f.firstDay != "" ==> DayNamed(f.firstDay) <= ShopDay(z, t)) &&
    (f.lastDay != "" ==> ShopDay(z, t) <= DayNamed(f.lastDay))
  }

  /** Main result: with at most one offset change around each boundary and none that straddles it, or
      only harmlessly, a campaign is active at an instant exactly when it is not revoked and the
      instant's shop-local day lies between the chosen days, both included. */
  lemma ActiveExactlyOnChosenDays(f: Form, z: Zone, first: Change, last: Change, revoked: bool, t: int)
    requires Accepted(f) && Bounded(z) && Boundaries(f, z, first, last) && BothHarmless(f, first, last)
    ensures BodyOf(f, z).Some?
    ensures CampaignStatus(revoked, BodyOf(f, z).value, t) == ACTIVE <==> !revoked && OnChosenDays(f, z, t)
  {
    hide BodyOf, ShopDay, TwoPass, DayNamed, FieldsAgree, Harmless, ChangesOnce;
    BodyIs(f, z);
    if f.firstDay != "" { Reached(z, DayNamed(f.firstDay), first, t); }
    if f.lastDay != "" { Reached(z, DayNamed(f.lastDay) + 1, last, t); }
  }

  lemma FormDaysOrdered(f: Form)
    requires Accepted(f) && f.firstDay != "" && f.lastDay != ""
    ensures DayNamed(f.firstDay) <= DayNamed(f.lastDay)
  {
    hide YearOf, MonthOf, DateOf, TextBefore, MakeDay, DigitValue;
    FieldsAgreeIff(f.firstDay);
    FieldsAgreeIff(f.lastDay);
    TextOrderIsDayOrder(f.lastDay, f.firstDay);
  }

  /** Revoked, it is only that; otherwise it is scheduled before the first day, ended after the last one, and
      neither in between. */
  lemma ScheduledBeforeEndedAfter(f: Form, z: Zone, first: Change, last: Change, revoked: bool, t: int)
    requires Accepted(f) && Bounded(z) && Boundaries(f, z, first, last) && BothHarmless(f, first, last)
    ensures BodyOf(f, z).Some?
    ensures var status := CampaignStatus(revoked, BodyOf(f, z).value, t);
            (status == REVOKED <==> revoked) &&
            (status == SCHEDULED <==> !revoked && f.firstDay != "" && ShopDay(z, t) < DayNamed(f.firstDay)) &&
            (status == ENDED <==> !revoked && f.lastDay != "" && ShopDay(z, t) > DayNamed(f.lastDay))
  {
    hide BodyOf, ShopDay, TwoPass, DayNamed, FieldsAgree, HasShape, Harmless, ChangesOnce;
    BodyIs(f, z);
    if f.firstDay != "" { Reached(z, DayNamed(f.firstDay), first, t); }
    if f.lastDay != "" { Reached(z, DayNamed(f.lastDay) + 1, last, t); }
    if f.firstDay != "" && f.lastDay != "" { FormDaysOrdered(f); }
  }

  /** The condition is exact for the first day, whatever the form's last day. */
  lemma ScheduledExactlyIff(f: Form, z: Zone, first: Change, last: Change)
    requires Accepted(f) && Bounded(z) && Boundaries(f, z, first, last) && f.firstDay != ""
    ensures BodyOf(f, z).Some?
    ensures (forall t :: CampaignStatus(false, BodyOf(f, z).value, t) == SCHEDULED <==>
                         ShopDay(z, t) < DayNamed(f.firstDay)) <==>
            Harmless(DayNamed(f.firstDay), first)
  {
    hide BodyOf, ShopDay, TwoPass, DayNamed, FieldsAgree, HasShape, Harmless, ChangesOnce;
    BodyIs(f, z);
    ReachedIff(z, DayNamed(f.firstDay), first);
    var body := BodyOf(f, z).value;
    forall t ensures CampaignStatus(false, body, t) == SCHEDULED <==> !(body.startsAt.value <= t) {}
    hide CampaignStatus;
  }

  /** WindowIff in milliseconds and days. */
  lemma WindowReachedIff(z: Zone, firstDay: int, lastDay: int, first: Change, last: Change)
    requires Bounded(z) && Boundary(z, firstDay, first) && Boundary(z, lastDay + 1, last) && firstDay <= lastDay
    ensures (forall t :: TwoPass(z, firstDay * DAY) * 1000 <= t < TwoPass(z, (lastDay + 1) * DAY) * 1000 <==>
                         firstDay <= ShopDay(z, t) <= lastDay) <==>
            Harmless(firstDay, first) && Harmless(lastDay + 1, last)
  {
    var g, h := firstDay * DAY, (lastDay + 1) * DAY;
    var r, s := TwoPass(z, g), TwoPass(z, h);
    WindowIff(z, g, first.at, first.before, first.after, h, last.at, last.before, last.after);
    hide TwoPass, ChangesOnce, HarmlessAt;
    if Bounds(z, g, r, h, s) {
      forall t ensures r * 1000 <= t < s * 1000 <==> firstDay <= ShopDay(z, t) <= lastDay {
        BoundsAt(z, g, r, h, s, t / 1000);
      }
    }
    if forall t :: r * 1000 <= t < s * 1000 <==> firstDay <= ShopDay(z, t) <= lastDay {
      forall u ensures r <= u < s <==> g <= Local(z, u) < h {
        assert u * 1000 / 1000 == u;
        assert r * 1000 <= u * 1000 < s * 1000 <==> firstDay <= ShopDay(z, u * 1000) <= lastDay;
      }
    }
  }

  /** And for every form it is exact for the whole window. */
  lemma ActiveExactlyIff(f: Form, z: Zone, first: Change, last: Change)
    requires Accepted(f) && Bounded(z) && Boundaries(f, z, first, last)
    ensures BodyOf(f, z).Some?
    ensures (forall t :: CampaignStatus(false, BodyOf(f, z).value, t) == ACTIVE <==> OnChosenDays(f, z, t)) <==>
            BothHarmless(f, first, last)
  {
    hide BodyOf, ShopDay, TwoPass, DayNamed, FieldsAgree, HasShape, Harmless, ChangesOnce;
    BodyIs(f, z);
    var body := BodyOf(f, z).value;
    if f.firstDay != "" && f.lastDay != "" {
      FormDaysOrdered(f);
      WindowReachedIff(z, DayNamed(f.firstDay), DayNamed(f.lastDay), first, last);
      forall t
        ensures CampaignStatus(false, body, t) == ACTIVE <==> body.startsAt.value <= t < body.endsAt.value
        ensures OnChosenDays(f, z, t) <==> DayNamed(f.firstDay) <= ShopDay(z, t) <= DayNamed(f.lastDay)
      {
      }
      hide CampaignStatus, OnChosenDays;
    } else if f.firstDay != "" {
      ReachedIff(z, DayNamed(f.firstDay), first);
      forall t
        ensures CampaignStatus(false, body, t) == ACTIVE <==> body.startsAt.value <= t
        ensures OnChosenDays(f, z, t) <==> DayNamed(f.firstDay) <= ShopDay(z, t)
      {
      }
      hide CampaignStatus, OnChosenDays;
    } else if f.lastDay != "" {
      ReachedIff(z, DayNamed(f.lastDay) + 1, last);
      forall t
        ensures CampaignStatus(false, body, t) == ACTIVE <==> !(body.endsAt.value <= t)
        ensures OnChosenDays(f, z, t) <==> ShopDay(z, t) <= DayNamed(f.lastDay)
      {
      }
      hide CampaignStatus, OnChosenDays;
    }
  }

  lemma StartIsOnItsDay(z: Zone, day: int, c: Change)
    requires Bounded(z) && Boundary(z, day, c) && HasMidnight(day, c)
    ensures ShopDay(z, TwoPass(z, day * DAY) * 1000) == day
  {
    MidnightFound(z, day * DAY, c.at, c.before, c.after);
    hide TwoPass, ChangesOnce;
    assert TwoPass(z, day * DAY) * 1000 / 1000 == TwoPass(z, day * DAY);
  }

  lemma WindowIs(z: Zone, firstDay: int, lastDay: int, first: Change, last: Change, start: int, end: int)
    requires Bounded(z) && firstDay <= lastDay && Boundary(z, firstDay, first) && Boundary(z, lastDay + 1, last)
    requires Harmless(firstDay, first) && Harmless(lastDay + 1, last)
    requires start == TwoPass(z, firstDay * DAY) * 1000 && end == TwoPass(z, (lastDay + 1) * DAY) * 1000
    ensures start <= end
    ensures HasMidnight(firstDay, first) ==> start < end
    ensures start < end <==> exists t :: firstDay <= ShopDay(z, t) <= lastDay
  {
    hide ShopDay, TwoPass, Harmless, Boundary, HasMidnight;
    if HasMidnight(firstDay, first) { StartIsOnItsDay(z, firstDay, first); }
    Reached(z, firstDay, first, end);
    Reached(z, lastDay + 1, last, end);
    Reached(z, firstDay, first, start);
    Reached(z, lastDay + 1, last, start);
    if t :| firstDay <= ShopDay(z, t) <= lastDay {
      Reached(z, firstDay, first, t);
      Reached(z, lastDay + 1, last, t);
    }
    if start < end { assert firstDay <= ShopDay(z, start) <= lastDay; }
  }

  /** The window is never reversed; it is not empty when the midnight that starts the first day exists,
      and it is empty exactly when the zone skips every chosen day. */
  lemma StartsBeforeEnds(f: Form, z: Zone, first: Change, last: Change)
    requires Accepted(f) && Bounded(z) && Boundaries(f, z, first, last) && BothHarmless(f, first, last)
    requires f.firstDay != "" && f.lastDay != ""
    ensures BodyOf(f, z).Some?
    ensures var body := BodyOf(f, z).value;
            body.startsAt.Some? && body.endsAt.Some? && body.startsAt.value <= body.endsAt.value &&
            (HasMidnight(DayNamed(f.firstDay), first) ==>
               body.startsAt.value < body.endsAt.value) &&
            (body.startsAt.value < body.endsAt.value <==>
              exists t :: DayNamed(f.firstDay) <= ShopDay(z, t) <= DayNamed(f.lastDay))
  {
    hide BodyOf, ShopDay, TwoPass, DayNamed, FieldsAgree, HasShape, Harmless, HasMidnight, ChangesOnce;
    BodyIs(f, z);
    FormDaysOrdered(f);
    var body := BodyOf(f, z).value;
    WindowIs(z, DayNamed(f.firstDay), DayNamed(f.lastDay), first, last, body.startsAt.value, body.endsAt.value);
  }

  /** What goes wrong at the boundary for the day shown: the clock was set back over it and the window ends
      too late, it jumped over it early and the window ends on the far side, or it jumped by a whole day and
      the last instant before the end is on an earlier one. */
  predicate ShowsTheDay(g: int, c: Change) {
    && (Repeated(g, c.at, c.before, c.after) && c.at <= g ==> c.at < g - c.after)
    && (Skipped(g, c.at, c.before, c.after) && c.at <= g ==> c.at == g - c.before)
    && ((Skipped(g, c.at, c.before, c.after) && g < c.at) || (c.at == g - c.after && c.before <= c.after) ==>
          c.after - c.before < DAY)
  }

  /** Main result: exactly when the last day shown for a campaign is the chosen one, whatever the change
      around the boundary. */
  lemma LastDayShownIff(day: int, z: Zone, c: Change)
    requires Bounded(z) && ChangesOnce(z, (day + 1) * DAY, DAY, c.at, c.before, c.after)
    ensures LastDayShown(TwoPass(z, (day + 1) * DAY) * 1000, z) == day <==> ShowsTheDay((day + 1) * DAY, c)
  {
    var g := (day + 1) * DAY;
    var r := TwoPass(z, g);
    TwoPassIs(z, g, c.at, c.before, c.after);
    NearOrFar(z, g, c.at, c.before, c.after);
    hide TwoPass, ChangesOnce;
    assert (r * 1000 - 1) / 1000 == r - 1;
    assert LastDayShown(r * 1000, z) == day <==> g - DAY <= Local(z, r - 1) < g;
  }

  /** Local time at the last instant before a clean boundary is not earlier than at any instant of
      the two days before it. */
  lemma LocalDoesNotFall(z: Zone, g: int, t: int, a: int, b: int, u: int)
    requires Bounded(z) && ChangesOnce(z, g, 2 * DAY, t, a, b)
    requires Separates(z, g, TwoPass(z, g)) && g - 2 * DAY <= u < TwoPass(z, g)
    requires Local(z, u) < g
    ensures Local(z, u) <= Local(z, TwoPass(z, g) - 1)
  {
    var r := TwoPass(z, g);
    TwoPassIs(z, g, t, a, b);
    assert z(u) == (if u < t then a else b) && z(r - 1) == if r - 1 < t then a else b;
  }

  /** For a harmless change that is exactly when the zone has that day at all: a clock moved over the date
      line can skip a whole day. */
  lemma LastDayShownIfItExists(day: int, z: Zone, c: Change)
    requires Bounded(z) && ChangesOnce(z, (day + 1) * DAY, 2 * DAY, c.at, c.before, c.after)
    requires Harmless(day + 1, c)
    ensures LastDayShown(TwoPass(z, (day + 1) * DAY) * 1000, z) == day <==> exists ms :: ShopDay(z, ms) == day
  {
    var g := (day + 1) * DAY;
    var r := TwoPass(z, g);
    SeparatesIff(z, g, c.at, c.before, c.after);
    TwoPassIs(z, g, c.at, c.before, c.after);
    assert (r * 1000 - 1) / 1000 == r - 1;
    assert Local(z, r - 1) < g;
    if ms :| ShopDay(z, ms) == day {
      var u := ms / 1000;
      assert day * DAY <= Local(z, u) < g;
      assert -DAY < z(u) < DAY;
      assert u < r;
      LocalDoesNotFall(z, g, c.at, c.before, c.after, u);
      assert day * DAY <= Local(z, r - 1) < g;
    }
  }
}
