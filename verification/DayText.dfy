/** Days written "YYYY-MM-DD", and the UTC day of an instant as toISOString writes it. */
module DayText {
  import opened Calendar

  function Digit(n: int): (c: char)
    requires 0 <= n <= 9
    ensures '0' <= c <= '9' && c as int - '0' as int == n
  {
    (n + '0' as int) as char
  }

  predicate IsDigit(c: char) {
    '0' <= c <= '9'
  }

  function DigitValue(c: char): (n: int)
    requires IsDigit(c)
    ensures 0 <= n <= 9 && Digit(n) == c
  {
    c as int - '0' as int
  }

  /** /^\d{4}-\d{2}-\d{2}$/ */
  predicate HasShape(s: string) {
    |s| == 10 && s[4] == '-' && s[7] == '-' &&
    IsDigit(s[0]) && IsDigit(s[1]) && IsDigit(s[2]) && IsDigit(s[3]) &&
    IsDigit(s[5]) && IsDigit(s[6]) && IsDigit(s[8]) && IsDigit(s[9])
  }

  function YearIn(s: string): (y: int)
    requires HasShape(s)
    ensures 0 <= y <= 9999
  {
    1000 * DigitValue(s[0]) + 100 * DigitValue(s[1]) + 10 * DigitValue(s[2]) + DigitValue(s[3])
  }

  function MonthTextIn(s: string): (m: int)
    requires HasShape(s)
    ensures 0 <= m <= 99
  {
    10 * DigitValue(s[5]) + DigitValue(s[6])
  }

  function DateIn(s: string): (d: int)
    requires HasShape(s)
    ensures 0 <= d <= 99
  {
    10 * DigitValue(s[8]) + DigitValue(s[9])
  }

  function Pad2(n: int): string
    requires 0 <= n <= 99
  {
    [Digit(n / 10), Digit(n % 10)]
  }

  function Pad4(n: int): string
    requires 0 <= n <= 9999
  {
    Pad2(n / 100) + Pad2(n % 100)
  }

  lemma WrittenReads(y: int, m: int, d: int, s: string)
    requires 0 <= y <= 9999 && 0 <= m <= 99 && 0 <= d <= 99
    requires s == Pad4(y) + "-" + Pad2(m) + "-" + Pad2(d)
    ensures HasShape(s) && YearIn(s) == y && MonthTextIn(s) == m && DateIn(s) == d
  {
    assert s[0] == Digit(y / 100 / 10) && s[1] == Digit(y / 100 % 10);
    assert s[2] == Digit(y % 100 / 10) && s[3] == Digit(y % 100 % 10);
    assert s[5] == Digit(m / 10) && s[6] == Digit(m % 10) && s[8] == Digit(d / 10) && s[9] == Digit(d % 10);
  }

  /** "YYYY-MM-DD" for a year of four digits. */
  function Written(y: int, m: int, d: int): (s: string)
    requires 0 <= y <= 9999 && 0 <= m <= 99 && 0 <= d <= 99
    ensures HasShape(s) && YearIn(s) == y && MonthTextIn(s) == m && DateIn(s) == d
  {
    var s := Pad4(y) + "-" + Pad2(m) + "-" + Pad2(d);
    WrittenReads(y, m, d, s);
    s
  }

  lemma SameChar(c: char, d: char)
    requires IsDigit(c) && IsDigit(d)
    ensures c == d <==> DigitValue(c) == DigitValue(d)
    ensures c < d <==> DigitValue(c) < DigitValue(d)
  {
  }

  /** Text of this shape is determined by the three numbers it spells. */
  lemma SameNumbersSameText(s: string, t: string)
    requires HasShape(s) && HasShape(t)
    requires YearIn(s) == YearIn(t) && MonthTextIn(s) == MonthTextIn(t) && DateIn(s) == DateIn(t)
    ensures s == t
  {
    hide DigitValue, Digit, IsDigit;
    SameChar(s[0], t[0]); SameChar(s[1], t[1]); SameChar(s[2], t[2]); SameChar(s[3], t[3]);
    SameChar(s[5], t[5]); SameChar(s[6], t[6]); SameChar(s[8], t[8]); SameChar(s[9], t[9]);
  }

  /** The range of JavaScript dates: 100 million days around 1970. */
  predicate ValidInstant(ms: int) {
    -100_000_000 * DAY_MS <= ms <= 100_000_000 * DAY_MS
  }

  lemma YearsOfValidInstants(day: int)
    requires -100_000_000 <= day <= 100_000_000
    ensures -999_999 <= YearOf(day) <= 999_999
  {
    if YearOf(day) > 999_999 { YearsOrdered(1970, YearOf(day)); }
    if YearOf(day) < -999_999 { YearsOrdered(YearOf(day) + 1, 1970); }
  }

  /** toISOString of an instant, up to and including ten characters: years outside 0..9999 are
      written with a sign and six digits. */
  function UtcDayString(ms: int): string
    requires ValidInstant(ms)
  {
    var day := ms / DAY_MS;
    var y, m, d := YearOf(day), MonthOf(day) + 1, DateOf(day);
    DateOfDay(day);
    YearsOfValidInstants(day);
    if 0 <= y <= 9999 then Written(y, m, d)
    else
      var a := if y < 0 then -y else y;
      [if y < 0 then '-' else '+'] + Pad2(a / 10000) + Pad4(a % 10000) + "-" + Pad2(m)
  }

  /** The day a text names: carries included, as Date.UTC computes it. */
  function DayNamed(s: string): int
    requires HasShape(s)
  {
    UtcDay(YearIn(s), MonthTextIn(s) - 1, DateIn(s))
  }

  /** The three field comparisons both validators make. */
  predicate FieldsAgree(s: string)
    requires HasShape(s)
  {
    var day := DayNamed(s);
    YearOf(day) == YearIn(s) && MonthOf(day) == MonthTextIn(s) - 1 && DateOf(day) == DateIn(s)
  }

  ghost predicate NamesDate(s: string) {
    HasShape(s) && IsDate(YearIn(s), MonthTextIn(s), DateIn(s))
  }

  lemma EarlyYearMoves(y: int, m: int, d: int)
    requires 0 <= y <= 99 && 0 <= m <= 99 && 0 <= d <= 99
    ensures YearOf(UtcDay(y, m - 1, d)) > y
  {
    var day := UtcDay(y, m - 1, d);
    var ym := 1900 + y + (m - 1) / 12;
    assert day >= DayFromYear(ym) - 1;
    YearLength(ym - 1);
    if YearOf(day) <= y { YearsOrdered(YearOf(day) + 1, ym - 1); }
  }

  lemma NormalisedIffDateFrom100(y: int, m: int, d: int)
    requires 0 <= y <= 9999 && 0 <= m <= 99 && 0 <= d <= 99
    ensures var day := UtcDay(y, m - 1, d);
            (YearOf(day) == y && MonthOf(day) == m - 1 && DateOf(day) == d) <==> IsDate(y, m, d) && y >= 100
    ensures y >= 100 ==> UtcDay(y, m - 1, d) == MakeDay(y, m - 1, d)
  {
    if y >= 100 {
      NormalisedIffDate(y, m, d);
    } else {
      EarlyYearMoves(y, m, d);
    }
    hide YearOf, MonthOf, DateOf, MakeDay, IsDate;
  }

  /** The comparison accepts exactly the calendar's dates from year 100 on; every text of years 0
      to 99 is refused, because Date.UTC reads those years as 1900 to 1999. */
  lemma FieldsAgreeIff(s: string)
    requires HasShape(s)
    ensures FieldsAgree(s) <==> NamesDate(s) && YearIn(s) >= 100
    ensures FieldsAgree(s) ==> DayNamed(s) == MakeDay(YearIn(s), MonthTextIn(s) - 1, DateIn(s))
  {
    var y, m, d := YearIn(s), MonthTextIn(s), DateIn(s);
    hide YearOf, MonthOf, DateOf, MakeDay, UtcDay, IsDate;
    hide HasShape, YearIn, MonthTextIn, DateIn, DigitValue, IsDigit, Digit;
    hide DaysInMonth, DayFromYear, DaysBefore, IsLeap;
    NormalisedIffDateFrom100(y, m, d);
    assert DayNamed(s) == UtcDay(y, m - 1, d);
  }

  /** JavaScript's order on two texts of this shape: by the first character that differs. */
  predicate TextBefore(s: string, t: string)
    requires |s| == |t|
    decreases |s|
  {
    if s == "" then false
    else if s[0] != t[0] then s[0] < t[0]
    else TextBefore(s[1..], t[1..])
  }

  lemma {:induction false} TextBeforeAt(s: string, t: string, k: nat)
    requires |s| == |t| && k < |s| && s[..k] == t[..k]
    ensures s[k] != t[k] ==> (TextBefore(s, t) <==> s[k] < t[k])
  {
    if k > 0 {
      assert s[0] == s[..k][0] == t[..k][0] == t[0];
      assert s[1..][..k - 1] == s[..k][1..] && t[1..][..k - 1] == t[..k][1..];
      TextBeforeAt(s[1..], t[1..], k - 1);
    }
  }

  lemma {:induction false} TextNotBeforeItself(s: string)
    ensures !TextBefore(s, s)
  {
    if s != "" { TextNotBeforeItself(s[1..]); }
  }

  function Spelled(s: string): int
    requires HasShape(s)
  {
    10000 * YearIn(s) + 100 * MonthTextIn(s) + DateIn(s)
  }

  lemma FirstDigitDecides(s: string, t: string, k: nat)
    requires HasShape(s) && HasShape(t) && k < 10 && IsDigit(s[k]) && IsDigit(t[k])
    requires s[..k] == t[..k] && DigitValue(s[k]) < DigitValue(t[k])
    ensures Spelled(s) < Spelled(t)
  {
    hide DigitValue, Digit, IsDigit;
    assert forall i :: 0 <= i < k ==> s[i] == s[..k][i] && t[i] == t[..k][i];
  }

  lemma FirstDifference(s: string, t: string) returns (k: nat)
    requires |s| == |t| && s != t
    ensures k < |s| && s[..k] == t[..k] && s[k] != t[k]
  {
    k := 0;
    while s[k] == t[k]
      invariant k < |s| && s[..k] == t[..k]
      invariant exists j :: k <= j < |s| && s[j] != t[j]
      decreases |s| - k
    {
      k := k + 1;
    }
  }

  /** The text order of two such texts is the order of the numbers they spell. */
  lemma TextOrderSpelled(s: string, t: string)
    requires HasShape(s) && HasShape(t)
    ensures TextBefore(s, t) <==> Spelled(s) < Spelled(t)
  {
    if s == t {
      TextNotBeforeItself(s);
    } else {
      hide TextBefore;
      var k := FirstDifference(s, t);
      TextBeforeAt(s, t, k);
      SameChar(s[k], t[k]);
      if DigitValue(s[k]) < DigitValue(t[k]) { FirstDigitDecides(s, t, k); } else { FirstDigitDecides(t, s, k); }
    }
  }

  /** So comparing two accepted dates as text compares the days they name. */
  lemma TextOrderIsDayOrder(s: string, t: string)
    requires NamesDate(s) && NamesDate(t) && YearIn(s) >= 100 && YearIn(t) >= 100
    ensures TextBefore(s, t) <==> DayNamed(s) < DayNamed(t)
  {
    hide TextBefore, DigitValue, MakeDay, DaysInMonth;
    TextOrderSpelled(s, t);
    DatesOrdered(YearIn(s), MonthTextIn(s), DateIn(s), YearIn(t), MonthTextIn(t), DateIn(t));
  }
}
