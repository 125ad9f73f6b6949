/** UTC date-times of the proleptic Gregorian calendar, as points on a line of
    nanoseconds, and the textual forms the program gives them. */
module Clock {
  import opened Wrappers

  const SECOND: int := 1_000_000_000
  const DAY: int := 86_400 * SECOND

  datatype DateTime = DateTime(year: int, month: int, day: int, hour: int, minute: int, second: int, nano: int) {
    /** A date-time whose year takes four digits. */
    predicate Valid() {
      && 0 <= year <= 9999
      && 1 <= month <= 12
      && 1 <= day <= DaysInMonth(year, month)
      && 0 <= hour < 24 && 0 <= minute < 60 && 0 <= second < 60
      && 0 <= nano < SECOND
    }

    function Truncated(): DateTime {
      this.(nano := 0)
    }

    /** Nanoseconds since the start of year 0. */
    function Instant(): int {
      DayNumber(year, month, day) * DAY + ((hour * 60 + minute) * 60 + second) * SECOND + nano
    }
  }

  predicate IsLeap(y: int) {
    y % 4 == 0 && (y % 100 != 0 || y % 400 == 0)
  }

  function DaysInMonth(y: int, m: int): (n: int)
    ensures 28 <= n <= 31
  {
    if m == 2 then (if IsLeap(y) then 29 else 28)
    else if m in {4, 6, 9, 11} then 30
    else 31
  }

  /** Days from the start of year 0 to the start of year `y`. */
  function DaysBeforeYear(y: int): int {
    365 * y + (y + 3) / 4 - (y + 99) / 100 + (y + 399) / 400
  }

  function DaysBeforeMonth(y: int, m: nat): (n: int)
    ensures 28 * (m - 1) <= n
  {
    if m <= 1 then 0 else DaysBeforeMonth(y, m - 1) + DaysInMonth(y, m - 1)
  }

  function DayNumber(y: int, m: int, d: int): int {
    DaysBeforeYear(y) + (if m < 0 then 0 else DaysBeforeMonth(y, m)) + d - 1
  }

  // ----- Calendar arithmetic -----

  lemma YearLength(y: int)
    ensures DaysBeforeYear(y + 1) - DaysBeforeYear(y) == if IsLeap(y) then 366 else 365
  {
    assert (y + 4) / 4 - (y + 3) / 4 == if y % 4 == 0 then 1 else 0;
    assert (y + 100) / 100 - (y + 99) / 100 == if y % 100 == 0 then 1 else 0;
    assert (y + 400) / 400 - (y + 399) / 400 == if y % 400 == 0 then 1 else 0;
  }

  lemma MonthsFillYear(y: int)
    ensures DaysBeforeYear(y) + DaysBeforeMonth(y, 13) == DaysBeforeYear(y + 1)
  {
    YearLength(y);
    assert DaysBeforeMonth(y, 2) == 31;
    assert DaysBeforeMonth(y, 3) == 31 + DaysInMonth(y, 2);
    assert DaysBeforeMonth(y, 5) == DaysBeforeMonth(y, 3) + 61;
    assert DaysBeforeMonth(y, 7) == DaysBeforeMonth(y, 5) + 61;
    assert DaysBeforeMonth(y, 9) == DaysBeforeMonth(y, 7) + 62;
    assert DaysBeforeMonth(y, 11) == DaysBeforeMonth(y, 9) + 61;
    assert DaysBeforeMonth(y, 13) == DaysBeforeMonth(y, 11) + 61;
  }

  lemma {:induction false} YearsIncrease(y: int, z: int)
    requires y <= z
    ensures DaysBeforeYear(y) + 365 * (z - y) <= DaysBeforeYear(z)
    decreases z - y
  {
    if y < z {
      YearsIncrease(y, z - 1);
      YearLength(z - 1);
    }
  }

  lemma {:induction false} MonthsIncrease(y: int, m: nat, n: nat)
    requires 1 <= m < n
    ensures DaysBeforeMonth(y, m) + DaysInMonth(y, m) <= DaysBeforeMonth(y, n)
  {
    if m < n - 1 { MonthsIncrease(y, m, n - 1); }
  }

  predicate Before(a: DateTime, b: DateTime) {
    || a.year < b.year
    || (a.year == b.year && (a.month < b.month || (a.month == b.month && a.day < b.day)))
  }

  lemma DayOrder(a: DateTime, b: DateTime)
    requires a.Valid() && b.Valid() && Before(a, b)
    ensures DayNumber(a.year, a.month, a.day) < DayNumber(b.year, b.month, b.day)
  {
    if a.year < b.year {
      MonthsFillYear(a.year);
      MonthsIncrease(a.year, a.month, 13);
      YearsIncrease(a.year + 1, b.year);
    } else if a.month < b.month {
      MonthsIncrease(a.year, a.month, b.month);
    }
  }

  function TimeOfDay(t: DateTime): int {
    ((t.hour * 60 + t.minute) * 60 + t.second) * SECOND + t.nano
  }

  lemma TimeOfDayInjective(a: DateTime, b: DateTime)
    requires a.Valid() && b.Valid()
    ensures 0 <= TimeOfDay(a) < DAY && 0 <= TimeOfDay(b) < DAY
    ensures TimeOfDay(a) == TimeOfDay(b) ==>
      a.hour == b.hour && a.minute == b.minute && a.second == b.second && a.nano == b.nano
  {
  }

  lemma DayInjective(a: DateTime, b: DateTime)
    requires a.Valid() && b.Valid() && DayNumber(a.year, a.month, a.day) == DayNumber(b.year, b.month, b.day)
    ensures a.year == b.year && a.month == b.month && a.day == b.day
  {
    hide DayNumber;
    if Before(a, b) { DayOrder(a, b); }
    if Before(b, a) { DayOrder(b, a); }
  }

  /** A point in time has one date and time of day. */
  lemma InstantInjective(a: DateTime, b: DateTime)
    requires a.Valid() && b.Valid() && a.Instant() == b.Instant()
    ensures a == b
  {
    hide DayNumber, TimeOfDay;
    InstantSplits(a);
    InstantSplits(b);
    var da, db := DayNumber(a.year, a.month, a.day), DayNumber(b.year, b.month, b.day);
    TimeOfDayInjective(a, b);
    SameDay(da, TimeOfDay(a), db, TimeOfDay(b));
    DayInjective(a, b);
  }

  lemma InstantSplits(t: DateTime)
    ensures t.Instant() == DayNumber(t.year, t.month, t.day) * DAY + TimeOfDay(t)
  {
  }

  lemma SameDay(d: int, t: int, e: int, u: int)
    requires d * DAY + t == e * DAY + u && 0 <= t < DAY && 0 <= u < DAY
    ensures d == e && t == u
  {
  }

  // ----- The calendar, step by step -----

  /** The same time with no fraction, one second later. */
  function NextSecond(t: DateTime): DateTime {
    if t.second < 59 then t.(second := t.second + 1, nano := 0)
    else if t.minute < 59 then t.(minute := t.minute + 1, second := 0, nano := 0)
    else if t.hour < 23 then t.(hour := t.hour + 1, minute := 0, second := 0, nano := 0)
    else if t.day < DaysInMonth(t.year, t.month) then DateTime(t.year, t.month, t.day + 1, 0, 0, 0, 0)
    else if t.month < 12 then DateTime(t.year, t.month + 1, 1, 0, 0, 0, 0)
    else DateTime(t.year + 1, 1, 1, 0, 0, 0, 0)
  }

  /** Going from second to second through the calendar, the line of instants advances by a
      second each time, without gaps at any carry. */
  lemma SecondsAreEven(t: DateTime)
    requires t.Valid()
    ensures NextSecond(t).Instant() == t.Truncated().Instant() + 1_000_000_000
    ensures t.Instant() == t.Truncated().Instant() + t.nano
    ensures DateTime(0, 1, 1, 0, 0, 0, 0).Instant() == 0
    ensures t.year < 9999 ==> NextSecond(t).Valid()
  {
    hide DayNumber, DateTime.Instant, NextSecond, TimeOfDay;
    InstantSplits(NextSecond(t));
    InstantSplits(t.Truncated());
    InstantSplits(t);
    TimeAdvances(t);
    DayAdvances(t);
    YearZero();
    if t.year < 9999 { NextIsValid(t); }
  }

  lemma YearZero()
    ensures DateTime(0, 1, 1, 0, 0, 0, 0).Instant() == 0
  {
  }

  lemma NextIsValid(t: DateTime)
    requires t.Valid() && t.year < 9999
    ensures NextSecond(t).Valid()
  {
  }

  predicate LastSecond(t: DateTime) {
    t.second == 59 && t.minute == 59 && t.hour == 23
  }

  lemma TimeAdvances(t: DateTime)
    requires t.Valid()
    ensures TimeOfDay(t) == TimeOfDay(t.Truncated()) + t.nano
    ensures !LastSecond(t) ==> TimeOfDay(NextSecond(t)) == TimeOfDay(t.Truncated()) + 1_000_000_000
    ensures LastSecond(t) ==> TimeOfDay(NextSecond(t)) == 0 && TimeOfDay(t.Truncated()) + 1_000_000_000 == DAY
  {
  }

  lemma DayAdvances(t: DateTime)
    requires t.Valid()
    ensures var u := NextSecond(t);
            DayNumber(u.year, u.month, u.day) == DayNumber(t.year, t.month, t.day) + if LastSecond(t) then 1 else 0
  {
    hide DayNumber;
    NextDay(t.year, t.month, t.day);
  }

  lemma NextDay(y: int, m: nat, d: int)
    requires 1 <= m <= 12
    ensures DayNumber(y, m, d + 1) == DayNumber(y, m, d) + 1
    ensures DayNumber(y, m + 1, 1) == DayNumber(y, m, DaysInMonth(y, m)) + 1
    ensures DayNumber(y + 1, 1, 1) == DayNumber(y, 12, 31) + 1
  {
    MonthsFillYear(y);
  }

  /** A leap year has 366 days, another 365, and 400 years have 146097. */
  lemma Gregorian(y: int)
    ensures DayNumber(y + 1, 1, 1) - DayNumber(y, 1, 1) ==
            if y % 4 == 0 && (y % 100 != 0 || y % 400 == 0) then 366 else 365
    ensures DayNumber(y + 400, 1, 1) - DayNumber(y, 1, 1) == 146_097
  {
    hide DayNumber, DaysBeforeYear;
    YearLength(y);
    FourCenturies(y);
    NewYear(y);
    NewYear(y + 1);
    NewYear(y + 400);
  }

  lemma NewYear(y: int)
    ensures DayNumber(y, 1, 1) == DaysBeforeYear(y)
  {
  }

  lemma FourCenturies(y: int)
    ensures DaysBeforeYear(y + 400) == DaysBeforeYear(y) + 146_097
  {
    assert (y + 403) / 4 == (y + 3) / 4 + 100 && (y + 499) / 100 == (y + 99) / 100 + 4;
    assert (y + 799) / 400 == (y + 399) / 400 + 1;
  }

  // ----- Text -----

  predicate IsDigit(c: char) {
    '0' <= c <= '9'
  }

  function Digit(n: int): (c: char)
    requires 0 <= n < 10
    ensures IsDigit(c) && DigitValue(c) == n
  {
    (n + 48) as char
  }

  function DigitValue(c: char): int {
    c as int - 48
  }

  function Two(n: int): (s: string)
    requires 0 <= n < 100
    ensures |s| == 2 && forall c <- s :: IsDigit(c)
  {
    [Digit(n / 10), Digit(n % 10)]
  }

  function FormatDate(t: DateTime): (s: string)
    requires t.Valid()
    ensures |s| == 10 && forall c <- s :: IsDigit(c) || c == '-'
  {
    Two(t.year / 100) + Two(t.year % 100) + "-" + Two(t.month) + "-" + Two(t.day)
  }

  function FormatTime(t: DateTime): (s: string)
    requires t.Valid()
    ensures |s| == 8 && forall c <- s :: IsDigit(c) || c == ':'
  {
    Two(t.hour) + ":" + Two(t.minute) + ":" + Two(t.second)
  }

  /** The stem of a backup's file name, `%Y-%m-%d_%H%M%S`. */
  function FormatStem(t: DateTime): (s: string)
    requires t.Valid()
    ensures |s| == 17
  {
    FormatDate(t) + "_" + Two(t.hour) + Two(t.minute) + Two(t.second)
  }

  function TwoValue(s: string, i: nat): int
    requires i + 1 < |s|
  {
    DigitValue(s[i]) * 10 + DigitValue(s[i + 1])
  }

  /** Reads back a canonical stem, to the second. */
  function ParseStem(s: string): (r: Option<DateTime>)
    ensures r.Some? ==> r.value.Valid() && r.value.nano == 0
  {
    if |s| == 17 && s[4] == '-' && s[7] == '-' && s[10] == '_'
      && (forall i | 0 <= i < 17 && i != 4 && i != 7 && i != 10 :: IsDigit(s[i]))
    then
      var t := DateTime(TwoValue(s, 0) * 100 + TwoValue(s, 2), TwoValue(s, 5), TwoValue(s, 8),
                        TwoValue(s, 11), TwoValue(s, 13), TwoValue(s, 15), 0);
      if t.Valid() then Some(t) else None
    else None
  }

  /** The texts hold the numbers of the date and time in decimal, each in its place. */
  lemma TextsRead(t: DateTime)
    requires t.Valid()
    ensures var s := FormatDate(t);
            && s[4] == '-' && s[7] == '-'
            && TwoValue(s, 0) * 100 + TwoValue(s, 2) == t.year && TwoValue(s, 5) == t.month && TwoValue(s, 8) == t.day
    ensures var s := FormatTime(t);
            && s[2] == ':' && s[5] == ':'
            && TwoValue(s, 0) == t.hour && TwoValue(s, 3) == t.minute && TwoValue(s, 6) == t.second
    ensures var s := FormatStem(t);
            && s[..10] == FormatDate(t) && s[10] == '_'
            && TwoValue(s, 11) == t.hour && TwoValue(s, 13) == t.minute && TwoValue(s, 15) == t.second
  {
  }

  lemma StemRoundTrip(t: DateTime)
    requires t.Valid()
    ensures ParseStem(FormatStem(t)) == Some(t.Truncated())
  {
    var s := FormatStem(t);
    assert s[..10] == FormatDate(t);
    assert s[0..2] == Two(t.year / 100) && s[2..4] == Two(t.year % 100);
    assert s[5..7] == Two(t.month) && s[8..10] == Two(t.day);
    assert s[11..13] == Two(t.hour) && s[13..15] == Two(t.minute) && s[15..17] == Two(t.second);
  }

  lemma TwoOfValue(s: string, i: nat)
    requires i + 1 < |s| && IsDigit(s[i]) && IsDigit(s[i + 1])
    ensures 0 <= TwoValue(s, i) < 100 && Two(TwoValue(s, i)) == s[i..i + 2]
  {
    assert (DigitValue(s[i]) * 10 + DigitValue(s[i + 1])) / 10 == DigitValue(s[i]);
  }

  lemma StemCanonical(s: string)
    requires ParseStem(s).Some?
    ensures FormatStem(ParseStem(s).value) == s
  {
    var t := ParseStem(s).value;
    TwoOfValue(s, 0);
    TwoOfValue(s, 2);
    TwoOfValue(s, 5);
    TwoOfValue(s, 8);
    TwoOfValue(s, 11);
    TwoOfValue(s, 13);
    TwoOfValue(s, 15);
    assert t.year / 100 == TwoValue(s, 0) && t.year % 100 == TwoValue(s, 2);
    assert s == s[0..2] + s[2..4] + "-" + s[5..7] + "-" + s[8..10] + "_" + s[11..13] + s[13..15] + s[15..17];
  }

  /** Different stems are different seconds. */
  lemma StemInjective(s: string, u: string)
    requires ParseStem(s).Some? && ParseStem(u).Some?
    requires ParseStem(s).value.Instant() == ParseStem(u).value.Instant()
    ensures s == u
  {
    InstantInjective(ParseStem(s).value, ParseStem(u).value);
    StemCanonical(s);
    StemCanonical(u);
  }
}
