/** The decimal calendar clock and the timer that subtracts its values (src/modules/common,
    src/modules/Scheduler/mods/timer). */
module Clock {
  import opened Text

  // ----- The calendar -----

  datatype Date = Date(year: nat, month: nat, day: nat, hour: nat, minute: nat, second: nat)

  predicate Leap(y: nat) {
    y % 4 == 0 && (y % 100 != 0 || y % 400 == 0)
  }

  function DaysIn(y: nat, month: nat): nat {
    if month == 2 then if Leap(y) then 29 else 28
    else if month == 4 || month == 6 || month == 9 || month == 11 then 30
    else 31
  }

  predicate Valid(d: Date) {
    && 1 <= d.year && 1 <= d.month <= 12 && 1 <= d.day <= DaysIn(d.year, d.month)
    && d.hour < 24 && d.minute < 60 && d.second < 60
  }

  /** One second later. */
  function Next(d: Date): Date {
    if d.second < 59 then d.(second := d.second + 1)
    else if d.minute < 59 then d.(second := 0, minute := d.minute + 1)
    else if d.hour < 23 then d.(second := 0, minute := 0, hour := d.hour + 1)
    else if d.day < DaysIn(d.year, d.month) then Date(d.year, d.month, d.day + 1, 0, 0, 0)
    else if d.month < 12 then Date(d.year, d.month + 1, 1, 0, 0, 0)
    else Date(d.year + 1, 1, 1, 0, 0, 0)
  }

  const FIRST: Date := Date(1, 1, 1, 0, 0, 0)

  /** The local time t seconds after the beginning of year 1, at a fixed zone offset. */
  function LocalTime(t: nat): (d: Date)
    ensures Valid(d)
  {
    if t == 0 then FIRST else Next(LocalTime(t - 1))
  }

  /** Days from the beginning of year 1 to that of year y, in the Gregorian calendar. */
  function DaysBeforeYear(y: nat): int {
    365 * (y - 1) + (y - 1) / 4 - (y - 1) / 100 + (y - 1) / 400
  }

  function DaysBeforeMonth(y: nat, month: nat): nat {
    if month <= 1 then 0 else DaysBeforeMonth(y, month - 1) + DaysIn(y, month - 1)
  }

  function DayNumber(d: Date): int {
    DaysBeforeYear(d.year) + DaysBeforeMonth(d.year, d.month) + d.day - 1
  }

  /** The seconds from the beginning of year 1. */
  function Instant(d: Date): int {
    ((DayNumber(d) * 24 + d.hour) * 60 + d.minute) * 60 + d.second
  }

  lemma Quarters(y: nat)
    requires y >= 1
    ensures y / 4 - (y - 1) / 4 == if y % 4 == 0 then 1 else 0
  {
  }

  lemma Centuries(y: nat)
    requires y >= 1
    ensures y / 100 - (y - 1) / 100 == if y % 100 == 0 then 1 else 0
    ensures y % 100 == 0 ==> y % 4 == 0
  {
  }

  lemma FourCenturies(y: nat)
    requires y >= 1
    ensures y / 400 - (y - 1) / 400 == if y % 400 == 0 then 1 else 0
    ensures y % 400 == 0 ==> y % 100 == 0
  {
  }

  lemma YearLength(y: nat)
    requires y >= 1
    ensures DaysBeforeYear(y + 1) == DaysBeforeYear(y) + if Leap(y) then 366 else 365
  {
    var q, c, f := y / 4 - (y - 1) / 4, y / 100 - (y - 1) / 100, y / 400 - (y - 1) / 400;
    Quarters(y);
    Centuries(y);
    FourCenturies(y);
    assert DaysBeforeYear(y + 1) - DaysBeforeYear(y) == 365 + q - c + f;
    assert (q - c + f == 1 <==> Leap(y)) && (q - c + f == 0 <==> !Leap(y));
  }

  lemma MonthsOfYear(y: nat)
    ensures DaysBeforeMonth(y, 12) + 31 == if Leap(y) then 366 else 365
  {
    hide Leap;
    var f := DaysIn(y, 2);
    assert DaysBeforeMonth(y, 2) == 31;
    assert DaysBeforeMonth(y, 3) == 31 + f;
    assert DaysBeforeMonth(y, 4) == 62 + f;
    assert DaysBeforeMonth(y, 5) == 92 + f;
    assert DaysBeforeMonth(y, 6) == 123 + f;
    assert DaysBeforeMonth(y, 7) == 153 + f;
    assert DaysBeforeMonth(y, 8) == 184 + f;
    assert DaysBeforeMonth(y, 9) == 215 + f;
    assert DaysBeforeMonth(y, 10) == 245 + f;
    assert DaysBeforeMonth(y, 11) == 276 + f;
    assert DaysBeforeMonth(y, 12) == 306 + f;
  }

  lemma NextInstant(d: Date)
    requires Valid(d)
    ensures Instant(Next(d)) == Instant(d) + 1
  {
    hide DaysBeforeYear;
    YearLength(d.year);
    MonthsOfYear(d.year);
    assert DaysBeforeYear(1) == 0 && DaysBeforeMonth(d.year + 1, 1) == 0 by { FirstYear(); }
    if d.second == 59 && d.minute == 59 && d.hour == 23 {
      assert DayNumber(Next(d)) == DayNumber(d) + 1;
    }
  }

  lemma FirstYear()
    ensures DaysBeforeYear(1) == 0
  {
  }

  lemma FirstInstant()
    ensures Instant(FIRST) == 0
  {
  }

  /** The calendar is the Gregorian one: the t-th second is the one with that many seconds before it. */
  lemma {:induction false} InstantOfLocalTime(t: nat)
    ensures Instant(LocalTime(t)) == t
  {
    hide Instant, Next;
    if t == 0 {
      FirstInstant();
    } else {
      InstantOfLocalTime(t - 1);
      NextInstant(LocalTime(t - 1));
    }
  }

  function Previous(d: Date): Date
    requires Valid(d) && d != FIRST
  {
    if d.second > 0 then d.(second := d.second - 1)
    else if d.minute > 0 then d.(second := 59, minute := d.minute - 1)
    else if d.hour > 0 then d.(second := 59, minute := 59, hour := d.hour - 1)
    else if d.day > 1 then Date(d.year, d.month, d.day - 1, 23, 59, 59)
    else if d.month > 1 then Date(d.year, d.month - 1, DaysIn(d.year, d.month - 1), 23, 59, 59)
    else Date(d.year - 1, 12, 31, 23, 59, 59)
  }

  lemma PreviousNext(d: Date)
    requires Valid(d) && d != FIRST
    ensures Valid(Previous(d)) && Next(Previous(d)) == d
  {
  }

  lemma DaysBeforeYearNonNegative(y: nat)
    requires y >= 1
    ensures DaysBeforeYear(y) >= 0
  {
  }

  /** Every valid date is the local time at its instant. */
  lemma {:induction false} LocalTimeOfInstant(d: Date)
    requires Valid(d)
    ensures Instant(d) >= 0 && LocalTime(Instant(d)) == d
    decreases Instant(d)
  {
    hide Instant, Next, Previous;
    InstantNonNegative(d);
    FirstInstant();
    if d != FIRST {
      PreviousNext(d);
      var p := Previous(d);
      NextInstant(p);
      InstantNonNegative(p);
      LocalTimeOfInstant(p);
    }
  }

  lemma InstantNonNegative(d: Date)
    requires Valid(d)
    ensures Instant(d) >= 0
  {
    hide DaysBeforeYear;
    DaysBeforeYearNonNegative(d.year);
  }

  // ----- The encoded clock -----

  /** YYYYMMDDhhmmss read as one decimal number. */
  function Encoded(d: Date): nat {
    ((((d.year * 100 + d.month) * 100 + d.day) * 100 + d.hour) * 100 + d.minute) * 100 + d.second
  }

  function TwoDigits(n: nat): string
    requires n < 100
  {
    [DigitChar(n / 10), DigitChar(n % 10)]
  }

  /** std::put_time with "%Y%m%d%H%M%S" for a year of four digits. */
  function TimeText(d: Date): string
    requires Valid(d)
  {
    Dec(d.year) + TwoDigits(d.month) + TwoDigits(d.day) + TwoDigits(d.hour) + TwoDigits(d.minute) + TwoDigits(d.second)
  }

  function OctalPrefix(s: string): (r: string)
    ensures AllDigits(r)
  {
    if s == "" || !('0' <= s[0] <= '7') then "" else [s[0]] + OctalPrefix(s[1..])
  }

  function OctalValue(s: string): nat
    requires AllDigits(s)
  {
    if s == "" then 0 else OctalValue(s[..|s| - 1]) * 8 + DigitValue(s[|s| - 1])
  }

  /** strtoll with base 0 on a text of digits: a leading 0 makes it octal. */
  function Strtoll(s: string): nat {
    if s != "" && s[0] == '0' then OctalValue(OctalPrefix(s)) else DigitsValue(DigitPrefix(s))
  }

  lemma DigitBack(d: nat)
    requires d < 10
    ensures IsDigit(DigitChar(d)) && DigitValue(DigitChar(d)) == d
  {
  }

  lemma AppendTwoDigits(s: string, n: nat)
    requires AllDigits(s) && n < 100
    ensures AllDigits(s + TwoDigits(n)) && DigitsValue(s + TwoDigits(n)) == DigitsValue(s) * 100 + n
  {
    hide DigitChar, DigitValue, IsDigit;
    DigitBack(n / 10);
    DigitBack(n % 10);
    var u, t := s + [DigitChar(n / 10)], s + TwoDigits(n);
    assert t[..|t| - 1] == u && t[|t| - 1] == DigitChar(n % 10);
    assert u[..|u| - 1] == s;
  }

  lemma {:induction false} DecNoLeadingZero(n: nat)
    requires n > 0
    ensures Dec(n)[0] != '0'
  {
    if n >= 10 {
      DecNoLeadingZero(n / 10);
    }
  }

  lemma TimeTextValue(d: Date)
    requires Valid(d)
    ensures AllDigits(TimeText(d)) && TimeText(d)[0] != '0' && DigitsValue(TimeText(d)) == Encoded(d)
  {
    hide DigitsValue, TwoDigits;
    DecValue(d.year);
    DecNoLeadingZero(d.year);
    var s1 := Dec(d.year) + TwoDigits(d.month);
    var s2 := s1 + TwoDigits(d.day);
    var s3 := s2 + TwoDigits(d.hour);
    var s4 := s3 + TwoDigits(d.minute);
    AppendTwoDigits(Dec(d.year), d.month);
    AppendTwoDigits(s1, d.day);
    AppendTwoDigits(s2, d.hour);
    AppendTwoDigits(s3, d.minute);
    AppendTwoDigits(s4, d.second);
  }

  lemma LastTwo(a: nat, b: nat)
    requires b < 100
    ensures (a * 100 + b) % 100 == b && (a * 100 + b) / 100 == a
  {
  }

  lemma EncodedDigits(d: Date)
    requires Valid(d)
    ensures var r := Encoded(d);
            && r % 100 == d.second && r / 100 % 100 == d.minute && r / 100 / 100 % 100 == d.hour
            && r / 100 / 100 / 100 % 100 == d.day && r / 100 / 100 / 100 / 100 % 100 == d.month
            && r / 100 / 100 / 100 / 100 / 100 == d.year
  {
    var r4 := d.year * 100 + d.month;
    var r3 := r4 * 100 + d.day;
    var r2 := r3 * 100 + d.hour;
    var r1 := r2 * 100 + d.minute;
    LastTwo(r1, d.second);
    LastTwo(r2, d.minute);
    LastTwo(r3, d.hour);
    LastTwo(r4, d.day);
    LastTwo(d.year, d.month);
  }

  /** getTime at a local time with a year from 1000 on. */
  method GetTime(now: Date) returns (ret: nat)
    requires Valid(now) && now.year >= 1000
    ensures ret == Encoded(now)
    // two digits each from the second to the month, and in front of them the year
    ensures ret % 100 == now.second && ret / 100 % 100 == now.minute && ret / 100 / 100 % 100 == now.hour
    ensures ret / 100 / 100 / 100 % 100 == now.day && ret / 100 / 100 / 100 / 100 % 100 == now.month
    ensures ret / 100 / 100 / 100 / 100 / 100 == now.year
  {
    EncodedDigits(now);
    var timeid := TimeText(now);
    TimeTextValue(now);
    DigitPrefixOfDigits(timeid);
    ret := Strtoll(timeid);
  }

  /** A clock tick adds at least 1, and exactly 1 inside a minute. */
  lemma NextEncoded(d: Date)
    requires Valid(d)
    ensures Encoded(Next(d)) >= Encoded(d) + 1
    ensures Encoded(Next(d)) == Encoded(d) + 1 <==> d.second < 59
  {
  }

  /** The clock never under-counts: the difference of two of its values is at least the seconds between them, and equals
      them exactly when no minute has ended in between. */
  lemma {:induction false} ClockOvercounts(s: nat, t: nat)
    requires s <= t
    ensures Encoded(LocalTime(t)) - Encoded(LocalTime(s)) >= t - s
    ensures Encoded(LocalTime(t)) - Encoded(LocalTime(s)) == t - s <==> LocalTime(s).second + (t - s) < 60
    ensures LocalTime(s).second + (t - s) < 60 ==> LocalTime(t).second == LocalTime(s).second + (t - s)
    ensures LocalTime(t).year >= LocalTime(s).year
  {
    hide Encoded, DaysIn;
    if s < t {
      ClockOvercounts(s, t - 1);
      NextEncoded(LocalTime(t - 1));
    }
  }

  /** Later times have larger values. */
  lemma ClockIncreases(s: nat, t: nat)
    requires s < t
    ensures Encoded(LocalTime(s)) < Encoded(LocalTime(t))
  {
    hide Encoded;
    ClockOvercounts(s, t);
  }

  // ----- The timer -----

  /** The exit test of the timer, m seconds having been asked for at instant s. */
  predicate Expired(s: nat, t: nat, m: int) {
    Encoded(LocalTime(t)) - Encoded(LocalTime(s)) > m
  }

  /** The test holds whenever more than m seconds have passed, and it holds early, at some instant within m seconds,
      exactly when the m seconds run into the next minute. */
  lemma ExpiredEarlyIff(s: nat, m: nat)
    ensures forall t: nat :: t > s + m ==> Expired(s, t, m)
    ensures (exists t: nat :: s <= t <= s + m && Expired(s, t, m)) <==> LocalTime(s).second + m >= 60
  {
    hide Encoded, LocalTime;
    forall t: nat | s <= t
      ensures t > s + m ==> Expired(s, t, m)
      ensures t <= s + m && LocalTime(s).second + m < 60 ==> !Expired(s, t, m)
    {
      ClockOvercounts(s, t);
    }
    ClockOvercounts(s, s + m);
    assert LocalTime(s).second + m >= 60 ==> Expired(s, s + m, m);
  }

  /** The readings of a clock that does not run backwards, from a year with four digits on. */
  ghost predicate ClockReadings(clock: nat -> nat) {
    && LocalTime(clock(0)).year >= 1000
    && forall i: nat, j: nat :: i <= j ==> clock(i) <= clock(j)
  }

  class Timer {
    var startTime: int
    var seconds: int
    var calls: nat

    constructor (seconds: int)
      ensures this.seconds == seconds && calls == 0
    {
      this.seconds, startTime, calls := seconds, 0, 0;
    }

    /** Timer::start: reading 0 is the start, and the callback is called at reading k, the first of the later ones at
        which the test holds. `last` is a reading taken more than the asked time after the start. */
    method Start(clock: nat -> nat, ghost last: nat) returns (k: nat)
      requires ClockReadings(clock) && last > 0 && clock(last) > clock(0) + seconds
      modifies this`startTime, this`calls
      ensures calls == old(calls) + 1 && startTime == Encoded(LocalTime(clock(0)))
      ensures 0 < k <= last && Expired(clock(0), clock(k), seconds)
      ensures forall j: nat :: 0 < j < k ==> !Expired(clock(0), clock(j), seconds) && clock(j) <= clock(0) + seconds
      // a call before the time is over comes from the end of a minute
      ensures clock(k) <= clock(0) + seconds ==> LocalTime(clock(0)).second + seconds >= 60
    {
      hide Encoded, LocalTime;
      var start := GetTime(LocalTime(clock(0)));
      startTime := start;
      k := 1;
      while true
        invariant 0 < k <= last && startTime == start && calls == old(calls)
        invariant forall j: nat :: 0 < j < k ==> !Expired(clock(0), clock(j), seconds) && clock(j) <= clock(0) + seconds
        decreases last - k
      {
        ClockOvercounts(clock(0), clock(k));
        var currentTime := GetTime(LocalTime(clock(k)));
        var lastTime := currentTime - startTime;
        if lastTime > seconds {
          calls := calls + 1;
          break;
        }
        k := k + 1;
      }
    }
  }
}
