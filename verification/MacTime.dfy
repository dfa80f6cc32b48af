/** Time arithmetic: host times and Mac delays, and the Mac's calendar clock. */
module MacTime {
  import opened MacMemory

  const MICROS_PER_SECOND: int := 1000000

  /** A host time: seconds and 0..999999 microseconds. Negative times have negative seconds. */
  datatype HostTime = HostTime(secs: int, micro: int) {
    predicate Valid() {
      0 <= micro < MICROS_PER_SECOND
    }

    /** The whole time in microseconds. */
    function Micros(): int {
      secs * MICROS_PER_SECOND + micro
    }
  }

  function AddTime(a: HostTime, b: HostTime): (r: HostTime)
    requires a.Valid() && b.Valid()
    ensures r.Valid() && r.Micros() == a.Micros() + b.Micros()
  {
    var m := a.micro + b.micro;
    if m >= MICROS_PER_SECOND then HostTime(a.secs + b.secs + 1, m - MICROS_PER_SECOND)
    else HostTime(a.secs + b.secs, m)
  }

  function SubTime(a: HostTime, b: HostTime): (r: HostTime)
    requires a.Valid() && b.Valid()
    ensures r.Valid() && r.Micros() == a.Micros() - b.Micros()
  {
    var m := a.micro - b.micro;
    if m < 0 then HostTime(a.secs - b.secs - 1, m + MICROS_PER_SECOND)
    else HostTime(a.secs - b.secs, m)
  }

  /** Negative, zero or positive as a is before, at or after b. */
  function CmpTime(a: HostTime, b: HostTime): (r: int)
    requires a.Valid() && b.Valid()
    ensures r < 0 <==> a.Micros() < b.Micros()
    ensures r == 0 <==> a == b
  {
    if a.secs < b.secs || (a.secs == b.secs && a.micro < b.micro) then -1
    else if a == b then 0 else 1
  }

  // ------------------------------------------------------------- Mac delays

  /** The duration a Mac delay value denotes, in microseconds: positive values are milliseconds,
      negative ones microseconds. */
  function Duration(delay: int32): (d: nat) {
    if delay > 0 then delay * 1000 else 0 - delay
  }

  /** timer_mac2host_time; negating the smallest int32 is undefined. */
  function Mac2HostTime(delay: int32): (r: HostTime)
    requires delay > -TWO31
    ensures r.Valid() && r.Micros() == Duration(delay)
  {
    if delay > 0 then HostTime(delay / 1000, delay % 1000 * 1000)
    else HostTime(-delay / MICROS_PER_SECOND, -delay % MICROS_PER_SECOND)
  }

  /** timer_host2mac_time: microseconds as long as they fit, milliseconds otherwise. The branch for
      negative times is the intended one; the seconds of AmigaOS's timeval are unsigned. */
  function Host2MacTime(t: HostTime): int32
    requires t.Valid()
  {
    if t.secs < 0 then 0
    else if t.Micros() > 0x7fff_ffff then ToInt32(t.Micros() / 1000)
    else -t.Micros()
  }

  /** Decoding a delay and encoding it again keeps the duration it denotes. */
  lemma DelayRoundTrip(delay: int32)
    requires delay > -TWO31
    ensures Duration(Host2MacTime(Mac2HostTime(delay))) == Duration(delay)
  {
    var t := Mac2HostTime(delay);
    assert t.secs >= 0;
    if t.Micros() > 0x7fff_ffff {
      assert t.Micros() / 1000 == delay;
    }
  }

  /** Encoding loses less than a millisecond, and nothing below 2^31 microseconds, exactly when
      the time is not negative and below 2^31 milliseconds (24.8 days). For negative times this is
      what the program means to do, see Host2MacTime. */
  lemma EncodingIsCloseIff(t: HostTime)
    requires t.Valid()
    ensures var d := Duration(Host2MacTime(t));
      && (0 <= t.Micros() <= 0x7fff_ffff ==> d == t.Micros())
      && (0 <= t.Micros() < TWO31 * 1000 <==> 0 <= t.Micros() - d < 1000)
  {
    var n := t.Micros();
    assert t.secs < 0 <==> n < 0;
    if n > 0x7fff_ffff {
      var ms := n / 1000;
      assert ms * 1000 <= n < ms * 1000 + 1000;
      if ms < TWO31 {
        assert ToInt32(ms) == ms;
      } else {
        EncodingOverflows(ms);
      }
    }
  }

  /** From 2^31 milliseconds on the value wraps, and denotes a much shorter time. */
  lemma EncodingOverflows(ms: nat)
    requires ms >= TWO31
    ensures Duration(ToInt32(ms)) < ms * 1000 - 1000
  {
    var low := ms % TWO32;
    assert low <= ms;
    if low < TWO31 {
      assert low <= ms - TWO31;
    }
  }

  // ------------------------------------------------------------- calendar

  predicate IsLeap(year: int) {
    year % 4 == 0 && (year % 100 != 0 || year % 400 == 0)
  }

  function YearLength(year: int): nat {
    if IsLeap(year) then 366 else 365
  }

  /** Days from 1 January 1904 to 1 January of `year`, year by year. */
  function DaysBefore(year: int): nat
    requires year >= 1904
    decreases year
  {
    if year == 1904 then 0 else DaysBefore(year - 1) + YearLength(year - 1)
  }

  /** Local time as localtime() breaks it down; tmYear counts from 1900. */
  datatype Tm = Tm(tmYear: int, yday: int, hour: int, min: int, sec: int) {
    predicate Valid() {
      tmYear >= 4 && 0 <= yday < YearLength(tmYear + 1900) && 0 <= hour < 24 && 0 <= min < 60 && 0 <= sec <= 60
    }
  }

  function Truth(b: bool): int {
    if b then 1 else 0
  }

  /** The leap day count of TimeToMacTime. */
  function LeapDays(tmYear: int): int {
    var a4 := (tmYear + 1900) / 4 - Truth(tmYear % 4 == 0);
    var b4 := 1904 / 4 - Truth(1904 % 4 == 0);
    var a100 := a4 / 25 - Truth(a4 % 25 < 0);
    var b100 := b4 / 25 - Truth(b4 % 25 < 0);
    var a400 := a100 / 4;
    var b400 := b100 / 4;
    (a4 - b4) - (a100 - b100) + (a400 - b400)
  }

  /** TimeToMacTime, on unsigned 32-bit arithmetic. */
  function TimeToMacTime(t: Tm): uint32 {
    var days := Wrap(t.yday + 365 * (t.tmYear - 4) + LeapDays(t.tmYear));
    Wrap(t.sec + 60 * (t.min + 60 * (t.hour + 24 * days)))
  }

  /** The closed leap day formula counts the leap years since 1904. */
  lemma {:induction false} LeapDaysAreGregorian(year: int)
    requires year >= 1904
    ensures 365 * (year - 1904) + LeapDays(year - 1900) == DaysBefore(year)
    decreases year
  {
    if year > 1904 {
      LeapDaysAreGregorian(year - 1);
      LeapDaysStep(year);
    }
  }

  lemma LeapDaysStep(year: int)
    requires year > 1904
    ensures LeapDays(year - 1900) == LeapDays(year - 1901) + Truth(IsLeap(year - 1))
  {
    var y := year - 1;
    assert year / 4 - Truth((year - 1900) % 4 == 0) == y / 4;
    var a := y / 4 - Truth((y - 1900) % 4 == 0);
    assert y / 4 == a + Truth(y % 4 == 0);
    QuarterStep(y, a);
  }

  /** How the century counts move from a to a + 1 when y is a multiple of four. */
  lemma QuarterStep(y: int, a: int)
    requires y >= 1904 && a == y / 4 - Truth(y % 4 == 0)
    ensures y % 4 != 0 ==> y / 4 == a
    ensures y % 4 == 0 ==> (a + 1) / 25 == a / 25 + Truth(y % 100 == 0)
    ensures y % 4 == 0 ==> (a + 1) / 25 / 4 == a / 25 / 4 + Truth(y % 400 == 0)
  {
    if y % 4 == 0 {
      QuarterCase(y, a, (a + 1) / 25, (a + 1) % 25);
    }
  }

  lemma QuarterCase(y: int, a: int, c: int, r: int)
    requires y == 4 * (a + 1) && a + 1 == 25 * c + r && 0 <= r < 25
    ensures (a + 1) / 25 == c && a / 25 == c - Truth(y % 100 == 0)
    ensures c / 4 == (c - Truth(y % 100 == 0)) / 4 + Truth(y % 400 == 0)
  {
    DividedBy25(a + 1, c, r);
    if r == 0 {
      DividedBy25(a, c - 1, 24);
    } else {
      DividedBy25(a, c, r - 1);
    }
    Within100(y, c, 4 * r);
    FourCenturies(y, c, r);
  }

  lemma DividedBy25(x: int, c: int, r: int)
    requires x == 25 * c + r && 0 <= r < 25
    ensures x / 25 == c
  {
  }

  lemma Within100(y: int, c: int, x: int)
    requires y == 100 * c + x && 0 <= x < 100
    ensures y % 100 == x
  {
  }

  lemma FourCenturies(y: int, c: int, r: int)
    requires y == 100 * c + 4 * r && 0 <= r < 25
    ensures c / 4 == (c - Truth(r == 0)) / 4 + Truth(y % 400 == 0)
  {
    var d, e := c / 4, c % 4;
    Within400(y, d, 100 * e + 4 * r);
    if r == 0 {
      assert (c - 1) / 4 == if e == 0 then d - 1 else d;
    }
  }

  lemma Within400(y: int, d: int, x: int)
    requires y == 400 * d + x && 0 <= x < 400
    ensures y % 400 == x
  {
  }

  /** Seconds since 1 January 1904, counting whole Gregorian years. */
  function Seconds(t: Tm): int
    requires t.Valid()
  {
    86400 * (DaysBefore(t.tmYear + 1900) + t.yday) + 3600 * t.hour + 60 * t.min + t.sec
  }

  /** TimeToMacTime counts the seconds since 1904, mod 2^32. */
  lemma MacTimeCountsSeconds(t: Tm)
    requires t.Valid()
    ensures TimeToMacTime(t) == Wrap(Seconds(t))
  {
    hide LeapDays, DaysBefore;
    LeapDaysAreGregorian(t.tmYear + 1900);
    var days := DaysBefore(t.tmYear + 1900) + t.yday;
    var rest := 3600 * t.hour + 60 * t.min + t.sec;
    WrapScaled(86400, days, rest);
  }

  lemma WrapScaled(k: int, x: int, y: int)
    ensures Wrap(k * Wrap(x) + y) == Wrap(k * x + y)
  {
    var q := x / TWO32;
    assert x == q * TWO32 + Wrap(x);
    assert k * x == (k * q) * TWO32 + k * Wrap(x);
    WrapShift(k * Wrap(x) + y, k * q);
  }

  lemma WrapShift(x: int, q: int)
    ensures Wrap(x + q * TWO32) == Wrap(x)
  {
  }

  /** Earlier in the calendar. */
  predicate Before(a: Tm, b: Tm) {
    a.tmYear < b.tmYear || (a.tmYear == b.tmYear && (
      a.yday < b.yday || (a.yday == b.yday && (
        a.hour < b.hour || (a.hour == b.hour && (
          a.min < b.min || (a.min == b.min && a.sec < b.sec)))))))
  }

  lemma {:induction false} YearsAddUp(y1: int, y2: int)
    requires 1904 <= y1 < y2
    ensures DaysBefore(y1) + YearLength(y1) <= DaysBefore(y2)
    decreases y2
  {
    if y1 + 1 < y2 {
      YearsAddUp(y1, y2 - 1);
    }
  }

  lemma SecondsIncrease(a: Tm, b: Tm)
    requires a.Valid() && b.Valid() && Before(a, b) && a.sec < 60
    ensures Seconds(a) < Seconds(b)
  {
    var y1, y2 := a.tmYear + 1900, b.tmYear + 1900;
    if y1 < y2 {
      YearsAddUp(y1, y2);
    }
    hide DaysBefore, YearLength;
    assert 3600 * a.hour + 60 * a.min + a.sec < 86400;
  }

  /** A later local time gives a larger Mac time, until the 32-bit counter wraps (a leap second
      counts as the second after it). */
  lemma MacTimeIncreases(a: Tm, b: Tm)
    requires a.Valid() && b.Valid() && Before(a, b) && a.sec < 60 && Seconds(b) < TWO32
    ensures TimeToMacTime(a) < TimeToMacTime(b)
  {
    hide DaysBefore, YearLength, TimeToMacTime;
    MacTimeCountsSeconds(a);
    MacTimeCountsSeconds(b);
    SecondsIncrease(a, b);
    WrapSmall(Seconds(b));
    assert Seconds(a) >= 0;
    WrapSmall(Seconds(a));
  }
}
