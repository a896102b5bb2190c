/**
 * The duration formatter of the home component: a walking distance in meters
 * and a pace in minutes per kilometre become a clock reading printed as
 * "[Hh ]Mm Ss". Numbers are exact reals; Math.floor is `.Floor`, Math.round
 * is JsRound and the `%` operator on numbers is JsRem.
 */
module Duration {

  import opened Wrappers
  import opened Decimal

  /** JavaScript's Math.round: the nearest integer, a half rounded up. */
  function JsRound(x: real): (n: int)
    ensures x - 0.5 < n as real <= x + 0.5
  {
    (x + 0.5).Floor
  }

  /** The integral part of `x`, rounded toward zero. */
  function Trunc(x: real): (n: int)
    ensures 0.0 <= x ==> n as real <= x < n as real + 1.0
    ensures x < 0.0 ==> n as real - 1.0 < x <= n as real
  {
    if x >= 0.0 then x.Floor else -((-x).Floor)
  }

  /**
   * JavaScript's `x % y` on numbers: `x` less the whole multiple of `y` that
   * truncates `x / y` toward zero, so the remainder takes the sign of `x`.
   * That multiple is the same for `y` and `-y`, so it is taken against |y|.
   */
  function JsRem(x: real, y: real): (r: real)
    requires y != 0.0
    ensures 0.0 <= x ==> 0.0 <= r
    ensures x <= 0.0 ==> r <= 0.0
    ensures -Abs(y) < r < Abs(y)
    ensures ((x - r) / y).Floor as real == (x - r) / y
  {
    var d := Abs(y);
    var n := Trunc(x / d);
    var r := x - d * n as real;
    RemainderOfQuotient(x, d, n, r);
    MultipleOfDivisor(y, n, x - r);
    r
  }

  function Abs(y: real): real {
    if y < 0.0 then -y else y
  }

  /** Taking off |y| times the truncated quotient leaves less than |y|, with the sign of `x`. */
  lemma RemainderOfQuotient(x: real, d: real, n: int, r: real)
    requires 0.0 < d && n == Trunc(x / d) && r == x - d * n as real
    ensures 0.0 <= x ==> 0.0 <= r < d
    ensures x <= 0.0 ==> -d < r <= 0.0
  {
    var f := x / d - n as real;
    QuotientSplit(x, d, n as real, f);
    FractionBounds(x / d, n, f);
    var s := d * f;
    ScaleFraction(d, f, s);
    assert r == s;
  }

  /** The fractional part left by truncation lies in [0, 1) above zero and in (-1, 0] below. */
  lemma FractionBounds(q: real, n: int, f: real)
    requires n == Trunc(q) && f == q - n as real
    ensures 0.0 <= q ==> 0.0 <= f < 1.0
    ensures q <= 0.0 ==> -1.0 < f <= 0.0
  {
  }

  /** Writing `x / d` as `n + f` writes `x` as `d * n + d * f`, and `x / d` has the sign of `x`. */
  lemma QuotientSplit(x: real, d: real, n: real, f: real)
    requires 0.0 < d && f == x / d - n
    ensures x - d * n == d * f
    ensures 0.0 <= x <==> 0.0 <= x / d
    ensures x <= 0.0 <==> x / d <= 0.0
  {
    assert x == d * (x / d);
  }

  /** A fraction of `d` strictly between -1 and 1 stays strictly between -d and d, with its sign. */
  lemma ScaleFraction(d: real, f: real, s: real)
    requires 0.0 < d && -1.0 < f < 1.0 && s == d * f
    ensures -d < s < d
    ensures 0.0 <= f ==> 0.0 <= s
    ensures f <= 0.0 ==> s <= 0.0
  {
  }

  /** |y| times a whole number is a whole multiple of `y`. */
  lemma MultipleOfDivisor(y: real, n: int, m: real)
    requires y != 0.0 && m == Abs(y) * n as real
    ensures (m / y).Floor as real == m / y
  {
    if y > 0.0 {
      assert m / y == n as real;
    } else {
      assert m / y == (-n) as real;
    }
  }

  /** A clock reading: hours, minutes and seconds as metersToTime prints them. */
  datatype Clock = Clock(hours: int, mins: int, secs: int)

  function TotalSeconds(c: Clock): int {
    c.hours * 3600 + c.mins * 60 + c.secs
  }

  /** The walking time in minutes of `meters` at `pace` minutes per kilometre. */
  function WalkingMinutes(meters: real, pace: real): (minutes: real)
    ensures 0.0 <= meters && 0.0 <= pace ==> 0.0 <= minutes
    ensures meters == 1000.0 ==> minutes == pace
  {
    meters / 1000.0 * pace
  }

  /** The reading before the 60-second carry: whole hours, whole minutes, rounded seconds. */
  function RawClock(minutes: real): Clock {
    var hours := (minutes / 60.0).Floor;
    var mins := JsRem(minutes, 60.0).Floor;
    var secs := JsRound((minutes - mins as real - hours as real * 60.0) * 60.0);
    Clock(hours, mins, secs)
  }

  /** For a non-negative duration the raw reading is in range and loses only the rounding. */
  lemma RawClockBounds(minutes: real)
    requires 0.0 <= minutes
    ensures RawClock(minutes).hours == (minutes / 60.0).Floor >= 0
    ensures 0 <= RawClock(minutes).mins < 60
    ensures 0 <= RawClock(minutes).secs <= 60
    ensures TotalSeconds(RawClock(minutes)) == JsRound(minutes * 60.0)
  {
    var hours := (minutes / 60.0).Floor;
    assert hours as real * 60.0 <= minutes < hours as real * 60.0 + 60.0;
    assert Trunc(minutes / 60.0) == hours;
    var rem := JsRem(minutes, 60.0);
    assert rem == minutes - 60.0 * hours as real;
    var mins := rem.Floor;
    var frac := minutes - mins as real - hours as real * 60.0;
    assert 0.0 <= frac < 1.0;
    var whole := hours * 3600 + mins * 60;
    assert minutes * 60.0 + 0.5 == frac * 60.0 + 0.5 + whole as real;
    assert JsRound(minutes * 60.0) == JsRound(frac * 60.0) + whole;
  }

  /** The carry as the source writes it: 60 rounded seconds become one more minute. */
  function CarryIntoMinutes(c: Clock): (r: Clock)
    ensures r.hours == c.hours
    ensures TotalSeconds(r) == TotalSeconds(c)
    ensures 0 <= c.secs <= 60 ==> 0 <= r.secs < 60
  {
    if c.secs == 60 then Clock(c.hours, c.mins + 1, 0) else c
  }

  /** The clock reading metersToTime prints for a duration in minutes. */
  function ClockOfMinutes(minutes: real): (c: Clock)
    ensures 0.0 <= minutes ==> c.hours == (minutes / 60.0).Floor >= 0
    ensures 0.0 <= minutes ==> 0 <= c.mins <= 60 && 0 <= c.secs < 60
    ensures 0.0 <= minutes ==> TotalSeconds(c) == JsRound(minutes * 60.0)
  {
    if 0.0 <= minutes then (RawClockBounds(minutes); CarryIntoMinutes(RawClock(minutes)))
    else CarryIntoMinutes(RawClock(minutes))
  }

  /** The printed reading: hours and a space only when hours is non-zero. */
  function Format(c: Clock): string {
    HoursPart(c.hours) + MinSecPart(c.mins, c.secs)
  }

  function HoursPart(hours: int): string {
    if hours != 0 then IntToString(hours) + "h " else ""
  }

  function MinSecPart(mins: int, secs: int): string {
    IntToString(mins) + "m " + IntToString(secs) + "s"
  }

  /** metersToTime(meters, pace = 5). */
  function MetersToTime(meters: real, pace: real := 5.0): string {
    Format(ClockOfMinutes(WalkingMinutes(meters, pace)))
  }

  /** The printed duration reads back as the clock reading of the walking time. */
  lemma MetersToTimeReadsBack(meters: real, pace: real)
    requires 0.0 <= meters && 0.0 <= pace
    ensures ParseClock(MetersToTime(meters, pace)) == Some(ClockOfMinutes(WalkingMinutes(meters, pace)))
  {
    var minutes := WalkingMinutes(meters, pace);
    assert 0.0 <= minutes;
    FormatRoundTrip(ClockOfMinutes(minutes));
  }

  // The reading of a printed clock, the partner of Format.

  function ParseClock(s: string): Option<Clock> {
    match ReadNumber(s, 'h')
    case Some((h, rest)) =>
      if rest != [] && rest[0] == ' ' then ParseMinSec(h, rest[1..]) else None
    case None => ParseMinSec(0, s)
  }

  function ParseMinSec(hours: nat, s: string): Option<Clock> {
    match ReadNumber(s, 'm')
    case None => None
    case Some((m, rest)) =>
      if rest != [] && rest[0] == ' ' then
        match ReadNumber(rest[1..], 's')
        case Some((sec, tail)) => if tail == [] then Some(Clock(hours, m, sec)) else None
        case None => None
      else None
  }

  lemma ParseMinSecOfFormat(hours: nat, m: nat, sec: nat)
    ensures ParseMinSec(hours, MinSecPart(m, sec)) == Some(Clock(hours, m, sec))
  {
    var tail := NatToString(sec) + "s";
    assert tail == NatToString(sec) + ['s'] + [];
    ReadNumberOfNatToString(sec, 's', []);
    assert ReadNumber(tail, 's') == Some((sec, []));
    var rest := [' '] + tail;
    var s := MinSecPart(m, sec);
    assert s == NatToString(m) + ['m'] + rest;
    ReadNumberOfNatToString(m, 'm', rest);
    assert ReadNumber(s, 'm') == Some((m, rest));
    assert rest[1..] == tail;
  }

  lemma ParseClockWithHours(h: nat, ms: string)
    requires h != 0
    ensures ParseClock(HoursPart(h) + ms) == ParseMinSec(h, ms)
  {
    var rest := [' '] + ms;
    var s := HoursPart(h) + ms;
    assert s == NatToString(h) + ['h'] + rest;
    ReadNumberOfNatToString(h, 'h', rest);
    assert rest[1..] == ms;
  }

  lemma ParseClockWithoutHours(m: nat, sec: nat)
    ensures ParseClock(MinSecPart(m, sec)) == ParseMinSec(0, MinSecPart(m, sec))
  {
    var rest := " " + NatToString(sec) + "s";
    assert MinSecPart(m, sec) == NatToString(m) + ['m'] + rest;
    ReadNumberOtherUnit(m, 'm', 'h', rest);
  }

  /** A printed reading of non-negative numbers reads back as the same reading. */
  lemma FormatRoundTrip(c: Clock)
    requires c.hours >= 0 && c.mins >= 0 && c.secs >= 0
    ensures ParseClock(Format(c)) == Some(c)
  {
    var ms := MinSecPart(c.mins, c.secs);
    ParseMinSecOfFormat(c.hours, c.mins, c.secs);
    if c.hours != 0 {
      ParseClockWithHours(c.hours, ms);
    } else {
      assert Format(c) == ms;
      ParseClockWithoutHours(c.mins, c.secs);
    }
  }

  /** The hours part is printed exactly when hours is non-zero. */
  lemma {:induction false} HoursShownIffNonZero(c: Clock)
    ensures 'h' in Format(c) <==> c.hours != 0
  {
    var ms := MinSecPart(c.mins, c.secs);
    NoLetterInNumeral(c.mins);
    NoLetterInNumeral(c.secs);
    assert 'h' !in ms;
    if c.hours != 0 {
      assert Format(c)[|IntToString(c.hours)|] == 'h';
    } else {
      assert Format(c) == ms;
    }
  }

  lemma NoLetterInNumeral(i: int)
    ensures 'h' !in IntToString(i)
  {
    var s := IntToString(i);
    if i < 0 {
      assert s[1..] == NatToString(-i);
      assert forall k :: 1 <= k < |s| ==> IsDigit(s[k]);
    }
  }

  /** metersToTime prints an hours part exactly when the walk takes at least an hour. */
  lemma HoursShownIffAnHour(meters: real, pace: real)
    requires 0.0 <= meters && 0.0 <= pace
    ensures 'h' in MetersToTime(meters, pace) <==> WalkingMinutes(meters, pace) >= 60.0
  {
    var minutes := WalkingMinutes(meters, pace);
    assert 0.0 <= minutes;
    HoursShownIffNonZero(ClockOfMinutes(minutes));
  }

  /** A whole number of minutes reads as whole hours and minutes with no seconds. */
  lemma ClockOfWholeMinutes(h: nat, m: nat)
    requires m < 60
    ensures ClockOfMinutes((h * 60 + m) as real) == Clock(h, m, 0)
  {
    var minutes := (h * 60 + m) as real;
    assert (minutes / 60.0).Floor == h by {
      assert h as real <= minutes / 60.0 < h as real + 1.0;
    }
    assert JsRem(minutes, 60.0) == m as real;
    assert JsRound(0.0) == 0;
  }

  lemma FormatExamples()
    ensures Format(Clock(0, 0, 0)) == "0m 0s"
    ensures Format(Clock(0, 5, 0)) == "5m 0s"
    ensures Format(Clock(1, 0, 0)) == "1h 0m 0s"
  {
    assert IntToString(0) == "0" && IntToString(1) == "1" && IntToString(5) == "5";
  }

  /** No distance is no time. */
  lemma ExampleNoDistance()
    ensures MetersToTime(0.0) == "0m 0s"
  {
    FormatExamples();
    assert WalkingMinutes(0.0, 5.0) == 0.0;
    assert ClockOfMinutes(0.0) == Clock(0, 0, 0) by {
      ClockOfWholeMinutes(0, 0);
    }
  }

  /** One kilometre at five minutes per kilometre is five minutes. */
  lemma ExampleOneKilometre()
    ensures MetersToTime(1000.0, 5.0) == "5m 0s"
  {
    FormatExamples();
    assert WalkingMinutes(1000.0, 5.0) == 5.0;
    assert ClockOfMinutes(5.0) == Clock(0, 5, 0) by {
      ClockOfWholeMinutes(0, 5);
    }
  }

  /** Five kilometres at twelve minutes per kilometre is one hour. */
  lemma ExampleOneHour()
    ensures MetersToTime(5000.0, 12.0) == "1h 0m 0s"
  {
    FormatExamples();
    assert WalkingMinutes(5000.0, 12.0) == 60.0;
    assert ClockOfMinutes(60.0) == Clock(1, 0, 0) by {
      ClockOfWholeMinutes(1, 0);
    }
  }

  /**
   * The carry reaches only the minutes: 11999 meters at the default pace is
   * 59.995 minutes, whose seconds round to 60 and are printed as a sixtieth minute.
   */
  lemma SixtyMinutesReachable()
    ensures ClockOfMinutes(WalkingMinutes(11999.0, 5.0)) == Clock(0, 60, 0)
    ensures MetersToTime(11999.0) == "60m 0s"
  {
  }

  // The evidently intended reading: a full minute of seconds carries on into the hours.

  /** The canonical reading of a number of seconds. */
  function FromSeconds(t: nat): Clock {
    Clock(t / 3600, t % 3600 / 60, t % 60)
  }

  function CarryIntoHours(c: Clock): Clock {
    if c.secs < 60 then c
    else if c.mins + 1 < 60 then Clock(c.hours, c.mins + 1, 0)
    else Clock(c.hours + 1, 0, 0)
  }

  /** The reading with the carry completed. */
  function ClockOfMinutesCarried(minutes: real): (c: Clock)
    ensures 0.0 <= minutes ==> 0 <= c.hours && 0 <= c.mins < 60 && 0 <= c.secs < 60
    ensures 0.0 <= minutes ==> TotalSeconds(c) == JsRound(minutes * 60.0)
  {
    if 0.0 <= minutes then (RawClockBounds(minutes); CarryIntoHours(RawClock(minutes)))
    else CarryIntoHours(RawClock(minutes))
  }

  /** The completed carry gives the one canonical reading of the rounded duration. */
  lemma CarriedIsCanonical(minutes: real)
    requires 0.0 <= minutes
    ensures ClockOfMinutesCarried(minutes) == FromSeconds(JsRound(minutes * 60.0))
  {
    var c := ClockOfMinutesCarried(minutes);
    CanonicalReading(c.hours, c.mins, c.secs);
  }

  lemma CanonicalReading(h: nat, m: nat, s: nat)
    requires m < 60 && s < 60
    ensures FromSeconds(h * 3600 + m * 60 + s) == Clock(h, m, s)
  {
    var r := m * 60 + s;
    var t := h * 3600 + r;
    DivModOf(t, 3600, h, r);
    DivModOf(r, 60, m, s);
    assert t == (h * 60 + m) * 60 + s;
    DivModOf(t, 60, h * 60 + m, s);
  }

  lemma DivModOf(t: int, d: int, q: int, r: int)
    requires d == 60 || d == 3600
    requires t == q * d + r && 0 <= r < d
    ensures t / d == q && t % d == r
  {
    var q', r' := t / d, t % d;
    assert t == q' * d + r' && 0 <= r' < d;
    assert (q - q') * d == r' - r;
  }

  /** metersToTime with the carry completed. */
  function MetersToTimeCarried(meters: real, pace: real := 5.0): string {
    Format(ClockOfMinutesCarried(WalkingMinutes(meters, pace)))
  }

  /** The corrected printout reads back as the canonical reading of the rounded walking time. */
  lemma MetersToTimeCarriedReadsBack(meters: real, pace: real)
    requires 0.0 <= meters && 0.0 <= pace
    ensures ParseClock(MetersToTimeCarried(meters, pace))
         == Some(FromSeconds(JsRound(WalkingMinutes(meters, pace) * 60.0)))
  {
    var minutes := WalkingMinutes(meters, pace);
    assert 0.0 <= minutes;
    CarriedReadsBack(minutes);
  }

  /** The step of MetersToTimeCarriedReadsBack, stated over the walking time in minutes. */
  lemma CarriedReadsBack(minutes: real)
    requires 0.0 <= minutes
    ensures ParseClock(Format(ClockOfMinutesCarried(minutes))) == Some(FromSeconds(JsRound(minutes * 60.0)))
  {
    var c := ClockOfMinutesCarried(minutes);
    CarriedIsCanonical(minutes);
    FormatRoundTrip(c);
  }

  lemma CarriedExamples()
    ensures MetersToTimeCarried(11999.0) == "1h 0m 0s"
    ensures MetersToTimeCarried(5000.0, 12.0) == "1h 0m 0s"
  {
    assert NatToString(0) == "0" && NatToString(1) == "1";
    assert ClockOfMinutesCarried(WalkingMinutes(11999.0, 5.0)) == Clock(1, 0, 0);
    assert ClockOfMinutesCarried(WalkingMinutes(5000.0, 12.0)) == Clock(1, 0, 0);
  }
}
