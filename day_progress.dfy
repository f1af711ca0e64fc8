/**
  What one tick derives from the wall clock: the seconds passed since local
  midnight, the seconds left in the day, the percentage of the day left and
  the daylight flag, and whether the tick falls on the top of an hour.
*/
module DayProgress {
  import opened ClockFormat

  const SECONDS_PER_DAY := 86400

  /** A wall-clock reading as the host's Date reports it. */
  datatype Clock = Clock(hour: int, minute: int, second: int)

  /** The ranges of `getHours()`, `getMinutes()` and `getSeconds()`. */
  predicate ValidClock(hour: int, minute: int, second: int)
  {
    0 <= hour < 24 && 0 <= minute < 60 && 0 <= second < 60
  }

  /** Seconds since local midnight: a second of the day. */
  function SecondsPassed(hour: int, minute: int, second: int): (p: int)
    requires ValidClock(hour, minute, second)
    ensures 0 <= p < SECONDS_PER_DAY
  {
    hour * 3600 + minute * 60 + second
  }

  /** The clock fields can be read back from the passed seconds, as formatSeconds splits them. */
  lemma ClockFromSecondsPassed(hour: int, minute: int, second: int)
    requires ValidClock(hour, minute, second)
    ensures var p := SecondsPassed(hour, minute, second);
      Hours(p) == hour && Minutes(p) == minute && Secs(p) == second
  {
    var p, q := SecondsPassed(hour, minute, second), minute * 60 + second;
    DivideBy3600(p, hour, q);
    DivideBy60(q, minute, second);
    DivideBy60(p, hour * 60 + minute, second);
  }

  /** Seconds left until the next midnight, counting the current second. */
  function SecondsRemaining(passed: int): (r: int)
    requires 0 <= passed < SECONDS_PER_DAY
    ensures 1 <= r <= SECONDS_PER_DAY
    ensures passed + r == SECONDS_PER_DAY
  {
    SECONDS_PER_DAY - passed
  }

  /** The exact ratio `remaining / 86400 * 100`. */
  function PercentRemaining(remaining: int): (pct: real)
    ensures 0 < remaining <= SECONDS_PER_DAY ==> 0.0 < pct <= 100.0
    ensures pct == 100.0 <==> remaining == SECONDS_PER_DAY
    ensures pct * 864.0 == remaining as real
  {
    (remaining as real / 86400.0) * 100.0
  }

  /** The daylight flag: hours 6 up to but not including 18. */
  predicate IsDaytime(hour: int)
  {
    hour >= 6 && hour < 18
  }

  /** The weather is refreshed on the first second of every hour. */
  predicate IsTopOfHour(minute: int, second: int)
  {
    minute == 0 && second == 0
  }

  /** Distinct clock readings of one day give distinct passed seconds. */
  lemma SecondsPassedInjective(h1: int, m1: int, s1: int, h2: int, m2: int, s2: int)
    requires ValidClock(h1, m1, s1) && ValidClock(h2, m2, s2)
    ensures SecondsPassed(h1, m1, s1) == SecondsPassed(h2, m2, s2) ==> h1 == h2 && m1 == m2 && s1 == s2
  {
    ClockFromSecondsPassed(h1, m1, s1);
    ClockFromSecondsPassed(h2, m2, s2);
  }

  /** Every second of the day is the passed-seconds value of exactly the clock its fields name. */
  lemma {:induction false} SecondsPassedOnto(p: int)
    requires 0 <= p < SECONDS_PER_DAY
    ensures ValidClock(Hours(p), Minutes(p), Secs(p))
    ensures SecondsPassed(Hours(p), Minutes(p), Secs(p)) == p
  {
    Decomposition(p);
  }

  /** A later second of the day leaves a strictly smaller share of the day. */
  lemma PercentDecreasesThroughTheDay(p1: int, p2: int)
    requires 0 <= p1 < p2 < SECONDS_PER_DAY
    ensures PercentRemaining(SecondsRemaining(p2)) < PercentRemaining(SecondsRemaining(p1))
  {
  }

  /** The whole day is left exactly at midnight, 00:00:00. */
  lemma PercentFullExactlyAtMidnight(hour: int, minute: int, second: int)
    requires ValidClock(hour, minute, second)
    ensures PercentRemaining(SecondsRemaining(SecondsPassed(hour, minute, second))) == 100.0
      <==> hour == 0 && minute == 0 && second == 0
  {
    FullDayLeftIffNothingPassed(SecondsPassed(hour, minute, second));
  }

  /** The percentage left is 100 exactly when no second of the day has passed. */
  lemma FullDayLeftIffNothingPassed(passed: int)
    requires 0 <= passed < SECONDS_PER_DAY
    ensures PercentRemaining(SecondsRemaining(passed)) == 100.0 <==> passed == 0
  {
  }

  /** The last second of the day leaves one 86400th of it, 1/864 percent. */
  lemma PercentAtLastSecond()
    ensures PercentRemaining(SecondsRemaining(SecondsPassed(23, 59, 59))) == 1.0 / 864.0
  {
    assert SecondsPassed(23, 59, 59) == 86399;
    assert PercentRemaining(1) * 864.0 == 1.0;
  }

  /** The daylight flag at the four boundary seconds of the day period. */
  lemma DaytimeBoundaries()
    ensures !IsDaytime(5) && IsDaytime(6) && IsDaytime(17) && !IsDaytime(18)
  {
  }

  /** The passed time is shown as the clock reading itself, each field padded to two digits. */
  lemma PassedTimeShowsClock(hour: int, minute: int, second: int)
    requires ValidClock(hour, minute, second)
    ensures FormatSeconds(SecondsPassed(hour, minute, second)) == Pad2(hour) + ":" + Pad2(minute) + ":" + Pad2(second)
    ensures |FormatSeconds(SecondsPassed(hour, minute, second))| == 8
  {
    ClockFromSecondsPassed(hour, minute, second);
    FormatSecondsDigits(SecondsPassed(hour, minute, second));
  }

  /** The remaining time always shows as eight characters that read back as the remaining seconds. */
  lemma RemainingTimeDisplay(passed: int)
    requires 0 <= passed < SECONDS_PER_DAY
    ensures |FormatSeconds(SecondsRemaining(passed))| == 8
    ensures ParseClock(FormatSeconds(SecondsRemaining(passed))) == Wrappers.Some(SecondsRemaining(passed))
    ensures passed == 0 ==> FormatSeconds(SecondsRemaining(passed)) == "24:00:00"
  {
    FormatSecondsRoundTrip(SecondsRemaining(passed));
    FormatSecondsDigits(SecondsRemaining(passed));
    if passed == 0 {
      FormatFullDay(SecondsRemaining(passed));
    }
  }
}
