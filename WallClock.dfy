/**
  The next-occurrence calculator of src/App.tsx (timeUntilWallClock).

  An instant is an integer number of milliseconds since the most recent
  local midnight; a day is a fixed 86 400 000 ms (no daylight-saving jumps).
  The calculator copies "now", overwrites its hour, minute, second and
  millisecond fields one after the other (the Date setters), rolls the
  result forward one day when it lies in the past, and returns how far ahead
  it is.
 */
module WallClock {

  const SECOND_MS: int := 1000
  const MINUTE_MS: int := 60000
  const HOUR_MS: int := 3600000
  const DAY_MS: int := 86400000

  /** An instant on today's local clock. */
  predicate InDay(now: int) {
    0 <= now < DAY_MS
  }

  /** A wall-clock time as the catalog writes it: hours 0..23, minutes 0..59. */
  predicate ValidTime(hour: int, minute: int) {
    0 <= hour <= 23 && 0 <= minute <= 59
  }

  // The Date setters, on an instant counted from today's midnight. Each one
  // replaces one field and keeps the coarser and finer ones; a value outside
  // the field's range carries into the coarser fields, as Date does.

  function SetHours(t: int, hour: int): int {
    (t / DAY_MS) * DAY_MS + hour * HOUR_MS + t % HOUR_MS
  }

  function SetMinutes(t: int, minute: int): int {
    (t / HOUR_MS) * HOUR_MS + minute * MINUTE_MS + t % MINUTE_MS
  }

  function SetSeconds(t: int, second: int): int {
    (t / MINUTE_MS) * MINUTE_MS + second * SECOND_MS + t % SECOND_MS
  }

  function SetMilliseconds(t: int, ms: int): int {
    (t / SECOND_MS) * SECOND_MS + ms
  }

  /** The last millisecond (hh:mm:59.999) of minute hour:minute of today;
      an hour past 23 lands on a later day. */
  function EndOfMinute(hour: int, minute: int): int {
    hour * HOUR_MS + minute * MINUTE_MS + 59999
  }

  /** Milliseconds from now to the end of the target minute: today's if it
      is not yet past, otherwise the one a day later. */
  function RemainingMs(now: int, hour: int, minute: int): int {
    var candidate := EndOfMinute(hour, minute);
    if candidate < now then candidate + DAY_MS - now else candidate - now
  }

  /** Milliseconds until the end of the next hour:minute, computed as the
      source does: field by field on a copy of now, then the rollover. */
  method TimeUntilWallClock(now: int, targetHour: int, targetMinute: int) returns (remaining: int)
    requires InDay(now)
    ensures remaining == RemainingMs(now, targetHour, targetMinute)
    ensures ValidTime(targetHour, targetMinute) ==> 0 <= remaining < DAY_MS
  {
    var target := now;
    target := SetHours(target, targetHour);
    target := SetMinutes(target, targetMinute);
    target := SetSeconds(target, 59);
    target := SetMilliseconds(target, 999);
    SettersReachEndOfMinute(now, targetHour, targetMinute);
    if target < now {
      target := target + DAY_MS;
    }
    remaining := target - now;
  }

  /** Setting hour, minute, 59 s and 999 ms on now, in that order, gives the
      end of the target minute. */
  lemma SettersReachEndOfMinute(now: int, hour: int, minute: int)
    requires InDay(now)
    ensures SetMilliseconds(SetSeconds(SetMinutes(SetHours(now, hour), minute), 59), 999) == EndOfMinute(hour, minute)
  {
    SetHoursToday(now, hour);
    SetMinutesAfterHours(now, hour, minute);
    SetSecondsAfterMinutes(now, hour * 60 + minute, 59);
    SetMillisecondsAfterSeconds(now, (hour * 60 + minute) * 60 + 59, 999);
  }

  // One lemma per setter: what the field-by-field construction has built so
  // far, in terms of the finer fields of now that are still untouched.

  lemma SetHoursToday(now: int, hour: int)
    requires InDay(now)
    ensures SetHours(now, hour) == hour * HOUR_MS + now % HOUR_MS
  {
    assert now / DAY_MS == 0;
  }

  lemma SetMinutesAfterHours(now: int, hour: int, minute: int)
    requires InDay(now)
    ensures SetMinutes(hour * HOUR_MS + now % HOUR_MS, minute) == (hour * 60 + minute) * MINUTE_MS + now % MINUTE_MS
  {
    var rest := now % HOUR_MS;
    var t := hour * HOUR_MS + rest;
    assert t / HOUR_MS == hour;
    HourRestMinutes(now);
    WholeMinutesShift(hour * 60, rest);
    assert t == (hour * 60) * MINUTE_MS + rest;
  }

  lemma WholeMinutesShift(k: int, r: int)
    ensures (k * MINUTE_MS + r) % MINUTE_MS == r % MINUTE_MS
  {
    assert k * MINUTE_MS + r == (k + r / MINUTE_MS) * MINUTE_MS + r % MINUTE_MS;
  }

  lemma SetSecondsAfterMinutes(now: int, minutes: int, second: int)
    requires InDay(now)
    ensures SetSeconds(minutes * MINUTE_MS + now % MINUTE_MS, second) == (minutes * 60 + second) * SECOND_MS + now % SECOND_MS
  {
    var rest := now % MINUTE_MS;
    var t := minutes * MINUTE_MS + rest;
    assert t / MINUTE_MS == minutes;
    MinuteRestSeconds(now);
    WholeSecondsShift(minutes * 60, rest);
    assert t == (minutes * 60) * SECOND_MS + rest;
  }

  lemma SetMillisecondsAfterSeconds(now: int, seconds: int, ms: int)
    requires InDay(now)
    ensures SetMilliseconds(seconds * SECOND_MS + now % SECOND_MS, ms) == seconds * SECOND_MS + ms
  {
    assert (seconds * SECOND_MS + now % SECOND_MS) / SECOND_MS == seconds;
  }

  /** The milliseconds into the current hour, taken within the minute, are
      the milliseconds into the current minute. */
  lemma HourRestMinutes(now: int)
    requires InDay(now)
    ensures (now % HOUR_MS) % MINUTE_MS == now % MINUTE_MS
  {
    WholeMinutesShift((now / HOUR_MS) * 60, now % HOUR_MS);
    assert now == ((now / HOUR_MS) * 60) * MINUTE_MS + now % HOUR_MS;
  }

  /** Likewise for the milliseconds into the current minute and second. */
  lemma MinuteRestSeconds(now: int)
    requires InDay(now)
    ensures (now % MINUTE_MS) % SECOND_MS == now % SECOND_MS
  {
    WholeSecondsShift((now / MINUTE_MS) * 60, now % MINUTE_MS);
    assert now == ((now / MINUTE_MS) * 60) * SECOND_MS + now % MINUTE_MS;
  }

  lemma WholeSecondsShift(k: int, r: int)
    ensures (k * SECOND_MS + r) % SECOND_MS == r % SECOND_MS
  {
    assert k * SECOND_MS + r == (k + r / SECOND_MS) * SECOND_MS + r % SECOND_MS;
  }

  /** Bounds for any candidate less than a day away from now, in either
      direction; every valid time of today is such a candidate. */
  lemma RemainingBounds(now: int, hour: int, minute: int)
    requires InDay(now)
    requires now - DAY_MS <= EndOfMinute(hour, minute) < now + DAY_MS
    ensures 0 <= RemainingMs(now, hour, minute) < DAY_MS
  {
  }

  /** For a valid time the countdown never goes negative and stays below a day. */
  lemma ValidTimeBounds(now: int, hour: int, minute: int)
    requires InDay(now) && ValidTime(hour, minute)
    ensures 0 <= RemainingMs(now, hour, minute) < DAY_MS
  {
    RemainingBounds(now, hour, minute);
  }

  /** The one-day rollover is applied exactly when today's candidate is
      strictly before now, and the result is always congruent, modulo a day,
      to the candidate minus now. */
  lemma RolloverExactlyWhenPast(now: int, hour: int, minute: int)
    ensures RemainingMs(now, hour, minute) == EndOfMinute(hour, minute) - now + DAY_MS
            <==> EndOfMinute(hour, minute) < now
    ensures RemainingMs(now, hour, minute) == EndOfMinute(hour, minute) - now
            <==> EndOfMinute(hour, minute) >= now
    ensures (RemainingMs(now, hour, minute) - (EndOfMinute(hour, minute) - now)) % DAY_MS == 0
  {
  }

  /** For a valid time the countdown is the distance from now to the end of
      the target minute taken modulo one day. */
  lemma {:induction false} RemainingIsModularDistance(now: int, hour: int, minute: int)
    requires InDay(now) && ValidTime(hour, minute)
    ensures RemainingMs(now, hour, minute) == (EndOfMinute(hour, minute) - now) % DAY_MS
  {
    var d := EndOfMinute(hour, minute) - now;
    if d < 0 {
      ModOfShifted(d, d + DAY_MS);
    } else {
      ModOfShifted(d, d);
    }
  }

  /** r is the remainder of d modulo a day when it is in [0, DAY_MS) and
      differs from d by 0 or one day. */
  lemma ModOfShifted(d: int, r: int)
    requires 0 <= r < DAY_MS
    requires r == d || r == d + DAY_MS
    ensures d % DAY_MS == r
  {
  }

  /** What a clock shows (as milliseconds since its midnight) at an instant
      counted from today's midnight. */
  function ClockReading(t: int): int {
    t % DAY_MS
  }

  /** The countdown reaches the next instant whose clock reads
      hour:minute:59.999, and no earlier instant reads so. */
  lemma {:induction false} RemainingIsNextOccurrence(now: int, hour: int, minute: int)
    requires InDay(now) && ValidTime(hour, minute)
    ensures ClockReading(now + RemainingMs(now, hour, minute)) == EndOfMinute(hour, minute)
    ensures forall t :: now <= t < now + RemainingMs(now, hour, minute) ==>
              ClockReading(t) != EndOfMinute(hour, minute)
  {
    var r := RemainingMs(now, hour, minute);
    var c := EndOfMinute(hour, minute);
    ValidTimeBounds(now, hour, minute);
    assert 0 <= c < DAY_MS;
    forall t | now <= t < now + r
      ensures ClockReading(t) != c
    {
      if t < DAY_MS {
        assert ClockReading(t) == t;
      } else {
        assert ClockReading(t) == t - DAY_MS;
      }
    }
    if c < now {
      assert ClockReading(now + r) == ClockReading(c + DAY_MS);
    }
  }

  /** While now lies inside the target minute, the countdown is the time
      left to the end of that minute: under 60 s, never the next day. */
  lemma {:induction false} WithinTargetMinute(now: int, hour: int, minute: int)
    requires InDay(now) && ValidTime(hour, minute)
    requires now / MINUTE_MS == hour * 60 + minute
    ensures RemainingMs(now, hour, minute) == MINUTE_MS - 1 - now % MINUTE_MS
    ensures RemainingMs(now, hour, minute) < MINUTE_MS
  {
    assert now == (hour * 60 + minute) * MINUTE_MS + now % MINUTE_MS;
  }
}
