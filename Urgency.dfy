/**
  The per-entry countdown, the urgency tier and the hours/minutes shown for
  it, from src/App.tsx (timeUntilGenerator and GeneratorView).

  Countdowns are integer milliseconds; the source divides by 1000 and
  compares seconds, and every threshold scales exactly (900 s is 900 000 ms).
 */
module Urgency {
  import opened WallClock
  import opened Text
  import opened Data

  /** Math.min of two countdowns. */
  function Min(a: int, b: int): (r: int)
    ensures r <= a && r <= b
    ensures r == a || r == b
  {
    if a <= b then a else b
  }

  /** The fields timeUntilGenerator reads from a generator: clock,
      localHours and localMinutes (the Generator type of src/data.ts does not
      declare them; it carries clockTimes instead). */
  datatype ClockSpec = ClockSpec(clock: string, localHours: int, localMinutes: int)

  /** timeUntilGenerator as written: on a "12" clock the sooner of h:mm and
      (h+12):mm, otherwise h:mm alone. For h >= 12 the second hour is past 23
      and lands on the next day, as Date.setHours does. */
  function TimeUntilClockSpec(now: int, g: ClockSpec): int {
    if g.clock == "12" then
      Min(RemainingMs(now, g.localHours, g.localMinutes), RemainingMs(now, g.localHours + 12, g.localMinutes))
    else
      RemainingMs(now, g.localHours, g.localMinutes)
  }

  /** Countdown to the soonest of a list of clock times: it is the countdown
      of one of them and no other comes sooner. */
  function Countdown(now: int, times: ClockList): (r: int)
    ensures exists i :: 0 <= i < |times| && r == RemainingMs(now, times[i].hours, times[i].minutes)
    ensures forall i :: 0 <= i < |times| ==> r <= RemainingMs(now, times[i].hours, times[i].minutes)
    decreases |times|
  {
    var first := RemainingMs(now, times[0].hours, times[0].minutes);
    if |times| == 1 then first else Min(first, Countdown(now, times[1..]))
  }

  /** The countdown of a catalog entry, over the clock times it carries. */
  function TimeUntilGenerator(now: int, g: Generator): int {
    Countdown(now, g.clockTimes)
  }

  /** The "12" branch is the list minimum over [h:mm, (h+12):mm] and the
      other branch the list minimum over [h:mm]. */
  lemma ClockSpecIsListMinimum(now: int, g: ClockSpec)
    ensures g.clock == "12" ==>
              TimeUntilClockSpec(now, g) == Countdown(now, [ClockTime(g.localHours, g.localMinutes), ClockTime(g.localHours + 12, g.localMinutes)])
    ensures g.clock != "12" ==>
              TimeUntilClockSpec(now, g) == Countdown(now, [ClockTime(g.localHours, g.localMinutes)])
  {
    var both := [ClockTime(g.localHours, g.localMinutes), ClockTime(g.localHours + 12, g.localMinutes)];
    assert both[1..] == [ClockTime(g.localHours + 12, g.localMinutes)];
  }

  /** The "12" branch is no later than either of its two times, and equals
      one of them. */
  lemma TwelveHourIsMinimum(now: int, h: int, m: int)
    ensures TimeUntilClockSpec(now, ClockSpec("12", h, m)) <= RemainingMs(now, h, m)
    ensures TimeUntilClockSpec(now, ClockSpec("12", h, m)) <= RemainingMs(now, h + 12, m)
    ensures TimeUntilClockSpec(now, ClockSpec("12", h, m)) in {RemainingMs(now, h, m), RemainingMs(now, h + 12, m)}
  {
  }

  /** As written, both branches stay within a day for a valid time: the
      second hour of the "12" branch may be past 23, yet its candidate is
      never in the past, and the sooner of the two is no later than the
      valid time's own countdown. */
  lemma ClockSpecBounds(now: int, g: ClockSpec)
    requires InDay(now) && ValidTime(g.localHours, g.localMinutes)
    ensures 0 <= TimeUntilClockSpec(now, g) < DAY_MS
  {
    ValidTimeBounds(now, g.localHours, g.localMinutes);
  }

  /** A generator's clock times and the two-branch reading agree: a
      twice-daily list gives the "12" branch on its first time, a single time
      gives the other branch. */
  lemma ClockTimesAgreeWithClockSpec(now: int, times: ClockList, clock: string)
    ensures TwiceDaily(times) ==>
              Countdown(now, times) == TimeUntilClockSpec(now, ClockSpec("12", times[0].hours, times[0].minutes))
    ensures |times| == 1 && clock != "12" ==>
              Countdown(now, times) == TimeUntilClockSpec(now, ClockSpec(clock, times[0].hours, times[0].minutes))
  {
    ClockSpecIsListMinimum(now, ClockSpec("12", times[0].hours, times[0].minutes));
    ClockSpecIsListMinimum(now, ClockSpec(clock, times[0].hours, times[0].minutes));
    if TwiceDaily(times) {
      assert times == [ClockTime(times[0].hours, times[0].minutes), ClockTime(times[0].hours + 12, times[0].minutes)];
    }
    if |times| == 1 {
      assert times == [ClockTime(times[0].hours, times[0].minutes)];
    }
  }

  /** The "12" branch as written, for an hour written in the afternoon: at
      01:00 a "12" clock at 14:55 counts down to today's 14:55 (13 h 55 m
      59.999 s), because 14 + 12 lands on tomorrow's 02:55 and today's 02:55
      is never tried. */
  lemma TwelveHourAfterNoonMissesMorning()
    ensures TimeUntilClockSpec(HOUR_MS, ClockSpec("12", 14, 55)) == 13 * HOUR_MS + 55 * MINUTE_MS + 59999
    ensures TimeUntilTwiceDaily(HOUR_MS, 14, 55) == 1 * HOUR_MS + 55 * MINUTE_MS + 59999
  {
    assert [ClockTime(2, 55), ClockTime(14, 55)][1..] == [ClockTime(14, 55)];
  }

  /** A twice-daily countdown that tries both halves of the day, whichever
      half the hour is written in. */
  function TimeUntilTwiceDaily(now: int, hour: int, minute: int): int {
    Countdown(now, [ClockTime(hour % 12, minute), ClockTime(hour % 12 + 12, minute)])
  }

  /** The twice-daily countdown is the sooner of hour:minute and the same
      minute twelve hours away on the 24-hour clock, and stays within a day. */
  lemma {:induction false} TwiceDailyIsSoonerOfBoth(now: int, hour: int, minute: int)
    requires InDay(now) && ValidTime(hour, minute)
    ensures 0 <= TimeUntilTwiceDaily(now, hour, minute) < DAY_MS
    ensures TimeUntilTwiceDaily(now, hour, minute) <= RemainingMs(now, hour, minute)
    ensures TimeUntilTwiceDaily(now, hour, minute) <= RemainingMs(now, (hour + 12) % 24, minute)
    ensures TimeUntilTwiceDaily(now, hour, minute) == RemainingMs(now, hour, minute)
            || TimeUntilTwiceDaily(now, hour, minute) == RemainingMs(now, (hour + 12) % 24, minute)
  {
    if hour < 12 {
      assert hour % 12 == hour && (hour + 12) % 24 == hour + 12;
      CountdownOfPair(now, ClockTime(hour, minute), ClockTime(hour + 12, minute));
      ValidTimeBounds(now, hour, minute);
      ValidTimeBounds(now, hour + 12, minute);
    } else {
      assert hour % 12 == hour - 12 && (hour + 12) % 24 == hour - 12;
      CountdownOfPair(now, ClockTime(hour - 12, minute), ClockTime(hour, minute));
      ValidTimeBounds(now, hour - 12, minute);
      ValidTimeBounds(now, hour, minute);
    }
  }

  /** The countdown over two clock times is the sooner of the two. */
  lemma CountdownOfPair(now: int, a: ClockTime, b: ClockTime)
    ensures Countdown(now, [a, b]) == Min(RemainingMs(now, a.hours, a.minutes), RemainingMs(now, b.hours, b.minutes))
  {
    assert [a, b][1..] == [b];
  }

  /** For a morning hour the "12" branch as written already is the
      twice-daily countdown. */
  lemma TwelveHourBeforeNoonIsTwiceDaily(now: int, hour: int, minute: int)
    requires 0 <= hour < 12
    ensures TimeUntilClockSpec(now, ClockSpec("12", hour, minute)) == TimeUntilTwiceDaily(now, hour, minute)
  {
    ClockSpecIsListMinimum(now, ClockSpec("12", hour, minute));
    assert hour % 12 == hour;
  }

  /** Every twice-daily catalog entry lists its morning time first, so its
      countdown is the twice-daily countdown of that time. */
  lemma CatalogTwiceDailyCountdown(now: int, i: int)
    requires 0 <= i < |GENERATORS| && TwiceDaily(GENERATORS[i].clockTimes)
    ensures var first := GENERATORS[i].clockTimes[0];
            TimeUntilGenerator(now, GENERATORS[i]) == TimeUntilTwiceDaily(now, first.hours, first.minutes)
  {
    var times := GENERATORS[i].clockTimes;
    assert times[0].hours < 12;
    ClockTimesAgreeWithClockSpec(now, times, "12");
    TwelveHourBeforeNoonIsTwiceDaily(now, times[0].hours, times[0].minutes);
  }

  predicate AllValid(times: seq<ClockTime>) {
    forall i :: 0 <= i < |times| ==> ValidClockTime(times[i])
  }

  /** For valid clock times the countdown never goes negative and stays
      below one day. */
  lemma CountdownBounds(now: int, times: ClockList)
    requires InDay(now) && AllValid(times)
    ensures 0 <= Countdown(now, times) < DAY_MS
  {
    var i :| 0 <= i < |times| && Countdown(now, times) == RemainingMs(now, times[i].hours, times[i].minutes);
    ValidTimeBounds(now, times[i].hours, times[i].minutes);
  }

  /** The urgency of an entry, as its card shows it. */
  datatype Tier = Now | Soon | Later

  /** 15 minutes. */
  const SOON_WINDOW_MS: int := 15 * 60 * SECOND_MS

  /** The tier ternary of GeneratorView. */
  function TierOf(remaining: int): Tier {
    if remaining < 0 then Now else if remaining < SOON_WINDOW_MS then Soon else Later
  }

  /** The three tiers split the countdowns exactly at 0 and 900 s. */
  lemma TierThresholds(remaining: int)
    ensures TierOf(remaining) == Now <==> remaining < 0
    ensures TierOf(remaining) == Soon <==> 0 <= remaining < 900000
    ensures TierOf(remaining) == Later <==> 900000 <= remaining
  {
  }

  /** The boundaries: 899.999 s is "soon", 900 s is "later". */
  lemma TierBoundaries()
    ensures TierOf(-1) == Now && TierOf(0) == Soon
    ensures TierOf(899999) == Soon && TierOf(900000) == Later
  {
  }

  /** A generator with valid clock times is never in the "now" tier: the
      rollover keeps every countdown non-negative. */
  lemma ValidNeverNow(now: int, times: ClockList)
    requires InDay(now) && AllValid(times)
    ensures TierOf(Countdown(now, times)) in {Soon, Later}
  {
    CountdownBounds(now, times);
  }

  /** No catalog entry is ever in the "now" tier. */
  lemma CatalogNeverNow(now: int)
    requires InDay(now)
    ensures forall g :: g in GENERATORS ==> TierOf(TimeUntilGenerator(now, g)) != Now
  {
    CatalogTimesValid();
    forall g | g in GENERATORS
      ensures TierOf(TimeUntilGenerator(now, g)) != Now
    {
      ValidNeverNow(now, g.clockTimes);
    }
  }

  /** JavaScript's %: a remainder of a by d that is smaller than d in
      magnitude and takes the sign of the dividend; for a >= 0 it is the
      Euclidean remainder. */
  function TruncRem(a: int, d: int): (r: int)
    requires d > 0
    ensures -d < r < d
    ensures a >= 0 ==> r == a % d
    ensures a < 0 ==> r <= 0
    ensures (a - r) % d == 0
  {
    if a >= 0 then
      MultipleOfDivisor(a / d, d);
      assert a - a % d == (a / d) * d;
      a % d
    else
      MultipleOfDivisor(-((-a) / d), d);
      assert a + (-a) % d == -((-a) / d) * d;
      -((-a) % d)
  }

  lemma MultipleOfDivisor(k: int, d: int)
    requires d > 0
    ensures (k * d) % d == 0
  {
    var q, r := (k * d) / d, (k * d) % d;
    assert (k - q) * d == r by {
      assert k * d == q * d + r;
    }
    if k - q >= 1 {
      AtLeastOnce(k - q, d);
    } else if k - q <= -1 {
      AtLeastOnce(q - k, d);
    }
  }

  /** A positive multiple of d is at least d. */
  lemma AtLeastOnce(m: int, d: int)
    requires m >= 1 && d > 0
    ensures m * d >= d
  {
    assert m * d == (m - 1) * d + d;
  }

  /** Math.floor(timeUntil / 3600). */
  function DisplayHours(remaining: int): int {
    remaining / HOUR_MS
  }

  /** Math.floor((timeUntil % 3600) / 60). */
  function DisplayMinutes(remaining: int): int {
    TruncRem(remaining, HOUR_MS) / MINUTE_MS
  }

  /** For a non-negative countdown the hours and minutes shown are its
      whole hours and the whole minutes left over: they account for all of it
      but the seconds, the minutes are at most 59 and, below a day, the hours
      at most 23. */
  lemma BreakdownBounds(remaining: int)
    requires remaining >= 0
    ensures DisplayHours(remaining) * HOUR_MS + DisplayMinutes(remaining) * MINUTE_MS <= remaining
    ensures remaining < DisplayHours(remaining) * HOUR_MS + DisplayMinutes(remaining) * MINUTE_MS + MINUTE_MS
    ensures 0 <= DisplayMinutes(remaining) <= 59
    ensures 0 <= DisplayHours(remaining)
    ensures remaining < DAY_MS ==> DisplayHours(remaining) <= 23
  {
    var rest := remaining % HOUR_MS;
    assert remaining == DisplayHours(remaining) * HOUR_MS + rest;
    assert rest == DisplayMinutes(remaining) * MINUTE_MS + rest % MINUTE_MS;
  }

  /** "(HHh" and "MMm)" of the card: both fields padded to two digits. */
  function CountdownText(remaining: int): string {
    PadTwo(DisplayHours(remaining)) + "h" + PadTwo(DisplayMinutes(remaining)) + "m"
  }

  /** For a countdown below a day the text is six characters, HHhMMm, and
      reading its digits back gives the whole minutes of the countdown. */
  lemma CountdownTextDenotes(remaining: int)
    requires 0 <= remaining < DAY_MS
    ensures |CountdownText(remaining)| == 6
    ensures CountdownText(remaining)[2] == 'h' && CountdownText(remaining)[5] == 'm'
    ensures AllDigits(CountdownText(remaining)[..2]) && AllDigits(CountdownText(remaining)[3..5])
    ensures DecimalValue(CountdownText(remaining)[..2]) == DisplayHours(remaining)
    ensures DecimalValue(CountdownText(remaining)[3..5]) == DisplayMinutes(remaining)
    ensures var shown := DecimalValue(CountdownText(remaining)[..2]) * 60 + DecimalValue(CountdownText(remaining)[3..5]);
            shown * MINUTE_MS <= remaining < shown * MINUTE_MS + MINUTE_MS
  {
    BreakdownBounds(remaining);
    var h, m := DisplayHours(remaining), DisplayMinutes(remaining);
    PadTwoDenotes(h);
    PadTwoDenotes(m);
    FieldsOfText(PadTwo(h), PadTwo(m));
  }

  lemma FieldsOfText(hh: string, mm: string)
    requires |hh| == 2 && |mm| == 2
    ensures var text := hh + "h" + mm + "m";
            |text| == 6 && text[..2] == hh && text[2] == 'h' && text[3..5] == mm && text[5] == 'm'
  {
  }

  /** The time written on the card: the hour as String gives it, a colon,
      and the minutes padded to two digits. */
  function ClockLabel(hours: int, minutes: int): string {
    IntToString(hours) + ":" + PadTwo(minutes)
  }

  /** The card's time agrees with the catalog's HH:MM label from 10:00 on;
      before 10 it lacks the label's leading zero (2:55 against "02:55"). */
  lemma ClockLabelAgainstLabel(hours: int, minutes: int)
    requires ValidTime(hours, minutes)
    ensures 10 <= hours ==> ClockLabel(hours, minutes) == Label(ClockTime(hours, minutes))
    ensures hours < 10 ==> "0" + ClockLabel(hours, minutes) == Label(ClockTime(hours, minutes))
  {
    PadTwoOfDigits(hours);
    var pm := PadTwo(minutes);
    if hours < 10 {
      assert "0" + (IntToString(hours) + ":" + pm) == ("0" + IntToString(hours)) + ":" + pm;
    }
  }

  /** Just below zero (the "now" tier) both fields read negative: floor
      takes the hours to -1 and the sign of % carries into the minutes. */
  lemma BreakdownBelowZero(remaining: int)
    requires -HOUR_MS < remaining < 0
    ensures DisplayHours(remaining) == -1
    ensures -60 <= DisplayMinutes(remaining) <= -1
  {
  }
}
