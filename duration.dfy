/**
 * The duration arithmetic of `confirmSelection`: the sleep length between
 * the anchor time and the selected time, with the next-day adjustment, its
 * rounding to hundredths of an hour, and the checks that refuse a
 * confirmation.
 */
module Duration {
  import opened Wrappers
  import opened Clock
  import opened SleepMath

  /** Why `confirmSelection` stops before anything is sent. */
  datatype ConfirmError = NoSelection | InvalidDuration

  /**
   * Minutes from `start` to `end`, both measured from the same midnight,
   * after `end` has been moved one day later when it is not after `start`.
   */
  function NextDayWrap(start: int, end: int): (r: int)
    ensures (r - (end - start)) % MinutesPerDay == 0
    ensures 0 < r <==> start - MinutesPerDay < end
    ensures r <= MinutesPerDay <==> end <= start + MinutesPerDay
    ensures start < end <= start + MinutesPerDay ==> r == end - start
  {
    (if end <= start then end + MinutesPerDay else end) - start
  }

  /**
   * Minutes of sleep for the selected time, or `None` where the code gets
   * NaN (no anchor time, or a selection that does not parse). Bedtime mode:
   * from the bedtime plus the fall-asleep time to the selected wake-up time.
   * Alarm mode: from the selected bedtime plus the fall-asleep time to the alarm.
   */
  function SleepMinutes(mode: Mode, anchor: TimeInput, fallAsleep: nat, selected: string): (r: Option<int>)
    ensures r.None? <==> anchor.Empty? || ParseTime(selected).None?
    ensures r.Some? ==> var t := ParseTime(selected).value.MinutesFromMidnight();
      if mode == Bedtime then (anchor.minute + fallAsleep + r.value - t) % MinutesPerDay == 0
      else (t + fallAsleep + r.value - anchor.minute) % MinutesPerDay == 0
  {
    var parsed := ParseTime(selected);
    if anchor.Empty? || parsed.None? then None
    else Some(Elapsed(mode, anchor.minute, fallAsleep, parsed.value.MinutesFromMidnight()))
  }

  /** The duration for a selected time given as minutes after the anchor day's midnight. */
  function Elapsed(mode: Mode, anchor: MinuteOfDay, fallAsleep: nat, selected: int): (r: int)
    ensures mode == Bedtime ==> (anchor + fallAsleep + r - selected) % MinutesPerDay == 0
    ensures mode == Alarm ==> (selected + fallAsleep + r - anchor) % MinutesPerDay == 0
  {
    if mode == Bedtime then NextDayWrap(anchor + fallAsleep, selected)
    else NextDayWrap(selected + fallAsleep, anchor)
  }

  /** The duration for a rendered time of day is the duration for that time. */
  lemma SleepMinutesOfRendering(mode: Mode, anchor: MinuteOfDay, fallAsleep: nat, t: MinuteOfDay)
    ensures SleepMinutes(mode, At(anchor), fallAsleep, Format12(t)) == Some(Elapsed(mode, anchor, fallAsleep, t))
  {
    ParseFormat(t);
  }

  /**
   * `parseFloat(hours.toFixed(2))` in hundredths of an hour: the nearest
   * hundredth to `minutes / 60`. A whole number of minutes is never halfway
   * between two hundredths, so the nearest one is unique.
   */
  function RoundedHundredths(minutes: int): (h: int)
    ensures -1 <= 3 * h - 5 * minutes <= 1
    ensures h > 0 <==> minutes > 0
    ensures minutes % 3 == 0 ==> 3 * h == 5 * minutes
  {
    var h := (5 * minutes + 1) / 3;
    var q := minutes / 3;
    assert h == 5 * q + (if minutes % 3 == 0 then 0 else if minutes % 3 == 1 then 2 else 3) by {
      assert minutes == 3 * q + minutes % 3;
    }
    h
  }

  /**
   * The hours `confirmSelection` would log, in hundredths, or why it
   * refuses: no selection, or a duration that is NaN or not positive.
   */
  function LoggedHundredths(mode: Mode, anchor: TimeInput, fallAsleep: nat, selected: string): (r: Result<int, ConfirmError>)
    ensures r.Success? <==> selected != "" && SleepMinutes(mode, anchor, fallAsleep, selected).Some?
                            && SleepMinutes(mode, anchor, fallAsleep, selected).value > 0
    ensures r.Success? ==> (r.value > 0
      && -1 <= 3 * r.value - 5 * SleepMinutes(mode, anchor, fallAsleep, selected).value <= 1)
    ensures selected == "" ==> r == Failure(NoSelection)
    ensures r.Failure? && selected != "" ==> r.error == InvalidDuration
  {
    if selected == "" then Failure(NoSelection)
    else
      var minutes := SleepMinutes(mode, anchor, fallAsleep, selected);
      if minutes.None? then Failure(InvalidDuration)
      else
        var hundredths := RoundedHundredths(minutes.value);
        if hundredths <= 0 then Failure(InvalidDuration) else Success(hundredths)
  }

  /**
   * An end time `d` minutes (less than a day) after `start`, known only by
   * its time of day, is recovered by the next-day adjustment exactly when
   * the true end falls before the second midnight; otherwise the computed
   * duration is negative.
   */
  lemma WrapOfCycles(start: int, d: int)
    requires 0 <= start && 0 < d < MinutesPerDay
    ensures start + d < 2 * MinutesPerDay ==> NextDayWrap(start, (start + d) % MinutesPerDay) == d
    ensures start + d >= 2 * MinutesPerDay ==> NextDayWrap(start, (start + d) % MinutesPerDay) < 0
  {
    var q, end := (start + d) / MinutesPerDay, (start + d) % MinutesPerDay;
    assert start + d == q * MinutesPerDay + end;
    if q == 0 {
      assert end == start + d;
    } else if q == 1 {
      assert end == start + d - MinutesPerDay;
    } else {
      assert q * MinutesPerDay >= 2 * MinutesPerDay;
    }
  }

  /** Reducing an addend modulo a day does not change the time of day of a sum. */
  lemma ModAdd(x: int, y: int)
    ensures (x % MinutesPerDay + y) % MinutesPerDay == (x + y) % MinutesPerDay
  {
    var q := x / MinutesPerDay;
    assert x == q * MinutesPerDay + x % MinutesPerDay;
    assert x + y == (x % MinutesPerDay + y) + q * MinutesPerDay;
  }

  /** Where the sleep behind a candidate starts, in minutes after the anchor day's midnight. */
  function SleepStart(mode: Mode, anchor: MinuteOfDay, fallAsleep: nat, cycles: int): int
  {
    if mode == Bedtime then anchor + fallAsleep
    else CandidateMinute(mode, anchor, fallAsleep, cycles) + fallAsleep
  }

  /**
   * The duration recomputed for the candidate of `i` cycles is exactly
   * `i * 90` minutes unless the sleep would end after the second midnight,
   * where it comes out negative.
   */
  lemma CandidateElapsed(mode: Mode, anchor: MinuteOfDay, fallAsleep: nat, i: int)
    requires 0 < i * SleepCycle < MinutesPerDay
    ensures var e := Elapsed(mode, anchor, fallAsleep, CandidateMinute(mode, anchor, fallAsleep, i));
      (SleepStart(mode, anchor, fallAsleep, i) + i * SleepCycle < 2 * MinutesPerDay ==> e == i * SleepCycle)
      && (SleepStart(mode, anchor, fallAsleep, i) + i * SleepCycle >= 2 * MinutesPerDay ==> e < 0)
  {
    var start := SleepStart(mode, anchor, fallAsleep, i);
    if mode == Alarm {
      ModAdd(anchor - i * SleepCycle - fallAsleep, fallAsleep + i * SleepCycle);
      assert anchor == (start + i * SleepCycle) % MinutesPerDay;
    }
    WrapOfCycles(start, i * SleepCycle);
  }

  /**
   * Recomputing the duration of the k-th recommendation, with the inputs it
   * was computed from, gives exactly its cycle count times 90 minutes in
   * both modes, unless the sleep would end after the second midnight, in
   * which case the duration comes out negative. A fall-asleep time of at
   * most nine hours always gives the exact duration.
   */
  lemma RecommendationDuration(mode: Mode, anchor: MinuteOfDay, fallAsleep: nat, age: real, k: nat)
    requires k < |Recommend(mode, anchor, fallAsleep, age)|
    ensures var i := CycleAt(mode, CyclesFor(SleepRangeByAge(age)), k);
      var d := SleepMinutes(mode, At(anchor), fallAsleep, Recommend(mode, anchor, fallAsleep, age)[k]);
      d.Some?
      && (SleepStart(mode, anchor, fallAsleep, i) + i * SleepCycle < 2 * MinutesPerDay ==> d.value == i * SleepCycle)
      && (SleepStart(mode, anchor, fallAsleep, i) + i * SleepCycle >= 2 * MinutesPerDay ==> d.value < 0)
      && (fallAsleep <= 540 ==> d.value == i * SleepCycle)
  {
    var b := CyclesFor(SleepRangeByAge(age));
    var i := CycleAt(mode, b, k);
    CyclesForEveryAge(age);
    assert b.minCycles <= i <= b.maxCycles;
    var t := CandidateMinute(mode, anchor, fallAsleep, i);
    assert Recommend(mode, anchor, fallAsleep, age)[k] == Format12(t);
    SleepMinutesOfRendering(mode, anchor, fallAsleep, t);
    CandidateElapsed(mode, anchor, fallAsleep, i);
  }

  /**
   * Confirming the k-th recommendation either logs exactly its cycle count
   * times 1.5 hours or is refused as an invalid duration; it is never
   * logged with any other number of hours.
   */
  lemma RecommendationLogged(mode: Mode, anchor: MinuteOfDay, fallAsleep: nat, age: real, k: nat)
    requires k < |Recommend(mode, anchor, fallAsleep, age)|
    ensures var i := CycleAt(mode, CyclesFor(SleepRangeByAge(age)), k);
      var r := LoggedHundredths(mode, At(anchor), fallAsleep, Recommend(mode, anchor, fallAsleep, age)[k]);
      (r == Success(i * 150) || r == Failure(InvalidDuration))
      && (fallAsleep <= 540 ==> r == Success(i * 150))
  {
    var i := CycleAt(mode, CyclesFor(SleepRangeByAge(age)), k);
    var selected := Recommend(mode, anchor, fallAsleep, age)[k];
    RecommendationDuration(mode, anchor, fallAsleep, age, k);
    RecommendationLength(mode, anchor, fallAsleep, age, k);
    var d := SleepMinutes(mode, At(anchor), fallAsleep, selected).value;
    LoggedOfMinutes(mode, At(anchor), fallAsleep, selected, d);
    if d == i * SleepCycle {
      RoundCycles(i);
    }
  }

  /** `LoggedHundredths` once the duration is known. */
  lemma LoggedOfMinutes(mode: Mode, anchor: TimeInput, fallAsleep: nat, selected: string, d: int)
    requires selected != "" && SleepMinutes(mode, anchor, fallAsleep, selected) == Some(d)
    ensures LoggedHundredths(mode, anchor, fallAsleep, selected)
         == if d > 0 then Success(RoundedHundredths(d)) else Failure(InvalidDuration)
  {
  }

  /** Whole cycles round exactly: `i` cycles are `1.5 * i` hours. */
  lemma RoundCycles(i: int)
    ensures RoundedHundredths(i * SleepCycle) == i * 150
  {
    assert i * SleepCycle == 3 * (i * 30);
  }

  /** Every recommendation is an eight-character string. */
  lemma RecommendationLength(mode: Mode, anchor: MinuteOfDay, fallAsleep: nat, age: real, k: nat)
    requires k < |Recommend(mode, anchor, fallAsleep, age)|
    ensures |Recommend(mode, anchor, fallAsleep, age)[k]| == 8
  {
  }

  /**
   * The cycle bounds do not keep durations inside the age's range: an adult
   * (7 to 9 hours) is offered 6 hours as the first wake-up time.
   */
  lemma ShortestAdultRecommendation(anchor: MinuteOfDay, fallAsleep: nat)
    requires fallAsleep <= 540
    ensures LoggedHundredths(Bedtime, At(anchor), fallAsleep, Recommend(Bedtime, anchor, fallAsleep, 30.0)[0])
         == Success(600)
    ensures 600 < SleepRangeByAge(30.0).minHours * 100
  {
    var b := CyclesFor(SleepRangeByAge(30.0));
    assert SleepRangeByAge(30.0) == SleepRange(7, 9);
    assert b == CycleBounds(4, 6);
    assert CycleAt(Bedtime, b, 0) == 4;
    RecommendationLogged(Bedtime, anchor, fallAsleep, 30.0, 0);
  }

  /**
   * A fall-asleep time long enough to push the wake-up time past the second
   * midnight makes a listed recommendation impossible to confirm: bedtime
   * 11:50 PM, 1000 minutes to fall asleep, 6 cycles ("01:30 AM").
   */
  lemma LongFallAsleepRejected()
    ensures Recommend(Bedtime, 1430, 1000, 30.0)[2] == Format12(90)
    ensures LoggedHundredths(Bedtime, At(1430), 1000, Recommend(Bedtime, 1430, 1000, 30.0)[2])
         == Failure(InvalidDuration)
  {
    var b := CyclesFor(SleepRangeByAge(30.0));
    assert SleepRangeByAge(30.0) == SleepRange(7, 9);
    assert b == CycleBounds(4, 6);
    assert CycleAt(Bedtime, b, 2) == 6;
    assert CandidateMinute(Bedtime, 1430, 1000, 6) == 90;
    var selected := Recommend(Bedtime, 1430, 1000, 30.0)[2];
    assert selected == Format12(90);
    RecommendationDuration(Bedtime, 1430, 1000, 30.0, 2);
    assert SleepStart(Bedtime, 1430, 1000, 6) + 6 * SleepCycle >= 2 * MinutesPerDay;
    RecommendationLength(Bedtime, 1430, 1000, 30.0, 2);
    var d := SleepMinutes(Bedtime, At(1430), 1000, selected).value;
    LoggedOfMinutes(Bedtime, At(1430), 1000, selected, d);
  }
}
