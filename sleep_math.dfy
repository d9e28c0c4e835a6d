/**
 * The sleep-cycle recommender: the age table, the cycle bounds derived
 * from it, and the list of candidate wake-up times (bedtime mode) or
 * bedtimes (alarm mode) that `calculateTimes` builds.
 */
module SleepMath {
  import opened Clock

  /** "bedtime": suggest alarms for a bedtime; "alarm": suggest bedtimes for an alarm. */
  datatype Mode = Bedtime | Alarm

  /** Recommended hours of sleep, from `minHours` to `maxHours`. */
  datatype SleepRange = SleepRange(minHours: nat, maxHours: nat)

  /** The numbers of 90-minute cycles tried, from `minCycles` to `maxCycles`. */
  datatype CycleBounds = CycleBounds(minCycles: int, maxCycles: int)

  const SleepCycle: int := 90

  /**
   * `getSleepRangeByAge`. The age is the number typed by the user and need
   * not be whole; any age outside the four child brackets gets the adult range.
   */
  function SleepRangeByAge(age: real): (r: SleepRange)
    ensures r.minHours < r.maxHours
    ensures 7 <= r.minHours && r.maxHours <= 14
    ensures (age < 1.0 || age > 18.0) ==> r == SleepRange(7, 9)
  {
    if 1.0 <= age <= 2.0 then SleepRange(11, 14)
    else if 3.0 <= age <= 5.0 then SleepRange(10, 13)
    else if 6.0 <= age <= 12.0 then SleepRange(9, 12)
    else if 13.0 <= age <= 18.0 then SleepRange(8, 10)
    else SleepRange(7, 9)
  }

  /** The table, bracket by bracket, for whole ages. */
  lemma SleepRangeTable(age: int)
    ensures 1 <= age <= 2 ==> SleepRangeByAge(age as real) == SleepRange(11, 14)
    ensures 3 <= age <= 5 ==> SleepRangeByAge(age as real) == SleepRange(10, 13)
    ensures 6 <= age <= 12 ==> SleepRangeByAge(age as real) == SleepRange(9, 12)
    ensures 13 <= age <= 18 ==> SleepRangeByAge(age as real) == SleepRange(8, 10)
    ensures (age < 1 || age > 18) ==> SleepRangeByAge(age as real) == SleepRange(7, 9)
  {
  }

  /** For whole ages from 1 on, neither end of the range ever grows with age. */
  lemma SleepNeedNeverGrows(younger: int, older: int)
    requires 1 <= younger <= older
    ensures SleepRangeByAge(older as real).minHours <= SleepRangeByAge(younger as real).minHours
    ensures SleepRangeByAge(older as real).maxHours <= SleepRangeByAge(younger as real).maxHours
  {
  }

  /** A fractional age between two brackets falls through to the adult range. */
  lemma FractionalAgeGetsAdultRange(age: real)
    requires 2.0 < age < 3.0 || 5.0 < age < 6.0 || 12.0 < age < 13.0
    ensures SleepRangeByAge(age) == SleepRange(7, 9)
  {
  }

  /**
   * `Math.floor(minSleep * 60 / 90)` and `Math.ceil(maxSleep * 60 / 90)`:
   * the most whole cycles that fit in the shortest recommended sleep, and
   * the fewest that cover the longest.
   */
  function CyclesFor(r: SleepRange): (b: CycleBounds)
    ensures b.minCycles * SleepCycle <= r.minHours * 60 < (b.minCycles + 1) * SleepCycle
    ensures (b.maxCycles - 1) * SleepCycle < r.maxHours * 60 <= b.maxCycles * SleepCycle
    ensures r.minHours <= r.maxHours ==> b.minCycles <= b.maxCycles
  {
    CycleBounds(r.minHours * 60 / SleepCycle, (r.maxHours * 60 + SleepCycle - 1) / SleepCycle)
  }

  /** For every age, between three and four cycle counts from 4 to 10 are tried. */
  lemma CyclesForEveryAge(age: real)
    ensures var b := CyclesFor(SleepRangeByAge(age));
      4 <= b.minCycles && b.minCycles + 2 <= b.maxCycles <= b.minCycles + 3 && b.maxCycles <= 10
  {
  }

  /** The cycle count behind the k-th recommendation: ascending in bedtime mode, descending in alarm mode. */
  function CycleAt(mode: Mode, b: CycleBounds, k: int): int
  {
    if mode == Bedtime then b.minCycles + k else b.maxCycles - k
  }

  /**
   * The time of day of the candidate for `cycles` cycles: a wake-up time
   * `anchor + fallAsleep + cycles * 90` in bedtime mode, a bedtime
   * `anchor - cycles * 90 - fallAsleep` in alarm mode, both on a 24-hour dial.
   */
  function CandidateMinute(mode: Mode, anchor: MinuteOfDay, fallAsleep: nat, cycles: int): (r: MinuteOfDay)
    ensures mode == Bedtime ==> (r - fallAsleep - cycles * SleepCycle) % MinutesPerDay == anchor
    ensures mode == Alarm ==> (r + cycles * SleepCycle + fallAsleep) % MinutesPerDay == anchor
  {
    if mode == Bedtime then (anchor + fallAsleep + cycles * SleepCycle) % MinutesPerDay
    else (anchor - cycles * SleepCycle - fallAsleep) % MinutesPerDay
  }

  /** The list `calculateTimes` stores in `recommendations`. */
  function Recommend(mode: Mode, anchor: MinuteOfDay, fallAsleep: nat, age: real): (r: seq<string>)
    ensures var b := CyclesFor(SleepRangeByAge(age)); |r| == b.maxCycles - b.minCycles + 1
    ensures 3 <= |r| <= 4
  {
    var b := CyclesFor(SleepRangeByAge(age));
    CyclesForEveryAge(age);
    seq(b.maxCycles - b.minCycles + 1,
        k requires 0 <= k => Format12(CandidateMinute(mode, anchor, fallAsleep, CycleAt(mode, b, k))))
  }

  /**
   * The loops of `calculateTimes`: in bedtime mode the cycle count runs up
   * from `minCycles`, in alarm mode down from `maxCycles`, and each step
   * appends one rendered time.
   */
  method ComputeTimes(mode: Mode, anchor: MinuteOfDay, fallAsleep: nat, age: real) returns (times: seq<string>)
    ensures times == Recommend(mode, anchor, fallAsleep, age)
  {
    ghost var all := Recommend(mode, anchor, fallAsleep, age);
    var bounds := CyclesFor(SleepRangeByAge(age));
    times := [];
    if mode == Bedtime {
      var sleepStart := anchor + fallAsleep;
      var i := bounds.minCycles;
      while i <= bounds.maxCycles
        invariant bounds.minCycles <= i <= bounds.maxCycles + 1
        invariant |times| == i - bounds.minCycles
        invariant times == all[..|times|]
      {
        var wake := (sleepStart + i * SleepCycle) % MinutesPerDay;
        assert wake == CandidateMinute(mode, anchor, fallAsleep, CycleAt(mode, bounds, |times|));
        assert all[..|times| + 1] == all[..|times|] + [all[|times|]];
        times := times + [Format12(wake)];
        i := i + 1;
      }
      assert |times| == |all|;
    } else {
      var i := bounds.maxCycles;
      while i >= bounds.minCycles
        invariant bounds.minCycles - 1 <= i <= bounds.maxCycles
        invariant |times| == bounds.maxCycles - i
        invariant times == all[..|times|]
      {
        var bed := (anchor - i * SleepCycle - fallAsleep) % MinutesPerDay;
        assert bed == CandidateMinute(mode, anchor, fallAsleep, CycleAt(mode, bounds, |times|));
        assert all[..|times| + 1] == all[..|times|] + [all[|times|]];
        times := times + [Format12(bed)];
        i := i - 1;
      }
      assert |times| == |all|;
    }
    assert all[..|all|] == all;
  }

  /**
   * The k-th recommendation is the rendering of the candidate time for a
   * cycle count within the bounds: the first is `minCycles` cycles in
   * bedtime mode and `maxCycles` cycles in alarm mode.
   */
  lemma RecommendationAt(mode: Mode, anchor: MinuteOfDay, fallAsleep: nat, age: real, k: nat)
    requires k < |Recommend(mode, anchor, fallAsleep, age)|
    ensures var b := CyclesFor(SleepRangeByAge(age));
      Recommend(mode, anchor, fallAsleep, age)[k]
         == Format12(CandidateMinute(mode, anchor, fallAsleep, CycleAt(mode, b, k)))
      && b.minCycles <= CycleAt(mode, b, k) <= b.maxCycles
    ensures var b := CyclesFor(SleepRangeByAge(age));
      CycleAt(mode, b, 0) == if mode == Bedtime then b.minCycles else b.maxCycles
  {
  }

  /** The cycle count strictly increases along the list in bedtime mode and strictly decreases in alarm mode. */
  lemma RecommendationOrder(mode: Mode, anchor: MinuteOfDay, fallAsleep: nat, age: real, j: nat, k: nat)
    requires j < k < |Recommend(mode, anchor, fallAsleep, age)|
    ensures var b := CyclesFor(SleepRangeByAge(age));
      (mode == Bedtime ==> CycleAt(mode, b, j) < CycleAt(mode, b, k))
      && (mode == Alarm ==> CycleAt(mode, b, j) > CycleAt(mode, b, k))
  {
  }

  /** Adding less than a day to a time never lands on the same time of day. */
  lemma ShiftWithinDay(x: int, d: int)
    requires 0 < d < MinutesPerDay
    ensures (x + d) % MinutesPerDay != x % MinutesPerDay
  {
    var q, r := x / MinutesPerDay, x % MinutesPerDay;
    assert x == q * MinutesPerDay + r;
    if r + d < MinutesPerDay {
      assert x + d == q * MinutesPerDay + (r + d);
    } else {
      assert x + d == (q + 1) * MinutesPerDay + (r + d - MinutesPerDay);
    }
  }

  /** No time appears twice in the list, so a selected string names one recommendation. */
  lemma RecommendationsDistinct(mode: Mode, anchor: MinuteOfDay, fallAsleep: nat, age: real, j: nat, k: nat)
    requires j < k < |Recommend(mode, anchor, fallAsleep, age)|
    ensures Recommend(mode, anchor, fallAsleep, age)[j] != Recommend(mode, anchor, fallAsleep, age)[k]
  {
    var b := CyclesFor(SleepRangeByAge(age));
    CyclesForEveryAge(age);
    var cj, ck := CycleAt(mode, b, j), CycleAt(mode, b, k);
    if mode == Bedtime {
      var x := anchor + fallAsleep + cj * SleepCycle;
      assert anchor + fallAsleep + ck * SleepCycle == x + (ck - cj) * SleepCycle;
      ShiftWithinDay(x, (ck - cj) * SleepCycle);
    } else {
      var x := anchor - cj * SleepCycle - fallAsleep;
      assert anchor - ck * SleepCycle - fallAsleep == x + (cj - ck) * SleepCycle;
      ShiftWithinDay(x, (cj - ck) * SleepCycle);
    }
    FormatInjective(CandidateMinute(mode, anchor, fallAsleep, cj), CandidateMinute(mode, anchor, fallAsleep, ck));
  }
}
