/**
 * The state of the SleepTracker component and the handlers that change it:
 * the input setters, `calculateTimes`, selecting a recommendation,
 * `confirmSelection` and `clearSleepData`. What the backend answers to a
 * request is a parameter of the handler that sends it.
 */
module Tracker {
  import opened Wrappers
  import opened Clock
  import opened SleepMath
  import opened Duration

  /** One logged night; `hundredths` is the logged number of hours times 100. */
  datatype LogEntry = LogEntry(date: string, hundredths: int, selectedTime: string, mode: Mode)

  /** What `confirmSelection` reports. */
  datatype ConfirmOutcome = Logged(entry: LogEntry) | Refused(error: ConfirmError) | NotSaved

  class SleepTracker {
    var mode: Mode
    var bedtime: TimeInput
    var alarmTime: TimeInput
    /** Minutes it takes to fall asleep; the input handler never stores a negative number. */
    var fallAsleepTime: nat
    /** The age typed by the user; `None` when the field is empty or not a number. */
    var age: Option<real>
    var recommendations: seq<string>
    var selectedRecommendation: string
    var sleepLog: seq<LogEntry>

    /**
     * Every logged entry has a positive number of hours, and while
     * recommendations are shown a non-empty selection is one of them.
     */
    ghost predicate Valid()
      reads this
    {
      (forall k :: 0 <= k < |sleepLog| ==> sleepLog[k].hundredths > 0)
      && (recommendations == [] || selectedRecommendation == "" || selectedRecommendation in recommendations)
    }

    /** The time the current mode computes from: the bedtime or the alarm time. */
    function Anchor(): TimeInput
      reads this
    {
      if mode == Bedtime then bedtime else alarmTime
    }

    /** The initial state of the component's hooks; loading the stored log is not part of this model. */
    constructor ()
      ensures Valid()
      ensures mode == Bedtime && bedtime == Empty && alarmTime == Empty && fallAsleepTime == 15
      ensures age == None && recommendations == [] && selectedRecommendation == "" && sleepLog == []
    {
      mode := Bedtime;
      bedtime := Empty;
      alarmTime := Empty;
      fallAsleepTime := 15;
      age := None;
      recommendations := [];
      selectedRecommendation := "";
      sleepLog := [];
    }

    method SetAge(input: Option<real>)
      requires Valid()
      modifies this`age
      ensures Valid() && age == input
    {
      age := input;
    }

    method SetBedtime(input: TimeInput)
      requires Valid()
      modifies this`bedtime
      ensures Valid() && bedtime == input
    {
      bedtime := input;
    }

    method SetAlarmTime(input: TimeInput)
      requires Valid()
      modifies this`alarmTime
      ensures Valid() && alarmTime == input
    {
      alarmTime := input;
    }

    /** `Math.max(0, parseInt(value) || 0)`; `None` is a value `parseInt` reads as NaN. */
    method SetFallAsleepTime(input: Option<int>)
      requires Valid()
      modifies this`fallAsleepTime
      ensures Valid()
      ensures fallAsleepTime == if input.Some? && input.value > 0 then input.value else 0
    {
      fallAsleepTime := if input.Some? && input.value > 0 then input.value else 0;
    }

    /** Changing the mode hides the recommendations; the selection is kept. */
    method SetMode(m: Mode)
      requires Valid()
      modifies this`mode, this`recommendations
      ensures Valid() && mode == m && recommendations == []
    {
      mode := m;
      recommendations := [];
    }

    /** Picking one of the shown recommendations with its radio button. */
    method Select(time: string)
      requires Valid() && time in recommendations
      modifies this`selectedRecommendation
      ensures Valid() && selectedRecommendation == time
    {
      selectedRecommendation := time;
    }

    /**
     * `calculateTimes`: with no usable age nothing changes; otherwise the
     * recommendations are replaced by the list for the current mode and
     * inputs, and the selection is cleared.
     */
    method CalculateTimes()
      requires Valid()
      requires age.Some? ==> Anchor().At?
      modifies this`recommendations, this`selectedRecommendation
      ensures Valid()
      ensures age.None? ==> recommendations == old(recommendations)
                            && selectedRecommendation == old(selectedRecommendation)
      ensures age.Some? ==> recommendations == Recommend(mode, Anchor().minute, fallAsleepTime, age.value)
                            && selectedRecommendation == ""
    {
      if age.None? {
        return;
      }
      var times := ComputeTimes(mode, Anchor().minute, fallAsleepTime, age.value);
      recommendations := times;
      selectedRecommendation := "";
    }

    /**
     * `confirmSelection`: refuses without a selection or with a duration
     * that is NaN or not positive; otherwise sends the entry, and appends it
     * to the log, after every earlier entry, only when the backend accepts it.
     */
    method ConfirmSelection(date: string, saved: bool) returns (outcome: ConfirmOutcome)
      requires Valid()
      modifies this`sleepLog
      ensures Valid()
      ensures match old(LoggedHundredths(mode, Anchor(), fallAsleepTime, selectedRecommendation))
        case Failure(e) => outcome == Refused(e) && sleepLog == old(sleepLog)
        case Success(h) =>
          var entry := LogEntry(date, h, selectedRecommendation, mode);
          if saved then outcome == Logged(entry) && sleepLog == old(sleepLog) + [entry]
          else outcome == NotSaved && sleepLog == old(sleepLog)
    {
      var r := LoggedHundredths(mode, Anchor(), fallAsleepTime, selectedRecommendation);
      if r.Failure? {
        return Refused(r.error);
      }
      var entry := LogEntry(date, r.value, selectedRecommendation, mode);
      if saved {
        assert entry.hundredths > 0;
        sleepLog := sleepLog + [entry];
        outcome := Logged(entry);
      } else {
        outcome := NotSaved;
      }
    }

    /** `clearSleepData`: the log is emptied once the backend confirms the deletion. */
    method ClearSleepData(deleted: bool)
      requires Valid()
      modifies this`sleepLog
      ensures Valid()
      ensures sleepLog == if deleted then [] else old(sleepLog)
    {
      if deleted {
        sleepLog := [];
      }
    }
  }
}
