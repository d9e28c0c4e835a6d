# Sleep tracker recommender — a Dafny model

This project models the sleep-cycle recommender and the sleep-log flow of
the `SleepTracker` React component (`client/src/components/SleepTracker.js`):

* the age table that gives recommended hours of sleep (`getSleepRangeByAge`);
* `calculateTimes`, which turns that range into whole 90-minute cycles and
  lists wake-up times (bedtime mode) or bedtimes (alarm mode) on a 12-hour
  clock;
* `parseTimeString`, which reads such a time back;
* `confirmSelection`, which recomputes the sleep duration of the selected
  time, rounds it to hundredths of an hour, refuses a missing selection or a
  non-positive or NaN duration, and appends an entry to the sleep log;
* `clearSleepData`, and the component state that the input handlers change.

Times of day are integer minutes after midnight (`MinuteOfDay`, 0..1439).
Durations are integer minutes. Logged hours are integer hundredths of an
hour, so `toFixed(2)` is exact rounding to the nearest hundredth. A whole
number of minutes is never halfway between two hundredths.

Files:

* `wrappers.dfy`: `Option` and `Result`.
* `text.dfy`: `trim`, `split` with a one-character separator, and `Number`
  on digit strings.
* `clock.dfy`: the 12-hour rendering and `parseTimeString`.
* `sleep_math.dfy`: the age table, the cycle bounds, the recommendation list
  and the loop that builds it.
* `duration.dfy`: the duration with its next-day adjustment, the rounding,
  and the confirmation checks.
* `tracker.dfy`: the component's state as a class, with one method per handler.

Main results:

* `Duration.RecommendationLogged`: confirming the k-th recommendation, with
  the inputs it was computed from, logs exactly `i × 1.5` hours, where `i`
  is its cycle count. This holds in both modes. Otherwise the confirmation
  is refused; it never logs a different number of hours.
* The refusal happens only when the sleep would end after the second
  midnight. That needs a fall-asleep time of more than nine hours
  (`Duration.RecommendationDuration`, `Duration.LongFallAsleepRejected`).
* The cycle bounds do not keep durations inside the age's range. An adult
  (7–9 h) is offered 6 h (`Duration.ShortestAdultRecommendation`).
* The lower bound for ages 1–2 is 11 hours (line 32 of `SleepTracker.js`).
* Switching the mode empties the recommendations and keeps the selection
  (line 196, `Tracker.SleepTracker.SetMode`).

## Model

| member | source | states |
|---|---|---|
| `SleepMath.SleepRangeByAge` | client/src/components/SleepTracker.js:31-37 | every range has min < max, lies within 7..14 hours, and every age below 1 or above 18 gets the adult range [7, 9] |
| `SleepMath.SleepRangeTable` | client/src/components/SleepTracker.js:31-37 | for whole ages: [11,14] for 1–2, [10,13] for 3–5, [9,12] for 6–12, [8,10] for 13–18, [7,9] for every other age |
| `SleepMath.SleepNeedNeverGrows` | client/src/components/SleepTracker.js:31-37 | for whole ages from 1 on, neither end of the range increases with age |
| `SleepMath.FractionalAgeGetsAdultRange` | client/src/components/SleepTracker.js:31-37 | every age strictly between 2 and 3, between 5 and 6, or between 12 and 13 fails all four bracket tests and gets the adult range [7, 9] |
| `SleepMath.CyclesFor` | client/src/components/SleepTracker.js:47-49 | minCycles is the floor and maxCycles the ceiling of hours·60/90: `minCycles·90 ≤ minSleep·60 < (minCycles+1)·90`, `(maxCycles−1)·90 < maxSleep·60 ≤ maxCycles·90`, and `minCycles ≤ maxCycles` |
| `SleepMath.CyclesForEveryAge` | client/src/components/SleepTracker.js:46-49 | for every age, 3 or 4 cycle counts between 4 and 10 are tried, so every offset is less than a day |
| `SleepMath.ComputeTimes` | client/src/components/SleepTracker.js:51-85 | the two counting loops (up from minCycles in bedtime mode, down from maxCycles in alarm mode) build exactly the recommendation list `Recommend` |
| `SleepMath.CandidateMinute` | client/src/components/SleepTracker.js:55-76 | taking the offset off the candidate gives back the anchor on the 24-hour dial: wake-up time − fall-asleep time − i·90 is the bedtime in bedtime mode, bedtime + i·90 + fall-asleep time is the alarm in alarm mode (`Duration.CandidateElapsed` gives the duration) |
| `SleepMath.Recommend` | client/src/components/SleepTracker.js:51-85 | the list has maxCycles − minCycles + 1 entries, 3 or 4 for every age (`ComputeTimes` builds it, `RecommendationAt` gives each entry) |
| `SleepMath.RecommendationAt` | client/src/components/SleepTracker.js:55-84 | every entry, the first included, renders the candidate time for its cycle count `i`, and `minCycles ≤ i ≤ maxCycles`; the first entry is `minCycles` cycles in bedtime mode and `maxCycles` cycles in alarm mode |
| `SleepMath.RecommendationOrder` | client/src/components/SleepTracker.js:58-72 | the cycle count strictly increases along the list in bedtime mode and strictly decreases in alarm mode |
| `SleepMath.RecommendationsDistinct` | client/src/components/SleepTracker.js:58-84 | no two recommendations are the same string, so the radio button's selected value names one recommendation |
| `Text.TrimStart` | client/src/components/SleepTracker.js:100 | removes exactly the longest white-space prefix |
| `Text.TrimEnd` | client/src/components/SleepTracker.js:100 | removes exactly the longest white-space suffix |
| `Text.Trim` | client/src/components/SleepTracker.js:100 | the result is no longer than the input and neither starts nor ends with white space |
| `Text.TrimSlice` | client/src/components/SleepTracker.js:100 | `trim` returns a contiguous slice of the string, and everything before and after that slice is white space |
| `Text.Split` | client/src/components/SleepTracker.js:100-101 | `split` yields at least one part and no part contains the separator |
| `Text.JoinSplit` | client/src/components/SleepTracker.js:100-101 | joining the parts of a split with the separator gives back the string |
| `Text.SplitJoin` | client/src/components/SleepTracker.js:100-101 | splitting a join of separator-free parts gives back the parts |
| `Text.SplitWithout` | client/src/components/SleepTracker.js:100-101 | a string without the separator splits into itself alone |
| `Text.ToNumber` | client/src/components/SleepTracker.js:101 | `Number` gives a number exactly when the trimmed string is all digits, and 0 for a blank string (`ToNumberTrimmed` gives the value) |
| `Text.ToNumberTrimmed` | client/src/components/SleepTracker.js:101 | decimal digits with white space around them read as the value of the digits, so `Number(" 7")` is 7 |
| `Text.ToNumberDigits` | client/src/components/SleepTracker.js:101 | a string of decimal digits reads as its decimal value |
| `Text.TwoDigitsRoundTrip` | client/src/components/SleepTracker.js:62-66 | `Number` reads a two-digit rendering back as the number rendered |
| `Clock.Format12` | client/src/components/SleepTracker.js:61-67 | the rendering has the fixed shape "hh:mm AM" / "hh:mm PM": eight characters, ':' third, a space sixth, 'M' last, and 'A' exactly for times before noon (`ParseFormat` reads it back) |
| `Clock.Format12Dial` | client/src/components/SleepTracker.js:61-67 | the hour field is the 12-hour dial hour 01–12 (midnight and noon show as 12, so midnight is "12:00 AM") and the minute field is the minute of the hour |
| `Clock.Meridiem` | client/src/components/SleepTracker.js:102-103 | the hour keeps its place on the 12-hour dial; "PM" gives an hour of 12 or more, "AM" turns an hour up to 12 into a morning hour below 12, and any other modifier leaves the hour as typed |
| `Clock.HoursAndMinutes` | client/src/components/SleepTracker.js:101 | a time without a colon has no minute, which is NaN |
| `Clock.ParseTime` | client/src/components/SleepTracker.js:99-105 | the empty string is NaN (`ParseShape` gives the value of every "hh:mm modifier" string, `ParseFormat` the round trip) |
| `Clock.ParseShape` | client/src/components/SleepTracker.js:99-105 | "hh:mm modifier" with digit fields parses to hour `Meridiem(hh, modifier)` and minute `mm` |
| `Clock.ParseTwelveHour` | client/src/components/SleepTracker.js:99-105 | "12 AM" gives hour 0, "12 PM" gives hour 12, any other PM hour gains 12, any other AM hour is kept, and the minute is unchanged |
| `Clock.ParseFormat` | client/src/components/SleepTracker.js:61-67 | parsing the 12-hour rendering of any time of day gives back its 24-hour hour and minute |
| `Clock.FormatInjective` | client/src/components/SleepTracker.js:61-67 | distinct times of day have distinct renderings |
| `Duration.NextDayWrap` | client/src/components/SleepTracker.js:115-134 | the adjusted difference differs from end − start by whole days; it is positive exactly when the end is less than a day before the start (otherwise the confirmation is refused), at most a day exactly when the end is at most a day after the start, and exactly end − start when the end is within the following day (`WrapOfCycles`) |
| `Duration.Elapsed` | client/src/components/SleepTracker.js:109-135 | the duration carries the start of sleep (bedtime + fall-asleep time, or selected bedtime + fall-asleep time) onto the time of day it ends at (the selected wake-up time, or the alarm) |
| `Duration.SleepMinutes` | client/src/components/SleepTracker.js:107-135 | NaN exactly when the anchor time is empty or the selection does not parse; otherwise the duration ends on the right time of day (`SleepMinutesOfRendering`) |
| `Duration.RoundedHundredths` | client/src/components/SleepTracker.js:137 | the result is the nearest hundredth of an hour (`|3h − 5·minutes| ≤ 1`); it is positive exactly when the duration is; minutes divisible by 3 round exactly |
| `Duration.RoundCycles` | client/src/components/SleepTracker.js:121-137 | `i` whole cycles round to exactly `i × 1.5` hours |
| `Duration.LoggedHundredths` | client/src/components/SleepTracker.js:93-141 | an entry is logged if and only if there is a selection and its duration is a positive number; a logged value is positive and is the rounded duration; no selection is refused as such, and every other refusal is an invalid duration |
| `Duration.WrapOfCycles` | client/src/components/SleepTracker.js:117-121 | with the next-day adjustment, an end time `d` minutes after `start` (0 < d < 1440), known only by its time of day, gives back `d` when it falls before the second midnight and a negative value otherwise |
| `Duration.SleepMinutesOfRendering` | client/src/components/SleepTracker.js:109-135 | the duration recomputed from a rendered time of day is the duration for that time |
| `Duration.CandidateElapsed` | client/src/components/SleepTracker.js:109-135 | in both modes, the duration recomputed for the candidate of `i` cycles is `i·90` minutes, or negative when the sleep would end after the second midnight |
| `Duration.RecommendationDuration` | client/src/components/SleepTracker.js:109-135 | for the k-th recommendation and its own inputs, the duration is a number: `i·90` minutes when the sleep ends before the second midnight, negative otherwise, and always `i·90` when the fall-asleep time is at most 540 minutes |
| `Duration.RecommendationLogged` | client/src/components/SleepTracker.js:109-141 | confirming the k-th recommendation logs exactly `i × 1.5` hours or is refused as an invalid duration; with a fall-asleep time of at most 540 minutes it always logs `i × 1.5` hours |
| `Duration.ShortestAdultRecommendation` | client/src/components/SleepTracker.js:46-49 | the duration is not guaranteed to lie in the age's range: the first wake-up time for an adult logs 6 hours, below the 7-hour minimum |
| `Duration.LongFallAsleepRejected` | client/src/components/SleepTracker.js:109-141 | bedtime 11:50 PM with 1000 minutes to fall asleep lists "01:30 AM" (6 cycles), and confirming it is refused |
| `Tracker.SleepTracker.constructor` | client/src/components/SleepTracker.js:14-21 | the initial state: bedtime mode, empty times and age, 15 minutes to fall asleep, no recommendations, no selection, empty log |
| `Tracker.SleepTracker.SetAge` | client/src/components/SleepTracker.js:193 | stores the age and changes nothing else |
| `Tracker.SleepTracker.SetMode` | client/src/components/SleepTracker.js:196 | stores the mode and empties the recommendations; the selection is kept |
| `Tracker.SleepTracker.SetBedtime` | client/src/components/SleepTracker.js:205 | stores the bedtime and changes nothing else |
| `Tracker.SleepTracker.SetAlarmTime` | client/src/components/SleepTracker.js:210 | stores the alarm time and changes nothing else |
| `Tracker.SleepTracker.SetFallAsleepTime` | client/src/components/SleepTracker.js:215 | stores the typed number when positive, otherwise 0 (also for NaN) |
| `Tracker.SleepTracker.Select` | client/src/components/SleepTracker.js:227 | the selection becomes the clicked recommendation |
| `Tracker.SleepTracker.CalculateTimes` | client/src/components/SleepTracker.js:40-89 | with no usable age nothing changes; otherwise the recommendations are replaced by the list for the current inputs and the selection is reset to empty |
| `Tracker.SleepTracker.ConfirmSelection` | client/src/components/SleepTracker.js:92-163 | a refused confirmation or a failed save leaves the log unchanged; a successful one appends exactly one entry {date, hours, selected time, mode} after the earlier entries, which are unchanged; every logged entry has positive hours |
| `Tracker.SleepTracker.ClearSleepData` | client/src/components/SleepTracker.js:166-177 | once the backend confirms, the log is empty; otherwise it is unchanged |

## Left out

- Tracker.SleepTracker.CalculateTimes: requires an anchor time for the current mode when the age is usable. The code would instead list "Invalid Date" strings, built by `Date` from an empty time input. Confirming an empty anchor is modelled: it gives NaN and is refused.
- Requests to the backend and their answers. The answers (`response.ok` when saving or deleting) are the `saved` and `deleted` parameters. Loading the stored log on mount (`useEffect`) is not modelled, so the log starts empty.
- `alert` messages are not modelled. `ConfirmSelection` returns an outcome instead.
- Locale behaviour. `toLocaleTimeString` is taken to produce the en-US form "hh:mm AM" with an ASCII space. `toLocaleDateString` is the `date` parameter, treated as an opaque string.
- JavaScript `Date` and floating point. Times are whole minutes on 1 January with no daylight-saving change. Hours are exact hundredths.
- Converting typed text to numbers. The age is already a number or absent, the time inputs are already minutes, and the fall-asleep input is already a `parseInt` result or NaN.
- Text.ToNumber: reads only white space around decimal digits. Signs, decimal points, exponents, hexadecimal and `Infinity` all give NaN here. Strings produced by the formatter never contain them.
- The stale `sleepLog` closure after the `await` in `confirmSelection`. A log changed while a save is in flight is not modelled (concurrency).
- The confirm button is rendered only while recommendations are shown. `ConfirmSelection` does not require this: it handles any state.
- JSX rendering, the chart, `App.js`, the tips components and `server.js`. These are presentation, or routes that pass data straight to the database. User accounts, sessions, per-user ownership, and updating or deleting a single entry appear in no source file here and are not part of this model.
- A sleep duration inside the age's recommended range is not claimed, because the code does not guarantee it (`Duration.ShortestAdultRecommendation`).
