# kiosign_screens scheduling core in Dafny

This project models the part of the kiosk signage player that decides which
content ("programs") a screen shows and when. Nothing here runs; each file is
a Dafny module whose contracts the verifier proves.

- `js.dfy`: the few JavaScript values and errors the core handles (`Js`).
  Also the subsequence relation used by the filters (`Sequences`).
- `date.dfy` (`DateUtils`): `src/utils/date.js`.
  - Instants are whole milliseconds since 1970-01-01 in UTC.
  - A moment is a small class whose setters change it in place, which is how
    `setTime` uses moment.js.
  - Includes the weekday searches `getFutureDay` and `getPastDay`.
- `program.dfy` (`Programs`): `src/services/scheduler/Program.js`.
  - Covers schedule parsing, the always-active test and the weekday/time
    search `getNextDateTime`.
  - `configureNextRun` appears twice: as a function (`ComputeNextRun`) and
    as the `Program` class method that stores its result.
  - Also program equivalence. Several dated scenarios are worked out.
- `scheduler.dfy` (`Scheduling`): `src/services/scheduler/Scheduler.js`.
  - The priority filter, the rotation helpers and the debug clock.
  - The `Scheduler` class with `schedule`, `update` and the timer callback.
- `rotater.dfy` (`Rotating`): `src/services/scheduler/Rotater.js`.
  - Specified by `Activate` and `Update`, which are functions on the rotater's
    fields; the class methods are proved equal to them.
- `events.dfy` (`Events`): `src/utils/Eventable.js`. A map from event names
  to listener lists, which `on`/`off` replace.
- `acf.dfy` (`AcfApi`): `src/utils/api-acf.js`.
  - Turns the WordPress ACF response into program definitions.
  - Includes the exact behaviour of `Number.parseInt(s, 10)` on integers.
  - Includes the first-occurrence `String.prototype.replace`.
  - `transformAcfProgram` is a function (`TransformAcfProgram`). A method
    (`TransformAcfProgramSteps`) builds the object and overwrites fields one
    by one, as the source does, and is proved equal to the function.

Inputs the core takes from its environment become parameters:
- the wall clock (`now`);
- the timers a `setTimeout` would arm: a `Timer` value or a delay field;
- the listeners' identities.

The events that objects fire are recorded in sequence fields (`fired`,
`activated`), so that contracts can state which events were fired and in
what order.

## Where the code and its documentation differ

The model follows the code in each of these cases.

Date search:
- `getPastDay` returns `found || last`. A found Sunday (day 0) is falsy, so
  the search falls back to the last listed day (`PastDaySundayIsFalsy`).
  `getFutureDay` has the same fallback, but its fallback `days[0]` is then
  Sunday again, so it makes no difference there.
- The `'past'` search of `getNextDateTime` adds its day count to the schedule
  time just as the `'future'` search does. Its result is therefore never on an
  earlier calendar day (`NextDateTimeWithinComingWeek`, `PastDateTimeNotAfterIff`).
- The forward search can return an instant earlier than the schedule time.
  This happens when today is the only listed day and its time has passed
  (`FutureDateTimeBeforeScheduleTimeIff`, `MondayOnlyForwardFallsBack`).

Programs and the scheduler:
- A start datetime does not keep a program back: it can be active before its
  publication instant (`ActiveBeforeStartDateTime`).
- A window that spans midnight is missed after midnight (`MidnightSpanningWindowMissed`).
- The "time until next update is less than 0" error is reachable (`NegativeWaitReachable`).
- `getScheduleTime` never uses the debug time's value, only whether it is
  set. It returns now plus the time elapsed since the debug time was set
  (`ScheduleTimeIgnoresDebugTime`, `DebugClockDoesNotFollowDebugTime`).
- `this.timers[program]` uses `String(program)` as its key, so every program
  shares the key `"[object Object]"` (`Scheduling.Scheduler.Valid`).
- `parseProgram` does not copy `schedule.priority`. Programs built through it
  therefore have no priority, and `filterByHighestPriority` keeps all of them
  (`HighestPriorityKeepsAllWithoutPriority`).
- The `Program` constructor applies `options.enabled` only when it is
  truthy, so `options.enabled: false` does not disable a program. Only a
  configuration's own `isEnabled: false` does (`Programs.Program.constructor`).
- A play length that is missing or not a number gives a NaN timer delay, not
  an error. Only a program without `options` makes the rotation throw
  (`DelayOf`, `RotateProgram`, `Rotating.ActivateFiresIff`).

## Model

| member | source | states |
|---|---|---|
| DateUtils.FutureDayIsNextListedDay | src/utils/date.js:11-13 | on an ascending weekday list, getFutureDay is the smallest listed day at or after the current day, else the first listed day; a found Sunday also falls back to the first day |
| DateUtils.PastDayIsPreviousListedDay | src/utils/date.js:25-29 | on an ascending weekday list, getPastDay is the largest listed day in 1..currentDay, else the last listed day (a found Sunday is falsy) |
| DateUtils.PastDaySundayIsFalsy | src/utils/date.js:28 | with Sunday and Wednesday listed, the past day of Monday is Wednesday, not Sunday |
| DateUtils.FutureDay | src/utils/date.js:11-13 | undefined exactly for an empty list; otherwise a listed day |
| DateUtils.PastDay | src/utils/date.js:25-29 | undefined exactly for an empty list; otherwise a listed day |
| DateUtils.FirstAtLeast | src/utils/date.js:12 | `find(day >= currentDay)`: none iff every day is smaller, else the first listed day that is at least currentDay |
| DateUtils.LastAtMost | src/utils/date.js:26-28 | `find` over the reversed list: none iff every day is larger, else the last listed day at most currentDay |
| DateUtils.WithTimeOfDay | src/utils/date.js:39-46 | the instant setTime produces, defined on instants; WithTimeOfDayKeepsDate states its meaning |
| DateUtils.SetTime | src/utils/date.js:39-46 | setTime changes `dateTime` in place and returns that same object, with the time of day of `time` on its own date |
| DateUtils.WithTimeOfDayKeepsDate | src/utils/date.js:39-46 | the result of setTime has the calendar day of `dateTime` and the hour, minute, second and millisecond of `time` |
| DateUtils.IsMidnight | src/utils/date.js:55-57 | a present time whose hour, minute and second are zero; IsMidnightWithinFirstSecond states its meaning |
| DateUtils.IsMidnightWithinFirstSecond | src/utils/date.js:55-57 | isMidnight holds iff the moment exists and lies within the first second of its day (milliseconds ignored) |
| Programs.ParseSchedule | src/services/scheduler/Program.js:92-105 | a missing schedule or field takes its default: all seven days, 00:00 to 24:00; datetimes are copied |
| Programs.ParseScheduleKeepsParsed | src/services/scheduler/Program.js:92-105 | a schedule that already has every field (and no priority) is parsed to itself |
| Programs.IsAlwaysActive | src/services/scheduler/Program.js:23-26 | all seven days listed and both times at midnight; DefaultScheduleIsAlwaysActive uses it |
| Programs.DelayOf | src/services/scheduler/Scheduler.js:38 | the timer delay of a play length: NaN exactly when the length is missing, otherwise the length in seconds as whole milliseconds |
| Programs.DefaultScheduleIsAlwaysActive | src/services/scheduler/Program.js:92-105 | a program without a schedule is always active |
| Programs.NextDateTime | src/services/scheduler/Program.js:40-83 | the instant getNextDateTime returns, defined by the day count of the search; its properties are the lemmas below |
| Programs.GetNextDateTime | src/services/scheduler/Program.js:40-83 | the moment-by-moment computation equals NextDateTime |
| Programs.DaysUntilBounds | src/services/scheduler/Program.js:53-74 | both searches move 0 to 6 days forward |
| Programs.NextDateTimeWithinComingWeek | src/services/scheduler/Program.js:40-83 | undefined iff no days are listed; otherwise the requested time of day, 0 to 6 days after the schedule time's date |
| Programs.FutureDateTimeOnListedDay | src/services/scheduler/Program.js:40-83 | the forward search lands on a listed weekday |
| Programs.FutureDateTimeBeforeScheduleTimeIff | src/services/scheduler/Program.js:40-83 | the forward result is earlier than the schedule time iff today's time has passed and today is the only listed day |
| Programs.FutureDateTimeIsFirstOccurrence | src/services/scheduler/Program.js:40-83 | otherwise no instant between the schedule time and the result has the time of day on a listed weekday |
| Programs.PastDateTimeNotAfterIff | src/services/scheduler/Program.js:40-83 | the backward result is at or before the schedule time iff today's time has not passed and getPastDay returns today |
| Programs.ComputeNextRun | src/services/scheduler/Program.js:146-217 | the run configureNextRun computes: the absolute bounds for an always-active schedule, else the recurring search; NextRunThrowsIff and the lemmas below state its meaning |
| Programs.IsActiveAt | src/services/scheduler/Program.js:214-216 | enabled, started (or no start) and not yet ended (or no end); ExpiredRunIsInactive uses it |
| Programs.RecurringNextRun | src/services/scheduler/Program.js:166-207 | the recurring branch, step by step, equals RecurringRun |
| Programs.NextRunThrowsIff | src/services/scheduler/Program.js:166-207 | configureNextRun throws iff a recurring schedule has a start time but no days, or has no start at all but an end datetime |
| Programs.EndAtWithinEndDateTime | src/services/scheduler/Program.js:155-192 | the computed end is never after the end datetime; with listed days an end datetime always gives an end |
| Programs.ExpiredRunIsInactive | src/services/scheduler/Program.js:155-216 | an expired run is never active |
| Programs.AnchoredAtStartDateTime | src/services/scheduler/Program.js:169-176 | a future start datetime replaces the schedule time as the base of the searches |
| Programs.WorkdayMorningBeforeWindow | src/services/scheduler/Program.js:146-217 | Mon-Fri 08:00-09:00 at Monday 07:59: inactive, next run Monday 08:00-09:00 |
| Programs.WorkdayMorningInsideWindow | src/services/scheduler/Program.js:194-199 | at Monday 08:30 the start is searched backwards, giving 08:00 today; the program is active until 09:00 |
| Programs.WorkdayMorningAfterWindow | src/services/scheduler/Program.js:146-217 | at Monday 09:01: inactive, next run Tuesday 08:00-09:00 |
| Programs.MondayOnlyForwardFallsBack | src/services/scheduler/Program.js:54-82 | with Monday alone listed, a Monday instant after the time searches forward to Monday itself, in the past |
| Programs.ActiveBeforeStartDateTime | src/services/scheduler/Program.js:169-176 | a program published at 08:30 for 08:00-09:00 is active at 08:10 |
| Programs.MidnightSpanningWindowMissed | src/services/scheduler/Program.js:176-199 | Mon and Tue 22:00-02:00 at Tuesday 01:00 gives Wednesday 22:00 to Tuesday 02:00, inactive |
| Programs.Program.constructor | src/services/scheduler/Program.js:117-137 | copies type, url and options and parses the schedule; starts enabled, inactive and without a next run unless the config has its own `isEnabled`, `isActive` or `nextRun`, which are copied; a truthy `options.enabled` then enables it |
| Programs.Program.ConfigureNextRun | src/services/scheduler/Program.js:146-217 | stores ComputeNextRun's run and `isEnabled && start <= t && end > t`; stores nothing when it throws |
| Programs.Program.IsEquivalent | src/services/scheduler/Program.js:222-239 | present with the same url and type under strict equality; EquivalentIffSamePlayer states its meaning |
| Programs.EquivalentIffSamePlayer | src/services/scheduler/Program.js:222-239 | equivalent iff the same url and type under `===`; never equivalent to undefined |
| Programs.EquivalenceSymmetricTransitive | src/services/scheduler/Program.js:230-232 | equivalence is symmetric and transitive |
| Scheduling.MaxPriority | src/services/scheduler/Scheduler.js:17-26 | the priority the loop ends with bounds every priority and is one of them, or is 0 |
| Scheduling.WithPriorityKeepsOnly | src/services/scheduler/Scheduler.js:15-29 | the filter keeps a subsequence of programs of the given priority |
| Scheduling.WithPriorityKeepsAll | src/services/scheduler/Scheduler.js:15-29 | every program of that priority is kept |
| Scheduling.HighestPriorityKeepsAllWithoutPriority | src/services/scheduler/Scheduler.js:23-24 | with no positive priority every program is kept, in order |
| Scheduling.HighestPriorityKeepsTop | src/services/scheduler/Scheduler.js:15-29 | otherwise exactly the programs of the highest priority are kept, in order |
| Scheduling.HighestPriorityStep | src/services/scheduler/Scheduler.js:19-26 | one turn of the loop: a higher priority restarts the list, an equal one (or none yet) extends it |
| Scheduling.HighestPriority | src/services/scheduler/Scheduler.js:15-29 | the result of filterByHighestPriority, defined by the maximum priority; the two HighestPriorityKeeps lemmas state its meaning |
| Scheduling.FilterByHighestPriority | src/services/scheduler/Scheduler.js:15-29 | the single pass returns HighestPriority |
| Scheduling.RotateProgram | src/services/scheduler/Scheduler.js:31-43 | throws for a program without options; otherwise shows it with DelayOf its length; the next index stays within the list |
| Scheduling.StartRotate | src/services/scheduler/Scheduler.js:55-61 | nothing for a missing or empty list, else the rotation from index 0 |
| Scheduling.NthRotation | src/services/scheduler/Scheduler.js:36-38 | every step's next index stays within the list |
| Scheduling.RotationShowsEachInTurn | src/services/scheduler/Scheduler.js:31-61 | when every program has options, the k-th callback shows program k mod n with DelayOf its length, next index k+1 mod n |
| Scheduling.RotationIndexFollowsSteps | src/services/scheduler/Scheduler.js:31-61 | whenever the steps succeed, the next index is k+1 mod n |
| Scheduling.RotationFailsIff | src/services/scheduler/Scheduler.js:31-61 | the rotation throws at step k iff a program due at steps 0..k has no options |
| Scheduling.ScheduleTime | src/services/scheduler/Scheduler.js:159-167 | the clock getScheduleTime reads; the three lemmas below state its meaning |
| Scheduling.ScheduleTimeWithoutDebugIsNow | src/services/scheduler/Scheduler.js:159-167 | without a debug time the schedule time is the wall clock |
| Scheduling.ScheduleTimeIgnoresDebugTime | src/services/scheduler/Scheduler.js:159-167 | with a debug time set, the schedule time does not depend on its value, starts at the setting instant and runs at twice the clock rate |
| Scheduling.DebugClockDoesNotFollowDebugTime | src/services/scheduler/Scheduler.js:137-167 | debug time 13:00 set at 10:00 reads 10:10 five minutes later |
| Scheduling.Scheduler.constructor | src/services/scheduler/Scheduler.js:83-128 | no programs, no active programs, no timers, no debug time, nothing fired |
| Scheduling.Scheduler.SetDebugTime | src/services/scheduler/Scheduler.js:137-142 | records the debug time and its setting instant |
| Scheduling.Scheduler.ClearDebugTime | src/services/scheduler/Scheduler.js:148-151 | clears both |
| Scheduling.Scheduler.GetScheduleTime | src/services/scheduler/Scheduler.js:159-167 | returns ScheduleTime |
| Scheduling.PlanUpdate | src/services/scheduler/Scheduler.js:181-200 | the decision schedule takes after configuring; PlanUpdateNegativeWaitIff and PlanUpdateArmsIff state its meaning |
| Scheduling.PlanUpdateNegativeWaitIff | src/services/scheduler/Scheduler.js:181-196 | the negative-wait error happens iff an enabled, unexpired, inactive program's start has passed; an active program waits a positive time for its end |
| Scheduling.PlanUpdateArmsIff | src/services/scheduler/Scheduler.js:181-200 | no timer iff expired, disabled or without target; a timer's delay reaches the end (active) or start (inactive), with the matching event |
| Scheduling.NegativeWaitReachable | src/services/scheduler/Scheduler.js:194-196 | a Monday 08:00-09:00 program ended at 08:30 and scheduled at 08:45 makes schedule throw |
| Scheduling.Answer | src/services/scheduler/Scheduler.js:174-210 | what schedule answers: configureNextRun's error, or PlanUpdate's decision for the new activity with a timer carrying the program |
| Scheduling.Rescheduled | src/services/scheduler/Scheduler.js:174-210 | after schedule: a throwing configureNextRun leaves the run and activity as they were, otherwise they are its run and that run's activity; the answer is Answer's |
| Scheduling.Scheduler.Schedule | src/services/scheduler/Scheduler.js:174-210 | Rescheduled holds for the run configured one second ahead, and the timer answered, if any, is stored under the shared key; nothing else changes |
| Scheduling.Scheduler.ArmTimer | src/services/scheduler/Scheduler.js:181-209 | answers PlanUpdate's decision for the program as stored, and stores the timer under the shared key when there is one |
| Scheduling.ActiveOf | src/services/scheduler/Scheduler.js:217 | the active programs in order; ActiveOfSelectsActive states its meaning |
| Scheduling.ActiveOfSelectsActive | src/services/scheduler/Scheduler.js:217 | the active programs form a subsequence holding every active program and no other |
| Scheduling.ActiveOfIsSubsequence | src/services/scheduler/Scheduler.js:217 | the filter keeps the programs' order |
| Scheduling.ActiveOfOnlyActive | src/services/scheduler/Scheduler.js:217 | every kept program is one of the programs and is active |
| Scheduling.ActiveOfKeepsActive | src/services/scheduler/Scheduler.js:217 | every active program is kept |
| Scheduling.Scheduler.Update | src/services/scheduler/Scheduler.js:216-219 | activePrograms becomes the active programs, then `update` is fired |
| Scheduling.Scheduler.Reschedule | src/services/scheduler/Scheduler.js:203-207 | the callback's first steps: the timer entry is dropped, the event fired with the program, and the program rescheduled as Rescheduled says |
| Scheduling.Scheduler.TimerElapsed | src/services/scheduler/Scheduler.js:202-209 | drops the shared timer, fires the event with the program, reschedules it (Rescheduled holds of the program and the answer), and updates unless that throws |
| Rotating.FirstEquivalent | src/services/scheduler/Rotater.js:51 | findIndex: the first equivalent program, or none when no program is equivalent |
| Rotating.Activate | src/services/scheduler/Rotater.js:71-94 | the state activateProgram leaves; ActivateIndex and ActivateFiresIff state its meaning |
| Rotating.Update | src/services/scheduler/Rotater.js:42-63 | the state updatePrograms leaves; UpdateKeepsEquivalentProgram and UpdateKeepsIndexValid state its meaning |
| Rotating.ActivateIndex | src/services/scheduler/Rotater.js:72-76 | the index moves on cyclically and points at a program iff there is one |
| Rotating.ActivateFiresIff | src/services/scheduler/Rotater.js:78-93 | activate fires iff the new program is not equivalent to the old; a timer with DelayOf its length remains only then, with more than one program and options; it throws exactly when there are none |
| Rotating.SingleProgramRepeatIsSilent | src/services/scheduler/Rotater.js:84-93 | a single program is not shown again and gets no timer |
| Rotating.UpdateKeepsEquivalentProgram | src/services/scheduler/Rotater.js:49-58 | with a running timer, a new list holding an equivalent program only moves the index to the first such program |
| Rotating.UpdateKeepsIndexValid | src/services/scheduler/Rotater.js:42-63 | updatePrograms installs the list (`[]` for none) and keeps the index pointing at a program iff there is one |
| Rotating.FirstUpdateActivatesFirstProgram | src/services/scheduler/Rotater.js:42-89 | a new rotater given [a, b] shows a, timed by DelayOf its length |
| Rotating.ActivateTimesCycles | src/services/scheduler/Rotater.js:74 | k activations from index c reach c+k mod n |
| Rotating.Rotater.constructor | src/services/scheduler/Rotater.js:18-33 | no programs, index -1, no timer |
| Rotating.Rotater.ActivateProgram | src/services/scheduler/Rotater.js:71-94 | the new fields and outcome are those of Activate |
| Rotating.Rotater.UpdatePrograms | src/services/scheduler/Rotater.js:42-63 | the new fields and outcome are those of Update |
| Events.Without | src/utils/Eventable.js:40 | filter removes every occurrence of the listener and keeps the rest in order; the length is kept iff it was absent |
| Events.WithoutAppend | src/utils/Eventable.js:40 | filtering distributes over concatenation |
| Events.WithoutIdempotent | src/utils/Eventable.js:40 | removing twice removes nothing more |
| Events.WithoutAbsent | src/utils/Eventable.js:40 | removing an absent listener changes nothing |
| Events.OffUndoesOn | src/utils/Eventable.js:10-43 | off removes what on added for a new listener |
| Events.Eventable.constructor | src/utils/Eventable.js:2 | no listeners |
| Events.Eventable.On | src/utils/Eventable.js:10-17 | throws for a non-function and changes nothing; otherwise appends to the event's list only |
| Events.Eventable.Off | src/utils/Eventable.js:28-43 | without a listener, empties the list and answers whether it had listeners (throws if never registered); otherwise removes every occurrence and answers whether one was there |
| Events.Eventable.Fire | src/utils/Eventable.js:55-64 | calls the event's listeners in order and answers whether there was one |
| AcfApi.ParseInt | src/utils/api-acf.js:9-11 | undefined iff the value is null, undefined or `''`; otherwise a number or NaN |
| AcfApi.TrimStartDropsLeadingWhitespace | src/utils/api-acf.js:10 | parseInt skips exactly the leading whitespace |
| AcfApi.DigitPrefixIsDigitRun | src/utils/api-acf.js:10 | parseInt reads the longest run of digits |
| AcfApi.DigitsValueOfDigits | src/utils/api-acf.js:10 | the digits of a numeral are read back as its value |
| AcfApi.ParseDecimalReadsNumeral | src/utils/api-acf.js:10 | `Number.parseInt` reads any integer's numeral after whitespace and up to a non-digit |
| AcfApi.ParseIntReadsNumeral | src/utils/api-acf.js:9-11 | so does parseInt |
| AcfApi.ParseIntRoundTrip | src/utils/api-acf.js:9-11 | a number and its decimal text both parse back to the number |
| AcfApi.ParseIntTen | test/unit/utils/api-acf.spec.js:24-55 | the play length `'10'` is 10 |
| AcfApi.ParseIntBoolIsNaN | src/utils/api-acf.js:9-11 | a boolean parses to NaN |
| AcfApi.ConvertBlanks | src/utils/api-acf.js:21-23 | `''` becomes undefined; anything else is kept |
| AcfApi.IndexOf | src/utils/api-acf.js:33 | the first occurrence from the start index, or none |
| AcfApi.ReplaceFirst | src/utils/api-acf.js:33 | a string without the pattern is unchanged |
| AcfApi.ReplaceFirstAt | src/utils/api-acf.js:33 | only the first occurrence is replaced; the text after it is kept |
| AcfApi.FixGuidHack | src/utils/api-acf.js:32-34 | falsy guids pass through, strings get the first `&#038;` replaced, other values throw; FixGuidHackUnescapes states its meaning |
| AcfApi.FixGuidHackUnescapes | src/utils/api-acf.js:32-34 | the first `&#038;` becomes `&`; a guid without one is unchanged; falsy guids pass through |
| AcfApi.UsesAcfFormat | src/utils/api-acf.js:43-45 | data is present and has `acf` |
| AcfApi.UsesAcfFormatExamples | src/utils/api-acf.js:43-45 | data with `acf` uses the format; data without it, or no data, does not |
| AcfApi.TransformAcfProgram | src/utils/api-acf.js:55-92 | the program definition of one ACF entry; TransformFixedFields and TransformPlayExact state its meaning |
| AcfApi.TransformAcfProgramSteps | src/utils/api-acf.js:55-92 | building the object and then overwriting its fields gives TransformAcfProgram |
| AcfApi.TransformFixedFields | src/utils/api-acf.js:55-82 | throws iff the guid is truthy and not a string; otherwise an enabled-unless-`true` iframe with the parsed length, blank-converted datetimes and no transitions |
| AcfApi.TransformPlayExact | src/utils/api-acf.js:84-89 | play_exact gives priority 10, all seven days, 00:00 to 24:00; otherwise days and priority are copied and times blank-converted |
| AcfApi.TransformExample | test/unit/utils/api-acf.spec.js:24-55 | the first documented example, for any guid prefix without `&` |
| AcfApi.MapUntilThrowElementwise | src/utils/api-acf.js:106-108 | forEach/push succeeds iff every element does, then gives one result per element in order; an error is some element's |
| AcfApi.MapUntilThrowKeepsError | src/utils/api-acf.js:106-108 | the first error thrown is the result |
| AcfApi.TransformAcfData | src/utils/api-acf.js:102-114 | throws the missing-data error when data, acf or schedule_repeater is missing; otherwise maps the transform over the entries |
| AcfApi.TransformAcfDataElementwise | src/utils/api-acf.js:102-114 | the definitions are the entries' transforms, one each and in order, unless an entry throws |

## Left out

- `parseDays`, `parseTime` and `parseDateTime` are not part of this model. A
  parsed schedule carries what they return: weekday indices and instants.
- Time zones and daylight saving time are left out. Instants are UTC
  milliseconds, and a day is always 86 400 000 ms.
- Host timers are left out. `setTimeout` never fires on its own and
  `clearTimeout` is not modelled. A pending timer is a value (`Timer`, a
  delay, a `Rotation`), and its callback is a separate operation
  (`Scheduler.TimerElapsed`, `Rotater.ActivateProgram`, `NthRotation`).
- stopRotate is left out because it only cancels a host timer handle.
- Listener code is left out. `fire` records which listeners it calls and in
  what order, but not what they do. Re-entrant calls from a listener are
  therefore not modelled.
- `Object.assign` copying unknown keys of a configuration into a `Program`
  is left out. Only the fields the core reads are modelled.
- The ACF input is modelled only with the fields `transformAcfProgram`
  reads. A missing object is modelled as `None`. `null` entries inside
  `schedule_repeater` are not modelled, and neither are non-object `data`
  or `acf` values.
- Number precision is left out. JavaScript numbers are doubles, but the
  model uses unbounded integers. `String(n)` uses exponent notation at and
  above 1e21; the model always writes digits. Fractional and hexadecimal
  text is not modelled either.
- Scheduling.RotateProgram: the options are read through an `optionsOf`
  parameter, which stands for `schedule.options` on whatever object the list
  holds. A NaN delay is only recorded: the host runs such a timer without
  waiting, and that is not modelled.
- Programs.DelayOf: a play length is an integer or missing (`undefined` or
  NaN after parseInt). Other non-number values are not modelled.
- Programs.Program.constructor: `isEnabled` and `isActive` are booleans. The
  source stores the truthy `options.enabled` value itself, and a config could
  carry non-boolean `isEnabled` or `isActive`. The model keeps only their
  truthiness.
- Scheduling.Scheduler: `programs` is assigned by callers, and the model
  leaves it to them. `refreshRate` is declared but never used by the source.
- The API client, the player component and the page entry point are not
  part of this model. Their behaviour is I/O and rendering.
