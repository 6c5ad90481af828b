/**
 * A program and its weekly schedule (src/services/scheduler/Program.js).
 *
 * A schedule is taken in its parsed form: weekday indices and instants.
 * The string parsers `parseDays`, `parseTime` and `parseDateTime` are not
 * part of this model; a `RawSchedule` carries what they would return for
 * each field that is present.
 */
module Programs {
  import opened Js
  import opened DateUtils

  /** A parsed schedule as `configureNextRun` reads it. */
  datatype Schedule = Schedule(
    days: seq<int>,
    startTime: Option<int>,
    endTime: Option<int>,
    startDateTime: Option<int>,
    endDateTime: Option<int>)

  /**
   * The schedule of a program definition, each present field already run
   * through its parser; `None` is an absent (or falsy) field. `priority` is
   * carried by definitions but dropped by `parseProgram`.
   */
  datatype RawSchedule = RawSchedule(
    days: Option<seq<int>>,
    startTime: Option<int>,
    endTime: Option<int>,
    startDateTime: Option<int>,
    endDateTime: Option<int>,
    priority: Option<int>)

  /**
   * Playback options: `enabled` as given; `length` is the dwell time in
   * seconds, `None` when it is not a number (undefined, or the NaN that
   * parseInt gives for text without digits).
   */
  datatype Options = Options(enabled: Value, length: Option<int>)

  /**
   * The delay in milliseconds handed to setTimeout for a program's play
   * length: NaN when the length is not a number. A host runs a timer with a
   * NaN delay without waiting; it does not throw.
   */
  function DelayOf(options: Options): (r: Value)
    ensures r.Num? || r.NaN?
    ensures r.NaN? <==> options.length.None?
    ensures r.Num? ==> r.n / 1000 == options.length.value && r.n % 1000 == 0
  {
    if options.length.Some? then Num(options.length.value * 1000) else NaN
  }

  /**
   * A program definition as handed to `new Program(config)`. Besides the
   * definition, a config may carry its own `isEnabled`, `isActive` and
   * `nextRun` keys (a configured program does); `None` is a missing key.
   */
  datatype RawProgram = RawProgram(
    kind: Value,
    url: Value,
    schedule: Option<RawSchedule>,
    options: Option<Options>,
    isEnabled: Option<bool>,
    isActive: Option<bool>,
    nextRun: Option<NextRun>)

  /** The computed state of a program: its next run and whether it is active. */
  datatype RunState = RunState(nextRun: Option<NextRun>, isActive: bool)

  /** The computed next run of a program. */
  datatype NextRun = NextRun(startAt: Option<int>, endAt: Option<int>, isExpired: bool)

  /** The `direction` argument of getNextDateTime; anything but `'future'` searches the past. */
  datatype Direction = Future | Past

  /** What `parseDays(['sun', ..., 'sat'])` yields. */
  const AllWeekdays: seq<int> := [0, 1, 2, 3, 4, 5, 6]

  /** What `parseTime('00:00')` and `parseTime('24:00')` yield: midnight. */
  const Midnight: int := 0

  // ---------------------------------------------------------------------
  // parseProgram (src/services/scheduler/Program.js:92-105)
  // ---------------------------------------------------------------------

  /**
   * The schedule `parseProgram` builds: a missing schedule or field takes its
   * default (all seven days, 00:00 to 24:00); the absolute bounds stay absent.
   */
  function ParseSchedule(config: Option<RawProgram>): (s: Schedule)
    ensures s.startTime.Some? && s.endTime.Some?
    ensures config.None? || config.value.schedule.None? ==>
      s.days == AllWeekdays && IsMidnight(s.startTime) && IsMidnight(s.endTime) &&
      s.startDateTime.None? && s.endDateTime.None?
    ensures config.Some? && config.value.schedule.Some? ==>
      var raw := config.value.schedule.value;
      s.days == raw.days.GetOr(AllWeekdays) &&
      s.startTime == Some(raw.startTime.GetOr(Midnight)) &&
      s.endTime == Some(raw.endTime.GetOr(Midnight)) &&
      s.startDateTime == raw.startDateTime && s.endDateTime == raw.endDateTime
  {
    var raw := if config.Some? && config.value.schedule.Some? then config.value.schedule.value
               else RawSchedule(None, None, None, None, None, None);
    assert IsMidnight(Some(Midnight)) by {
      Decompose(Midnight);
    }
    Schedule(
      raw.days.GetOr(AllWeekdays),
      Some(raw.startTime.GetOr(Midnight)),
      Some(raw.endTime.GetOr(Midnight)),
      raw.startDateTime,
      raw.endDateTime)
  }

  // ---------------------------------------------------------------------
  // isAlwaysActive (src/services/scheduler/Program.js:23-26)
  // ---------------------------------------------------------------------

  /** Seven listed days and both times at midnight. */
  predicate IsAlwaysActive(s: Schedule) {
    |s.days| == 7 && IsMidnight(s.startTime) && IsMidnight(s.endTime)
  }

  /** A program built without a schedule plays around the clock. */
  lemma DefaultScheduleIsAlwaysActive(config: Option<RawProgram>)
    requires config.None? || config.value.schedule.None?
    ensures IsAlwaysActive(ParseSchedule(config))
  {
  }

  /**
   * Parsing keeps a schedule whose fields are all given: a program built
   * from a configured program has that program's schedule.
   */
  lemma ParseScheduleKeepsParsed(config: RawProgram, s: Schedule)
    requires s.startTime.Some? && s.endTime.Some?
    requires config.schedule == Some(RawSchedule(Some(s.days), s.startTime, s.endTime, s.startDateTime, s.endDateTime, None))
    ensures ParseSchedule(Some(config)) == s
  {
  }

  // ---------------------------------------------------------------------
  // getNextDateTime (src/services/scheduler/Program.js:40-83)
  // ---------------------------------------------------------------------

  /** The day from which the weekday search starts. */
  function BaseDay(time: int, scheduleTime: int, direction: Direction): int {
    var scheduleDay := Weekday(scheduleTime);
    match direction
    case Future =>
      if WithTimeOfDay(scheduleTime, time) < scheduleTime then
        (if scheduleDay < 6 then scheduleDay + 1 else 0)
      else scheduleDay
    case Past =>
      if WithTimeOfDay(scheduleTime, time) > scheduleTime then
        (if scheduleDay > 0 then scheduleDay - 1 else 6)
      else scheduleDay
  }

  /** The number of days the result is moved forward from `scheduleTime`. */
  function DaysUntil(days: seq<int>, time: int, scheduleTime: int, direction: Direction): int
    requires |days| > 0
  {
    var scheduleDay := Weekday(scheduleTime);
    var baseDay := BaseDay(time, scheduleTime, direction);
    var raw := match direction
      case Future => FutureDay(days, baseDay).value - scheduleDay
      case Past => scheduleDay - PastDay(days, baseDay).value;
    if raw < 0 then raw + 7 else raw
  }

  /**
   * getNextDateTime: `undefined` for an empty day list; otherwise the
   * schedule time moved forward by `DaysUntil` days and set to `time`.
   */
  function NextDateTime(days: seq<int>, time: int, scheduleTime: int, direction: Direction): Option<int> {
    if |days| == 0 then None
    else Some(WithTimeOfDay(scheduleTime + DaysUntil(days, time, scheduleTime, direction) * DayMs, time))
  }

  /** The source's step-by-step computation: a copied moment, moved and re-timed in place. */
  method GetNextDateTime(days: seq<int>, time: int, scheduleTime: int, direction: Direction)
    returns (r: Option<int>)
    ensures r == NextDateTime(days, time, scheduleTime, direction)
  {
    if |days| == 0 {
      return None;
    }
    var scheduleDay := Weekday(scheduleTime);
    var baseDay := scheduleDay;
    var nextDay: int;
    var daysUntil: int;
    var timeMoment := new Moment(time);
    var probe := new Moment(scheduleTime);
    probe := SetTime(probe, timeMoment);
    if direction == Future {
      if probe.epochMs < scheduleTime {
        baseDay := if scheduleDay < 6 then scheduleDay + 1 else 0;
      }
      nextDay := FutureDay(days, baseDay).value;
      daysUntil := nextDay - scheduleDay;
    } else {
      if probe.epochMs > scheduleTime {
        baseDay := if scheduleDay > 0 then scheduleDay - 1 else 6;
      }
      nextDay := PastDay(days, baseDay).value;
      daysUntil := scheduleDay - nextDay;
    }
    if daysUntil < 0 {
      daysUntil := daysUntil + 7;
    }
    var nextDateTime := new Moment(scheduleTime);
    nextDateTime.AddDays(daysUntil);
    nextDateTime := SetTime(nextDateTime, timeMoment);
    r := Some(nextDateTime.epochMs);
  }

  /** The day-shifted, re-timed instant the search returns, spelled out. */
  lemma ShiftedTime(scheduleTime: int, time: int, k: int)
    ensures var r := WithTimeOfDay(scheduleTime + k * DayMs, time);
      r == DayStart(scheduleTime) + k * DayMs + TimeOfDay(time) &&
      DayStart(r) == DayStart(scheduleTime) + k * DayMs &&
      TimeOfDay(r) == TimeOfDay(time) &&
      Weekday(r) == (Weekday(scheduleTime) + k) % 7
  {
    AddWholeDays(scheduleTime, k);
    WithTimeOfDayParts(scheduleTime + k * DayMs, time);
  }

  /** Any instant lies a whole number `j` of days after the calendar day of `from`. */
  lemma DayOffset(from: int, t: int) returns (j: int)
    ensures t == DayStart(from) + j * DayMs + TimeOfDay(t)
    ensures Weekday(t) == (Weekday(from) + j) % 7
  {
    Decompose(from);
    Decompose(t);
    j := t / DayMs - from / DayMs;
    ShiftedTime(from, t, j);
  }

  /** The search moves forward by 0 to 6 days. */
  lemma DaysUntilBounds(days: seq<int>, time: int, scheduleTime: int, direction: Direction)
    requires IsWeekdayList(days) && |days| > 0
    ensures 0 <= DaysUntil(days, time, scheduleTime, direction) <= 6
  {
    var baseDay := BaseDay(time, scheduleTime, direction);
    match direction
    case Future => assert FutureDay(days, baseDay).value in days;
    case Past => assert PastDay(days, baseDay).value in days;
  }

  /**
   * Both searches return the requested time of day on the calendar day of
   * `scheduleTime` or one of the six days after it. In particular the
   * backward search never returns an earlier calendar day: the number of
   * days it computes is added, as in the forward search.
   */
  lemma NextDateTimeWithinComingWeek(days: seq<int>, time: int, scheduleTime: int, direction: Direction)
    requires IsWeekdayList(days)
    ensures NextDateTime(days, time, scheduleTime, direction).None? <==> |days| == 0
    ensures |days| > 0 ==>
      var r := NextDateTime(days, time, scheduleTime, direction).value;
      TimeOfDay(r) == TimeOfDay(time) &&
      DayStart(scheduleTime) <= DayStart(r) <= DayStart(scheduleTime) + 6 * DayMs
  {
    if |days| > 0 {
      DaysUntilBounds(days, time, scheduleTime, direction);
      ShiftedTime(scheduleTime, time, DaysUntil(days, time, scheduleTime, direction));
    }
  }

  /** The forward search lands on a listed weekday. */
  lemma FutureDateTimeOnListedDay(days: seq<int>, time: int, scheduleTime: int)
    requires IsWeekdayList(days) && |days| > 0
    ensures Weekday(NextDateTime(days, time, scheduleTime, Future).value) in days
  {
    var d := Weekday(scheduleTime);
    var next := FutureDay(days, BaseDay(time, scheduleTime, Future)).value;
    var k := DaysUntil(days, time, scheduleTime, Future);
    ShiftedTime(scheduleTime, time, k);
    assert 0 <= next <= 6;
    assert (d + k) % 7 == next;
  }

  /**
   * The forward search returns an instant before `scheduleTime` exactly when
   * today's time has passed and today is the only listed weekday: the day
   * offset is then 0 and no week is added.
   */
  lemma FutureDateTimeBeforeScheduleTimeIff(days: seq<int>, time: int, scheduleTime: int)
    requires IsWeekdayList(days) && |days| > 0
    ensures NextDateTime(days, time, scheduleTime, Future).value < scheduleTime <==>
      TimeOfDay(time) < TimeOfDay(scheduleTime) &&
      forall i :: 0 <= i < |days| ==> days[i] == Weekday(scheduleTime)
  {
    var d := Weekday(scheduleTime);
    var baseDay := BaseDay(time, scheduleTime, Future);
    var next := FutureDay(days, baseDay).value;
    var k := DaysUntil(days, time, scheduleTime, Future);
    DaysUntilBounds(days, time, scheduleTime, Future);
    ShiftedTime(scheduleTime, time, k);
    FutureDayIsNextListedDay(days, baseDay);
    if TimeOfDay(time) < TimeOfDay(scheduleTime) && forall i :: 0 <= i < |days| ==> days[i] == d {
      assert next == d;
    }
    if NextDateTime(days, time, scheduleTime, Future).value < scheduleTime {
      assert k == 0 && next == d;
      forall i | 0 <= i < |days|
        ensures days[i] == d
      {
        assert days[0] <= days[i];
        if d < 6 {
          assert days[i] < d + 1;
        }
      }
    }
  }

  /**
   * Outside the case above, the forward search returns the first instant at
   * or after `scheduleTime` that has the requested time of day on a listed
   * weekday: no earlier such instant exists.
   */
  lemma FutureDateTimeIsFirstOccurrence(days: seq<int>, time: int, scheduleTime: int, t: int)
    requires IsWeekdayList(days) && |days| > 0
    requires scheduleTime <= t < NextDateTime(days, time, scheduleTime, Future).value
    requires TimeOfDay(t) == TimeOfDay(time)
    ensures Weekday(t) !in days
  {
    var d := Weekday(scheduleTime);
    var baseDay := BaseDay(time, scheduleTime, Future);
    var next := FutureDay(days, baseDay).value;
    var k := DaysUntil(days, time, scheduleTime, Future);
    DaysUntilBounds(days, time, scheduleTime, Future);
    ShiftedTime(scheduleTime, time, k);
    FutureDayIsNextListedDay(days, baseDay);
    var j := DayOffset(scheduleTime, t);
    assert 0 <= j < k;
    assert j == 0 ==> baseDay == d;
    var w := Weekday(t);
    if d + j < 7 {
      assert w == d + j;
    } else {
      assert w == d + j - 7;
    }
    forall i | 0 <= i < |days|
      ensures days[i] != w
    {
      assert days[0] <= days[i];
    }
  }

  /**
   * The backward search returns an instant at or before `scheduleTime`
   * exactly when today's time has not passed and getPastDay returns today;
   * that is, today is listed and is not Sunday, or today is Sunday and the
   * last listed day is Sunday. Otherwise it returns a later day.
   */
  lemma PastDateTimeNotAfterIff(days: seq<int>, time: int, scheduleTime: int)
    requires IsWeekdayList(days) && |days| > 0
    ensures var d := Weekday(scheduleTime);
      NextDateTime(days, time, scheduleTime, Past).value <= scheduleTime <==>
      TimeOfDay(time) <= TimeOfDay(scheduleTime) &&
      ((d != 0 && d in days) || (d == 0 && days[|days| - 1] == 0))
  {
    var d := Weekday(scheduleTime);
    var baseDay := BaseDay(time, scheduleTime, Past);
    var prev := PastDay(days, baseDay).value;
    var k := DaysUntil(days, time, scheduleTime, Past);
    DaysUntilBounds(days, time, scheduleTime, Past);
    ShiftedTime(scheduleTime, time, k);
    PastDayIsPreviousListedDay(days, baseDay);
    if TimeOfDay(time) <= TimeOfDay(scheduleTime) {
      assert baseDay == d;
      if d != 0 && d in days {
        var i :| 0 <= i < |days| && days[i] == d;
        assert prev == d;
      }
      if prev == d && d != 0 {
        assert d in days;
      }
      if d == 0 {
        assert prev == days[|days| - 1];
      }
    }
  }

  // ---------------------------------------------------------------------
  // Program (src/services/scheduler/Program.js:111-240)
  // ---------------------------------------------------------------------

  /** `moment(a).isAfter(b)`; an undefined `b` stands for the wall clock `now`. */
  predicate IsAfter(a: int, b: Option<int>, now: int) {
    a > b.GetOr(now)
  }

  /** `moment(a).isBefore(b)`; an undefined `b` stands for the wall clock `now`. */
  predicate IsBefore(a: int, b: Option<int>, now: int) {
    a < b.GetOr(now)
  }

  /**
   * configureNextRun as a value: the next run at `scheduleTime`, or the
   * TypeError raised when an undefined start is compared. `now` is the wall
   * clock that moment substitutes for an undefined comparison argument.
   */
  function ComputeNextRun(s: Schedule, scheduleTime: int, now: int): Result<NextRun> {
    if IsAlwaysActive(s) then
      Ok(NextRun(s.startDateTime, s.endDateTime,
                 s.endDateTime.Some? && s.endDateTime.value < scheduleTime))
    else RecurringRun(s, scheduleTime, now)
  }

  /** The next run of a schedule that is not always active. */
  function RecurringRun(s: Schedule, scheduleTime: int, now: int): Result<NextRun> {
    var baseTime := StartSearchBase(s, scheduleTime);
    var fixedStart := s.startTime.None?;
    var start0 := if fixedStart then s.startDateTime
                  else NextDateTime(s.days, s.startTime.value, baseTime, Future);
    var endAt := EndSearch(s, baseTime, now);
    if !fixedStart && start0.None? then Throws(TypeError)
    else
      var startAt := if !fixedStart && IsAfter(start0.value, endAt, now)
                     then NextDateTime(s.days, s.startTime.value, baseTime, Past)
                     else start0;
      if s.endDateTime.Some? && startAt.None? then Throws(TypeError)
      else Ok(NextRun(startAt, endAt, s.endDateTime.Some? && startAt.value > s.endDateTime.value))
  }

  /** The instant the recurring searches start from. */
  function StartSearchBase(s: Schedule, scheduleTime: int): int {
    if s.startTime.Some? && s.startDateTime.Some? && s.startDateTime.value > scheduleTime
    then s.startDateTime.value
    else scheduleTime
  }

  /** The end of a recurring run: the end-time search, cut short by an earlier end datetime. */
  function EndSearch(s: Schedule, baseTime: int, now: int): Option<int> {
    if s.endTime.Some? then
      var e := NextDateTime(s.days, s.endTime.value, baseTime, Future);
      if s.endDateTime.Some? && IsBefore(s.endDateTime.value, e, now) then s.endDateTime else e
    else s.endDateTime
  }

  /** The recurring branch of configureNextRun, step by step. */
  method RecurringNextRun(s: Schedule, scheduleTime: int, now: int) returns (r: Result<NextRun>)
    ensures r == RecurringRun(s, scheduleTime, now)
  {
    var startAt: Option<int> := None;
    var endAt: Option<int> := None;
    var isExpired := false;
    var baseTime := scheduleTime;
    var fixedStart := false;
    if s.startTime.Some? {
      if s.startDateTime.Some? && s.startDateTime.value > scheduleTime {
        baseTime := s.startDateTime.value;
      }
      startAt := GetNextDateTime(s.days, s.startTime.value, baseTime, Future);
    } else {
      startAt := s.startDateTime;
      fixedStart := true;
    }
    if s.endTime.Some? {
      endAt := GetNextDateTime(s.days, s.endTime.value, baseTime, Future);
      if s.endDateTime.Some? && IsBefore(s.endDateTime.value, endAt, now) {
        endAt := s.endDateTime;
      }
    } else {
      endAt := s.endDateTime;
    }
    if !fixedStart {
      if startAt.None? {
        return Throws(TypeError);
      }
      if IsAfter(startAt.value, endAt, now) {
        startAt := GetNextDateTime(s.days, s.startTime.value, baseTime, Past);
      }
    }
    if s.endDateTime.Some? {
      if startAt.None? {
        return Throws(TypeError);
      }
      isExpired := startAt.value > s.endDateTime.value;
    }
    r := Ok(NextRun(startAt, endAt, isExpired));
  }

  /** A run is active at a time when the program is enabled, its start (if any) is not after that time and its end (if any) is after it. */
  predicate IsActiveAt(isEnabled: bool, run: NextRun, scheduleTime: int) {
    isEnabled &&
    (run.startAt.None? || run.startAt.value <= scheduleTime) &&
    (run.endAt.None? || run.endAt.value > scheduleTime)
  }

  // ---------------------------------------------------------------------
  // Properties of configureNextRun
  // ---------------------------------------------------------------------

  /**
   * configureNextRun throws (a TypeError from calling a method on an
   * undefined start) exactly when a recurring schedule has a start time but
   * no listed day, or has neither start time nor start datetime but an end
   * datetime.
   */
  lemma NextRunThrowsIff(s: Schedule, scheduleTime: int, now: int)
    ensures ComputeNextRun(s, scheduleTime, now).Throws? <==>
      !IsAlwaysActive(s) &&
      ((s.startTime.Some? && |s.days| == 0) ||
       (s.startTime.None? && s.startDateTime.None? && s.endDateTime.Some?))
    ensures ComputeNextRun(s, scheduleTime, now).Throws? ==>
      ComputeNextRun(s, scheduleTime, now).error == TypeError
  {
  }

  /**
   * The computed end never lies after the schedule's end datetime, and with
   * at least one listed day an end datetime always yields an end.
   */
  lemma EndAtWithinEndDateTime(s: Schedule, scheduleTime: int, now: int)
    requires ComputeNextRun(s, scheduleTime, now).Ok?
    ensures var run := ComputeNextRun(s, scheduleTime, now).value;
      s.endDateTime.Some? && run.endAt.Some? ==> run.endAt.value <= s.endDateTime.value
    ensures var run := ComputeNextRun(s, scheduleTime, now).value;
      s.endDateTime.Some? && |s.days| > 0 ==> run.endAt.Some?
  {
  }

  /**
   * An expired run is never active: either the end datetime has passed
   * (always-active schedules) or the next start lies after it.
   */
  lemma ExpiredRunIsInactive(s: Schedule, scheduleTime: int, now: int, isEnabled: bool)
    requires |s.days| > 0
    requires ComputeNextRun(s, scheduleTime, now).Ok?
    ensures var run := ComputeNextRun(s, scheduleTime, now).value;
      run.isExpired ==> s.endDateTime.Some? && !IsActiveAt(isEnabled, run, scheduleTime)
  {
    EndAtWithinEndDateTime(s, scheduleTime, now);
  }

  /**
   * A recurring schedule with a start time and a future start datetime is
   * computed from the start datetime: before publication the result does not
   * depend on the schedule time.
   */
  lemma AnchoredAtStartDateTime(s: Schedule, scheduleTime: int, now: int)
    requires !IsAlwaysActive(s) && s.startTime.Some?
    requires s.startDateTime.Some? && s.startDateTime.value > scheduleTime
    ensures ComputeNextRun(s, scheduleTime, now) == ComputeNextRun(s, s.startDateTime.value, now)
  {
  }

  /** Midnight starting Monday 1970-01-05 and Tuesday 1970-01-06. */
  const Monday: int := 4 * DayMs
  const Tuesday: int := 5 * DayMs

  /** An instant on Monday 1970-01-05. */
  lemma OnMonday(tod: int)
    requires 0 <= tod < DayMs
    ensures DayStart(Monday + tod) == Monday && TimeOfDay(Monday + tod) == tod && Weekday(Monday + tod) == 1
  {
    DivModUnique(Monday + tod, DayMs, 4, tod);
    DivModUnique(8, 7, 1, 1);
  }

  /** An instant on Tuesday 1970-01-06. */
  lemma OnTuesday(tod: int)
    requires 0 <= tod < DayMs
    ensures DayStart(Tuesday + tod) == Tuesday && TimeOfDay(Tuesday + tod) == tod && Weekday(Tuesday + tod) == 2
  {
    DivModUnique(Tuesday + tod, DayMs, 5, tod);
    DivModUnique(9, 7, 1, 2);
  }

  /** A time of day is its own time of day. */
  lemma TimeOfDayOfTime(time: int)
    requires 0 <= time < DayMs
    ensures TimeOfDay(time) == time
  {
    DivModUnique(time, DayMs, 0, time);
  }

  /** A search that moves `k` days lands on that day at `time`. */
  lemma SearchLands(days: seq<int>, time: int, t: int, direction: Direction, k: int)
    requires |days| > 0 && 0 <= time < DayMs && DaysUntil(days, time, t, direction) == k
    ensures NextDateTime(days, time, t, direction) == Some(DayStart(t) + k * DayMs + time)
  {
    ShiftedTime(t, time, k);
    TimeOfDayOfTime(time);
  }

  /** Monday to Friday, 08:00 to 09:00. */
  const WorkdayMorning: Schedule :=
    Schedule([1, 2, 3, 4, 5], Some(8 * HourMs), Some(9 * HourMs), None, None)

  /** On a Monday, a forward search for a later time of day stays on Monday. */
  lemma WorkdayForwardSameDay(tod: int, time: int)
    requires 0 <= tod <= time < DayMs
    ensures NextDateTime(WorkdayMorning.days, time, Monday + tod, Future) == Some(Monday + time)
  {
    var days := WorkdayMorning.days;
    var t := Monday + tod;
    OnMonday(tod);
    TimeOfDayOfTime(time);
    assert WithTimeOfDay(t, time) == Monday + time;
    assert BaseDay(time, t, Future) == 1;
    assert FirstAtLeast(days, 1) == Some(1);
    assert DaysUntil(days, time, t, Future) == 0;
    SearchLands(days, time, t, Future, 0);
  }

  /** On a Monday, a forward search for an earlier time of day moves to Tuesday. */
  lemma WorkdayForwardNextDay(tod: int, time: int)
    requires 0 <= time < tod < DayMs
    ensures NextDateTime(WorkdayMorning.days, time, Monday + tod, Future) == Some(Tuesday + time)
  {
    var days := WorkdayMorning.days;
    var t := Monday + tod;
    OnMonday(tod);
    TimeOfDayOfTime(time);
    assert WithTimeOfDay(t, time) == Monday + time;
    assert BaseDay(time, t, Future) == 2;
    assert FirstAtLeast(days, 2) == Some(2) by {
      assert days[1..] == [2, 3, 4, 5];
    }
    assert DaysUntil(days, time, t, Future) == 1;
    SearchLands(days, time, t, Future, 1);
  }

  /** On a Monday, a backward search for an earlier time of day stays on Monday. */
  lemma WorkdayBackwardSameDay(tod: int, time: int)
    requires 0 <= time <= tod < DayMs
    ensures NextDateTime(WorkdayMorning.days, time, Monday + tod, Past) == Some(Monday + time)
  {
    var days := WorkdayMorning.days;
    var t := Monday + tod;
    OnMonday(tod);
    TimeOfDayOfTime(time);
    assert WithTimeOfDay(t, time) == Monday + time;
    assert BaseDay(time, t, Past) == 1;
    var found := LastAtMost(days, 1);
    assert found.Some? by {
      assert days[0] <= 1;
    }
    var k :| 0 <= k < |days| && days[k] == found.value && found.value <= 1;
    assert forall i :: 0 <= i < |days| ==> days[i] >= 1;
    assert found == Some(1);
    assert PastDay(days, 1) == Some(1);
    assert DaysUntil(days, time, t, Past) == 0;
    SearchLands(days, time, t, Past, 0);
  }

  /** Before the window opens: not active, starting at 08:00 today and ending at 09:00. */
  lemma WorkdayMorningBeforeWindow(now: int)
    ensures var r := ComputeNextRun(WorkdayMorning, Monday + 7 * HourMs + 59 * MinuteMs, now);
      r == Ok(NextRun(Some(Monday + 8 * HourMs), Some(Monday + 9 * HourMs), false)) &&
      !IsActiveAt(true, r.value, Monday + 7 * HourMs + 59 * MinuteMs)
  {
    assert !IsAlwaysActive(WorkdayMorning);
    WorkdayForwardSameDay(7 * HourMs + 59 * MinuteMs, 8 * HourMs);
    WorkdayForwardSameDay(7 * HourMs + 59 * MinuteMs, 9 * HourMs);
  }

  /**
   * Inside the window: the forward start search has moved on to tomorrow, so
   * the start is recomputed by the backward search and the program is active
   * until 09:00.
   */
  lemma WorkdayMorningInsideWindow(now: int)
    ensures var r := ComputeNextRun(WorkdayMorning, Monday + 8 * HourMs + 30 * MinuteMs, now);
      r == Ok(NextRun(Some(Monday + 8 * HourMs), Some(Monday + 9 * HourMs), false)) &&
      IsActiveAt(true, r.value, Monday + 8 * HourMs + 30 * MinuteMs)
  {
    var t := Monday + 8 * HourMs + 30 * MinuteMs;
    var days := WorkdayMorning.days;
    assert !IsAlwaysActive(WorkdayMorning);
    assert StartSearchBase(WorkdayMorning, t) == t;
    WorkdayForwardNextDay(8 * HourMs + 30 * MinuteMs, 8 * HourMs);
    WorkdayForwardSameDay(8 * HourMs + 30 * MinuteMs, 9 * HourMs);
    WorkdayBackwardSameDay(8 * HourMs + 30 * MinuteMs, 8 * HourMs);
    assert EndSearch(WorkdayMorning, t, now) == Some(Monday + 9 * HourMs);
    assert IsAfter(Tuesday + 8 * HourMs, Some(Monday + 9 * HourMs), now);
    assert RecurringRun(WorkdayMorning, t, now) ==
      Ok(NextRun(NextDateTime(days, 8 * HourMs, t, Past), Some(Monday + 9 * HourMs), false));
  }

  /** After the window: not active, next run Tuesday 08:00 to 09:00. */
  lemma WorkdayMorningAfterWindow(now: int)
    ensures var r := ComputeNextRun(WorkdayMorning, Monday + 9 * HourMs + MinuteMs, now);
      r == Ok(NextRun(Some(Tuesday + 8 * HourMs), Some(Tuesday + 9 * HourMs), false)) &&
      !IsActiveAt(true, r.value, Monday + 9 * HourMs + MinuteMs)
  {
    assert !IsAlwaysActive(WorkdayMorning);
    WorkdayForwardNextDay(9 * HourMs + MinuteMs, 8 * HourMs);
    WorkdayForwardNextDay(9 * HourMs + MinuteMs, 9 * HourMs);
  }

  /** From a Monday instant after `time`, the forward search over Mondays alone returns Monday at `time`. */
  lemma MondayOnlyForwardFallsBack(tod: int, time: int)
    requires 0 <= time < tod < DayMs
    ensures NextDateTime([1], time, Monday + tod, Future) == Some(Monday + time)
  {
    var t := Monday + tod;
    OnMonday(tod);
    TimeOfDayOfTime(time);
    assert WithTimeOfDay(t, time) == Monday + time;
    assert BaseDay(time, t, Future) == 2;
    assert FirstAtLeast([1], 2) == None;
    assert FutureDay([1], 2) == Some(1);
    assert DaysUntil([1], time, t, Future) == 0;
    SearchLands([1], time, t, Future, 0);
  }

  /**
   * A start datetime does not hold a program back: Monday 08:00 to 09:00,
   * published at 08:30, is already active at 08:10, because the search from
   * the publication instant falls back to 08:00 on the publication day.
   */
  lemma ActiveBeforeStartDateTime(now: int)
    ensures var s := Schedule([1], Some(8 * HourMs), Some(9 * HourMs), Some(Monday + 8 * HourMs + 30 * MinuteMs), None);
      var t := Monday + 8 * HourMs + 10 * MinuteMs;
      var r := ComputeNextRun(s, t, now);
      r == Ok(NextRun(Some(Monday + 8 * HourMs), Some(Monday + 9 * HourMs), false)) &&
      IsActiveAt(true, r.value, t)
  {
    var p := Monday + 8 * HourMs + 30 * MinuteMs;
    MondayOnlyForwardFallsBack(8 * HourMs + 30 * MinuteMs, 8 * HourMs);
    OnMonday(8 * HourMs + 30 * MinuteMs);
    TimeOfDayOfTime(9 * HourMs);
    assert WithTimeOfDay(p, 9 * HourMs) == Monday + 9 * HourMs;
    assert BaseDay(9 * HourMs, p, Future) == 1;
    assert FirstAtLeast([1], 1) == Some(1);
    SearchLands([1], 9 * HourMs, p, Future, 0);
  }

  /**
   * A window spanning midnight is missed after midnight: Monday and Tuesday
   * 22:00 to 02:00 at Tuesday 01:00 yields Wednesday 22:00 to Tuesday 02:00,
   * and the program is not active although Monday's window is still open.
   */
  lemma MidnightSpanningWindowMissed(now: int)
    ensures var s := Schedule([1, 2], Some(22 * HourMs), Some(2 * HourMs), None, None);
      var t := Tuesday + HourMs;
      var r := ComputeNextRun(s, t, now);
      r == Ok(NextRun(Some(Tuesday + DayMs + 22 * HourMs), Some(Tuesday + 2 * HourMs), false)) &&
      !IsActiveAt(true, r.value, t)
  {
    var days := [1, 2];
    var t := Tuesday + HourMs;
    OnTuesday(HourMs);
    TimeOfDayOfTime(22 * HourMs);
    TimeOfDayOfTime(2 * HourMs);
    assert WithTimeOfDay(t, 22 * HourMs) == Tuesday + 22 * HourMs;
    assert WithTimeOfDay(t, 2 * HourMs) == Tuesday + 2 * HourMs;
    assert FirstAtLeast(days, 2) == Some(2);
    assert DaysUntil(days, 22 * HourMs, t, Future) == 0;
    SearchLands(days, 22 * HourMs, t, Future, 0);
    assert DaysUntil(days, 2 * HourMs, t, Future) == 0;
    SearchLands(days, 2 * HourMs, t, Future, 0);
    assert LastAtMost(days, 1) == Some(1) by {
      assert days[..1] == [1];
    }
    assert DaysUntil(days, 22 * HourMs, t, Past) == 1;
    SearchLands(days, 22 * HourMs, t, Past, 1);
  }

  /** A program: its definition, fixed at construction, and its computed state. */
  class Program {
    const kind: Value
    const url: Value
    const schedule: Schedule
    const options: Option<Options>
    var isEnabled: bool
    var isActive: bool
    var nextRun: Option<NextRun>

    /**
     * `new Program(config)`: starts enabled and inactive, copies every key of
     * the config over that (the schedule parsed), then enables the program
     * when `options.enabled` is truthy. A falsy `options.enabled` leaves the
     * copied or initial state; only a config's own `isEnabled: false`
     * disables the program.
     */
    constructor (config: Option<RawProgram>)
      ensures kind == (if config.Some? then config.value.kind else Undefined)
      ensures url == (if config.Some? then config.value.url else Undefined)
      ensures options == (if config.Some? then config.value.options else None)
      ensures schedule == ParseSchedule(config)
      ensures isEnabled == (
        (options.Some? && Truthy(options.value.enabled)) ||
        config.None? || config.value.isEnabled.GetOr(true))
      ensures isActive == (config.Some? && config.value.isActive.GetOr(false))
      ensures nextRun == (if config.Some? then config.value.nextRun else None)
    {
      kind := if config.Some? then config.value.kind else Undefined;
      url := if config.Some? then config.value.url else Undefined;
      options := if config.Some? then config.value.options else None;
      schedule := ParseSchedule(config);
      isEnabled := true;
      isActive := false;
      nextRun := None;
      if config.Some? {
        if config.value.isEnabled.Some? {
          isEnabled := config.value.isEnabled.value;
        }
        if config.value.isActive.Some? {
          isActive := config.value.isActive.value;
        }
        nextRun := config.value.nextRun;
      }
      new;
      if options.Some? && Truthy(options.value.enabled) {
        isEnabled := Truthy(options.value.enabled);
      }
    }

    /**
     * configureNextRun: stores the next run at `scheduleTime` and whether the
     * program is active then. When the computation throws, nothing is stored.
     */
    method ConfigureNextRun(scheduleTime: int, now: int) returns (r: Result<NextRun>)
      modifies this`nextRun, this`isActive
      ensures r == ComputeNextRun(schedule, scheduleTime, now)
      ensures r.Ok? ==> nextRun == Some(r.value) && isActive == IsActiveAt(isEnabled, r.value, scheduleTime)
      ensures r.Throws? ==> nextRun == old(nextRun) && isActive == old(isActive)
    {
      var s := schedule;
      var startAt: Option<int> := None;
      var endAt: Option<int> := None;
      var isExpired := false;
      if IsAlwaysActive(s) {
        if s.startDateTime.Some? {
          startAt := s.startDateTime;
        }
        if s.endDateTime.Some? {
          endAt := s.endDateTime;
          isExpired := endAt.value < scheduleTime;
        }
      } else {
        var recurring := RecurringNextRun(s, scheduleTime, now);
        if recurring.Throws? {
          return recurring;
        }
        startAt, endAt, isExpired := recurring.value.startAt, recurring.value.endAt, recurring.value.isExpired;
      }
      var run := NextRun(startAt, endAt, isExpired);
      nextRun := Some(run);
      isActive := isEnabled &&
        (startAt.None? || startAt.value <= scheduleTime) &&
        (endAt.None? || endAt.value > scheduleTime);
      r := Ok(run);
    }

    /** The computed part of the program: its next run and whether it is active. */
    function State(): RunState
      reads this
    {
      RunState(nextRun, isActive)
    }

    /** isEquivalent: another program is equivalent when it is present and has the same url and the same type. */
    predicate IsEquivalent(other: Option<Program>) {
      other.Some? && StrictEquals(other.value.url, url) && StrictEquals(other.value.kind, kind)
    }
  }

  /**
   * Two programs are equivalent exactly when they play the same url with the
   * same player type; schedule and options are not compared. Strict equality
   * makes a list-valued or NaN url or type unequal even to itself.
   */
  lemma EquivalentIffSamePlayer(p: Program, q: Program)
    ensures p.IsEquivalent(Some(q)) <==>
      q.url == p.url && q.kind == p.kind &&
      !p.url.List? && !p.kind.List? && !p.url.NaN? && !p.kind.NaN?
    ensures !p.IsEquivalent(None)
  {
  }

  /** Equivalence is symmetric and transitive. */
  lemma EquivalenceSymmetricTransitive(p: Program, q: Program, o: Program)
    ensures p.IsEquivalent(Some(q)) ==> q.IsEquivalent(Some(p))
    ensures p.IsEquivalent(Some(q)) && q.IsEquivalent(Some(o)) ==> p.IsEquivalent(Some(o))
  {
  }
}
