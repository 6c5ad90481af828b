/**
 * Scheduling of programs (src/services/scheduler/Scheduler.js): the
 * priority filter, the rotation step, the debug clock, and the per-program
 * decision of when to look at a program again.
 */
module Scheduling {
  import opened Js
  import opened Sequences
  import opened DateUtils
  import opened Programs

  // ---------------------------------------------------------------------
  // filterByHighestPriority (src/services/scheduler/Scheduler.js:15-29)
  // ---------------------------------------------------------------------

  /**
   * The `priority` the loop ends with: the largest truthy priority above 0,
   * or 0 when there is none.
   */
  function MaxPriority<T>(programs: seq<T>, priorityOf: T -> Option<int>): (m: int)
    ensures m >= 0
    ensures forall i :: 0 <= i < |programs| && priorityOf(programs[i]).Some? ==>
      priorityOf(programs[i]).value <= m
    ensures m > 0 ==> exists i :: 0 <= i < |programs| && priorityOf(programs[i]) == Some(m)
    decreases |programs|
  {
    if |programs| == 0 then 0
    else
      var front := programs[..|programs| - 1];
      var last := programs[|programs| - 1];
      var m := MaxPriority(front, priorityOf);
      var p := priorityOf(last);
      assert forall i :: 0 <= i < |front| ==> programs[i] == front[i];
      if p.Some? && p.value != 0 && p.value > m then p.value else m
  }

  /** The programs whose priority is exactly `m`, in their original order. */
  function WithPriority<T(==)>(programs: seq<T>, priorityOf: T -> Option<int>, m: int): seq<T>
    decreases |programs|
  {
    if |programs| == 0 then []
    else
      var rest := WithPriority(programs[..|programs| - 1], priorityOf, m);
      if priorityOf(programs[|programs| - 1]) == Some(m) then rest + [programs[|programs| - 1]] else rest
  }

  /** WithPriority keeps, in order, only programs of priority `m`. */
  lemma {:induction false} WithPriorityKeepsOnly<T>(programs: seq<T>, priorityOf: T -> Option<int>, m: int)
    ensures var r := WithPriority(programs, priorityOf, m);
      IsSubsequence(r, programs) &&
      forall i :: 0 <= i < |r| ==> r[i] in programs && priorityOf(r[i]) == Some(m)
    decreases |programs|
  {
    if |programs| > 0 {
      var front := programs[..|programs| - 1];
      var last := programs[|programs| - 1];
      assert programs == front + [last];
      var rest := WithPriority(front, priorityOf, m);
      var r := WithPriority(programs, priorityOf, m);
      WithPriorityKeepsOnly(front, priorityOf, m);
      if priorityOf(last) == Some(m) {
        assert r == rest + [last];
        SubsequenceKeep(rest, front, last);
        forall i | 0 <= i < |r|
          ensures r[i] in programs && priorityOf(r[i]) == Some(m)
        {
          if i < |rest| {
            assert r[i] == rest[i];
          }
        }
      } else {
        assert r == rest;
        SubsequenceExtend(rest, front, last);
        forall i | 0 <= i < |r|
          ensures r[i] in programs
        {
          assert r[i] in front;
        }
      }
    }
  }

  /** WithPriority keeps every program of priority `m`. */
  lemma {:induction false} WithPriorityKeepsAll<T>(programs: seq<T>, priorityOf: T -> Option<int>, m: int)
    ensures forall i :: 0 <= i < |programs| && priorityOf(programs[i]) == Some(m) ==>
      programs[i] in WithPriority(programs, priorityOf, m)
    decreases |programs|
  {
    if |programs| > 0 {
      var front := programs[..|programs| - 1];
      var rest := WithPriority(front, priorityOf, m);
      var r := WithPriority(programs, priorityOf, m);
      WithPriorityKeepsAll(front, priorityOf, m);
      assert forall x :: x in rest ==> x in r;
      forall i | 0 <= i < |programs| - 1 && priorityOf(programs[i]) == Some(m)
        ensures programs[i] in r
      {
        assert programs[i] == front[i];
      }
    }
  }

  /** With no program of priority `m`, WithPriority is empty. */
  lemma {:induction false} WithPriorityNone<T>(programs: seq<T>, priorityOf: T -> Option<int>, m: int)
    requires forall i :: 0 <= i < |programs| ==> priorityOf(programs[i]) != Some(m)
    ensures WithPriority(programs, priorityOf, m) == []
    decreases |programs|
  {
    if |programs| > 0 {
      var front := programs[..|programs| - 1];
      assert forall i :: 0 <= i < |front| ==> front[i] == programs[i];
      WithPriorityNone(front, priorityOf, m);
      assert priorityOf(programs[|programs| - 1]) != Some(m);
    }
  }

  /** What filterByHighestPriority returns. */
  function HighestPriority<T(==)>(programs: seq<T>, priorityOf: T -> Option<int>): seq<T> {
    var m := MaxPriority(programs, priorityOf);
    if m == 0 then programs else WithPriority(programs, priorityOf, m)
  }

  /** Without a positive priority every program is kept, in order. */
  lemma HighestPriorityKeepsAllWithoutPriority<T>(programs: seq<T>, priorityOf: T -> Option<int>)
    requires forall i :: 0 <= i < |programs| ==> priorityOf(programs[i]).None? || priorityOf(programs[i]).value <= 0
    ensures HighestPriority(programs, priorityOf) == programs
  {
  }

  /**
   * Otherwise exactly the programs whose priority is the highest one are
   * kept, in their original order.
   */
  lemma HighestPriorityKeepsTop<T>(programs: seq<T>, priorityOf: T -> Option<int>, k: int)
    requires 0 <= k < |programs| && priorityOf(programs[k]).Some? && priorityOf(programs[k]).value > 0
    ensures var r := HighestPriority(programs, priorityOf);
      IsSubsequence(r, programs) &&
      (forall i :: 0 <= i < |r| ==> r[i] in programs && priorityOf(r[i]) == Some(MaxPriority(programs, priorityOf))) &&
      (forall i :: 0 <= i < |programs| && priorityOf(programs[i]).Some? ==>
         priorityOf(programs[i]).value <= MaxPriority(programs, priorityOf)) &&
      (programs[k] in r <==>
         forall i :: 0 <= i < |programs| && priorityOf(programs[i]).Some? ==>
           priorityOf(programs[i]).value <= priorityOf(programs[k]).value)
  {
    var m := MaxPriority(programs, priorityOf);
    var r := WithPriority(programs, priorityOf, m);
    WithPriorityKeepsOnly(programs, priorityOf, m);
    WithPriorityKeepsAll(programs, priorityOf, m);
    var v := priorityOf(programs[k]).value;
    assert 0 < v <= m;
    assert HighestPriority(programs, priorityOf) == r;
    if programs[k] in r {
      var i :| 0 <= i < |r| && r[i] == programs[k];
      assert v == m;
    }
    if forall i :: 0 <= i < |programs| && priorityOf(programs[i]).Some? ==> priorityOf(programs[i]).value <= v {
      var w :| 0 <= w < |programs| && priorityOf(programs[w]) == Some(m);
      assert m <= v;
    }
  }

  /** One turn of the source's loop, stated on the function it computes. */
  lemma HighestPriorityStep<T>(programs: seq<T>, priorityOf: T -> Option<int>, x: T)
    ensures var m := MaxPriority(programs, priorityOf);
      var p := priorityOf(x);
      var raised := p.Some? && p.value != 0 && p.value > m;
      MaxPriority(programs + [x], priorityOf) == (if raised then p.value else m) &&
      HighestPriority(programs + [x], priorityOf) ==
        if raised then [x]
        else if m == 0 || p == Some(m) then HighestPriority(programs, priorityOf) + [x]
        else HighestPriority(programs, priorityOf)
  {
    var all := programs + [x];
    assert all[..|programs|] == programs;
    var p := priorityOf(x);
    if p.Some? && p.value != 0 && p.value > MaxPriority(programs, priorityOf) {
      WithPriorityNone(programs, priorityOf, p.value);
    }
  }

  /** filterByHighestPriority, the source's single pass. */
  method FilterByHighestPriority<T(==)>(programs: seq<T>, priorityOf: T -> Option<int>)
    returns (filtered: seq<T>)
    ensures filtered == HighestPriority(programs, priorityOf)
  {
    filtered := [];
    var priority := 0;
    var i := 0;
    while i < |programs|
      invariant 0 <= i <= |programs|
      invariant priority == MaxPriority(programs[..i], priorityOf)
      invariant filtered == HighestPriority(programs[..i], priorityOf)
    {
      var program := programs[i];
      var p := priorityOf(program);
      ghost var seen := programs[..i];
      assert programs[..i + 1] == seen + [program];
      HighestPriorityStep(seen, priorityOf, program);
      if p.Some? && p.value != 0 && p.value > priority {
        filtered := [program];
        priority := p.value;
      } else if priority == 0 || p == Some(priority) {
        filtered := filtered + [program];
      }
      assert priority == MaxPriority(seen + [program], priorityOf);
      assert filtered == HighestPriority(seen + [program], priorityOf);
      i := i + 1;
    }
    assert programs[..|programs|] == programs;
  }

  // ---------------------------------------------------------------------
  // rotateProgram / startRotate (src/services/scheduler/Scheduler.js:31-61)
  // ---------------------------------------------------------------------

  /** One call of rotateProgram: the program handed to the callback, the timer delay, the next index. */
  datatype Rotation<T> = Rotation(shown: T, delay: Value, nextIndex: nat)

  /**
   * rotateProgram: the timer delay is read from `schedule.options.length`
   * (given by `optionsOf`) before the callback runs, so a program without
   * options throws before it is shown; a length that is not a number gives
   * a NaN delay and the program is still shown.
   */
  function RotateProgram<T>(programs: seq<T>, index: nat, optionsOf: T -> Option<Options>): (r: Result<Rotation<T>>)
    requires index < |programs|
    ensures r.Ok? ==> r.value.nextIndex < |programs|
  {
    var current := programs[index];
    var options := optionsOf(current);
    if options.None? then Throws(TypeError)
    else Ok(Rotation(current, DelayOf(options.value), (index + 1) % |programs|))
  }

  /** startRotate: `undefined` for a missing or empty list, else the rotation from index 0. */
  function StartRotate<T>(programs: Option<seq<T>>, optionsOf: T -> Option<Options>): Option<Result<Rotation<T>>> {
    if programs.None? || |programs.value| == 0 then None
    else Some(RotateProgram(programs.value, 0, optionsOf))
  }

  /** The `k`-th call of rotateProgram after startRotate (the 0-th is startRotate's own). */
  function NthRotation<T>(programs: seq<T>, optionsOf: T -> Option<Options>, k: nat): (r: Result<Rotation<T>>)
    requires |programs| > 0
    ensures r.Ok? ==> r.value.nextIndex < |programs|
  {
    if k == 0 then RotateProgram(programs, 0, optionsOf)
    else
      var previous := NthRotation(programs, optionsOf, k - 1);
      if previous.Throws? then previous
      else RotateProgram(programs, previous.value.nextIndex, optionsOf)
  }

  /**
   * When every program has options, the `k`-th callback shows program
   * `k mod n` with the delay of its play length, and the next index is
   * `k + 1 mod n`.
   */
  lemma {:induction false} RotationShowsEachInTurn<T>(programs: seq<T>, optionsOf: T -> Option<Options>, k: nat)
    requires |programs| > 0
    requires forall i :: 0 <= i < |programs| ==> optionsOf(programs[i]).Some?
    ensures var n := |programs|;
      NthRotation(programs, optionsOf, k) ==
        Ok(Rotation(programs[k % n], DelayOf(optionsOf(programs[k % n]).value), (k + 1) % n))
  {
    var n := |programs|;
    if k == 0 {
      DivModUnique(0, n, 0, 0);
      DivModUnique(1, n, if n == 1 then 1 else 0, if n == 1 then 0 else 1);
    } else {
      RotationShowsEachInTurn(programs, optionsOf, k - 1);
      var previous := NthRotation(programs, optionsOf, k - 1);
      var index := k % n;
      assert previous == Ok(Rotation(programs[(k - 1) % n], DelayOf(optionsOf(programs[(k - 1) % n]).value), index));
      assert NthRotation(programs, optionsOf, k) == RotateProgram(programs, index, optionsOf);
      ModSucc(k, n);
    }
  }

  /** Whenever the first `k + 1` steps succeed, the next index is `k + 1 mod n`. */
  lemma {:induction false} RotationIndexFollowsSteps<T>(programs: seq<T>, optionsOf: T -> Option<Options>, k: nat)
    requires |programs| > 0
    requires NthRotation(programs, optionsOf, k).Ok?
    ensures NthRotation(programs, optionsOf, k).value.nextIndex == (k + 1) % |programs|
  {
    var n := |programs|;
    if k == 0 {
      DivModUnique(1, n, if n == 1 then 1 else 0, if n == 1 then 0 else 1);
    } else {
      var previous := NthRotation(programs, optionsOf, k - 1);
      assert previous.Ok?;
      RotationIndexFollowsSteps(programs, optionsOf, k - 1);
      var index := k % n;
      assert previous.value.nextIndex == index;
      assert NthRotation(programs, optionsOf, k) == RotateProgram(programs, index, optionsOf);
      ModSucc(k, n);
    }
  }

  /**
   * The rotation fails at its `k`-th step exactly when one of the programs
   * due at steps `0..k` has no options.
   */
  lemma {:induction false} RotationFailsIff<T>(programs: seq<T>, optionsOf: T -> Option<Options>, k: nat)
    requires |programs| > 0
    ensures NthRotation(programs, optionsOf, k).Throws? <==>
      exists j :: 0 <= j <= k && optionsOf(programs[j % |programs|]).None?
  {
    var n := |programs|;
    if k == 0 {
      assert 0 % n == 0;
    } else {
      RotationFailsIff(programs, optionsOf, k - 1);
      var previous := NthRotation(programs, optionsOf, k - 1);
      if previous.Ok? {
        RotationIndexFollowsSteps(programs, optionsOf, k - 1);
        assert previous.value.nextIndex == k % n;
        if optionsOf(programs[k % n]).None? {
          assert 0 <= k <= k && optionsOf(programs[k % n]).None?;
        }
      } else {
        var j :| 0 <= j <= k - 1 && optionsOf(programs[j % n]).None?;
        assert 0 <= j <= k && optionsOf(programs[j % n]).None?;
      }
    }
  }

  // ---------------------------------------------------------------------
  // The debug clock (src/services/scheduler/Scheduler.js:91-98, 137-167)
  // ---------------------------------------------------------------------

  /**
   * getScheduleTime: with a debug time set, now plus the time elapsed since it
   * was set; otherwise now. The debug time's own value is never read.
   */
  function ScheduleTime(debugTime: Option<int>, debugTimeSetAt: Option<int>, now: int): int
    requires debugTime.Some? ==> debugTimeSetAt.Some?
  {
    if debugTime.Some? then now + (now - debugTimeSetAt.value) else now
  }

  /** Without a debug time the schedule time is the wall clock. */
  lemma ScheduleTimeWithoutDebugIsNow(setAt: Option<int>, now: int)
    ensures ScheduleTime(None, setAt, now) == now
  {
  }

  /**
   * With a debug time set, the schedule time does not depend on the debug
   * time; it equals the wall clock when the debug time is set and then runs
   * at twice the wall clock's rate.
   */
  lemma ScheduleTimeIgnoresDebugTime(a: int, b: int, setAt: int, now: int)
    ensures ScheduleTime(Some(a), Some(setAt), now) == ScheduleTime(Some(b), Some(setAt), now)
    ensures ScheduleTime(Some(a), Some(setAt), setAt) == setAt
    ensures ScheduleTime(Some(a), Some(setAt), now) - setAt == 2 * (now - setAt)
  {
  }

  /**
   * Setting the debug time to 13:00 at 10:00 gives 10:10 five minutes later,
   * not the 13:05 the setter's documentation describes.
   */
  lemma DebugClockDoesNotFollowDebugTime()
    ensures var setAt := Monday + 10 * HourMs;
      ScheduleTime(Some(Monday + 13 * HourMs), Some(setAt), setAt + 5 * MinuteMs) ==
        Monday + 10 * HourMs + 10 * MinuteMs
  {
  }

  // ---------------------------------------------------------------------
  // schedule (src/services/scheduler/Scheduler.js:174-210)
  // ---------------------------------------------------------------------

  const ProgramStarted: string := "programStarted"
  const ProgramEnded: string := "programEnded"
  const UpdateEvent: string := "update"

  /** `String(program)`: every program object coerces to the same timer key. */
  const TimerKey: string := "[object Object]"

  /** What schedule does after configuring a program: nothing, or wait and fire an event. */
  datatype Plan = NoTimer | Wait(delayMs: int, event: string)

  /**
   * The decision in schedule: no timer for an expired or disabled program or
   * a missing target; otherwise wait for the end of an active run or the
   * start of an inactive one, and refuse a negative wait.
   */
  function PlanUpdate(run: NextRun, isEnabled: bool, isActive: bool, scheduleTime: int): Result<Plan> {
    if run.isExpired || !isEnabled then Ok(NoTimer)
    else
      var nextUpdateAt := if isActive then run.endAt else run.startAt;
      if nextUpdateAt.None? then Ok(NoTimer)
      else if nextUpdateAt.value - scheduleTime < 0 then Throws(NegativeWait)
      else Ok(Wait(nextUpdateAt.value - scheduleTime, if isActive then ProgramEnded else ProgramStarted))
  }

  /**
   * For a run configured at `scheduleTime`: the negative-wait error happens
   * exactly when an enabled, unexpired program is inactive and its start
   * has already passed; an active program waits a positive time for its end.
   */
  lemma PlanUpdateNegativeWaitIff(run: NextRun, isEnabled: bool, scheduleTime: int)
    ensures var isActive := IsActiveAt(isEnabled, run, scheduleTime);
      PlanUpdate(run, isEnabled, isActive, scheduleTime).Throws? <==>
        !run.isExpired && isEnabled && !isActive && run.startAt.Some? && run.startAt.value < scheduleTime
    ensures var isActive := IsActiveAt(isEnabled, run, scheduleTime);
      isActive && !run.isExpired && run.endAt.Some? ==>
        PlanUpdate(run, isEnabled, isActive, scheduleTime) ==
          Ok(Wait(run.endAt.value - scheduleTime, ProgramEnded)) &&
        run.endAt.value - scheduleTime > 0
  {
  }

  /**
   * A timer is armed exactly for an enabled, unexpired program with a target
   * (a moment, which is never falsy); its event says which end.
   */
  lemma PlanUpdateArmsIff(run: NextRun, isEnabled: bool, isActive: bool, scheduleTime: int)
    ensures PlanUpdate(run, isEnabled, isActive, scheduleTime) == Ok(NoTimer) <==>
      var target := if isActive then run.endAt else run.startAt;
      run.isExpired || !isEnabled || target.None?
    ensures PlanUpdate(run, isEnabled, isActive, scheduleTime).Ok? &&
            PlanUpdate(run, isEnabled, isActive, scheduleTime).value.Wait? ==>
      var plan := PlanUpdate(run, isEnabled, isActive, scheduleTime).value;
      plan.delayMs >= 0 &&
      (plan.event == ProgramEnded <==> isActive) &&
      scheduleTime + plan.delayMs == (if isActive then run.endAt else run.startAt).value
  {
  }

  /**
   * The negative-wait error is reachable: Monday 08:00 to 09:00, cut short by
   * an end datetime of 08:30, configured at 08:45, is inactive but its start
   * (08:00 today) has passed.
   */
  lemma NegativeWaitReachable(now: int)
    ensures var s := Schedule([1], Some(8 * HourMs), Some(9 * HourMs), None, Some(Monday + 8 * HourMs + 30 * MinuteMs));
      var t := Monday + 8 * HourMs + 45 * MinuteMs;
      var c := ComputeNextRun(s, t, now);
      c == Ok(NextRun(Some(Monday + 8 * HourMs), Some(Monday + 8 * HourMs + 30 * MinuteMs), false)) &&
      PlanUpdate(c.value, true, IsActiveAt(true, c.value, t), t) == Throws(NegativeWait)
  {
    var t := Monday + 8 * HourMs + 45 * MinuteMs;
    assert Weekday(t) == 1 && TimeOfDay(t) == 8 * HourMs + 45 * MinuteMs;
    assert FirstAtLeast([1], 2) == None;
    assert FirstAtLeast([1], 1) == Some(1);
    ShiftedTime(t, 8 * HourMs, 0);
    ShiftedTime(t, 9 * HourMs, 0);
  }

  // ---------------------------------------------------------------------
  // update (src/services/scheduler/Scheduler.js:216-219)
  // ---------------------------------------------------------------------

  /** The programs that are active, in their original order. */
  function ActiveOf(programs: seq<Program>): seq<Program>
    reads programs
    decreases |programs|
  {
    if |programs| == 0 then []
    else
      var rest := ActiveOf(programs[..|programs| - 1]);
      if programs[|programs| - 1].isActive then rest + [programs[|programs| - 1]] else rest
  }

  /**
   * ActiveOf keeps a subsequence of the programs holding every active
   * program and no inactive one.
   */
  lemma ActiveOfSelectsActive(programs: seq<Program>)
    ensures var r := ActiveOf(programs);
      IsSubsequence(r, programs) &&
      (forall i :: 0 <= i < |r| ==> r[i] in programs && r[i].isActive) &&
      (forall i :: 0 <= i < |programs| && programs[i].isActive ==> programs[i] in r)
  {
    ActiveOfIsSubsequence(programs);
    ActiveOfOnlyActive(programs);
    ActiveOfKeepsActive(programs);
  }

  /** The active programs keep their original order. */
  lemma {:induction false} ActiveOfIsSubsequence(programs: seq<Program>)
    ensures IsSubsequence(ActiveOf(programs), programs)
    decreases |programs|
  {
    if |programs| > 0 {
      var front := programs[..|programs| - 1];
      var last := programs[|programs| - 1];
      assert programs == front + [last];
      ActiveOfIsSubsequence(front);
      if last.isActive {
        SubsequenceKeep(ActiveOf(front), front, last);
      } else {
        SubsequenceExtend(ActiveOf(front), front, last);
      }
    }
  }

  /** Every program ActiveOf keeps is one of the programs, and active. */
  lemma {:induction false} ActiveOfOnlyActive(programs: seq<Program>)
    ensures forall x :: x in ActiveOf(programs) ==> x in programs && x.isActive
    decreases |programs|
  {
    if |programs| > 0 {
      var front := programs[..|programs| - 1];
      var last := programs[|programs| - 1];
      var rest := ActiveOf(front);
      ActiveOfOnlyActive(front);
      assert forall x :: x in front ==> x in programs;
      if last.isActive {
        assert ActiveOf(programs) == rest + [last];
      } else {
        assert ActiveOf(programs) == rest;
      }
    }
  }

  /** Every active program is kept by ActiveOf. */
  lemma {:induction false} ActiveOfKeepsActive(programs: seq<Program>)
    ensures forall i :: 0 <= i < |programs| && programs[i].isActive ==> programs[i] in ActiveOf(programs)
    decreases |programs|
  {
    if |programs| > 0 {
      var front := programs[..|programs| - 1];
      var last := programs[|programs| - 1];
      var rest := ActiveOf(front);
      ActiveOfKeepsActive(front);
      assert forall i :: 0 <= i < |front| ==> programs[i] == front[i];
      assert forall x :: x in rest ==> x in ActiveOf(programs);
    }
  }

  // ---------------------------------------------------------------------
  // Scheduler (src/services/scheduler/Scheduler.js:84-220)
  // ---------------------------------------------------------------------

  /** A pending setTimeout of schedule: its delay, the event it fires and the program it reschedules. */
  datatype Timer = Timer(delayMs: int, event: string, program: Program)

  /** The answer of schedule for PlanUpdate's decision `plan`: its error, no timer, or a timer carrying `program`. */
  function TimerOf(plan: Result<Plan>, program: Program): Result<Option<Timer>> {
    match plan
    case Throws(e) => Throws(e)
    case Ok(NoTimer) => Ok(None)
    case Ok(Wait(d, e)) => Ok(Some(Timer(d, e, program)))
  }

  /**
   * What schedule answers for a program configured at `scheduleTime` with
   * outcome `c`: the error configureNextRun threw, or PlanUpdate's decision
   * for the program's new activity, a timer carrying the program.
   */
  function Answer(c: Result<NextRun>, isEnabled: bool, scheduleTime: int, program: Program): Result<Option<Timer>> {
    if c.Throws? then Throws(c.error)
    else TimerOf(PlanUpdate(c.value, isEnabled, IsActiveAt(isEnabled, c.value, scheduleTime), scheduleTime), program)
  }

  /**
   * What schedule does to a program when configureNextRun at `scheduleTime`
   * gives `c`, and what it answers: a throwing configureNextRun leaves the
   * program's run and activity as they were; otherwise the run is stored
   * with the activity it gives; the answer is Answer's.
   */
  predicate Rescheduled(c: Result<NextRun>, scheduleTime: int, program: Program, isEnabled: bool,
                        before: RunState, after: RunState, r: Result<Option<Timer>>)
  {
    (c.Throws? ==> after == before) &&
    (c.Ok? ==> after == RunState(Some(c.value), IsActiveAt(isEnabled, c.value, scheduleTime))) &&
    r == Answer(c, isEnabled, scheduleTime, program)
  }

  /** An event the scheduler fired, with the program passed to listeners if any. */
  datatype Emitted = Emitted(event: string, program: Option<Program>)

  class Scheduler {
    var debugTime: Option<int>
    var debugTimeSetAt: Option<int>
    var programs: seq<Program>
    var activePrograms: seq<Program>
    var timers: map<string, Timer>
    var refreshRate: int
    /** The events fired so far, in order (the inherited `fire`). */
    var fired: seq<Emitted>

    /** Debug time and its setting time come and go together; timers share one key. */
    predicate Valid()
      reads this
    {
      (debugTime.Some? <==> debugTimeSetAt.Some?) && timers.Keys <= {TimerKey}
    }

    constructor ()
      ensures Valid()
      ensures debugTime.None? && debugTimeSetAt.None?
      ensures programs == [] && activePrograms == [] && timers == map[] && refreshRate == 0 && fired == []
    {
      debugTime := None;
      debugTimeSetAt := None;
      programs := [];
      activePrograms := [];
      timers := map[];
      refreshRate := 0;
      fired := [];
    }

    /** setDebugTime: records the debug time and the wall-clock time it was set. */
    method SetDebugTime(time: int, now: int)
      requires Valid()
      modifies this`debugTime, this`debugTimeSetAt
      ensures Valid()
      ensures debugTime == Some(time) && debugTimeSetAt == Some(now)
    {
      debugTime := Some(time);
      debugTimeSetAt := Some(now);
    }

    /** clearDebugTime: leaves debug mode. */
    method ClearDebugTime()
      requires Valid()
      modifies this`debugTime, this`debugTimeSetAt
      ensures Valid()
      ensures debugTime.None? && debugTimeSetAt.None?
    {
      debugTime := None;
      debugTimeSetAt := None;
    }

    /** getScheduleTime. */
    method GetScheduleTime(now: int) returns (t: int)
      requires Valid()
      ensures t == ScheduleTime(debugTime, debugTimeSetAt, now)
    {
      if debugTime.Some? {
        var elapsed := now - debugTimeSetAt.value;
        return now + elapsed;
      }
      return now;
    }

    /**
     * schedule: reschedules `program` one second past the schedule time, as
     * Rescheduled says, and records the
     * timer it arms under the one shared key; no other timer changes.
     */
    method Schedule(program: Program, now: int) returns (r: Result<Option<Timer>>)
      requires Valid()
      modifies this`timers, program`nextRun, program`isActive
      ensures Valid()
      ensures var scheduleTime := ScheduleTime(debugTime, debugTimeSetAt, now) + SecondMs;
        Rescheduled(ComputeNextRun(program.schedule, scheduleTime, now), scheduleTime, program,
                    program.isEnabled, old(program.State()), program.State(), r)
      ensures timers == if r.Ok? && r.value.Some? then old(timers)[TimerKey := r.value.value] else old(timers)
    {
      var scheduleTime := GetScheduleTime(now);
      scheduleTime := scheduleTime + SecondMs;
      var run := program.ConfigureNextRun(scheduleTime, now);
      if run.Throws? {
        return Throws(run.error);
      }
      r := ArmTimer(program, run.value, scheduleTime);
    }

    /**
     * The second half of schedule, once the program's run is configured:
     * arms the timer PlanUpdate decides on (under the one shared key) and
     * answers as TimerOf says.
     */
    method ArmTimer(program: Program, run: NextRun, scheduleTime: int) returns (r: Result<Option<Timer>>)
      requires Valid()
      modifies this`timers
      ensures Valid()
      ensures r == TimerOf(PlanUpdate(run, program.isEnabled, program.isActive, scheduleTime), program)
      ensures timers == if r.Ok? && r.value.Some? then old(timers)[TimerKey := r.value.value] else old(timers)
    {
      if run.isExpired || !program.isEnabled {
        return Ok(None);
      }
      var nextUpdateAt := if program.isActive then run.endAt else run.startAt;
      if nextUpdateAt.None? {
        return Ok(None);
      }
      var timeUntilNextUpdate := nextUpdateAt.value - scheduleTime;
      if timeUntilNextUpdate < 0 {
        return Throws(NegativeWait);
      }
      var event := if program.isActive then ProgramEnded else ProgramStarted;
      var timer := Timer(timeUntilNextUpdate, event, program);
      timers := timers[TimerKey := timer];
      r := Ok(Some(timer));
    }

    /** update: the active programs, in order, then the `update` event. */
    method Update()
      modifies this`activePrograms, this`fired
      ensures activePrograms == ActiveOf(programs)
      ensures fired == old(fired) + [Emitted(UpdateEvent, None)]
    {
      activePrograms := ActiveOf(programs);
      fired := fired + [Emitted(UpdateEvent, None)];
    }

    /** The callback's first three steps: drop the timer entry, fire the event, reschedule. */
    method Reschedule(timer: Timer, now: int) returns (r: Result<Option<Timer>>)
      requires Valid()
      modifies this`timers, this`fired, timer.program`nextRun, timer.program`isActive
      ensures Valid()
      ensures var scheduleTime := ScheduleTime(debugTime, debugTimeSetAt, now) + SecondMs;
        Rescheduled(ComputeNextRun(timer.program.schedule, scheduleTime, now), scheduleTime, timer.program,
                    timer.program.isEnabled, old(timer.program.State()), timer.program.State(), r)
      ensures timers == if r.Ok? && r.value.Some? then map[TimerKey := r.value.value] else map[]
      ensures fired == old(fired) + [Emitted(timer.event, Some(timer.program))]
    {
      timers := timers - {TimerKey};
      assert timers == map[];
      fired := fired + [Emitted(timer.event, Some(timer.program))];
      r := Schedule(timer.program, now);
    }

    /**
     * The callback of a timer armed by schedule: drops the (shared) timer
     * entry, fires the timer's event with its program, reschedules the
     * program as schedule does (its new run, activity and the answer are
     * those of Rescheduled) and, unless that throws, updates.
     */
    method TimerElapsed(timer: Timer, now: int) returns (r: Result<Option<Timer>>)
      requires Valid()
      modifies this`timers, this`activePrograms, this`fired, timer.program`nextRun, timer.program`isActive
      ensures Valid()
      ensures var scheduleTime := ScheduleTime(debugTime, debugTimeSetAt, now) + SecondMs;
        Rescheduled(ComputeNextRun(timer.program.schedule, scheduleTime, now), scheduleTime, timer.program,
                    timer.program.isEnabled, old(timer.program.State()), timer.program.State(), r)
      ensures r.Ok? && r.value.Some? ==> timers == map[TimerKey := r.value.value]
      ensures !(r.Ok? && r.value.Some?) ==> timers == map[]
      ensures r.Ok? ==>
        activePrograms == ActiveOf(programs) &&
        fired == old(fired) + [Emitted(timer.event, Some(timer.program)), Emitted(UpdateEvent, None)]
      ensures r.Throws? ==>
        activePrograms == old(activePrograms) &&
        fired == old(fired) + [Emitted(timer.event, Some(timer.program))]
    {
      r := Reschedule(timer, now);
      if r.Ok? {
        Update();
      }
    }
  }
}
