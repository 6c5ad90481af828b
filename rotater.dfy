/**
 * The rotater (src/services/scheduler/Rotater.js): cycles through a list of
 * programs, showing each for its play length. Each step is specified by a
 * function on the rotater's state; the class methods change the fields
 * step by step and are proved to agree with it. `activate` events are
 * recorded in `activated`; the timer is the delay handed to setTimeout
 * (NaN for a play length that is not a number).
 */
module Rotating {
  import opened Js
  import opened DateUtils
  import opened Programs

  /** The fields of a rotater. */
  datatype RotaterState = RotaterState(
    programs: seq<Program>,
    currentIndex: int,
    timer: Option<Value>,
    activated: seq<Program>)

  /** A step's outcome (it may throw part-way) and the state it leaves. */
  datatype Step = Step(outcome: Result<()>, after: RotaterState)

  /** A freshly constructed rotater. */
  const Initial: RotaterState := RotaterState([], -1, None, [])

  /** `currentIndex` points at a program exactly when there is one. */
  predicate IndexValid(s: RotaterState) {
    -1 <= s.currentIndex < |s.programs| && (s.currentIndex == -1 <==> |s.programs| == 0)
  }

  /** The program at index `i`, or nothing when `i` is out of range. */
  function At(programs: seq<Program>, i: int): Option<Program> {
    if 0 <= i < |programs| then Some(programs[i]) else None
  }

  /** The index of the first program equivalent to `shown`, or nothing when there is none. */
  function FirstEquivalent(programs: seq<Program>, shown: Option<Program>): (r: Option<nat>)
    ensures r.Some? ==>
      r.value < |programs| && programs[r.value].IsEquivalent(shown) &&
      (forall j :: 0 <= j < r.value ==> !programs[j].IsEquivalent(shown))
    ensures r.None? ==> forall j :: 0 <= j < |programs| ==> !programs[j].IsEquivalent(shown)
  {
    if |programs| == 0 then None
    else if programs[0].IsEquivalent(shown) then Some(0)
    else
      var rest := FirstEquivalent(programs[1..], shown);
      if rest.Some? then Some(rest.value + 1) else None
  }

  /** The index after `currentIndex`, cyclically; -1 for no programs. */
  function NextIndex(currentIndex: int, n: nat): int
    requires currentIndex >= -1
  {
    if n > 0 then (currentIndex + 1) % n else -1
  }

  /**
   * activateProgram: moves to the next index and clears the timer; if the
   * program there is not equivalent to the one at the old index it is
   * activated and, with more than one program, a timer of its play length
   * is set (throwing when it has no options, a NaN delay when the length is
   * not a number).
   */
  function Activate(s: RotaterState): Step
    requires s.currentIndex >= -1
  {
    var oldProgram := At(s.programs, s.currentIndex);
    var currentIndex := NextIndex(s.currentIndex, |s.programs|);
    var program := At(s.programs, currentIndex);
    if program.Some? && !program.value.IsEquivalent(oldProgram) then
      var activated := s.activated + [program.value];
      if |s.programs| > 1 then
        if program.value.options.None? then
          Step(Throws(TypeError), RotaterState(s.programs, currentIndex, None, activated))
        else
          Step(Ok(()), RotaterState(s.programs, currentIndex,
                                    Some(DelayOf(program.value.options.value)), activated))
      else Step(Ok(()), RotaterState(s.programs, currentIndex, None, activated))
    else Step(Ok(()), RotaterState(s.programs, currentIndex, None, s.activated))
  }

  /**
   * updatePrograms: replaces the list (`[]` for none). If a given list holds
   * a program equivalent to the one shown, the index moves to the first
   * such program and a running timer is kept; otherwise it activates.
   */
  function Update(s: RotaterState, given: Option<seq<Program>>): Step
    requires s.currentIndex >= -1
  {
    var oldProgram := At(s.programs, s.currentIndex);
    var replaced := s.(programs := given.GetOr([]));
    var newIndex := if given.Some? then FirstEquivalent(given.value, oldProgram) else None;
    if newIndex.Some? then
      var kept := replaced.(currentIndex := newIndex.value);
      if s.timer.Some? then Step(Ok(()), kept) else Activate(kept)
    else Activate(replaced)
  }

  // ---------------------------------------------------------------------
  // Properties
  // ---------------------------------------------------------------------

  /**
   * After activateProgram the index is the next one cyclically, and it
   * points at a program exactly when there is one; the list is unchanged.
   */
  lemma ActivateIndex(s: RotaterState)
    requires s.currentIndex >= -1
    ensures var a := Activate(s).after;
      a.programs == s.programs &&
      a.currentIndex == (if |s.programs| > 0 then (s.currentIndex + 1) % |s.programs| else -1) &&
      IndexValid(a)
  {
  }

  /**
   * activateProgram fires exactly when the new program is not equivalent to
   * the old one, and leaves a timer only after firing with more than one
   * program: any earlier timer is gone.
   */
  lemma ActivateFiresIff(s: RotaterState)
    requires s.currentIndex >= -1
    ensures var a := Activate(s).after;
      var oldProgram := At(s.programs, s.currentIndex);
      var program := At(s.programs, NextIndex(s.currentIndex, |s.programs|));
      var fires := program.Some? && !program.value.IsEquivalent(oldProgram);
      a.activated == (if fires then s.activated + [program.value] else s.activated) &&
      (a.timer.Some? <==> fires && |s.programs| > 1 && program.value.options.Some?) &&
      (a.timer.Some? ==> a.timer.value == DelayOf(program.value.options.value)) &&
      (Activate(s).outcome.Throws? <==> fires && |s.programs| > 1 && program.value.options.None?)
  {
  }

  /** With a single program, activating again shows nothing new and sets no timer. */
  lemma SingleProgramRepeatIsSilent(p: Program, activated: seq<Program>, timer: Option<Value>)
    requires !p.url.List? && !p.url.NaN? && !p.kind.List? && !p.kind.NaN?
    ensures Activate(RotaterState([p], 0, timer, activated)) ==
      Step(Ok(()), RotaterState([p], 0, None, activated))
  {
  }

  /**
   * updatePrograms keeps a running rotation: when the new list holds a
   * program equivalent to the one shown and a timer runs, only the list and
   * the index change, to the first equivalent program.
   */
  lemma UpdateKeepsEquivalentProgram(s: RotaterState, given: seq<Program>, i: nat)
    requires s.currentIndex >= -1 && s.timer.Some?
    requires i < |given| && given[i].IsEquivalent(At(s.programs, s.currentIndex))
    ensures var u := Update(s, Some(given));
      u.outcome.Ok? &&
      u.after == s.(programs := given, currentIndex := FirstEquivalent(given, At(s.programs, s.currentIndex)).value) &&
      u.after.currentIndex <= i
  {
  }

  /** Both operations keep the index pointing at a program exactly when there is one. */
  lemma UpdateKeepsIndexValid(s: RotaterState, given: Option<seq<Program>>)
    requires s.currentIndex >= -1
    ensures IndexValid(Update(s, given).after)
    ensures Update(s, given).after.programs == given.GetOr([])
  {
  }

  /**
   * The first list given to a new rotater starts with its first program:
   * it is activated and, with a second program, timed by its play length.
   */
  lemma FirstUpdateActivatesFirstProgram(a: Program, b: Program)
    requires a.options.Some?
    ensures Update(Initial, Some([a, b])) ==
      Step(Ok(()), RotaterState([a, b], 0, Some(DelayOf(a.options.value)), [a]))
  {
  }

  /** `k` activations in a row. */
  function ActivateTimes(s: RotaterState, k: nat): (r: RotaterState)
    requires s.currentIndex >= -1
    ensures r.currentIndex >= -1 && r.programs == s.programs
  {
    if k == 0 then s
    else
      ActivateIndex(ActivateTimes(s, k - 1));
      Activate(ActivateTimes(s, k - 1)).after
  }

  /**
   * Successive activations walk the list cyclically: from index `c`, `k`
   * activations reach index `c + k mod n`, whatever the programs are.
   */
  lemma {:induction false} ActivateTimesCycles(s: RotaterState, k: nat)
    requires 0 <= s.currentIndex < |s.programs|
    ensures ActivateTimes(s, k).currentIndex == (s.currentIndex + k) % |s.programs|
  {
    if k == 0 {
      DivModUnique(s.currentIndex, |s.programs|, 0, s.currentIndex);
    } else {
      ActivateTimesCycles(s, k - 1);
      ActivateIndex(ActivateTimes(s, k - 1));
      ModSucc(s.currentIndex + k - 1, |s.programs|);
    }
  }

  /** The rotater object. */
  class Rotater {
    var programs: seq<Program>
    var currentIndex: int
    var timer: Option<Value>
    /** The programs passed to `activate` listeners, in order. */
    var activated: seq<Program>

    function Snapshot(): RotaterState
      reads this
    {
      RotaterState(programs, currentIndex, timer, activated)
    }

    constructor ()
      ensures Snapshot() == Initial
    {
      programs := [];
      currentIndex := -1;
      timer := None;
      activated := [];
    }

    /** activateProgram, as Activate specifies. */
    method ActivateProgram() returns (r: Result<()>)
      requires currentIndex >= -1
      modifies this
      ensures Step(r, Snapshot()) == Activate(old(Snapshot()))
    {
      var oldProgram := At(programs, currentIndex);
      currentIndex := if |programs| > 0 then (currentIndex + 1) % |programs| else -1;
      var program := At(programs, currentIndex);
      if timer.Some? {
        timer := None;
      }
      if program.Some? && !program.value.IsEquivalent(oldProgram) {
        activated := activated + [program.value];
        if |programs| > 1 {
          if program.value.options.None? {
            return Throws(TypeError);
          }
          timer := Some(DelayOf(program.value.options.value));
        }
      }
      r := Ok(());
    }

    /** updatePrograms, as Update specifies. */
    method UpdatePrograms(given: Option<seq<Program>>) returns (r: Result<()>)
      requires currentIndex >= -1
      modifies this
      ensures Step(r, Snapshot()) == Update(old(Snapshot()), given)
    {
      var oldPrograms := programs;
      programs := given.GetOr([]);
      if given.Some? {
        var oldProgram := At(oldPrograms, currentIndex);
        var newIndex := FirstEquivalent(given.value, oldProgram);
        if newIndex.Some? {
          currentIndex := newIndex.value;
          if timer.Some? {
            return Ok(());
          }
        }
      }
      r := ActivateProgram();
    }
  }
}
