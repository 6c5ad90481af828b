/**
 * The few JavaScript runtime notions the schedule engine depends on:
 * `undefined` as an optional value, thrown exceptions as a result, dynamic
 * values with JavaScript truthiness, and strict equality (`===`).
 */
module Js {

  /** A value that may be `undefined`. */
  datatype Option<+T> = None | Some(value: T) {
    function GetOr(default: T): T {
      match this
      case Some(v) => v
      case None => default
    }
  }

  /** The outcome of a call that may throw. */
  datatype Result<+T> = Ok(value: T) | Throws(error: Error)

  /** The exceptions the core raises. */
  datatype Error =
    | TypeError              // a property or method of `undefined` (or a missing method) was used
    | ListenerNotAFunction   // Eventable.on was given a non-function listener
    | NegativeWait           // Scheduler.schedule computed a negative delay
    | MissingProgramData     // transformAcfData found no schedule_repeater

  /**
   * A dynamic JavaScript value as it arrives from the API. Arrays only ever
   * hold strings here (day names), which is all the data uses.
   */
  datatype Value =
    | Undefined
    | Null
    | Bool(b: bool)
    | Num(n: int)
    | NaN
    | Str(s: string)
    | List(items: seq<string>)

  /** JavaScript truthiness. */
  predicate Truthy(v: Value) {
    match v
    case Undefined => false
    case Null => false
    case Bool(b) => b
    case Num(n) => n != 0
    case NaN => false
    case Str(s) => s != ""
    case List(_) => true
  }

  /** `==` against `null`: true of `null` and `undefined` only. */
  predicate LooseNull(v: Value) {
    v.Undefined? || v.Null?
  }

  /**
   * Strict equality. `NaN` equals nothing, itself included. Arrays are objects and
   * compare by reference; two arrays built from API data are distinct
   * objects, so a list is never strictly equal to anything here.
   */
  predicate StrictEquals(a: Value, b: Value) {
    a == b && !a.List? && !a.NaN?
  }
}

/** Order-preserving sublists, the shape of `Array.prototype.filter` results. */
module Sequences {

  /** `a` is `b` with some elements left out, the rest in their original order. */
  predicate IsSubsequence<T(==)>(a: seq<T>, b: seq<T>)
    decreases |b|
  {
    if |a| == 0 then true
    else if |b| == 0 then false
    else if a[|a| - 1] == b[|b| - 1] then IsSubsequence(a[..|a| - 1], b[..|b| - 1])
    else IsSubsequence(a, b[..|b| - 1])
  }

  /** Appending to `b` keeps a subsequence. */
  lemma {:induction false} SubsequenceExtend<T>(a: seq<T>, b: seq<T>, x: T)
    requires IsSubsequence(a, b)
    ensures IsSubsequence(a, b + [x])
    decreases |b|, 1
  {
    assert (b + [x])[..|b|] == b;
    if |a| > 0 && a[|a| - 1] == x {
      SubsequenceDropLast(a, b);
    }
  }

  /** Dropping the last element of `a` keeps a subsequence. */
  lemma {:induction false} SubsequenceDropLast<T>(a: seq<T>, b: seq<T>)
    requires |a| > 0 && IsSubsequence(a, b)
    ensures IsSubsequence(a[..|a| - 1], b)
    decreases |b|, 0
  {
    var front := b[..|b| - 1];
    assert b == front + [b[|b| - 1]];
    if a[|a| - 1] != b[|b| - 1] {
      SubsequenceDropLast(a, front);
    }
    SubsequenceExtend(a[..|a| - 1], front, b[|b| - 1]);
  }

  /** Keeping the last element of both extends a subsequence. */
  lemma SubsequenceKeep<T>(a: seq<T>, b: seq<T>, x: T)
    requires IsSubsequence(a, b)
    ensures IsSubsequence(a + [x], b + [x])
  {
    assert (b + [x])[..|b|] == b;
    assert (a + [x])[..|a|] == a;
  }

  /** A sequence is a subsequence of itself. */
  lemma {:induction false} SubsequenceRefl<T>(a: seq<T>)
    ensures IsSubsequence(a, a)
  {
    if |a| > 0 {
      SubsequenceRefl(a[..|a| - 1]);
    }
  }
}
