/**
 * A table of event listeners (src/utils/Eventable.js): `on` registers,
 * `off` unregisters, `fire` calls the listeners of one event in order.
 * Listeners are identified by the function object they are; the code they
 * run is not part of this model.
 */
module Events {
  import opened Js
  import opened Sequences

  /** A value handed to `on` or `off`: a function (by identity) or anything else. */
  datatype Listener = Function(id: nat) | NonFunction

  /** The listeners registered for `event`; an unregistered event has none. */
  function Registered(listeners: map<string, seq<Listener>>, event: string): seq<Listener> {
    if event in listeners then listeners[event] else []
  }

  /**
   * The listener list with every occurrence of `listener` removed and the
   * others kept in order.
   */
  function Without(list: seq<Listener>, listener: Listener): (r: seq<Listener>)
    ensures forall x :: x in r <==> x in list && x != listener
    ensures |r| <= |list|
    ensures |r| == |list| <==> listener !in list
    ensures IsSubsequence(r, list)
  {
    if |list| == 0 then []
    else
      var front := list[..|list| - 1];
      var last := list[|list| - 1];
      assert list == front + [last];
      var rest := Without(front, listener);
      if last == listener then
        SubsequenceExtend(rest, front, last);
        rest
      else
        SubsequenceKeep(rest, front, last);
        rest + [last]
  }

  /** Filtering distributes over concatenation. */
  lemma {:induction false} WithoutAppend(a: seq<Listener>, b: seq<Listener>, listener: Listener)
    ensures Without(a + b, listener) == Without(a, listener) + Without(b, listener)
    decreases |b|
  {
    if |b| > 0 {
      var front := b[..|b| - 1];
      assert a + b == (a + front) + [b[|b| - 1]];
      assert (a + b)[..|a + b| - 1] == a + front;
      WithoutAppend(a, front, listener);
    } else {
      assert a + b == a;
    }
  }

  /** Removing a listener twice removes nothing more. */
  lemma WithoutIdempotent(list: seq<Listener>, listener: Listener)
    ensures Without(Without(list, listener), listener) == Without(list, listener)
  {
  }

  /** Removing an absent listener changes nothing. */
  lemma {:induction false} WithoutAbsent(list: seq<Listener>, listener: Listener)
    requires listener !in list
    ensures Without(list, listener) == list
  {
    if |list| > 0 {
      var front := list[..|list| - 1];
      assert list == front + [list[|list| - 1]];
      WithoutAbsent(front, listener);
    }
  }

  /** `off` undoes `on` for a listener that was not registered before. */
  lemma OffUndoesOn(list: seq<Listener>, listener: Listener)
    requires listener !in list
    ensures Without(list + [listener], listener) == list
  {
    WithoutAppend(list, [listener], listener);
    WithoutAbsent(list, listener);
    assert Without([listener], listener) == [] by {
      assert [listener][..0] == [];
    }
  }

  /** The listener table of an object that fires events. */
  class Eventable {
    var listeners: map<string, seq<Listener>>

    /** Only functions are ever registered. */
    predicate Valid()
      reads this
    {
      forall event :: event in listeners ==> forall l :: l in listeners[event] ==> l.Function?
    }

    /** `listeners = {}`. */
    constructor ()
      ensures listeners == map[] && Valid()
    {
      listeners := map[];
    }

    /**
     * on: throws for a non-function and changes nothing; otherwise appends
     * the listener to the event's list and leaves other events alone.
     */
    method On(event: string, listener: Listener) returns (r: Result<()>)
      requires Valid()
      modifies this
      ensures Valid()
      ensures listener.NonFunction? ==> r == Throws(ListenerNotAFunction) && listeners == old(listeners)
      ensures listener.Function? ==>
        r.Ok? && listeners == old(listeners)[event := Registered(old(listeners), event) + [listener]]
    {
      if !listener.Function? {
        return Throws(ListenerNotAFunction);
      }
      listeners := listeners[event := Registered(listeners, event)];
      listeners := listeners[event := listeners[event] + [listener]];
      r := Ok(());
    }

    /**
     * off: without a listener, empties the event's list and answers whether
     * it had listeners, throwing (after emptying) if the event was never
     * registered. With a listener, an unregistered or empty event answers
     * false and changes nothing; otherwise every occurrence of the listener
     * is removed and the answer is whether the list shrank.
     */
    method Off(event: string, listener: Option<Listener>) returns (r: Result<bool>)
      requires Valid()
      modifies this
      ensures Valid()
      ensures listener.None? ==>
        listeners == old(listeners)[event := []] &&
        r == (if event in old(listeners) then Ok(|old(listeners)[event]| > 0) else Throws(TypeError))
      ensures listener.Some? && |Registered(old(listeners), event)| == 0 ==>
        listeners == old(listeners) && r == Ok(false)
      ensures listener.Some? && |Registered(old(listeners), event)| > 0 ==>
        listeners == old(listeners)[event := Without(old(listeners)[event], listener.value)] &&
        r == Ok(listener.value in old(listeners)[event])
    {
      var oldListeners := Registered(listeners, event);
      var registered := event in listeners;
      if listener.None? {
        listeners := listeners[event := []];
        if !registered {
          return Throws(TypeError);
        }
        return Ok(|oldListeners| > 0);
      } else if !registered || |listeners[event]| == 0 {
        return Ok(false);
      }
      listeners := listeners[event := Without(listeners[event], listener.value)];
      r := Ok(|oldListeners| > |listeners[event]|);
    }

    /**
     * fire: calls the event's listeners in registration order, returning the
     * calls made and whether there was at least one.
     */
    method Fire(event: string) returns (called: bool, invoked: seq<Listener>)
      ensures invoked == Registered(listeners, event)
      ensures called <==> |invoked| > 0
    {
      var list := Registered(listeners, event);
      invoked := [];
      if |list| > 0 {
        var i := 0;
        while i < |list|
          invariant 0 <= i <= |list|
          invariant invoked == list[..i]
        {
          invoked := invoked + [list[i]];
          i := i + 1;
        }
        assert list[..|list|] == list;
        return true, invoked;
      }
      return false, invoked;
    }
  }
}
