/**
 * Global action listeners of crates/gpui/src/app.rs under re-entrant dispatch.
 *
 * While an action is dispatched its listener list is out of the table, and listeners may
 * register further listeners, stop or restart propagation, and dispatch again, the same
 * action included. What each listener call does is arbitrary, so it is a parameter: an
 * `Act` that dispatches carries what the listeners of that dispatch do, call by call, and
 * calls beyond the end of such a list do nothing.
 */
module GlobalActions {
  import opened Wrappers

  type ActionType = nat
  type Listener = nat

  datatype Act =
    | Register(action: ActionType, listener: Listener)
    | SetPropagate(propagate: bool)
    | Dispatch(action: ActionType, capture: seq<Call>, bubble: seq<Call>)

  /** What one listener call does. */
  datatype Call = Call(acts: seq<Act>)

  datatype Registration = Registration(action: ActionType, listener: Listener)

  type Table = map<ActionType, seq<Listener>>

  function Get(table: Table, action: ActionType): seq<Listener> {
    if action in table then table[action] else []
  }

  /** The listeners registered for the action, in registration order. */
  function Of(log: seq<Registration>, action: ActionType): seq<Listener> {
    if log == [] then []
    else
      var front := Of(log[..|log| - 1], action);
      var r := log[|log| - 1];
      if r.action == action then front + [r.listener] else front
  }

  lemma {:induction false} OfConcat(a: seq<Registration>, b: seq<Registration>, action: ActionType)
    ensures Of(a + b, action) == Of(a, action) + Of(b, action)
  {
    if b == [] {
      assert a + b == a;
    } else {
      OfConcat(a, b[..|b| - 1], action);
      assert (a + b)[..|a + b| - 1] == a + b[..|b| - 1];
    }
  }

  /** Every list of the table is the list it was, followed by what was registered since. */
  ghost predicate Extended(table: Table, log: seq<Registration>, table': Table, log': seq<Registration>) {
    && log <= log'
    && forall a :: Get(table', a) == Get(table, a) + Of(log'[|log|..], a)
  }

  lemma ExtendedSame(table: Table, log: seq<Registration>)
    ensures Extended(table, log, table, log)
  {}

  lemma ExtendedLog(table: Table, log: seq<Registration>, table': Table, log': seq<Registration>)
    requires Extended(table, log, table', log')
    ensures log <= log'
  {}

  lemma ExtendedTransitive(t0: Table, l0: seq<Registration>, t1: Table, l1: seq<Registration>, t2: Table, l2: seq<Registration>)
    requires Extended(t0, l0, t1, l1) && Extended(t1, l1, t2, l2)
    ensures Extended(t0, l0, t2, l2)
  {
    hide Of;
    hide Get;
    assert l2[|l0|..] == l1[|l0|..] + l2[|l1|..];
    forall a ensures Get(t2, a) == Get(t0, a) + Of(l2[|l0|..], a) {
      OfConcat(l1[|l0|..], l2[|l1|..], a);
    }
  }

  /** Taking a list out, running listeners, and putting it back before what they registered. */
  lemma TakenAndPutBack(table: Table, log: seq<Registration>, action: ActionType, table': Table, log': seq<Registration>)
    requires Extended(table - {action}, log, table', log')
    ensures Extended(table, log, table'[action := Get(table, action) + Get(table', action)], log')
  {}

  /** A table that lists exactly what was registered keeps doing so through any dispatch. */
  lemma NothingLostOrDuplicated(table: Table, log: seq<Registration>, table': Table, log': seq<Registration>)
    requires forall a :: Get(table, a) == Of(log, a)
    requires Extended(table, log, table', log')
    ensures forall a :: Get(table', a) == Of(log', a)
  {
    hide Of;
    assert log' == log + log'[|log|..];
    forall a ensures Get(table', a) == Of(log', a) {
      OfConcat(log, log'[|log|..], a);
    }
  }

  // ----- What listener calls do -----------------------------------------------------

  /** What call `k` does; nothing beyond the end of the list. */
  function ActsOf(calls: seq<Call>, k: nat): seq<Act> {
    if k < |calls| then calls[k].acts else []
  }

  /**
   * Whether a call lets the action through to the next listener, as far as its acts decide:
   * the last change of the flag counts. `None` when that is left to a nested dispatch.
   */
  function Verdict(acts: seq<Act>): Option<bool> {
    if acts == [] then Some(true)
    else
      match acts[|acts| - 1]
      case Register(_, _) => Verdict(acts[..|acts| - 1])
      case SetPropagate(propagate) => Some(propagate)
      case Dispatch(_, _, _) => None
  }

  /** The acts can have made exactly the given registrations, in this order. */
  ghost predicate Logs(acts: seq<Act>, made: seq<Registration>)
    decreases acts
  {
    if acts == [] then made == []
    else exists cut: nat :: cut <= |made| && Logs(acts[..|acts| - 1], made[..cut]) && LogsOne(acts[|acts| - 1], made[cut..])
  }

  /** A nested dispatch makes the registrations of some of its calls, from the first one on. */
  ghost predicate LogsOne(act: Act, made: seq<Registration>)
    decreases act, 0
  {
    match act
    case Register(action, listener) => made == [Registration(action, listener)]
    case SetPropagate(_) => made == []
    case Dispatch(_, capture, bubble) =>
      exists cut: nat, i: nat, j: nat ::
        cut <= |made| && LogsCalls(act, capture, i, made[..cut]) && LogsCalls(act, bubble, j, made[cut..])
  }

  /** The first `n` calls, of one phase of the dispatch, can have made exactly the given registrations. */
  ghost predicate LogsCalls(act: Act, calls: seq<Call>, n: nat, made: seq<Registration>)
    requires act.Dispatch? && (calls == act.capture || calls == act.bubble)
    decreases act, 0, n
  {
    if n == 0 then made == []
    else
      exists cut: nat ::
        && cut <= |made| && LogsCalls(act, calls, n - 1, made[..cut])
        && if n - 1 < |calls| then Logs(calls[n - 1].acts, made[cut..]) else made[cut..] == []
  }

  lemma LogsNothing()
    ensures Logs([], []) && Verdict([]) == Some(true)
    ensures forall act: Act, calls :: act.Dispatch? && (calls == act.capture || calls == act.bubble) ==> LogsCalls(act, calls, 0, [])
  {}

  lemma LogsNext(acts: seq<Act>, act: Act, made: seq<Registration>, more: seq<Registration>)
    requires Logs(acts, made) && LogsOne(act, more)
    ensures Logs(acts + [act], made + more)
  {
    assert (acts + [act])[..|acts|] == acts;
    assert (made + more)[..|made|] == made && (made + more)[|made|..] == more;
  }

  lemma LogsCallsNext(act: Act, calls: seq<Call>, n: nat, made: seq<Registration>, more: seq<Registration>)
    requires act.Dispatch? && (calls == act.capture || calls == act.bubble)
    requires LogsCalls(act, calls, n, made) && Logs(ActsOf(calls, n), more)
    ensures LogsCalls(act, calls, n + 1, made + more)
  {
    assert (made + more)[..|made|] == made && (made + more)[|made|..] == more;
  }

  lemma LogsDispatch(act: Act, i: nat, j: nat, made: seq<Registration>, more: seq<Registration>)
    requires act.Dispatch? && LogsCalls(act, act.capture, i, made) && LogsCalls(act, act.bubble, j, more)
    ensures LogsOne(act, made + more)
  {
    assert (made + more)[..|made|] == made && (made + more)[|made|..] == more;
  }

  /** A registration is made whatever else the call does; without nested dispatches nothing else is. */
  lemma {:induction false} LogsIs(acts: seq<Act>, made: seq<Registration>)
    requires Logs(acts, made)
    ensures forall a, l :: Register(a, l) in acts ==> Registration(a, l) in made
    ensures (forall k :: 0 <= k < |acts| ==> !acts[k].Dispatch?) ==> forall r :: r in made ==> Register(r.action, r.listener) in acts
  {
    if acts != [] {
      var front, last := acts[..|acts| - 1], acts[|acts| - 1];
      assert acts == front + [last];
      var cut: nat :| cut <= |made| && Logs(front, made[..cut]) && LogsOne(last, made[cut..]);
      assert made == made[..cut] + made[cut..];
      LogsIs(front, made[..cut]);
    }
  }

  lemma VerdictIs(acts: seq<Act>, act: Act)
    ensures Verdict([]) == Some(true)
    ensures act.Register? ==> Verdict(acts + [act]) == Verdict(acts)
    ensures act.SetPropagate? ==> Verdict(acts + [act]) == Some(act.propagate)
    ensures act.Dispatch? ==> Verdict(acts + [act]) == None
  {
    assert (acts + [act])[..|acts|] == acts;
  }

  function Reverse<T>(s: seq<T>): (r: seq<T>)
    ensures |r| == |s| && forall k :: 0 <= k < |s| ==> r[k] == s[|s| - 1 - k]
  {
    if s == [] then [] else [s[|s| - 1]] + Reverse(s[..|s| - 1])
  }

  class App {
    var globalActionListeners: Table
    var propagateEvent: bool
    /** Every registration so far. */
    ghost var log: seq<Registration>

    constructor ()
      ensures globalActionListeners == map[] && propagateEvent && log == []
      ensures forall a :: Get(globalActionListeners, a) == Of(log, a)
    {
      globalActionListeners, propagateEvent, log := map[], true, [];
    }

    method OnAction(action: ActionType, listener: Listener)
      modifies this`globalActionListeners, this`log
      ensures log == old(log) + [Registration(action, listener)]
      ensures globalActionListeners == old(globalActionListeners)[action := Get(old(globalActionListeners), action) + [listener]]
      ensures Extended(old(globalActionListeners), old(log), globalActionListeners, log)
    {
      globalActionListeners := globalActionListeners[action := Get(globalActionListeners, action) + [listener]];
      log := log + [Registration(action, listener)];
      assert log[|old(log)|..] == [Registration(action, listener)];
      forall a ensures Of([Registration(action, listener)], a) == if a == action then [listener] else [] {
        assert [Registration(action, listener)][..0] == [];
      }
    }

    /** What one listener call does; the flag is up when the listener is called. */
    method RunActs(acts: seq<Act>)
      requires propagateEvent
      modifies this
      ensures Extended(old(globalActionListeners), old(log), globalActionListeners, log)
      ensures Logs(acts, log[|old(log)|..])
      ensures Verdict(acts) == None || Verdict(acts) == Some(propagateEvent)
      decreases acts
    {
      hide Of;
      hide Extended;
      hide Logs;
      hide Verdict;
      ExtendedSame(globalActionListeners, log);
      LogsNothing();
      assert acts[..0] == [] && log[|log|..] == [];
      for i := 0 to |acts|
        invariant old(log) <= log
        invariant Extended(old(globalActionListeners), old(log), globalActionListeners, log)
        invariant Logs(acts[..i], log[|old(log)|..])
        invariant Verdict(acts[..i]) == None || Verdict(acts[..i]) == Some(propagateEvent)
      {
        ghost var table, log0 := globalActionListeners, log;
        match acts[i] {
          case Register(action, listener) =>
            OnAction(action, listener);
          case SetPropagate(propagate) =>
            propagateEvent := propagate;
          case Dispatch(_, _, _) =>
            var _, _, _ := DispatchGlobalAction(acts[i]);
        }
        ExtendedSame(globalActionListeners, log);
        ExtendedTransitive(old(globalActionListeners), old(log), table, log0, globalActionListeners, log);
        VerdictIs(acts[..i], acts[i]);
        LogsNext(acts[..i], acts[i], log0[|old(log)|..], log[|log0|..]);
        assert acts[..i + 1] == acts[..i] + [acts[i]];
        assert log[|old(log)|..] == log0[|old(log)|..] + log[|log0|..];
      }
      assert acts[..|acts|] == acts;
    }

    /**
     * Dispatching leaves every listener list as it was, followed by what was registered
     * meanwhile. `captured` are the listeners called on the way in, in registration order;
     * `bubbled` those called on the way out, in reverse order of the list that stood after the
     * capture phase, `inside` being the log at that point: listeners registered during
     * capture are called on the way out. A call that stops the propagation is the last one,
     * and only such a call cuts either list short.
     */
    method DispatchGlobalAction(act: Act) returns (captured: seq<Listener>, bubbled: seq<Listener>, ghost inside: seq<Registration>)
      requires act.Dispatch?
      modifies this
      ensures Extended(old(globalActionListeners), old(log), globalActionListeners, log)
      ensures old(log) <= inside <= log
      ensures LogsCalls(act, act.capture, |captured|, inside[|old(log)|..])
      ensures LogsCalls(act, act.bubble, |bubbled|, log[|inside|..])
      ensures LogsOne(act, log[|old(log)|..])
      // The calls on the way in.
      ensures captured <= Get(old(globalActionListeners), act.action)
      ensures forall k :: 0 <= k < |captured| && Verdict(ActsOf(act.capture, k)) == Some(false) ==> |captured| == k + 1 && bubbled == []
      ensures captured != Get(old(globalActionListeners), act.action) ==>
                captured != [] && Verdict(ActsOf(act.capture, |captured| - 1)) != Some(true) && bubbled == [] && !propagateEvent
      // The calls on the way out.
      ensures var mid := Get(old(globalActionListeners), act.action) + Of(inside[|old(log)|..], act.action);
              && bubbled <= Reverse(mid)
              && (forall k :: 0 <= k < |bubbled| && Verdict(ActsOf(act.bubble, k)) == Some(false) ==> |bubbled| == k + 1)
              && (bubbled != Reverse(mid) ==>
                    && !propagateEvent
                    && if bubbled != [] then Verdict(ActsOf(act.bubble, |bubbled| - 1)) != Some(true)
                       else captured != [] && Verdict(ActsOf(act.capture, |captured| - 1)) != Some(true))
      // The last call decides what the flag is left at.
      ensures if bubbled != [] then
                var v := Verdict(ActsOf(act.bubble, |bubbled| - 1)); v == None || v == Some(propagateEvent)
              else if captured != [] then
                var v := Verdict(ActsOf(act.capture, |captured| - 1)); v == None || v == Some(propagateEvent)
              else propagateEvent
      decreases act
    {
      hide Logs;
      hide LogsCalls;
      hide LogsOne;
      hide Of;
      hide Verdict;
      hide Reverse;
      propagateEvent := true;
      captured, bubbled := [], [];
      ghost var table0, log0 := globalActionListeners, log;
      ExtendedSame(table0, log0);
      LogsNothing();
      assert log[|log|..] == [];

      if act.action in globalActionListeners {
        captured := Phase(act.action, globalActionListeners[act.action], act.capture, act);
      }
      ghost var table1, log1 := globalActionListeners, log;
      ExtendedSame(table1, log1);
      inside := log;
      ExtendedTransitive(old(globalActionListeners), old(log), table0, log0, table1, log1);

      if propagateEvent && act.action in globalActionListeners {
        bubbled := Phase(act.action, Reverse(globalActionListeners[act.action]), act.bubble, act);
      }
      ExtendedTransitive(old(globalActionListeners), old(log), table1, log1, globalActionListeners, log);
      LogsDispatch(act, |captured|, |bubbled|, inside[|old(log)|..], log[|inside|..]);
      assert log[|old(log)|..] == inside[|old(log)|..] + log[|inside|..];
    }

    /** One phase: `order` is the listener list in the order of the calls. */
    method Phase(action: ActionType, order: seq<Listener>, calls: seq<Call>, ghost act: Act) returns (called: seq<Listener>)
      requires action in globalActionListeners && propagateEvent
      requires act.Dispatch? && (calls == act.capture || calls == act.bubble)
      modifies this
      ensures Extended(old(globalActionListeners), old(log), globalActionListeners, log)
      ensures LogsCalls(act, calls, |called|, log[|old(log)|..])
      ensures called <= order && (called != order ==> called != [] && !propagateEvent)
      ensures forall k :: 0 <= k < |called| - 1 ==> Verdict(ActsOf(calls, k)) != Some(false)
      ensures if called == [] then propagateEvent
              else var v := Verdict(ActsOf(calls, |called| - 1)); v == None || v == Some(propagateEvent)
      decreases act, 0
    {
      hide Logs;
      hide LogsCalls;
      hide Verdict;
      hide Extended;
      var globalListeners := globalActionListeners[action];
      ghost var table := globalActionListeners;
      globalActionListeners := globalActionListeners - {action};
      ghost var taken, log0 := globalActionListeners, log;
      ExtendedSame(taken, log0);
      LogsNothing();
      assert log[|log|..] == [];
      called := [];
      for i := 0 to |order|
        invariant called == order[..i] && propagateEvent
        invariant Extended(taken, log0, globalActionListeners, log) && log0 <= log
        invariant LogsCalls(act, calls, i, log[|log0|..])
        invariant forall k :: 0 <= k < i ==> Verdict(ActsOf(calls, k)) != Some(false)
        invariant i > 0 ==> var v := Verdict(ActsOf(calls, i - 1)); v == None || v == Some(true)
      {
        ghost var table1, log1 := globalActionListeners, log;
        called := called + [order[i]];
        ExtendedSame(table1, log1);
        if i < |calls| {
          RunActs(calls[i].acts);
        }
        ExtendedLog(table1, log1, globalActionListeners, log);
        ExtendedTransitive(taken, log0, table1, log1, globalActionListeners, log);
        LogsCallsNext(act, calls, i, log1[|log0|..], log[|log1|..]);
        assert log[|log0|..] == log1[|log0|..] + log[|log1|..];
        if !propagateEvent {
          break;
        }
      }
      TakenAndPutBack(table, log0, action, globalActionListeners, log);
      globalActionListeners := globalActionListeners[action := globalListeners + Get(globalActionListeners, action)];
    }
  }
}
