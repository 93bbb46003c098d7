/**
 * The effect queue of crates/gpui/src/app.rs: deduplicated notifications, nested updates
 * and the flush at the end of the outermost update.
 *
 * What callbacks do is arbitrary, so it is a parameter. A `Turn` says what the release
 * callbacks and then the handlers of one pass of the flush loop do; passes beyond the end
 * of the script do nothing. Every flush that ends goes through finitely many passes, so
 * the scripts cover all of them.
 */
module Effects {

  type EntityId = nat
  type TypeId = nat

  datatype Effect =
    | Notify(emitter: EntityId)
    | NotifyGlobalObservers(globalType: TypeId)
    | Emit(source: EntityId, eventType: TypeId)
    | RefreshWindows
    | Defer(callback: nat)
    | EntityCreated(entity: EntityId)

  /** Something a callback does to the app: push an effect, or run a nested update. */
  datatype Op = Push(effect: Effect) | Update(ops: seq<Op>)

  datatype Turn = Turn(released: seq<Op>, handled: seq<Op>)

  /** One Notify effect is queued for exactly the ids in the pending sets. */
  ghost predicate QueueOk(queue: seq<Effect>, notifications: set<EntityId>, globals: set<TypeId>) {
    && (forall e: EntityId :: multiset(queue)[Notify(e)] == if e in notifications then 1 else 0)
    && (forall t: TypeId :: multiset(queue)[NotifyGlobalObservers(t)] == if t in globals then 1 else 0)
  }

  lemma QueuePush(queue: seq<Effect>, x: Effect)
    ensures multiset(queue + [x]) == multiset(queue) + multiset{x}
  {}

  lemma QueuePop(queue: seq<Effect>)
    requires queue != []
    ensures multiset(queue) == multiset{queue[0]} + multiset(queue[1..])
  {
    assert queue == [queue[0]] + queue[1..];
  }

  /** Queueing an effect that is not pending, and what it means that one is. */
  lemma QueueOkPush(queue: seq<Effect>, notifications: set<EntityId>, globals: set<TypeId>, x: Effect)
    requires QueueOk(queue, notifications, globals)
    ensures x.Notify? ==> (x.emitter in notifications <==> x in queue)
    ensures x.NotifyGlobalObservers? ==> (x.globalType in globals <==> x in queue)
    ensures x.Notify? && x !in queue ==> QueueOk(queue + [x], notifications + {x.emitter}, globals)
    ensures x.NotifyGlobalObservers? && x !in queue ==> QueueOk(queue + [x], notifications, globals + {x.globalType})
    ensures !x.Notify? && !x.NotifyGlobalObservers? ==> QueueOk(queue + [x], notifications, globals)
  {
    QueuePush(queue, x);
    assert x in queue <==> x in multiset(queue);
  }

  /** The pending sets of an empty queue are empty. */
  lemma EmptyQueue(notifications: set<EntityId>, globals: set<TypeId>)
    requires QueueOk([], notifications, globals)
    ensures notifications == {} && globals == {}
  {}

  // ----- What callbacks add to the queue --------------------------------------------

  /** The effects that the operations push, in order; nested updates included, as they do not flush. */
  function Pushed(ops: seq<Op>): seq<Effect>
    decreases ops
  {
    if ops == [] then []
    else
      Pushed(ops[..|ops| - 1]) +
      match ops[|ops| - 1]
      case Push(effect) => [effect]
      case Update(nested) => Pushed(nested)
  }

  /** The queue after some effects were pushed: a notification that is still queued is not queued again. */
  function Enqueued(queue: seq<Effect>, pushes: seq<Effect>): (r: seq<Effect>)
    ensures queue <= r
    ensures forall e :: e in r <==> e in queue || e in pushes
  {
    if pushes == [] then queue
    else
      var front, e := Enqueued(queue, pushes[..|pushes| - 1]), pushes[|pushes| - 1];
      assert forall d :: d in pushes <==> d in pushes[..|pushes| - 1] || d == e;
      if (e.Notify? || e.NotifyGlobalObservers?) && e in front then front else front + [e]
  }

  /** The effects that a flush of the queue applies, in order. */
  function Drained(queue: seq<Effect>, script: seq<Turn>): seq<Effect>
    decreases |script|, |queue|
  {
    var turn := if script == [] then Turn([], []) else script[0];
    var rest := if script == [] then [] else script[1..];
    var ready := Enqueued(queue, Pushed(turn.released));
    if ready == [] then []
    else [ready[0]] + Drained(Enqueued(ready[1..], Pushed(turn.handled)), rest)
  }

  /** The first pass of a flush, in terms of the others. */
  lemma DrainedStep(queue: seq<Effect>, script: seq<Turn>)
    ensures var turn := if script == [] then Turn([], []) else script[0];
            var ready := Enqueued(queue, Pushed(turn.released));
            && Drained(queue, script) ==
                 (if ready == [] then []
                  else [ready[0]] + Drained(Enqueued(ready[1..], Pushed(turn.handled)), if script == [] then [] else script[1..]))
            && (script == [] ==> ready == queue && (ready != [] ==> Enqueued(ready[1..], Pushed(turn.handled)) == ready[1..]))
  {}

  lemma Regroup(done: seq<Effect>, next: Effect, rest: seq<Effect>)
    ensures done + [next] + rest == done + ([next] + rest)
  {}

  lemma PushedIs(ops: seq<Op>, effect: Effect, nested: seq<Op>)
    ensures Pushed(ops + [Push(effect)]) == Pushed(ops) + [effect]
    ensures Pushed(ops + [Update(nested)]) == Pushed(ops) + Pushed(nested)
  {
    assert (ops + [Push(effect)])[..|ops|] == ops && (ops + [Update(nested)])[..|ops|] == ops;
  }

  lemma {:induction false} EnqueuedConcat(queue: seq<Effect>, a: seq<Effect>, b: seq<Effect>)
    ensures Enqueued(queue, a + b) == Enqueued(Enqueued(queue, a), b)
  {
    if b == [] {
      assert a + b == a;
    } else {
      EnqueuedConcat(queue, a, b[..|b| - 1]);
      assert (a + b)[..|a + b| - 1] == a + b[..|b| - 1];
    }
  }

  lemma EnqueuedOne(queue: seq<Effect>, e: Effect)
    ensures Enqueued(queue, []) == queue && Pushed([]) == []
    ensures Enqueued(queue, [e]) == if (e.Notify? || e.NotifyGlobalObservers?) && e in queue then queue else queue + [e]
  {
    assert [e][..0] == [];
  }

  /** Effects other than notifications are never dropped. */
  lemma {:induction false} EnqueuedCounts(queue: seq<Effect>, pushes: seq<Effect>, e: Effect)
    requires !e.Notify? && !e.NotifyGlobalObservers?
    ensures multiset(Enqueued(queue, pushes))[e] == multiset(queue)[e] + multiset(pushes)[e]
  {
    if pushes != [] {
      var front := pushes[..|pushes| - 1];
      EnqueuedCounts(queue, front, e);
      assert pushes == front + [pushes[|front|]];
    }
  }

  /**
   * Nothing pushed is lost: what is queued is applied, and so is what the callbacks of the
   * passes push that the flush goes through.
   */
  lemma {:induction false} DrainedHas(queue: seq<Effect>, script: seq<Turn>, k: nat, e: Effect)
    ensures e in queue ==> e in Drained(queue, script)
    ensures k < |script| && k <= |Drained(queue, script)| && e in Pushed(script[k].released) ==> e in Drained(queue, script)
    ensures k < |script| && k < |Drained(queue, script)| && e in Pushed(script[k].handled) ==> e in Drained(queue, script)
    decreases |script|, |queue|
  {
    assert Pushed([]) == [];
    hide Pushed;
    var turn := if script == [] then Turn([], []) else script[0];
    var rest := if script == [] then [] else script[1..];
    var ready := Enqueued(queue, Pushed(turn.released));
    if ready != [] {
      DrainedHas(Enqueued(ready[1..], Pushed(turn.handled)), rest, if k > 0 then k - 1 else 0, e);
      assert ready == [ready[0]] + ready[1..];
    }
  }

  class App {
    var pendingEffects: seq<Effect>
    var pendingNotifications: set<EntityId>
    var pendingGlobalNotifications: set<TypeId>
    var pendingUpdates: nat
    var flushingEffects: bool

    /** Effects accepted into the queue, and effects taken out of it to be applied. */
    ghost var accepted: seq<Effect>
    ghost var applied: seq<Effect>
    /** How many flushes are running. */
    ghost var flushDepth: nat

    ghost predicate Valid()
      reads this
    {
      && QueueOk(pendingEffects, pendingNotifications, pendingGlobalNotifications)
      && applied + pendingEffects == accepted
      && flushDepth == (if flushingEffects then 1 else 0)
      && (flushingEffects ==> pendingUpdates > 0)
    }

    constructor ()
      ensures Valid() && pendingUpdates == 0 && !flushingEffects && pendingEffects == []
    {
      pendingEffects, pendingNotifications, pendingGlobalNotifications := [], {}, {};
      pendingUpdates, flushingEffects := 0, false;
      accepted, applied, flushDepth := [], [], 0;
    }

    method PushEffect(effect: Effect)
      requires Valid()
      modifies this`pendingEffects, this`pendingNotifications, this`pendingGlobalNotifications, this`accepted
      ensures Valid()
      ensures var drop := (effect.Notify? || effect.NotifyGlobalObservers?) && effect in old(pendingEffects);
              pendingEffects == if drop then old(pendingEffects) else old(pendingEffects) + [effect]
      ensures accepted == old(accepted) + pendingEffects[|old(pendingEffects)|..]
    {
      QueueOkPush(pendingEffects, pendingNotifications, pendingGlobalNotifications, effect);
      hide QueueOk;
      match effect {
        case Notify(emitter) =>
          if emitter in pendingNotifications {
            return;
          }
          pendingNotifications := pendingNotifications + {emitter};
        case NotifyGlobalObservers(globalType) =>
          if globalType in pendingGlobalNotifications {
            return;
          }
          pendingGlobalNotifications := pendingGlobalNotifications + {globalType};
        case _ =>
      }
      pendingEffects := pendingEffects + [effect];
      accepted := accepted + [effect];
    }

    method StartUpdate()
      requires Valid()
      modifies this`pendingUpdates
      ensures Valid() && pendingUpdates == old(pendingUpdates) + 1
    {
      pendingUpdates := pendingUpdates + 1;
    }

    /** Only the outermost update flushes, and it leaves nothing pending. */
    method FinishUpdate(script: seq<Turn>)
      requires Valid() && pendingUpdates > 0 && (flushingEffects ==> pendingUpdates > 1)
      modifies this
      ensures Valid() && pendingUpdates == old(pendingUpdates) - 1 && flushingEffects == old(flushingEffects)
      ensures old(accepted) <= accepted && old(applied) <= applied
      ensures if !old(flushingEffects) && old(pendingUpdates) == 1 then
                && pendingEffects == [] && pendingNotifications == {} && pendingGlobalNotifications == {} && applied == accepted
                && applied == old(applied) + Drained(old(pendingEffects), script)
              else
                pendingEffects == old(pendingEffects) && applied == old(applied) && accepted == old(accepted)
      decreases if !flushingEffects && pendingUpdates == 1 then 4 else 0
    {
      if !flushingEffects && pendingUpdates == 1 {
        flushingEffects := true;
        FlushEffects(script);
        flushingEffects := false;
      }
      pendingUpdates := pendingUpdates - 1;
    }

    /** `App::update`, with the given callback. */
    method RunUpdate(ops: seq<Op>, script: seq<Turn>)
      requires Valid()
      modifies this
      ensures Valid() && pendingUpdates == old(pendingUpdates) && flushingEffects == old(flushingEffects)
      ensures old(accepted) <= accepted && old(applied) <= applied
      ensures if old(pendingUpdates) == 0 then
                && pendingEffects == [] && pendingNotifications == {} && pendingGlobalNotifications == {} && applied == accepted
                && applied == old(applied) + Drained(Enqueued(old(pendingEffects), Pushed(ops)), script)
              else
                && applied == old(applied) && flushDepth == old(flushDepth)
                && pendingEffects == Enqueued(old(pendingEffects), Pushed(ops))
    {
      StartUpdate();
      RunOps(ops);
      FinishUpdate(script);
    }

    /** What a callback does. It runs inside an update, so the updates it starts never flush. */
    method RunOps(ops: seq<Op>)
      requires Valid() && pendingUpdates > 0
      modifies this
      ensures Valid() && pendingUpdates == old(pendingUpdates) && flushingEffects == old(flushingEffects)
      ensures applied == old(applied) && old(accepted) <= accepted
      ensures pendingEffects == Enqueued(old(pendingEffects), Pushed(ops))
      decreases 1, ops
    {
      EnqueuedOne(pendingEffects, RefreshWindows);
      hide QueueOk;
      hide Pushed;
      hide Enqueued;
      assert ops[..0] == [];
      for i := 0 to |ops|
        invariant Valid() && pendingUpdates == old(pendingUpdates) && flushingEffects == old(flushingEffects)
        invariant applied == old(applied) && old(accepted) <= accepted
        invariant pendingEffects == Enqueued(old(pendingEffects), Pushed(ops[..i]))
      {
        assert ops[..i + 1] == ops[..i] + [ops[i]];
        match ops[i]
        case Push(effect) =>
          EnqueuedOne(pendingEffects, effect);
          EnqueuedConcat(old(pendingEffects), Pushed(ops[..i]), [effect]);
          PushedIs(ops[..i], effect, []);
          PushEffect(effect);
        case Update(nested) =>
          EnqueuedConcat(old(pendingEffects), Pushed(ops[..i]), Pushed(nested));
          PushedIs(ops[..i], RefreshWindows, nested);
          StartUpdate();
          RunOps(nested);
          FinishUpdate([]);
      }
      assert ops[..|ops|] == ops;
    }

    /** Pops the next effect; from here on the same notification can be queued again. */
    method TakeEffect() returns (effect: Effect)
      requires Valid() && pendingEffects != []
      modifies this`pendingEffects, this`pendingNotifications, this`pendingGlobalNotifications, this`applied
      ensures Valid() && effect == old(pendingEffects)[0]
      ensures pendingEffects == old(pendingEffects)[1..] && applied == old(applied) + [effect]
      ensures effect.Notify? ==> effect.emitter !in pendingNotifications
      ensures effect.NotifyGlobalObservers? ==> effect.globalType !in pendingGlobalNotifications
    {
      effect := pendingEffects[0];
      QueuePop(pendingEffects);
      assert applied + pendingEffects == applied + [effect] + pendingEffects[1..];
      pendingEffects := pendingEffects[1..];
      applied := applied + [effect];
      match effect {
        case Notify(emitter) =>
          pendingNotifications := pendingNotifications - {emitter};
        case NotifyGlobalObservers(globalType) =>
          pendingGlobalNotifications := pendingGlobalNotifications - {globalType};
        case _ =>
      }
    }

    /** One pass of the flush: release callbacks, then the next effect and its handlers, if there is one. */
    method FlushPass(turn: Turn) returns (more: bool)
      requires Valid() && pendingUpdates > 0
      modifies this
      ensures Valid() && pendingUpdates == old(pendingUpdates) && flushingEffects == old(flushingEffects)
      ensures old(accepted) <= accepted
      ensures var ready := Enqueued(old(pendingEffects), Pushed(turn.released));
              && (more <==> ready != [])
              && if more then applied == old(applied) + [ready[0]] && pendingEffects == Enqueued(ready[1..], Pushed(turn.handled))
                 else applied == old(applied) && pendingEffects == []
      decreases 2
    {
      hide QueueOk;
      RunOps(turn.released);
      if pendingEffects == [] {
        return false;
      }
      var _ := TakeEffect();
      RunOps(turn.handled);
      return true;
    }

    method FlushEffects(script: seq<Turn>)
      requires QueueOk(pendingEffects, pendingNotifications, pendingGlobalNotifications)
      requires applied + pendingEffects == accepted
      requires flushingEffects && pendingUpdates > 0 && flushDepth == 0
      modifies this
      ensures QueueOk(pendingEffects, pendingNotifications, pendingGlobalNotifications)
      ensures pendingEffects == [] && pendingNotifications == {} && pendingGlobalNotifications == {}
      ensures applied == accepted && old(accepted) <= accepted
      ensures applied == old(applied) + Drained(old(pendingEffects), script)
      ensures flushingEffects && pendingUpdates == old(pendingUpdates) && flushDepth == 0
      decreases 3
    {
      hide QueueOk;
      hide Drained;
      hide Enqueued;
      hide Pushed;
      flushDepth := flushDepth + 1;
      var turns := script;
      while true
        invariant Valid() && flushingEffects && pendingUpdates == old(pendingUpdates)
        invariant old(accepted) <= accepted
        invariant applied + Drained(pendingEffects, turns) == old(applied) + Drained(old(pendingEffects), script)
        decreases |turns|, |pendingEffects|
      {
        var turn := if turns == [] then Turn([], []) else turns[0];
        ghost var before, todo := pendingEffects, turns;
        turns := if turns == [] then [] else turns[1..];
        DrainedStep(before, todo);
        ghost var done := applied;
        var more := FlushPass(turn);
        if !more {
          break;
        }
        Regroup(done, applied[|done|], Drained(pendingEffects, turns));
      }
      EmptyQueue(pendingNotifications, pendingGlobalNotifications);
      flushDepth := flushDepth - 1;
    }
  }
}
