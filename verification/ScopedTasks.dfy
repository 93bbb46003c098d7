/**
 * The drop barrier of scoped tasks (crates/gpui/src/executor.rs), as a state machine over
 * the interleaved steps of the scope, its tasks and its drop.
 *
 * Every future spawned into a scope owns a clone of the scope's sender. Dropping the scope
 * gives up the scope's own sender and then waits for the channel to close, which happens
 * when no sender is left; nothing is ever sent.
 */
module ScopedTasks {
  import opened Wrappers

  /** A future waits in the scope's list, belongs to a task, or is resolved. */
  datatype FutureState = Listed | Running | Completed | Dropped
  {
    predicate Unresolved() { Listed? || Running? }
  }

  datatype Phase = Open | Dropping | Gone

  datatype State = State(phase: Phase, ownSender: bool, futures: seq<FutureState>, senders: nat)

  const INITIAL := State(Open, true, [], 1)

  datatype Step =
    | Spawn                 // Scope::spawn: clone the sender, list the future
    | HandOut               // scoped: take the list and turn every future into a task
    | Complete(i: nat)      // a task's future runs to its end and drops its sender
    | Cancel(i: nat)        // a task is dropped, and its future and sender with it
    | BeginDrop             // Drop for Scope: give up the own sender and start waiting
    | FinishDrop            // the channel is closed, the wait is over

  /** What a step does; `None` when it cannot happen. */
  function Apply(s: State, step: Step): Option<State> {
    match step
    case Spawn =>
      if s.phase.Open? && s.ownSender then Some(s.(futures := s.futures + [Listed], senders := s.senders + 1)) else None
    case HandOut =>
      if s.phase.Open? then Some(s.(futures := HandedOut(s.futures))) else None
    case Complete(i) =>
      if i < |s.futures| && s.futures[i].Running? && s.senders > 0 then
        Some(s.(futures := s.futures[i := Completed], senders := s.senders - 1))
      else None
    case Cancel(i) =>
      if i < |s.futures| && s.futures[i].Running? && s.senders > 0 then
        Some(s.(futures := s.futures[i := Dropped], senders := s.senders - 1))
      else None
    case BeginDrop =>
      if s.phase.Open? && s.ownSender && s.senders > 0 then
        Some(s.(phase := Dropping, ownSender := false, senders := s.senders - 1))
      else None
    case FinishDrop =>
      if s.phase.Dropping? && s.senders == 0 then Some(s.(phase := Gone)) else None
  }

  function HandedOut(futures: seq<FutureState>): (r: seq<FutureState>)
    ensures |r| == |futures| && forall k :: 0 <= k < |r| ==> !r[k].Listed? && r[k] == if futures[k].Listed? then Running else futures[k]
  {
    seq(|futures|, k requires 0 <= k < |futures| => if futures[k].Listed? then Running else futures[k])
  }

  function Run(s: State, steps: seq<Step>): Option<State> {
    if steps == [] then Some(s)
    else
      match Run(s, steps[..|steps| - 1])
      case None => None
      case Some(t) => Apply(t, steps[|steps| - 1])
  }

  function CountUnresolved(futures: seq<FutureState>): nat {
    if futures == [] then 0
    else CountUnresolved(futures[..|futures| - 1]) + (if futures[|futures| - 1].Unresolved() then 1 else 0)
  }

  /** One sender for the scope until its drop begins, and one for every unresolved future. */
  ghost predicate SendersOk(s: State) {
    && s.senders == (if s.ownSender then 1 else 0) + CountUnresolved(s.futures)
    && (s.ownSender <==> s.phase.Open?)
    && (s.phase.Gone? ==> s.senders == 0)
  }

  lemma {:induction false} CountUpdate(futures: seq<FutureState>, i: nat, f: FutureState)
    requires i < |futures|
    ensures CountUnresolved(futures[i := f]) + (if futures[i].Unresolved() then 1 else 0)
            == CountUnresolved(futures) + (if f.Unresolved() then 1 else 0)
  {
    var front := futures[..|futures| - 1];
    if i < |front| {
      CountUpdate(front, i, f);
      assert futures[i := f][..|futures| - 1] == front[i := f];
    } else {
      assert futures[i := f][..|futures| - 1] == front;
    }
  }

  lemma {:induction false} CountHandedOut(futures: seq<FutureState>)
    ensures CountUnresolved(HandedOut(futures)) == CountUnresolved(futures)
  {
    if futures != [] {
      CountHandedOut(futures[..|futures| - 1]);
      assert HandedOut(futures)[..|futures| - 1] == HandedOut(futures[..|futures| - 1]);
    }
  }

  lemma {:induction false} CountZero(futures: seq<FutureState>)
    ensures CountUnresolved(futures) == 0 <==> forall k :: 0 <= k < |futures| ==> !futures[k].Unresolved()
  {
    if futures != [] {
      CountZero(futures[..|futures| - 1]);
      assert forall k :: 0 <= k < |futures| - 1 ==> futures[k] == futures[..|futures| - 1][k];
    }
  }

  lemma StepKeepsSenders(s: State, step: Step)
    requires SendersOk(s) && Apply(s, step).Some?
    ensures SendersOk(Apply(s, step).value)
  {
    match step
    case Spawn => assert (s.futures + [Listed])[..|s.futures|] == s.futures;
    case HandOut => CountHandedOut(s.futures);
    case Complete(i) => CountUpdate(s.futures, i, Completed);
    case Cancel(i) => CountUpdate(s.futures, i, Dropped);
    case BeginDrop =>
    case FinishDrop =>
  }

  /**
   * When a step can happen, and what it changes. A task that is not resolved can complete or
   * be cancelled at any time; the wait of a drop ends exactly when every future is resolved.
   */
  lemma StepMeans(s: State, step: Step)
    requires SendersOk(s)
    ensures Apply(s, step).Some? <==>
              match step
              case Complete(i) => i < |s.futures| && s.futures[i] == Running
              case Cancel(i) => i < |s.futures| && s.futures[i] == Running
              case FinishDrop => s.phase == Dropping && forall k :: 0 <= k < |s.futures| ==> s.futures[k] in {Completed, Dropped}
              case _ => s.phase == Open
    ensures Apply(s, step).Some? ==>
              var t := Apply(s, step).value;
              && t.phase == (if step.BeginDrop? then Dropping else if step.FinishDrop? then Gone else s.phase)
              && |t.futures| == |s.futures| + (if step.Spawn? then 1 else 0) && (step.Spawn? ==> t.futures[|s.futures|] == Listed)
              && forall k :: 0 <= k < |s.futures| ==>
                   t.futures[k] == if step == HandOut && s.futures[k] == Listed then Running
                                   else if step == Complete(k) then Completed
                                   else if step == Cancel(k) then Dropped
                                   else s.futures[k]
  {
    CountZero(s.futures);
  }

  lemma {:induction false} RunKeepsSenders(steps: seq<Step>)
    requires Run(INITIAL, steps).Some?
    ensures SendersOk(Run(INITIAL, steps).value)
  {
    if steps != [] {
      RunKeepsSenders(steps[..|steps| - 1]);
      StepKeepsSenders(Run(INITIAL, steps[..|steps| - 1]).value, steps[|steps| - 1]);
    }
  }

  /** When the drop of a scope has returned, every future spawned into it is resolved. */
  lemma DropIsABarrier(steps: seq<Step>)
    requires Run(INITIAL, steps).Some? && Run(INITIAL, steps).value.phase.Gone?
    ensures forall k :: 0 <= k < |Run(INITIAL, steps).value.futures| ==> !Run(INITIAL, steps).value.futures[k].Unresolved()
  {
    RunKeepsSenders(steps);
    CountZero(Run(INITIAL, steps).value.futures);
  }

  /** Neither taking the sender nor cloning it can fail while the scope is open. */
  lemma SenderIsThereWhileOpen(steps: seq<Step>)
    requires Run(INITIAL, steps).Some? && Run(INITIAL, steps).value.phase.Open?
    ensures Apply(Run(INITIAL, steps).value, Spawn).Some? && Apply(Run(INITIAL, steps).value, BeginDrop).Some?
  {
    RunKeepsSenders(steps);
  }

  // ----- When the drop returns ------------------------------------------------------

  ghost predicate CanFinish(s: State) {
    exists steps :: Run(s, steps).Some? && Run(s, steps).value.phase.Gone?
  }

  /** Some future is still in the scope's list, not handed out as a task. */
  ghost predicate HasListed(s: State) {
    exists k :: 0 <= k < |s.futures| && s.futures[k].Listed?
  }

  lemma {:induction false} ListedStaysListed(s: State, steps: seq<Step>, k: nat)
    requires SendersOk(s) && s.phase.Dropping? && k < |s.futures| && s.futures[k].Listed?
    requires Run(s, steps).Some?
    ensures var t := Run(s, steps).value;
            SendersOk(t) && t.phase.Dropping? && k < |t.futures| && t.futures[k].Listed?
  {
    if steps != [] {
      var front := steps[..|steps| - 1];
      ListedStaysListed(s, front, k);
      StepKeepsSenders(Run(s, front).value, steps[|steps| - 1]);
      CountZero(Run(s, front).value.futures);
    }
  }

  lemma {:induction false} RunConcat(s: State, a: seq<Step>, b: seq<Step>)
    requires Run(s, a).Some?
    ensures Run(s, a + b) == Run(Run(s, a).value, b)
  {
    if b == [] {
      assert a + b == a;
    } else {
      RunConcat(s, a, b[..|b| - 1]);
      assert (a + b)[..|a + b| - 1] == a + b[..|b| - 1];
    }
  }

  /** Completing the tasks that still run, one after the other, lets the drop return. */
  lemma {:induction false} FinishRunning(s: State) returns (steps: seq<Step>)
    requires SendersOk(s) && s.phase.Dropping? && !HasListed(s)
    ensures Run(s, steps).Some? && Run(s, steps).value.phase.Gone?
    decreases s.senders
  {
    CountZero(s.futures);
    if s.senders == 0 {
      steps := [FinishDrop];
      assert Run(s, []) == Some(s) && steps[..0] == [];
    } else {
      var k :| 0 <= k < |s.futures| && s.futures[k].Unresolved();
      var t := Apply(s, Complete(k)).value;
      StepKeepsSenders(s, Complete(k));
      assert !HasListed(t) by {
        forall j | 0 <= j < |t.futures| ensures !t.futures[j].Listed? {}
      }
      var rest := FinishRunning(t);
      steps := [Complete(k)] + rest;
      assert Run(s, []) == Some(s) && [Complete(k)][..0] == [];
      RunConcat(s, [Complete(k)], rest);
    }
  }

  /**
   * A drop that has begun can return exactly when every future was handed out before. A
   * scope dropped with futures still in its list waits for senders that this list keeps.
   */
  lemma DropReturnsIffHandedOut(steps: seq<Step>)
    requires Run(INITIAL, steps).Some? && Run(INITIAL, steps).value.phase.Dropping?
    ensures CanFinish(Run(INITIAL, steps).value) <==> !HasListed(Run(INITIAL, steps).value)
  {
    RunKeepsSenders(steps);
    var s := Run(INITIAL, steps).value;
    if HasListed(s) {
      var k :| 0 <= k < |s.futures| && s.futures[k].Listed?;
      forall more | Run(s, more).Some? ensures !Run(s, more).value.phase.Gone? {
        ListedStaysListed(s, more, k);
      }
    } else {
      var more := FinishRunning(s);
    }
  }

  /** The smallest run that never returns: spawn, then drop without handing out. */
  lemma SpawnThenDropBlocks()
    ensures Run(INITIAL, [Spawn, BeginDrop]).Some? && Run(INITIAL, [Spawn, BeginDrop]).value.phase.Dropping?
    ensures !CanFinish(Run(INITIAL, [Spawn, BeginDrop]).value)
  {
    assert [Spawn, BeginDrop][..1] == [Spawn] && [Spawn][..0] == [];
    assert Run(INITIAL, []) == Some(INITIAL);
    assert Run(INITIAL, [Spawn]) == Apply(INITIAL, Spawn);
    var s := Run(INITIAL, [Spawn, BeginDrop]).value;
    assert s.futures == [Listed];
    DropReturnsIffHandedOut([Spawn, BeginDrop]);
    assert s.futures[0].Listed?;
  }
}
