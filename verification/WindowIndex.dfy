/**
 * Which windows show which entities: the two maps of crates/gpui/src/app.rs that must
 * mirror each other, and `notify`, which relies on them.
 */
module WindowIndex {
  import opened Effects

  type WindowId = nat

  /** The `WindowInvalidator` of a window (crates/gpui/src/window.rs). */
  class WindowInvalidator {
    var dirtyViews: set<EntityId>
    var dirty: bool
    /** The window is in a draw phase. */
    var drawing: bool
    var updateCount: nat

    constructor ()
      ensures dirtyViews == {} && dirty && !drawing && updateCount == 0
    {
      dirtyViews, dirty, drawing, updateCount := {}, true, false, 0;
    }

    /** Outside of a draw phase the window is due for a draw, and the result is true. */
    method InvalidateView(entity: EntityId, app: App) returns (due: bool)
      requires app.Valid()
      modifies this`dirtyViews, this`dirty, this`updateCount, app
      ensures app.Valid() && dirtyViews == old(dirtyViews) + {entity} && updateCount == old(updateCount) + 1
      ensures due <==> !drawing
      ensures dirty == (old(dirty) || !drawing)
      ensures drawing ==> app.pendingEffects == old(app.pendingEffects)
      ensures !drawing ==> Queued(app, entity) && KeepsQueue(old(app.pendingEffects), app.pendingEffects, entity)
      ensures SameUpdate(old(app.pendingUpdates), old(app.flushingEffects), old(app.applied), app)
    {
      updateCount := updateCount + 1;
      dirtyViews := dirtyViews + {entity};
      due := !drawing;
      if due {
        dirty := true;
        app.PushEffect(Notify(entity));
      }
    }
  }

  ghost predicate Queued(app: App, entity: EntityId)
    reads app
  {
    Notify(entity) in app.pendingEffects
  }

  /** The queue is unchanged, or gained a Notify for the entity that it did not hold. */
  ghost predicate KeepsQueue(before: seq<Effect>, after: seq<Effect>, entity: EntityId) {
    after == before || (Notify(entity) !in before && after == before + [Notify(entity)])
  }

  ghost predicate SameUpdate(updates: nat, flushing: bool, applied: seq<Effect>, app: App)
    reads app
  {
    app.pendingUpdates == updates && app.flushingEffects == flushing && app.applied == applied
  }

  type Index = map<EntityId, map<WindowId, WindowInvalidator>>

  function WindowsOf(index: Index, e: EntityId): map<WindowId, WindowInvalidator> {
    if e in index then index[e] else map[]
  }

  /** The index lists window `w` for entity `e`. */
  ghost predicate Lists(index: Index, e: EntityId, w: WindowId) {
    e in index && w in index[e]
  }

  /** The last recorded draw of window `w` read entity `e`. */
  ghost predicate Shows(tracked: map<WindowId, set<EntityId>>, e: EntityId, w: WindowId) {
    w in tracked && e in tracked[w]
  }

  /** The two maps mirror each other, except that released entities may linger in `tracked`. */
  ghost predicate Mirrored(index: Index, tracked: map<WindowId, set<EntityId>>, released: set<EntityId>) {
    && (forall e, w :: Lists(index, e, w) ==> Shows(tracked, e, w))
    && (forall e, w :: Shows(tracked, e, w) && e !in released ==> Lists(index, e, w))
  }

  /** The index holds the invalidator each window recorded last. */
  ghost predicate Current(index: Index, recorded: map<WindowId, WindowInvalidator>) {
    forall e, w :: Lists(index, e, w) ==> w in recorded && index[e][w] == recorded[w]
  }

  /** `after` is `before` without window `w` for the given entities. */
  ghost predicate Forgotten(before: Index, after: Index, w: WindowId, entities: set<EntityId>) {
    && after.Keys == before.Keys
    && forall e :: e in before ==> after[e] == if e in entities then before[e] - {w} else before[e]
  }

  /** `after` is `before` with window `w` added for the given entities. */
  ghost predicate Added(before: Index, after: Index, w: WindowId, invalidator: WindowInvalidator, entities: set<EntityId>) {
    && after.Keys == before.Keys + entities
    && forall e :: e in after ==>
         after[e] == if e in entities then WindowsOf(before, e)[w := invalidator] else before[e]
  }

  lemma AddedNone(index: Index, current: map<EntityId, WindowId>, w: WindowId, invalidator: WindowInvalidator)
    ensures Added(index, index, w, invalidator, {}) && MovedTo(current, current, w, {})
  {}

  lemma MovedOneMore(before: map<EntityId, WindowId>, now: map<EntityId, WindowId>, w: WindowId, entities: set<EntityId>, e: EntityId)
    requires MovedTo(before, now, w, entities)
    ensures MovedTo(before, now[e := w], w, entities + {e})
  {}

  lemma AddedOneMore(before: Index, now: Index, w: WindowId, invalidator: WindowInvalidator, entities: set<EntityId>, e: EntityId)
    requires Added(before, now, w, invalidator, entities) && e !in entities
    ensures Added(before, now[e := WindowsOf(now, e)[w := invalidator]], w, invalidator, entities + {e})
  {}

  /** The given entities, and no others, now have `w` as their current window. */
  ghost predicate MovedTo(before: map<EntityId, WindowId>, after: map<EntityId, WindowId>, w: WindowId, entities: set<EntityId>) {
    && after.Keys == before.Keys + entities
    && forall e :: e in after ==> after[e] == if e in entities then w else before[e]
  }

  lemma RecordAt(index: Index, cleaned: Index, index': Index, tracked: map<WindowId, set<EntityId>>, released: set<EntityId>,
                 recorded: map<WindowId, WindowInvalidator>, w: WindowId, invalidator: WindowInvalidator, entities: set<EntityId>,
                 e: EntityId, v: WindowId)
    requires Mirrored(index, tracked, released) && Current(index, recorded)
    requires Forgotten(index, cleaned, w, if w in tracked then tracked[w] else {})
    requires Added(cleaned, index', w, invalidator, entities)
    ensures Lists(index', e, v) <==> if v == w then e in entities else Lists(index, e, v)
    ensures Lists(index', e, v) ==> e in index' && v in index'[e] && v in recorded[w := invalidator] && index'[e][v] == recorded[w := invalidator][v]
  {
    if Lists(index, e, w) { assert Shows(tracked, e, w); }
    if Lists(index, e, v) { assert v in recorded; }
    assert Lists(cleaned, e, v) <==> Lists(index, e, v) && v != w;
  }

  /** Forgetting what the window showed and adding what it shows now keeps the maps mirrored. */
  lemma RecordMirrors(index: Index, cleaned: Index, index': Index, tracked: map<WindowId, set<EntityId>>, released: set<EntityId>,
                      recorded: map<WindowId, WindowInvalidator>, w: WindowId, invalidator: WindowInvalidator, entities: set<EntityId>)
    requires Mirrored(index, tracked, released) && Current(index, recorded)
    requires Forgotten(index, cleaned, w, if w in tracked then tracked[w] else {})
    requires Added(cleaned, index', w, invalidator, entities)
    ensures Mirrored(index', tracked[w := entities], released) && Current(index', recorded[w := invalidator])
    ensures forall e :: Lists(index', e, w) <==> e in entities
    ensures forall e, v :: v != w ==> (Lists(index', e, v) <==> Lists(index, e, v))
  {
    hide Forgotten;
    hide Added;
    hide Lists;
    forall e, v
      ensures Lists(index', e, v) <==> if v == w then e in entities else Lists(index, e, v)
      ensures Lists(index', e, v) ==> e in index' && v in index'[e] && v in recorded[w := invalidator] && index'[e][v] == recorded[w := invalidator][v]
    {
      RecordAt(index, cleaned, index', tracked, released, recorded, w, invalidator, entities, e, v);
    }
    forall e, v ensures Shows(tracked[w := entities], e, v) <==> if v == w then e in entities else Shows(tracked, e, v) {}
  }

  lemma RemoveMirrors(index: Index, index': Index, tracked: map<WindowId, set<EntityId>>, released: set<EntityId>,
                      recorded: map<WindowId, WindowInvalidator>, w: WindowId)
    requires Mirrored(index, tracked, released) && Current(index, recorded)
    requires Forgotten(index, index', w, if w in tracked then tracked[w] else {})
    ensures Mirrored(index', tracked - {w}, released) && Current(index', recorded)
    ensures forall e, v :: Lists(index', e, v) <==> Lists(index, e, v) && v != w
  {
    forall e, v ensures Lists(index', e, v) <==> Lists(index, e, v) && v != w {
      if Lists(index, e, v) { assert Shows(tracked, e, v); }
    }
    forall e, v ensures Shows(tracked - {w}, e, v) <==> Shows(tracked, e, v) && v != w {}
    forall e, v | Lists(index', e, v) ensures v in recorded && index'[e][v] == recorded[v] { assert Lists(index, e, v); }
  }

  /** Taking an entity's windows out and putting them back leaves the index as it was. */
  lemma PutBack(index: Index, tracked: map<WindowId, set<EntityId>>, released: set<EntityId>,
                recorded: map<WindowId, WindowInvalidator>, e: EntityId, windows: map<WindowId, WindowInvalidator>)
    requires Mirrored(index, tracked, released) && Current(index, recorded)
    requires windows == WindowsOf(index, e)
    ensures Mirrored(index[e := windows], tracked, released) && Current(index[e := windows], recorded)
    ensures forall f, w :: Lists(index[e := windows], f, w) <==> Lists(index, f, w)
    ensures forall w :: w in windows <==> Lists(index, e, w)
    ensures forall w :: w in windows ==> w in recorded && windows[w] == recorded[w]
    ensures forall w :: w in windows ==> Shows(tracked, e, w)
    ensures e !in released ==> forall w :: w in windows <==> Shows(tracked, e, w)
  {
    forall f, w ensures Lists(index[e := windows], f, w) <==> Lists(index, f, w) {}
    forall w ensures w in windows <==> Lists(index, e, w) {}
  }

  class WindowTable {
    const app: App
    var windowInvalidatorsByEntity: Index
    var trackedEntities: map<WindowId, set<EntityId>>
    var currentWindowByEntity: map<EntityId, WindowId>

    ghost var released: set<EntityId>
    ghost var recorded: map<WindowId, WindowInvalidator>

    ghost predicate Valid()
      reads this
    {
      && Mirrored(windowInvalidatorsByEntity, trackedEntities, released)
      && Current(windowInvalidatorsByEntity, recorded)
    }

    constructor (app: App)
      ensures Valid() && this.app == app && windowInvalidatorsByEntity == map[] && trackedEntities == map[]
    {
      this.app := app;
      windowInvalidatorsByEntity, trackedEntities, currentWindowByEntity := map[], map[], map[];
      released, recorded := {}, map[];
    }

    /** Takes window `w` out of the index for each of the given entities. */
    method Forget(w: WindowId, entities: set<EntityId>)
      modifies this`windowInvalidatorsByEntity
      ensures Forgotten(old(windowInvalidatorsByEntity), windowInvalidatorsByEntity, w, entities)
    {
      var rest := entities;
      while rest != {}
        invariant rest <= entities
        invariant Forgotten(old(windowInvalidatorsByEntity), windowInvalidatorsByEntity, w, entities - rest)
        decreases rest
      {
        var e :| e in rest;
        if e in windowInvalidatorsByEntity {
          windowInvalidatorsByEntity := windowInvalidatorsByEntity[e := windowInvalidatorsByEntity[e] - {w}];
        }
        rest := rest - {e};
      }
    }

    method AddAll(w: WindowId, invalidator: WindowInvalidator, entities: set<EntityId>)
      modifies this`windowInvalidatorsByEntity, this`currentWindowByEntity
      ensures Added(old(windowInvalidatorsByEntity), windowInvalidatorsByEntity, w, invalidator, entities)
      ensures MovedTo(old(currentWindowByEntity), currentWindowByEntity, w, entities)
    {
      hide Added;
      hide MovedTo;
      hide WindowsOf;
      var rest := entities;
      assert entities - rest == {};
      AddedNone(windowInvalidatorsByEntity, currentWindowByEntity, w, invalidator);
      while rest != {}
        invariant rest <= entities
        invariant Added(old(windowInvalidatorsByEntity), windowInvalidatorsByEntity, w, invalidator, entities - rest)
        invariant MovedTo(old(currentWindowByEntity), currentWindowByEntity, w, entities - rest)
        decreases rest
      {
        var e :| e in rest;
        var windows := WindowsOf(windowInvalidatorsByEntity, e);
        AddedOneMore(old(windowInvalidatorsByEntity), windowInvalidatorsByEntity, w, invalidator, entities - rest, e);
        MovedOneMore(old(currentWindowByEntity), currentWindowByEntity, w, entities - rest, e);
        windowInvalidatorsByEntity := windowInvalidatorsByEntity[e := windows[w := invalidator]];
        currentWindowByEntity := currentWindowByEntity[e := w];
        assert entities - (rest - {e}) == entities - rest + {e};
        rest := rest - {e};
      }
      assert entities - rest == entities;
    }

    /** Replaces what window `w` is known to show. */
    method RecordEntitiesAccessed(w: WindowId, invalidator: WindowInvalidator, entities: set<EntityId>)
      requires Valid()
      modifies this
      ensures Valid() && released == old(released)
      ensures trackedEntities == old(trackedEntities)[w := entities] && recorded == old(recorded)[w := invalidator]
      ensures forall e :: Lists(windowInvalidatorsByEntity, e, w) <==> e in entities
      ensures forall e, v :: v != w ==> (Lists(windowInvalidatorsByEntity, e, v) <==> Lists(old(windowInvalidatorsByEntity), e, v))
      ensures currentWindowByEntity.Keys == old(currentWindowByEntity).Keys + entities
      ensures forall e :: e in currentWindowByEntity ==>
                currentWindowByEntity[e] == if e in entities then w else old(currentWindowByEntity)[e]
    {
      hide Mirrored;
      hide Current;
      hide Lists;
      hide Added;
      hide Forgotten;
      ghost var index := windowInvalidatorsByEntity;
      var tracked := if w in trackedEntities then trackedEntities[w] else {};
      Forget(w, tracked);
      ghost var cleaned := windowInvalidatorsByEntity;
      AddAll(w, invalidator, entities);
      RecordMirrors(index, cleaned, windowInvalidatorsByEntity, trackedEntities, released, recorded, w, invalidator, entities);
      trackedEntities := trackedEntities[w := entities];
      recorded := recorded[w := invalidator];
    }

    /** The index part of `release_dropped_entities`. */
    method ReleaseEntity(e: EntityId)
      requires Valid()
      modifies this
      ensures Valid() && released == old(released) + {e} && trackedEntities == old(trackedEntities)
      ensures windowInvalidatorsByEntity == old(windowInvalidatorsByEntity) - {e}
      ensures currentWindowByEntity == old(currentWindowByEntity) - {e}
    {
      windowInvalidatorsByEntity := windowInvalidatorsByEntity - {e};
      currentWindowByEntity := currentWindowByEntity - {e};
      released := released + {e};
      assert forall f, w :: Lists(windowInvalidatorsByEntity, f, w) <==> Lists(old(windowInvalidatorsByEntity), f, w) && f != e;
    }

    /** The index part of closing a window. */
    method RemoveWindow(w: WindowId)
      requires Valid()
      modifies this
      ensures Valid() && released == old(released) && trackedEntities == old(trackedEntities) - {w}
      ensures forall e, v :: Lists(windowInvalidatorsByEntity, e, v) <==> Lists(old(windowInvalidatorsByEntity), e, v) && v != w
      ensures currentWindowByEntity ==
                map e | e in old(currentWindowByEntity)
                        && !(Shows(old(trackedEntities), e, w) && old(currentWindowByEntity)[e] == w) :: old(currentWindowByEntity)[e]
    {
      hide Mirrored;
      hide Current;
      hide Lists;
      ghost var index, tracked0 := windowInvalidatorsByEntity, trackedEntities;
      if w !in trackedEntities {
        RemoveMirrors(index, index, tracked0, released, recorded, w);
        assert trackedEntities - {w} == trackedEntities;
        return;
      }
      var tracked := trackedEntities[w];
      trackedEntities := trackedEntities - {w};
      Forget(w, tracked);
      RemoveMirrors(index, windowInvalidatorsByEntity, tracked0, released, recorded, w);
      currentWindowByEntity := map e | e in currentWindowByEntity && !(e in tracked && currentWindowByEntity[e] == w) :: currentWindowByEntity[e];
    }

    /** Marks the entity dirty in each of the given windows. */
    method InvalidateAll(e: EntityId, live: set<WindowId>, invalidators: map<WindowId, WindowInvalidator>)
      requires live <= invalidators.Keys && app.Valid()
      modifies app, set w | w in live :: invalidators[w]
      ensures app.Valid()
      ensures forall w :: w in live ==>
                && invalidators[w].dirtyViews == old(invalidators[w].dirtyViews) + {e}
                && invalidators[w].drawing == old(invalidators[w].drawing)
                && invalidators[w].dirty == (old(invalidators[w].dirty) || !invalidators[w].drawing)
      ensures KeepsQueue(old(app.pendingEffects), app.pendingEffects, e)
      ensures Queued(app, e) <==> old(Queued(app, e)) || exists w :: w in live && !invalidators[w].drawing
    {
      hide QueueOk;
      var rest := live;
      while rest != {}
        invariant rest <= live && app.Valid()
        invariant forall w :: w in live ==>
                    && old(invalidators[w].dirtyViews) <= invalidators[w].dirtyViews <= old(invalidators[w].dirtyViews) + {e}
                    && invalidators[w].drawing == old(invalidators[w].drawing)
                    && (w !in rest ==> e in invalidators[w].dirtyViews && (invalidators[w].drawing || invalidators[w].dirty))
                    && (old(invalidators[w].dirty) ==> invalidators[w].dirty)
                    && (invalidators[w].dirty ==> old(invalidators[w].dirty) || !invalidators[w].drawing)
        invariant KeepsQueue(old(app.pendingEffects), app.pendingEffects, e)
        invariant Queued(app, e) <==> old(Queued(app, e)) || exists w :: w in live - rest && !invalidators[w].drawing
        decreases rest
      {
        var w :| w in rest;
        var _ := invalidators[w].InvalidateView(e, app);
        rest := rest - {w};
      }
    }

    /** Queues a plain notification when there is no window to invalidate. */
    method Deliver(e: EntityId, live: set<WindowId>, invalidators: map<WindowId, WindowInvalidator>)
      requires live <= invalidators.Keys && app.Valid()
      modifies app, set w | w in live :: invalidators[w]
      ensures app.Valid()
      ensures forall w :: w in live ==>
                && invalidators[w].dirtyViews == old(invalidators[w].dirtyViews) + {e}
                && invalidators[w].drawing == old(invalidators[w].drawing)
                && invalidators[w].dirty == (old(invalidators[w].dirty) || !invalidators[w].drawing)
      ensures app.pendingEffects ==
                if Notify(e) !in old(app.pendingEffects) && (live == {} || exists w :: w in live && !invalidators[w].drawing)
                then old(app.pendingEffects) + [Notify(e)] else old(app.pendingEffects)
    {
      hide QueueOk;
      if live == {} {
        app.PushEffect(Notify(e));
      } else {
        InvalidateAll(e, live, invalidators);
      }
    }

    /**
     * Tells the windows that show the entity. `live` are the windows invalidated: exactly
     * those whose last recorded draw read the entity, unless it was released.
     */
    method NotifyEntity(e: EntityId) returns (live: set<WindowId>)
      requires Valid() && app.Valid()
      modifies this`windowInvalidatorsByEntity, app
      modifies WindowsOf(windowInvalidatorsByEntity, e).Values
      ensures Valid() && app.Valid()
      ensures live == WindowsOf(old(windowInvalidatorsByEntity), e).Keys
      ensures e !in released ==> forall w :: w in live <==> w in trackedEntities && e in trackedEntities[w]
      ensures forall f, w :: Lists(windowInvalidatorsByEntity, f, w) <==> Lists(old(windowInvalidatorsByEntity), f, w)
      ensures forall w :: w in live ==>
                w in recorded && WindowsOf(old(windowInvalidatorsByEntity), e)[w] == recorded[w]
      ensures var windows := WindowsOf(old(windowInvalidatorsByEntity), e);
              && (forall w :: w in live ==>
                   && windows[w].dirtyViews == old(windows[w].dirtyViews) + {e}
                   && windows[w].drawing == old(windows[w].drawing)
                   && windows[w].dirty == (old(windows[w].dirty) || !windows[w].drawing))
              && app.pendingEffects ==
                if Notify(e) !in old(app.pendingEffects) && (live == {} || exists w :: w in live && !windows[w].drawing)
                then old(app.pendingEffects) + [Notify(e)] else old(app.pendingEffects)
    {
      hide Current;
      hide Mirrored;
      hide Lists;
      hide QueueOk;
      hide WindowsOf;
      ghost var index := windowInvalidatorsByEntity;
      PutBack(index, trackedEntities, released, recorded, e, WindowsOf(index, e));
      var windowInvalidators := WindowsOf(windowInvalidatorsByEntity, e);
      windowInvalidatorsByEntity := windowInvalidatorsByEntity[e := map[]];
      // Keep only the windows that display the entity right now.
      live := set w | w in windowInvalidators && w in trackedEntities && e in trackedEntities[w];
      assert live == windowInvalidators.Keys;
      Deliver(e, live, windowInvalidators);
      windowInvalidatorsByEntity := windowInvalidatorsByEntity[e := windowInvalidators];
      assert windowInvalidatorsByEntity == index[e := windowInvalidators];
    }
  }
}
