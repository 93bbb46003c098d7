/**
 * What the paint order of a bounds means, without the tree: the linear scan that
 * `test_random_iterations` (crates/gpui/src/bounds_tree.rs) checks the tree against,
 * and what that scan computes.
 */
module PaintOrder {
  import opened Geometry
  import opened Arithmetic

  datatype Entry = Entry(bounds: Bounds, order: nat)

  /** The largest order among the entries that intersect `query`, 0 if there is none. */
  function MaxIntersecting(log: seq<Entry>, query: Bounds): nat {
    if log == [] then 0
    else
      var e := log[|log| - 1];
      var rest := MaxIntersecting(log[..|log| - 1], query);
      if e.bounds.Intersects(query) then MaxNat(rest, e.order) else rest
  }

  /** Every entry got its order by scanning the entries before it. */
  ghost predicate Assigned(log: seq<Entry>) {
    forall k :: 0 <= k < |log| ==> log[k].order == 1 + MaxIntersecting(log[..k], log[k].bounds)
  }

  lemma AssignedOneMore(log: seq<Entry>, e: Entry)
    requires Assigned(log) && e.order == 1 + MaxIntersecting(log, e.bounds)
    ensures Assigned(log + [e])
  {
    forall k | 0 <= k <= |log| ensures (log + [e])[..k] == log[..k] {}
    assert log[..|log|] == log;
  }

  /** The orders the linear scan hands out for a list of bounds inserted in turn. */
  function Scan(bs: seq<Bounds>): (log: seq<Entry>)
    ensures |log| == |bs|
    ensures forall k :: 0 <= k < |bs| ==> log[k].bounds == bs[k]
    ensures Assigned(log)
  {
    if bs == [] then []
    else
      var log := Scan(bs[..|bs| - 1]);
      var b := bs[|bs| - 1];
      var e := Entry(b, 1 + MaxIntersecting(log, b));
      AssignedOneMore(log, e);
      log + [e]
  }

  /** `MaxIntersecting` is an upper bound of the orders it ranges over, and it is attained. */
  lemma {:induction false} MaxIntersectingBounds(log: seq<Entry>, query: Bounds)
    ensures forall k :: 0 <= k < |log| && log[k].bounds.Intersects(query)
                        ==> log[k].order <= MaxIntersecting(log, query)
    ensures MaxIntersecting(log, query) > 0
            ==> exists k :: 0 <= k < |log| && log[k].bounds.Intersects(query)
                            && log[k].order == MaxIntersecting(log, query)
  {
    if log != [] {
      var front := log[..|log| - 1];
      MaxIntersectingBounds(front, query);
      if MaxIntersecting(front, query) > 0 {
        var k :| 0 <= k < |front| && front[k].bounds.Intersects(query)
                 && front[k].order == MaxIntersecting(front, query);
        assert log[k] == front[k];
      }
      forall k | 0 <= k < |log| && log[k].bounds.Intersects(query)
        ensures log[k].order <= MaxIntersecting(log, query)
      {
        if k < |front| { assert log[k] == front[k]; }
      }
    }
  }

  /** The bounds in `MaxIntersectingBounds` determine the value. */
  lemma MaxIntersectingUnique(log: seq<Entry>, query: Bounds, m: nat)
    requires forall k :: 0 <= k < |log| && log[k].bounds.Intersects(query) ==> log[k].order <= m
    requires m > 0 ==> exists k :: 0 <= k < |log| && log[k].bounds.Intersects(query) && log[k].order == m
    ensures m == MaxIntersecting(log, query)
  {
    MaxIntersectingBounds(log, query);
  }

  /** Two logs with the same bounds that both follow the scan are the same log. */
  lemma {:induction false} AssignedIsScan(log: seq<Entry>, bs: seq<Bounds>)
    requires Assigned(log) && |log| == |bs|
    requires forall k :: 0 <= k < |bs| ==> log[k].bounds == bs[k]
    ensures log == Scan(bs)
  {
    hide MaxIntersecting;
    if bs != [] {
      var n := |bs| - 1;
      forall k | 0 <= k < n ensures log[..n][..k] == log[..k] {}
      AssignedIsScan(log[..n], bs[..n]);
      assert log == log[..n] + [log[n]];
    }
  }

  // ----- Longest chains -------------------------------------------------------------

  /** Positions in insertion order, each one intersecting the one before it. */
  ghost predicate IsChain(log: seq<Entry>, c: seq<nat>) {
    && (forall j :: 0 <= j < |c| ==> c[j] < |log|)
    && (forall j :: 0 < j < |c| ==> c[j - 1] < c[j] && log[c[j - 1]].bounds.Intersects(log[c[j]].bounds))
  }

  ghost predicate IsChainTo(log: seq<Entry>, c: seq<nat>, k: nat) {
    IsChain(log, c) && c != [] && c[|c| - 1] == k
  }

  /** Insertion order is paint order for intersecting bounds. */
  lemma IntersectingOrdersIncrease(log: seq<Entry>, i: nat, k: nat)
    requires Assigned(log) && i < k < |log|
    requires log[i].bounds.Intersects(log[k].bounds)
    ensures log[i].order < log[k].order
  {
    hide MaxIntersecting;
    MaxIntersectingBounds(log[..k], log[k].bounds);
    assert log[..k][i] == log[i];
  }

  lemma EqualOrdersNeverIntersect(log: seq<Entry>, i: nat, k: nat)
    requires Assigned(log) && i < |log| && k < |log| && i != k
    requires log[i].order == log[k].order
    ensures !log[i].bounds.Intersects(log[k].bounds)
  {
    if log[i].bounds.Intersects(log[k].bounds) {
      if i < k { IntersectingOrdersIncrease(log, i, k); } else { IntersectingOrdersIncrease(log, k, i); }
    }
  }

  lemma {:induction false} ChainNoLongerThanOrder(log: seq<Entry>, c: seq<nat>, k: nat)
    requires Assigned(log) && k < |log| && IsChainTo(log, c, k)
    ensures |c| <= log[k].order
    decreases |c|
  {
    if |c| > 1 {
      var front := c[..|c| - 1];
      ChainNoLongerThanOrder(log, front, c[|c| - 2]);
      IntersectingOrdersIncrease(log, c[|c| - 2], k);
    }
  }

  lemma {:induction false} ChainOfOrder(log: seq<Entry>, k: nat) returns (c: seq<nat>)
    requires Assigned(log) && k < |log|
    ensures IsChainTo(log, c, k) && |c| == log[k].order
    decreases k
  {
    hide MaxIntersecting;
    var query := log[k].bounds;
    var m := MaxIntersecting(log[..k], query);
    if m == 0 {
      c := [k];
    } else {
      MaxIntersectingBounds(log[..k], query);
      var i :| 0 <= i < k && log[..k][i].bounds.Intersects(query) && log[..k][i].order == m;
      var front := ChainOfOrder(log, i);
      c := front + [k];
    }
  }

  /** The order of an entry is the length of the longest chain that ends at it. */
  lemma OrderIsLongestChain(log: seq<Entry>, k: nat)
    requires Assigned(log) && k < |log|
    ensures exists c :: IsChainTo(log, c, k) && |c| == log[k].order
    ensures forall c :: IsChainTo(log, c, k) ==> |c| <= log[k].order
  {
    var c := ChainOfOrder(log, k);
    forall c | IsChainTo(log, c, k) ensures |c| <= log[k].order {
      ChainNoLongerThanOrder(log, c, k);
    }
  }

  /** No order exceeds the number of bounds inserted so far. */
  lemma {:induction false} OrderAtMostPosition(log: seq<Entry>, k: nat)
    requires Assigned(log) && k < |log|
    ensures 1 <= log[k].order <= k + 1
    decreases k
  {
    hide MaxIntersecting;
    MaxIntersectingBounds(log[..k], log[k].bounds);
    if MaxIntersecting(log[..k], log[k].bounds) > 0 {
      var i :| 0 <= i < k && log[..k][i].order == MaxIntersecting(log[..k], log[k].bounds);
      OrderAtMostPosition(log, i);
    }
  }
}
