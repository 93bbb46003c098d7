/**
 * Dashed strokes of crates/gpui/src/path_builder.rs (section 13.5.6 of SVG 2): the ranges
 * of the path that the loop over the dash array emits.
 */
module Dashes {
  import opened Arithmetic

  /** A stretch of the path, as fractions of its length. */
  datatype Range = Range(start: real, end: real)

  /** Dash `k` of the endlessly repeated array. */
  function Dash(dashes: seq<real>, k: nat): real
    requires dashes != []
  {
    dashes[k % |dashes|]
  }

  /** Where dash `k` of the endlessly repeated array starts. */
  function Start(dashes: seq<real>, k: nat): real
    requires dashes != []
  {
    if k == 0 then 0.0 else Start(dashes, k - 1) + Dash(dashes, k - 1)
  }

  function Sum(dashes: seq<real>): real {
    if dashes == [] then 0.0 else Sum(dashes[..|dashes| - 1]) + dashes[|dashes| - 1]
  }

  predicate NonNegative(dashes: seq<real>) {
    forall k :: 0 <= k < |dashes| ==> dashes[k] >= 0.0
  }

  /** Position `p` lies in an even-numbered dash, one that is drawn. */
  ghost predicate Drawn(dashes: seq<real>, p: real)
    requires dashes != []
  {
    exists i: nat :: InEvenDash(dashes, i, p)
  }

  ghost predicate InEvenDash(dashes: seq<real>, i: nat, p: real)
    requires dashes != []
  {
    Start(dashes, 2 * i) <= p < Start(dashes, 2 * i + 1)
  }

  ghost predicate Covers(ranges: seq<Range>, x: real) {
    exists i :: 0 <= i < |ranges| && ranges[i].start <= x < ranges[i].end
  }

  /** `PathBuilder::dash_array`: an odd number of values is repeated. */
  function DashArray(dashes: seq<real>): (r: seq<real>)
    ensures |r| % 2 == 0 && (r == dashes || r == dashes + dashes)
  {
    if |dashes| % 2 == 1 then dashes + dashes else dashes
  }

  // ----- Positions ------------------------------------------------------------------

  lemma {:induction false} StartIncreases(dashes: seq<real>, j: nat, k: nat)
    requires dashes != [] && NonNegative(dashes) && j <= k
    ensures Start(dashes, j) <= Start(dashes, k)
    decreases k
  {
    if j < k { StartIncreases(dashes, j, k - 1); }
  }

  lemma ModShift(k: nat, n: nat)
    requires n > 0
    ensures (k + n) % n == k % n
  {
    var q := k / n;
    assert k + n == (q + 1) * n + k % n;
    DivModUnique(k + n, n, q + 1, k % n);
  }

  lemma {:induction false} StartIsSum(dashes: seq<real>, k: nat)
    requires dashes != [] && k <= |dashes|
    ensures Start(dashes, k) == Sum(dashes[..k])
  {
    if k > 0 {
      StartIsSum(dashes, k - 1);
      DivModUnique(k - 1, |dashes|, 0, k - 1);
      assert dashes[..k][..k - 1] == dashes[..k - 1];
    }
  }

  /** One period further along, everything is shifted by the sum of the array. */
  lemma {:induction false} StartShift(dashes: seq<real>, k: nat)
    requires dashes != []
    ensures Start(dashes, k + |dashes|) == Start(dashes, k) + Sum(dashes)
  {
    if k == 0 {
      StartIsSum(dashes, |dashes|);
      assert dashes[..|dashes|] == dashes;
    } else {
      StartShift(dashes, k - 1);
      ModShift(k - 1, |dashes|);
    }
  }

  lemma StartZero(dashes: seq<real>)
    requires dashes != []
    ensures Start(dashes, 0) == 0.0
  {}

  lemma StartNext(dashes: seq<real>, k: nat)
    requires dashes != []
    ensures Start(dashes, k + 1) == Start(dashes, k) + Dash(dashes, k) && Dash(dashes, k) == dashes[k % |dashes|]
  {}

  function Periods(total: real, s: real): nat
    requires s > 0.0
  {
    if total < 0.0 || (total / s).Floor < 0 then 0 else (total / s).Floor + 1
  }

  lemma FewerPeriods(total: real, s: real)
    requires s > 0.0 && total >= 0.0
    ensures Periods(total - s, s) < Periods(total, s)
  {
    var q := total / s;
    assert q * s == total && (q - 1.0) * s == total - s;
    QuotientUnique(total - s, s, q - 1.0);
    RealMulSign(-q, s);
    assert -q * s == -total;
    assert (q - 1.0).Floor == q.Floor - 1;
  }

  /** Some dash starts beyond any position. */
  lemma {:induction false} ReachesPast(dashes: seq<real>, total: real) returns (k: nat)
    requires dashes != [] && Sum(dashes) > 0.0
    ensures Start(dashes, k) > total
    decreases Periods(total, Sum(dashes))
  {
    if total < 0.0 {
      k := 0;
    } else {
      FewerPeriods(total, Sum(dashes));
      k := ReachesPast(dashes, total - Sum(dashes));
      StartShift(dashes, k);
      k := k + |dashes|;
    }
  }

  /** Some dash starts at the end of the path or beyond: the loop over the dashes ends. */
  ghost predicate LoopEnds(dashes: seq<real>, total: real)
    requires dashes != []
  {
    exists k: nat :: Start(dashes, k) >= total
  }

  /** If the array adds nothing, what is reached at all is reached in its first period. */
  lemma {:induction false} ReachedInFirstPeriod(dashes: seq<real>, total: real, k: nat) returns (j: nat)
    requires dashes != [] && Sum(dashes) <= 0.0 && Start(dashes, k) >= total
    ensures j <= |dashes| && Start(dashes, j) >= total
    decreases k
  {
    if k <= |dashes| {
      j := k;
    } else {
      StartShift(dashes, k - |dashes|);
      j := ReachedInFirstPeriod(dashes, total, k - |dashes|);
    }
  }

  /**
   * The loop ends exactly when the array has a positive sum, or reaches the end of the path
   * before it is repeated. For lengths proper, which are not negative, only the sum matters.
   */
  lemma LoopEndsIff(dashes: seq<real>, total: real)
    requires dashes != []
    ensures LoopEnds(dashes, total) <==> Sum(dashes) > 0.0 || exists k: nat :: k <= |dashes| && Start(dashes, k) >= total
    ensures NonNegative(dashes) && total > 0.0 ==> (LoopEnds(dashes, total) <==> Sum(dashes) > 0.0)
  {
    if Sum(dashes) > 0.0 {
      var k := ReachesPast(dashes, total);
    } else {
      if LoopEnds(dashes, total) {
        var k: nat :| Start(dashes, k) >= total;
        var j := ReachedInFirstPeriod(dashes, total, k);
        if NonNegative(dashes) { StartIncreases(dashes, j, |dashes|); }
      }
      StartIsSum(dashes, |dashes|);
      assert dashes[..|dashes|] == dashes;
    }
  }

  /** Repeating the array does not change the pattern. */
  lemma {:induction false} DoubledStart(dashes: seq<real>, k: nat)
    requires dashes != []
    ensures Start(dashes + dashes, k) == Start(dashes, k)
  {
    if k > 0 {
      DoubledStart(dashes, k - 1);
      var n, j := |dashes|, k - 1;
      DoubledIndex(j, n);
    }
  }

  lemma {:induction false} DoubledIndex(j: nat, n: nat)
    requires n > 0
    ensures j % (2 * n) == j % n || (n <= j % (2 * n) && j % (2 * n) - n == j % n)
  {
    if j < 2 * n {
      DivModUnique(j, 2 * n, 0, j);
      DivModUnique(j, n, if j < n then 0 else 1, if j < n then j else j - n);
    } else {
      DoubledIndex(j - 2 * n, n);
      ModShift(j - 2 * n, 2 * n);
      ModShift(j - 2 * n, n);
      ModShift(j - n, n);
    }
  }

  /** An odd array is drawn like its doubled form: drawn and blank dashes alternate throughout. */
  lemma OddArraySamePattern(dashes: seq<real>, p: real)
    requires dashes != []
    ensures Drawn(DashArray(dashes), p) <==> Drawn(dashes, p)
  {
    forall i: nat ensures InEvenDash(DashArray(dashes), i, p) <==> InEvenDash(dashes, i, p) {
      DoubledStart(dashes, 2 * i);
      DoubledStart(dashes, 2 * i + 1);
    }
  }

  // ----- The loop -------------------------------------------------------------------

  /** Dividing by the path length keeps the order. */
  lemma FractionOrder(x: real, y: real, total: real)
    requires total > 0.0
    ensures x <= y <==> x / total <= y / total
    ensures x / total * total == x && total / total == 1.0 && 0.0 / total == 0.0
  {}

  /** Range `i` is even dash `i`, cut off at the end of the path. */
  ghost predicate IsDashRange(dashes: seq<real>, total: real, i: nat, r: Range)
    requires dashes != [] && total > 0.0
  {
    && Start(dashes, 2 * i) < total
    && r.start == Start(dashes, 2 * i) / total
    && r.end == Min(Start(dashes, 2 * i + 1), total) / total
  }

  /** One pass through the loop, at dash `k` from position `pos` on. */
  lemma DashStep(dashes: seq<real>, total: real, k: nat, pos: real)
    requires total > 0.0 && dashes != [] && pos == Min(Start(dashes, k), total) < total
    ensures var nextPos := Min(pos + Dash(dashes, k), total);
            && Start(dashes, k) < total && nextPos == Min(Start(dashes, k + 1), total)
            && (k % 2 == 0 ==> IsDashRange(dashes, total, k / 2, Range(pos / total, nextPos / total)))
  {
    hide Start;
    StartNext(dashes, k);
  }

  /** Dash `k` is the first one that does not start on the path. */
  ghost predicate FirstBeyond(dashes: seq<real>, total: real, k: nat)
    requires dashes != []
  {
    Start(dashes, k) >= total && forall j: nat :: j < k ==> Start(dashes, j) < total
  }

  /** The loop, for arrays on which it ends; `end` is the number of dashes it went through. */
  method TessellateStroke(dashes: seq<real>, total: real) returns (ranges: seq<Range>, ghost end: nat)
    requires total > 0.0 ==> dashes != [] && LoopEnds(dashes, total)
    ensures total <= 0.0 ==> ranges == []
    ensures total > 0.0 ==> FirstBeyond(dashes, total, end) && 2 * |ranges| == end + end % 2
    ensures total > 0.0 ==> forall i :: 0 <= i < |ranges| ==> IsDashRange(dashes, total, i, ranges[i])
  {
    hide Start;
    hide Dash;
    hide IsDashRange;
    ranges := [];
    var pos := 0.0;
    if dashes != [] { StartZero(dashes); }
    var dashIndex := 0;
    ghost var last: nat := 0;
    if total > 0.0 {
      last :| Start(dashes, last) >= total;
    }
    while pos < total
      invariant total > 0.0 ==> pos == Min(Start(dashes, dashIndex), total) && 2 * |ranges| == dashIndex + dashIndex % 2
      invariant total > 0.0 ==> forall j: nat :: j < dashIndex ==> Start(dashes, j) < total
      invariant total > 0.0 ==> forall i :: 0 <= i < |ranges| ==> IsDashRange(dashes, total, i, ranges[i])
      invariant total <= 0.0 ==> ranges == [] && pos == 0.0
      decreases last - dashIndex
    {
      DashStep(dashes, total, dashIndex, pos);
      var dashLength := Dash(dashes, dashIndex);
      var nextPos := Min(pos + dashLength, total);
      if dashIndex % 2 == 0 {
        ranges := ranges + [Range(pos / total, nextPos / total)];
      }
      pos := nextPos;
      dashIndex := dashIndex + 1;
    }
    end := dashIndex;
  }

  /** The ranges lie in order within the path. */
  lemma RangesOrdered(dashes: seq<real>, total: real, ranges: seq<Range>, i: nat)
    requires total > 0.0 && dashes != [] && NonNegative(dashes)
    requires forall j :: 0 <= j < |ranges| ==> IsDashRange(dashes, total, j, ranges[j])
    requires i < |ranges|
    ensures 0.0 <= ranges[i].start <= ranges[i].end <= 1.0
    ensures i + 1 < |ranges| ==> ranges[i].end <= ranges[i + 1].start
  {
    var a, b := Start(dashes, 2 * i), Start(dashes, 2 * i + 1);
    StartIncreases(dashes, 0, 2 * i);
    StartIncreases(dashes, 2 * i, 2 * i + 1);
    FractionOrder(0.0, a, total);
    FractionOrder(a, Min(b, total), total);
    FractionOrder(Min(b, total), total, total);
    assert IsDashRange(dashes, total, i, ranges[i]);
    if i + 1 < |ranges| {
      assert IsDashRange(dashes, total, i + 1, ranges[i + 1]);
      StartIncreases(dashes, 2 * i + 1, 2 * (i + 1));
      FractionOrder(Min(b, total), Start(dashes, 2 * (i + 1)), total);
    }
  }

  /** The ranges cover exactly the drawn positions of the path. */
  lemma RangesCoverDrawn(dashes: seq<real>, total: real, ranges: seq<Range>, p: real)
    requires 0.0 <= p < total && dashes != [] && NonNegative(dashes)
    requires forall j :: 0 <= j < |ranges| ==> IsDashRange(dashes, total, j, ranges[j])
    requires Start(dashes, 2 * |ranges|) >= total
    ensures Covers(ranges, p / total) <==> Drawn(dashes, p)
  {
    forall i: nat | i < |ranges| ensures ranges[i].start <= p / total < ranges[i].end <==> InEvenDash(dashes, i, p) {
      assert IsDashRange(dashes, total, i, ranges[i]);
      FractionOrder(Start(dashes, 2 * i), p, total);
      FractionOrder(Min(Start(dashes, 2 * i + 1), total), p, total);
    }
    forall i: nat | InEvenDash(dashes, i, p) ensures i < |ranges| {
      if i >= |ranges| { StartIncreases(dashes, 2 * |ranges|, 2 * i); }
    }
  }

  /** A stroke with the dash array set as given. */
  method DashedStroke(dashes: seq<real>, total: real) returns (ranges: seq<Range>)
    requires total > 0.0 ==> dashes != [] && LoopEnds(dashes, total)
    ensures total > 0.0 && NonNegative(dashes) ==> forall p :: 0.0 <= p < total ==> (Covers(ranges, p / total) <==> Drawn(dashes, p))
    ensures total <= 0.0 || NonNegative(dashes) ==>
              && (forall i :: 0 <= i < |ranges| ==> 0.0 <= ranges[i].start <= ranges[i].end <= 1.0)
              && (forall i, j :: 0 <= i && j == i + 1 < |ranges| ==> ranges[i].end <= ranges[j].start)
  {
    var dashArray := DashArray(dashes);
    if total > 0.0 {
      ghost var last: nat :| Start(dashes, last) >= total;
      DoubledStart(dashes, last);
    }
    ghost var end;
    ranges, end := TessellateStroke(dashArray, total);
    if total > 0.0 && NonNegative(dashes) {
      StartIncreases(dashArray, end, 2 * |ranges|);
      forall i | 0 <= i < |ranges|
        ensures 0.0 <= ranges[i].start <= ranges[i].end <= 1.0
        ensures i + 1 < |ranges| ==> ranges[i].end <= ranges[i + 1].start
      {
        RangesOrdered(dashArray, total, ranges, i);
      }
      forall p | 0.0 <= p < total ensures Covers(ranges, p / total) <==> Drawn(dashes, p) {
        RangesCoverDrawn(dashArray, total, ranges, p);
        OddArraySamePattern(dashes, p);
      }
    }
  }
}
