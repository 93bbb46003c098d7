/**
 * Address arithmetic of the arena chunks (crates/gpui/src/arena.rs), on values: what one
 * allocation does to the chunks, and that a cleared arena replays.
 */
module Bump {
  import opened Arithmetic
  import opened Wrappers

  const USIZE_MAX: nat := 0xFFFF_FFFF_FFFF_FFFF

  /** Size and alignment of the allocated type; alignments are positive. */
  datatype Layout = Layout(size: nat, align: nat)
  {
    predicate Ok() { align > 0 }
  }

  datatype Chunk = Chunk(start: nat, end: nat, offset: nat)
  {
    predicate Ok() { 0 < start <= offset <= end <= USIZE_MAX }

    predicate Empty() { offset == start }

    function Reset(): Chunk { this.(offset := start) }

    predicate SameRegion(other: Chunk) { start == other.start && end == other.end }

    predicate Apart(other: Chunk) { end <= other.start || other.end <= start }
  }

  function CheckedAdd(a: nat, b: nat): Option<nat> {
    if a + b <= USIZE_MAX then Some(a + b) else None
  }

  /** How far `addr` is from the next multiple of `align`. */
  function AlignOffset(addr: nat, align: nat): (k: nat)
    requires align > 0
    ensures k < align && (addr + k) % align == 0
  {
    var q, r := addr / align, addr % align;
    if r == 0 then 0 else
      assert (q + 1) * align == addr + (align - r);
      DivModUnique(addr + (align - r), align, q + 1, 0);
      align - r
  }

  /** `Chunk::allocate`: the chunk afterwards, and the address if the layout fits. */
  function Allocate(c: Chunk, layout: Layout): (Chunk, Option<nat>)
    requires layout.Ok()
  {
    match CheckedAdd(c.offset, AlignOffset(c.offset, layout.align))
    case None => (c, None)
    case Some(aligned) =>
      match CheckedAdd(aligned, layout.size)
      case None => (c, None)
      case Some(next) =>
        if next > c.end then (c, None)
        else if aligned == 0 then (c.(offset := next), None)
        else (c.(offset := next), Some(aligned))
  }

  /** Some aligned block of the layout's size is free in the chunk. */
  ghost predicate HasRoom(c: Chunk, layout: Layout)
    requires layout.Ok()
  {
    exists a: nat :: IsFreeBlock(c, layout, a)
  }

  ghost predicate IsFreeBlock(c: Chunk, layout: Layout, a: nat)
    requires layout.Ok()
  {
    c.offset <= a && a % layout.align == 0 && a + layout.size <= c.end
  }

  lemma NoMultipleBetween(base: nat, k: nat, align: nat, a: nat)
    requires align > 0 && k < align && (base + k) % align == 0
    requires a % align == 0 && base <= a
    ensures base + k <= a
  {
    var p, q := (base + k) / align, a / align;
    assert base + k == p * align && a == q * align;
    assert (p - q) * align == base + k - a;
    MulAtLeast(p - q, align);
  }

  /**
   * Allocation succeeds exactly when the chunk has room, takes the lowest free block, and
   * moves the offset to the end of that block.
   */
  lemma AllocateTakesLowestBlock(c: Chunk, layout: Layout)
    requires c.Ok() && layout.Ok()
    ensures Allocate(c, layout).1.Some? <==> HasRoom(c, layout)
    ensures Allocate(c, layout).1 == None ==> Allocate(c, layout).0 == c
    ensures Allocate(c, layout).0.Ok() && Allocate(c, layout).0.SameRegion(c)
    ensures var (c', r) := Allocate(c, layout);
            r.Some? ==> && IsFreeBlock(c, layout, r.value)
                        && c'.offset == r.value + layout.size
                        && forall a: nat :: IsFreeBlock(c, layout, a) ==> r.value <= a
  {
    var k := AlignOffset(c.offset, layout.align);
    forall a: nat | IsFreeBlock(c, layout, a) ensures c.offset + k <= a {
      NoMultipleBetween(c.offset, k, layout.align, a);
    }
    if Allocate(c, layout).1.Some? {
      assert IsFreeBlock(c, layout, c.offset + k);
    }
  }

  // ----- Several chunks -------------------------------------------------------------

  datatype State = State(chunks: seq<Chunk>, current: nat)
  {
    /** Chunks beyond the current one are empty. */
    ghost predicate Ok() {
      && current < |chunks|
      && (forall i :: 0 <= i < |chunks| ==> chunks[i].Ok())
      && (forall i :: current < i < |chunks| ==> chunks[i].Empty())
    }

    ghost predicate Cleared() {
      current == 0 && forall i :: 0 <= i < |chunks| ==> chunks[i].Empty()
    }
  }

  function NewChunk(start: nat, chunkSize: nat): Chunk {
    Chunk(start, start + chunkSize, start)
  }

  /** What the system allocator hands out for a chunk. */
  predicate FreshStart(start: nat, chunkSize: nat) {
    0 < start && start + chunkSize <= USIZE_MAX
  }

  /** The chunk part of `Arena::alloc`; the address is `None` when it panics. */
  function Place(s: State, chunkSize: nat, layout: Layout, freshStart: nat): (State, Option<nat>)
    requires s.current < |s.chunks| && layout.Ok()
  {
    var (c, r) := Allocate(s.chunks[s.current], layout);
    if r.Some? then (State(s.chunks[s.current := c], s.current), r)
    else
      var chunks := s.chunks[s.current := c];
      var next := s.current + 1;
      var chunks' := if next >= |chunks| then chunks + [NewChunk(freshStart, chunkSize)] else chunks;
      var (c', r') := Allocate(chunks'[next], layout);
      (State(chunks'[next := c'], next), r')
  }

  /** The layout does not fit the last chunk, so that `alloc` has to ask for a new one. */
  predicate AddsChunk(s: State, layout: Layout)
    requires s.current < |s.chunks| && layout.Ok()
  {
    s.current == |s.chunks| - 1 && Allocate(s.chunks[s.current], layout).1.None?
  }

  lemma AddsOnlyWithoutRoom(s: State, layout: Layout)
    requires s.Ok() && layout.Ok() && AddsChunk(s, layout)
    ensures !HasRoom(s.chunks[s.current], layout)
  {
    AllocateTakesLowestBlock(s.chunks[s.current], layout);
  }

  lemma PlaceKeepsOk(s: State, chunkSize: nat, layout: Layout, freshStart: nat)
    requires s.Ok() && layout.Ok() && (AddsChunk(s, layout) ==> FreshStart(freshStart, chunkSize))
    ensures Place(s, chunkSize, layout, freshStart).0.Ok()
    ensures |s.chunks| <= |Place(s, chunkSize, layout, freshStart).0.chunks| <= |s.chunks| + 1
    ensures forall i :: 0 <= i < |s.chunks| ==> Place(s, chunkSize, layout, freshStart).0.chunks[i].SameRegion(s.chunks[i])
    ensures |Place(s, chunkSize, layout, freshStart).0.chunks| > |s.chunks| <==> AddsChunk(s, layout)
    ensures AddsChunk(s, layout)
            ==> && s.current == |s.chunks| - 1
                && Place(s, chunkSize, layout, freshStart).0.chunks[|s.chunks|].SameRegion(NewChunk(freshStart, chunkSize))
  {
    AllocateTakesLowestBlock(s.chunks[s.current], layout);
    var next := s.current + 1;
    if next < |s.chunks| {
      AllocateTakesLowestBlock(s.chunks[next], layout);
    } else if AddsChunk(s, layout) {
      AllocateTakesLowestBlock(NewChunk(freshStart, chunkSize), layout);
    }
  }

  /**
   * What an allocation has to do, whatever way it finds the block. It takes the lowest free
   * block of the current chunk and leaves everything else as it is. Only when that chunk has
   * no room it does the same in the next one: the one already there, or else a new one. A
   * layout that does not fit there gets no address.
   */
  ghost predicate Placed(before: State, chunkSize: nat, layout: Layout, freshStart: nat, after: State, ptr: Option<nat>)
    requires before.current < |before.chunks| && layout.Ok()
  {
    var i := after.current;
    var c := if i < |before.chunks| then before.chunks[i] else Chunk(freshStart, freshStart + chunkSize, freshStart);
    && before.current <= i <= before.current + 1
    && |after.chunks| == (if i < |before.chunks| then |before.chunks| else i + 1)
    && (forall k :: 0 <= k < |before.chunks| && k != i ==> after.chunks[k] == before.chunks[k])
    && (i > before.current ==> !HasRoom(before.chunks[before.current], layout))
    && if HasRoom(c, layout) then
         && ptr.Some? && IsFreeBlock(c, layout, ptr.value) && (forall a: nat :: IsFreeBlock(c, layout, a) ==> ptr.value <= a)
         && after.chunks[i] == Chunk(c.start, c.end, ptr.value + layout.size)
       else
         ptr.None? && i > before.current && after.chunks[i] == c
  }

  lemma PlaceIsPlaced(s: State, chunkSize: nat, layout: Layout, freshStart: nat)
    requires s.Ok() && layout.Ok() && (AddsChunk(s, layout) ==> FreshStart(freshStart, chunkSize))
    ensures Placed(s, chunkSize, layout, freshStart, Place(s, chunkSize, layout, freshStart).0, Place(s, chunkSize, layout, freshStart).1)
  {
    hide Allocate;
    hide HasRoom;
    hide IsFreeBlock;
    AllocateTakesLowestBlock(s.chunks[s.current], layout);
    if s.current + 1 < |s.chunks| {
      AllocateTakesLowestBlock(s.chunks[s.current + 1], layout);
    } else if AddsChunk(s, layout) {
      AllocateTakesLowestBlock(NewChunk(freshStart, chunkSize), layout);
    }
  }

  /** Nothing is left open: what an allocation does is determined. */
  lemma PlacedIsUnique(s: State, chunkSize: nat, layout: Layout, freshStart: nat, s1: State, p1: Option<nat>, s2: State, p2: Option<nat>)
    requires s.Ok() && layout.Ok()
    requires Placed(s, chunkSize, layout, freshStart, s1, p1) && Placed(s, chunkSize, layout, freshStart, s2, p2)
    ensures s1 == s2 && p1 == p2
  {
    assert s1.current == s2.current;
    assert |s1.chunks| == |s2.chunks| && forall k :: 0 <= k < |s1.chunks| ==> s1.chunks[k] == s2.chunks[k];
  }

  /** Allocating a list of layouts in turn. */
  function Run(s: State, chunkSize: nat, layouts: seq<Layout>, freshStarts: seq<nat>): (State, seq<Option<nat>>)
    requires s.Ok() && |freshStarts| == |layouts|
    requires forall k :: 0 <= k < |layouts| ==> layouts[k].Ok() && FreshStart(freshStarts[k], chunkSize)
    decreases |layouts|
  {
    if layouts == [] then (s, [])
    else
      PlaceKeepsOk(s, chunkSize, layouts[0], freshStarts[0]);
      var (s', r) := Place(s, chunkSize, layouts[0], freshStarts[0]);
      var (s'', rs) := Run(s', chunkSize, layouts[1..], freshStarts[1..]);
      (s'', [r] + rs)
  }

  /** Two small blocks in an empty chunk lie side by side, and a third that does not fit behind them starts a new chunk. */
  lemma SmallBlocksSideBySide(freshStart: nat)
    requires FreshStart(freshStart, 64) && freshStart % 8 == 0
    ensures var s0 := State([NewChunk(0x1000, 64)], 0);
            var s1 := State([Chunk(0x1000, 0x1040, 0x1008)], 0);
            var s2 := State([Chunk(0x1000, 0x1040, 0x1010)], 0);
            var s3 := State([Chunk(0x1000, 0x1040, 0x1010), Chunk(freshStart, freshStart + 64, freshStart + 56)], 1);
            && Place(s0, 64, Layout(8, 8), freshStart) == (s1, Some(0x1000))
            && Place(s1, 64, Layout(8, 8), freshStart) == (s2, Some(0x1008))
            && Place(s2, 64, Layout(56, 8), freshStart) == (s3, Some(freshStart))
  {
    var c := Chunk(0x1000, 0x1040, 0x1010);
    assert Allocate(NewChunk(0x1000, 64), Layout(8, 8)) == (c.(offset := 0x1008), Some(0x1000));
    assert Allocate(c.(offset := 0x1008), Layout(8, 8)) == (c, Some(0x1008));
    assert Allocate(c, Layout(56, 8)) == (c, None);
    assert Allocate(NewChunk(freshStart, 64), Layout(56, 8)) == (Chunk(freshStart, freshStart + 64, freshStart + 56), Some(freshStart));
    hide Allocate;
    var d, n := NewChunk(freshStart, 64), Chunk(freshStart, freshStart + 64, freshStart + 56);
    assert [c][0 := c] == [c] && ([c] + [d])[1 := n] == [c, n];
    assert [NewChunk(0x1000, 64)][0 := c.(offset := 0x1008)] == [c.(offset := 0x1008)];
    assert [c.(offset := 0x1008)][0 := c] == [c];
  }

  /** An effective clear. */
  function Clear(s: State): (r: State)
    ensures r.current == 0 && |r.chunks| == |s.chunks|
    ensures forall i :: 0 <= i < |s.chunks| ==> r.chunks[i] == Chunk(s.chunks[i].start, s.chunks[i].end, s.chunks[i].start)
  {
    State(seq(|s.chunks|, i requires 0 <= i < |s.chunks| => s.chunks[i].Reset()), 0)
  }

  lemma {:induction false} RunKeepsRegions(s: State, chunkSize: nat, layouts: seq<Layout>, freshStarts: seq<nat>)
    requires s.Ok() && |freshStarts| == |layouts|
    requires forall k :: 0 <= k < |layouts| ==> layouts[k].Ok() && FreshStart(freshStarts[k], chunkSize)
    ensures Run(s, chunkSize, layouts, freshStarts).0.Ok()
    ensures |s.chunks| <= |Run(s, chunkSize, layouts, freshStarts).0.chunks|
    ensures forall i :: 0 <= i < |s.chunks| ==> Run(s, chunkSize, layouts, freshStarts).0.chunks[i].SameRegion(s.chunks[i])
    decreases |layouts|
  {
    hide Place;
    if layouts != [] {
      PlaceKeepsOk(s, chunkSize, layouts[0], freshStarts[0]);
      RunKeepsRegions(Place(s, chunkSize, layouts[0], freshStarts[0]).0, chunkSize, layouts[1..], freshStarts[1..]);
    }
  }

  /** `big` is `s` with further empty chunks where the run that starts in `s` will put its new chunks. */
  ghost predicate Foresees(big: State, s: State, final: State) {
    && big.current == s.current && |s.chunks| <= |big.chunks| == |final.chunks|
    && big.chunks[..|s.chunks|] == s.chunks
    && forall i :: |s.chunks| <= i < |big.chunks| ==> big.chunks[i] == final.chunks[i].Reset()
  }

  lemma PlaceForeseen(big: State, s: State, final: State, chunkSize: nat, layout: Layout, freshStart: nat, freshStart': nat)
    requires s.Ok() && final.Ok() && layout.Ok() && FreshStart(freshStart, chunkSize) && Foresees(big, s, final)
    requires var s' := Place(s, chunkSize, layout, freshStart).0;
             |s'.chunks| <= |final.chunks| && forall i :: 0 <= i < |s'.chunks| ==> final.chunks[i].SameRegion(s'.chunks[i])
    ensures big.current < |big.chunks|
    ensures Place(big, chunkSize, layout, freshStart').1 == Place(s, chunkSize, layout, freshStart).1
    ensures Foresees(Place(big, chunkSize, layout, freshStart').0, Place(s, chunkSize, layout, freshStart).0, final)
  {
    PlaceKeepsOk(s, chunkSize, layout, freshStart);
    var n, cur := |s.chunks|, s.current;
    var s', big' := Place(s, chunkSize, layout, freshStart).0, Place(big, chunkSize, layout, freshStart').0;
    assert big.chunks[cur] == big.chunks[..n][cur];
    AllocateTakesLowestBlock(s.chunks[cur], layout);
    if cur + 1 < n { assert big.chunks[cur + 1] == big.chunks[..n][cur + 1]; }
    if |s'.chunks| > n {
      assert big.chunks[n] == NewChunk(freshStart, chunkSize);
    }
    forall i | 0 <= i < |s'.chunks| ensures big'.chunks[i] == s'.chunks[i] {
      if i < n { assert big.chunks[i] == big.chunks[..n][i]; }
    }
  }

  lemma {:induction false} RunForeseen(big: State, s: State, final: State, chunkSize: nat, layouts: seq<Layout>,
                                       freshStarts: seq<nat>, freshStarts': seq<nat>)
    requires s.Ok() && big.Ok() && |freshStarts| == |freshStarts'| == |layouts|
    requires forall k :: 0 <= k < |layouts| ==>
               layouts[k].Ok() && FreshStart(freshStarts[k], chunkSize) && FreshStart(freshStarts'[k], chunkSize)
    requires final == Run(s, chunkSize, layouts, freshStarts).0 && Foresees(big, s, final)
    ensures Run(big, chunkSize, layouts, freshStarts') == (final, Run(s, chunkSize, layouts, freshStarts).1)
    decreases |layouts|
  {
    hide Place;
    RunKeepsRegions(s, chunkSize, layouts, freshStarts);
    if layouts == [] {
      assert big.chunks[..|s.chunks|] == big.chunks;
    } else {
      PlaceKeepsOk(s, chunkSize, layouts[0], freshStarts[0]);
      PlaceKeepsOk(big, chunkSize, layouts[0], freshStarts'[0]);
      var s' := Place(s, chunkSize, layouts[0], freshStarts[0]).0;
      RunKeepsRegions(s', chunkSize, layouts[1..], freshStarts[1..]);
      PlaceForeseen(big, s, final, chunkSize, layouts[0], freshStarts[0], freshStarts'[0]);
      RunForeseen(Place(big, chunkSize, layouts[0], freshStarts'[0]).0, s', final, chunkSize,
                  layouts[1..], freshStarts[1..], freshStarts'[1..]);
    }
  }

  /**
   * After an effective clear the same layouts get the same addresses, panic at the same
   * places, and no chunk is added, whatever the system allocator would have handed out.
   */
  lemma ReplayAfterClear(s: State, chunkSize: nat, layouts: seq<Layout>, freshStarts: seq<nat>, freshStarts': seq<nat>)
    requires s.Ok() && s.Cleared() && |freshStarts| == |freshStarts'| == |layouts|
    requires forall k :: 0 <= k < |layouts| ==>
               layouts[k].Ok() && FreshStart(freshStarts[k], chunkSize) && FreshStart(freshStarts'[k], chunkSize)
    ensures Clear(Run(s, chunkSize, layouts, freshStarts).0).Ok()
    ensures var (final, addresses) := Run(s, chunkSize, layouts, freshStarts);
            Run(Clear(final), chunkSize, layouts, freshStarts') == (final, addresses)
  {
    var final := Run(s, chunkSize, layouts, freshStarts).0;
    RunKeepsRegions(s, chunkSize, layouts, freshStarts);
    var big := Clear(final);
    assert big.chunks[..|s.chunks|] == s.chunks;
    RunForeseen(big, s, final, chunkSize, layouts, freshStarts, freshStarts');
  }
}
