/**
 * The scoped bump arena of crates/gpui/src/arena.rs: blocks, validity of the handed out
 * boxes, deferred clears, and drops.
 *
 * A stored value is represented by a token of type `V`; running its destructor appends the
 * token to the ghost field `dropLog`. The address of a new chunk is chosen by the system
 * allocator, so `Alloc` takes it as a parameter.
 */
module Arenas {
  import opened Wrappers
  import opened Bump

  /** The shared `Rc<Cell<bool>>`. */
  class ValidCell {
    var value: bool

    constructor (value: bool)
      ensures this.value == value
    {
      this.value := value;
    }
  }

  datatype Element<V> = Element(ptr: nat, layout: Layout, value: V)
  {
    function End(): nat { ptr + layout.size }
  }

  datatype ArenaBox = ArenaBox(ptr: nat, valid: ValidCell)

  ghost predicate DisjointChunks(chunks: seq<Chunk>) {
    forall i, j :: 0 <= i < j < |chunks| ==> chunks[i].Apart(chunks[j])
  }

  /** Disjoint chunks of one size, all empty beyond the current one. */
  ghost predicate ChunksOk(s: State, chunkSize: nat) {
    && s.Ok() && DisjointChunks(s.chunks)
    && forall i :: 0 <= i < |s.chunks| ==> s.chunks[i].end == s.chunks[i].start + chunkSize
  }

  /** The system allocator's next chunk lies apart from the chunks there are. */
  predicate FreshChunk(chunks: seq<Chunk>, chunkSize: nat, freshStart: nat) {
    && FreshStart(freshStart, chunkSize)
    && forall i :: 0 <= i < |chunks| ==> chunks[i].Apart(NewChunk(freshStart, chunkSize))
  }

  lemma PlaceKeepsChunksOk(s: State, chunkSize: nat, layout: Layout, freshStart: nat)
    requires ChunksOk(s, chunkSize) && layout.Ok() && (AddsChunk(s, layout) ==> FreshChunk(s.chunks, chunkSize, freshStart))
    ensures ChunksOk(Place(s, chunkSize, layout, freshStart).0, chunkSize)
  {
    hide Place;
    hide AddsChunk;
    PlaceKeepsOk(s, chunkSize, layout, freshStart);
    var chunks, chunks' := s.chunks, Place(s, chunkSize, layout, freshStart).0.chunks;
    forall i, j | 0 <= i < j < |chunks'| ensures chunks'[i].Apart(chunks'[j]) {
      if j < |chunks| { assert chunks[i].Apart(chunks[j]); }
    }
  }

  lemma ClearKeepsChunksOk(s: State, chunkSize: nat)
    requires ChunksOk(s, chunkSize)
    ensures ChunksOk(Bump.Clear(s), chunkSize)
  {}

  /** Element `e` is an aligned block inside the used part of chunk `c`. */
  ghost predicate LivesIn<V>(e: Element<V>, c: Chunk) {
    && e.layout.Ok() && e.ptr % e.layout.align == 0
    && c.start <= e.ptr && e.End() <= c.offset
  }

  /** `home[k]` is the chunk of element `k`; elements of one chunk lie in allocation order. */
  ghost predicate Laid<V>(elements: seq<Element<V>>, home: seq<nat>, chunks: seq<Chunk>, current: nat) {
    && |home| == |elements|
    && (forall k :: 0 <= k < |home| ==> home[k] <= current && home[k] < |chunks|)
    && (forall k :: 0 <= k < |home| ==> LivesIn(elements[k], chunks[home[k]]))
    && (forall j, k :: 0 <= j < k < |home| && home[j] == home[k] ==> elements[j].End() <= elements[k].ptr)
  }

  function Values<V>(elements: seq<Element<V>>): seq<V> {
    seq(|elements|, k requires 0 <= k < |elements| => elements[k].value)
  }

  /** Everything stored was either dropped already, in order, or is still held, in order. */
  ghost predicate Accounted<V>(dropLog: seq<V>, elements: seq<Element<V>>, stored: seq<V>) {
    dropLog + Values(elements) == stored
  }

  /** The boxes after the dropped ones belong to the elements, and share the current cell. */
  ghost predicate HandedOut<V>(boxes: seq<ArenaBox>, dropLog: seq<V>, elements: seq<Element<V>>, valid: ValidCell) {
    && |boxes| == |dropLog| + |elements|
    && forall k :: |dropLog| <= k < |boxes| ==> boxes[k].valid == valid && boxes[k].ptr == elements[k - |dropLog|].ptr
  }

  lemma HandedOutOneMore<V>(boxes: seq<ArenaBox>, dropLog: seq<V>, elements: seq<Element<V>>, stored: seq<V>, valid: ValidCell,
                            e: Element<V>, box: ArenaBox)
    requires HandedOut(boxes, dropLog, elements, valid) && Accounted(dropLog, elements, stored)
    requires box.ptr == e.ptr && box.valid == valid
    ensures HandedOut(boxes + [box], dropLog, elements + [e], valid)
    ensures Accounted(dropLog, elements + [e], stored + [e.value])
  {}

  /** Dropping every element accounts for everything stored. */
  lemma AllDropped<V>(boxes: seq<ArenaBox>, dropLog: seq<V>, elements: seq<Element<V>>, stored: seq<V>, valid: ValidCell, valid': ValidCell)
    requires HandedOut(boxes, dropLog, elements, valid) && Accounted(dropLog, elements, stored)
    ensures Accounted(stored, [], stored) && HandedOut(boxes, stored, [], valid') && |boxes| == |stored|
    ensures dropLog + Values(elements) == stored
    ensures forall k :: |dropLog| <= k < |boxes| ==> boxes[k].valid == valid
  {}

  /** No two live elements share an address. */
  lemma LiveElementsDisjoint<V>(elements: seq<Element<V>>, home: seq<nat>, chunks: seq<Chunk>, current: nat, j: nat, k: nat)
    requires Laid(elements, home, chunks, current) && DisjointChunks(chunks)
    requires forall i :: 0 <= i < |chunks| ==> chunks[i].Ok()
    requires j < k < |elements|
    ensures elements[j].End() <= elements[k].ptr || elements[k].End() <= elements[j].ptr
  {}

  /** A new block in chunk `h` comes after everything laid out so far. */
  lemma LaidOneMore<V>(elements: seq<Element<V>>, home: seq<nat>, chunks: seq<Chunk>, current: nat,
                       chunks': seq<Chunk>, current': nat, e: Element<V>)
    requires Laid(elements, home, chunks, current) && current <= current' < |chunks'| && |chunks| <= |chunks'|
    requires forall i :: 0 <= i < |chunks| ==> chunks'[i].SameRegion(chunks[i]) && chunks[i].offset <= chunks'[i].offset
    requires LivesIn(e, chunks'[current'])
    requires current' == current ==> current < |chunks| && chunks[current].offset <= e.ptr
    ensures Laid(elements + [e], home + [current'], chunks', current')
  {}

  lemma NothingLaid<V>(elements: seq<Element<V>>, chunks: seq<Chunk>)
    requires elements == []
    ensures Laid(elements, [], chunks, 0)
  {}

  lemma OkIfChunksOk(s: State, chunkSize: nat)
    requires ChunksOk(s, chunkSize)
    ensures s.Ok()
  {}

  lemma LaidMoved<V>(elements: seq<Element<V>>, home: seq<nat>, chunks: seq<Chunk>, current: nat, chunks': seq<Chunk>, current': nat)
    requires Laid(elements, home, chunks, current) && current <= current' < |chunks'| && |chunks| <= |chunks'|
    requires forall i :: 0 <= i < |chunks| ==> chunks'[i].SameRegion(chunks[i]) && chunks[i].offset <= chunks'[i].offset
    ensures Laid(elements, home, chunks', current')
  {}

  /** The part of `Place` that `Laid` needs. */
  lemma PlaceMovesForward(s: State, chunkSize: nat, layout: Layout, freshStart: nat)
    requires s.Ok() && layout.Ok() && (AddsChunk(s, layout) ==> FreshStart(freshStart, chunkSize))
    ensures var (s', r) := Place(s, chunkSize, layout, freshStart);
            && s'.Ok() && s.current <= s'.current <= s.current + 1 && |s.chunks| <= |s'.chunks|
            && (forall i :: 0 <= i < |s.chunks| ==> s'.chunks[i].SameRegion(s.chunks[i]) && s.chunks[i].offset <= s'.chunks[i].offset)
            && (r.Some? ==> && r.value % layout.align == 0
                            && s'.chunks[s'.current].start <= r.value && r.value + layout.size == s'.chunks[s'.current].offset
                            && (s'.current == s.current ==> s.chunks[s.current].offset <= r.value))
            && (r.None? ==> s'.current == s.current + 1 && s'.chunks[s'.current].Empty()
                            && !HasRoom(s.chunks[s.current], layout) && !HasRoom(s'.chunks[s'.current], layout))
  {
    PlaceKeepsOk(s, chunkSize, layout, freshStart);
    AllocateTakesLowestBlock(s.chunks[s.current], layout);
    if s.current + 1 < |s.chunks| {
      AllocateTakesLowestBlock(s.chunks[s.current + 1], layout);
    } else if AddsChunk(s, layout) {
      AllocateTakesLowestBlock(NewChunk(freshStart, chunkSize), layout);
    }
  }

  class Arena<V> {
    var chunks: seq<Chunk>
    var elements: seq<Element<V>>
    var valid: ValidCell
    var currentChunkIndex: nat
    const chunkSize: nat
    var scopeDepth: nat

    /** Every value ever stored and every box ever handed out, in allocation order. */
    ghost var stored: seq<V>
    ghost var boxes: seq<ArenaBox>
    /** The values dropped so far, in drop order. */
    ghost var dropLog: seq<V>
    ghost var home: seq<nat>
    ghost var cells: set<ValidCell>

    function Chunks(): State
      reads this
    {
      State(chunks, currentChunkIndex)
    }

    ghost predicate Valid()
      reads this, cells
    {
      && chunkSize > 0 && ChunksOk(Chunks(), chunkSize) && Laid(elements, home, chunks, currentChunkIndex)
      && Accounted(dropLog, elements, stored) && HandedOut(boxes, dropLog, elements, valid)
      && |dropLog| <= |boxes| && valid in cells && valid.value
      && (forall k :: 0 <= k < |boxes| ==> boxes[k].valid in cells)
      && (forall k :: 0 <= k < |dropLog| ==> !boxes[k].valid.value)
    }

    constructor (chunkSize: nat, freshStart: nat)
      requires chunkSize > 0 && FreshStart(freshStart, chunkSize)
      ensures Valid() && fresh(cells) && this.chunkSize == chunkSize
      ensures chunks == [NewChunk(freshStart, chunkSize)] && currentChunkIndex == 0 && scopeDepth == 0
      ensures stored == [] && dropLog == [] && elements == []
    {
      var cell := new ValidCell(true);
      chunks := [NewChunk(freshStart, chunkSize)];
      elements := [];
      valid := cell;
      currentChunkIndex := 0;
      this.chunkSize := chunkSize;
      scopeDepth := 0;
      stored, boxes, dropLog, home, cells := [], [], [], [], {cell};
    }

    method BeginScope()
      requires Valid()
      modifies this`scopeDepth
      ensures Valid() && scopeDepth == old(scopeDepth) + 1
    {
      scopeDepth := scopeDepth + 1;
    }

    /** False stands for the panic on an unbalanced call. */
    method EndScope() returns (ok: bool)
      requires Valid()
      modifies this`scopeDepth
      ensures Valid() && (ok <==> old(scopeDepth) > 0)
      ensures scopeDepth == if ok then old(scopeDepth) - 1 else old(scopeDepth)
    {
      ok := scopeDepth > 0;
      if ok {
        scopeDepth := scopeDepth - 1;
      }
    }

    /** Drops everything when no scope is active; leaves everything as it is otherwise. */
    method Clear()
      requires Valid()
      modifies this, valid
      ensures Valid() && fresh(cells - old(cells)) && old(cells) <= cells
      ensures scopeDepth == old(scopeDepth) && boxes == old(boxes)
      ensures stored == old(stored) && |chunks| == |old(chunks)|
      ensures old(scopeDepth) > 0 ==>
                elements == old(elements) && chunks == old(chunks) && currentChunkIndex == old(currentChunkIndex)
                && dropLog == old(dropLog) && forall c :: c in old(cells) ==> c.value == old(c.value)
      ensures old(scopeDepth) == 0 ==>
                elements == [] && dropLog == stored && Chunks() == Bump.Clear(old(Chunks()))
                && forall b :: b in boxes ==> !b.valid.value
    {
      if scopeDepth == 0 {
        ForceClear();
      }
    }

    method ForceClear()
      requires Valid()
      modifies this, valid
      ensures Valid() && fresh(cells - old(cells)) && old(cells) <= cells
      ensures scopeDepth == old(scopeDepth) && boxes == old(boxes)
      ensures stored == old(stored) && elements == [] && dropLog == stored
      ensures Chunks() == Bump.Clear(old(Chunks())) && forall b :: b in boxes ==> !b.valid.value
    {
      ghost var s := Chunks();
      OkIfChunksOk(s, chunkSize);
      hide ChunksOk;
      hide Laid;
      hide HandedOut;
      hide Accounted;
      valid.value := false;
      var cell := new ValidCell(true);
      valid := cell;
      cells := cells + {cell};

      // Dropping the elements in order.
      AllDropped(boxes, dropLog, elements, stored, old(valid), cell);
      dropLog := dropLog + Values(elements);
      elements, home := [], [];

      ResetChunks();
      currentChunkIndex := 0;
      ClearKeepsChunksOk(s, chunkSize);
      NothingLaid(elements, chunks);
    }

    method ResetChunks()
      requires Chunks().Ok()
      modifies this`chunks
      ensures chunks == Bump.Clear(old(Chunks())).chunks
    {
      ghost var before := chunks;
      for chunkIndex := 0 to currentChunkIndex + 1
        invariant |chunks| == |before|
        invariant forall i :: 0 <= i < chunkIndex ==> chunks[i] == before[i].Reset()
        invariant forall i :: chunkIndex <= i < |before| ==> chunks[i] == before[i]
      {
        chunks := chunks[chunkIndex := chunks[chunkIndex].Reset()];
      }
    }

    /** Dropping the arena. */
    method Drop()
      requires Valid()
      modifies this, valid
      ensures dropLog == old(stored)
      ensures forall b :: b in old(boxes) ==> !b.valid.value
    {
      ForceClear();
    }

    /** Finds room in the current chunk or else in the next one, adding it if need be. */
    method PlaceBlock(layout: Layout, freshStart: nat) returns (ptr: Option<nat>)
      requires Chunks().Ok() && layout.Ok()
      modifies this`chunks, this`currentChunkIndex
      ensures (Chunks(), ptr) == Place(old(Chunks()), chunkSize, layout, freshStart)
    {
      hide Allocate;
      var attempt := Allocate(chunks[currentChunkIndex], layout);
      chunks := chunks[currentChunkIndex := attempt.0];
      if attempt.1.Some? {
        return attempt.1;
      }
      currentChunkIndex := currentChunkIndex + 1;
      if currentChunkIndex >= |chunks| {
        chunks := chunks + [NewChunk(freshStart, chunkSize)];
      }
      attempt := Allocate(chunks[currentChunkIndex], layout);
      chunks := chunks[currentChunkIndex := attempt.0];
      return attempt.1;
    }

    /** Stores a value; `None` stands for the panic when the layout does not fit an empty chunk. */
    method Alloc(layout: Layout, value: V, freshStart: nat) returns (r: Option<ArenaBox>)
      requires Valid() && layout.Ok() && (AddsChunk(Chunks(), layout) ==> FreshChunk(chunks, chunkSize, freshStart))
      modifies this`chunks, this`elements, this`currentChunkIndex, this`stored, this`boxes, this`home
      ensures Valid()
      ensures Placed(old(Chunks()), chunkSize, layout, freshStart, Chunks(), if r.Some? then Some(r.value.ptr) else None)
      ensures |chunks| >= |old(chunks)|
      ensures r.Some? ==> chunks[currentChunkIndex].offset == r.value.ptr + layout.size
      ensures r.None? ==> chunks[currentChunkIndex].Empty() && !HasRoom(chunks[currentChunkIndex], layout)
      ensures r.Some? ==>
                && elements == old(elements) + [Element(r.value.ptr, layout, value)] && r.value.valid == valid
                && stored == old(stored) + [value] && boxes == old(boxes) + [r.value]
      ensures r.None? ==>
                elements == old(elements) && stored == old(stored) && boxes == old(boxes)
    {
      hide Laid;
      hide DisjointChunks;
      hide HasRoom;
      hide HandedOut;
      hide Accounted;
      hide Place;
      hide AddsChunk;
      hide Placed;
      ghost var s := Chunks();
      PlaceMovesForward(s, chunkSize, layout, freshStart);
      PlaceKeepsChunksOk(s, chunkSize, layout, freshStart);
      PlaceIsPlaced(s, chunkSize, layout, freshStart);
      var ptr := PlaceBlock(layout, freshStart);
      if ptr.None? {
        LaidMoved(elements, home, s.chunks, s.current, chunks, currentChunkIndex);
        return None;
      }
      ghost var e := Element(ptr.value, layout, value);
      LaidOneMore(elements, home, s.chunks, s.current, chunks, currentChunkIndex, e);
      r := Some(ArenaBox(ptr.value, valid));
      HandedOutOneMore(boxes, dropLog, elements, stored, valid, e, r.value);
      elements := elements + [Element(ptr.value, layout, value)];
      stored, boxes, home := stored + [value], boxes + [r.value], home + [currentChunkIndex];
      assert forall k :: 0 <= k < |old(boxes)| ==> boxes[k] == old(boxes)[k];
    }

    /** Dereferencing a box that the arena handed out: false stands for the panic. */
    method Deref(ghost k: nat, box: ArenaBox) returns (ok: bool)
      requires Valid() && k < |boxes| && boxes[k] == box
      ensures ok <==> |dropLog| <= k
      ensures ok ==> elements[k - |dropLog|].ptr == box.ptr && elements[k - |dropLog|].value == stored[k]
    {
      ok := box.valid.value;
      if |dropLog| <= k {
        assert stored[k] == (dropLog + Values(elements))[k];
      }
    }
  }

  // ----- Runs -----------------------------------------------------------------------

  datatype Op<V> = Store(layout: Layout, value: V, freshStart: nat) | RequestClear | EnterScope | LeaveScope

  /** The scope depth after an operation, and after several. */
  function NextDepth<V>(depth: nat, op: Op<V>): nat {
    match op
    case EnterScope => depth + 1
    case LeaveScope => if depth > 0 then depth - 1 else 0
    case _ => depth
  }

  function DepthAfter<V>(depth: nat, ops: seq<Op<V>>): nat {
    if ops == [] then depth else NextDepth(DepthAfter(depth, ops[..|ops| - 1]), ops[|ops| - 1])
  }

  /** Every clear requested by the first `n` operations comes while a scope is active. */
  ghost predicate ClearsScoped<V>(depth: nat, ops: seq<Op<V>>, n: nat)
    requires n <= |ops|
  {
    forall k :: 0 <= k < n && ops[k].RequestClear? ==> DepthAfter(depth, ops[..k]) > 0
  }

  lemma ClearsScopedNext<V>(depth: nat, ops: seq<Op<V>>, n: nat)
    requires n < |ops|
    ensures ClearsScoped(depth, ops, n + 1) <==> ClearsScoped(depth, ops, n) && (ops[n].RequestClear? ==> DepthAfter(depth, ops[..n]) > 0)
  {}

  /** The values of the stores that did not panic. */
  function StoredBy<V>(ops: seq<Op<V>>, done: seq<bool>): seq<V>
    requires |done| == |ops|
  {
    if ops == [] then []
    else
      var n := |ops| - 1;
      StoredBy(ops[..n], done[..n]) + (if ops[n].Store? && done[n] then [ops[n].value] else [])
  }

  /** One operation. A store that needs a new chunk is skipped when the system allocator has none to offer. */
  method PerformOne<V>(arena: Arena<V>, op: Op<V>) returns (ok: bool)
    requires arena.Valid()
    modifies arena, arena.cells
    ensures arena.Valid() && fresh(arena.cells - old(arena.cells)) && old(arena.cells) <= arena.cells
    ensures arena.stored == old(arena.stored) + (if op.Store? && ok then [op.value] else [])
    ensures old(arena.boxes) <= arena.boxes && |arena.chunks| >= |old(arena.chunks)|
    ensures arena.scopeDepth == NextDepth(old(arena.scopeDepth), op)
    ensures op.RequestClear? && arena.scopeDepth == 0 ==> arena.elements == []
    ensures ok || op.Store? || (op.LeaveScope? && old(arena.scopeDepth) == 0)
    ensures op.Store? && op.layout.Ok() && HasRoom(old(arena.chunks)[old(arena.currentChunkIndex)], op.layout) ==> ok
    ensures old(arena.scopeDepth) > 0 || !op.RequestClear? ==>
              arena.dropLog == old(arena.dropLog) && forall c :: c in old(arena.cells) ==> c.value == old(c.value)
  {
    hide IsFreeBlock;
    hide HasRoom;
    hide Bump.Clear;
    hide AddsChunk;
    hide Laid;
    hide HandedOut;
    hide Accounted;
    ok := true;
    match op {
      case Store(layout, value, freshStart) =>
        if layout.Ok() && AddsChunk(arena.Chunks(), layout) {
          AddsOnlyWithoutRoom(arena.Chunks(), layout);
        }
        ok := layout.Ok() && (!AddsChunk(arena.Chunks(), layout) || FreshChunk(arena.chunks, arena.chunkSize, freshStart));
        if ok {
          var box := arena.Alloc(layout, value, freshStart);
          ok := box.Some?;
        }
      case RequestClear =>
        arena.Clear();
      case EnterScope =>
        arena.BeginScope();
      case LeaveScope =>
        ok := arena.EndScope();
    }
  }

  /**
   * Any run of operations; `done` says which of them did not panic. Clears requested inside
   * scopes drop nothing and invalidate no box, however many there are.
   */
  method Perform<V>(arena: Arena<V>, ops: seq<Op<V>>) returns (done: seq<bool>)
    requires arena.Valid()
    modifies arena, arena.cells
    ensures arena.Valid() && fresh(arena.cells - old(arena.cells))
    ensures |done| == |ops| && arena.stored == old(arena.stored) + StoredBy(ops, done)
    ensures old(arena.boxes) <= arena.boxes && |arena.chunks| >= |old(arena.chunks)|
    ensures arena.scopeDepth == DepthAfter(old(arena.scopeDepth), ops)
    ensures ops != [] && ops[|ops| - 1].RequestClear? && arena.scopeDepth == 0 ==> arena.elements == []
    ensures ClearsScoped(old(arena.scopeDepth), ops, |ops|) ==>
              && arena.dropLog == old(arena.dropLog)
              && (forall c :: c in old(arena.cells) ==> c.value == old(c.value))
  {
    hide ChunksOk;
    hide Laid;
    hide HandedOut;
    hide Accounted;
    hide ClearsScoped;
    done := [];
    for i := 0 to |ops|
      invariant arena.Valid() && fresh(arena.cells - old(arena.cells))
      invariant |done| == i && arena.stored == old(arena.stored) + StoredBy(ops[..i], done)
      invariant old(arena.boxes) <= arena.boxes && |arena.chunks| >= |old(arena.chunks)|
      invariant arena.scopeDepth == DepthAfter(old(arena.scopeDepth), ops[..i])
      invariant i > 0 && ops[i - 1].RequestClear? && arena.scopeDepth == 0 ==> arena.elements == []
      invariant ClearsScoped(old(arena.scopeDepth), ops, i) ==>
                  && arena.dropLog == old(arena.dropLog)
                  && old(arena.cells) <= arena.cells && (forall c :: c in old(arena.cells) ==> c.value == old(c.value))
    {
      assert ops[..i + 1][..i] == ops[..i];
      ClearsScopedNext(old(arena.scopeDepth), ops, i);
      var ok := PerformOne(arena, ops[i]);
      done := done + [ok];
      assert done[..i] == done[..|done| - 1];
    }
    assert ops[..|ops|] == ops;
  }
}
