/** What every run of `kmalloc` and `kfree` keeps, and exactly when it stops doing so. */
module HeapRuns {
  import opened Basics
  import opened HeapSpec

  // ---------------------------------------------------------------- one step keeps the heap safe

  /** What the blocks of a table become when the search takes block `c`. */
  ghost predicate Grants(m: map<int, Block>, m': map<int, Block>, total: int, c: int) {
    && c in m && c in m'
    && Fits(At(m, c), total)
    && !At(m', c).free
    && total <= At(m', c).size < total + MIN_REMAINDER
    && m.Keys <= m'.Keys
    && (forall a {:trigger At(m', a)} :: a in m && a != c ==>
          At(m', a).size == At(m, a).size && At(m', a).free == At(m, a).free)
    && (forall a {:trigger At(m', a)} :: a in m' && a !in m ==>
          At(m', a).free && At(m', a).size >= MIN_REMAINDER
          && a == c + At(m', c).size && a + At(m', a).size == c + At(m, c).size)
    && (At(m', c).size == At(m, c).size || (At(m', c).size < At(m, c).size && c + At(m', c).size in m'))
  }

  lemma SplitGrants(h: Heap, total: int, k: nat)
    requires Tiled(h.blocks) && total > HEADER
    requires Stops(h, total, k) && Node(h, k) in h.blocks && Splits(At(h.blocks, Node(h, k)), total)
    ensures Grants(h.blocks, Take(h, total, k).blocks, total, Node(h, k))
  {
    SplitPointIsNew(h.blocks, Node(h, k), total);
  }

  lemma WholeGrants(h: Heap, total: int, k: nat)
    requires Pointers(h) && total > HEADER
    requires Stops(h, total, k) && Node(h, k) in h.blocks && !Splits(At(h.blocks, Node(h, k)), total)
    requires k > 0 ==> !Stops(h, total, k - 1)
    ensures Grants(h.blocks, Take(h, total, k).blocks, total, Node(h, k))
  {
  }

  lemma TakeGrants(h: Heap, total: int, k: nat)
    requires Safe(h) && total > HEADER
    requires Stops(h, total, k) && Node(h, k) in h.blocks
    requires forall j: nat :: j < k ==> !Stops(h, total, j)
    ensures Grants(h.blocks, Take(h, total, k).blocks, total, Node(h, k))
  {
    if Splits(At(h.blocks, Node(h, k)), total) {
      SplitGrants(h, total, k);
    } else {
      WholeGrants(h, total, k);
    }
  }

  /** One block after a grant still fits in its place ... */
  lemma GrantedBlockFits(m: map<int, Block>, m': map<int, Block>, total: int, c: int, a: int)
    requires Tiled(m) && Grants(m, m', total, c) && total > HEADER && a in m'
    ensures HEAP_START <= a && HEADER < At(m', a).size && a + At(m', a).size <= HEAP_END
    ensures a + At(m', a).size == HEAP_END || a + At(m', a).size in m'
  {
    var taken, now := At(m, c), At(m', a);
    if a in m {
      var was := At(m, a);
    }
  }

  /** ... and two blocks are still apart. */
  lemma GrantedBlocksApart(m: map<int, Block>, m': map<int, Block>, total: int, c: int, a: int, b: int)
    requires Tiled(m) && Grants(m, m', total, c) && total > HEADER && a in m' && b in m' && a < b
    ensures a + At(m', a).size <= b
  {
    var taken, nowA, nowB := At(m, c), At(m', a), At(m', b);
    if a in m {
      var wasA := At(m, a);
    }
    if b in m {
      var wasB := At(m, b);
    }
  }

  lemma GrantsKeepsTiled(m: map<int, Block>, m': map<int, Block>, total: int, c: int)
    requires Tiled(m) && Grants(m, m', total, c) && total > HEADER
    ensures Tiled(m')
  {
    forall a | a in m'
      ensures HEAP_START <= a && HEADER < At(m', a).size && a + At(m', a).size <= HEAP_END
      ensures a + At(m', a).size == HEAP_END || a + At(m', a).size in m'
    {
      GrantedBlockFits(m, m', total, c, a);
    }
    forall a, b | a in m' && b in m' && a < b
      ensures a + At(m', a).size <= b
    {
      GrantedBlocksApart(m, m', total, c, a, b);
    }
  }

  lemma SameSizesKeepTiled(m: map<int, Block>, m': map<int, Block>)
    requires Tiled(m) && m'.Keys == m.Keys
    requires forall a {:trigger At(m', a)} :: a in m' ==> At(m', a).size == At(m, a).size
    ensures Tiled(m')
  {
    forall a | a in m'
      ensures HEAP_START <= a && HEADER < At(m', a).size && a + At(m', a).size <= HEAP_END
      ensures a + At(m', a).size == HEAP_END || a + At(m', a).size in m'
    {
      var was := At(m, a);
    }
  }

  lemma TakeKeepsPointers(h: Heap, total: int, k: nat)
    requires Pointers(h)
    requires Stops(h, total, k) && Node(h, k) in h.blocks
    ensures Pointers(Take(h, total, k))
  {
    var m' := Take(h, total, k).blocks;
    var next := At(h.blocks, Node(h, k)).next;
    forall a | a in m'
      ensures At(m', a).next == 0 || At(m', a).next in m'
    {
      if a in h.blocks {
        var was := At(h.blocks, a);
      }
    }
  }

  // ---------------------------------------------------------------- runs

  datatype Op = Alloc(size: nat) | Free(ptr: int)

  /** The heap together with its clients: every pointer they hold, with the size they asked for. */
  datatype World = World(heap: Heap, held: map<int, int>)

  /** An allocation is a call that returns; what is freed is null or the start of some block's payload,
      in use or not. */
  ghost predicate Enabled(w: World, op: Op) {
    match op
    case Alloc(size) => size < U32_LIMIT && (size == 0 || Returns(w.heap, WrappedTotal(size)))
    case Free(ptr) => ptr == 0 || ptr - HEADER in w.heap.blocks
  }

  ghost function Next(w: World, op: Op): World
    requires Enabled(w, op)
  {
    match op
    case Alloc(size) =>
      var (h, p) := Malloc(w.heap, size);
      World(h, if p == 0 then w.held else w.held[p := size])
    case Free(ptr) =>
      if ptr == 0 then w
      else World(Release(w.heap, ptr - HEADER), w.held - {ptr})
  }

  /** Every call of the run is enabled where it happens. */
  ghost predicate Runs(w: World, ops: seq<Op>)
    decreases |ops|
  {
    ops == [] || (Enabled(w, ops[0]) && Runs(Next(w, ops[0]), ops[1..]))
  }

  ghost function After(w: World, ops: seq<Op>): World
    requires Runs(w, ops)
    decreases |ops|
  {
    if ops == [] then w else After(Next(w, ops[0]), ops[1..])
  }

  const BOOT: World := World(InitialHeap(), map[])

  /** `free == 0` exactly if the block belongs to a held pointer; then it is large enough for the
      request it answered, with less than 44 bytes to spare. */
  ghost predicate HeldAt(w: World, a: int)
    requires a in w.heap.blocks
  {
    var block, p := At(w.heap.blocks, a), a + HEADER;
    if block.free then p !in w.held
    else p in w.held && w.held[p] + HEADER <= block.size < w.held[p] + HEADER + MIN_REMAINDER
  }

  /** Every held pointer is one of a block ... */
  ghost predicate HeldAreBlocks(w: World) {
    forall p :: p in w.held ==> p >= HEADER && p - HEADER in w.heap.blocks
  }

  /** ... and every block is as its pointer says. */
  ghost predicate BlocksMatch(w: World) {
    forall a {:trigger At(w.heap.blocks, a)} :: a in w.heap.blocks ==> HeldAt(w, a)
  }

  ghost predicate HeldMatches(w: World) {
    HeldAreBlocks(w) && BlocksMatch(w)
  }

  ghost predicate WorldSafe(w: World) {
    Safe(w.heap) && HeldMatches(w)
  }

  lemma GrantsKeepsHeldAt(w: World, w': World, size: nat, c: int, a: int)
    requires Tiled(w.heap.blocks) && HeldMatches(w)
    requires Grants(w.heap.blocks, w'.heap.blocks, size + HEADER, c)
    requires w'.held == w.held[c + HEADER := size]
    requires a in w'.heap.blocks
    ensures HeldAt(w', a)
  {
    var now := At(w'.heap.blocks, a);
    if a in w.heap.blocks {
      var was := At(w.heap.blocks, a);
    } else {
      assert a + HEADER in w.held ==> a in w.heap.blocks;
    }
  }

  lemma GrantsKeepsKeys(w: World, w': World, size: nat, c: int)
    requires HeldAreBlocks(w)
    requires c in w.heap.blocks && c >= 0 && w.heap.blocks.Keys <= w'.heap.blocks.Keys
    requires w'.held == w.held[c + HEADER := size]
    ensures HeldAreBlocks(w')
  {
    forall p | p in w'.held
      ensures p >= HEADER && p - HEADER in w'.heap.blocks
    {
      if p == c + HEADER {
        assert p - HEADER == c;
      } else {
        assert p in w.held;
      }
    }
  }

  lemma GrantsKeepsBlocks(w: World, w': World, size: nat, c: int)
    requires Tiled(w.heap.blocks) && HeldMatches(w)
    requires Grants(w.heap.blocks, w'.heap.blocks, size + HEADER, c)
    requires w'.held == w.held[c + HEADER := size]
    ensures BlocksMatch(w')
  {
    forall a | a in w'.heap.blocks
      ensures HeldAt(w', a)
    {
      GrantsKeepsHeldAt(w, w', size, c, a);
    }
  }

  lemma GrantsKeepsHeld(w: World, w': World, size: nat, c: int)
    requires Tiled(w.heap.blocks) && HeldMatches(w)
    requires Grants(w.heap.blocks, w'.heap.blocks, size + HEADER, c)
    requires w'.held == w.held[c + HEADER := size]
    ensures HeldMatches(w')
  {
    GrantsKeepsBlocks(w, w', size, c);
    assert c >= 0 by {
      var taken := At(w.heap.blocks, c);
    }
    GrantsKeepsKeys(w, w', size, c);
  }

  /** Taking a block, whole or by a split, keeps the table in order. */
  lemma TakeKeepsSafe(h: Heap, total: int, k: nat)
    requires Safe(h) && total > HEADER
    requires Stops(h, total, k) && Node(h, k) in h.blocks
    requires forall j: nat :: j < k ==> !Stops(h, total, j)
    ensures Safe(Take(h, total, k))
    ensures Grants(h.blocks, Take(h, total, k).blocks, total, Node(h, k))
  {
    TakeGrants(h, total, k);
    GrantsKeepsTiled(h.blocks, Take(h, total, k).blocks, total, Node(h, k));
    TakeKeepsPointers(h, total, k);
  }

  lemma PointerIsNotNull(m: map<int, Block>, c: int)
    requires Tiled(m) && c in m
    ensures c + HEADER != 0
  {
    var block := At(m, c);
  }

  lemma AllocKeepsSafe(w: World, size: nat)
    requires WorldSafe(w) && Enabled(w, Alloc(size)) && size + HEADER < U32_LIMIT
    ensures WorldSafe(Next(w, Alloc(size)))
  {
    if size != 0 {
      var k := StopIndex(w.heap, size + HEADER);
      if Node(w.heap, k) in w.heap.blocks {
        TakeKeepsSafe(w.heap, size + HEADER, k);
        PointerIsNotNull(w.heap.blocks, Node(w.heap, k));
        var w' := Next(w, Alloc(size));
        assert w' == World(Take(w.heap, size + HEADER, k), w.held[Node(w.heap, k) + HEADER := size]);
        GrantsKeepsHeld(w, w', size, Node(w.heap, k));
      }
    }
  }

  lemma WrappedAllocIsSafeIff(w: World, size: nat)
    requires WorldSafe(w) && Enabled(w, Alloc(size)) && size + HEADER >= U32_LIMIT
    ensures WorldSafe(Next(w, Alloc(size))) <==> NothingOnOffer(w.heap)
  {
    var total := WrappedTotal(size);
    var k, w' := StopIndex(w.heap, total), Next(w, Alloc(size));
    WrappedIsGrantedIff(w.heap, total);
    var c := Node(w.heap, k);
    if c in w.heap.blocks {
      TakenSize(w.heap, total, k);
      var found, taken := At(w.heap.blocks, c), At(w'.heap.blocks, c);
      assert c + HEADER in w'.held && taken.size <= HEAP_SIZE;
      assert !HeldAt(w', c);
    }
  }

  lemma ReleaseKeepsSafe(h: Heap, a: int)
    requires Safe(h) && a in h.blocks
    ensures Safe(Release(h, a))
  {
    var m, m' := h.blocks, Release(h, a).blocks;
    forall b | b in m'
      ensures b + At(m', b).size == HEAP_END || b + At(m', b).size in m'
      ensures At(m', b).size == At(m, b).size
      ensures At(m', b).next == 0 || At(m', b).next in m'
    {
      var was := At(m, b);
    }
  }

  lemma FreeKeepsSafe(w: World, ptr: int)
    requires WorldSafe(w) && Enabled(w, Free(ptr))
    ensures WorldSafe(Next(w, Free(ptr)))
  {
    if ptr != 0 {
      ReleaseKeepsSafe(w.heap, ptr - HEADER);
      var w' := Next(w, Free(ptr));
      var m, m' := w.heap.blocks, w'.heap.blocks;
      forall a | a in m'
        ensures HeldAt(w', a)
      {
        var was := At(m, a);
        assert HeldAt(w, a);
      }
    }
  }

  /** The call is a free, or an allocation of nothing, of a size to which a header can be added in 32
      bits, or with no free block to be found. */
  ghost predicate Covered(w: World, op: Op) {
    op.Free? || op.size == 0 || op.size + HEADER < U32_LIMIT || NothingOnOffer(w.heap)
  }

  lemma StepKeepsSafeIff(w: World, op: Op)
    requires WorldSafe(w) && Enabled(w, op)
    ensures WorldSafe(Next(w, op)) <==> Covered(w, op)
  {
    match op
    case Free(ptr) => FreeKeepsSafe(w, ptr);
    case Alloc(size) =>
      if size + HEADER < U32_LIMIT {
        AllocKeepsSafe(w, size);
      } else {
        WrappedAllocIsSafeIff(w, size);
      }
  }

  /** No call ever removes a block. */
  lemma StepKeepsBlocks(w: World, op: Op)
    requires Enabled(w, op)
    ensures w.heap.blocks.Keys <= Next(w, op).heap.blocks.Keys
  {
    if op.Alloc? && op.size != 0 {
      var k := StopIndex(w.heap, WrappedTotal(op.size));
      if Node(w.heap, k) in w.heap.blocks {
        TakenSize(w.heap, WrappedTotal(op.size), k);
      }
    }
  }

  ghost predicate AllCovered(w: World, ops: seq<Op>)
    requires Runs(w, ops)
    decreases |ops|
  {
    ops == [] || (Covered(w, ops[0]) && AllCovered(Next(w, ops[0]), ops[1..]))
  }

  /** The world is safe before the run, after it, and between any two of its calls. */
  ghost predicate SafeThroughout(w: World, ops: seq<Op>)
    requires Runs(w, ops)
    decreases |ops|
  {
    WorldSafe(w) && (ops == [] || SafeThroughout(Next(w, ops[0]), ops[1..]))
  }

  /** Safety over every run, however it treats the list and however often it frees a block: the blocks
      always tile the heap, the list points at blocks only, and the blocks in use are exactly those of
      held pointers. It ends with the first allocation that is not covered, and only there. */
  lemma {:induction false} EveryRunIsSafeIff(w: World, ops: seq<Op>)
    requires WorldSafe(w) && Runs(w, ops)
    ensures SafeThroughout(w, ops) <==> AllCovered(w, ops)
    decreases |ops|
  {
    if ops != [] {
      StepKeepsSafeIff(w, ops[0]);
      var w' := Next(w, ops[0]);
      if WorldSafe(w') {
        EveryRunIsSafeIff(w', ops[1..]);
      } else {
        assert !SafeThroughout(w', ops[1..]);
      }
    }
  }

  /** Where a covered run leads. */
  lemma {:induction false} EveryRunIsSafe(w: World, ops: seq<Op>)
    requires WorldSafe(w) && Runs(w, ops) && AllCovered(w, ops)
    ensures WorldSafe(After(w, ops))
    ensures w.heap.blocks.Keys <= After(w, ops).heap.blocks.Keys
    decreases |ops|
  {
    if ops != [] {
      StepKeepsSafeIff(w, ops[0]);
      StepKeepsBlocks(w, ops[0]);
      EveryRunIsSafe(Next(w, ops[0]), ops[1..]);
    }
  }

  /** What a client can see for itself: requests to which a header can be added are always covered. */
  lemma {:induction false} SmallRequestsAreCovered(w: World, ops: seq<Op>)
    requires Runs(w, ops)
    requires forall op :: op in ops && op.Alloc? ==> op.size + HEADER < U32_LIMIT
    ensures AllCovered(w, ops)
    decreases |ops|
  {
    if ops != [] {
      assert ops[0] in ops;
      SmallRequestsAreCovered(Next(w, ops[0]), ops[1..]);
    }
  }

  lemma EveryRunFromBootIsSafe(ops: seq<Op>)
    requires Runs(BOOT, ops) && AllCovered(BOOT, ops)
    ensures WorldSafe(After(BOOT, ops))
    ensures |After(BOOT, ops).heap.blocks| <= HEAP_SIZE / 13
  {
    EveryRunIsSafe(BOOT, ops);
    BlocksSumToHeap(After(BOOT, ops).heap.blocks);
  }

  /** Safety does end at boot, with one call: the size that makes the sum of line 23 wrap to 0. */
  lemma WrapEndsSafety()
    ensures WorldSafe(BOOT) && Enabled(BOOT, Alloc(0xFFFF_FFF4))
    ensures !WorldSafe(Next(BOOT, Alloc(0xFFFF_FFF4)))
  {
    WrapBreaksBootHeap();
  }

  /** The bytes a client may use are inside the heap ... */
  lemma HeldPayloadIsInHeap(w: World, p: int)
    requires WorldSafe(w) && p in w.held
    ensures HEAP_START + HEADER <= p && p + w.held[p] <= HEAP_END
  {
    var a: int := p - HEADER;
    assert At(w.heap.blocks, a).size > 0;
  }

  /** ... and belong to nobody else: not even the header of the next block lies among them. */
  lemma HeldPayloadsAreDisjoint(w: World, p: int, q: int)
    requires WorldSafe(w) && p in w.held && q in w.held && p < q
    ensures p + w.held[p] <= q - HEADER
  {
    var a: int, b: int := p - HEADER, q - HEADER;
    assert a + At(w.heap.blocks, a).size <= b < b + At(w.heap.blocks, b).size;
  }
}
