/** Runs and the free list. While no client frees a block that is still linked, every search ends
    and finds a fitting block if the heap has one. Freeing a linked block loses blocks for good. */
module HeapDiscipline {
  import opened Basics
  import opened HeapSpec
  import opened HeapRuns
  import opened HeapLists

  /** A finite list with every free block on it. */
  ghost predicate Lists(h: Heap, xs: seq<int>) {
    && IsList(h, xs)
    && forall a {:trigger At(h.blocks, a)} :: a in h.blocks && At(h.blocks, a).free ==> a in xs
  }

  ghost predicate Tidy(h: Heap) {
    exists xs :: Lists(h, xs)
  }

  // ---------------------------------------------------------------- freeing what is linked

  /** `kfree` keeps the list finite exactly when the block was not linked any more. */
  lemma ReleaseKeepsAcyclicIff(h: Heap, a: int)
    requires Safe(h) && Acyclic(h) && a in h.blocks
    ensures Acyclic(Release(h, a)) <==> !Linked(h, a)
  {
    NullIsNoBlock(h.blocks);
    AcyclicIffList(h);
    var xs :| IsList(h, xs);
    LinkedIffListed(h, xs, a);
    ReleaseKeepsSafe(h, a);
    if a in xs {
      var i: nat :| i < |xs| && xs[i] == a;
      ReleaseListed(h, xs, i);
    } else {
      ReleaseUnlisted(h, xs, a);
      AcyclicIffList(Release(h, a));
    }
  }

  /** Which requests still come back after a linked block was freed: those that fit a block of the
      part up to it. Any other request is searched for without end. */
  lemma ReturnsAfterReleasingListed(h: Heap, xs: seq<int>, i: nat, total: int)
    requires Safe(h) && IsList(h, xs) && i < |xs|
    ensures Returns(Release(h, xs[i]), total)
            <==> exists j :: 0 <= j <= i && Fits(At(Release(h, xs[i]).blocks, xs[j]), total)
  {
    var h' := Release(h, xs[i]);
    ReleaseListed(h, xs, i);
    ReleaseKeepsSafe(h, xs[i]);
    ReturnsIff(h', total);
    if j :| 0 <= j <= i && Fits(At(h'.blocks, xs[j]), total) {
      assert xs[..i + 1][j] == xs[j];
    }
  }

  lemma FirstAllocation(size: nat)
    requires 0 < size && size + HEADER + MIN_REMAINDER <= HEAP_SIZE
    ensures Returns(InitialHeap(), size + HEADER)
    ensures var (h, p) := Malloc(InitialHeap(), size);
            && p == HEAP_START + HEADER
            && HEAP_START in h.blocks && At(h.blocks, HEAP_START).size == size + HEADER
            && IsList(h, [HEAP_START, HEAP_START + size + HEADER])
  {
    var h, xs := InitialHeap(), [HEAP_START];
    assert LinksOn(h, xs, 0);
    SearchIsFirstFit(h, xs, size + HEADER);
    assert Fits(At(h.blocks, HEAP_START), size + HEADER);
    TakeFromList(h, xs, size + HEADER, 0);
    assert InsertAfter(xs, 0, HEAP_START + size + HEADER) == [HEAP_START, HEAP_START + size + HEADER];
  }

  /** The shortest such run: on a fresh heap, allocate `size` bytes and free them again. A later
      request comes back exactly when it is no larger than the first, or is so large that its sum with
      the header wraps. */
  lemma FirstAllocationFreedHangs(size: nat, later: nat)
    requires 0 < size && size + HEADER + MIN_REMAINDER <= HEAP_SIZE && 0 < later < U32_LIMIT
    ensures Enabled(BOOT, Alloc(size))
    ensures var w := Next(BOOT, Alloc(size));
            var p := HEAP_START + HEADER;
            && Enabled(w, Free(p))
            && (Returns(Next(w, Free(p)).heap, WrappedTotal(later)) <==> later <= size || later + HEADER >= U32_LIMIT)
  {
    FirstAllocation(size);
    AllocKeepsSafe(BOOT, size);
    var w, ys := Next(BOOT, Alloc(size)), [HEAP_START, HEAP_START + size + HEADER];
    ReturnsAfterReleasingListed(w.heap, ys, 0, WrappedTotal(later));
    var freed := At(Release(w.heap, ys[0]).blocks, ys[0]);
    assert freed.free && freed.size == size + HEADER;
    assert Fits(freed, WrappedTotal(later)) <==> later <= size || later + HEADER >= U32_LIMIT;
  }

  // ---------------------------------------------------------------- disciplined runs

  /** A world in which it is noted how each pointer was granted: `split` holds the pointers whose
      block `kmalloc` split the last time it handed them out. */
  datatype Tracked = Tracked(world: World, split: set<int>)

  ghost function NextTracked(t: Tracked, op: Op): Tracked
    requires Enabled(t.world, op)
  {
    match op
    case Free(ptr) => Tracked(Next(t.world, op), if ptr == 0 then t.split else t.split - {ptr})
    case Alloc(size) =>
      var p := Malloc(t.world.heap, size).1;
      Tracked(Next(t.world, op),
              if p == 0 then t.split
              else if GrantSplits(t.world.heap, size) then t.split + {p}
              else t.split - {p})
  }

  const TRACKED_BOOT: Tracked := Tracked(BOOT, {})

  /** The blocks of a table that ought to be on the list: the free ones, and those granted by a
      split. */
  ghost predicate OnList(m: map<int, Block>, split: set<int>, a: int)
    requires a in m
  {
    At(m, a).free || a + HEADER in split
  }

  ghost predicate HoldsExactly(m: map<int, Block>, split: set<int>, xs: seq<int>) {
    forall a {:trigger At(m, a)} :: a in m ==> (a in xs <==> OnList(m, split, a))
  }

  ghost predicate ListsExactly(h: Heap, split: set<int>, xs: seq<int>) {
    IsList(h, xs) && HoldsExactly(h.blocks, split, xs)
  }

  /** The list is finite, and a block is on it exactly if it is free or was granted by a split. */
  ghost predicate Tracks(t: Tracked) {
    exists xs :: ListsExactly(t.world.heap, t.split, xs)
  }

  /** What the client of a call may do: ask for a size that is covered, and free null or any block, in
      use or already free. */
  ghost predicate Legal(w: World, op: Op) {
    match op
    case Alloc(size) => size < U32_LIMIT && Covered(w, op)
    case Free(ptr) => ptr == 0 || ptr - HEADER in w.heap.blocks
  }

  /** What it must do to keep the list whole: free only what it holds, and never what was granted by a
      split. */
  ghost predicate Behaves(t: Tracked, op: Op) {
    Legal(t.world, op) && (op.Free? ==> op.ptr == 0 || (op.ptr in t.world.held && op.ptr !in t.split))
  }

  ghost predicate ClientsBehave(t: Tracked, ops: seq<Op>)
    decreases |ops|
  {
    ops == [] ||
    (Behaves(t, ops[0]) && (Enabled(t.world, ops[0]) ==> ClientsBehave(NextTracked(t, ops[0]), ops[1..])))
  }

  lemma ListedAfterTake(xs: seq<int>, k: nat, split: bool, total: int, a: int)
    requires k < |xs| && forall i, j :: 0 <= i < j < |xs| ==> xs[i] != xs[j]
    requires split ==> xs[k] + total !in xs
    ensures a in ListAfterTake(xs, k, split, total)
            <==> if split then a in xs || a == xs[k] + total else a in xs && a != xs[k]
  {
    var ys := ListAfterTake(xs, k, split, total);
    if a in xs && (split || a != xs[k]) {
      var i :| 0 <= i < |xs| && xs[i] == a;
      assert ys[if split then if i <= k then i else i + 1 else if i < k then i else i - 1] == a;
    }
    if split {
      assert ys[k + 1] == xs[k] + total;
    }
    if a in ys {
      var i :| 0 <= i < |ys| && ys[i] == a;
      if split {
        assert a == if i <= k then xs[i] else if i == k + 1 then xs[k] + total else xs[i - 1];
      } else {
        assert a == if i < k then xs[i] else xs[i + 1];
      }
    }
  }

  lemma AllocKeepsTracks(t: Tracked, size: nat)
    requires Safe(t.world.heap) && Tracks(t) && size != 0 && Legal(t.world, Alloc(size))
    ensures Enabled(t.world, Alloc(size)) && Tracks(NextTracked(t, Alloc(size)))
  {
    var h, total := t.world.heap, WrappedTotal(size);
    NullIsNoBlock(h.blocks);
    var xs :| ListsExactly(h, t.split, xs);
    SearchIsFirstFit(h, xs, total);
    var k, t' := StopIndex(h, total), NextTracked(t, Alloc(size));
    if size + HEADER >= U32_LIMIT {
      WrappedIsGrantedIff(h, total);
      assert t' == t;
    } else if k < |xs| {
      TakeTracks(t, xs, size, k);
    } else {
      assert t' == t;
    }
  }

  /** One block of the table after a split: listed exactly if it ought to be. */
  lemma SplitOnList(m: map<int, Block>, m': map<int, Block>, split: set<int>, xs: seq<int>, k: nat, total: int, a: int)
    requires k < |xs| && forall i, j :: 0 <= i < j < |xs| ==> xs[i] != xs[j]
    requires a in m' && xs[k] + total !in m && xs[k] + total !in xs && xs[k] in m
    requires if a in m then a == xs[k] || At(m', a).free == At(m, a).free else a == xs[k] + total && At(m', a).free
    requires a in m ==> (a in xs <==> OnList(m, split, a))
    ensures a in ListAfterTake(xs, k, true, total) <==> OnList(m', split + {xs[k] + HEADER}, a)
  {
    ListedAfterTake(xs, k, true, total, a);
  }

  /** The same for a block taken whole. */
  lemma WholeOnList(m: map<int, Block>, m': map<int, Block>, split: set<int>, xs: seq<int>, k: nat, total: int, a: int)
    requires k < |xs| && forall i, j :: 0 <= i < j < |xs| ==> xs[i] != xs[j]
    requires a in m' && a in m
    requires if a == xs[k] then !At(m', a).free else At(m', a).free == At(m, a).free
    requires a in xs <==> OnList(m, split, a)
    ensures a in ListAfterTake(xs, k, false, total) <==> OnList(m', split - {xs[k] + HEADER}, a)
  {
    ListedAfterTake(xs, k, false, total, a);
  }

  /** What a grant makes of one block. */
  lemma GrantedBlock(m: map<int, Block>, m': map<int, Block>, total: int, c: int, a: int)
    requires Grants(m, m', total, c) && a in m'
    ensures if a == c then !At(m', a).free
            else if a in m then At(m', a).free == At(m, a).free
            else At(m', a).free && a == c + At(m', c).size
  {
    var now := At(m', a);
  }

  /** One block of the table after a grant is listed exactly if it ought to be. */
  lemma TakenOnList(h: Heap, before: set<int>, after: set<int>, xs: seq<int>, total: int, k: nat, a: int)
    requires k < |xs| && forall i, j :: 0 <= i < j < |xs| ==> xs[i] != xs[j]
    requires Stops(h, total, k) && Node(h, k) == xs[k] && xs[k] in h.blocks
    requires Grants(h.blocks, Take(h, total, k).blocks, total, xs[k])
    requires Splits(At(h.blocks, xs[k]), total) ==> xs[k] + total !in h.blocks && xs[k] + total !in xs
    requires after == if Splits(At(h.blocks, xs[k]), total) then before + {xs[k] + HEADER} else before - {xs[k] + HEADER}
    requires a in Take(h, total, k).blocks && (a in h.blocks ==> (a in xs <==> OnList(h.blocks, before, a)))
    ensures a in ListAfterTake(xs, k, Splits(At(h.blocks, xs[k]), total), total)
            <==> OnList(Take(h, total, k).blocks, after, a)
  {
    var m, m' := h.blocks, Take(h, total, k).blocks;
    GrantedBlock(m, m', total, xs[k], a);
    TakenSize(h, total, k);
    if Splits(At(m, xs[k]), total) {
      SplitOnList(m, m', before, xs, k, total, a);
    } else {
      WholeOnList(m, m', before, xs, k, total, a);
    }
  }

  /** All blocks of the table after a grant. */
  lemma TakeHolds(h: Heap, before: set<int>, after: set<int>, xs: seq<int>, total: int, k: nat)
    requires k < |xs| && forall i, j :: 0 <= i < j < |xs| ==> xs[i] != xs[j]
    requires HoldsExactly(h.blocks, before, xs)
    requires Stops(h, total, k) && Node(h, k) == xs[k] && xs[k] in h.blocks
    requires Grants(h.blocks, Take(h, total, k).blocks, total, xs[k])
    requires Splits(At(h.blocks, xs[k]), total) ==> xs[k] + total !in h.blocks && xs[k] + total !in xs
    requires after == if Splits(At(h.blocks, xs[k]), total) then before + {xs[k] + HEADER} else before - {xs[k] + HEADER}
    ensures HoldsExactly(Take(h, total, k).blocks, after,
                         ListAfterTake(xs, k, Splits(At(h.blocks, xs[k]), total), total))
  {
    var m' := Take(h, total, k).blocks;
    forall a | a in m'
      ensures a in ListAfterTake(xs, k, Splits(At(h.blocks, xs[k]), total), total) <==> OnList(m', after, a)
    {
      HeldBefore(h.blocks, before, xs, a);
      TakenOnList(h, before, after, xs, total, k, a);
    }
  }

  lemma HeldBefore(m: map<int, Block>, split: set<int>, xs: seq<int>, a: int)
    requires HoldsExactly(m, split, xs)
    ensures a in m ==> (a in xs <==> OnList(m, split, a))
  {
    if a in m {
      var block := At(m, a);
    }
  }

  /** The whole list after a grant. */
  lemma TakeLists(h: Heap, before: set<int>, after: set<int>, xs: seq<int>, total: int, k: nat)
    requires Safe(h) && ListsExactly(h, before, xs) && total > HEADER
    requires k < |xs| && Stops(h, total, k) && Node(h, k) == xs[k]
    requires forall j: nat :: j < k ==> !Stops(h, total, j)
    requires after == if Splits(At(h.blocks, xs[k]), total) then before + {xs[k] + HEADER} else before - {xs[k] + HEADER}
    ensures ListsExactly(Take(h, total, k), after, ListAfterTake(xs, k, Splits(At(h.blocks, xs[k]), total), total))
  {
    NullIsNoBlock(h.blocks);
    ListHasNoDuplicates(h, xs);
    TakeFromList(h, xs, total, k);
    TakeGrants(h, total, k);
    if Splits(At(h.blocks, xs[k]), total) {
      SplitPointIsNew(h.blocks, xs[k], total);
    }
    TakeHolds(h, before, after, xs, total, k);
  }

  lemma TakeTracks(t: Tracked, xs: seq<int>, size: nat, k: nat)
    requires Safe(t.world.heap) && ListsExactly(t.world.heap, t.split, xs)
    requires size != 0 && size + HEADER < U32_LIMIT && Returns(t.world.heap, size + HEADER)
    requires k == StopIndex(t.world.heap, size + HEADER) < |xs| && Node(t.world.heap, k) == xs[k]
    ensures Tracks(NextTracked(t, Alloc(size)))
  {
    var h, t', total := t.world.heap, NextTracked(t, Alloc(size)), size + HEADER;
    PointerIsNotNull(h.blocks, xs[k]);
    assert t'.world.heap == Take(h, total, k);
    TakeLists(h, t.split, t'.split, xs, total, k);
  }

  lemma FreeKeepsTracks(t: Tracked, ptr: int)
    requires WorldSafe(t.world) && Tracks(t) && ptr in t.world.held && ptr !in t.split
    ensures Enabled(t.world, Free(ptr)) && Tracks(NextTracked(t, Free(ptr)))
  {
    var h, a := t.world.heap, ptr - HEADER;
    NullIsNoBlock(h.blocks);
    var xs :| ListsExactly(h, t.split, xs);
    var taken, t', ys := At(h.blocks, a), NextTracked(t, Free(ptr)), [a] + xs;
    assert HeldAt(t.world, a) && !OnList(h.blocks, t.split, a);
    ReleaseUnlisted(h, xs, a);
    forall b | b in t'.world.heap.blocks
      ensures b in ys <==> OnList(t'.world.heap.blocks, t'.split, b)
    {
      var was := At(h.blocks, b);
    }
    assert ListsExactly(t'.world.heap, t'.split, ys);
  }

  lemma StepKeepsTracks(t: Tracked, op: Op)
    requires WorldSafe(t.world) && Tracks(t) && Behaves(t, op)
    ensures Enabled(t.world, op) && WorldSafe(NextTracked(t, op).world) && Tracks(NextTracked(t, op))
  {
    match op {
      case Alloc(size) =>
        if size != 0 {
          AllocKeepsTracks(t, size);
        }
      case Free(ptr) =>
        if ptr != 0 {
          FreeKeepsTracks(t, ptr);
        }
    }
    StepKeepsSafeIff(t.world, op);
  }

  lemma TracksIsTidy(t: Tracked)
    requires Tracks(t)
    ensures Tidy(t.world.heap)
  {
    var xs :| ListsExactly(t.world.heap, t.split, xs);
    forall a | a in t.world.heap.blocks && At(t.world.heap.blocks, a).free
      ensures a in xs
    {
      assert OnList(t.world.heap.blocks, t.split, a);
    }
    assert Lists(t.world.heap, xs);
  }

  /** What is on the list: the free blocks, and the blocks granted by a split. */
  lemma LinkedIffFreeOrSplit(t: Tracked, a: int)
    requires Safe(t.world.heap) && Tracks(t) && a in t.world.heap.blocks
    ensures Linked(t.world.heap, a) <==> At(t.world.heap.blocks, a).free || a + HEADER in t.split
  {
    NullIsNoBlock(t.world.heap.blocks);
    var xs :| ListsExactly(t.world.heap, t.split, xs);
    LinkedIffListed(t.world.heap, xs, a);
    var block := At(t.world.heap.blocks, a);
  }

  lemma TidyIsAcyclic(h: Heap)
    requires Safe(h) && Tidy(h)
    ensures Acyclic(h)
  {
    var xs :| Lists(h, xs);
    AcyclicIffList(h);
  }

  /** A free block, or one granted by a split, is linked; freeing it loses the others or makes a cycle. */
  lemma FreeOfListedIsUntidy(t: Tracked, a: int)
    requires Safe(t.world.heap) && Tracks(t) && a in t.world.heap.blocks
    requires At(t.world.heap.blocks, a).free || a + HEADER in t.split
    ensures !Tidy(Release(t.world.heap, a))
  {
    var h := t.world.heap;
    LinkedIffFreeOrSplit(t, a);
    TracksIsTidy(t);
    TidyIsAcyclic(h);
    ReleaseKeepsAcyclicIff(h, a);
    ReleaseKeepsSafe(h, a);
    if Tidy(Release(h, a)) {
      TidyIsAcyclic(Release(h, a));
    }
  }

  /** So a block may be freed exactly if its pointer is held and the call that granted it did not
      split; in particular it must not be freed twice. */
  lemma FreeKeepsTidyIff(t: Tracked, p: int)
    requires WorldSafe(t.world) && Tracks(t) && p - HEADER in t.world.heap.blocks
    ensures Enabled(t.world, Free(p))
    ensures Tidy(Next(t.world, Free(p)).heap) <==> p in t.world.held && p !in t.split
  {
    PointerIsNotNull(t.world.heap.blocks, p - HEADER);
    var block := At(t.world.heap.blocks, p - HEADER);
    assert HeldAt(t.world, p - HEADER);
    if p in t.world.held && p !in t.split {
      FreeKeepsTracks(t, p);
      TracksIsTidy(NextTracked(t, Free(p)));
    } else {
      FreeOfListedIsUntidy(t, p - HEADER);
    }
  }

  ghost function AfterTracked(t: Tracked, ops: seq<Op>): Tracked
    requires Runs(t.world, ops)
    decreases |ops|
  {
    if ops == [] then t else AfterTracked(NextTracked(t, ops[0]), ops[1..])
  }

  /** Every disciplined run: each call comes back, and after it the list is finite and holds exactly
      the free blocks and those granted by a split. */
  lemma {:induction false} DisciplinedRunsStayTidy(t: Tracked, ops: seq<Op>)
    requires WorldSafe(t.world) && Tracks(t) && ClientsBehave(t, ops)
    ensures Runs(t.world, ops)
    ensures AfterTracked(t, ops).world == After(t.world, ops)
    ensures WorldSafe(After(t.world, ops)) && Tidy(After(t.world, ops).heap) && Tracks(AfterTracked(t, ops))
    decreases |ops|
  {
    if ops == [] {
      TracksIsTidy(t);
    } else {
      StepKeepsTracks(t, ops[0]);
      DisciplinedRunsStayTidy(NextTracked(t, ops[0]), ops[1..]);
    }
  }

  ghost predicate LegalRun(w: World, ops: seq<Op>)
    decreases |ops|
  {
    ops == [] || (Legal(w, ops[0]) && (Enabled(w, ops[0]) ==> LegalRun(Next(w, ops[0]), ops[1..])))
  }

  /** Each call comes back, and before, after and between them every free block is on a finite list. */
  ghost predicate TidyThroughout(w: World, ops: seq<Op>)
    decreases |ops|
  {
    Tidy(w.heap) && (ops == [] || (Enabled(w, ops[0]) && TidyThroughout(Next(w, ops[0]), ops[1..])))
  }

  /** The discipline is exact: among runs that free any blocks, twice or more often if they like, those
      in which every call returns and no free block ever goes missing are those that free only what
      they hold, and of that no pointer granted by a split. */
  lemma {:induction false} TidyThroughoutIff(t: Tracked, ops: seq<Op>)
    requires WorldSafe(t.world) && Tracks(t) && LegalRun(t.world, ops)
    ensures TidyThroughout(t.world, ops) <==> ClientsBehave(t, ops)
    decreases |ops|
  {
    TracksIsTidy(t);
    if ops != [] {
      if Behaves(t, ops[0]) {
        StepKeepsTracks(t, ops[0]);
        TidyThroughoutIff(NextTracked(t, ops[0]), ops[1..]);
      } else {
        FreeKeepsTidyIff(t, ops[0].ptr);
        assert !TidyThroughout(Next(t.world, ops[0]), ops[1..]);
      }
    }
  }

  lemma BootIsTidy()
    ensures WorldSafe(BOOT) && Tidy(BOOT.heap) && Tracks(TRACKED_BOOT)
  {
    var h, xs := InitialHeap(), [HEAP_START];
    assert LinksOn(h, xs, 0);
    assert Lists(h, xs) && ListsExactly(h, {}, xs);
  }

  /** Completeness: with every free block listed, an allocation of any size fails exactly when no free
      block anywhere in the heap passes the size test, that is, can hold header and payload; for the
      sizes whose sum with the header wraps, when there is no free block at all. */
  lemma NullIffNothingFits(h: Heap, size: nat)
    requires Safe(h) && Tidy(h) && 0 < size < U32_LIMIT
    ensures Returns(h, WrappedTotal(size))
    ensures size + HEADER < U32_LIMIT ==>
              (Malloc(h, size).1 == 0
               <==> forall a {:trigger At(h.blocks, a)} :: a in h.blocks ==> !Fits(At(h.blocks, a), size + HEADER))
    ensures size + HEADER >= U32_LIMIT ==>
              (Malloc(h, size).1 == 0 <==> forall a {:trigger At(h.blocks, a)} :: a in h.blocks ==> !At(h.blocks, a).free)
  {
    var total := WrappedTotal(size);
    NullIsNoBlock(h.blocks);
    var xs :| Lists(h, xs);
    SearchIsFirstFit(h, xs, total);
    var k := StopIndex(h, total);
    if k < |xs| {
      var block := At(h.blocks, xs[k]);
    } else {
      forall a | a in h.blocks
        ensures !Fits(At(h.blocks, a), total)
      {
        if At(h.blocks, a).free {
          var i :| 0 <= i < |xs| && xs[i] == a;
        }
      }
    }
  }

  // ---------------------------------------------------------------- lost blocks

  /** A free block no search can reach. */
  ghost predicate Lost(h: Heap, a: int) {
    a in h.blocks && At(h.blocks, a).free && !Linked(h, a)
  }

  lemma NextIsLinked(h: Heap, b: int)
    requires Pointers(h) && Linked(h, b)
    ensures At(h.blocks, b).next == 0 || Linked(h, At(h.blocks, b).next)
  {
    var k: nat :| Node(h, k) == b;
    assert Node(h, k + 1) == At(h.blocks, b).next;
  }

  lemma HeadIsLinked(h: Heap)
    requires Pointers(h)
    ensures h.head == 0 || Linked(h, h.head)
  {
    assert Node(h, 0) == h.head;
  }

  /** A pointer that leads to nothing new. */
  ghost predicate KnownPointer(h: Heap, added: int, p: int) {
    p == 0 || p == added || Linked(h, p)
  }

  /** Blocks that the new list can at most reach: those of the old one, and one more. */
  lemma ReachAtMost(h: Heap, h': Heap, added: int, a: int)
    requires Pointers(h) && 0 !in h'.blocks && h.blocks.Keys <= h'.blocks.Keys
    requires added in h'.blocks && a in h.blocks && a != added && !Linked(h, a)
    requires KnownPointer(h, added, h'.head)
    requires forall b {:trigger At(h'.blocks, b)} :: b in h'.blocks && (b == added || Linked(h, b)) ==>
               KnownPointer(h, added, At(h'.blocks, b).next)
    ensures !Linked(h', a)
  {
    var c := set b | b in h'.blocks && (b == added || Linked(h, b));
    forall k: nat
      ensures Node(h', k) != a
    {
      WalkStaysIn(h', c, k);
    }
  }

  lemma SplitReaches(h: Heap, total: int, k: nat, b: int)
    requires Safe(h) && total > 0
    requires Stops(h, total, k) && Node(h, k) in h.blocks && Splits(At(h.blocks, Node(h, k)), total)
    requires b in Take(h, total, k).blocks && (b == Node(h, k) + total || Linked(h, b))
    ensures KnownPointer(h, Node(h, k) + total, At(Take(h, total, k).blocks, b).next)
  {
    SplitPointIsNew(h.blocks, Node(h, k), total);
    NextIsLinked(h, Node(h, k));
    if b in h.blocks {
      NextIsLinked(h, b);
    }
  }

  lemma WholeReaches(h: Heap, total: int, k: nat, b: int)
    requires Safe(h)
    requires Stops(h, total, k) && Node(h, k) in h.blocks && !Splits(At(h.blocks, Node(h, k)), total)
    requires b in h.blocks && Linked(h, b)
    ensures KnownPointer(h, Node(h, k), At(Take(h, total, k).blocks, b).next)
    ensures KnownPointer(h, Node(h, k), Take(h, total, k).head)
  {
    NextIsLinked(h, Node(h, k));
    NextIsLinked(h, b);
    HeadIsLinked(h);
  }

  lemma SplitKeepsLost(h: Heap, total: int, k: nat, a: int)
    requires Safe(h) && Lost(h, a) && total > HEADER
    requires Stops(h, total, k) && Node(h, k) in h.blocks && Splits(At(h.blocks, Node(h, k)), total)
    ensures Lost(Take(h, total, k), a)
  {
    var h', added := Take(h, total, k), Node(h, k) + total;
    NullIsNoBlock(h.blocks);
    SplitPointIsNew(h.blocks, Node(h, k), total);
    forall b | b in h'.blocks && (b == added || Linked(h, b))
      ensures KnownPointer(h, added, At(h'.blocks, b).next)
    {
      SplitReaches(h, total, k, b);
    }
    HeadIsLinked(h);
    ReachAtMost(h, h', added, a);
    assert Linked(h, Node(h, k));
    var block := At(h.blocks, Node(h, k));
  }

  lemma WholeKeepsLost(h: Heap, total: int, k: nat, a: int)
    requires Safe(h) && Lost(h, a)
    requires Stops(h, total, k) && Node(h, k) in h.blocks && !Splits(At(h.blocks, Node(h, k)), total)
    ensures Lost(Take(h, total, k), a)
  {
    var h', added := Take(h, total, k), Node(h, k);
    NullIsNoBlock(h.blocks);
    assert Linked(h, added);
    WholeReaches(h, total, k, added);
    forall b | b in h'.blocks && (b == added || Linked(h, b))
      ensures KnownPointer(h, added, At(h'.blocks, b).next)
    {
      WholeReaches(h, total, k, b);
    }
    ReachAtMost(h, h', added, a);
  }

  lemma AllocKeepsLost(h: Heap, size: nat, a: int)
    requires Safe(h) && Lost(h, a) && 0 < size < U32_LIMIT && Returns(h, WrappedTotal(size))
    requires size + HEADER < U32_LIMIT || NothingOnOffer(h)
    ensures Lost(Malloc(h, size).0, a)
  {
    var total := WrappedTotal(size);
    var k := StopIndex(h, total);
    if size + HEADER >= U32_LIMIT {
      WrappedIsGrantedIff(h, total);
    } else if Node(h, k) in h.blocks {
      if Splits(At(h.blocks, Node(h, k)), total) {
        SplitKeepsLost(h, total, k, a);
      } else {
        WholeKeepsLost(h, total, k, a);
      }
    }
  }

  lemma FreeKeepsLost(h: Heap, a: int, freed: int)
    requires Safe(h) && Lost(h, a) && freed in h.blocks && freed != a
    ensures Lost(Release(h, freed), a)
  {
    NullIsNoBlock(h.blocks);
    HeadIsLinked(h);
    var h' := Release(h, freed);
    forall b | b in h'.blocks && (b == freed || Linked(h, b))
      ensures KnownPointer(h, freed, At(h'.blocks, b).next)
    {
      if b != freed {
        NextIsLinked(h, b);
      }
    }
    ReachAtMost(h, h', freed, a);
  }

  /** Once lost, lost for good: no covered run ever hands out, or even reaches, a lost block again,
      unless somebody frees it a second time. */
  lemma {:induction false} LostForEver(w: World, ops: seq<Op>, a: int)
    requires WorldSafe(w) && Runs(w, ops) && AllCovered(w, ops) && Lost(w.heap, a)
    requires Free(a + HEADER) !in ops
    ensures Lost(After(w, ops).heap, a) && a + HEADER !in After(w, ops).held
    decreases |ops|
  {
    var block := At(w.heap.blocks, a);
    assert HeldAt(w, a);
    if ops != [] {
      match ops[0] {
        case Alloc(size) =>
          if size != 0 {
            AllocKeepsLost(w.heap, size, a);
          }
        case Free(ptr) =>
          if ptr != 0 {
            assert ops[0] in ops && ops[0] == Free((ptr - HEADER) + HEADER);
            FreeKeepsLost(w.heap, a, ptr - HEADER);
          }
      }
      StepKeepsSafeIff(w, ops[0]);
      LostForEver(Next(w, ops[0]), ops[1..], a);
    }
  }

  /** A second free of a lost block brings it back: it is then the first one searched. */
  lemma SecondFreeFindsAgain(h: Heap, a: int)
    requires Safe(h) && Lost(h, a)
    ensures Linked(Release(h, a), a)
  {
    assert Node(Release(h, a), 0) == a;
  }

  /** What one undisciplined `kfree` costs: every free block behind the freed one. */
  lemma ReleaseListedLoses(h: Heap, xs: seq<int>, i: nat, j: nat)
    requires Safe(h) && IsList(h, xs) && i < j < |xs| && At(h.blocks, xs[j]).free
    ensures Lost(Release(h, xs[i]), xs[j])
  {
    NullIsNoBlock(h.blocks);
    ListHasNoDuplicates(h, xs);
    ReleaseListed(h, xs, i);
    assert forall k :: 0 <= k <= i ==> xs[..i + 1][k] == xs[k] != xs[j];
  }
}
