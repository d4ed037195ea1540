/** When the free list becomes a cycle, that it then stays one, and the first call in numbers. */
module HeapCycles {
  import opened Basics
  import opened HeapSpec
  import opened HeapRuns
  import opened HeapLists
  import opened HeapDiscipline

  /** `c` holds the head of the list and, with every block, the one behind it. */
  ghost predicate Closed(h: Heap, c: set<int>) {
    && h.head in c && c <= h.blocks.Keys
    && forall a {:trigger At(h.blocks, a)} :: a in c ==> At(h.blocks, a).next in c
  }

  lemma {:induction false} WalkInClosed(h: Heap, c: set<int>, k: nat)
    requires Closed(h, c)
    ensures Node(h, k) in c
  {
    if k > 0 {
      WalkInClosed(h, c, k - 1);
      assert Node(h, k) == At(h.blocks, Node(h, k - 1)).next;
    }
  }

  lemma ClosedIsCyclic(h: Heap, c: set<int>)
    requires Closed(h, c) && 0 !in h.blocks
    ensures !Acyclic(h)
  {
    forall k: nat
      ensures Node(h, k) != 0
    {
      WalkInClosed(h, c, k);
    }
  }

  ghost function Reached(h: Heap): set<int> {
    set a | a in h.blocks && Linked(h, a)
  }

  lemma CyclicIsClosed(h: Heap)
    requires Pointers(h) && !Acyclic(h)
    ensures Closed(h, Reached(h))
  {
    assert Node(h, 0) == h.head != 0;
    HeadIsLinked(h);
    forall a | a in Reached(h)
      ensures At(h.blocks, a).next in Reached(h)
    {
      var k: nat :| Node(h, k) == a;
      assert Node(h, k + 1) == At(h.blocks, a).next != 0;
      NextIsLinked(h, a);
    }
  }

  // ---------------------------------------------------------------- one call

  /** A split of a block with itself, as the total 0 makes it, closes the list at that block. */
  lemma SplitOffItselfIsCyclic(h: Heap, xs: seq<int>, k: nat)
    requires Tiled(h.blocks) && IsList(h, xs) && k < |xs|
    requires Stops(h, 0, k) && Node(h, k) == xs[k] && Splits(At(h.blocks, xs[k]), 0)
    ensures !Acyclic(Take(h, 0, k))
  {
    NullIsNoBlock(h.blocks);
    ListHasNoDuplicates(h, xs);
    var h', c := Take(h, 0, k), set i | 0 <= i <= k :: xs[i];
    assert xs[0] in c && xs[k] in c;
    forall a | a in c
      ensures At(h'.blocks, a).next in c
    {
      var i :| 0 <= i <= k && xs[i] == a;
      assert LinksOn(h, xs, i);
      if i < k {
        assert xs[i + 1] in c;
      }
    }
    ClosedIsCyclic(h', c);
  }

  /** What a call on a finite list leaves, once the block it takes is known. */
  lemma TakeKeepsAcyclicIff(h: Heap, xs: seq<int>, total: int, k: nat)
    requires Safe(h) && IsList(h, xs) && k < |xs| && Stops(h, total, k) && Node(h, k) == xs[k]
    requires total == 0 || total > HEADER || !Splits(At(h.blocks, xs[k]), total)
    ensures Acyclic(Take(h, total, k)) <==> !(total == 0 && Splits(At(h.blocks, xs[k]), total))
  {
    NullIsNoBlock(h.blocks);
    if !Splits(At(h.blocks, xs[k]), total) {
      UnlinkFromList(h, xs, total, k);
      NodeOfList(Take(h, total, k), RemoveAt(xs, k), |xs| - 1);
    } else if total == 0 {
      SplitOffItselfIsCyclic(h, xs, k);
    } else {
      SplitPointIsNew(h.blocks, xs[k], total);
      SplitInList(h, xs, total, k);
      NodeOfList(Take(h, total, k), InsertAfter(xs, k, xs[k] + total), |xs| + 1);
    }
  }

  /** Exactly when `kmalloc` keeps a finite list finite: unless the sum of line 23 wraps to 0 and the
      block is split all the same. The sums 1 to 11 make the headers of a split overlap, and the table
      then does not describe the bytes; see `KernelHeap.KernelHeap.Kmalloc`. */
  lemma MallocKeepsAcyclicIff(h: Heap, size: nat)
    requires Safe(h) && Acyclic(h) && 0 < size < U32_LIMIT
    ensures Returns(h, WrappedTotal(size))
    ensures !(GrantSplits(h, size) && 0 < WrappedTotal(size) < HEADER) ==>
              (Acyclic(Malloc(h, size).0) <==> !(GrantSplits(h, size) && WrappedTotal(size) == 0))
  {
    var total := WrappedTotal(size);
    NullIsNoBlock(h.blocks);
    AcyclicIffList(h);
    var xs :| IsList(h, xs);
    SearchIsFirstFit(h, xs, total);
    var k := StopIndex(h, total);
    if k < |xs| && !(GrantSplits(h, size) && 0 < total < HEADER) {
      assert total != HEADER;
      TakeKeepsAcyclicIff(h, xs, total, k);
    }
  }

  /** On a cyclic list `kmalloc`, of any size, never gives null: it returns a block or not at all. */
  lemma CyclicNeverGivesNull(h: Heap, size: nat)
    requires Safe(h) && !Acyclic(h) && size != 0 && Returns(h, WrappedTotal(size))
    ensures Malloc(h, size).1 != 0
  {
    var k := StopIndex(h, WrappedTotal(size));
    NodeInBlocks(h, k);
    PointerIsNotNull(h.blocks, Node(h, k));
  }

  /** The first call in numbers: a request is split off the one block if at least 44 bytes remain, given
      the whole of it if fewer do, and refused if it is larger. */
  lemma FirstAllocationInNumbers(size: nat)
    requires 0 < size < 0xFFFF_FFF4
    ensures Returns(InitialHeap(), size + 12)
    ensures var (h, p) := Malloc(InitialHeap(), size);
            var rest := 0x20_0000 + size + 12;
            if size + 12 + 44 <= 0x10_0000 then
              && p == 0x20_000C && h.head == 0x20_0000
              && h.blocks == map[0x20_0000 := Block(size + 12, false, rest),
                                 rest := Block(0x10_0000 - (size + 12), true, 0)]
            else if size + 12 <= 0x10_0000 then
              p == 0x20_000C && h == Heap(0, map[0x20_0000 := Block(0x10_0000, false, 0)])
            else p == 0 && h == Heap(0x20_0000, map[0x20_0000 := Block(0x10_0000, true, 0)])
  {
    var h, xs := InitialHeap(), [HEAP_START];
    assert LinksOn(h, xs, 0);
    SearchIsFirstFit(h, xs, size + HEADER);
    var block := At(h.blocks, HEAP_START);
    var k := StopIndex(h, size + HEADER);
    NodeOfList(h, xs, k);
  }

  // ---------------------------------------------------------------- once a cycle, always a cycle

  /** One link after a split leads to the remainder, or where a link led before. */
  lemma LinkAfterSplit(h: Heap, total: int, k: nat, c: set<int>, a: int)
    requires Stops(h, total, k) && Node(h, k) in h.blocks && Splits(At(h.blocks, Node(h, k)), total)
    requires At(h.blocks, Node(h, k)).next in c && total > 0
    requires a == Node(h, k) + total || (a in h.blocks && At(h.blocks, a).next in c)
    ensures a in Take(h, total, k).blocks && At(Take(h, total, k).blocks, a).next in c + {Node(h, k) + total}
  {
  }

  lemma SplitKeepsClosed(h: Heap, total: int, k: nat, c: set<int>)
    requires Closed(h, c) && total > 0 && Node(h, k) in c
    requires Stops(h, total, k) && Splits(At(h.blocks, Node(h, k)), total)
    ensures Closed(Take(h, total, k), c + {Node(h, k) + total})
  {
    var h', added := Take(h, total, k), Node(h, k) + total;
    var taken := At(h.blocks, Node(h, k));
    forall a | a in c + {added}
      ensures a in h'.blocks && At(h'.blocks, a).next in c + {added}
    {
      if a != added {
        var was := At(h.blocks, a);
      }
      LinkAfterSplit(h, total, k, c, a);
    }
  }

  lemma WholeKeepsClosed(h: Heap, total: int, k: nat, c: set<int>)
    requires Closed(h, c) && Node(h, k) in c
    requires Stops(h, total, k) && !Splits(At(h.blocks, Node(h, k)), total)
    ensures Closed(Take(h, total, k), c)
  {
    var h' := Take(h, total, k);
    var taken := At(h.blocks, Node(h, k));
    forall a | a in c
      ensures At(h'.blocks, a).next in c
    {
      var was := At(h.blocks, a);
    }
  }

  lemma SplitPointIsNotNull(h: Heap, total: int, k: nat)
    requires Tiled(h.blocks) && total > 0
    requires Stops(h, total, k) && Node(h, k) in h.blocks && Splits(At(h.blocks, Node(h, k)), total)
    ensures 0 !in Take(h, total, k).blocks
  {
    NullIsNoBlock(h.blocks);
    var taken := At(h.blocks, Node(h, k));
  }

  lemma TakeKeepsCyclic(h: Heap, total: int, k: nat)
    requires Safe(h) && !Acyclic(h) && total > 0
    requires Stops(h, total, k) && Node(h, k) in h.blocks
    ensures !Acyclic(Take(h, total, k))
  {
    var h', c := Take(h, total, k), Reached(h);
    NullIsNoBlock(h.blocks);
    CyclicIsClosed(h);
    WalkInClosed(h, c, k);
    if Splits(At(h.blocks, Node(h, k)), total) {
      SplitKeepsClosed(h, total, k, c);
      SplitPointIsNotNull(h, total, k);
      ClosedIsCyclic(h', c + {Node(h, k) + total});
    } else {
      WholeKeepsClosed(h, total, k, c);
      ClosedIsCyclic(h', c);
    }
  }

  lemma ReleaseKeepsCyclic(h: Heap, a: int)
    requires Safe(h) && !Acyclic(h) && a in h.blocks
    ensures !Acyclic(Release(h, a))
  {
    var h', c := Release(h, a), Reached(h) + {a};
    CyclicIsClosed(h);
    forall b | b in c
      ensures At(h'.blocks, b).next in c
    {
      var was := At(h.blocks, b);
    }
    NullIsNoBlock(h.blocks);
    ClosedIsCyclic(h', c);
  }

  lemma StepKeepsCyclic(w: World, op: Op)
    requires WorldSafe(w) && Enabled(w, op) && Covered(w, op) && !Acyclic(w.heap)
    ensures !Acyclic(Next(w, op).heap)
  {
    match op
    case Free(ptr) =>
      if ptr != 0 {
        ReleaseKeepsCyclic(w.heap, ptr - HEADER);
      }
    case Alloc(size) =>
      if size != 0 {
        var total := WrappedTotal(size);
        var k := StopIndex(w.heap, total);
        if size + HEADER >= U32_LIMIT {
          WrappedIsGrantedIff(w.heap, total);
        } else if Node(w.heap, k) in w.heap.blocks {
          TakeKeepsCyclic(w.heap, total, k);
        }
      }
  }

  /** The call frees no block that can still be reached. */
  ghost predicate FreesNoLinked(w: World, op: Op) {
    op.Free? && op.ptr != 0 ==> !Linked(w.heap, op.ptr - HEADER)
  }

  lemma StepKeepsAcyclicIff(w: World, op: Op)
    requires WorldSafe(w) && Enabled(w, op) && Covered(w, op)
    ensures Acyclic(Next(w, op).heap) <==> Acyclic(w.heap) && FreesNoLinked(w, op)
  {
    if !Acyclic(w.heap) {
      StepKeepsCyclic(w, op);
    } else {
      match op {
        case Free(ptr) =>
          if ptr != 0 {
            ReleaseKeepsAcyclicIff(w.heap, ptr - HEADER);
          }
        case Alloc(size) =>
          if size != 0 {
            MallocKeepsAcyclicIff(w.heap, size);
            if GrantSplits(w.heap, size) {
              CoveredSplitIsNoWrap(w, size);
            }
          }
      }
    }
  }

  lemma CoveredSplitIsNoWrap(w: World, size: nat)
    requires WorldSafe(w) && Enabled(w, Alloc(size)) && Covered(w, Alloc(size)) && GrantSplits(w.heap, size)
    ensures WrappedTotal(size) == size + HEADER
  {
    if size + HEADER >= U32_LIMIT {
      WrappedIsGrantedIff(w.heap, WrappedTotal(size));
    }
  }

  ghost predicate NeverFreesLinked(w: World, ops: seq<Op>)
    requires Runs(w, ops)
    decreases |ops|
  {
    ops == [] || (FreesNoLinked(w, ops[0]) && NeverFreesLinked(Next(w, ops[0]), ops[1..]))
  }

  /** Over every covered run: the list is finite at the end if and only if it was at the start and no
      block was freed while it could be reached. A list that has become a cycle stays one. */
  lemma {:induction false} RunKeepsAcyclicIff(w: World, ops: seq<Op>)
    requires WorldSafe(w) && Runs(w, ops) && AllCovered(w, ops)
    ensures Acyclic(After(w, ops).heap) <==> Acyclic(w.heap) && NeverFreesLinked(w, ops)
    decreases |ops|
  {
    if ops != [] {
      StepKeepsSafeIff(w, ops[0]);
      StepKeepsAcyclicIff(w, ops[0]);
      RunKeepsAcyclicIff(Next(w, ops[0]), ops[1..]);
    }
  }
}
