/** The kernel heap seen as a table of blocks: a first-fit allocator that splits blocks and keeps
    one singly linked list threaded through the block headers. A pointer is an address, 0 is null.

    `KernelHeap` shows that the bytes the allocator really writes always encode such a table; this
    module proves what every run of the allocator keeps. */
module HeapSpec {
  import opened Basics

  const HEAP_START: int := 0x200000
  const HEAP_SIZE: int := 0x100000
  const HEAP_END: int := HEAP_START + HEAP_SIZE
  const HEADER: int := 12
  const MIN_REMAINDER: int := HEADER + 32

  datatype Block = Block(size: int, free: bool, next: int)

  datatype Heap = Heap(head: int, blocks: map<int, Block>)

  /** The block at `a`; the quantified facts below speak of blocks through this name. */
  function At(m: map<int, Block>, a: int): Block
    requires a in m
  {
    m[a]
  }

  // ---------------------------------------------------------------- tiling

  /** The blocks lie side by side, from the first byte of the heap to the last. */
  ghost predicate Tiled(m: map<int, Block>) {
    && HEAP_START in m
    && (forall a {:trigger At(m, a)} :: a in m ==>
          && HEAP_START <= a
          && HEADER < At(m, a).size
          && a + At(m, a).size <= HEAP_END
          && (a + At(m, a).size == HEAP_END || a + At(m, a).size in m))
    && (forall a, b {:trigger At(m, a), At(m, b)} ::
          a in m && b in m && a < b ==> a + At(m, a).size <= b)
  }

  /** Every list pointer is null or the start of a block. */
  ghost predicate Pointers(h: Heap) {
    && (h.head == 0 || h.head in h.blocks)
    && (forall a {:trigger At(h.blocks, a)} :: a in h.blocks ==>
          At(h.blocks, a).next == 0 || At(h.blocks, a).next in h.blocks)
  }

  ghost predicate Safe(h: Heap) {
    Tiled(h.blocks) && Pointers(h)
  }

  /** The block starts met when stepping from `a` to the end of the heap block by block. */
  ghost function StartsFrom(m: map<int, Block>, a: int): seq<int>
    requires Tiled(m)
    requires a in m || a == HEAP_END
    decreases HEAP_END - a
  {
    if a == HEAP_END then [] else [a] + StartsFrom(m, a + At(m, a).size)
  }

  ghost function TotalSize(m: map<int, Block>, starts: seq<int>): int
    requires forall a :: a in starts ==> a in m
  {
    if starts == [] then 0 else At(m, starts[0]).size + TotalSize(m, starts[1..])
  }

  lemma {:induction false} StartsFromIsAll(m: map<int, Block>, a: int, b: int)
    requires Tiled(m)
    requires a in m || a == HEAP_END
    ensures b in StartsFrom(m, a) <==> b in m && a <= b
    decreases HEAP_END - a
  {
    if b in m {
      var block := At(m, b);
    }
    if a != HEAP_END {
      var next := a + At(m, a).size;
      StartsFromIsAll(m, next, b);
      assert StartsFrom(m, a) == [a] + StartsFrom(m, next);
    }
  }

  lemma {:induction false} StartsFromSpan(m: map<int, Block>, a: int)
    requires Tiled(m)
    requires a in m || a == HEAP_END
    ensures forall b :: b in StartsFrom(m, a) ==> b in m
    ensures TotalSize(m, StartsFrom(m, a)) == HEAP_END - a
    ensures 13 * |StartsFrom(m, a)| <= HEAP_END - a
    decreases HEAP_END - a
  {
    if a != HEAP_END {
      var next := a + At(m, a).size;
      StartsFromSpan(m, next);
      assert StartsFrom(m, a)[1..] == StartsFrom(m, next);
    }
  }

  lemma {:induction false} SetOfSeqBound(xs: seq<int>, s: set<int>)
    requires forall x :: x in s ==> x in xs
    ensures |s| <= |xs|
  {
    if xs == [] {
      assert forall x :: x in s ==> x in xs;
      assert s == {};
    } else {
      var t := s - {xs[0]};
      SetOfSeqBound(xs[1..], t);
      assert s <= t + {xs[0]};
      assert |s| <= |t| + 1;
    }
  }

  /** Conservation: the blocks are exactly the starts met on the way through the heap, their sizes
      sum to the heap size, and there can be at most HEAP_SIZE / 13 of them. */
  lemma BlocksSumToHeap(m: map<int, Block>)
    requires Tiled(m)
    ensures forall b :: b in m.Keys <==> b in StartsFrom(m, HEAP_START)
    ensures TotalSize(m, StartsFrom(m, HEAP_START)) == HEAP_SIZE
    ensures |m| <= HEAP_SIZE / 13
  {
    StartsFromSpan(m, HEAP_START);
    forall b
      ensures b in m.Keys <==> b in StartsFrom(m, HEAP_START)
    {
      StartsFromIsAll(m, HEAP_START, b);
      if b in m {
        var block := At(m, b);
      }
    }
    SetOfSeqBound(StartsFrom(m, HEAP_START), m.Keys);
  }

  lemma NullIsNoBlock(m: map<int, Block>)
    requires Tiled(m)
    ensures 0 !in m
  {
    forall a | a in m
      ensures a != 0
    {
      var block := At(m, a);
    }
  }

  // ---------------------------------------------------------------- the list walk

  /** The pointer held by `curr` after `k` rounds of the search loop. */
  ghost function Node(h: Heap, k: nat): int {
    if k == 0 then h.head
    else
      var p := Node(h, k - 1);
      if p in h.blocks then At(h.blocks, p).next else 0
  }

  predicate Fits(b: Block, total: int) {
    b.free && b.size >= total
  }

  /** The search loop is left in round `k`. */
  ghost predicate Stops(h: Heap, total: int, k: nat) {
    var p := Node(h, k);
    p !in h.blocks || Fits(At(h.blocks, p), total)
  }

  /** The search for `total` bytes returns, rather than walking a cycle for ever. */
  ghost predicate Returns(h: Heap, total: int) {
    exists k: nat :: Stops(h, total, k)
  }

  ghost predicate Acyclic(h: Heap) {
    exists k: nat :: Node(h, k) == 0
  }

  ghost predicate Linked(h: Heap, a: int) {
    a in h.blocks && exists k: nat :: Node(h, k) == a
  }

  lemma {:induction false} LeastStop(h: Heap, total: int, k: nat) returns (least: nat)
    requires Stops(h, total, k)
    ensures Stops(h, total, least)
    ensures forall j: nat :: j < least ==> !Stops(h, total, j)
  {
    least := 0;
    while !Stops(h, total, least)
      invariant forall j: nat :: j < least ==> !Stops(h, total, j)
      invariant least <= k
      decreases k - least
    {
      least := least + 1;
    }
  }

  /** The round in which the search loop is left. */
  ghost function StopIndex(h: Heap, total: int): (k: nat)
    requires Returns(h, total)
    ensures Stops(h, total, k)
    ensures forall j: nat :: j < k ==> !Stops(h, total, j)
  {
    assert exists k: nat :: Stops(h, total, k) && forall j: nat :: j < k ==> !Stops(h, total, j) by {
      var w: nat :| Stops(h, total, w);
      var least := LeastStop(h, total, w);
    }
    var k: nat :| Stops(h, total, k) && forall j: nat :: j < k ==> !Stops(h, total, j);
    k
  }

  lemma IsStopIndex(h: Heap, total: int, k: nat)
    requires Stops(h, total, k) && forall j: nat :: j < k ==> !Stops(h, total, j)
    ensures Returns(h, total) && StopIndex(h, total) == k
  {
  }

  lemma {:induction false} NodeInBlocks(h: Heap, k: nat)
    requires Pointers(h)
    ensures Node(h, k) == 0 || Node(h, k) in h.blocks
  {
    if k > 0 {
      NodeInBlocks(h, k - 1);
      assert Node(h, k - 1) in h.blocks ==> Node(h, k) == At(h.blocks, Node(h, k - 1)).next;
    }
  }

  /** A set of blocks that holds the head and is closed under `next` holds the whole walk. */
  lemma {:induction false} WalkStaysIn(h: Heap, c: set<int>, k: nat)
    requires h.head == 0 || h.head in c
    requires c <= h.blocks.Keys
    requires forall a {:trigger At(h.blocks, a)} :: a in c ==>
               At(h.blocks, a).next == 0 || At(h.blocks, a).next in c
    requires 0 !in h.blocks
    ensures Node(h, k) == 0 || Node(h, k) in c
  {
    if k > 0 {
      WalkStaysIn(h, c, k - 1);
      assert Node(h, k - 1) in c ==> Node(h, k) == At(h.blocks, Node(h, k - 1)).next;
    }
  }

  // ---------------------------------------------------------------- the three operations

  /** The table `heap_init` lays out. */
  function InitialHeap(): Heap {
    Heap(HEAP_START, map[HEAP_START := Block(HEAP_SIZE, true, 0)])
  }

  predicate Splits(b: Block, total: int) {
    b.size >= total + MIN_REMAINDER
  }

  lemma SplitPointIsNew(m: map<int, Block>, c: int, total: int)
    requires Tiled(m) && c in m && Splits(At(m, c), total) && total > 0
    ensures c + total !in m
  {
    forall a | a in m
      ensures a != c + total
    {
      var block := At(m, a);
      assert c < a ==> c + At(m, c).size <= a;
    }
  }

  /** Round `k` of the search found a fitting block: split it, or unlink it whole. */
  ghost function Take(h: Heap, total: int, k: nat): Heap
    requires Stops(h, total, k) && Node(h, k) in h.blocks
  {
    var c := Node(h, k);
    var b := At(h.blocks, c);
    if Splits(b, total) then
      h.(blocks := h.blocks[c + total := Block(b.size - total, true, b.next)]
                           [c := Block(total, false, c + total)])
    else
      var m := h.blocks[c := b.(free := false)];
      if k == 0 || Node(h, k - 1) !in m then Heap(b.next, m)
      else
        var p := Node(h, k - 1);
        h.(blocks := m[p := At(m, p).(next := b.next)])
  }

  /** Header and payload of a request, in 32-bit arithmetic. */
  function WrappedTotal(size: nat): (total: nat)
    ensures size + HEADER < U32_LIMIT ==> total == size + HEADER
    ensures size < U32_LIMIT <= size + HEADER ==> total == size + HEADER - U32_LIMIT < HEADER
  {
    (size + HEADER) % U32_LIMIT
  }

  /** The heap and the pointer after `kmalloc(size)`. */
  ghost function Malloc(h: Heap, size: nat): (Heap, int)
    requires size == 0 || Returns(h, WrappedTotal(size))
  {
    if size == 0 then (h, 0)
    else
      var k := StopIndex(h, WrappedTotal(size));
      var c := Node(h, k);
      if c !in h.blocks then (h, 0) else (Take(h, WrappedTotal(size), k), c + HEADER)
  }

  /** The test of line 29, at the call that grants a pointer. */
  ghost predicate GrantSplits(h: Heap, size: nat)
    requires size == 0 || Returns(h, WrappedTotal(size))
  {
    size != 0 &&
    var c := Node(h, StopIndex(h, WrappedTotal(size)));
    c in h.blocks && Splits(At(h.blocks, c), WrappedTotal(size))
  }

  /** The heap after `kfree` of the block whose header is at `a`. */
  function Release(h: Heap, a: int): Heap
    requires a in h.blocks
  {
    Heap(a, h.blocks[a := At(h.blocks, a).(free := true, next := h.head)])
  }

  /** What `kmalloc` amounts to once the round in which it stops is known. */
  lemma MallocAt(h: Heap, size: nat, total: int, k: nat)
    requires size != 0 && total == WrappedTotal(size)
    requires Stops(h, total, k) && forall j: nat :: j < k ==> !Stops(h, total, j)
    ensures Returns(h, total)
    ensures Malloc(h, size) == if Node(h, k) in h.blocks then (Take(h, total, k), Node(h, k) + HEADER) else (h, 0)
  {
    IsStopIndex(h, total, k);
  }

  // ---------------------------------------------------------------- the size test and the 32-bit sum

  /** Which requests are covered: a block that passes the size test is big enough for header and
      payload exactly when the 32-bit sum of line 23 does not wrap. The blocks meant are those a heap
      can have, no smaller than a header and no larger than the heap. */
  lemma FitTestIsSound(size: nat)
    requires size < U32_LIMIT
    ensures (forall b: Block :: HEADER < b.size <= HEAP_SIZE && Fits(b, WrappedTotal(size)) ==> b.size >= size + HEADER)
            <==> size + HEADER < U32_LIMIT
  {
    if size + HEADER >= U32_LIMIT {
      var b := Block(HEAP_SIZE, true, 0);
      assert Fits(b, WrappedTotal(size)) && b.size < size + HEADER;
    }
  }

  /** No free block can be reached: every search that ends, ends in null. */
  ghost predicate NothingOnOffer(h: Heap) {
    forall a {:trigger Linked(h, a)} :: Linked(h, a) ==> !At(h.blocks, a).free
  }

  /** Past the null the walk stays at null. */
  lemma {:induction false} NullStays(h: Heap, k: nat, j: nat)
    requires Node(h, k) !in h.blocks && k < j && 0 !in h.blocks
    ensures Node(h, j) == 0
  {
    if k < j - 1 {
      NullStays(h, k, j - 1);
    }
  }

  /** A request whose sum wraps is granted any free block: it fails only if none can be reached. */
  lemma WrappedIsGrantedIff(h: Heap, total: int)
    requires Safe(h) && 0 <= total <= HEADER && Returns(h, total)
    ensures Node(h, StopIndex(h, total)) in h.blocks <==> !NothingOnOffer(h)
  {
    var k := StopIndex(h, total);
    NullIsNoBlock(h.blocks);
    if Node(h, k) in h.blocks {
      assert Linked(h, Node(h, k));
    }
    forall a | Linked(h, a) && At(h.blocks, a).free
      ensures Node(h, k) in h.blocks
    {
      var j: nat :| Node(h, j) == a;
      assert Stops(h, total, j);
      if Node(h, k) !in h.blocks && k < j {
        NullStays(h, k, j);
      }
    }
  }

  /** The block a call hands out is at least what was asked for. */
  ghost predicate Serves(h: Heap, size: nat, p: int) {
    p - HEADER in h.blocks && At(h.blocks, p - HEADER).size >= size + HEADER
  }

  /** Exactly when a call keeps its word: it gives null or a block with room for header and payload
      if and only if the sum of line 23 does not wrap, or there was no free block to be found. */
  lemma GrantServesIff(h: Heap, size: nat)
    requires Safe(h) && 0 < size < U32_LIMIT && Returns(h, WrappedTotal(size))
    ensures var (h', p) := Malloc(h, size);
            p == 0 || Serves(h', size, p) <==> size + HEADER < U32_LIMIT || NothingOnOffer(h)
  {
    var total := WrappedTotal(size);
    var k := StopIndex(h, total);
    if size + HEADER >= U32_LIMIT {
      WrappedIsGrantedIff(h, total);
    }
    if Node(h, k) in h.blocks {
      var found := At(h.blocks, Node(h, k));
      var taken := At(Take(h, total, k).blocks, Node(h, k));
      TakenSize(h, total, k);
    }
  }

  /** The block taken has the size of the request, or its own if it is not split. */
  lemma TakenSize(h: Heap, total: int, k: nat)
    requires Stops(h, total, k) && Node(h, k) in h.blocks
    ensures Node(h, k) in Take(h, total, k).blocks
    ensures var b := At(h.blocks, Node(h, k));
            At(Take(h, total, k).blocks, Node(h, k)).size == if Splits(b, total) then total else b.size
    ensures h.blocks.Keys <= Take(h, total, k).blocks.Keys
  {
  }

  /** What the wrap does to the heap of a kernel just booted: 12 bytes short of 2^32 make a total of
      0, and the one block is split off itself. Its size becomes 0, its `next` its own address. */
  lemma WrapBreaksBootHeap()
    ensures var h := InitialHeap();
            && WrappedTotal(0xFFFF_FFF4) == 0 && Returns(h, 0)
            && var (h', p) := Malloc(h, 0xFFFF_FFF4);
               && p == HEAP_START + HEADER
               && h' == Heap(HEAP_START, map[HEAP_START := Block(0, false, HEAP_START)])
               && !Tiled(h'.blocks) && !Acyclic(h')
  {
    var h := InitialHeap();
    assert Stops(h, 0, 0);
    MallocAt(h, 0xFFFF_FFF4, 0, 0);
    var h' := Malloc(h, 0xFFFF_FFF4).0;
    assert h'.blocks == map[HEAP_START := Block(0, false, HEAP_START)];
    assert At(h'.blocks, HEAP_START).size == 0;
    forall k: nat
      ensures Node(h', k) != 0
    {
      SelfLoop(h', k);
    }
  }

  lemma {:induction false} SelfLoop(h: Heap, k: nat)
    requires h.head in h.blocks && At(h.blocks, h.head).next == h.head
    ensures Node(h, k) == h.head
  {
    if k > 0 {
      SelfLoop(h, k - 1);
    }
  }
}
