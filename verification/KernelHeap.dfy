/** The allocator of the kernel, on bytes. Headers live inside the managed memory: `size` in the
    bytes 0-3 of a block (little-endian), `free` in byte 4, `next` in the bytes 8-11. */
module KernelHeap {
  import opened Basics
  import opened HeapSpec
  import opened HeapRuns
  import opened HeapMemory

  function LittleEndian(b0: byte, b1: byte, b2: byte, b3: byte): int {
    b0 as int + 0x100 * b1 as int + 0x1_0000 * b2 as int + 0x100_0000 * b3 as int
  }

  lemma WordIsItsBytes(v: int, b0: int, b1: int, b2: int, b3: int)
    requires 0 <= v < U32_LIMIT
    requires b0 == v % 0x100 && b1 == v / 0x100 % 0x100
    requires b2 == v / 0x1_0000 % 0x100 && b3 == v / 0x100_0000
    ensures 0 <= b3 < 0x100
    ensures v == b0 + 0x100 * b1 + 0x1_0000 * b2 + 0x100_0000 * b3
  {
    var q1, q2 := v / 0x100, v / 0x1_0000;
    assert q2 == q1 / 0x100 && b3 == q2 / 0x100;
  }

  /** The bytes of the heap size, and of null. */
  lemma BytesOfWord(b0: byte, b1: byte, b2: byte, b3: byte)
    ensures LittleEndian(b0, b1, b2, b3) == 0x10_0000 <==> b0 == 0 && b1 == 0 && b2 == 0x10 && b3 == 0
    ensures LittleEndian(b0, b1, b2, b3) == 0 <==> b0 == 0 && b1 == 0 && b2 == 0 && b3 == 0
  {
  }

  predicate InHeader(a: int, i: int) {
    a <= HEAP_START + i < a + HEADER
  }

  /** Bytes the allocator may write: the headers, and the whole of a free block. */
  ghost predicate AllocatorByte(m: map<int, Block>, x: int) {
    exists a {:trigger At(m, a)} :: a in m && a <= x < a + (if At(m, a).free then At(m, a).size else HEADER)
  }

  /** The payload of a block in use is none of the allocator's business. */
  lemma PayloadIsNotAllocators(m: map<int, Block>, a: int, x: int)
    requires Tiled(m) && a in m && !At(m, a).free
    requires a + HEADER <= x < a + At(m, a).size
    ensures !AllocatorByte(m, x)
  {
    forall b | b in m
      ensures !(b <= x < b + (if At(m, b).free then At(m, b).size else HEADER))
    {
      var block := At(m, b);
    }
  }

  /** The sum of line 29 cannot wrap for a total that fits a block. */
  lemma LineSumDoesNotWrap(total: int)
    requires 0 <= total <= HEAP_SIZE
    ensures (total + HEADER + 32) % U32_LIMIT == total + MIN_REMAINDER
  {
  }

  /** A split keeps the tiling and the pointers, and the node before the block already points at it. */
  lemma SplitFacts(h: Heap, total: int, k: nat)
    requires Safe(h) && HEADER < total
    requires Stops(h, total, k) && Node(h, k) in h.blocks && Splits(At(h.blocks, Node(h, k)), total)
    requires forall j: nat :: j < k ==> !Stops(h, total, j)
    requires k > 0 ==> Node(h, k - 1) in h.blocks
    ensures Safe(Take(h, total, k))
    ensures k > 0 ==>
              var m, prev := Take(h, total, k).blocks, Node(h, k - 1);
              prev in m && m[prev := At(m, prev).(next := Node(h, k))] == m
  {
    TakeKeepsSafe(h, total, k);
    SplitPointIsNew(h.blocks, Node(h, k), total);
    assert k > 0 ==> !Stops(h, total, k - 1);
  }

  /** The sum of line 23 wraps, to less than a header, and the block found is split all the same: the
      two headers written share bytes. */
  ghost predicate Overlapping(h: Heap, size: nat)
    requires size == 0 || Returns(h, WrappedTotal(size))
  {
    size + HEADER >= U32_LIMIT && GrantSplits(h, size)
  }

  /** The call once the search is over. */
  lemma MallocFound(h: Heap, size: nat, total: int, k: nat)
    requires 0 < size < U32_LIMIT && total == WrappedTotal(size)
    requires Stops(h, total, k) && forall j: nat :: j < k ==> !Stops(h, total, j)
    ensures Returns(h, total)
    ensures var c := Node(h, k);
            && Malloc(h, size) == (if c in h.blocks then (Take(h, total, k), c + HEADER) else (h, 0))
            && (Overlapping(h, size) <==> c in h.blocks && total <= HEADER && Splits(At(h.blocks, c), total))
  {
    MallocAt(h, size, total, k);
    IsStopIndex(h, total, k);
  }

  lemma CoveredIsNotOverlapping(w: World, size: nat)
    requires WorldSafe(w) && Enabled(w, Alloc(size)) && Covered(w, Alloc(size))
    ensures !Overlapping(w.heap, size)
  {
    if size + HEADER >= U32_LIMIT {
      WrappedIsGrantedIff(w.heap, WrappedTotal(size));
    }
  }

  /** A held byte is none of the allocator's. */
  lemma OwnedIsNotAllocators(w: World, x: int)
    requires WorldSafe(w) && Owned(w, x)
    ensures !AllocatorByte(w.heap.blocks, x) && HEAP_START <= x < HEAP_END
  {
    var p :| OwnedBy(w, p, x);
    OwnedIsUsed(w, p, x);
    PayloadIsNotAllocators(w.heap.blocks, p - HEADER, x);
  }

  /** The node before the one found is another block, with its header beside that block. */
  lemma PrevIsApart(h: Heap, k: nat, total: int)
    requires Tiled(h.blocks) && k > 0 && Node(h, k - 1) in h.blocks && Node(h, k) in h.blocks
    requires Stops(h, total, k) && !Stops(h, total, k - 1)
    ensures var prev, curr := Node(h, k - 1), Node(h, k);
            && HEAP_START <= prev && prev + HEADER <= HEAP_END
            && (prev + HEADER <= curr || curr + At(h.blocks, curr).size <= prev)
            && At(h.blocks, prev).next == curr
  {
    var before, found := At(h.blocks, Node(h, k - 1)), At(h.blocks, Node(h, k));
  }

  class KernelHeap {
    const ram: array<byte>  // ram[i] is the byte at address HEAP_START + i
    var freeList: int
    ghost var blocks: map<int, Block>  // the table the bytes encode

    ghost function Table(): Heap
      reads this
    {
      Heap(freeList, blocks)
    }

    function ReadWord(a: int): (v: int)
      requires HEAP_START <= a && a + 4 <= HEAP_START + ram.Length
      reads ram
      ensures 0 <= v < U32_LIMIT
    {
      var i := a - HEAP_START;
      LittleEndian(ram[i], ram[i + 1], ram[i + 2], ram[i + 3])
    }

    function ReadFree(a: int): bool
      requires HEAP_START <= a && a + HEADER <= HEAP_START + ram.Length
      reads ram
    {
      ram[a + 4 - HEAP_START] != 0
    }

    /** The header stored at `a`. */
    function Header(a: int): Block
      requires HEAP_START <= a && a + HEADER <= HEAP_START + ram.Length
      reads ram
    {
      Block(ReadWord(a), ReadFree(a), ReadWord(a + 8))
    }

    /** The header of block `a` is what the table says. */
    ghost predicate HeaderAt(m: map<int, Block>, a: int)
      requires a in m
      reads ram
    {
      && HEAP_START <= a && a + HEADER <= HEAP_START + ram.Length
      && Header(a) == At(m, a)
    }

    ghost predicate Encodes(m: map<int, Block>)
      reads ram
    {
      && ram.Length == HEAP_SIZE
      && Tiled(m)
      && forall a {:trigger HeaderAt(m, a)} :: a in m ==> HeaderAt(m, a)
    }

    ghost predicate Valid()
      reads this, ram
    {
      Encodes(blocks) && Pointers(Table())
    }

    lemma BlockAt(a: int)
      requires Encodes(blocks) && a in blocks
      ensures HEAP_START <= a && a + HEADER < a + At(blocks, a).size <= HEAP_END && Header(a) == At(blocks, a)
    {
      assert HeaderAt(blocks, a);
    }

    constructor (memory: array<byte>)
      requires memory.Length == HEAP_SIZE
      modifies memory
      ensures ram == memory && Valid() && Table() == InitialHeap()
    {
      ram := memory;
      freeList := 0;
      new;
      HeapInit();
    }

    method HeapInit()
      requires ram.Length == HEAP_SIZE
      modifies this, ram
      ensures Valid() && Table() == InitialHeap()
    {
      freeList := HEAP_START;
      WriteHeader(freeList, HEAP_SIZE, true, 0);
      blocks := InitialHeap().blocks;
    }

    /** Where the fields of a header lie: what the first twelve bytes are while the table is that of
        `heap_init`, but for the padding. */
    lemma InitialBytes()
      requires Valid() && Table() == InitialHeap()
      ensures ram[0] == 0 && ram[1] == 0 && ram[2] == 0x10 && ram[3] == 0
      ensures ram[4] != 0
      ensures ram[8] == 0 && ram[9] == 0 && ram[10] == 0 && ram[11] == 0
    {
      BlockAt(HEAP_START);
      BytesOfWord(ram[0], ram[1], ram[2], ram[3]);
      BytesOfWord(ram[8], ram[9], ram[10], ram[11]);
    }

    method WriteWord(a: int, v: int)
      requires HEAP_START <= a && a + 4 <= HEAP_START + ram.Length
      requires 0 <= v < U32_LIMIT
      modifies ram
      ensures ReadWord(a) == v
      ensures forall i :: 0 <= i < ram.Length && !(a <= HEAP_START + i < a + 4) ==> ram[i] == old(ram[i])
    {
      var i := a - HEAP_START;
      var b0, b1, b2, b3 := v % 0x100, v / 0x100 % 0x100, v / 0x1_0000 % 0x100, v / 0x100_0000;
      WordIsItsBytes(v, b0, b1, b2, b3);
      ram[i] := b0 as byte;
      ram[i + 1] := b1 as byte;
      ram[i + 2] := b2 as byte;
      ram[i + 3] := b3 as byte;
    }

    method WriteFree(a: int, v: byte)
      requires HEAP_START <= a && a + HEADER <= HEAP_START + ram.Length
      modifies ram
      ensures Header(a) == old(Header(a)).(free := v != 0)
      ensures forall i :: 0 <= i < ram.Length && HEAP_START + i != a + 4 ==> ram[i] == old(ram[i])
    {
      ram[a + 4 - HEAP_START] := v;
    }

    method WriteNext(a: int, next: int)
      requires HEAP_START <= a && a + HEADER <= HEAP_START + ram.Length && 0 <= next < U32_LIMIT
      modifies ram
      ensures Header(a) == old(Header(a)).(next := next)
      ensures forall i :: 0 <= i < ram.Length && !(a + 8 <= HEAP_START + i < a + HEADER) ==> ram[i] == old(ram[i])
    {
      WriteWord(a + 8, next);
    }

    method WriteHeader(a: int, size: int, free: bool, next: int)
      requires HEAP_START <= a && a + HEADER <= HEAP_START + ram.Length
      requires 0 <= size < U32_LIMIT && 0 <= next < U32_LIMIT
      modifies ram
      ensures Header(a) == Block(size, free, next)
      ensures forall i :: 0 <= i < ram.Length && !InHeader(a, i) ==> ram[i] == old(ram[i])
    {
      WriteWord(a, size);
      WriteFree(a, if free then 1 else 0);
      WriteNext(a, next);
    }

    /** The six header writes of a split, in the order of the source: the new block's, then those of the
        block taken. If there is less than a header between the two, the first three do not last. */
    method WriteSplit(curr: int, total: int)
      requires HEAP_START <= curr && 0 <= total && curr + total + HEADER <= HEAP_START + ram.Length
      requires ram.Length <= HEAP_SIZE && total < ReadWord(curr)
      modifies ram
      ensures Header(curr) == Block(total, false, curr + total)
      ensures HEADER <= total ==>
                Header(curr + total) == Block(old(ReadWord(curr)) - total, true, old(ReadWord(curr + 8)))
      ensures forall i :: 0 <= i < ram.Length && !InHeader(curr, i) && !InHeader(curr + total, i) ==>
                ram[i] == old(ram[i])
    {
      var newBlock := curr + total;
      WriteWord(newBlock, ReadWord(curr) - total);
      WriteFree(newBlock, 1);
      WriteNext(newBlock, ReadWord(curr + 8));
      assert HEADER <= total ==> Header(newBlock) == Block(old(ReadWord(curr)) - total, true, old(ReadWord(curr + 8)));
      WriteHeader(curr, total, false, newBlock);
    }

    /** `block->next = next`: in a table the bytes encode, that link changes and nothing else. */
    method SetNext(a: int, next: int)
      requires HEAP_START <= a && a + HEADER <= HEAP_START + ram.Length && a in blocks && 0 <= next < U32_LIMIT
      modifies `blocks, ram
      ensures blocks == old(blocks)[a := At(old(blocks), a).(next := next)]
      ensures old(Encodes(blocks)) ==> Encodes(blocks)
      ensures forall i :: 0 <= i < ram.Length && !InHeader(a, i) ==> ram[i] == old(ram[i])
    {
      ghost var m, m' := blocks, blocks[a := At(blocks, a).(next := next)];
      WriteNext(a, next);
      if old(Encodes(blocks)) {
        SameSizesKeepTiled(m, m');
        forall b | b in m'
          ensures HeaderAt(m', b)
        {
          assert old(HeaderAt(m, b));
          if b != a {
            ghost var was, changed := At(m, b), At(m, a);
          }
        }
      }
      blocks := m';
    }

    /** `block->free = v`: likewise. */
    method SetFree(a: int, v: byte)
      requires HEAP_START <= a && a + HEADER <= HEAP_START + ram.Length && a in blocks
      modifies `blocks, ram
      ensures blocks == old(blocks)[a := At(old(blocks), a).(free := v != 0)]
      ensures old(Encodes(blocks)) ==> Encodes(blocks)
      ensures forall i :: 0 <= i < ram.Length && !InHeader(a, i) ==> ram[i] == old(ram[i])
    {
      ghost var m, m' := blocks, blocks[a := At(blocks, a).(free := v != 0)];
      WriteFree(a, v);
      if old(Encodes(blocks)) {
        SameSizesKeepTiled(m, m');
        forall b | b in m'
          ensures HeaderAt(m', b)
        {
          assert old(HeaderAt(m, b));
          if b != a {
            ghost var was, changed := At(m, b), At(m, a);
          }
        }
      }
      blocks := m';
    }

    /** After `k` rounds of the search without a fit. */
    ghost predicate Walks(h: Heap, k: nat, curr: int, prev: int, total: int)
      reads this, ram
    {
      && Valid() && h == Table() && 0 <= total
      && curr == Node(h, k) && (curr == 0 || curr in blocks)
      && (forall j: nat :: j < k ==> !Stops(h, total, j))
      && (if k == 0 then prev == 0 else prev == Node(h, k - 1) && prev in blocks)
    }

    /** The loop of `kmalloc`. It ends because the search does; see `HeapLists.ReturnsIff`. */
    method Search(total: int) returns (curr: int, prev: int, ghost k: nat)
      requires Valid() && 0 <= total && Returns(Table(), total)
      ensures Walks(Table(), k, curr, prev, total)
      ensures Stops(Table(), total, k)
    {
      curr, prev := freeList, 0;
      k := 0;
      ghost var h, stop := Table(), StopIndex(Table(), total);
      while curr != 0
        invariant k <= stop
        invariant Walks(h, k, curr, prev, total)
        decreases stop - k
      {
        BlockAt(curr);
        if ReadFree(curr) && ReadWord(curr) >= total {
          assert Fits(At(h.blocks, Node(h, k)), total);
          return;
        }
        assert !Stops(h, total, k);
        prev := curr;
        curr := ReadWord(curr + 8);
        k := k + 1;
        NodeInBlocks(h, k);
      }
      NullIsNoBlock(blocks);
    }

    /** `kmalloc`, for every call that returns. A split that overlaps leaves bytes that no table with
        that block encodes; every other call leaves those of `Malloc`. */
    method Kmalloc(size: int) returns (ptr: int)
      requires Valid()
      requires 0 <= size < U32_LIMIT
      requires size != 0 ==> Returns(Table(), WrappedTotal(size))
      modifies this, ram
      ensures ptr == Malloc(old(Table()), size).1
      ensures !Overlapping(old(Table()), size) ==> Valid() && Table() == Malloc(old(Table()), size).0
      ensures Overlapping(old(Table()), size) ==> Broken(ptr - HEADER, WrappedTotal(size)) && freeList == old(freeList)
      ensures forall i :: 0 <= i < ram.Length && ram[i] != old(ram[i]) ==> AllocatorByte(old(blocks), HEAP_START + i)
    {
      if size == 0 {
        return 0;
      }
      var total := WrappedTotal(size);
      var curr, prev, k := Search(total);
      ghost var h := Table();
      MallocFound(h, size, total, k);
      NullIsNoBlock(blocks);
      if curr == 0 {
        return 0;
      }
      TakeFound(h, k, curr, prev, total);
      return curr + HEADER;
    }

    /** The header at `a` holds a size too small for a header: no table the bytes encode has that block. */
    ghost predicate Broken(a: int, size: int)
      reads ram
    {
      && HEAP_START <= a && a + HEADER <= HEAP_START + ram.Length
      && Header(a) == Block(size, false, a + size)
      && forall m :: Encodes(m) ==> a !in m
    }

    lemma EncodedSize(m: map<int, Block>, a: int)
      requires Encodes(m) && a in m
      ensures HEADER < At(m, a).size && HeaderAt(m, a)
    {
    }

    lemma SmallSizeBreaks(a: int, size: int)
      requires HEAP_START <= a && a + HEADER <= HEAP_START + ram.Length
      requires Header(a) == Block(size, false, a + size) && size <= HEADER
      ensures Broken(a, size)
    {
      forall m | Encodes(m)
        ensures a !in m
      {
        if a in m {
          EncodedSize(m, a);
        }
      }
    }

    /** The block found is split if that leaves room for another block, and unlinked otherwise. */
    method TakeFound(ghost h: Heap, ghost k: nat, curr: int, prev: int, total: int)
      requires Walks(h, k, curr, prev, total) && curr in blocks && Stops(h, total, k)
      modifies this, ram
      ensures HEADER < total || !Splits(At(h.blocks, curr), total) ==> Valid() && Table() == Take(h, total, k)
      ensures total <= HEADER && Splits(At(h.blocks, curr), total) ==> Broken(curr, total) && freeList == old(freeList)
      ensures forall i :: 0 <= i < ram.Length && ram[i] != old(ram[i]) ==> AllocatorByte(old(blocks), HEAP_START + i)
    {
      BlockAt(curr);
      assert Fits(At(h.blocks, curr), total);
      LineSumDoesNotWrap(total);
      if ReadWord(curr) >= (total + HEADER + 32) % U32_LIMIT {
        TakeBySplit(h, k, curr, prev, total);
      } else {
        TakeWhole(h, k, curr, prev, total);
      }
    }

    /** The split as far as the two blocks go. */
    method SplitBlock(ghost h: Heap, ghost k: nat, curr: int, total: int)
      requires Valid() && h == Table() && 0 <= total
      requires curr in blocks && curr == Node(h, k) && Stops(h, total, k) && Splits(At(blocks, curr), total)
      requires HEADER < total ==> Tiled(Take(h, total, k).blocks)
      modifies `blocks, ram
      ensures blocks == Take(h, total, k).blocks && (HEADER < total ==> Encodes(blocks))
      ensures curr + HEADER <= HEAP_END && Header(curr) == Block(total, false, curr + total)
      ensures forall i :: 0 <= i < ram.Length && !InHeader(curr, i) && !InHeader(curr + total, i) ==>
                ram[i] == old(ram[i])
    {
      BlockAt(curr);
      WriteSplit(curr, total);
      ghost var m, m' := blocks, Take(h, total, k).blocks;
      if HEADER < total {
        forall b | b in m'
          ensures HeaderAt(m', b)
        {
          if b in m && b != curr {
            ghost var was, taken := At(m, b), At(m, curr);
            assert old(HeaderAt(m, b));
          }
        }
      }
      blocks := m';
    }

    method TakeBySplit(ghost h: Heap, ghost k: nat, curr: int, prev: int, total: int)
      requires Walks(h, k, curr, prev, total) && curr in blocks
      requires Stops(h, total, k) && Splits(At(blocks, curr), total)
      modifies this, ram
      ensures HEADER < total ==> Valid() && Table() == Take(h, total, k)
      ensures total <= HEADER ==> Broken(curr, total) && freeList == old(freeList)
      ensures forall i :: 0 <= i < ram.Length && ram[i] != old(ram[i]) ==> AllocatorByte(old(blocks), HEAP_START + i)
    {
      BlockAt(curr);
      NullIsNoBlock(blocks);
      ghost var m' := Take(h, total, k).blocks;
      if HEADER < total {
        SplitFacts(h, total, k);
      }
      SplitBlock(h, k, curr, total);
      if prev != 0 {
        PrevIsApart(h, k, total);
        SetNext(prev, curr);
        assert HEADER < total ==> blocks == m';
      } else {
        freeList := curr;
      }
      if total <= HEADER {
        SmallSizeBreaks(curr, total);
      }
    }

    method TakeWhole(ghost h: Heap, ghost k: nat, curr: int, prev: int, total: int)
      requires Walks(h, k, curr, prev, total) && curr in blocks
      requires Stops(h, total, k) && !Splits(At(blocks, curr), total)
      modifies this, ram
      ensures Valid() && Table() == Take(h, total, k)
      ensures forall i :: 0 <= i < ram.Length && ram[i] != old(ram[i]) ==> AllocatorByte(old(blocks), HEAP_START + i)
    {
      BlockAt(curr);
      NullIsNoBlock(blocks);
      SetFree(curr, 0);
      BlockAt(curr);
      if prev != 0 {
        BlockAt(prev);
        SetNext(prev, ReadWord(curr + 8));
        assert blocks == Take(h, total, k).blocks;
      } else {
        freeList := ReadWord(curr + 8);
        assert blocks == Take(h, total, k).blocks;
      }
      TakeKeepsPointers(h, total, k);
    }

    /** `kfree` of null, or of a pointer to some block, in use or already free. */
    method Kfree(ptr: int)
      requires Valid()
      requires ptr == 0 || ptr - HEADER in blocks
      modifies this, ram
      ensures Valid()
      ensures Table() == if ptr == 0 then old(Table()) else Release(old(Table()), ptr - HEADER)
      ensures forall i :: 0 <= i < ram.Length && ram[i] != old(ram[i]) ==> AllocatorByte(old(blocks), HEAP_START + i)
    {
      if ptr == 0 {
        return;
      }
      var header := ptr - HEADER;
      BlockAt(header);
      if freeList != 0 {
        BlockAt(freeList);
      }
      ghost var h := Table();
      ReleaseKeepsSafe(h, header);
      SetFree(header, 1);
      SetNext(header, freeList);
      assert blocks == Release(h, header).blocks;
      freeList := header;
    }

    /** A client writes into memory it holds: the allocator's table does not change, and neither does
        any other byte. */
    method StorePayload(ghost a: int, x: int, v: byte)
      requires Valid()
      requires a in blocks && !At(blocks, a).free && a + HEADER <= x < a + At(blocks, a).size
      requires HEAP_START <= x < HEAP_END
      modifies ram
      ensures Valid()
      ensures ram[..] == old(ram[..])[x - HEAP_START := v]
    {
      forall b | b in blocks
        ensures HeaderAt(blocks, b) && !InHeader(b, x - HEAP_START)
      {
        BlockAt(b);
        PayloadIsNotAllocators(blocks, a, x);
      }
      ram[x - HEAP_START] := v;
      assert forall b {:trigger HeaderAt(blocks, b)} :: b in blocks ==> old(HeaderAt(blocks, b)) && HeaderAt(blocks, b);
    }

    /** The bytes encode the table of the world, and have the values that are relied on. */
    ghost predicate Agrees(mem: Memory)
      reads this, ram
    {
      && Valid() && mem.world.heap == Table()
      && forall x :: x in mem.stored ==> HEAP_START <= x < HEAP_END && ram[x - HEAP_START] == mem.stored[x]
    }

    /** One call on the bytes. */
    method Perform(ghost mem: Memory, op: Op)
      requires Agrees(mem) && Relies(mem) && Allowed(mem.world, Call(op))
      modifies this, ram
      ensures Agrees(Act(mem, Call(op)))
    {
      forall x | x in mem.stored
        ensures !AllocatorByte(blocks, x) && HEAP_START <= x < HEAP_END
      {
        OwnedIsNotAllocators(mem.world, x);
      }
      match op {
        case Alloc(size) =>
          CoveredIsNotOverlapping(mem.world, size);
          var p := Kmalloc(size);
        case Free(ptr) =>
          Kfree(ptr);
      }
    }

    /** A run of calls and stores, carried out one after the other on the bytes: they end as the run
        says. */
    method Replay(ghost mem: Memory, actions: seq<Action>)
      requires Agrees(mem) && Relies(mem) && Acts(mem.world, actions)
      modifies this, ram
      ensures Agrees(AfterActs(mem, actions))
      decreases |actions|
    {
      if actions == [] {
        return;
      }
      ActKeepsRelies(mem, actions[0]);
      match actions[0] {
        case Call(op) =>
          Perform(mem, op);
        case Store(x, v) =>
          ghost var p :| OwnedBy(mem.world, p, x);
          OwnedIsUsed(mem.world, p, x);
          StorePayload(p - HEADER, x, v);
      }
      Replay(Act(mem, actions[0]), actions[1..]);
    }
  }
}
