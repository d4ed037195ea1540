/** The physical page allocator: one bit per 4096-byte frame, set while the frame is in use. */
module PageAllocator {
  import opened Basics
  import opened Words
  import opened PageRuns

  type Word = w: nat | w < U32_LIMIT

  // ---------------------------------------------------------------- frames of a bitmap

  predicate FrameUsed(words: seq<Word>, f: nat)
    requires f < WORD_BITS * |words|
  {
    Bit(words[f / WORD_BITS], f % WORD_BITS)
  }

  /** The frames in use among those of the first `size` words. */
  ghost function Used(words: seq<Word>, size: nat): set<int>
    requires size <= |words|
  {
    set f | 0 <= f < WORD_BITS * size && FrameUsed(words, f)
  }

  function SetFrame(words: seq<Word>, f: nat): seq<Word>
    requires f < WORD_BITS * |words|
  {
    WordStaysWord(words[f / WORD_BITS], f % WORD_BITS);
    words[f / WORD_BITS := Or(words[f / WORD_BITS], Mask(f % WORD_BITS))]
  }

  function ClearFrame(words: seq<Word>, f: nat): seq<Word>
    requires f < WORD_BITS * |words|
  {
    WordStaysWord(words[f / WORD_BITS], f % WORD_BITS);
    words[f / WORD_BITS := AndNot(words[f / WORD_BITS], Mask(f % WORD_BITS))]
  }

  lemma SetFrameUses(words: seq<Word>, f: nat, g: nat)
    requires f < WORD_BITS * |words| && g < WORD_BITS * |words|
    ensures FrameUsed(SetFrame(words, f), g) <==> g == f || FrameUsed(words, g)
  {
    SetAndClear(words[f / WORD_BITS], f % WORD_BITS, g % WORD_BITS);
  }

  lemma ClearFrameFrees(words: seq<Word>, f: nat, g: nat)
    requires f < WORD_BITS * |words| && g < WORD_BITS * |words|
    ensures FrameUsed(ClearFrame(words, f), g) <==> g != f && FrameUsed(words, g)
  {
    SetAndClear(words[f / WORD_BITS], f % WORD_BITS, g % WORD_BITS);
  }

  /** One frame more, or one less, and nothing else. */
  lemma UsedAfter(words: seq<Word>, size: nat, f: nat)
    requires size <= |words| && f < WORD_BITS * |words|
    ensures f < WORD_BITS * size ==> Used(SetFrame(words, f), size) == Used(words, size) + {f}
    ensures Used(ClearFrame(words, f), size) == Used(words, size) - {f}
  {
    forall g: nat | g < WORD_BITS * size
      ensures FrameUsed(SetFrame(words, f), g) <==> g == f || FrameUsed(words, g)
      ensures FrameUsed(ClearFrame(words, f), g) <==> g != f && FrameUsed(words, g)
    {
      SetFrameUses(words, f, g);
      ClearFrameFrees(words, f, g);
    }
  }

  /** Allocating a frame and freeing it again restores the bitmap bit for bit. */
  lemma SetThenClearFrame(words: seq<Word>, f: nat)
    requires f < WORD_BITS * |words| && !FrameUsed(words, f)
    ensures ClearFrame(SetFrame(words, f), f) == words
  {
    SetThenClear(words[f / WORD_BITS], f % WORD_BITS);
  }

  /** The least frame not in use, if any. */
  ghost predicate LeastUnused(words: seq<Word>, size: nat, f: nat)
    requires size <= |words|
  {
    && f < WORD_BITS * size
    && !FrameUsed(words, f)
    && forall g: nat :: g < f ==> FrameUsed(words, g)
  }

  lemma FullWordFrames(words: seq<Word>, i: nat)
    requires i < |words|
    ensures words[i] == 0xFFFF_FFFF
            <==> forall g: nat :: WORD_BITS * i <= g < WORD_BITS * (i + 1) ==> FrameUsed(words, g)
  {
    if words[i] == 0xFFFF_FFFF {
      forall g: nat | WORD_BITS * i <= g < WORD_BITS * (i + 1)
        ensures FrameUsed(words, g)
      {
        FullWordHas(words[i], g % WORD_BITS);
      }
    } else {
      var k := OtherWordLacks(words[i]);
      assert !FrameUsed(words, WORD_BITS * i + k);
    }
  }

  /** The bitmap takes the steps of the set: what is found first is the least missing frame, and
      setting or clearing its bit adds it to, or takes it from, the set. */
  lemma BitmapRefinesSet(words: seq<Word>, size: nat, f: nat)
    requires size <= |words| && f < WORD_BITS * size
    ensures LeastUnused(words, size, f) <==> LeastMissing(Used(words, size), WORD_BITS * size, f)
    ensures Used(SetFrame(words, f), size) == Used(words, size) + {f}
    ensures Used(ClearFrame(words, f), size) == Used(words, size) - {f}
  {
    UsedAfter(words, size, f);
    forall g: nat | g < WORD_BITS * size
      ensures FrameUsed(words, g) <==> g in Used(words, size)
    {
    }
  }

  lemma FullBitmap(words: seq<Word>, size: nat)
    requires size <= |words|
    ensures (forall g: nat :: g < WORD_BITS * size ==> FrameUsed(words, g))
            <==> FramesBelow(WORD_BITS * size) <= Used(words, size)
  {
    var used, all := Used(words, size), FramesBelow(WORD_BITS * size);
    forall g: nat | g < WORD_BITS * size
      ensures FrameUsed(words, g) <==> g in used
      ensures g in all
    {
      assert Below(g, WORD_BITS * size);
    }
    if all <= used {
      assert forall g: nat :: g < WORD_BITS * size ==> g in all;
    }
  }

  /** Whoever writes a word of the bitmap without the allocator changes what is in use, unless it
      writes the word that was there. */
  lemma OverwriteKeepsUsedIff(words: seq<Word>, size: nat, i: nat, v: Word)
    requires i < size <= |words|
    ensures Used(words[i := v], size) == Used(words, size) <==> v == words[i]
  {
    if Used(words[i := v], size) == Used(words, size) {
      forall k: nat | k < WORD_BITS
        ensures Bit(v, k) <==> Bit(words[i], k)
      {
        var f := WORD_BITS * i + k;
        assert FrameUsed(words, f) == Bit(words[i], k) && FrameUsed(words[i := v], f) == Bit(v, k);
        assert f in Used(words, size) <==> f in Used(words[i := v], size);
      }
      WordMask();
      SameBitsSameWord(v, words[i], WORD_BITS);
    } else {
      assert words[i := words[i]] == words;
    }
  }

  // ---------------------------------------------------------------- the allocator

  /** The words a frame number of a 32-bit address can select. */
  const REACHABLE_WORDS := 32768

  class PageAllocator {
    const bitmap: array<Word>  // the memory from address 0x100000 on, as far as it can be reached
    var bitmapSize: nat
    ghost var world: World  // the set the bitmap stands for

    ghost predicate Valid()
      reads this, bitmap
    {
      && bitmap.Length == REACHABLE_WORDS && bitmapSize <= REACHABLE_WORDS
      && world.limit == WORD_BITS * bitmapSize
      && world.used == Used(bitmap[..], bitmapSize)
    }

    constructor (memory: array<Word>)
      requires memory.Length == REACHABLE_WORDS
      ensures bitmap == memory && bitmapSize == 0 && Valid()
    {
      bitmap := memory;
      bitmapSize := 0;
      world := World(0, {}, {});
    }

    /** `pm_init`. The eight words of the first megabyte are written whatever the memory size. */
    method PmInit(memSize: nat)
      requires Valid() && memSize < U32_LIMIT
      modifies this, bitmap
      ensures Valid() && bitmapSize == BitmapSize(memSize)
      ensures Fresh(world, memSize)
    {
      var numPages := memSize / PAGE_SIZE;
      bitmapSize := (numPages + 31) / WORD_BITS;
      for i := 0 to bitmapSize
        invariant bitmapSize == BitmapSize(memSize)
        invariant forall k :: 0 <= k < i ==> bitmap[k] == 0
      {
        bitmap[i] := 0;
      }
      forall g: nat | g < WORD_BITS * bitmapSize
        ensures !FrameUsed(bitmap[..], g)
      {
        ZeroBits(g % WORD_BITS);
      }
      for i := 0 to RESERVED_FRAMES
        invariant bitmapSize == BitmapSize(memSize)
        invariant forall g: nat :: g < WORD_BITS * bitmapSize ==> (FrameUsed(bitmap[..], g) <==> g < i)
      {
        forall g: nat | g < WORD_BITS * bitmapSize
          ensures FrameUsed(SetFrame(bitmap[..], i), g) <==> g == i || FrameUsed(bitmap[..], g)
        {
          SetFrameUses(bitmap[..], i, g);
        }
        SetWord(i / WORD_BITS, i % WORD_BITS);
      }
      world := World(WORD_BITS * bitmapSize, Reserved(WORD_BITS * bitmapSize), {});
      assert Used(bitmap[..], bitmapSize) == Reserved(WORD_BITS * bitmapSize);
    }

    /** `pm_alloc_page`: the least unused frame, or null when every frame is in use. */
    method PmAllocPage() returns (addr: nat, ghost frame: nat)
      requires Valid()
      modifies `world, bitmap
      ensures Valid() && Step(old(world), Alloc, world)
      ensures addr < U32_LIMIT
      ensures frame < WORD_BITS * bitmapSize ==>
                && world == Grant(old(world), frame) && frame !in old(world).used
                && addr == frame * PAGE_SIZE
                && bitmap[..] == SetFrame(old(bitmap[..]), frame)
      ensures frame >= WORD_BITS * bitmapSize ==>
                && world == old(world) && FramesBelow(world.limit) <= world.used
                && addr == 0
                && bitmap[..] == old(bitmap[..])
    {
      ghost var words := bitmap[..];
      for i := 0 to bitmapSize
        invariant bitmap[..] == words && world == old(world)
        invariant forall g: nat :: g < WORD_BITS * i ==> FrameUsed(words, g)
      {
        FullWordFrames(words, i);
        if bitmap[i] != 0xFFFF_FFFF {
          for j := 0 to WORD_BITS
            invariant bitmap[..] == words && world == old(world)
            invariant forall g: nat :: g < WORD_BITS * i + j ==> FrameUsed(words, g)
          {
            BitTest(bitmap[i], j);
            frame := WORD_BITS * i + j;
            assert FrameUsed(words, frame) == Bit(words[i], j);
            if And(bitmap[i], Mask(j)) == 0 {
              addr := TakeFrame(i, j);
              return;
            }
          }
        }
      }
      FullBitmap(words, bitmapSize);
      addr, frame := 0, WORD_BITS * bitmapSize;
    }

    /** The step of the set when its least missing frame is found. */
    lemma LeastIsGranted(words: seq<Word>, frame: nat)
      requires Valid() && words == bitmap[..] && LeastUnused(words, bitmapSize, frame)
      ensures Step(world, Alloc, Grant(world, frame)) && frame !in world.used
      ensures Grant(world, frame).used == Used(SetFrame(words, frame), bitmapSize)
    {
      BitmapRefinesSet(words, bitmapSize, frame);
      assert Below(frame, world.limit) && frame in FramesBelow(world.limit);
    }

    /** Sets the bit found and computes the address of its frame. */
    method TakeFrame(i: nat, j: nat) returns (addr: nat)
      requires Valid() && j < WORD_BITS
      requires LeastUnused(bitmap[..], bitmapSize, WORD_BITS * i + j)
      modifies `world, bitmap
      ensures Valid() && Step(old(world), Alloc, world)
      ensures world == Grant(old(world), WORD_BITS * i + j) && WORD_BITS * i + j !in old(world).used
      ensures addr == (WORD_BITS * i + j) * PAGE_SIZE < U32_LIMIT
      ensures bitmap[..] == SetFrame(old(bitmap[..]), WORD_BITS * i + j)
    {
      LeastIsGranted(bitmap[..], WORD_BITS * i + j);
      SetWord(i, j);
      world := Grant(world, WORD_BITS * i + j);
      addr := (i * WORD_BITS + j) * PAGE_SIZE % U32_LIMIT;
    }

    /** `bitmap[index] |= 1 << offset`. */
    method SetWord(index: nat, offset: nat)
      requires index < bitmap.Length && offset < WORD_BITS
      modifies bitmap
      ensures bitmap[..] == SetFrame(old(bitmap[..]), WORD_BITS * index + offset)
    {
      WordStaysWord(bitmap[index], offset);
      bitmap[index] := Or(bitmap[index], Mask(offset));
    }

    /** `pm_free_page` of any address, held or not; one without a bit clears a word behind the bitmap. */
    method PmFreePage(addr: nat)
      requires Valid() && addr < U32_LIMIT
      modifies `world, bitmap
      ensures Valid() && Step(old(world), Free(addr / PAGE_SIZE), world)
      ensures bitmap[..] == ClearFrame(old(bitmap[..]), addr / PAGE_SIZE)
    {
      var frame := addr / PAGE_SIZE;
      var index, offset := frame / WORD_BITS, frame % WORD_BITS;
      UsedAfter(bitmap[..], bitmapSize, frame);
      WordStaysWord(bitmap[index], offset);
      bitmap[index] := AndNot(bitmap[index], Mask(offset));
      world := world.(used := world.used - {frame}, held := world.held - {frame});
    }
  }
}
