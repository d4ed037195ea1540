/** The page allocator as a set of frames in use, and its runs. */
module PageRuns {
  import opened Words
  import HeapSpec

  const PAGE_SIZE := 4096
  const RESERVED_FRAMES := 256
  const BITMAP_START := 0x10_0000

  predicate Below(f: int, n: int) {
    0 <= f < n
  }

  function FramesBelow(n: nat): set<int> {
    set f | 0 <= f < n && Below(f, n)
  }

  /** The words of the bitmap. Their digits can outnumber the pages. */
  function BitmapSize(memSize: nat): nat {
    (memSize / PAGE_SIZE + 31) / WORD_BITS
  }

  function PageCount(memSize: nat): nat {
    memSize / PAGE_SIZE
  }

  datatype Op = Alloc | Free(frame: int)

  /** `limit` frames have a bit; `held` are the pages handed out and not freed since. */
  datatype World = World(limit: nat, used: set<int>, held: set<int>)

  /** How many frames of the first megabyte have a bit. */
  function ReservedCount(limit: nat): nat {
    if limit < RESERVED_FRAMES then limit else RESERVED_FRAMES
  }

  function Reserved(limit: nat): set<int> {
    FramesBelow(ReservedCount(limit))
  }

  /** What `pm_init` leaves. */
  ghost predicate Fresh(w: World, memSize: nat) {
    w == World(WORD_BITS * BitmapSize(memSize), Reserved(WORD_BITS * BitmapSize(memSize)), {})
  }

  ghost predicate LeastMissing(used: set<int>, limit: nat, f: int) {
    && 0 <= f < limit
    && f !in used
    && forall g :: 0 <= g < f ==> g in used
  }

  function Grant(w: World, f: int): World {
    w.(used := w.used + {f}, held := w.held + {f})
  }

  /** `pm_alloc_page` takes the least frame not in use, if there is one. `pm_free_page` marks a frame
      as not in use, whichever it is. */
  ghost predicate Step(w: World, op: Op, w': World) {
    match op
    case Alloc =>
      if FramesBelow(w.limit) <= w.used then w' == w
      else exists f :: LeastMissing(w.used, w.limit, f) && w' == Grant(w, f)
    case Free(f) => w' == w.(used := w.used - {f}, held := w.held - {f})
  }

  // ---------------------------------------------------------------- what every step keeps

  /** Used frames are those of the first megabyte and the pages held, none of which is in it. */
  ghost predicate Sound(w: World) {
    && w.used == Reserved(w.limit) + w.held
    && Reserved(w.limit) !! w.held
    && w.used <= FramesBelow(w.limit)
  }

  lemma ReservedHaveBits(limit: nat)
    ensures Reserved(limit) <= FramesBelow(limit)
  {
    assert forall f :: Below(f, ReservedCount(limit)) ==> Below(f, limit);
  }

  lemma FreshIsSound(w: World, memSize: nat)
    requires Fresh(w, memSize)
    ensures Sound(w)
  {
    ReservedHaveBits(w.limit);
  }

  /** The call is an allocation, or frees a frame outside the first megabyte. */
  predicate SparesReserved(limit: nat, op: Op) {
    op.Free? ==> op.frame !in Reserved(limit)
  }

  lemma StepKeepsSoundIff(w: World, op: Op, w': World)
    requires Sound(w) && Step(w, op, w')
    ensures w'.limit == w.limit
    ensures Sound(w') <==> SparesReserved(w.limit, op)
  {
    if op == Alloc && !(FramesBelow(w.limit) <= w.used) {
      var f :| LeastMissing(w.used, w.limit, f) && w' == Grant(w, f);
      assert Below(f, w.limit);
    }
  }

  ghost predicate Run(ws: seq<World>, ops: seq<Op>) {
    && |ws| == |ops| + 1
    && forall i :: 0 <= i < |ops| ==> Step(ws[i], ops[i], ws[i + 1])
  }

  ghost predicate AllSpareReserved(limit: nat, ops: seq<Op>) {
    forall i :: 0 <= i < |ops| ==> SparesReserved(limit, ops[i])
  }

  lemma NextBelow(n: nat)
    ensures FramesBelow(n + 1) == FramesBelow(n) + {n as int}
  {
    assert forall f :: Below(f, n + 1) <==> Below(f, n) || f == n;
    assert n in FramesBelow(n + 1) by {
      assert Below(n, n + 1);
    }
  }

  lemma {:induction false} CountBelow(n: nat)
    ensures |FramesBelow(n)| == n
  {
    if n > 0 {
      CountBelow(n - 1);
      NextBelow(n - 1);
      assert !Below(n - 1, n - 1);
    } else {
      assert FramesBelow(0) == {};
    }
  }

  lemma SoundCounts(w: World)
    requires Sound(w)
    ensures |w.used| == ReservedCount(w.limit) + |w.held|
  {
    CountBelow(ReservedCount(w.limit));
  }

  /** Every run that frees no frame of the first megabyte, whatever else it frees, and for every memory
      size: the frames in use are those of the first megabyte and the pages held, and number as many. */
  lemma {:induction false} EveryRunIsSound(ws: seq<World>, ops: seq<Op>, n: nat)
    requires Run(ws, ops) && Sound(ws[0]) && AllSpareReserved(ws[0].limit, ops) && n <= |ops|
    ensures Sound(ws[n]) && ws[n].limit == ws[0].limit
    ensures |ws[n].used| == ReservedCount(ws[0].limit) + |ws[n].held|
  {
    if n > 0 {
      EveryRunIsSound(ws, ops, n - 1);
      assert SparesReserved(ws[0].limit, ops[n - 1]);
      StepKeepsSoundIff(ws[n - 1], ops[n - 1], ws[n]);
    }
    SoundCounts(ws[n]);
  }

  /** No run is sound all the time if it frees a frame of the first megabyte. */
  lemma EveryRunIsSoundIff(ws: seq<World>, ops: seq<Op>)
    requires Run(ws, ops) && Sound(ws[0])
    ensures (forall n :: 0 <= n < |ws| ==> Sound(ws[n])) <==> AllSpareReserved(ws[0].limit, ops)
  {
    if AllSpareReserved(ws[0].limit, ops) {
      forall n | 0 <= n < |ws|
        ensures Sound(ws[n])
      {
        EveryRunIsSound(ws, ops, n);
      }
    }
    if forall n :: 0 <= n < |ws| ==> Sound(ws[n]) {
      forall i | 0 <= i < |ops|
        ensures SparesReserved(ws[0].limit, ops[i])
      {
        LimitStays(ws, ops, i);
        assert Sound(ws[i + 1]);
        StepKeepsSoundIff(ws[i], ops[i], ws[i + 1]);
      }
    }
  }

  lemma {:induction false} LimitStays(ws: seq<World>, ops: seq<Op>, n: nat)
    requires Run(ws, ops) && n <= |ops|
    ensures ws[n].limit == ws[0].limit
  {
    if n > 0 {
      LimitStays(ws, ops, n - 1);
      assert Step(ws[n - 1], ops[n - 1], ws[n]);
    }
  }

  // ---------------------------------------------------------------- allocations

  /** An allocation fails exactly when the pages held fill the bitmap; any other one hands out a
      page nobody holds, outside the first megabyte. */
  lemma AllocIsFreshAndComplete(w: World, w': World)
    requires Sound(w) && Step(w, Alloc, w')
    ensures w' == w <==> |w.held| == w.limit - ReservedCount(w.limit)
    ensures w' != w ==> exists f :: w' == Grant(w, f) && f !in w.held && RESERVED_FRAMES <= f < w.limit
  {
    SoundCounts(w);
    CountBelow(w.limit);
    if FramesBelow(w.limit) <= w.used {
      assert w.used == FramesBelow(w.limit);
    } else {
      var f :| LeastMissing(w.used, w.limit, f) && w' == Grant(w, f);
      assert f in w'.held;
      assert Below(f, w.limit);
      assert f < ReservedCount(w.limit) ==> Below(f, ReservedCount(w.limit));
      SubsetIsNoLarger(w.used + {f}, FramesBelow(w.limit));
    }
  }

  lemma {:induction false} SubsetIsNoLarger<T>(s: set<T>, t: set<T>)
    requires s <= t
    ensures |s| <= |t|
  {
    if s != {} {
      var x :| x in s;
      SubsetIsNoLarger(s - {x}, t - {x});
    }
  }

  ghost predicate OnlyAllocs(ops: seq<Op>) {
    forall i :: 0 <= i < |ops| ==> ops[i] == Alloc
  }

  /** From a fresh bitmap the n-th allocation hands out frame 255 + n. */
  lemma {:induction false} AllocationsCountUp(ws: seq<World>, ops: seq<Op>, memSize: nat, n: nat)
    requires Run(ws, ops) && Fresh(ws[0], memSize) && OnlyAllocs(ops)
    requires n <= |ops| && RESERVED_FRAMES + n <= ws[0].limit
    ensures ws[n].limit == ws[0].limit && ws[n].used == FramesBelow(RESERVED_FRAMES + n)
    ensures n > 0 ==> ws[n] == Grant(ws[n - 1], RESERVED_FRAMES + n - 1)
  {
    if n > 0 {
      AllocationsCountUp(ws, ops, memSize, n - 1);
      var w, next := ws[n - 1], RESERVED_FRAMES + n - 1;
      assert Step(w, Alloc, ws[n]);
      assert Below(next, w.limit) && !Below(next, next);
      assert next in FramesBelow(w.limit) && next !in w.used;
      var f :| LeastMissing(w.used, w.limit, f) && ws[n] == Grant(w, f);
      assert f < next ==> Below(f, next);
      assert f == next;
      NextBelow(next);
    }
  }

  // ---------------------------------------------------------------- pages that do not exist

  /** A frame handed out is one of the memory's exactly if some frame of the memory was not in use:
      the bits behind the last page are taken only when all others are. */
  lemma GrantedPageExistsIff(w: World, w': World, f: int, memSize: nat)
    requires w.limit == WORD_BITS * BitmapSize(memSize)
    requires Step(w, Alloc, w') && !(FramesBelow(w.limit) <= w.used) && w' == Grant(w, f) && f !in w.used
    ensures f < PageCount(memSize) <==> !(FramesBelow(PageCount(memSize)) <= w.used)
  {
    var g :| LeastMissing(w.used, w.limit, g) && w' == Grant(w, g);
    assert g in w'.used && f in w'.used;
    assert f == g;
    if f < PageCount(memSize) {
      assert Below(f, PageCount(memSize));
    }
  }

  /** Every page held after any run is a page of the memory. */
  ghost predicate NoPageBeyond(memSize: nat) {
    forall ws: seq<World>, ops :: Run(ws, ops) && Fresh(ws[0], memSize) && AllSpareReserved(ws[0].limit, ops) ==>
                        HoldsOnly(ws[|ops|], PageCount(memSize))
  }

  ghost predicate HoldsOnly(w: World, n: nat) {
    forall f :: f in w.held ==> 0 <= f < n
  }

  /** The world after i allocations of a run that only allocates. */
  function Filled(limit: nat, i: nat): World
    requires RESERVED_FRAMES + i <= limit
  {
    World(limit, FramesBelow(RESERVED_FRAMES + i), FramesBelow(RESERVED_FRAMES + i) - FramesBelow(RESERVED_FRAMES))
  }

  lemma FillStep(limit: nat, i: nat)
    requires RESERVED_FRAMES + i + 1 <= limit
    ensures Step(Filled(limit, i), Alloc, Filled(limit, i + 1))
  {
    var w, next := Filled(limit, i), RESERVED_FRAMES + i;
    NextBelow(next);
    assert Below(next, limit) && !Below(next, next) && !Below(next, RESERVED_FRAMES);
    assert next in FramesBelow(limit) && next !in w.used;
    assert forall g :: 0 <= g < next ==> Below(g, next);
    assert LeastMissing(w.used, limit, next);
    assert Filled(limit, i + 1).held == w.held + {next};
    assert Filled(limit, i + 1) == Grant(w, next);
  }

  /** The run of n allocations on a fresh bitmap. */
  lemma FillingRun(memSize: nat, n: nat) returns (ws: seq<World>, ops: seq<Op>)
    requires RESERVED_FRAMES + n <= WORD_BITS * BitmapSize(memSize)
    ensures Run(ws, ops) && Fresh(ws[0], memSize) && OnlyAllocs(ops)
    ensures |ops| == n && ws[n] == Filled(WORD_BITS * BitmapSize(memSize), n)
  {
    var limit := WORD_BITS * BitmapSize(memSize);
    ws := seq(n + 1, i requires 0 <= i < n + 1 => Filled(limit, i));
    ops := seq(n, _ => Alloc);
    forall i | 0 <= i < n
      ensures Step(ws[i], ops[i], ws[i + 1])
    {
      FillStep(limit, i);
    }
    assert FramesBelow(RESERVED_FRAMES) - FramesBelow(RESERVED_FRAMES) == {};
  }

  lemma SoundHoldsOnly(w: World)
    requires Sound(w)
    ensures HoldsOnly(w, w.limit)
    ensures w.limit <= RESERVED_FRAMES ==> w.held == {}
  {
    forall f | f in w.held
      ensures 0 <= f < w.limit
      ensures w.limit <= RESERVED_FRAMES ==> f in Reserved(w.limit)
    {
      assert f in FramesBelow(w.limit) && Below(f, w.limit);
    }
  }

  /** Over all runs from `pm_init` that leave the first megabyte alone, only pages that exist are ever
      held, if and only if the number of pages is a multiple of 32 or there is none behind the first
      megabyte. */
  lemma EveryPageExistsIff(memSize: nat)
    ensures NoPageBeyond(memSize)
            <==> PageCount(memSize) % WORD_BITS == 0 || PageCount(memSize) < RESERVED_FRAMES
  {
    var pages, limit := PageCount(memSize), WORD_BITS * BitmapSize(memSize);
    if pages % WORD_BITS == 0 || pages < RESERVED_FRAMES {
      assert limit == pages || limit <= RESERVED_FRAMES;
      forall ws: seq<World>, ops | Run(ws, ops) && Fresh(ws[0], memSize) && AllSpareReserved(ws[0].limit, ops)
        ensures HoldsOnly(ws[|ops|], pages)
      {
        FreshIsSound(ws[0], memSize);
        EveryRunIsSound(ws, ops, |ops|);
        SoundHoldsOnly(ws[|ops|]);
      }
    } else {
      FillingHoldsBeyond(memSize);
    }
  }

  /** Filling the bitmap hands out the frame of its last bit. */
  lemma FillingHoldsBeyond(memSize: nat)
    requires PageCount(memSize) % WORD_BITS != 0 && PageCount(memSize) >= RESERVED_FRAMES
    ensures !NoPageBeyond(memSize)
  {
    var limit := WORD_BITS * BitmapSize(memSize);
    var ws, ops := FillingRun(memSize, limit - RESERVED_FRAMES);
    assert Below(limit - 1, limit) && !Below(limit - 1, RESERVED_FRAMES);
    assert limit - 1 in ws[|ops|].held;
    assert !HoldsOnly(ws[|ops|], PageCount(memSize));
  }

  /** The smallest such memory: of its 257 pages the first allocation hands out the last, and the
      second one hands out a page that does not exist. */
  lemma PageBeyondTheMemory()
    ensures exists ws: seq<World>, ops :: && Run(ws, ops) && Fresh(ws[0], 257 * PAGE_SIZE) && ops == [Alloc, Alloc]
                              && ws[2].held == {256, 257}
  {
    var ws, ops := FillingRun(257 * PAGE_SIZE, 2);
    NextBelow(256);
    NextBelow(257);
    assert !Below(256, 256) && !Below(257, 256);
    assert ops == [Alloc, Alloc];
  }

  // ---------------------------------------------------------------- the pages the bitmap lies in

  /** The byte at address `x` belongs to page `f`, and to the bitmap. */
  predicate InPage(f: int, x: int) {
    f * PAGE_SIZE <= x < (f + 1) * PAGE_SIZE
  }

  predicate InBitmap(size: nat, x: int) {
    BITMAP_START <= x < BITMAP_START + 4 * size
  }

  ghost predicate OverlapsBitmap(f: int, size: nat) {
    exists x :: InPage(f, x) && InBitmap(size, x)
  }

  /** Which pages share bytes with a bitmap of `size` words: its own, which begin with frame 256. */
  lemma OverlapsBitmapIff(f: int, size: nat)
    ensures OverlapsBitmap(f, size) <==> RESERVED_FRAMES <= f && f * PAGE_SIZE < BITMAP_START + 4 * size
  {
    if RESERVED_FRAMES <= f && f * PAGE_SIZE < BITMAP_START + 4 * size {
      assert InPage(f, f * PAGE_SIZE) && InBitmap(size, f * PAGE_SIZE);
    }
  }

  /** None of them is reserved: the first page `pm_alloc_page` ever hands out holds the bitmap. */
  lemma FirstPageHoldsBitmap(ws: seq<World>, ops: seq<Op>, memSize: nat)
    requires Run(ws, ops) && Fresh(ws[0], memSize) && RESERVED_FRAMES < ws[0].limit
    requires ops != [] && ops[0] == Alloc
    ensures ws[1] == Grant(ws[0], 256) && OverlapsBitmap(256, BitmapSize(memSize))
  {
    assert Run(ws[..2], ops[..1]);
    AllocationsCountUp(ws[..2], ops[..1], memSize, 1);
    OverlapsBitmapIff(256, BitmapSize(memSize));
  }

  // ---------------------------------------------------------------- the pages the heap lies in

  predicate InHeap(x: int) {
    HeapSpec.HEAP_START <= x < HeapSpec.HEAP_END
  }

  ghost predicate OverlapsHeap(f: int) {
    exists x :: InPage(f, x) && InHeap(x)
  }

  /** Which pages share bytes with the heap that `kmalloc` manages: the 256 from frame 512 on. */
  lemma OverlapsHeapIff(f: int)
    ensures OverlapsHeap(f) <==> 512 <= f < 768
  {
    if 512 <= f < 768 {
      assert InPage(f, f * PAGE_SIZE) && InHeap(f * PAGE_SIZE);
    }
  }

  /** None of them is reserved either: on every memory that has them, allocations 257 to 512 from
      `pm_init` on hand out the heap, page by page. */
  lemma HeapIsHandedOut(ws: seq<World>, ops: seq<Op>, memSize: nat, n: nat)
    requires Run(ws, ops) && Fresh(ws[0], memSize) && OnlyAllocs(ops)
    requires 257 <= n <= 512 && n <= |ops| && RESERVED_FRAMES + n <= ws[0].limit
    ensures ws[n] == Grant(ws[n - 1], RESERVED_FRAMES + n - 1) && OverlapsHeap(RESERVED_FRAMES + n - 1)
  {
    AllocationsCountUp(ws, ops, memSize, n);
    OverlapsHeapIff(RESERVED_FRAMES + n - 1);
  }

  /** With the 128 MB the kernel announces there is such a run. */
  lemma HeapPageOfThisKernel()
    ensures exists ws: seq<World>, ops :: && Run(ws, ops) && Fresh(ws[0], 128 * 1024 * 1024)
                                          && |ops| == 257 && OnlyAllocs(ops)
                                          && 512 in ws[257].held && OverlapsHeap(512)
  {
    var ws, ops := FillingRun(128 * 1024 * 1024, 257);
    OverlapsHeapIff(512);
    assert Below(512, 513) && !Below(512, RESERVED_FRAMES);
  }
}
