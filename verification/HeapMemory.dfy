/** The heap as its clients use it: calls, and stores into the memory they hold in between. */
module HeapMemory {
  import opened Basics
  import opened HeapSpec
  import opened HeapRuns

  newtype byte = x: int | 0 <= x < 256

  datatype Action = Call(op: Op) | Store(x: int, v: byte)

  /** `stored` are the bytes whose value somebody relies on: all of them belong to a held pointer. */
  datatype Memory = Memory(world: World, stored: map<int, byte>)

  /** The byte at `x` is one of those asked for with the held pointer `p`. */
  predicate OwnedBy(w: World, p: int, x: int) {
    p in w.held && p <= x < p + w.held[p]
  }

  ghost predicate Owned(w: World, x: int) {
    exists p :: OwnedBy(w, p, x)
  }

  ghost predicate Relies(mem: Memory) {
    WorldSafe(mem.world) && forall x :: x in mem.stored ==> Owned(mem.world, x)
  }

  /** A call that returns and grants no wrapping size, or a store into memory that is held. */
  ghost predicate Allowed(w: World, a: Action) {
    match a
    case Call(op) => Enabled(w, op) && Covered(w, op)
    case Store(x, _) => Owned(w, x)
  }

  ghost function WorldAfter(w: World, a: Action): World
    requires Allowed(w, a)
  {
    if a.Call? then Next(w, a.op) else w
  }

  /** A store is remembered until the pointer that owns the byte is freed. */
  ghost function Act(mem: Memory, a: Action): Memory
    requires Allowed(mem.world, a)
  {
    Memory(WorldAfter(mem.world, a),
           match a
           case Store(x, v) => mem.stored[x := v]
           case Call(Alloc(_)) => mem.stored
           case Call(Free(ptr)) => map x | x in mem.stored && !OwnedBy(mem.world, ptr, x) :: mem.stored[x])
  }

  ghost predicate Acts(w: World, actions: seq<Action>)
    decreases |actions|
  {
    actions == [] || (Allowed(w, actions[0]) && Acts(WorldAfter(w, actions[0]), actions[1..]))
  }

  ghost function AfterActs(mem: Memory, actions: seq<Action>): Memory
    requires Acts(mem.world, actions)
    decreases |actions|
  {
    if actions == [] then mem else AfterActs(Act(mem, actions[0]), actions[1..])
  }

  /** Whoever holds a byte is the only one, and the byte is no business of the allocator's. */
  lemma OwnerIsAlone(w: World, p: int, q: int, x: int)
    requires WorldSafe(w) && OwnedBy(w, p, x) && OwnedBy(w, q, x)
    ensures p == q
  {
    if p < q {
      HeldPayloadsAreDisjoint(w, p, q);
    } else if q < p {
      HeldPayloadsAreDisjoint(w, q, p);
    }
  }

  lemma OwnedIsUsed(w: World, p: int, x: int)
    requires WorldSafe(w) && OwnedBy(w, p, x)
    ensures var a := p - HEADER;
            a in w.heap.blocks && !At(w.heap.blocks, a).free && a + HEADER <= x < a + At(w.heap.blocks, a).size
    ensures HEAP_START <= x < HEAP_END
  {
    var block := At(w.heap.blocks, p - HEADER);
    assert HeldAt(w, p - HEADER);
  }

  lemma AllocGrantsFree(h: Heap, size: nat)
    requires Safe(h) && size < U32_LIMIT && (size == 0 || Returns(h, WrappedTotal(size)))
    ensures var p := Malloc(h, size).1;
            p != 0 ==> p - HEADER in h.blocks && At(h.blocks, p - HEADER).free
  {
  }

  /** A byte stays with its owner until the owner frees it. */
  lemma OwnerStays(w: World, a: Action, p: int, x: int)
    requires WorldSafe(w) && Allowed(w, a) && OwnedBy(w, p, x) && a != Call(Free(p))
    ensures OwnedBy(WorldAfter(w, a), p, x)
  {
    OwnedIsUsed(w, p, x);
    if a.Call? && a.op.Alloc? {
      AllocGrantsFree(w.heap, a.op.size);
    }
  }

  lemma ActKeepsRelies(mem: Memory, a: Action)
    requires Relies(mem) && Allowed(mem.world, a)
    ensures Relies(Act(mem, a))
  {
    var w, mem' := mem.world, Act(mem, a);
    if a.Call? {
      StepKeepsSafeIff(w, a.op);
    }
    forall x | x in mem'.stored
      ensures Owned(mem'.world, x)
    {
      assert Owned(w, x);
      var p :| OwnedBy(w, p, x);
      OwnerStays(w, a, p, x);
    }
  }

  function Calls(actions: seq<Action>): seq<Op> {
    if actions == [] then []
    else (if actions[0].Call? then [actions[0].op] else []) + Calls(actions[1..])
  }

  /** Stores make no difference to the allocator: the world goes through the run of the calls alone. */
  lemma {:induction false} ActsAreRuns(mem: Memory, actions: seq<Action>)
    requires Acts(mem.world, actions)
    ensures var ops := Calls(actions);
            Runs(mem.world, ops) && AllCovered(mem.world, ops) && AfterActs(mem, actions).world == After(mem.world, ops)
    decreases |actions|
  {
    if actions != [] {
      ActsAreRuns(Act(mem, actions[0]), actions[1..]);
      assert Calls(actions)[if actions[0].Call? then 1 else 0..] == Calls(actions[1..]);
    }
  }

  /** The value last stored at `x`, if there was one, and `v` if there was none. */
  function LastStored(actions: seq<Action>, x: int, v: byte): byte {
    if actions == [] then v
    else LastStored(actions[1..], x, if actions[0].Store? && actions[0].x == x then actions[0].v else v)
  }

  /** What a client can rely on: a byte of memory that it holds throughout a run has the value last
      stored there, whatever the others call or store. */
  lemma {:induction false} LastStoreCounts(mem: Memory, actions: seq<Action>, p: int, x: int)
    requires Relies(mem) && Acts(mem.world, actions)
    requires OwnedBy(mem.world, p, x) && x in mem.stored && Call(Free(p)) !in actions
    ensures var mem' := AfterActs(mem, actions);
            && OwnedBy(mem'.world, p, x)
            && x in mem'.stored && mem'.stored[x] == LastStored(actions, x, mem.stored[x])
    decreases |actions|
  {
    if actions != [] {
      var a := actions[0];
      assert a in actions;
      if a.Call? && a.op.Free? && OwnedBy(mem.world, a.op.ptr, x) {
        OwnerIsAlone(mem.world, p, a.op.ptr, x);
      }
      OwnerStays(mem.world, a, p, x);
      ActKeepsRelies(mem, a);
      LastStoreCounts(Act(mem, a), actions[1..], p, x);
    }
  }
}
