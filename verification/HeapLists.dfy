/** The free list: when it stays a finite list, what a search finds in it, and what is lost when a
    block that is still linked is freed. */
module HeapLists {
  import opened HeapSpec

  // ---------------------------------------------------------------- finite lists

  /** `xs` is the whole list, from the head to the null that ends it. */
  ghost predicate IsList(h: Heap, xs: seq<int>) {
    && h.head == (if xs == [] then 0 else xs[0])
    && (forall i :: 0 <= i < |xs| ==> xs[i] in h.blocks)
    && (forall i :: 0 <= i < |xs| ==> LinksOn(h, xs, i))
  }

  /** Element `i` points at its follower, the last one at null. */
  ghost predicate LinksOn(h: Heap, xs: seq<int>, i: int)
    requires 0 <= i < |xs| && xs[i] in h.blocks
  {
    At(h.blocks, xs[i]).next == if i + 1 < |xs| then xs[i + 1] else 0
  }

  lemma {:induction false} NodeOfList(h: Heap, xs: seq<int>, k: nat)
    requires IsList(h, xs) && 0 !in h.blocks
    ensures Node(h, k) == if k < |xs| then xs[k] else 0
  {
    if k > 0 {
      NodeOfList(h, xs, k - 1);
      assert k - 1 < |xs| ==> LinksOn(h, xs, k - 1);
    }
  }

  /** An acyclic walk is a finite list without repetitions. */
  lemma {:induction false} ListOfAcyclic(h: Heap, k: nat) returns (xs: seq<int>)
    requires Safe(h)
    requires Node(h, k) == 0 && forall j: nat :: j < k ==> Node(h, j) != 0
    ensures IsList(h, xs) && |xs| == k
  {
    xs := seq(k, i requires 0 <= i < k => Node(h, i));
    forall i | 0 <= i < k
      ensures xs[i] in h.blocks && LinksOn(h, xs, i)
    {
      NodeInBlocks(h, i);
    }
  }

  lemma LeastNull(h: Heap, k: nat) returns (least: nat)
    requires Node(h, k) == 0
    ensures Node(h, least) == 0 && forall j: nat :: j < least ==> Node(h, j) != 0
  {
    least := 0;
    while Node(h, least) != 0
      invariant forall j: nat :: j < least ==> Node(h, j) != 0
      invariant least <= k
      decreases k - least
    {
      least := least + 1;
    }
  }

  lemma AcyclicIffList(h: Heap)
    requires Safe(h)
    ensures Acyclic(h) <==> exists xs :: IsList(h, xs)
  {
    NullIsNoBlock(h.blocks);
    if Acyclic(h) {
      var k: nat :| Node(h, k) == 0;
      var least := LeastNull(h, k);
      var xs := ListOfAcyclic(h, least);
    }
    if xs :| IsList(h, xs) {
      NodeOfList(h, xs, |xs|);
    }
  }

  lemma {:induction false} SuffixesAgree(h: Heap, xs: seq<int>, i: int, j: int, n: nat)
    requires IsList(h, xs)
    requires 0 <= i < j && j + n < |xs| && xs[i] == xs[j]
    ensures xs[i + n] == xs[j + n]
  {
    if n > 0 {
      SuffixesAgree(h, xs, i, j, n - 1);
      assert LinksOn(h, xs, i + n - 1) && LinksOn(h, xs, j + n - 1);
    }
  }

  lemma ListHasNoDuplicates(h: Heap, xs: seq<int>)
    requires IsList(h, xs) && 0 !in h.blocks
    ensures forall i, j :: 0 <= i < j < |xs| ==> xs[i] != xs[j]
  {
    forall i, j | 0 <= i < j < |xs|
      ensures xs[i] != xs[j]
    {
      var n := |xs| - 1 - j;
      assert LinksOn(h, xs, i + n) && LinksOn(h, xs, j + n);
      if xs[i] == xs[j] {
        SuffixesAgree(h, xs, i, j, n);
        assert false;
      }
    }
  }

  lemma LinkedIffListed(h: Heap, xs: seq<int>, a: int)
    requires IsList(h, xs) && 0 !in h.blocks
    ensures Linked(h, a) <==> a in xs
  {
    if Linked(h, a) {
      var k: nat :| Node(h, k) == a;
      NodeOfList(h, xs, k);
    }
    if a in xs {
      var k: nat :| k < |xs| && xs[k] == a;
      NodeOfList(h, xs, k);
    }
  }

  // ---------------------------------------------------------------- searching

  /** When a search comes back: the list ends, or some block on the walk fits. */
  lemma ReturnsIff(h: Heap, total: int)
    requires Safe(h)
    ensures Returns(h, total) <==> Acyclic(h) || exists a :: Linked(h, a) && Fits(At(h.blocks, a), total)
  {
    NullIsNoBlock(h.blocks);
    if Returns(h, total) {
      var k: nat :| Stops(h, total, k);
      NodeInBlocks(h, k);
      if Node(h, k) in h.blocks {
        assert Linked(h, Node(h, k));
      }
    }
    if Acyclic(h) {
      var k: nat :| Node(h, k) == 0;
      assert Stops(h, total, k);
    }
    if a :| Linked(h, a) && Fits(At(h.blocks, a), total) {
      var k: nat :| Node(h, k) == a;
      assert Stops(h, total, k);
    }
  }

  /** First fit: the search of a finite list takes the first node that fits, in list order. */
  lemma SearchIsFirstFit(h: Heap, xs: seq<int>, total: int)
    requires IsList(h, xs) && 0 !in h.blocks
    ensures Returns(h, total)
    ensures var k := StopIndex(h, total);
            && k <= |xs|
            && (forall j :: 0 <= j < k ==> !Fits(At(h.blocks, xs[j]), total))
            && (k < |xs| ==> Node(h, k) == xs[k] && Fits(At(h.blocks, xs[k]), total))
            && (k == |xs| ==> Node(h, k) == 0)
  {
    NodeOfList(h, xs, |xs|);
    assert Stops(h, total, |xs|);
    var k := StopIndex(h, total);
    NodeOfList(h, xs, k);
    forall j | 0 <= j < k
      ensures !Fits(At(h.blocks, xs[j]), total)
    {
      NodeOfList(h, xs, j);
      assert !Stops(h, total, j);
    }
  }

  // ---------------------------------------------------------------- what each operation does to a list

  function InsertAfter(xs: seq<int>, k: nat, a: int): seq<int>
    requires k < |xs|
  {
    xs[..k + 1] + [a] + xs[k + 1..]
  }

  function RemoveAt(xs: seq<int>, k: nat): seq<int>
    requires k < |xs|
  {
    xs[..k] + xs[k + 1..]
  }

  function ListAfterTake(xs: seq<int>, k: nat, split: bool, total: int): seq<int>
    requires k < |xs|
  {
    if split then InsertAfter(xs, k, xs[k] + total) else RemoveAt(xs, k)
  }

  lemma SplitInList(h: Heap, xs: seq<int>, total: int, k: nat)
    requires IsList(h, xs) && 0 !in h.blocks
    requires k < |xs| && Stops(h, total, k) && Node(h, k) == xs[k]
    requires Splits(At(h.blocks, xs[k]), total) && xs[k] + total !in h.blocks
    ensures IsList(Take(h, total, k), InsertAfter(xs, k, xs[k] + total))
  {
    ListHasNoDuplicates(h, xs);
    var h', ys := Take(h, total, k), InsertAfter(xs, k, xs[k] + total);
    assert LinksOn(h, xs, k);
    forall i | 0 <= i < |ys|
      ensures ys[i] in h'.blocks && LinksOn(h', ys, i)
    {
      assert ys[i] == if i <= k then xs[i] else if i == k + 1 then xs[k] + total else xs[i - 1];
      if i != k + 1 {
        assert LinksOn(h, xs, if i <= k then i else i - 1);
      }
    }
  }

  lemma UnlinkFromList(h: Heap, xs: seq<int>, total: int, k: nat)
    requires IsList(h, xs) && 0 !in h.blocks
    requires k < |xs| && Stops(h, total, k) && Node(h, k) == xs[k]
    requires !Splits(At(h.blocks, xs[k]), total)
    ensures IsList(Take(h, total, k), RemoveAt(xs, k))
  {
    ListHasNoDuplicates(h, xs);
    var h', ys := Take(h, total, k), RemoveAt(xs, k);
    assert LinksOn(h, xs, k);
    if k > 0 {
      NodeOfList(h, xs, k - 1);
    }
    forall i | 0 <= i < |ys|
      ensures ys[i] in h'.blocks && LinksOn(h', ys, i)
    {
      assert ys[i] == if i < k then xs[i] else xs[i + 1];
      assert LinksOn(h, xs, if i < k then i else i + 1);
    }
  }

  /** Taking node `k` of a finite list leaves a finite list: with the remainder put in behind the
      node when it is split, without the node when it is taken whole. */
  lemma TakeFromList(h: Heap, xs: seq<int>, total: int, k: nat)
    requires Safe(h) && total > HEADER
    requires IsList(h, xs) && k < |xs| && Stops(h, total, k) && Node(h, k) == xs[k]
    ensures IsList(Take(h, total, k), ListAfterTake(xs, k, Splits(At(h.blocks, xs[k]), total), total))
  {
    NullIsNoBlock(h.blocks);
    if Splits(At(h.blocks, xs[k]), total) {
      SplitPointIsNew(h.blocks, xs[k], total);
      SplitInList(h, xs, total, k);
    } else {
      UnlinkFromList(h, xs, total, k);
    }
  }

  /** Freeing a block that is not linked puts it in front of a finite list. */
  lemma ReleaseUnlisted(h: Heap, xs: seq<int>, a: int)
    requires IsList(h, xs) && a in h.blocks && a !in xs
    ensures IsList(Release(h, a), [a] + xs)
  {
    var h', ys := Release(h, a), [a] + xs;
    forall i | 0 <= i < |ys|
      ensures LinksOn(h', ys, i)
    {
      if i > 0 {
        assert LinksOn(h, xs, i - 1);
      }
    }
  }

  /** Freeing a block that is still linked closes the list into a cycle: what can be reached from
      then on is exactly the part up to that block, and everything behind it is cut off. */
  lemma ReleaseListed(h: Heap, xs: seq<int>, i: nat)
    requires Safe(h) && IsList(h, xs) && i < |xs|
    ensures forall b :: Linked(Release(h, xs[i]), b) <==> b in xs[..i + 1]
    ensures !Acyclic(Release(h, xs[i]))
  {
    var h' := Release(h, xs[i]);
    var cut := xs[..i + 1];
    NullIsNoBlock(h.blocks);
    ListHasNoDuplicates(h, xs);
    CutListIsClosed(h, xs, i);
    forall k: nat
      ensures Node(h', k) in cut
    {
      CutWalkNeverEnds(h, xs, i, k);
    }
    forall b
      ensures Linked(h', b) <==> b in xs[..i + 1]
    {
      if b in xs[..i + 1] {
        var j: nat :| j <= i && xs[j] == b;
        CutWalkFollowsList(h, xs, i, j);
        assert b == Node(h', if j == i then 0 else j + 1);
      }
    }
  }

  lemma CutListIsClosed(h: Heap, xs: seq<int>, i: nat)
    requires IsList(h, xs) && i < |xs|
    requires forall i, j :: 0 <= i < j < |xs| ==> xs[i] != xs[j]
    ensures var m := Release(h, xs[i]).blocks;
            forall b {:trigger At(m, b)} :: b in xs[..i + 1] ==> At(m, b).next in xs[..i + 1]
  {
    var m := Release(h, xs[i]).blocks;
    forall b | b in xs[..i + 1]
      ensures At(m, b).next in xs[..i + 1]
    {
      var j :| 0 <= j <= i && xs[j] == b;
      if j < i {
        assert LinksOn(h, xs, j) && At(m, b).next == xs[j + 1] == xs[..i + 1][j + 1];
      } else {
        assert At(m, b).next == xs[0] == xs[..i + 1][0];
      }
    }
  }

  lemma {:induction false} CutWalkNeverEnds(h: Heap, xs: seq<int>, i: nat, k: nat)
    requires IsList(h, xs) && i < |xs|
    requires forall i, j :: 0 <= i < j < |xs| ==> xs[i] != xs[j]
    ensures Node(Release(h, xs[i]), k) in xs[..i + 1]
  {
    var h' := Release(h, xs[i]);
    if k == 0 {
      assert xs[..i + 1][i] == xs[i];
    } else {
      CutWalkNeverEnds(h, xs, i, k - 1);
      CutListIsClosed(h, xs, i);
      assert Node(h', k) == At(h'.blocks, Node(h', k - 1)).next;
    }
  }

  lemma {:induction false} CutWalkFollowsList(h: Heap, xs: seq<int>, i: nat, j: nat)
    requires IsList(h, xs) && j <= i < |xs|
    requires forall i, j :: 0 <= i < j < |xs| ==> xs[i] != xs[j]
    ensures Node(Release(h, xs[i]), j + 1) == xs[j]
  {
    var h' := Release(h, xs[i]);
    if j == 0 {
      assert Node(h', 1) == At(h'.blocks, Node(h', 0)).next;
    } else {
      CutWalkFollowsList(h, xs, i, j - 1);
      assert LinksOn(h, xs, j - 1);
      assert Node(h', j + 1) == At(h'.blocks, xs[j - 1]).next;
    }
  }
}
