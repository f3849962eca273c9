/**
 The free list in address order with neighbours merged: kept by taking and freeing, and so tight
 that freeing everything restores the heap.
 */
module HeapOrder {
  import opened Bytes
  import opened HeapSpec

  ghost predicate Sorted(free: seq<nat>) { forall i, j :: 0 <= i < j < |free| ==> free[i] < free[j] }

  ghost predicate AllIn(h: Heap) { forall k :: 0 <= k < |h.free| ==> h.free[k] in h.blocks }

  /** The `k`-th free block does not touch the next one in the list. */
  ghost predicate Loose(h: Heap, k: nat)
    requires AllIn(h)
  {
    k + 1 < |h.free| ==> End(h.blocks, h.free[k]) != h.free[k + 1]
  }

  /** Address order, and no two neighbours both free. */
  ghost predicate Ordered(h: Heap)
  {
    AllIn(h) && Sorted(h.free) && forall k: nat :: Loose(h, k)
  }

  // ----- sorted sequences -----

  lemma {:induction false} SortedRemove(s: seq<nat>, i: nat)
    requires Sorted(s) && i < |s|
    ensures Sorted(s[..i] + s[i + 1..])
  {
  }

  lemma {:induction false} SortedInsert(s: seq<nat>, a: nat)
    requires Sorted(s) && a !in s
    ensures var i := Place(s, a, 0); Sorted(s[..i] + [a] + s[i..])
  {
    var i := Place(s, a, 0);
    var t := s[..i] + [a] + s[i..];
    forall k, l | 0 <= k < l < |t|
      ensures t[k] < t[l]
    {
      if k == i {
        assert t[l] == s[l - 1] && s[l - 1] != a;
      }
    }
  }

  lemma {:induction false} SortedReplace(s: seq<nat>, i: nat, n: nat)
    requires Sorted(s) && i < |s| && s[i] <= n && (i + 1 < |s| ==> n < s[i + 1])
    ensures Sorted(s[i := n])
  {
    var t := s[i := n];
    forall k, l | 0 <= k < l < |t|
      ensures t[k] < t[l]
    {
      if k == i && l > i + 1 {
        assert s[i + 1] < s[l];
      }
    }
  }

  // ----- taking -----

  lemma {:induction false} TakeWhole(h: Heap, i: nat)
    requires Apart(h.blocks) && Ordered(h) && i < |h.free|
    ensures var a := h.free[i];
      Ordered(Heap(h.blocks[a := Block(h.blocks[a].size, true)], h.free[..i] + h.free[i + 1..]))
  {
    var a := h.free[i];
    var g := Heap(h.blocks[a := Block(h.blocks[a].size, true)], h.free[..i] + h.free[i + 1..]);
    SortedRemove(h.free, i);
    assert AllIn(g);
    forall k: nat
      ensures Loose(g, k)
    {
      if k + 1 < |g.free| {
        if k + 1 < i {
          assert Loose(h, k);
        } else if k >= i {
          assert Loose(h, k + 1);
        } else {
          assert g.free[k] == h.free[i - 1] && g.free[k + 1] == h.free[i + 1];
          assert h.free[i - 1] < h.free[i] < h.free[i + 1];
        }
      }
    }
  }

  lemma {:induction false} TakeSplit(h: Heap, i: nat, size: nat)
    requires Apart(h.blocks) && Ordered(h) && i < |h.free| && h.blocks[h.free[i]].size >= size + 40
    ensures Ordered(Heap(Split(h.blocks, h.free[i], size, true),
      h.free[..i] + [h.free[i] + 24 + size] + h.free[i + 1..]))
  {
    var a := h.free[i];
    var n := a + 24 + size;
    var g := Heap(Split(h.blocks, a, size, true), h.free[..i] + [n] + h.free[i + 1..]);
    assert g.free == h.free[i := n];
    assert i + 1 < |h.free| ==> h.free[i] < h.free[i + 1] && End(h.blocks, a) <= h.free[i + 1];
    SortedReplace(h.free, i, n);
    assert AllIn(g);
    forall k: nat
      ensures Loose(g, k)
    {
      if k + 1 < |g.free| {
        assert Loose(h, k) && h.free[k] < h.free[k + 1];
        if k + 1 == i {
          assert End(h.blocks, h.free[k]) <= a;
        }
      }
    }
  }

  /** Taking a block, split or whole, keeps the order. */
  lemma {:induction false} TakeOrdered(h: Heap, i: nat, size: nat)
    requires Apart(h.blocks) && Ordered(h)
    requires i < |h.free| && h.blocks[h.free[i]].size >= size
    ensures Ordered(Take(h, i, size))
  {
    assert h.free[i] in h.blocks;
    hide Ordered, Apart, Split;
    if h.blocks[h.free[i]].size < size + 40 {
      TakeWhole(h, i);
    } else {
      TakeSplit(h, i, size);
    }
  }

  // ----- freeing -----

  /** Inserting by address keeps the order; only the two new neighbourhoods may touch. */
  lemma {:induction false} InsertOrdered(h: Heap, a: nat)
    requires Ordered(h) && a in h.blocks && a !in h.free
    ensures var g, i := Insert(h, a), Place(h.free, a, 0);
      && AllIn(g) && Sorted(g.free) && i < |g.free|
      && forall k: nat :: k != i && k + 1 != i ==> Loose(g, k)
  {
    var g, i := Insert(h, a), Place(h.free, a, 0);
    SortedInsert(h.free, a);
    assert AllIn(g);
    forall k: nat | k != i && k + 1 != i
      ensures Loose(g, k)
    {
      if k + 1 < |g.free| {
        if k < i {
          assert Loose(h, k);
        } else {
          assert Loose(h, k - 1);
        }
      }
    }
  }

  lemma {:induction false} MergeNextOrdered(h: Heap, i: nat)
    requires AllIn(h) && Sorted(h.free) && i < |h.free|
    requires forall k: nat :: k != i && k + 1 != i ==> Loose(h, k)
    ensures var g := MergeNext(h, i);
      && AllIn(g) && Sorted(g.free) && i < |g.free|
      && forall k: nat :: k + 1 != i ==> Loose(g, k)
  {
    var g := MergeNext(h, i);
    if i + 1 < |h.free| && End(h.blocks, h.free[i]) == h.free[i + 1] {
      MergeLoose(h, i);
      forall k: nat | k + 1 != i
        ensures Loose(g, k)
      {
        assert k < i ==> Loose(h, k);
        assert k >= i ==> Loose(h, k + 1);
      }
    } else {
      assert Loose(h, i);
    }
  }

  /** Merging list neighbours `i` and `i + 1`: which places of the new list touch. */
  lemma {:induction false} MergeLoose(h: Heap, i: nat)
    requires AllIn(h) && Sorted(h.free) && i + 1 < |h.free|
    ensures var g := Heap(Merge(h.blocks, h.free[i], h.free[i + 1]), h.free[..i + 1] + h.free[i + 2..]);
      && (End(h.blocks, h.free[i]) == h.free[i + 1] ==>
            && AllIn(g) && Sorted(g.free)
            && forall k: nat :: (k < i && Loose(h, k) ==> Loose(g, k)) && (k >= i && Loose(h, k + 1) ==> Loose(g, k)))
  {
    var g := Heap(Merge(h.blocks, h.free[i], h.free[i + 1]), h.free[..i + 1] + h.free[i + 2..]);
    SortedRemove(h.free, i + 1);
    forall k | 0 <= k < |g.free|
      ensures g.free[k] in g.blocks
    {
      assert k < i + 1 ==> g.free[k] < h.free[i + 1];
      assert k > i ==> h.free[i + 1] < g.free[k];
    }
    if End(h.blocks, h.free[i]) == h.free[i + 1] {
      forall k: nat
        ensures (k < i && Loose(h, k) ==> Loose(g, k)) && (k >= i && Loose(h, k + 1) ==> Loose(g, k))
      {
        if k + 1 < |g.free| {
          assert k < i ==> g.free[k] == h.free[k] && g.free[k] < h.free[i];
          assert k > i ==> g.free[k] == h.free[k + 1] && h.free[i] < g.free[k];
        }
      }
    }
  }

  lemma {:induction false} MergePrevOrdered(h: Heap, i: nat)
    requires AllIn(h) && Sorted(h.free) && i < |h.free|
    requires forall k: nat :: k + 1 != i ==> Loose(h, k)
    ensures Ordered(MergePrev(h, i))
  {
    hide Loose, Merge, Sorted;
    var g := MergePrev(h, i);
    if i > 0 && End(h.blocks, h.free[i - 1]) == h.free[i] {
      MergeLoose(h, i - 1);
      forall k: nat
        ensures Loose(g, k)
      {
        assert k < i - 1 ==> Loose(h, k);
        assert k >= i - 1 ==> Loose(h, k + 1);
      }
    } else {
      forall k: nat
        ensures Loose(g, k)
      {
        if k + 1 == i { LooseWhen(h, k); } else { assert Loose(h, k); }
      }
    }
  }

  lemma {:induction false} LooseWhen(h: Heap, k: nat)
    requires AllIn(h) && (k + 1 < |h.free| ==> End(h.blocks, h.free[k]) != h.free[k + 1])
    ensures Loose(h, k)
  {
  }

  /** Freeing a block keeps the order and leaves no two free neighbours. */
  lemma {:induction false} ReleaseOrdered(h: Heap, pools: set<nat>, a: nat)
    requires WellFormed(h, pools) && Ordered(h) && a in h.blocks && h.blocks[a].used
    ensures WellFormed(Release(h, a), pools) && Ordered(Release(h, a))
  {
    var i := Place(h.free, a, 0);
    ReleaseKeeps(h, pools, a);
    InsertListed(h, a);
    MergeNextListed(Insert(h, a), i);
    assert a !in h.free;
    hide Listed, Tiled, Ordered, Insert, MergeNext, MergePrev, Loose, Sorted, AllIn;
    InsertOrdered(h, a);
    MergeNextOrdered(Insert(h, a), i);
    MergePrevOrdered(MergeNext(Insert(h, a), i), i);
  }

  /** A new pool is pushed at the head, which keeps the order exactly when it lies below and apart. */
  lemma {:induction false} PoolOrdered(h: Heap, pools: set<nat>, p: nat)
    requires WellFormed(h, pools) && Ordered(h) && Fresh(pools, p)
    ensures WellFormed(AddPool(h, p), pools + {p})
    ensures Ordered(AddPool(h, p)) <==> h.free == [] || (p < h.free[0] && p + 16384 != h.free[0])
  {
    PoolKeeps(h, pools, p);
    PoolTiled(h.blocks, pools, p);
    var g := AddPool(h, p);
    ListedAll(g);
    forall k: nat | k > 0
      ensures Loose(g, k)
    {
      assert Loose(h, k - 1);
    }
    if h.free != [] {
      assert g.free[0] == p && g.free[1] == h.free[0];
      assert Loose(g, 0) <==> p + 16384 != h.free[0];
      assert Sorted(g.free) ==> p < h.free[0];
    }
  }

  // ----- freeing everything restores the heap -----

  ghost predicate AllFree(h: Heap) { forall a :: a in h.blocks ==> !h.blocks[a].used }

  /** No two free blocks touch, wherever they are in the list. */
  lemma {:induction false} NoTouching(h: Heap, a: nat, b: nat)
    requires Apart(h.blocks) && Listed(h.blocks, h.free) && Ordered(h)
    requires a in h.blocks && b in h.blocks && !h.blocks[a].used && !h.blocks[b].used
    ensures End(h.blocks, a) != b
  {
    assert a in h.free && b in h.free;
    var i: nat :| i < |h.free| && h.free[i] == a;
    var j: nat :| j < |h.free| && h.free[j] == b;
    assert Loose(h, i);
    assert a < b ==> i < j;
    assert i + 1 < j ==> a < h.free[i + 1] < b && End(h.blocks, a) <= h.free[i + 1];
  }

  /** With everything free and no neighbours, a block is a maximal run of pool memory. */
  lemma {:induction false} Maximal(h: Heap, pools: set<nat>, a: nat)
    requires WellFormed(h, pools) && Ordered(h) && AllFree(h) && a in h.blocks
    ensures !InBlocks(h.blocks, End(h.blocks, a))
    ensures a > 0 && !InBlocks(h.blocks, a - 1)
    ensures forall x: nat :: a <= x < End(h.blocks, a) ==> InBlocks(h.blocks, x)
  {
    hide InPools;
    var bs, e: nat, l: nat := h.blocks, End(h.blocks, a), a - 1;
    forall x: nat | a <= x < End(bs, a)
      ensures InBlocks(bs, x)
    {
      assert Holds(bs, a, x);
    }
    forall b: nat
      ensures !Holds(bs, b, e) && !Holds(bs, b, l)
    {
      if b in bs {
        NoTouching(h, a, b);
        NoTouching(h, b, a);
        assert b < a ==> End(bs, b) <= a;
        assert a < b ==> End(bs, a) <= b;
      }
    }
  }

  lemma {:induction false} SameBlock(g: Heap, h: Heap, pools: set<nat>, a: nat)
    requires WellFormed(g, pools) && Ordered(g) && AllFree(g)
    requires WellFormed(h, pools) && Ordered(h) && AllFree(h)
    requires a in g.blocks
    ensures a in h.blocks && End(h.blocks, a) == End(g.blocks, a)
  {
    forall x: nat
      ensures InBlocks(g.blocks, x) <==> InBlocks(h.blocks, x)
    {
      assert InPools(pools, x) <==> InBlocks(g.blocks, x);
    }
    Maximal(g, pools, a);
    hide InPools, Ordered, Listed, AllFree, Tiled;
    assert InBlocks(h.blocks, a);
    var b :| Holds(h.blocks, b, a);
    Meet(g, h, pools, a, b);
  }

  lemma {:induction false} Meet(g: Heap, h: Heap, pools: set<nat>, a: nat, b: nat)
    requires WellFormed(h, pools) && Ordered(h) && AllFree(h)
    requires a in g.blocks && Holds(h.blocks, b, a)
    requires forall x: nat :: InBlocks(g.blocks, x) <==> InBlocks(h.blocks, x)
    requires !InBlocks(g.blocks, End(g.blocks, a)) && a > 0 && !InBlocks(g.blocks, a - 1)
    requires forall x: nat :: a <= x < End(g.blocks, a) ==> InBlocks(g.blocks, x)
    ensures b == a && End(h.blocks, a) == End(g.blocks, a)
  {
    hide InPools, InBlocks, Ordered, Listed, AllFree, Tiled;
    Maximal(h, pools, b);
    var l: nat := a - 1;
    assert b < a ==> InBlocks(h.blocks, l);
    var e, f := End(g.blocks, a), End(h.blocks, b);
    assert e < f ==> InBlocks(h.blocks, e);
    assert f < e ==> InBlocks(g.blocks, f);
  }

  lemma {:induction false} SortedUnique(s: seq<nat>, t: seq<nat>)
    requires Sorted(s) && Sorted(t) && forall x :: x in s <==> x in t
    ensures s == t
    decreases |s|
  {
    assert t != [] ==> t[0] in s;
    if s != [] {
      assert s[0] in s && s[0] in t;
      assert t[0] in t && t[0] in s;
      assert s[0] == t[0];
      forall x
        ensures x in s[1..] <==> x in t[1..]
      {
        assert s == [s[0]] + s[1..] && t == [t[0]] + t[1..];
        assert s[0] !in s[1..] && t[0] !in t[1..];
        assert x in s <==> x in t;
      }
      SortedUnique(s[1..], t[1..]);
    }
  }

  /** Over given pools there is only one ordered heap with nothing in use. */
  lemma {:induction false} FreeHeapUnique(g: Heap, h: Heap, pools: set<nat>)
    requires WellFormed(g, pools) && Ordered(g) && AllFree(g)
    requires WellFormed(h, pools) && Ordered(h) && AllFree(h)
    ensures g == h
  {
    forall a: nat
      ensures a in g.blocks <==> a in h.blocks
      ensures a in g.blocks ==> g.blocks[a] == h.blocks[a]
    {
      if a in g.blocks { SameBlock(g, h, pools, a); }
      if a in h.blocks { SameBlock(h, g, pools, a); }
    }
    assert g.blocks == h.blocks;
    hide Tiled, Loose;
    SortedUnique(g.free, h.free);
  }

  /** Pools are only ever added, so a run that ends with the pools it began with added none. */
  lemma {:induction false} PoolsGrow(h: Heap, pools: set<nat>, ops: seq<Op>)
    requires WellFormed(h, pools) && LegalRun(h, pools, ops)
    ensures pools <= Run(h, pools, ops).1
    decreases |ops|
  {
    if ops != [] {
      StepKeeps(h, pools, ops[0]);
      var r := Step(h, pools, ops[0]);
      PoolsGrow(r.0, r.1, ops[1..]);
    }
  }

  lemma {:induction false} StepOrdered(h: Heap, pools: set<nat>, op: Op)
    requires WellFormed(h, pools) && Legal(h, pools, op) && Ordered(h)
    ensures var r := Step(h, pools, op);
      (r.1 == pools ==> Ordered(r.0)) && (r.1 != pools ==> exists p :: p in r.1 && p !in pools)
  {
    hide Ordered;
    match op {
      case Malloc(size, p) =>
        var fit := Fit(h, Rounded(size), 0);
        if size > 0 && fit.Some? {
          TakeOrdered(h, fit.value, Rounded(size));
        } else if size > 0 {
          assert InPool(p, p);
          assert p in pools ==> InPools(pools, p);
          assert p in pools + {p};
        }
      case Free(a) => ReleaseOrdered(h, pools, a);
    }
  }

  lemma {:induction false} RunOrdered(h: Heap, pools: set<nat>, ops: seq<Op>)
    requires WellFormed(h, pools) && LegalRun(h, pools, ops) && Ordered(h)
    requires Run(h, pools, ops).1 == pools
    ensures Ordered(Run(h, pools, ops).0)
    decreases |ops|
  {
    hide Ordered, WellFormed, Legal, Step;
    if ops != [] {
      StepKeeps(h, pools, ops[0]);
      var r := Step(h, pools, ops[0]);
      PoolsGrow(h, pools, ops);
      PoolsGrow(r.0, r.1, ops[1..]);
      StepOrdered(h, pools, ops[0]);
      RunOrdered(r.0, r.1, ops[1..]);
    }
  }

  /** Any sequence of calls that needed no new pool and freed everything leaves the heap as it was. */
  lemma {:induction false} FreeingEverythingRestores(h: Heap, pools: set<nat>, ops: seq<Op>)
    requires WellFormed(h, pools) && LegalRun(h, pools, ops) && Ordered(h) && AllFree(h)
    requires Run(h, pools, ops).1 == pools && AllFree(Run(h, pools, ops).0)
    ensures Run(h, pools, ops).0 == h
  {
    RunOrdered(h, pools, ops);
    FreeHeapUnique(Run(h, pools, ops).0, h, pools);
  }
}
