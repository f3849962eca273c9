/**
 The kernel heap as a value: blocks by header address and the free list, with the effect of taking,
 freeing and growing on both.
 */
module HeapSpec {
  import opened Bytes

  datatype Block = Block(size: nat, used: bool)

  type Blocks = map<nat, Block>

  datatype Heap = Heap(blocks: Blocks, free: seq<nat>)

  function End(bs: Blocks, a: nat): nat
    requires a in bs
  {
    a + 24 + bs[a].size
  }

  predicate Holds(bs: Blocks, a: nat, x: nat) { a in bs && a <= x < End(bs, a) }

  ghost predicate InBlocks(bs: Blocks, x: nat) { exists a :: Holds(bs, a, x) }

  predicate InPool(p: nat, x: nat) { p <= x < p + 16384 }

  ghost predicate InPools(pools: set<nat>, x: nat) { exists p :: p in pools && InPool(p, x) }

  /** Blocks do not overlap. */
  ghost predicate Apart(bs: Blocks)
  {
    forall a, b :: a in bs && b in bs && a < b ==> End(bs, a) <= b
  }

  /** Blocks, headers included, tile the pools exactly: no overlap and no gap. */
  ghost predicate Tiled(bs: Blocks, pools: set<nat>)
  {
    && 0 !in bs
    && Apart(bs)
    && forall x: nat :: InPools(pools, x) <==> InBlocks(bs, x)
  }

  /** The list holds each free block once and no used block. */
  ghost predicate Listed(bs: Blocks, free: seq<nat>)
  {
    && (forall i, j :: 0 <= i < j < |free| ==> free[i] != free[j])
    && (forall a :: a in free <==> a in bs && !bs[a].used)
  }

  ghost predicate WellFormed(h: Heap, pools: set<nat>) { Tiled(h.blocks, pools) && Listed(h.blocks, h.free) }

  lemma {:induction false} ListedAll(h: Heap)
    requires Listed(h.blocks, h.free)
    ensures forall k :: 0 <= k < |h.free| ==> h.free[k] in h.blocks
  {
  }

  // ----- the four changes of a tiling -----

  /** A flag changes nothing about the tiling. */
  lemma {:induction false} FlagTiled(bs: Blocks, pools: set<nat>, a: nat, used: bool)
    requires Tiled(bs, pools) && a in bs
    ensures Tiled(bs[a := Block(bs[a].size, used)], pools)
  {
    var cs := bs[a := Block(bs[a].size, used)];
    forall x: nat
      ensures InBlocks(bs, x) <==> InBlocks(cs, x)
    {
      forall b ensures Holds(bs, b, x) <==> Holds(cs, b, x) { }
    }
  }

  /** One block becomes two: `size` bytes and the rest behind a new header. */
  function Split(bs: Blocks, a: nat, size: nat, used: bool): Blocks
    requires a in bs && size + 24 <= bs[a].size
  {
    bs[a := Block(size, used)][a + 24 + size := Block(bs[a].size - size - 24, false)]
  }

  lemma {:induction false} SplitTiled(bs: Blocks, pools: set<nat>, a: nat, size: nat, used: bool)
    requires Tiled(bs, pools) && a in bs && size + 24 <= bs[a].size
    ensures Tiled(Split(bs, a, size, used), pools)
    ensures a + 24 + size !in bs
  {
    var n, cs := a + 24 + size, Split(bs, a, size, used);
    assert n !in bs by { assert n in bs ==> End(bs, a) <= n; }
    forall x: nat
      ensures InBlocks(bs, x) <==> InBlocks(cs, x)
    {
      forall b | b != a && b != n ensures Holds(bs, b, x) <==> Holds(cs, b, x) { }
      assert Holds(bs, a, x) <==> Holds(cs, a, x) || Holds(cs, n, x);
    }
  }

  /** Two neighbours become one. */
  function Merge(bs: Blocks, a: nat, b: nat): Blocks
    requires a in bs && b in bs
  {
    (bs - {b})[a := Block(bs[a].size + 24 + bs[b].size, bs[a].used)]
  }

  lemma {:induction false} MergeTiled(bs: Blocks, pools: set<nat>, a: nat, b: nat)
    requires Tiled(bs, pools) && a in bs && b in bs && b == End(bs, a)
    ensures Tiled(Merge(bs, a, b), pools)
  {
    var cs := Merge(bs, a, b);
    assert a < b;
    forall x: nat
      ensures InBlocks(bs, x) <==> InBlocks(cs, x)
    {
      forall c | c != a && c != b ensures Holds(bs, c, x) <==> Holds(cs, c, x) { }
      assert Holds(cs, a, x) <==> Holds(bs, a, x) || Holds(bs, b, x);
    }
    forall c, d | c in cs && d in cs && c < d
      ensures End(cs, c) <= d
    {
      if c == a {
        assert d != b && End(bs, a) <= d;
        assert b < d && End(bs, b) <= d;
      }
    }
  }

  /** A pool outside all blocks joins as one free block. */
  lemma {:induction false} PoolTiled(bs: Blocks, pools: set<nat>, p: nat)
    requires Tiled(bs, pools) && p > 0
    requires forall x: nat :: InPool(p, x) ==> !InPools(pools, x)
    ensures Tiled(bs[p := Block(16384 - 24, false)], pools + {p})
    ensures p !in bs
  {
    var cs := bs[p := Block(16384 - 24, false)];
    assert p !in bs by {
      if p in bs { assert Holds(bs, p, p); assert InBlocks(bs, p); assert InPool(p, p); }
    }
    forall x: nat
      ensures InBlocks(cs, x) <==> InBlocks(bs, x) || InPool(p, x)
    {
      forall b | b != p ensures Holds(bs, b, x) <==> Holds(cs, b, x) { }
      assert Holds(cs, p, x) <==> InPool(p, x);
    }
    forall x: nat
      ensures InPools(pools + {p}, x) <==> InPools(pools, x) || InPool(p, x)
    {
      forall q | q in pools ensures q in pools + {p} { }
      assert p in pools + {p};
    }
    forall a, b | a in cs && b in cs && a < b
      ensures End(cs, a) <= b
    {
      if a == p {
        assert Holds(bs, b, b) && InBlocks(bs, b);
        assert !InPool(p, b);
      } else if b == p {
        assert End(bs, a) > p ==> Holds(bs, a, p) && InBlocks(bs, p) && InPool(p, p);
      }
    }
  }

  // ----- the calls -----

  /** The size a request is rounded to; the addition is done in 64 bits. */
  function Rounded(size: nat): (r: nat)
    ensures r >= 16 && r % 16 == 0
  {
    var r := (size + 15) % 0x1_0000_0000_0000_0000 / 16 * 16;
    if r < 16 then 16 else r
  }

  lemma {:induction false} RoundedTwice(size: nat)
    ensures Rounded(size) < U64 ==> Rounded(Rounded(size)) == Rounded(size)
  {
  }

  /** The rounded size covers the request exactly when the addition does not wrap around. */
  lemma {:induction false} RoundedCovers(size: nat)
    requires size < U64
    ensures Rounded(size) >= size <==> size + 15 < U64
    ensures size + 15 >= U64 ==> Rounded(size) == 16
    ensures 0 < size && size + 15 < U64 ==> Rounded(size) < size + 16
  {
    if size + 15 >= U64 {
      assert (size + 15) % U64 == size + 15 - U64;
    } else {
      assert (size + 15) % U64 == size + 15;
    }
  }

  /** Position in the list of the first block that is large enough. */
  function Fit(h: Heap, size: nat, i: nat): (r: Option<nat>)
    requires forall k :: 0 <= k < |h.free| ==> h.free[k] in h.blocks
    ensures r.Some? ==> i <= r.value < |h.free| && h.blocks[h.free[r.value]].size >= size
    ensures r.Some? ==> forall k :: i <= k < r.value ==> h.blocks[h.free[k]].size < size
    ensures r.None? ==> forall k :: i <= k < |h.free| ==> h.blocks[h.free[k]].size < size
    decreases |h.free| - i
  {
    if i >= |h.free| then None
    else if h.blocks[h.free[i]].size >= size then Some(i)
    else Fit(h, size, i + 1)
  }

  /** The block at list position `i` is split if it is large enough, and leaves the list. */
  function Take(h: Heap, i: nat, size: nat): Heap
    requires i < |h.free| && h.free[i] in h.blocks && h.blocks[h.free[i]].size >= size
  {
    var a := h.free[i];
    var b := h.blocks[a];
    if b.size < size + 40 then
      Heap(h.blocks[a := Block(b.size, true)], h.free[..i] + h.free[i + 1..])
    else
      Heap(Split(h.blocks, a, size, true), h.free[..i] + [a + 24 + size] + h.free[i + 1..])
  }

  function AddPool(h: Heap, p: nat): Heap
  {
    Heap(h.blocks[p := Block(16360, false)], [p] + h.free)
  }

  /** Where the walk that stops at the first address not below `a` ends. */
  function Place(free: seq<nat>, a: nat, i: nat): (k: nat)
    requires i <= |free|
    ensures i <= k <= |free|
    ensures forall j :: i <= j < k ==> free[j] < a
    ensures k < |free| ==> free[k] >= a
    decreases |free| - i
  {
    if i < |free| && free[i] < a then Place(free, a, i + 1) else i
  }

  /** `a` inserted at position `i`, then merged with the block after it and the block before it. */
  function MergeNext(h: Heap, i: nat): Heap
    requires i < |h.free| && forall k :: 0 <= k < |h.free| ==> h.free[k] in h.blocks
  {
    var a := h.free[i];
    if i + 1 < |h.free| && End(h.blocks, a) == h.free[i + 1] then
      Heap(Merge(h.blocks, a, h.free[i + 1]), h.free[..i + 1] + h.free[i + 2..])
    else h
  }

  function MergePrev(h: Heap, i: nat): Heap
    requires i < |h.free| && forall k :: 0 <= k < |h.free| ==> h.free[k] in h.blocks
  {
    if i > 0 && End(h.blocks, h.free[i - 1]) == h.free[i] then
      Heap(Merge(h.blocks, h.free[i - 1], h.free[i]), h.free[..i] + h.free[i + 1..])
    else h
  }

  function Insert(h: Heap, a: nat): Heap
    requires a in h.blocks
  {
    var i := Place(h.free, a, 0);
    Heap(h.blocks[a := Block(h.blocks[a].size, false)], h.free[..i] + [a] + h.free[i..])
  }

  // ----- blocks in use -----

  /** The blocks in use, with their sizes. */
  function Live(bs: Blocks): map<nat, nat> { map u | u in bs && bs[u].used :: bs[u].size }

  /** The size of the block handed out: less than a header and a smallest block is not split off. */
  function Granted(h: Heap, i: nat, size: nat): (n: nat)
    requires i < |h.free| && h.free[i] in h.blocks && h.blocks[h.free[i]].size >= size
    ensures size <= n < size + 40
  {
    var b := h.blocks[h.free[i]].size;
    if b < size + 40 then b else size
  }

  /** Taking puts one block in use, which was free, and touches no other block in use. */
  lemma {:induction false} TakeLive(h: Heap, i: nat, size: nat)
    requires Apart(h.blocks) && i < |h.free| && h.free[i] in h.blocks && !h.blocks[h.free[i]].used
    requires h.blocks[h.free[i]].size >= size
    ensures h.free[i] !in Live(h.blocks)
    ensures Live(Take(h, i, size).blocks) == Live(h.blocks)[h.free[i] := Granted(h, i, size)]
  {
    var a := h.free[i];
    assert h.blocks[a].size >= size + 40 ==> a + 24 + size !in h.blocks;
  }

  lemma {:induction false} MergeLive(bs: Blocks, a: nat, b: nat)
    requires a in bs && b in bs && !bs[a].used && !bs[b].used
    ensures Live(Merge(bs, a, b)) == Live(bs)
  {
  }

  // ----- the list -----

  lemma {:induction false} RemovedFrom(free: seq<nat>, i: nat)
    requires i < |free| && forall k, l :: 0 <= k < l < |free| ==> free[k] != free[l]
    ensures var f := free[..i] + free[i + 1..];
      && (forall k, l :: 0 <= k < l < |f| ==> f[k] != f[l])
      && (forall x :: x in f <==> x in free && x != free[i])
  {
    var f := free[..i] + free[i + 1..];
    forall x
      ensures x in f <==> x in free && x != free[i]
    {
      if x in free && x != free[i] {
        var k :| 0 <= k < |free| && free[k] == x;
        assert f[if k < i then k else k - 1] == x;
      }
      if x in f {
        var k :| 0 <= k < |f| && f[k] == x;
        assert free[if k < i then k else k + 1] == x;
      }
    }
  }

  lemma {:induction false} InsertedInto(free: seq<nat>, i: nat, a: nat)
    requires i <= |free| && a !in free && forall k, l :: 0 <= k < l < |free| ==> free[k] != free[l]
    ensures var f := free[..i] + [a] + free[i..];
      && (forall k, l :: 0 <= k < l < |f| ==> f[k] != f[l])
      && (forall x :: x in f <==> x in free || x == a)
  {
    var f := free[..i] + [a] + free[i..];
    assert f[i] == a;
    forall x
      ensures x in f <==> x in free || x == a
    {
      if x in free {
        var k :| 0 <= k < |free| && free[k] == x;
        assert f[if k < i then k else k + 1] == x;
      }
    }
  }

  // ----- every call keeps the heap well formed -----

  lemma {:induction false} TakeKeeps(h: Heap, pools: set<nat>, i: nat, size: nat)
    requires WellFormed(h, pools) && i < |h.free| && h.free[i] in h.blocks && h.blocks[h.free[i]].size >= size
    ensures WellFormed(Take(h, i, size), pools)
  {
    hide Tiled, Listed;
    var a := h.free[i];
    if h.blocks[a].size < size + 40 {
      FlagTiled(h.blocks, pools, a, true);
      FlagListed(h, i);
    } else {
      SplitTiled(h.blocks, pools, a, size, true);
      SplitListed(h, i, size);
    }
  }

  lemma {:induction false} FlagListed(h: Heap, i: nat)
    requires Listed(h.blocks, h.free) && i < |h.free| && h.free[i] in h.blocks
    ensures Listed(h.blocks[h.free[i] := Block(h.blocks[h.free[i]].size, true)], h.free[..i] + h.free[i + 1..])
  {
    RemovedFrom(h.free, i);
  }

  lemma {:induction false} SplitListed(h: Heap, i: nat, size: nat)
    requires Listed(h.blocks, h.free) && i < |h.free| && h.free[i] in h.blocks && h.blocks[h.free[i]].size >= size + 24
    requires h.free[i] + 24 + size !in h.blocks
    ensures Listed(Split(h.blocks, h.free[i], size, true), h.free[..i] + [h.free[i] + 24 + size] + h.free[i + 1..])
  {
    var f, n := h.free[..i] + h.free[i + 1..], h.free[i] + 24 + size;
    RemovedFrom(h.free, i);
    InsertedInto(f, i, n);
    assert f[..i] + [n] + f[i..] == h.free[..i] + [n] + h.free[i + 1..];
  }

  lemma {:induction false} PoolKeeps(h: Heap, pools: set<nat>, p: nat)
    requires WellFormed(h, pools) && p > 0
    requires forall x: nat :: InPool(p, x) ==> !InPools(pools, x)
    ensures WellFormed(AddPool(h, p), pools + {p})
  {
    PoolTiled(h.blocks, pools, p);
    InsertedInto(h.free, 0, p);
    assert h.free[..0] + [p] + h.free[0..] == [p] + h.free;
  }

  lemma {:induction false} InsertListed(h: Heap, a: nat)
    requires Listed(h.blocks, h.free) && a in h.blocks && h.blocks[a].used
    ensures Listed(Insert(h, a).blocks, Insert(h, a).free)
    ensures Insert(h, a).free[Place(h.free, a, 0)] == a
  {
    InsertedInto(h.free, Place(h.free, a, 0), a);
  }

  lemma {:induction false} MergeListed(h: Heap, i: nat)
    requires Listed(h.blocks, h.free) && i + 1 < |h.free|
    ensures Listed(Merge(h.blocks, h.free[i], h.free[i + 1]), h.free[..i + 1] + h.free[i + 2..])
  {
    var f, a, b := h.free[..i + 1] + h.free[i + 2..], h.free[i], h.free[i + 1];
    RemovedFrom(h.free, i + 1);
    assert a in h.free && b in h.free && a != b;
    var cs := Merge(h.blocks, a, b);
    forall x
      ensures x in f <==> x in cs && !cs[x].used
    {
      assert x in h.free <==> x in h.blocks && !h.blocks[x].used;
    }
  }

  lemma {:induction false} MergeNextListed(h: Heap, i: nat)
    requires Listed(h.blocks, h.free) && i < |h.free|
    ensures var g := MergeNext(h, i); Listed(g.blocks, g.free) && i < |g.free| && g.free[i] == h.free[i]
    ensures i > 0 ==> MergeNext(h, i).free[i - 1] == h.free[i - 1]
  {
    if i + 1 < |h.free| && End(h.blocks, h.free[i]) == h.free[i + 1] {
      MergeListed(h, i);
    }
  }

  /** Freeing the used block `a`: inserted by address, then merged with both neighbours in the list. */
  ghost function Release(h: Heap, a: nat): Heap
    requires Listed(h.blocks, h.free) && a in h.blocks && h.blocks[a].used
  {
    var i := Place(h.free, a, 0);
    InsertListed(h, a);
    MergeNextListed(Insert(h, a), i);
    MergePrev(MergeNext(Insert(h, a), i), i)
  }

  lemma {:induction false} ReleaseKeeps(h: Heap, pools: set<nat>, a: nat)
    requires WellFormed(h, pools) && a in h.blocks && h.blocks[a].used
    ensures WellFormed(Release(h, a), pools)
  {
    var i, g := Place(h.free, a, 0), Insert(h, a);
    FlagTiled(h.blocks, pools, a, false);
    InsertListed(h, a);
    MergeNextKeeps(g, pools, i);
    MergeNextListed(g, i);
    MergePrevKeeps(MergeNext(g, i), pools, i);
  }

  lemma {:induction false} InsertKeeps(h: Heap, pools: set<nat>, a: nat)
    requires WellFormed(h, pools) && a in h.blocks && h.blocks[a].used
    ensures WellFormed(Insert(h, a), pools) && Live(Insert(h, a).blocks) == Live(h.blocks) - {a}
    ensures var i, g := Place(h.free, a, 0), Insert(h, a);
      i < |g.free| && g.free[i] == a && (i > 0 ==> g.free[i - 1] == h.free[i - 1])
  {
    FlagTiled(h.blocks, pools, a, false);
    InsertListed(h, a);
  }

  /** Freeing takes exactly that block out of use. */
  lemma {:induction false} ReleaseLive(h: Heap, a: nat)
    requires Listed(h.blocks, h.free) && a in h.blocks && h.blocks[a].used
    ensures Live(Release(h, a).blocks) == Live(h.blocks) - {a}
  {
    var i, g := Place(h.free, a, 0), Insert(h, a);
    assert Live(g.blocks) == Live(h.blocks) - {a};
    InsertListed(h, a);
    MergeNextListed(g, i);
    MergeNextLive(g, i);
    MergePrevLive(MergeNext(g, i), i);
  }

  lemma {:induction false} MergeNextLive(h: Heap, i: nat)
    requires Listed(h.blocks, h.free) && i < |h.free|
    ensures Live(MergeNext(h, i).blocks) == Live(h.blocks)
  {
    if i + 1 < |h.free| && End(h.blocks, h.free[i]) == h.free[i + 1] {
      assert h.free[i] in h.free && h.free[i + 1] in h.free;
      MergeLive(h.blocks, h.free[i], h.free[i + 1]);
    }
  }

  lemma {:induction false} MergePrevLive(h: Heap, i: nat)
    requires Listed(h.blocks, h.free) && i < |h.free|
    ensures Live(MergePrev(h, i).blocks) == Live(h.blocks)
  {
    if i > 0 && End(h.blocks, h.free[i - 1]) == h.free[i] {
      assert h.free[i - 1] in h.free && h.free[i] in h.free;
      MergeLive(h.blocks, h.free[i - 1], h.free[i]);
    }
  }

  lemma {:induction false} MergeNextKeeps(h: Heap, pools: set<nat>, i: nat)
    requires WellFormed(h, pools) && i < |h.free|
    ensures WellFormed(MergeNext(h, i), pools)
  {
    MergeNextListed(h, i);
    if i + 1 < |h.free| && End(h.blocks, h.free[i]) == h.free[i + 1] {
      MergeTiled(h.blocks, pools, h.free[i], h.free[i + 1]);
    }
  }

  lemma {:induction false} MergePrevKeeps(h: Heap, pools: set<nat>, i: nat)
    requires WellFormed(h, pools) && i < |h.free|
    ensures WellFormed(MergePrev(h, i), pools)
  {
    if i > 0 && End(h.blocks, h.free[i - 1]) == h.free[i] {
      MergeListed(h, i - 1);
      MergeTiled(h.blocks, pools, h.free[i - 1], h.free[i]);
    }
  }

  // ----- whole runs -----

  /**
   A request names the pool the page allocator would supply if no block fits. Freeing names the
   header of a block in use.
   */
  datatype Op = Malloc(size: nat, pool: nat) | Free(a: nat)

  /** The pool is new memory. */
  ghost predicate Fresh(pools: set<nat>, p: nat) { p > 0 && forall x: nat :: InPool(p, x) ==> !InPools(pools, x) }

  ghost predicate Legal(h: Heap, pools: set<nat>, op: Op)
    requires WellFormed(h, pools)
  {
    match op {
      case Malloc(size, p) => size > 0 ==> Fit(h, Rounded(size), 0).Some? || (Rounded(size) <= 16360 && Fresh(pools, p))
      case Free(a) => a in h.blocks && h.blocks[a].used
    }
  }

  /** One call: the heap after it, the pools after it, and the header of the block handed out (0 for none). */
  ghost function Step(h: Heap, pools: set<nat>, op: Op): (Heap, set<nat>, nat)
    requires WellFormed(h, pools) && Legal(h, pools, op)
  {
    match op {
      case Malloc(size, p) =>
        if size == 0 then (h, pools, 0)
        else
          var n := Rounded(size);
          var r := Fit(h, n, 0);
          if r.Some? then (Take(h, r.value, n), pools, h.free[r.value])
          else (Take(AddPool(h, p), 0, n), pools + {p}, p)
      case Free(a) => (Release(h, a), pools, 0)
    }
  }

  lemma {:induction false} StepKeeps(h: Heap, pools: set<nat>, op: Op)
    requires WellFormed(h, pools) && Legal(h, pools, op)
    ensures var r := Step(h, pools, op); WellFormed(r.0, r.1)
  {
    match op {
      case Malloc(size, p) =>
        if size > 0 {
          var n := Rounded(size);
          var r := Fit(h, n, 0);
          if r.Some? {
            TakeKeeps(h, pools, r.value, n);
          } else {
            PoolKeeps(h, pools, p);
            TakeKeeps(AddPool(h, p), pools + {p}, 0, n);
          }
        }
      case Free(a) => ReleaseKeeps(h, pools, a);
    }
  }

  /** A request puts one block in use, large enough and not in use before; freeing takes one out; no other changes. */
  lemma {:induction false} StepLive(h: Heap, pools: set<nat>, op: Op)
    requires WellFormed(h, pools) && Legal(h, pools, op)
    ensures var r := Step(h, pools, op);
      match op {
        case Malloc(size, _) =>
          if size == 0 then r.0 == h
          else
            && r.2 !in Live(h.blocks) && r.2 in r.0.blocks && r.0.blocks[r.2].used
              && Rounded(size) <= r.0.blocks[r.2].size < Rounded(size) + 40
            && Live(r.0.blocks) == Live(h.blocks)[r.2 := r.0.blocks[r.2].size]
        case Free(a) => Live(r.0.blocks) == Live(h.blocks) - {a}
      }
  {
    match op {
      case Malloc(size, p) =>
        if size > 0 {
          var n := Rounded(size);
          var r := Fit(h, n, 0);
          if r.Some? {
            assert h.free[r.value] in h.free;
            TakeLive(h, r.value, n);
          } else {
            PoolKeeps(h, pools, p);
            PoolLive(h, pools, p);
            TakeLive(AddPool(h, p), 0, n);
          }
        }
      case Free(a) => ReleaseLive(h, a);
    }
  }

  lemma {:induction false} PoolLive(h: Heap, pools: set<nat>, p: nat)
    requires WellFormed(h, pools) && Fresh(pools, p)
    ensures Live(AddPool(h, p).blocks) == Live(h.blocks)
  {
    PoolTiled(h.blocks, pools, p);
  }

  ghost predicate LegalRun(h: Heap, pools: set<nat>, ops: seq<Op>)
    requires WellFormed(h, pools)
    decreases |ops|
  {
    ops != [] ==>
    && Legal(h, pools, ops[0])
    && (StepKeeps(h, pools, ops[0]);
        var r := Step(h, pools, ops[0]); LegalRun(r.0, r.1, ops[1..]))
  }

  ghost function Run(h: Heap, pools: set<nat>, ops: seq<Op>): (r: (Heap, set<nat>))
    requires WellFormed(h, pools) && LegalRun(h, pools, ops)
    ensures WellFormed(r.0, r.1)
    decreases |ops|
  {
    if ops == [] then (h, pools)
    else
      StepKeeps(h, pools, ops[0]);
      var r := Step(h, pools, ops[0]);
      Run(r.0, r.1, ops[1..])
  }
}
