/** Whole runs of heap calls on memory, and when a request comes back at all. */
module HeapRun {
  import opened Bytes
  import opened Memory
  import opened HeapSpec
  import opened HeapBytes
  import opened HeapMoves
  import opened KernelHeap
  import HeapOrder
  import PageSpec

  // ----- a request that finds nothing asks for a pool and starts again -----

  /** The request comes back within `k` calls for a pool, from page allocator `s`. */
  ghost predicate ComesBackIn(h: Heap, n: nat, s: PageSpec.Pages, k: nat)
    requires HeapOrder.AllIn(h)
    decreases k
  {
    || Fit(h, n, 0).Some?
    || (k > 0 && var w := WithPool(h, {}, s); ComesBackIn(w.0, n, w.2, k - 1))
  }

  /** It never does without a fitting block when it is larger than a pool or no pool can be had. */
  lemma {:induction false} NeverBack(h: Heap, n: nat, s: PageSpec.Pages, k: nat)
    requires HeapOrder.AllIn(h) && Fit(h, n, 0).None? && (n > 16360 || !PoolComes(s.used))
    ensures !ComesBackIn(h, n, s, k)
    decreases k
  {
    if k > 0 {
      var w := WithPool(h, {}, s);
      if n > 16360 {
        NoFitAfterPool(h, n, PageSpec.Alloc(s, 4).1);
      } else {
        NoPoolAgain(s);
      }
      NeverBack(w.0, n, w.2, k - 1);
    }
  }

  lemma {:induction false} NoPoolAgain(s: PageSpec.Pages)
    requires !PoolComes(s.used)
    ensures PageSpec.Alloc(s, 4).1 == 0 && !PoolComes(PageSpec.Alloc(s, 4).0.used)
  {
    SupplyWhen(s);
    var r := PageSpec.FirstFit(s.used, 4, 0);
    if r == Some(0) {
      AfterPageZero(s.used);
    }
  }

  ghost predicate ComesBack(h: Heap, n: nat, s: PageSpec.Pages)
    requires HeapOrder.AllIn(h)
  {
    exists k: nat :: ComesBackIn(h, n, s, k)
  }

  lemma {:induction false} BackWithin(h: Heap, n: nat, s: PageSpec.Pages, k: nat)
    requires HeapOrder.AllIn(h) && ComesBackIn(h, n, s, k)
    ensures ComesBack(h, n, s)
  {
  }

  /**
   A request comes back exactly when a block fits, or it fits a pool and there are four free pages in
   a row off page 0 and off a free run there; two calls for a pool are then enough.
   */
  lemma {:induction false} ComesBackWhen(h: Heap, n: nat, s: PageSpec.Pages)
    requires HeapOrder.AllIn(h)
    ensures ComesBack(h, n, s) <==> Fit(h, n, 0).Some? || (n <= 16360 && PoolComes(s.used))
    ensures ComesBack(h, n, s) ==> ComesBackIn(h, n, s, 2)
  {
    hide PoolComes;
    if Fit(h, n, 0).None? && (n > 16360 || !PoolComes(s.used)) {
      forall k: nat
        ensures !ComesBackIn(h, n, s, k)
      {
        NeverBack(h, n, s, k);
      }
    } else {
      if Fit(h, n, 0).None? {
        SupplyWhen(s);
        BackInTwo(h, n, s);
      }
      BackWithin(h, n, s, 2);
    }
  }

  lemma {:induction false} BackInTwo(h: Heap, n: nat, s: PageSpec.Pages)
    requires HeapOrder.AllIn(h) && n <= 16360 && Supply(s).1 != 0
    ensures ComesBackIn(h, n, s, 2)
  {
    hide PageSpec.Alloc;
    SupplyWhen(s);
    var w := WithPool(h, {}, s);
    if PageSpec.Alloc(s, 4).1 != 0 {
      assert w.0.free[0] == PageSpec.Alloc(s, 4).1;
      assert ComesBackIn(w.0, n, w.2, 1);
    } else {
      var v := WithPool(w.0, {}, w.2);
      assert v.0.free[0] == Supply(s).1;
      assert ComesBackIn(v.0, n, v.2, 0);
      assert ComesBackIn(w.0, n, w.2, 1);
    }
  }

  lemma {:induction false} NoFitAfterPool(h: Heap, n: nat, p: nat)
    requires HeapOrder.AllIn(h) && Fit(h, n, 0).None? && n > 16360
    ensures Fit(AddPool(h, p), n, 0).None?
  {
    var g := AddPool(h, p);
    forall k | 0 <= k < |g.free|
      ensures g.blocks[g.free[k]].size < n
    {
      assert k > 0 ==> g.free[k] == h.free[k - 1];
    }
  }

  // ----- runs -----

  datatype Call = Request(size: nat) | Return(a: nat)

  /** Heap, pools and page allocator. */
  datatype World = World(heap: Heap, pools: set<nat>, pages: PageSpec.Pages)

  ghost predicate Callable(w: World, c: Call)
  {
    && WellFormed(w.heap, w.pools) && Owned(w.pools, w.pages.used)
    && match c {
         case Request(size) => size < U64 && Obtainable(w.heap, size, Supply(w.pages).1)
         case Return(a) => a in w.heap.blocks && w.heap.blocks[a].used
       }
  }

  ghost function OpOf(w: World, c: Call): Op
  {
    match c {
      case Request(size) => Malloc(size, Supply(w.pages).1)
      case Return(a) => Free(a)
    }
  }

  lemma {:induction false} CallableLegal(w: World, c: Call)
    requires Callable(w, c)
    ensures Legal(w.heap, w.pools, OpOf(w, c))
  {
    SupplyMeans(w.pools, w.pages);
  }

  ghost function After(w: World, c: Call): World
    requires Callable(w, c)
  {
    CallableLegal(w, c);
    var s := Step(w.heap, w.pools, OpOf(w, c));
    var grows := c.Request? && c.size > 0 && FitOf(w.heap, Rounded(c.size)).None?;
    World(s.0, s.1, if grows then Supply(w.pages).0 else w.pages)
  }

  ghost predicate Playable(w: World, cs: seq<Call>)
    decreases |cs|
  {
    cs != [] ==> Callable(w, cs[0]) && Playable(After(w, cs[0]), cs[1..])
  }

  ghost function Played(w: World, cs: seq<Call>): World
    requires Playable(w, cs)
    decreases |cs|
  {
    if cs == [] then w else Played(After(w, cs[0]), cs[1..])
  }

  ghost function Returned(cs: seq<Call>): set<nat> { set c | c in cs && c.Return? :: c.a }

  ghost function WorldOf(k: KernelHeap): World
    requires k.Valid()
    reads k, k.mem, k.pages, k.pages.bitmap, k.pages.framesStack
  {
    World(k.heap, k.pools, k.pages.State())
  }

  lemma {:induction false} StepReturn(h: Heap, pools: set<nat>, a: nat)
    requires WellFormed(h, pools) && Legal(h, pools, Free(a))
    ensures a in h.blocks && h.blocks[a].used && Step(h, pools, Free(a)) == (Release(h, a), pools, 0)
  {
  }

  method Perform(k: KernelHeap, c: Call)
    requires k.Valid() && Callable(WorldOf(k), c)
    modifies k, k.mem, k.pages`freePages, k.pages`stackTop, k.pages.bitmap
    ensures k.Valid() && WorldOf(k) == After(old(WorldOf(k)), c)
    ensures PayloadsKept(old(View(k.mem)), View(k.mem), Live(old(k.heap).blocks) - Returned([c]))
  {
    hide View, Represents, Tiled, Listed, Live, PayloadsKept, Owned, Supply, Release, HeaderAt, Step, Legal, Obtainable;
    ghost var live := Live(k.heap.blocks);
    CallableLegal(WorldOf(k), c);
    match c {
      case Request(size) =>
        var ptr := k.Kmalloc(size);
        assert live - Returned([c]) == live;
      case Return(a) =>
        BlockRecorded(View(k.mem), k.freeList, k.heap, a);
        StepReturn(k.heap, k.pools, a);
        k.Kfree(a + 24);
        assert Returned([c]) == {a};
    }
  }

  /**
   Over any run of requests and returns the heap in memory stays that of the run on values, tiled
   and listed, and no byte changes in a payload that was in use and is not returned.
   */
  method Play(k: KernelHeap, cs: seq<Call>)
    requires k.Valid() && Playable(WorldOf(k), cs)
    modifies k, k.mem, k.pages`freePages, k.pages`stackTop, k.pages.bitmap
    ensures k.Valid() && WorldOf(k) == Played(old(WorldOf(k)), cs)
    ensures PayloadsKept(old(View(k.mem)), View(k.mem), Live(old(k.heap).blocks) - Returned(cs))
    decreases |cs|
  {
    hide View, Represents, Tiled, Listed, Live, PayloadsKept, Owned, After, Callable;
    ghost var m, h, live := View(k.mem), k.heap, Live(k.heap.blocks);
    if cs == [] {
      Unchanged(m, live - Returned(cs));
      return;
    }
    ghost var w := WorldOf(k);
    Perform(k, cs[0]);
    ghost var m1, live1 := View(k.mem), Live(k.heap.blocks);
    LiveKept(w, cs);
    Play(k, cs[1..]);
    PayloadsSub(m, m1, live - Returned([cs[0]]), live - Returned(cs));
    PayloadsSub(m1, View(k.mem), live1 - Returned(cs[1..]), live - Returned(cs));
    PayloadsKeptTrans(m, m1, View(k.mem), live - Returned(cs), live - Returned(cs));
  }

  /** A block in use that is not returned in the run stays in use over the first call. */
  lemma {:induction false} LiveKept(w: World, cs: seq<Call>)
    requires cs != [] && Callable(w, cs[0])
    ensures var live, now := Live(w.heap.blocks), Live(After(w, cs[0]).heap.blocks);
      && (forall u :: u in live - Returned(cs) ==> u in live - Returned([cs[0]]))
      && (forall u :: u in live - Returned(cs) ==> u in now - Returned(cs[1..]) && now[u] == live[u])
  {
    hide Tiled, Listed, Step, Legal, Owned, Live, Release;
    CallableLegal(w, cs[0]);
    StepLive(w.heap, w.pools, OpOf(w, cs[0]));
    assert cs == [cs[0]] + cs[1..];
    assert Returned(cs) == Returned([cs[0]]) + Returned(cs[1..]);
    assert cs[0].Return? ==> Returned([cs[0]]) == {cs[0].a};
  }

  // ----- freeing everything -----

  /** A run of calls is a run of the heap as a value. */
  lemma {:induction false} PlayedIsRun(w: World, cs: seq<Call>) returns (ops: seq<Op>)
    requires WellFormed(w.heap, w.pools) && Playable(w, cs)
    ensures LegalRun(w.heap, w.pools, ops)
    ensures Run(w.heap, w.pools, ops) == (Played(w, cs).heap, Played(w, cs).pools)
    decreases |cs|
  {
    hide WellFormed, Legal, Step, Callable;
    ops := [];
    if cs != [] {
      CallableLegal(w, cs[0]);
      StepKeeps(w.heap, w.pools, OpOf(w, cs[0]));
      var rest := PlayedIsRun(After(w, cs[0]), cs[1..]);
      ops := [OpOf(w, cs[0])] + rest;
      assert ops[1..] == rest;
    }
  }

  /** With everything free two memories that hold the same heap have the same list head and the same headers. */
  lemma {:induction false} SameHeaders(m: seq<byte>, m': seq<byte>, head: nat, head': nat, h: Heap)
    requires Listed(h.blocks, h.free) && HeapOrder.AllFree(h) && Represents(m, head, h) && Represents(m', head', h)
    ensures head == head'
    ensures forall a :: a in h.blocks ==> a + 24 <= |m| && a + 24 <= |m'| && HeaderAt(m', a) == HeaderAt(m, a)
  {
    forall a | a in h.blocks
      ensures a + 24 <= |m| && a + 24 <= |m'| && HeaderAt(m', a) == HeaderAt(m, a)
    {
      hide HeaderAt;
      assert a in h.free;
      var k: nat :| k < |h.free| && h.free[k] == a;
      BlockRecorded(m, head, h, a);
      BlockRecorded(m', head', h, a);
      LinkedAt(m, head, h.free, k);
      LinkedAt(m', head', h.free, k);
    }
  }

  /**
   Any run of calls on the heap in memory, from an ordered heap with nothing in use, that takes no pool
   and returns everything ends with the same list and the same headers in memory.
   */
  method PlayAndReturn(k: KernelHeap, cs: seq<Call>)
    requires k.Valid() && Playable(WorldOf(k), cs)
    requires HeapOrder.Ordered(k.heap) && HeapOrder.AllFree(k.heap)
    requires Played(WorldOf(k), cs).pools == k.pools && HeapOrder.AllFree(Played(WorldOf(k), cs).heap)
    modifies k, k.mem, k.pages`freePages, k.pages`stackTop, k.pages.bitmap
    ensures k.Valid() && k.heap == old(k.heap) && k.freeList == old(k.freeList)
    ensures forall a :: a in k.heap.blocks ==>
      a + 24 <= k.mem.Length && HeaderAt(View(k.mem), a) == HeaderAt(old(View(k.mem)), a)
  {
    hide View, Represents, Tiled, Listed, Owned, Playable, Played, HeapOrder.Ordered, HeapOrder.AllFree, HeaderAt, Run,
      LegalRun;
    ghost var w, m, head := WorldOf(k), View(k.mem), k.freeList;
    ghost var ops := PlayedIsRun(w, cs);
    HeapOrder.FreeingEverythingRestores(w.heap, w.pools, ops);
    Play(k, cs);
    SameHeaders(m, View(k.mem), head, k.freeList, w.heap);
  }

  // ----- the list after start-up -----

  /** Every listed pool lies below every place where four pages are still free. */
  ghost predicate BelowTheRest(free: seq<nat>, used: seq<bool>)
  {
    forall k, j: nat :: 0 <= k < |free| && PageSpec.FreeRun(used, j, 4) ==> free[k] < j * 4096
  }

  ghost predicate Descending(free: seq<nat>) { forall k, l :: 0 <= k < l < |free| ==> free[k] > free[l] }

  /** First fit takes pools upwards and each is pushed at the head, so the list runs downwards. */
  lemma {:induction false} PoolsDescend(s: PageSpec.Pages, n: nat)
    ensures var w := WithPools(Heap(map[], []), {}, s, n);
      HeapOrder.AllIn(w.0) && Descending(w.0.free) && BelowTheRest(w.0.free, w.2.used)
  {
    if n > 0 {
      PoolsDescend(s, n - 1);
      var w := WithPools(Heap(map[], []), {}, s, n - 1);
      NextPool(w.0, w.1, w.2);
    }
  }

  /** A run of free pages left over by a pool lies behind it, and was free before. */
  lemma {:induction false} RunLeftOver(used: seq<bool>, i: nat, j: nat)
    requires PageSpec.FirstFit(used, 4, 0) == Some(i)
    requires PageSpec.FreeRun(PageSpec.SetRange(used, i, 4, true), j, 4)
    ensures i < j && PageSpec.FreeRun(used, j, 4)
  {
    var after := PageSpec.SetRange(used, i, 4, true);
    PageSpec.SetRangeAt(used, i, 4, true);
    assert !after[j] && after[i];
    forall k | j <= k < j + 4
      ensures !used[k]
    {
      assert !after[k];
    }
    assert PageSpec.FreeRun(used, j, 4);
  }

  lemma {:induction false} NextPool(h: Heap, pools: set<nat>, s: PageSpec.Pages)
    requires HeapOrder.AllIn(h) && Descending(h.free) && BelowTheRest(h.free, s.used)
    ensures var w := WithPool(h, pools, s);
      HeapOrder.AllIn(w.0) && Descending(w.0.free) && BelowTheRest(w.0.free, w.2.used)
  {
    var r := PageSpec.FirstFit(s.used, 4, 0);
    if r.Some? {
      var i, w := r.value, WithPool(h, pools, s);
      assert w.2.used == PageSpec.SetRange(s.used, i, 4, true);
      forall j: nat | PageSpec.FreeRun(w.2.used, j, 4)
        ensures i < j && PageSpec.FreeRun(s.used, j, 4)
      {
        RunLeftOver(s.used, i, j);
      }
    }
  }

  /** After start-up the list is in address order exactly when it holds at most one pool. */
  lemma {:induction false} StartUpOrder(s: PageSpec.Pages, n: nat)
    ensures var h := WithPools(Heap(map[], []), {}, s, n).0; HeapOrder.Ordered(h) <==> |h.free| <= 1
  {
    PoolsDescend(s, n);
    var h := WithPools(Heap(map[], []), {}, s, n).0;
    if |h.free| > 1 {
      assert h.free[0] > h.free[1];
    }
  }
}
