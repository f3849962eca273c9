/** The kernel heap as the kernel keeps it: headers in memory, one list head, pools from the page allocator. */
module KernelHeap {
  import opened Bytes
  import opened Memory
  import opened HeapSpec
  import opened HeapBytes
  import opened HeapSteps
  import opened HeapMoves
  import PageSpec
  import PageAllocator

  // ----- pools are pages the page allocator has marked -----

  ghost predicate Marked(used: seq<bool>, p: nat)
  {
    p % 4096 == 0 && p / 4096 + 4 <= |used| && forall k :: p / 4096 <= k < p / 4096 + 4 ==> used[k]
  }

  ghost predicate Owned(pools: set<nat>, used: seq<bool>) { forall p :: p in pools ==> Marked(used, p) }

  /** Four pages that were free lie outside every pool, and marking them adds one. */
  lemma {:induction false} FreshPool(pools: set<nat>, used: seq<bool>, i: nat)
    requires Owned(pools, used) && PageSpec.FreeRun(used, i, 4) && i > 0
    ensures Fresh(pools, i * 4096)
    ensures Owned(pools + {i * 4096}, PageSpec.SetRange(used, i, 4, true))
  {
    forall x: nat, p | InPool(i * 4096, x) && p in pools
      ensures !InPool(p, x)
    {
      assert Marked(used, p);
      var k := x / 4096;
      assert i <= k < i + 4 && !used[k];
      var q := p / 4096;
      assert InPool(p, x) ==> q <= k < q + 4;
    }
    PageSpec.SetRangeAt(used, i, 4, true);
    var now := PageSpec.SetRange(used, i, 4, true);
    forall p | p in pools + {i * 4096}
      ensures Marked(now, p)
    {
      if p in pools { assert Marked(used, p); }
    }
  }

  lemma {:induction false} PoolMeans(pools: set<nat>, s: PageSpec.Pages)
    requires Owned(pools, s.used)
    ensures var (t, p) := PageSpec.Alloc(s, 4);
      && |t.used| == |s.used|
      && Owned(pools, t.used)
      && (p != 0 ==> Fresh(pools, p) && Owned(pools + {p}, t.used) && p + 16384 <= 4096 * |s.used|)
  {
    var r := PageSpec.FirstFit(s.used, 4, 0);
    if r.Some? {
      PageSpec.SetRangeAt(s.used, r.value, 4, true);
      forall p | p in pools
        ensures Marked(PageSpec.SetRange(s.used, r.value, 4, true), p)
      {
        assert Marked(s.used, p);
      }
      if r.value > 0 { FreshPool(pools, s.used, r.value); }
    }
  }

  /**
   What asking for a pool comes to: a run at page 0 is marked and comes back as a null pointer, so it
   takes a second attempt to get another.
   */
  ghost function Supply(s: PageSpec.Pages): (PageSpec.Pages, nat)
  {
    var (t, p) := PageSpec.Alloc(s, 4);
    if p != 0 then (t, p) else PageSpec.Alloc(t, 4)
  }

  /** Four free pages in a row off page 0, and off the run at page 0 if that is free. */
  ghost predicate PoolComes(used: seq<bool>)
  {
    exists j: nat :: PageSpec.FreeRun(used, j, 4) && (j >= 4 || (j > 0 && !PageSpec.FreeRun(used, 0, 4)))
  }

  /** A pool is had exactly then. */
  lemma {:induction false} SupplyWhen(s: PageSpec.Pages)
    ensures Supply(s).1 != 0 <==> PoolComes(s.used)
    ensures PageSpec.Alloc(s, 4).1 != 0 ==> Supply(s) == PageSpec.Alloc(s, 4)
    ensures Supply(s).1 != 0 && PageSpec.Alloc(s, 4).1 == 0 ==>
      var t := PageSpec.Alloc(s, 4).0; PageSpec.Alloc(t, 4) == Supply(t) == Supply(s)
  {
    var r := PageSpec.FirstFit(s.used, 4, 0);
    if r == Some(0) {
      AfterPageZero(s.used);
      var u := PageSpec.SetRange(s.used, 0, 4, true);
      var q := PageSpec.FirstFit(u, 4, 0);
      assert q.Some? ==> PageSpec.FreeRun(u, q.value, 4) && q.value >= 4;
    }
  }

  /** With the first four pages marked the free runs left are those from page 4 on. */
  lemma {:induction false} AfterPageZero(used: seq<bool>)
    requires PageSpec.FreeRun(used, 0, 4)
    ensures var u := PageSpec.SetRange(used, 0, 4, true);
      forall j: nat :: PageSpec.FreeRun(u, j, 4) <==> j >= 4 && PageSpec.FreeRun(used, j, 4)
  {
    PageSpec.SetRangeAt(used, 0, 4, true);
    var u := PageSpec.SetRange(used, 0, 4, true);
    forall j: nat
      ensures PageSpec.FreeRun(u, j, 4) <==> j >= 4 && PageSpec.FreeRun(used, j, 4)
    {
      if PageSpec.FreeRun(u, j, 4) {
        assert !u[j];
        forall i | j <= i < j + 4 ensures !used[i] { assert !u[i]; }
      }
    }
  }

  lemma {:induction false} SupplyMeans(pools: set<nat>, s: PageSpec.Pages)
    requires Owned(pools, s.used)
    ensures var (t, p) := Supply(s);
      && |t.used| == |s.used| && Owned(pools, t.used)
      && (p != 0 ==> Fresh(pools, p) && Owned(pools + {p}, t.used))
    ensures PageSpec.Alloc(s, 4).1 != 0 ==> Supply(s) == PageSpec.Alloc(s, 4)
    ensures Supply(s).1 != 0 && PageSpec.Alloc(s, 4).1 == 0 ==>
      var t := PageSpec.Alloc(s, 4).0; PageSpec.Alloc(t, 4) == Supply(t) == Supply(s)
  {
    hide PageSpec.Alloc, Owned, Fresh, PoolComes;
    PoolMeans(pools, s);
    PoolMeans(pools, PageSpec.Alloc(s, 4).0);
    SupplyWhen(s);
  }

  /** The heap after one more pool is asked for; without pages only the page allocator has been asked. */
  ghost function WithPool(h: Heap, pools: set<nat>, s: PageSpec.Pages): (Heap, set<nat>, PageSpec.Pages)
  {
    var (t, p) := PageSpec.Alloc(s, 4);
    if p == 0 then (h, pools, t) else (AddPool(h, p), pools + {p}, t)
  }

  ghost function WithPools(h: Heap, pools: set<nat>, s: PageSpec.Pages, n: nat): (Heap, set<nat>, PageSpec.Pages)
  {
    if n == 0 then (h, pools, s)
    else
      var w := WithPools(h, pools, s, n - 1);
      WithPool(w.0, w.1, w.2)
  }

  // ----- pieces -----

  lemma {:induction false} WellFormedPlaced(h: Heap, pools: set<nat>)
    requires WellFormed(h, pools)
    ensures Placed(h)
  {
  }

  /** New memory holds no header. */
  lemma {:induction false} PoolAway(bs: Blocks, pools: set<nat>, p: nat, x: nat)
    requires Tiled(bs, pools) && Fresh(pools, p) && x in bs
    ensures x + 24 + bs[x].size <= p || p + 16384 <= x
  {
    var y: nat := if x <= p then p else x;
    assert Holds(bs, x, y) ==> InBlocks(bs, y);
    assert InPool(p, y) ==> !InPools(pools, y);
  }

  /** A pool becomes one free block at the head of the list. */
  method InstallPool(mem: array<byte>, head: nat, p: nat, ghost h: Heap, ghost pools: set<nat>)
    requires mem.Length <= U64 && WellFormed(h, pools) && Represents(View(mem), head, h)
    requires Fresh(pools, p) && p + 16384 <= mem.Length
    modifies mem
    ensures Represents(View(mem), p, AddPool(h, p))
    ensures PayloadsKept(old(View(mem)), View(mem), Live(h.blocks))
  {
    hide View, HeaderAt, Kept, Wrote, Listed, Linked, Stored, Apart, PayloadsKept, Live, InPools, InBlocks, AddPool;
    ghost var m := View(mem);
    WellFormedPlaced(h, pools);
    HeadOfList(m, head, h);
    CurrThere(m, head, h, 0);
    PutFresh(mem, p, 16360, head);
    forall x | x in h.blocks
      ensures Away(x, p)
    {
      PoolAway(h.blocks, pools, p, x);
    }
    PoolStored(m, View(mem), head, h, p);
    PoolMisses(m, View(mem), h, pools, p, Header(16360, head, 0, MAGIC));
  }

  lemma {:induction false} PoolMisses(m: seq<byte>, m': seq<byte>, h: Heap, pools: set<nat>, p: nat, hd: Header)
    requires Tiled(h.blocks, pools) && Fresh(pools, p) && Wrote(m, m', p, hd)
    ensures PayloadsKept(m, m', Live(h.blocks))
  {
    hide Tiled, HeaderAt, Fresh;
    forall u, i | u in Live(h.blocks) && u + 24 <= i < u + 24 + Live(h.blocks)[u] && i < |m|
      ensures m'[i] == m[i]
    {
      PoolAway(h.blocks, pools, p, u);
    }
  }

  /** Writing inside one payload leaves every header, and so the heap, as it is. */
  lemma {:induction false} PayloadWrite(m: seq<byte>, m': seq<byte>, head: nat, h: Heap, a: nat)
    requires Placed(h) && Represents(m, head, h) && a in h.blocks
    requires |m'| == |m| && forall i :: 0 <= i < |m| && !(a + 24 <= i < End(h.blocks, a)) ==> m'[i] == m[i]
    ensures Represents(m', head, h)
  {
    forall x | x in h.blocks
      ensures x + 24 <= |m| && HeaderAt(m', x) == HeaderAt(m, x)
    {
      SameHeader(m, m', h.blocks, a, x);
    }
    hide HeaderAt, Apart;
    forall x | x in h.blocks
      ensures Recorded(m', x, h.blocks[x])
    {
      RecordedAt(m, h.blocks, x);
    }
    forall k: nat | k < |h.free|
      ensures LinkAt(m', h.free, k)
    {
      ListedAt(h, k);
      LinkedAt(m, head, h.free, k);
    }
  }

  lemma {:induction false} SameHeader(m: seq<byte>, m': seq<byte>, bs: Blocks, a: nat, x: nat)
    requires Apart(bs) && Stored(m, bs) && a in bs && x in bs
    requires |m'| == |m| && forall i :: 0 <= i < |m| && !(a + 24 <= i < End(bs, a)) ==> m'[i] == m[i]
    ensures x + 24 <= |m| && HeaderAt(m', x) == HeaderAt(m, x)
  {
    RecordedAt(m, bs, x);
    assert a < x ==> End(bs, a) <= x;
    assert forall i :: x <= i < x + 24 ==> m'[i] == m[i];
    assert m'[x..x + 8] == m[x..x + 8] && m'[x + 8..x + 16] == m[x + 8..x + 16]
      && m'[x + 17..x + 20] == m[x + 17..x + 20];
  }

  // ----- the object -----

  class KernelHeap {
    const mem: array<byte>
    const pages: PageAllocator.Manager
    var freeList: nat
    ghost var heap: Heap
    ghost var pools: set<nat>

    ghost predicate Valid()
      reads this, mem, pages, pages.bitmap, pages.framesStack
    {
      && mem.Length <= U64 && Represents(View(mem), freeList, heap) && WellFormed(heap, pools)
      && pages.Valid() && mem != pages.bitmap && (mem as object) != pages.framesStack
      && 4096 * pages.totalPages <= mem.Length
      && Owned(pools, pages.State().used)
    }

    constructor (m: array<byte>, p: PageAllocator.Manager)
      requires m.Length <= U64 && p.Valid() && m != p.bitmap && (m as object) != p.framesStack
      requires 4096 * p.totalPages <= m.Length
      ensures Valid() && mem == m && pages == p && heap == Heap(map[], []) && pools == {}
    {
      mem, pages, freeList := m, p, 0;
      heap, pools := Heap(map[], []), {};
    }

    /** `add_pool`: four pages become one free block, or nothing changes but the page allocator. */
    method AddNewPool()
      requires Valid()
      modifies this, mem, pages`freePages, pages`stackTop, pages.bitmap
      ensures Valid()
      ensures PayloadsKept(old(View(mem)), View(mem), Live(old(heap).blocks))
      ensures (heap, pools, pages.State()) == WithPool(old(heap), old(pools), old(pages.State()))
      ensures var p := PageSpec.Alloc(old(pages.State()), 4).1; p != 0 ==> Fresh(old(pools), p)
      ensures Live(heap.blocks) == Live(old(heap).blocks)
    {
      hide View, Represents, WellFormed, Live, PayloadsKept, Owned, PageSpec.Alloc, PageAllocator.Marks, AddPool, Fresh;
      PoolMeans(pools, pages.State());
      var p := pages.Pmalloc(4);
      if p == 0 {
        Unchanged(View(mem), Live(heap.blocks));
        return;
      }
      KeepWithPool(heap, pools, p);
      PoolLive(heap, pools, p);
      InstallPool(mem, freeList, p, heap, pools);
      freeList := p;
      heap, pools := AddPool(heap, p), pools + {p};
    }

    /** `kmalloc_init`. */
    method Init()
      requires Valid()
      modifies this, mem, pages`freePages, pages`stackTop, pages.bitmap
      ensures Valid()
      ensures (heap, pools, pages.State()) == WithPools(old(heap), old(pools), old(pages.State()), 4)
      ensures PayloadsKept(old(View(mem)), View(mem), Live(old(heap).blocks))
    {
      hide View, Represents, WellFormed, Live, PayloadsKept, Owned, PageSpec.Alloc, PageAllocator.Marks, WithPool;
      ghost var h, ps, s, m := heap, pools, pages.State(), View(mem);
      Unchanged(m, Live(h.blocks));
      for i := 0 to 4
        invariant Valid()
        invariant (heap, pools, pages.State()) == WithPools(h, ps, s, i)
        invariant PayloadsKept(m, View(mem), Live(h.blocks)) && Live(heap.blocks) == Live(h.blocks)
      {
        ghost var m1 := View(mem);
        AddNewPool();
        PayloadsKeptTrans(m, m1, View(mem), Live(h.blocks), Live(h.blocks));
      }
    }

    /** First fit over the list: the block found is split, flagged and unlinked. */
    method TakeFirst(n: nat) returns (ptr: nat)
      requires Valid()
      modifies this`freeList, this`heap, mem
      ensures Valid()
      ensures PayloadsKept(old(View(mem)), View(mem), Live(old(heap).blocks))
      ensures var r := FitOf(old(heap), n);
        if r.None? then ptr == 0 && heap == old(heap) && View(mem) == old(View(mem))
        else ptr == old(heap).free[r.value] + 24 && heap == Take(old(heap), r.value, n)
    {
      hide View, Represents, Live, PayloadsKept, Owned, PageAllocator.Marks, Take, Tiled, Listed, Fit;
      WellFormedPlaced(heap, pools);
      ListedAll(heap);
      Unchanged(View(mem), Live(heap.blocks));
      ghost var i := FitPlace(heap, n);
      var prev, curr := FindFit(mem, freeList, n, heap);
      if curr == 0 {
        return 0;
      }
      BlockRecorded(View(mem), freeList, heap, curr);
      var good := GoodMagic(mem, curr);
      ptr := 0;
      if !good {
        return;
      }
      TakeKeeps(heap, pools, i, n);
      freeList := TakeBlock(mem, freeList, prev, curr, n, heap, i);
      heap := Take(heap, i, n);
      ptr := curr + 24;
    }

    /** `kmalloc`, with its retries: a second one when the first pool comes back at address 0, which counts as none. */
    method Kmalloc(size: nat) returns (ptr: nat)
      requires Valid() && size < U64
      requires Obtainable(heap, size, Supply(pages.State()).1)
      modifies this, mem, pages`freePages, pages`stackTop, pages.bitmap
      ensures Valid()
      ensures PayloadsKept(old(View(mem)), View(mem), Live(old(heap).blocks))
      ensures Granting(old(heap), old(pools), size, Supply(old(pages.State())).1, heap, pools, ptr)
      ensures pages.State() == if size == 0 || FitOf(old(heap), Rounded(size)).Some? then old(pages.State())
                               else Supply(old(pages.State())).0
      decreases if size == 0 || FitOf(heap, Rounded(size)).Some? then 0
                else if PageSpec.Alloc(pages.State(), 4).1 != 0 then 1 else 2
    {
      hide View, Represents, Tiled, Listed, Live, PayloadsKept, Owned, Supply, PageSpec.Alloc, PageAllocator.Marks,
        AddPool, Fresh, Take, Rounded, Granting, FitOf;
      ghost var s, p := pages.State(), Supply(pages.State()).1;
      ghost var m := View(mem);
      SupplyMeans(pools, s);
      RoundedTwice(size);
      GrantingMeans(heap, pools, size, p);
      Unchanged(m, Live(heap.blocks));
      if size == 0 { return 0; }
      var n := Rounded(size);
      ptr := TakeFirst(n);
      if ptr != 0 { return; }
      ghost var h, ps := heap, pools;
      AddNewPool();
      ghost var m1 := View(mem);
      ghost var h1, ps1, p1 := heap, pools, Supply(pages.State()).1;
      if PageSpec.Alloc(s, 4).1 != 0 {
        AddedFits(h, p, n);
        PoolLive(h, ps, p);
      }
      ptr := Kmalloc(n);
      if PageSpec.Alloc(s, 4).1 != 0 {
        GrantingFit(h1, ps1, n, p1, heap, pools, ptr);
      } else {
        GrantingRounded(h, ps, size, p, heap, pools, ptr);
      }
      PayloadsKeptTrans(m, m1, View(mem), Live(h.blocks), Live(h.blocks));
    }

    /** `kfree`: a null pointer, a header without the magic and a block already free are left alone. */
    method Kfree(ptr: nat)
      requires Valid() && Freeable(View(mem), heap, ptr)
      modifies this`freeList, this`heap, mem
      ensures Valid()
      ensures ptr == 0 || !Genuine(old(View(mem)), ptr) ==> View(mem) == old(View(mem)) && heap == old(heap)
      ensures ptr != 0 && Genuine(old(View(mem)), ptr) ==>
        && heap == Release(old(heap), ptr - 24)
        && PayloadsKept(old(View(mem)), View(mem), Live(old(heap).blocks) - {ptr - 24})
    {
      hide View, Represents, Tiled, Listed, Live, PayloadsKept, Owned, PageAllocator.Marks, Release, HeaderAt;
      if ptr == 0 { return; }
      var a := ptr - 24;
      var good := GoodMagic(mem, a);
      if !good { return; }
      var used := GetUsed(mem, a);
      if used == 0 { return; }
      ReleaseKeeps(heap, pools, a);
      freeList := FreeBlock(mem, freeList, a, heap, pools);
      heap := Release(heap, a);
    }

    /** The moving part of `krealloc`: a new block, the old bytes in front, the old block freed. */
    method Move(ptr: nat, size: nat) returns (r: nat)
      requires Valid() && 0 < size && size + 15 < U64 && ptr >= 24
      requires ptr - 24 in heap.blocks && heap.blocks[ptr - 24].used && heap.blocks[ptr - 24].size < size
      requires Obtainable(heap, size, Supply(pages.State()).1)
      modifies this, mem, pages`freePages, pages`stackTop, pages.bitmap
      ensures Valid()
      ensures Moving(old(heap), old(pools), size, Supply(old(pages.State())).1, ptr - 24, heap, pools, r)
      ensures BytesMoved(old(View(mem)), View(mem), ptr, r, old(heap).blocks[ptr - 24].size)
      ensures PayloadsKept(old(View(mem)), View(mem), Live(old(heap).blocks) - {ptr - 24})
    {
      hide View, Represents, Tiled, Listed, Live, PayloadsKept, Owned, Supply, PageSpec.Alloc, PageAllocator.Marks,
        Release, HeaderAt, Copied, Moving, BytesMoved, Obtainable, Granting, Rounded, Fresh, Legal, Step, Apart;
      ghost var m, h, ps, p := View(mem), heap, pools, Supply(pages.State()).1;
      ghost var a := ptr - 24;
      RoundedCovers(size);
      r := Kmalloc(size);
      ghost var m1, g := View(mem), heap;
      ghost var b := r - 24;
      GrantingLive(h, ps, size, p, g, pools, r, a);
      BlockRecorded(m1, freeList, g, a);
      BlockRecorded(m1, freeList, g, b);
      WellFormedPlaced(g, pools);
      BlocksApart(g, a, b);
      var n := GetSize(mem, ptr - 24);
      MemCpy(mem, r, ptr, n);
      ghost var m2 := View(mem);
      CopyInside(m1, m2, freeList, g, a, b);
      BlockRecorded(m2, freeList, g, a);
      Kfree(ptr);
      MovingMeans(h, ps, size, p, a, g, pools, r);
      MovedMemory(m, m1, m2, View(mem), h.blocks, g.blocks, a, b);
    }

    /**
     `krealloc`. A block that is large enough stays; otherwise the old bytes are the first bytes of
     the new block, and no other block in use changes.
     */
    method Krealloc(ptr: nat, size: nat) returns (r: nat)
      requires Valid() && size + 15 < U64
      requires Resizable(View(mem), heap, ptr)
      requires ptr == 0 || (Tagged(View(mem), ptr) && 0 < size && heap.blocks[ptr - 24].size < size) ==>
        Obtainable(heap, size, Supply(pages.State()).1)
      modifies this, mem, pages`freePages, pages`stackTop, pages.bitmap
      ensures Valid()
      ensures ptr == 0 ==>
        && Granting(old(heap), old(pools), size, Supply(old(pages.State())).1, heap, pools, r)
        && PayloadsKept(old(View(mem)), View(mem), Live(old(heap).blocks))
      ensures ptr != 0 && !Tagged(old(View(mem)), ptr) ==> r == 0 && View(mem) == old(View(mem)) && heap == old(heap)
      ensures ptr != 0 && Tagged(old(View(mem)), ptr) ==>
        if size == 0 then
          && r == 0 && heap == Release(old(heap), ptr - 24)
          && PayloadsKept(old(View(mem)), View(mem), Live(old(heap).blocks) - {ptr - 24})
        else if old(heap).blocks[ptr - 24].size >= size then
          r == ptr && View(mem) == old(View(mem)) && heap == old(heap)
        else
          && Moving(old(heap), old(pools), size, Supply(old(pages.State())).1, ptr - 24, heap, pools, r)
          && BytesMoved(old(View(mem)), View(mem), ptr, r, old(heap).blocks[ptr - 24].size)
          && PayloadsKept(old(View(mem)), View(mem), Live(old(heap).blocks) - {ptr - 24})
    {
      hide View, Represents, Tiled, Listed, Live, PayloadsKept, Owned, Supply, PageSpec.Alloc, PageAllocator.Marks,
        Release, HeaderAt, Moving, BytesMoved, Obtainable, Granting;
      if ptr == 0 {
        r := Kmalloc(size);
        return;
      }
      TaggedGenuine(View(mem), freeList, heap, ptr);
      if size == 0 {
        Kfree(ptr);
        return 0;
      }
      var good := GoodMagic(mem, ptr - 24);
      if !good { return 0; }
      var n := GetSize(mem, ptr - 24);
      if n >= size { return ptr; }
      r := Move(ptr, size);
    }
  }

  /** The bytes in front of the pointer carry the magic. */
  ghost predicate Tagged(m: seq<byte>, ptr: nat)
    requires 24 <= ptr <= |m|
  {
    HeaderAt(m, ptr - 24).magic == MAGIC
  }

  /** What carries the magic is a block in use. */
  ghost predicate Resizable(m: seq<byte>, h: Heap, ptr: nat)
  {
    ptr != 0 ==> 24 <= ptr <= |m| && (Tagged(m, ptr) ==> ptr - 24 in h.blocks && h.blocks[ptr - 24].used)
  }

  lemma {:induction false} TaggedGenuine(m: seq<byte>, head: nat, h: Heap, ptr: nat)
    requires Represents(m, head, h) && Resizable(m, h, ptr) && ptr != 0
    ensures Tagged(m, ptr) <==> Genuine(m, ptr)
    ensures Tagged(m, ptr) ==> HeaderAt(m, ptr - 24).size == h.blocks[ptr - 24].size
  {
    if Tagged(m, ptr) { BlockRecorded(m, head, h, ptr - 24); }
  }

  lemma {:induction false} BlocksApart(h: Heap, a: nat, b: nat)
    requires Placed(h) && a in h.blocks && b in h.blocks && a != b
    ensures Apart(h.blocks) && (End(h.blocks, a) <= b || End(h.blocks, b) <= a)
  {
  }

  /** A request, then the release of `a`. */
  ghost predicate Moving(h: Heap, pools: set<nat>, size: nat, p: nat, a: nat, h': Heap, pools': set<nat>, ptr: nat)
  {
    exists g :: Granting(h, pools, size, p, g, pools', ptr) && WellFormed(g, pools') && a in g.blocks
      && g.blocks[a].used
                && h' == Release(g, a)
  }

  lemma {:induction false} MovingMeans(
    h: Heap, pools: set<nat>, size: nat, p: nat, a: nat, g: Heap, pools': set<nat>, ptr: nat)
    requires Granting(h, pools, size, p, g, pools', ptr) && WellFormed(g, pools') && a in g.blocks && g.blocks[a].used
    ensures Moving(h, pools, size, p, a, Release(g, a), pools', ptr)
  {
  }

  ghost predicate BytesMoved(m: seq<byte>, m': seq<byte>, from: nat, to: nat, n: nat)
  {
    from + n <= |m| && to + n <= |m'| && m'[to..to + n] == m[from..from + n]
  }

  /** The block handed out is not the live block `a`, is large enough, and `a` stays as it is. */
  lemma {:induction false} GrantingLive(
    h: Heap, pools: set<nat>, size: nat, p: nat, g: Heap, pools': set<nat>, ptr: nat, a: nat)
    requires Granting(h, pools, size, p, g, pools', ptr) && size > 0 && a in h.blocks && h.blocks[a].used
    ensures WellFormed(g, pools') && ptr >= 24
    ensures ptr - 24 != a && ptr - 24 !in Live(h.blocks)
    ensures ptr - 24 in g.blocks && g.blocks[ptr - 24].used && g.blocks[ptr - 24].size >= Rounded(size)
    ensures a in g.blocks && g.blocks[a] == h.blocks[a]
    ensures Live(g.blocks) == Live(h.blocks)[ptr - 24 := g.blocks[ptr - 24].size]
  {
    hide Tiled, Listed;
    StepKeeps(h, pools, Malloc(size, p));
    StepLive(h, pools, Malloc(size, p));
    assert a in Live(h.blocks);
    assert a in Live(g.blocks) && Live(g.blocks)[a] == Live(h.blocks)[a];
  }

  lemma {:induction false} CopyInside(m: seq<byte>, m': seq<byte>, head: nat, h: Heap, a: nat, b: nat)
    requires Placed(h) && Represents(m, head, h) && a in h.blocks && b in h.blocks
      && h.blocks[b].size >= h.blocks[a].size
    requires End(h.blocks, a) <= |m| && End(h.blocks, b) <= |m| && m' == Copied(m, b + 24, a + 24, h.blocks[a].size)
    ensures Represents(m', head, h)
  {
    hide Placed, Represents, Copied;
    CopiedMeans(m, m', b + 24, a + 24, h.blocks[a].size);
    PayloadWrite(m, m', head, h, b);
  }

  /** Copied into the new block and kept from there on, the old payload is the front of the new one. */
  lemma {:induction false} MovedBytes(
    m: seq<byte>, m1: seq<byte>, m2: seq<byte>, m3: seq<byte>, live: map<nat, nat>, now: map<nat, nat>, a: nat, b: nat)
    requires a in live && b in now && live[a] <= now[b]
    requires a + 24 + live[a] <= |m1| && b + 24 + now[b] <= |m1|
    requires PayloadsKept(m, m1, live) && m2 == Copied(m1, b + 24, a + 24, live[a]) && PayloadsKept(m2, m3, now)
    ensures BytesMoved(m, m3, a + 24, b + 24, live[a])
  {
    hide Copied;
    var n := live[a];
    CopiedMeans(m1, m2, b + 24, a + 24, n);
    forall i | b + 24 <= i < b + 24 + n
      ensures m3[i] == m[a + (i - b)]
    {
      assert m3[i] == m2[i] && m1[a + (i - b)] == m[a + (i - b)];
    }
  }

  /** A copy into block `b` reaches no payload that lies apart from it. */
  lemma {:induction false} CopyMisses(
    m: seq<byte>, m1: seq<byte>, m2: seq<byte>, rest: map<nat, nat>, a: nat, b: nat, n: nat)
    requires a + 24 + n <= |m1| && b + 24 + n <= |m1| && m2 == Copied(m1, b + 24, a + 24, n)
    requires PayloadsKept(m, m1, rest) && forall u :: u in rest ==> u + 24 + rest[u] <= b || b + 24 + n <= u
    ensures PayloadsKept(m, m2, rest)
  {
    hide Copied;
    CopiedMeans(m1, m2, b + 24, a + 24, n);
  }

  /** Every other block in use lies apart from the one handed out, and keeps its size. */
  lemma {:induction false} OthersApart(bs: Blocks, cs: Blocks, a: nat, b: nat)
    requires Apart(cs) && a in bs && bs[a].used && b in cs && b !in Live(bs) && a != b
    requires Live(cs) == Live(bs)[b := cs[b].size]
    ensures forall u :: u in Live(bs) - {a} ==>
      && u in Live(cs) - {a} && (Live(cs) - {a})[u] == (Live(bs) - {a})[u] == Live(bs)[u]
      && (u + 24 + Live(bs)[u] <= b || b + 24 + cs[b].size <= u)
  {
    forall u | u in Live(bs) - {a}
      ensures u in Live(cs) - {a} && (Live(cs) - {a})[u] == Live(bs)[u]
      ensures u + 24 + Live(bs)[u] <= b || b + 24 + cs[b].size <= u
    {
      assert u in Live(cs) && Live(cs)[u] == Live(bs)[u];
      assert u in cs && cs[u].size == Live(bs)[u];
      assert u < b ==> End(cs, u) <= b;
      assert b < u ==> End(cs, b) <= u;
    }
  }

  /** What the three steps of a move did to memory. */
  lemma {:induction false} MovedMemory(
    m: seq<byte>, m1: seq<byte>, m2: seq<byte>, m3: seq<byte>, bs: Blocks, cs: Blocks, a: nat, b: nat)
    requires a in bs && bs[a].used && a in cs && b in cs && cs[a] == bs[a] && cs[b].used
    requires cs[b].size >= bs[a].size && a != b
    requires Apart(cs) && End(cs, a) <= |m1| && End(cs, b) <= |m1|
    requires Live(cs) == Live(bs)[b := cs[b].size] && b !in Live(bs)
    requires PayloadsKept(m, m1, Live(bs)) && m2 == Copied(m1, b + 24, a + 24, bs[a].size)
    requires PayloadsKept(m2, m3, Live(cs) - {a})
    ensures BytesMoved(m, m3, a + 24, b + 24, bs[a].size)
    ensures PayloadsKept(m, m3, Live(bs) - {a})
  {
    hide Copied, PayloadsKept, BytesMoved, Apart;
    var live, now := Live(bs), Live(cs) - {a};
    assert a in live && live[a] == bs[a].size && b in now && now[b] == cs[b].size;
    MovedBytes(m, m1, m2, m3, live, now, a, b);
    OthersApart(bs, cs, a, b);
    PayloadsSub(m, m1, live, live - {a});
    CopyMisses(m, m1, m2, live - {a}, a, b, bs[a].size);
    PayloadsSub(m2, m3, now, live - {a});
    PayloadsKeptTrans(m, m2, m3, live - {a}, live - {a});
  }

  /** The bytes in front of the pointer say that it is a block in use. */
  ghost predicate Genuine(m: seq<byte>, ptr: nat)
    requires 24 <= ptr <= |m|
  {
    HeaderAt(m, ptr - 24).magic == MAGIC && HeaderAt(m, ptr - 24).used != 0
  }

  /** What looks like a block in use is one. */
  ghost predicate Freeable(m: seq<byte>, h: Heap, ptr: nat)
  {
    ptr != 0 ==> 24 <= ptr <= |m| && (Genuine(m, ptr) ==> ptr - 24 in h.blocks && h.blocks[ptr - 24].used)
  }

  /** The first block on the list that is large enough. */
  ghost function FitOf(h: Heap, n: nat): (r: Option<nat>)
    requires Listed(h.blocks, h.free)
    ensures r.Some? ==> r.value < |h.free| && h.free[r.value] in h.blocks && h.blocks[h.free[r.value]].size >= n
  {
    ListedAll(h);
    Fit(h, n, 0)
  }

  /** A block fits, or a pool `p` can be had and is large enough. */
  ghost predicate Obtainable(h: Heap, size: nat, p: nat)
    requires Listed(h.blocks, h.free)
  {
    size == 0 || FitOf(h, Rounded(size)).Some? || (Rounded(size) <= 16360 && p != 0)
  }

  /** What a request does, as one step of the heap as a value. */
  ghost predicate Granting(h: Heap, pools: set<nat>, size: nat, p: nat, h': Heap, pools': set<nat>, ptr: nat)
  {
    && WellFormed(h, pools) && Legal(h, pools, Malloc(size, p))
    && var r := Step(h, pools, Malloc(size, p));
       h' == r.0 && pools' == r.1 && ptr == (if size == 0 then 0 else r.2 + 24)
  }

  lemma {:induction false} Unchanged(m: seq<byte>, live: map<nat, nat>)
    ensures PayloadsKept(m, m, live)
  {
  }

  lemma {:induction false} KeepWithPool(h: Heap, pools: set<nat>, p: nat)
    requires WellFormed(h, pools) && Fresh(pools, p)
    ensures WellFormed(AddPool(h, p), pools + {p})
  {
    PoolKeeps(h, pools, p);
  }

  lemma {:induction false} BlockRecorded(m: seq<byte>, head: nat, h: Heap, a: nat)
    requires Represents(m, head, h) && a in h.blocks
    ensures a + 24 + h.blocks[a].size <= |m| && HeaderAt(m, a).magic == MAGIC
    ensures HeaderAt(m, a).size == h.blocks[a].size && HeaderAt(m, a).used == if h.blocks[a].used then 1 else 0
  {
    RecordedAt(m, h.blocks, a);
  }

  lemma {:induction false} AddedFits(h: Heap, p: nat, n: nat)
    requires Listed(h.blocks, h.free) && Listed(AddPool(h, p).blocks, AddPool(h, p).free) && n <= 16360
    ensures FitOf(AddPool(h, p), n) == Some(0) && AddPool(h, p).free[0] == p
  {
  }

  lemma {:induction false} GrantingMeans(h: Heap, pools: set<nat>, size: nat, p: nat)
    requires WellFormed(h, pools) && Obtainable(h, size, p) && (p != 0 ==> Fresh(pools, p))
    ensures size == 0 ==> Granting(h, pools, size, p, h, pools, 0)
    ensures size > 0 ==>
      var r := FitOf(h, Rounded(size));
      if r.Some? then Granting(h, pools, size, p, Take(h, r.value, Rounded(size)), pools, h.free[r.value] + 24)
      else p != 0 && Granting(h, pools, size, p, Take(AddPool(h, p), 0, Rounded(size)), pools + {p}, p + 24)
  {
  }

  lemma {:induction false} GrantingFit(
    h: Heap, pools: set<nat>, size: nat, p: nat, h': Heap, pools': set<nat>, ptr: nat)
    requires Granting(h, pools, size, p, h', pools', ptr) && size > 0 && FitOf(h, Rounded(size)).Some?
    ensures var i := FitOf(h, Rounded(size)).value;
      h' == Take(h, i, Rounded(size)) && pools' == pools && ptr == h.free[i] + 24
  {
  }

  /** A request and the same request rounded are served alike. */
  lemma {:induction false} GrantingRounded(
    h: Heap, pools: set<nat>, size: nat, p: nat, h': Heap, pools': set<nat>, ptr: nat)
    requires size > 0 && Rounded(Rounded(size)) == Rounded(size)
      && Granting(h, pools, Rounded(size), p, h', pools', ptr)
    ensures Granting(h, pools, size, p, h', pools', ptr)
  {
  }
}
