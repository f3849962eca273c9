/**
 The page allocator as a value: one flag a page, the count of free pages and the cache of single
 pages, and what whole runs of its calls do to the pages handed out.
 */
module PageSpec {
  import opened Bytes

  const STACK_ENTRIES := 1024

  datatype Pages = Pages(used: seq<bool>, free: nat, stack: seq<nat>)

  ghost predicate FreeRun(used: seq<bool>, i: nat, n: nat)
  {
    i + n <= |used| && forall k :: i <= k < i + n ==> !used[k]
  }

  ghost predicate IsFirstFit(used: seq<bool>, n: nat, i: nat)
  {
    FreeRun(used, i, n) && forall j :: 0 <= j < i ==> !FreeRun(used, j, n)
  }

  ghost predicate NoFit(used: seq<bool>, n: nat) { forall j :: 0 <= j ==> !FreeRun(used, j, n) }

  /** How many pages from `i` on are free without a gap. */
  function RunLength(used: seq<bool>, i: nat): (n: nat)
    requires i <= |used|
    ensures i + n <= |used|
    ensures forall k :: i <= k < i + n ==> !used[k]
    ensures i + n < |used| ==> used[i + n]
    decreases |used| - i
  {
    if i == |used| || used[i] then 0 else 1 + RunLength(used, i + 1)
  }

  /** Naive first fit. */
  function FirstFit(used: seq<bool>, n: nat, i: nat): (r: Option<nat>)
    requires i <= |used| && n > 0
    ensures r.Some? ==> i <= r.value && FreeRun(used, r.value, n)
    ensures r.Some? ==> forall j :: i <= j < r.value ==> !FreeRun(used, j, n)
    ensures r.None? ==> forall j :: i <= j ==> !FreeRun(used, j, n)
    decreases |used| - i
  {
    if i == |used| then None
    else if RunLength(used, i) >= n then Some(i)
    else
      assert !FreeRun(used, i, n) by { assert i + n > |used| || used[i + RunLength(used, i)]; }
      FirstFit(used, n, i + 1)
  }

  /** Aligned first fit: only multiples of `a` are tried. */
  function AlignedFit(used: seq<bool>, n: nat, a: nat, i: nat): (r: Option<nat>)
    requires n > 0 && a > 0
    ensures r.Some? ==> FreeRun(used, r.value, n)
    decreases if Times(i, a) + n <= |used| then |used| - Times(i, a) else 0
  {
    if Times(i, a) + n > |used| then None
    else if RunLength(used, Times(i, a)) >= n then Some(Times(i, a))
    else AlignedFit(used, n, a, i + 1)
  }

  /** It finds the least multiple at which a run of free pages starts, if there is one. */
  lemma {:induction false} AlignedFitIsLeast(used: seq<bool>, n: nat, a: nat, i: nat)
    requires n > 0 && a > 0
    ensures var r := AlignedFit(used, n, a, i);
      && (r.None? ==> forall m: nat :: i <= m ==> !FreeRun(used, Times(m, a), n))
      && (r.Some? ==> exists m: nat :: i <= m && r.value == Times(m, a))
      && (r.Some? ==> forall m: nat :: i <= m && Times(m, a) < r.value ==> !FreeRun(used, Times(m, a), n))
    decreases if Times(i, a) + n <= |used| then |used| - Times(i, a) else 0
  {
    var t := Times(i, a);
    if t + n > |used| {
      forall m: nat | i <= m
        ensures !FreeRun(used, Times(m, a), n)
      {
        TimesMono(i, m, a);
      }
    } else if RunLength(used, t) >= n {
      forall m: nat | i <= m
        ensures t <= Times(m, a)
      {
        TimesMono(i, m, a);
      }
    } else {
      AlignedFitIsLeast(used, n, a, i + 1);
      assert !FreeRun(used, t, n);
      forall m: nat | i <= m && Times(m, a) != t
        ensures i + 1 <= m
      {
      }
    }
  }

  function SetRange(used: seq<bool>, i: nat, n: nat, v: bool): (r: seq<bool>)
    requires i + n <= |used|
    ensures |r| == |used|
  {
    used[..i] + seq(n, _ => v) + used[i + n..]
  }

  lemma {:induction false} SetRangeAt(used: seq<bool>, i: nat, n: nat, v: bool)
    requires i + n <= |used|
    ensures forall k :: 0 <= k < |used| ==> SetRange(used, i, n, v)[k] == if i <= k < i + n then v else used[k]
  {
  }

  function ClearCount(used: seq<bool>): (c: nat)
    ensures c <= |used|
  {
    if used == [] then 0 else (if used[|used| - 1] then 0 else 1) + ClearCount(used[..|used| - 1])
  }

  lemma {:induction false} ClearOne(used: seq<bool>, k: nat, v: bool)
    requires k < |used|
    ensures ClearCount(used[k := v]) + (if used[k] then 0 else 1) == ClearCount(used) + (if v then 0 else 1)
  {
    var n := |used| - 1;
    if k < n {
      ClearOne(used[..n], k, v);
      assert used[k := v][..n] == used[..n][k := v];
    } else {
      assert used[k := v][..n] == used[..n];
    }
  }

  /** Marking a free run costs its length; clearing a used one gives it back. */
  lemma {:induction false} ClearRange(used: seq<bool>, i: nat, n: nat, v: bool)
    requires i + n <= |used| && forall k :: i <= k < i + n ==> used[k] == !v
    ensures ClearCount(SetRange(used, i, n, v)) == if v then ClearCount(used) - n else ClearCount(used) + n
    decreases n
  {
    if n == 0 {
      assert SetRange(used, i, n, v) == used;
    } else {
      var u := SetRange(used, i, n - 1, v);
      ClearRange(used, i, n - 1, v);
      ClearOne(u, i + n - 1, v);
      assert SetRange(used, i, n, v) == u[i + n - 1 := v];
    }
  }

  // ----- the calls -----

  function Wrap(x: int): nat { x % U64 }

  /** The state after `n` pages from `i` on are marked. */
  function Taken(s: Pages, i: nat, n: nat): Pages
    requires i + n <= |s.used|
  {
    s.(used := SetRange(s.used, i, n, true), free := Wrap(s.free - n))
  }

  function Alloc(s: Pages, pages: nat): (Pages, nat)
  {
    if pages == 0 then (s, 0)
    else if pages == 1 && s.stack != [] then
      var top := s.stack[|s.stack| - 1];
      (s.(free := Wrap(s.free - 1), stack := s.stack[..|s.stack| - 1]), top * 4096)
    else
      var r := FirstFit(s.used, pages, 0);
      if r.None? then (s, 0)
      else (Taken(s, r.value, pages), r.value * 4096)
  }

  function AllocAligned(s: Pages, pages: nat, alignment: nat): (Pages, nat)
    requires alignment > 0
  {
    if pages == 0 || alignment % 4096 != 0 then (s, 0)
    else
      var r := AlignedFit(s.used, pages, alignment / 4096, 0);
      if r.None? then (s, 0)
      else (Taken(s, r.value, pages), r.value * 4096)
  }

  /** A single page goes to the cache too, as long as that has room. */
  function Release(s: Pages, ptr: nat, pages: nat): Pages
    requires ptr / 4096 + pages <= |s.used| || ptr == 0 || pages == 0
  {
    var start := ptr / 4096;
    if ptr == 0 || pages == 0 || start >= |s.used| then s
    else
      Pages(SetRange(s.used, start, pages, false), Wrap(s.free + pages),
            if pages == 1 && |s.stack| < STACK_ENTRIES then s.stack + [start] else s.stack)
  }

  lemma {:induction false} AllocMeans(s: Pages, pages: nat)
    ensures pages == 0 ==> Alloc(s, pages) == (s, 0)
    ensures pages == 1 && s.stack != [] ==>
      Alloc(s, pages) == (Pages(s.used, Wrap(s.free - 1), s.stack[..|s.stack| - 1]), s.stack[|s.stack| - 1] * 4096)
    ensures pages > 0 && (pages != 1 || s.stack == []) ==>
      (NoFit(s.used, pages) ==> Alloc(s, pages) == (s, 0))
      && forall i: nat :: IsFirstFit(s.used, pages, i) ==> Alloc(s, pages) == (Taken(s, i, pages), i * 4096)
  {
    if pages > 0 && (pages != 1 || s.stack == []) {
      var r := FirstFit(s.used, pages, 0);
      forall i: nat | IsFirstFit(s.used, pages, i)
        ensures r == Some(i)
      {
      }
    }
  }

  lemma {:induction false} AllocAlignedMeans(s: Pages, pages: nat, alignment: nat)
    requires alignment > 0
    ensures pages == 0 || alignment % 4096 != 0 ==> AllocAligned(s, pages, alignment) == (s, 0)
    ensures pages > 0 && alignment % 4096 == 0 ==>
      var r := AlignedFit(s.used, pages, alignment / 4096, 0);
      AllocAligned(s, pages, alignment) == if r.None? then (s, 0) else (Taken(s, r.value, pages), r.value * 4096)
  {
  }

  // ----- one call after the other -----

  /** A run of several pages given back at once leaves the allocator as it was. */
  lemma {:induction false} AllocThenRelease(s: Pages, pages: nat)
    requires pages >= 2 && s.free < U64 && Alloc(s, pages).1 != 0
    ensures var (t, ptr) := Alloc(s, pages);
      ptr % 4096 == 0 && ptr / 4096 + pages <= |s.used| == |t.used| && Release(t, ptr, pages) == s
  {
    TakenUndone(s, FirstFit(s.used, pages, 0).value, pages);
  }

  lemma {:induction false} AlignedThenRelease(s: Pages, pages: nat, alignment: nat)
    requires pages >= 2 && alignment > 0 && s.free < U64 && AllocAligned(s, pages, alignment).1 != 0
    ensures var (t, ptr) := AllocAligned(s, pages, alignment);
      ptr % 4096 == 0 && ptr / 4096 + pages <= |s.used| == |t.used| && Release(t, ptr, pages) == s
  {
    TakenUndone(s, AlignedFit(s.used, pages, alignment / 4096, 0).value, pages);
  }

  lemma {:induction false} TakenUndone(s: Pages, i: nat, n: nat)
    requires n >= 2 && i > 0 && s.free < U64 && FreeRun(s.used, i, n)
    ensures |Taken(s, i, n).used| == |s.used| && i * 4096 / 4096 == i && Release(Taken(s, i, n), i * 4096, n) == s
  {
    var marked := SetRange(s.used, i, n, true);
    SetRangeAt(s.used, i, n, true);
    SetRangeAt(marked, i, n, false);
    assert SetRange(marked, i, n, false) == s.used;
    WrapUndone(s.free, n);
  }

  lemma {:induction false} WrapUndone(x: nat, n: nat)
    requires x < U64
    ensures Wrap(Wrap(x - n) + n) == x && Wrap(Wrap(x + n) - n) == x
  {
    WrapAgain(x - n, n);
    WrapAgain(x + n, 0 - n);
  }

  lemma {:induction false} WrapAgain(x: int, n: int)
    ensures Wrap(Wrap(x) + n) == Wrap(x + n)
  {
    var q := x / U64;
    assert x == U64 * q + Wrap(x);
    assert x + n == U64 * q + (Wrap(x) + n);
  }

  /** A single page given back is the next one handed out, and its flag stays clear. */
  lemma {:induction false} ReleaseThenAlloc(s: Pages, p: nat)
    requires 0 < p < |s.used| && s.free < U64 && |s.stack| < 1024
    ensures Alloc(Release(s, p * 4096, 1), 1) == (s.(used := s.used[p := false]), p * 4096)
  {
    SetRangeAt(s.used, p, 1, false);
    assert SetRange(s.used, p, 1, false) == s.used[p := false];
    assert (s.stack + [p])[..|s.stack|] == s.stack;
    WrapUndone(s.free, 1);
  }

  // ----- runs -----

  datatype Extent = Extent(start: nat, len: nat)

  /** The allocator and the extents its clients hold; a null result hands nothing out. */
  datatype World = World(s: Pages, owned: seq<Extent>)

  /** Free returns the `k`-th extent held, whole. */
  datatype Call = Malloc(pages: nat) | MallocAligned(pages: nat, alignment: nat) | Free(k: nat)

  ghost predicate Apart(a: Extent, b: Extent) { a.start + a.len <= b.start || b.start + b.len <= a.start }

  ghost predicate Exclusive(owned: seq<Extent>)
  {
    forall i, j :: 0 <= i < j < |owned| ==> Apart(owned[i], owned[j])
  }

  ghost predicate Marked(used: seq<bool>, e: Extent)
  {
    && 0 < e.start && 0 < e.len && e.start + e.len <= |used|
    && forall p :: e.start <= p < e.start + e.len ==> used[p]
  }

  function Hand(owned: seq<Extent>, ptr: nat, pages: nat): seq<Extent>
  {
    if ptr == 0 then owned else owned + [Extent(ptr / 4096, pages)]
  }

  function Drop(owned: seq<Extent>, k: nat): seq<Extent>
    requires k < |owned|
  {
    owned[..k] + owned[k + 1..]
  }

  function Step(w: World, c: Call): World
    requires c.MallocAligned? ==> c.alignment > 0
    requires c.Free? && c.k < |w.owned| ==> w.owned[c.k].start + w.owned[c.k].len <= |w.s.used|
  {
    match c {
      case Malloc(pages) =>
        var r := Alloc(w.s, pages);
        World(r.0, Hand(w.owned, r.1, pages))
      case MallocAligned(pages, alignment) =>
        var r := AllocAligned(w.s, pages, alignment);
        World(r.0, Hand(w.owned, r.1, pages))
      case Free(k) =>
        if k >= |w.owned| then w
        else
          var e := w.owned[k];
          World(Release(w.s, e.start * 4096, e.len), Drop(w.owned, k))
    }
  }

  /** What every clean run keeps. */
  ghost predicate Sound(w: World)
  {
    && w.s.stack == []
    && |w.s.used| < U64
    && w.s.free == ClearCount(w.s.used)
    && Exclusive(w.owned)
    && forall i :: 0 <= i < |w.owned| ==> Marked(w.s.used, w.owned[i])
  }

  /** A call that is not the free of a single page. */
  ghost predicate CleanCall(w: World, c: Call)
  {
    match c {
      case Malloc(_) => true
      case MallocAligned(_, alignment) => alignment > 0
      case Free(k) => k < |w.owned| ==> w.owned[k].len >= 2
    }
  }

  /** Marking a free run and handing it out keeps everything. */
  lemma {:induction false} TakeSound(w: World, i: nat, n: nat)
    requires Sound(w) && n > 0 && FreeRun(w.s.used, i, n)
    ensures Sound(World(Taken(w.s, i, n), Hand(w.owned, i * 4096, n)))
  {
    hide ClearCount, SetRange;
    ClearRange(w.s.used, i, n, true);
    var used' := SetRange(w.s.used, i, n, true);
    SetRangeAt(w.s.used, i, n, true);
    forall j | 0 <= j < |w.owned|
      ensures Marked(used', w.owned[j]) && Apart(w.owned[j], Extent(i, n))
    {
      var e := w.owned[j];
      assert Marked(w.s.used, e);
      var p := if e.start < i then i else e.start;
      assert e.start <= p < e.start + e.len ==> w.s.used[p];
    }
    assert Marked(used', Extent(i, n)) || i == 0;
  }

  lemma {:induction false} FreeSound(w: World, k: nat)
    requires Sound(w) && k < |w.owned| && w.owned[k].len >= 2
    ensures w.owned[k].start + w.owned[k].len <= |w.s.used|
    ensures Sound(Step(w, Free(k)))
  {
    hide ClearCount, SetRange;
    var e := w.owned[k];
    assert Marked(w.s.used, e);
    ClearRange(w.s.used, e.start, e.len, false);
    var used', owned' := SetRange(w.s.used, e.start, e.len, false), Drop(w.owned, k);
    assert Step(w, Free(k)) == World(Pages(used', Wrap(w.s.free + e.len), []), owned');
    forall j | 0 <= j < |owned'|
      ensures Marked(used', owned'[j])
    {
      var i := if j < k then j else j + 1;
      assert owned'[j] == w.owned[i];
      StaysMarked(w.s.used, w.owned[i], e);
    }
    DropExclusive(w.owned, k);
  }

  lemma {:induction false} StaysMarked(used: seq<bool>, a: Extent, e: Extent)
    requires Marked(used, a) && Marked(used, e) && Apart(a, e)
    ensures Marked(SetRange(used, e.start, e.len, false), a)
  {
  }

  lemma {:induction false} DropExclusive(owned: seq<Extent>, k: nat)
    requires Exclusive(owned) && k < |owned|
    ensures Exclusive(Drop(owned, k))
  {
    var d := Drop(owned, k);
    forall i, j | 0 <= i < j < |d|
      ensures Apart(d[i], d[j])
    {
      var a, b := if i < k then i else i + 1, if j < k then j else j + 1;
      assert d[i] == owned[a] && d[j] == owned[b];
    }
  }

  lemma {:induction false} StepSound(w: World, c: Call)
    requires Sound(w) && CleanCall(w, c)
    ensures c.Free? && c.k < |w.owned| ==> w.owned[c.k].start + w.owned[c.k].len <= |w.s.used|
    ensures Sound(Step(w, c))
  {
    assert w.s.stack == [];
    assert c.Free? && c.k < |w.owned| ==> Marked(w.s.used, w.owned[c.k]);
    hide Sound, FreeRun, SetRange, FirstFit, AlignedFit;
    match c {
      case Malloc(pages) =>
        if pages > 0 {
          var r := FirstFit(w.s.used, pages, 0);
          if r.Some? { TakeSound(w, r.value, pages); }
        }
      case MallocAligned(pages, alignment) =>
        if pages > 0 && alignment % 4096 == 0 {
          var r := AlignedFit(w.s.used, pages, alignment / 4096, 0);
          if r.Some? { TakeSound(w, r.value, pages); }
        }
      case Free(k) =>
        if k < |w.owned| { FreeSound(w, k); }
    }
  }

  ghost predicate Callable(w: World, c: Call)
  {
    && (c.MallocAligned? ==> c.alignment > 0)
    && (c.Free? && c.k < |w.owned| ==> w.owned[c.k].start + w.owned[c.k].len <= |w.s.used|)
  }

  ghost predicate Runnable(w: World, cs: seq<Call>)
    decreases |cs|
  {
    cs != [] ==> Callable(w, cs[0]) && Runnable(Step(w, cs[0]), cs[1..])
  }

  ghost function Run(w: World, cs: seq<Call>): World
    requires Runnable(w, cs)
    decreases |cs|
  {
    if cs == [] then w else Run(Step(w, cs[0]), cs[1..])
  }

  /** No call of the run frees a single page. */
  ghost predicate Clean(w: World, cs: seq<Call>)
    requires Runnable(w, cs)
    decreases |cs|
  {
    cs != [] ==> CleanCall(w, cs[0]) && Clean(Step(w, cs[0]), cs[1..])
  }

  /**
   In every run without a single-page free the extents held are disjoint and marked, the cache
   stays empty and the free count is the number of clear flags.
   */
  lemma {:induction false} CleanRunSound(w: World, cs: seq<Call>)
    requires Sound(w) && Runnable(w, cs) && Clean(w, cs)
    ensures Sound(Run(w, cs))
    decreases |cs|
  {
    if cs != [] {
      StepSound(w, cs[0]);
      CleanRunSound(Step(w, cs[0]), cs[1..]);
    }
  }

  predicate Asks(c: Call) { !c.Free? && (c.MallocAligned? ==> c.alignment > 0) }

  ghost predicate AllocOnly(cs: seq<Call>)
  {
    forall i :: 0 <= i < |cs| ==> Asks(cs[i])
  }

  lemma {:induction false} AllocOnlyRuns(w: World, cs: seq<Call>)
    requires AllocOnly(cs)
    ensures Runnable(w, cs) && Clean(w, cs)
    decreases |cs|
  {
    if cs != [] {
      AllocOnlyRuns(Step(w, cs[0]), cs[1..]);
    }
  }

  /** The calls that make a freed single page come back twice. */
  function Twice(p: nat): seq<Call>
  {
    [Malloc(1), MallocAligned(1, p * 4096), MallocAligned(1, p * 4096)]
  }

  lemma {:induction false} TwiceAllocates(p: nat)
    requires p > 0
    ensures AllocOnly(Twice(p))
  {
    assert p * 4096 > 0;
  }

  /** A page-aligned request for one page at a multiple of `p` gets page 0 or page `p`. */
  lemma {:induction false} AlignedGets(s: Pages, p: nat)
    requires 0 < p < |s.used| && !s.used[p]
    ensures var r := AllocAligned(s, 1, p * 4096);
      r.1 == if s.used[0] then p * 4096 else 0
    ensures var r := AllocAligned(s, 1, p * 4096);
      |r.0.used| == |s.used| && (!s.used[0] ==> r.0.used[0] && !r.0.used[p])
  {
    assert p * 4096 % 4096 == 0 && p * 4096 / 4096 == p;
    assert Times(0, p) == 0 && Times(1, p) == p;
    assert RunLength(s.used, 0) >= 1 <==> !s.used[0];
    assert RunLength(s.used, p) >= 1;
    assert AlignedFit(s.used, 1, p, 1) == Some(p);
  }

  /**
   After a single-page free the allocator can hand the page to two owners; after the free of a
   longer extent no sequence of requests can.
   */
  lemma {:induction false} SinglePageFree(w: World, k: nat)
    requires Sound(w) && k < |w.owned|
    ensures Callable(w, Free(k))
    ensures (forall cs :: AllocOnly(cs) ==>
        Runnable(Step(w, Free(k)), cs) && Exclusive(Run(Step(w, Free(k)), cs).owned))
      <==> w.owned[k].len >= 2
  {
    var e := w.owned[k];
    assert Marked(w.s.used, e);
    if e.len >= 2 {
      FreeSound(w, k);
      forall cs | AllocOnly(cs)
        ensures Runnable(Step(w, Free(k)), cs) && Exclusive(Run(Step(w, Free(k)), cs).owned)
      {
        AllocOnlyRuns(Step(w, Free(k)), cs);
        CleanRunSound(Step(w, Free(k)), cs);
      }
    } else {
      TwiceOwned(w, k);
    }
  }

  lemma {:induction false} RunThree(w: World, a: Call, b: Call, c: Call)
    requires Asks(a) && Asks(b) && Asks(c)
    ensures Runnable(w, [a, b, c]) && Run(w, [a, b, c]) == Step(Step(Step(w, a), b), c)
  {
    hide Step;
    var w1 := Step(w, a);
    var w2 := Step(w1, b);
    RunOne(w2, c);
    assert [b, c][1..] == [c];
    assert Runnable(w1, [b, c]) && Run(w1, [b, c]) == Run(w2, [c]);
    assert [a, b, c][1..] == [b, c];
  }

  lemma {:induction false} RunOne(w: World, c: Call)
    requires Asks(c)
    ensures Runnable(w, [c]) && Run(w, [c]) == Step(w, c)
  {
    hide Step;
    assert [c][1..] == [];
  }

  lemma {:induction false} TwiceOwned(w: World, k: nat)
    requires Sound(w) && k < |w.owned| && w.owned[k].len == 1
    ensures Callable(w, Free(k))
    ensures var cs, w1 := Twice(w.owned[k].start), Step(w, Free(k));
      AllocOnly(cs) && Runnable(w1, cs) && !Exclusive(Run(w1, cs).owned)
  {
    hide Step, Exclusive, AllocOnly, Sound, Runnable, Run, Callable;
    FreedSingle(w, k);
    var w1, p := Step(w, Free(k)), w.owned[k].start;
    TwiceGiven(w1, p);
    TwiceAllocates(p);
    var c := MallocAligned(1, p * 4096);
    RunThree(w1, Malloc(1), c, c);
  }

  /** A single page freed is cached and clear. */
  lemma {:induction false} FreedSingle(w: World, k: nat)
    requires Sound(w) && k < |w.owned| && w.owned[k].len == 1
    ensures Callable(w, Free(k))
    ensures var w1, p := Step(w, Free(k)), w.owned[k].start;
      w1.s.stack == [p] && 0 < p < |w1.s.used| && !w1.s.used[p]
  {
    assert Marked(w.s.used, w.owned[k]);
  }

  /** One page cached and clear: the cache gives it to one owner and the search to another. */
  lemma {:induction false} TwiceGiven(w1: World, p: nat)
    requires w1.s.stack == [p] && 0 < p < |w1.s.used| && !w1.s.used[p]
    ensures var c := MallocAligned(1, p * 4096); !Exclusive(Step(Step(Step(w1, Malloc(1)), c), c).owned)
  {
    hide AllocAligned;
    var w2, c := Step(w1, Malloc(1)), MallocAligned(1, p * 4096);
    assert w2.s.used == w1.s.used && w2.owned == w1.owned + [Extent(p, 1)];
    AlignedGets(w2.s, p);
    var w3 := Step(w2, c);
    var w4 := Step(w3, c);
    if w2.s.used[0] {
      assert w3.owned == w2.owned + [Extent(p, 1)];
    } else {
      assert w3.owned == w2.owned;
      AlignedGets(w3.s, p);
      assert w4.owned == w3.owned + [Extent(p, 1)];
    }
    var n := |w1.owned|;
    assert w4.owned[n] == Extent(p, 1) && w4.owned[n + 1] == Extent(p, 1);
    assert !Apart(w4.owned[n], w4.owned[n + 1]);
  }
}
