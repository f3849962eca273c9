/** The page allocator on its bitmap, proved against the allocator as a value. */
module PageAllocator {
  import opened Bytes
  import opened PageSpec
  import opened PageBitmap

  const NOT_FOUND := 0xFFFF_FFFF_FFFF_FFFF

  /** The scan keeps its place inside a word in a 32-bit `int`, which bounds the pages it can skip. */
  const MAX_PAGES := 0x7FFF_FFC0

  /** One flag a page; bits of the last word behind the last page are not looked at. */
  function Flags(bm: seq<byte>, total: nat): (f: seq<bool>)
    requires total <= 8 * |bm|
    ensures |f| == total
  {
    seq(total, p requires 0 <= p < total => InUse(bm, p))
  }

  /** The flags of the pages as the bitmap array has them now. */
  ghost function Marks(bitmap: array<byte>, total: nat): (f: seq<bool>)
    requires total <= 8 * bitmap.Length
    reads bitmap
    ensures |f| == total
  {
    Flags(bitmap[..], total)
  }

  /** A whole number of 64-bit words, so that reading the last one stays inside. */
  predicate WholeWords(length: nat, total: nat) { (total + 63) / 64 * 8 <= length }

  lemma {:induction false} WordOf(bm: seq<byte>, total: nat, w: nat, b: nat)
    requires WholeWords(|bm|, total) && b < 64 && 64 * w + b < total
    ensures 8 * w + 8 <= |bm| && total <= 8 * |bm|
    ensures Bit(Le(bm[8 * w..8 * w + 8]), b) == InUse(bm, 64 * w + b)
  {
    var p := 64 * w + b;
    assert p / 8 == 8 * w + b / 8 && p % 8 == b % 8;
    WordBit(bm[8 * w..8 * w + 8], b / 8, b % 8);
  }

  lemma {:induction false} FullMeansUsed(bm: seq<byte>, total: nat, w: nat, b: nat)
    requires WholeWords(|bm|, total) && b < 64 && 64 * w + b < total
    requires 8 * w + 8 <= |bm| && Le(bm[8 * w..8 * w + 8]) == FULL
    ensures InUse(bm, 64 * w + b)
  {
    var p := 64 * w + b;
    assert p / 8 == 8 * w + b / 8 && p % 8 == b % 8;
    FullWord(bm[8 * w..8 * w + 8], b / 8, b % 8);
  }

  /** A start inside a free run that is too short is too short as well. */
  lemma {:induction false} ShortRun(used: seq<bool>, i: nat, n: nat)
    requires i <= |used| && RunLength(used, i) < n
    ensures forall j :: i <= j <= i + RunLength(used, i) ==> !FreeRun(used, j, n)
  {
    var e := i + RunLength(used, i);
    forall j | i <= j <= e
      ensures !FreeRun(used, j, n)
    {
      assert j + n > |used| || used[e];
    }
  }

  /** The check of the following pages, across words, bit by bit. */
  method CheckRun(bitmap: array<byte>, total: nat, idx: nat, pages: nat) returns (run: nat)
    requires total <= 8 * bitmap.Length && idx < total && pages > 0
    requires !Marks(bitmap, total)[idx]
    ensures run == Min(RunLength(Marks(bitmap, total), idx), pages)
  {
    hide RunLength;
    ghost var used := Marks(bitmap, total);
    run := 1;
    var checkIdx := idx + 1;
    while run < pages && checkIdx < total
      invariant checkIdx == idx + run <= total && 1 <= run <= pages
      invariant forall k :: idx <= k < checkIdx ==> !used[k]
    {
      var taken := Bit(bitmap[checkIdx / 8], checkIdx % 8);
      assert taken == used[checkIdx];
      if taken { break; }
      run := run + 1;
      checkIdx := checkIdx + 1;
    }
    RunIs(used, idx, run);
  }

  lemma {:induction false} RunIs(used: seq<bool>, i: nat, n: nat)
    requires i + n <= |used| && forall k :: i <= k < i + n ==> !used[k]
    ensures RunLength(used, i) >= n
    ensures i + n == |used| || used[i + n] ==> RunLength(used, i) == n
  {
  }

  datatype Scan = Found(at: nat) | Exhausted | NextWord

  lemma {:induction false} WordInside(bitmap: array<byte>, total: nat, w: nat)
    requires WholeWords(bitmap.Length, total) && 64 * w < total
    ensures 8 * w + 8 <= bitmap.Length
  {
  }

  lemma {:induction false} MarkOfBit(bitmap: array<byte>, total: nat, w: nat, b: nat)
    requires WholeWords(bitmap.Length, total) && total <= 8 * bitmap.Length && b < 64 && 64 * w + b < total
    ensures 8 * w + 8 <= bitmap.Length && Bit(Le(bitmap[8 * w..8 * w + 8]), b) == Marks(bitmap, total)[64 * w + b]
  {
    assert bitmap[8 * w..8 * w + 8] == bitmap[..][8 * w..8 * w + 8];
    WordOf(bitmap[..], total, w, b);
  }

  /** The bits of one word that is not full. */
  method ScanWord(bitmap: array<byte>, total: nat, pages: nat, w: nat) returns (r: Scan)
    requires WholeWords(bitmap.Length, total) && total <= 8 * bitmap.Length && total < MAX_PAGES
    requires pages > 0 && 64 * w < total
    requires forall j :: 0 <= j < 64 * w ==> !FreeRun(Marks(bitmap, total), j, pages)
    ensures r.Found? ==> IsFirstFit(Marks(bitmap, total), pages, r.at)
    ensures r.Exhausted? ==> NoFit(Marks(bitmap, total), pages)
    ensures r.NextWord? ==> forall j :: 0 <= j < 64 * (w + 1) ==> !FreeRun(Marks(bitmap, total), j, pages)
  {
    hide ToInt32, Flags, Marks, Le;
    ghost var used := Marks(bitmap, total);
    WordInside(bitmap, total, w);
    var word := Le(bitmap[8 * w..8 * w + 8]);
    var b: int := 0;
    while b < 64
      invariant 0 <= b
      invariant forall j :: 0 <= j < 64 * w + b ==> !FreeRun(used, j, pages)
      decreases 64 - b
    {
      var idx := 64 * w + b;
      if idx >= total {
        BehindTheEnd(used, idx, pages);
        return Exhausted;
      }
      MarkOfBit(bitmap, total, w, b);
      if !Bit(word, b) {
        var run := CheckRun(bitmap, total, idx, pages);
        if run == pages {
          return Found(idx);
        }
        ShortRun(used, idx, pages);
        SmallInt32(b + run);
        b := ToInt32(b + run);
      } else {
        assert used[idx];
      }
      b := b + 1;
    }
    r := NextWord;
  }

  /**
   The word-skipping search: the least start of a free run of the requested length, and the
   not-found value exactly when there is none, whatever the bits behind the last page are.
   */
  method FindFreeRun(bitmap: array<byte>, total: nat, pages: nat) returns (r: nat)
    requires WholeWords(bitmap.Length, total) && total <= 8 * bitmap.Length && total < MAX_PAGES
    ensures r != NOT_FOUND ==> pages > 0 && IsFirstFit(Marks(bitmap, total), pages, r)
    ensures r == NOT_FOUND <==> pages == 0 || NoFit(Marks(bitmap, total), pages)
  {
    hide Flags, Marks;
    if pages == 0 {
      return NOT_FOUND;
    }
    var totalWords := (total + 63) / 64;
    var w := 0;
    while w < totalWords
      invariant 0 <= w <= totalWords
      invariant forall j :: 0 <= j < 64 * w ==> !FreeRun(Marks(bitmap, total), j, pages)
    {
      var word := Le(bitmap[8 * w..8 * w + 8]);
      if word == FULL {
        FullSkipped(bitmap, total, pages, w);
      } else {
        var s := ScanWord(bitmap, total, pages, w);
        match s {
          case Found(at) => return at;
          case Exhausted => return NOT_FOUND;
          case NextWord =>
        }
      }
      w := w + 1;
    }
    BehindTheEnd(Marks(bitmap, total), 64 * w, pages);
    return NOT_FOUND;
  }

  /** No run starts in a word that is full. */
  lemma {:induction false} FullSkipped(bitmap: array<byte>, total: nat, pages: nat, w: nat)
    requires WholeWords(bitmap.Length, total) && total <= 8 * bitmap.Length && pages > 0
    requires 8 * w + 8 <= bitmap.Length && Le(bitmap[8 * w..8 * w + 8]) == FULL
    ensures forall j :: 64 * w <= j < 64 * (w + 1) ==> !FreeRun(Marks(bitmap, total), j, pages)
  {
    assert bitmap[8 * w..8 * w + 8] == bitmap[..][8 * w..8 * w + 8];
    forall j | 64 * w <= j < 64 * (w + 1)
      ensures !FreeRun(Marks(bitmap, total), j, pages)
    {
      if j < total {
        FullMeansUsed(bitmap[..], total, w, j - 64 * w);
        assert Marks(bitmap, total)[j];
      }
    }
  }

  lemma {:induction false} BehindTheEnd(used: seq<bool>, from: nat, pages: nat)
    requires pages > 0 && |used| <= from
    ensures forall j :: from <= j ==> !FreeRun(used, j, pages)
  {
  }

  // ----- marking -----

  lemma {:induction false} FlagsMark(bm: seq<byte>, total: nat, p: nat, v: bool)
    requires total <= 8 * |bm| && p < total
    ensures Flags(Mark(bm, p, v), total) == Flags(bm, total)[p := v]
  {
    forall q | 0 <= q < total
      ensures InUse(Mark(bm, p, v), q) == if q == p then v else InUse(bm, q)
    {
      MarkOne(bm, p, v, q);
    }
  }

  lemma {:induction false} SetNothing(used: seq<bool>, i: nat, v: bool)
    requires i <= |used|
    ensures SetRange(used, i, 0, v) == used
  {
  }

  lemma {:induction false} SetOneMore(used: seq<bool>, i: nat, n: nat, v: bool)
    requires i + n < |used|
    ensures SetRange(used, i, n + 1, v) == SetRange(used, i, n, v)[i + n := v]
  {
    SetRangeAt(used, i, n, v);
    SetRangeAt(used, i, n + 1, v);
  }

  method BitmapSet(bitmap: array<byte>, total: nat, p: nat, v: bool)
    requires total <= 8 * bitmap.Length && p < total
    modifies bitmap
    ensures Marks(bitmap, total) == old(Marks(bitmap, total))[p := v]
  {
    FlagsMark(bitmap[..], total, p, v);
    bitmap[p / 8] := SetByteBit(bitmap[p / 8], p % 8, v);
    assert bitmap[..] == Mark(old(bitmap[..]), p, v);
  }

  method BitmapGet(bitmap: array<byte>, total: nat, p: nat) returns (v: bool)
    requires total <= 8 * bitmap.Length && p < total
    ensures v == Marks(bitmap, total)[p]
  {
    v := Bit(bitmap[p / 8], p % 8);
  }

  method MarkRange(bitmap: array<byte>, total: nat, start: nat, n: nat, v: bool)
    requires total <= 8 * bitmap.Length && start + n <= total
    modifies bitmap
    ensures Marks(bitmap, total) == SetRange(old(Marks(bitmap, total)), start, n, v)
  {
    hide Marks, SetRange;
    ghost var f := Marks(bitmap, total);
    SetNothing(f, start, v);
    var i := 0;
    while i < n
      invariant 0 <= i <= n
      invariant Marks(bitmap, total) == SetRange(f, start, i, v)
    {
      SetOneMore(f, start, i, v);
      BitmapSet(bitmap, total, start + i, v);
      i := i + 1;
    }
  }

  // ----- the manager -----

  class Manager {
    var bitmap: array<byte>
    var totalPages: nat
    var freePages: nat
    var framesStack: array<nat>
    var stackTop: nat

    constructor (total: nat, bits: array<byte>, stack: array<nat>)
      ensures bitmap == bits && framesStack == stack
      ensures totalPages == total && freePages == 0 && stackTop == 0
    {
      bitmap, framesStack := bits, stack;
      totalPages, freePages, stackTop := total, 0, 0;
    }

    ghost predicate Valid()
      reads this, bitmap, framesStack
    {
      && WholeWords(bitmap.Length, totalPages) && totalPages <= 8 * bitmap.Length && totalPages < MAX_PAGES
      && freePages < U64
      && framesStack.Length == STACK_ENTRIES && stackTop <= STACK_ENTRIES
      && (bitmap as object) != framesStack
    }

    /** The single pages kept for the next request. */
    ghost function Cached(): seq<nat>
      requires stackTop <= framesStack.Length
      reads this`framesStack, this`stackTop, framesStack
    {
      framesStack[..stackTop]
    }

    /** The allocator as a value. */
    ghost function State(): Pages
      requires Valid()
      reads this, bitmap, framesStack
    {
      Pages(Marks(bitmap, totalPages), freePages, Cached())
    }

    /** A run of pages marked and taken off the count. */
    method TakeRun(start: nat, pages: nat) returns (ptr: nat)
      requires Valid() && start + pages <= totalPages
      modifies this`freePages, bitmap
      ensures Valid() && ptr == start * 4096
      ensures State() == Taken(old(State()), start, pages)
    {
      hide Cached, Marks, SetRange;
      MarkRange(bitmap, totalPages, start, pages, true);
      freePages := Wrap(freePages - pages);
      return start * 4096;
    }

    /** The cached page on top. */
    method TakeCached() returns (ptr: nat)
      requires Valid() && stackTop > 0
      modifies this`freePages, this`stackTop
      ensures Valid() && var s := old(State());
        && State() == Pages(s.used, Wrap(s.free - 1), s.stack[..|s.stack| - 1])
        && ptr == s.stack[|s.stack| - 1] * 4096
    {
      hide Marks;
      stackTop := stackTop - 1;
      var phys := framesStack[stackTop];
      freePages := Wrap(freePages - 1);
      assert old(State()).stack[..stackTop] == framesStack[..stackTop];
      return phys * 4096;
    }

    /** `pmalloc` does what naive first fit does. */
    method Pmalloc(pages: nat) returns (ptr: nat)
      requires Valid()
      modifies this`freePages, this`stackTop, bitmap
      ensures Valid() && (State(), ptr) == Alloc(old(State()), pages)
    {
      hide Alloc, Taken, Marks;
      AllocMeans(State(), pages);
      if pages == 0 { return 0; }
      if pages == 1 && stackTop > 0 {
        ptr := TakeCached();
        return;
      }
      var start := FindFreeRun(bitmap, totalPages, pages);
      if start == NOT_FOUND {
        return 0;
      }
      ptr := TakeRun(start, pages);
    }

    /** `pmalloc_aligned`: the least aligned start, or nothing. */
    method PmallocAligned(pages: nat, alignment: nat) returns (ptr: nat)
      requires Valid() && alignment > 0
      modifies this`freePages, bitmap
      ensures Valid() && (State(), ptr) == AllocAligned(old(State()), pages, alignment)
    {
      hide AllocAligned, AlignedFit, Taken, Marks, Cached;
      AllocAlignedMeans(State(), pages, alignment);
      if pages == 0 { return 0; }
      if alignment % 4096 != 0 { return 0; }
      var r := FindAligned(bitmap, totalPages, pages, alignment / 4096);
      if r.None? {
        return 0;
      }
      ptr := TakeRun(r.value, pages);
    }

    /** `pfree`: the flags are cleared whatever they were. */
    method Pfree(ptr: nat, pages: nat)
      requires Valid()
      requires ptr == 0 || pages == 0 || ptr / 4096 >= totalPages || ptr / 4096 + pages <= totalPages
      modifies this`freePages, this`stackTop, bitmap, framesStack
      ensures Valid()
      ensures ptr == 0 || pages == 0 || ptr / 4096 >= totalPages ==> State() == old(State())
      ensures ptr != 0 && pages != 0 && ptr / 4096 < totalPages ==> State() == Release(old(State()), ptr, pages)
    {
      if ptr == 0 || pages == 0 { return; }
      var start := ptr / 4096;
      if start >= totalPages {
        return;
      }
      MarkRange(bitmap, totalPages, start, pages, false);
      if pages == 1 && stackTop < STACK_ENTRIES {
        framesStack[stackTop] := start;
        stackTop := stackTop + 1;
        assert framesStack[..stackTop] == old(framesStack[..stackTop]) + [start];
      }
      freePages := Wrap(freePages + pages);
    }

    /** `pmm_set_region`: exactly these pages change, and a right free count stays right. */
    method SetRegion(base: nat, size: nat, used: bool)
      requires Valid() && (base + size + 4095) / 4096 <= totalPages
      modifies this`freePages, bitmap
      ensures Valid()
      ensures var start, end := base / 4096, (base + size + 4095) / 4096;
        && start <= end
        && State().used == SetRange(old(State()).used, start, end - start, used)
        && State().stack == old(State()).stack
      ensures old(freePages) == ClearCount(old(State()).used) ==> freePages == ClearCount(State().used)
    {
      hide Marks, SetRange, ClearCount, Cached;
      var start, end := base / 4096, (base + size + 4095) / 4096;
      SetPages(start, end, used);
    }

    method SetPages(start: nat, end: nat, used: bool)
      requires Valid() && start <= end <= totalPages
      modifies this`freePages, bitmap
      ensures Valid() && Cached() == old(Cached())
      ensures Marks(bitmap, totalPages) == SetRange(old(Marks(bitmap, totalPages)), start, end - start, used)
      ensures old(freePages) == ClearCount(old(Marks(bitmap, totalPages))) ==>
        freePages == ClearCount(Marks(bitmap, totalPages))
    {
      hide Marks, SetRange, ClearCount, Cached;
      ghost var f := Marks(bitmap, totalPages);
      ghost var counted := freePages == ClearCount(f);
      SetNothing(f, start, used);
      var pg := start;
      while pg < end
        invariant start <= pg <= end && Valid() && Cached() == old(Cached())
        invariant Marks(bitmap, totalPages) == SetRange(f, start, pg - start, used)
        invariant counted ==> freePages == ClearCount(Marks(bitmap, totalPages))
      {
        SetOneMore(f, start, pg - start, used);
        SetPage(pg, used);
        pg := pg + 1;
      }
    }

    /** One page of a region. */
    method SetPage(pg: nat, used: bool)
      requires Valid() && pg < totalPages
      modifies this`freePages, bitmap
      ensures Valid() && Cached() == old(Cached())
      ensures Marks(bitmap, totalPages) == old(Marks(bitmap, totalPages))[pg := used]
      ensures old(freePages) == ClearCount(old(Marks(bitmap, totalPages))) ==>
        freePages == ClearCount(Marks(bitmap, totalPages))
    {
      hide Marks, ClearCount, Cached;
      ghost var now := Marks(bitmap, totalPages);
      ClearOne(now, pg, used);
      var cur := BitmapGet(bitmap, totalPages, pg);
      if cur != used {
        BitmapSet(bitmap, totalPages, pg, used);
        if used {
          if freePages > 0 { freePages := freePages - 1; }
        } else {
          freePages := Wrap(freePages + 1);
        }
      } else {
        assert now[pg := used] == now;
      }
    }
  }

  // ----- the aligned search -----

  method AllFree(bitmap: array<byte>, total: nat, i: nat, pages: nat) returns (ok: bool)
    requires total <= 8 * bitmap.Length && i + pages <= total
    ensures ok <==> FreeRun(Marks(bitmap, total), i, pages)
  {
    ghost var f := Marks(bitmap, total);
    var j := 0;
    while j < pages
      invariant 0 <= j <= pages
      invariant forall k :: i <= k < i + j ==> !f[k]
    {
      var taken := BitmapGet(bitmap, total, i + j);
      if taken { return false; }
      j := j + 1;
    }
    ok := true;
  }

  /** Multiples of `a` in turn. */
  method FindAligned(bitmap: array<byte>, total: nat, pages: nat, a: nat) returns (r: Option<nat>)
    requires total <= 8 * bitmap.Length && pages > 0 && a > 0
    ensures r == AlignedFit(Marks(bitmap, total), pages, a, 0)
  {
    ghost var f := Marks(bitmap, total);
    var i := 0;
    ghost var m := 0;
    while i + pages <= total
      invariant i == Times(m, a)
      invariant AlignedFit(f, pages, a, 0) == AlignedFit(f, pages, a, m)
      decreases total - i
    {
      var ok := AllFree(bitmap, total, i, pages);
      LongEnough(f, i, pages);
      if ok {
        return Some(i);
      }
      i := NextAligned(i, a, m);
      m := m + 1;
    }
    r := None;
  }

  lemma {:induction false} LongEnough(used: seq<bool>, i: nat, n: nat)
    requires i + n <= |used|
    ensures FreeRun(used, i, n) <==> RunLength(used, i) >= n
  {
    if FreeRun(used, i, n) {
      RunIs(used, i, n);
    }
  }

  method NextAligned(i: nat, a: nat, ghost m: nat) returns (j: nat)
    requires a > 0 && i == Times(m, a)
    ensures j == Times(m + 1, a) > i
  {
    NextMultiple(m, a);
    j := (i / a + 1) * a;
  }

  lemma {:induction false} NextMultiple(m: nat, a: nat)
    requires a > 0
    ensures (Times(m, a) / a + 1) * a == Times(m + 1, a)
    ensures Times(m + 1, a) > Times(m, a)
  {
    QuotRemOf(m, 0, a);
    QuotRemAreDivMod(Times(m, a), a);
    TimesIsProduct(m + 1, a);
  }
}
