/** Bringing the page allocator up from the boot memory map. */
module PageInit {
  import opened Bytes
  import opened PageSpec
  import opened PageBitmap
  import opened PageAllocator

  datatype Kind = Usable | Reclaimable | Reserved

  /** An entry of the memory map, in bytes. */
  datatype Region = Region(base: nat, length: nat, kind: Kind)
  {
    function End(): nat { base + length }
    function FirstPage(): nat { base / 4096 }
    function LastPage(): nat { (base + length) / 4096 }
  }

  const STACK_BYTES := 8192
  const KERNEL_FIRST := 256
  const KERNEL_LAST := 512

  /** The end of the highest memory that counts. */
  function Highest(rs: seq<Region>): (h: nat)
    ensures forall i :: 0 <= i < |rs| && rs[i].kind != Reserved ==> rs[i].End() <= h
    ensures h == 0 || exists i :: 0 <= i < |rs| && rs[i].kind != Reserved && rs[i].End() == h
  {
    if rs == [] then 0
    else
      var n := |rs| - 1;
      var h := Highest(rs[..n]);
      assert forall i :: 0 <= i < n ==> rs[..n][i] == rs[i];
      if rs[n].kind != Reserved && rs[n].End() > h then rs[n].End() else h
  }

  /** Usable entries are page-aligned and do not overlap. */
  ghost predicate Proper(rs: seq<Region>)
  {
    && (forall i :: 0 <= i < |rs| && rs[i].kind == Usable ==> rs[i].base % 4096 == 0 && rs[i].length % 4096 == 0)
    && (forall i, j :: 0 <= i < j < |rs| && rs[i].kind == Usable && rs[j].kind == Usable ==>
          rs[i].End() <= rs[j].base || rs[j].End() <= rs[i].base)
  }

  predicate InPages(r: Region, p: nat) { r.kind == Usable && r.FirstPage() <= p < r.LastPage() }

  /** Page `p` lies in one of the first `n` usable entries. */
  ghost predicate Covered(rs: seq<Region>, n: nat, p: nat)
    requires n <= |rs|
  {
    exists i :: 0 <= i < n && InPages(rs[i], p)
  }

  /** No page lies in two usable entries. */
  ghost predicate PagesApart(rs: seq<Region>)
  {
    forall i, j, p: nat :: 0 <= i < j < |rs| && InPages(rs[i], p) ==> !InPages(rs[j], p)
  }

  /** The first usable entry with room for `needed` bytes. */
  function Choose(rs: seq<Region>, needed: nat, i: nat): (r: Option<nat>)
    ensures r.Some? ==> i <= r.value < |rs| && rs[r.value].kind == Usable && rs[r.value].length >= needed
    ensures r.Some? ==> forall j :: i <= j < r.value && rs[j].kind == Usable ==> rs[j].length < needed
    ensures r.None? ==> forall j :: i <= j < |rs| && rs[j].kind == Usable ==> rs[j].length < needed
    decreases |rs| - i
  {
    if i >= |rs| then None
    else if rs[i].kind == Usable && rs[i].length >= needed then Some(i)
    else Choose(rs, needed, i + 1)
  }

  function Reduced(r: Region, needed: nat): Region
    requires r.length >= needed
  {
    Region(r.base + needed, r.length - needed, r.kind)
  }

  lemma {:induction false} ReducedApart(rs: seq<Region>, c: nat, needed: nat)
    requires Proper(rs) && c < |rs| && rs[c].length >= needed
    ensures PagesApart(rs[c := Reduced(rs[c], needed)])
  {
    var qs := rs[c := Reduced(rs[c], needed)];
    forall i, j, p: nat | 0 <= i < j < |qs| && InPages(qs[i], p)
      ensures !InPages(qs[j], p)
    {
      assert InPages(rs[i], p);
      assert InPages(qs[j], p) ==> InPages(rs[j], p);
      assert rs[j].kind == Usable ==> rs[i].End() <= rs[j].base || rs[j].End() <= rs[i].base;
    }
  }

  // ----- the steps -----

  /** The pages of one usable entry, all still marked, are cleared and counted. */
  method ClearEntry(m: Manager, first: nat, last: nat)
    requires m.Valid() && first <= last <= m.totalPages
    requires forall p :: first <= p < last ==> Marks(m.bitmap, m.totalPages)[p]
    requires m.freePages == ClearCount(Marks(m.bitmap, m.totalPages))
    modifies m`freePages, m.bitmap
    ensures m.Valid()
    ensures Marks(m.bitmap, m.totalPages) == SetRange(old(Marks(m.bitmap, m.totalPages)), first, last - first, false)
    ensures m.freePages == ClearCount(Marks(m.bitmap, m.totalPages))
  {
    hide Marks, SetRange, ClearCount;
    ghost var f := Marks(m.bitmap, m.totalPages);
    SetNothing(f, first, false);
    var pg := first;
    while pg < last
      invariant first <= pg <= last && m.Valid()
      invariant Marks(m.bitmap, m.totalPages) == SetRange(f, first, pg - first, false)
      invariant m.freePages == ClearCount(Marks(m.bitmap, m.totalPages))
    {
      SetOneMore(f, first, pg - first, false);
      SetRangeAt(f, first, pg - first, false);
      ClearOne(Marks(m.bitmap, m.totalPages), pg, false);
      BitmapSet(m.bitmap, m.totalPages, pg, false);
      m.freePages := m.freePages + 1;
      pg := pg + 1;
    }
  }

  /** Pages set aside: those still clear are marked and leave the count. */
  method ReservePages(m: Manager, first: nat, last: nat)
    requires m.Valid() && first <= last <= m.totalPages
    requires m.freePages == ClearCount(Marks(m.bitmap, m.totalPages))
    modifies m`freePages, m.bitmap
    ensures m.Valid()
    ensures Marks(m.bitmap, m.totalPages) == SetRange(old(Marks(m.bitmap, m.totalPages)), first, last - first, true)
    ensures m.freePages == ClearCount(Marks(m.bitmap, m.totalPages))
  {
    hide Marks, SetRange, ClearCount;
    ghost var f := Marks(m.bitmap, m.totalPages);
    SetNothing(f, first, true);
    var pg := first;
    while pg < last
      invariant first <= pg <= last && m.Valid()
      invariant Marks(m.bitmap, m.totalPages) == SetRange(f, first, pg - first, true)
      invariant m.freePages == ClearCount(Marks(m.bitmap, m.totalPages))
    {
      ghost var now := Marks(m.bitmap, m.totalPages);
      SetOneMore(f, first, pg - first, true);
      ClearOne(now, pg, true);
      var taken := BitmapGet(m.bitmap, m.totalPages, pg);
      if !taken {
        BitmapSet(m.bitmap, m.totalPages, pg, true);
        m.freePages := m.freePages - 1;
      } else {
        assert now[pg := true] == now;
      }
      pg := pg + 1;
    }
  }

  /** All usable entries, one after the other. */
  method ClearEntries(m: Manager, qs: seq<Region>)
    requires m.Valid() && PagesApart(qs)
    requires forall i :: 0 <= i < |qs| && qs[i].kind == Usable ==> qs[i].LastPage() <= m.totalPages
    requires forall p :: 0 <= p < m.totalPages ==> Marks(m.bitmap, m.totalPages)[p]
    requires m.freePages == ClearCount(Marks(m.bitmap, m.totalPages))
    modifies m`freePages, m.bitmap
    ensures m.Valid()
    ensures m.freePages == ClearCount(Marks(m.bitmap, m.totalPages))
    ensures forall p :: 0 <= p < m.totalPages ==> (Marks(m.bitmap, m.totalPages)[p] <==> !Covered(qs, |qs|, p))
  {
    hide Marks, SetRange, ClearCount;
    var i := 0;
    while i < |qs|
      invariant 0 <= i <= |qs| && m.Valid()
      invariant m.freePages == ClearCount(Marks(m.bitmap, m.totalPages))
      invariant forall p :: 0 <= p < m.totalPages ==> (Marks(m.bitmap, m.totalPages)[p] <==> !Covered(qs, i, p))
    {
      if qs[i].kind == Usable {
        ghost var f := Marks(m.bitmap, m.totalPages);
        var first, last := qs[i].base / 4096, (qs[i].base + qs[i].length) / 4096;
        forall p | first <= p < last
          ensures f[p]
        {
          assert InPages(qs[i], p);
        }
        ClearEntry(m, first, last);
        SetRangeAt(f, first, last - first, false);
      }
      forall p | 0 <= p < m.totalPages
        ensures Covered(qs, i + 1, p) <==> Covered(qs, i, p) || InPages(qs[i], p)
      {
      }
      i := i + 1;
    }
  }

  /** What the pages are after boot, from the reduced map and where bitmap and cache were put. */
  ghost predicate BootFlags(qs: seq<Region>, at: nat, bytes: nat, flags: seq<bool>)
  {
    forall p :: 0 <= p < |flags| ==>
      (!flags[p] <==>
        && Covered(qs, |qs|, p)
        && !(at / 4096 <= p < (at + bytes + 4095) / 4096)
        && !((at + bytes) / 4096 <= p < (at + bytes + STACK_BYTES) / 4096)
        && !(KERNEL_FIRST <= p < KERNEL_LAST))
  }

  /** Bytes of bitmap for this many pages. */
  function BitmapBytes(total: nat): (bytes: nat)
    ensures total <= 8 * bytes < total + 8
  {
    (total + 7) / 8
  }

  lemma {:induction false} ReserveThree(f: seq<bool>, a: nat, b: nat, c: nat, d: nat, x: nat, y: nat)
    requires a <= b <= |f| && c <= d <= |f| && x <= y <= |f|
    ensures var g := SetRange(SetRange(SetRange(f, a, b - a, true), c, d - c, true), x, y - x, true);
      forall p :: 0 <= p < |f| ==> (!g[p] <==> !f[p] && !(a <= p < b) && !(c <= p < d) && !(x <= p < y))
  {
    var f1 := SetRange(f, a, b - a, true);
    var f2 := SetRange(f1, c, d - c, true);
    SetRangeAt(f, a, b - a, true);
    SetRangeAt(f1, c, d - c, true);
    SetRangeAt(f2, x, y - x, true);
  }

  /** The bitmap filled with ones: every page is in use. */
  method NewBitmap(total: nat) returns (bits: array<byte>)
    ensures fresh(bits) && WholeWords(bits.Length, total) && total <= 8 * bits.Length
    ensures forall p :: 0 <= p < total ==> Marks(bits, total)[p]
  {
    var bytes := (total + 7) / 8;
    bits := new byte[(total + 63) / 64 * 8];
    var i := 0;
    while i < bytes
      invariant 0 <= i <= bytes
      invariant forall j :: 0 <= j < i ==> bits[j] == 255
    {
      bits[i] := 255;
      i := i + 1;
    }
    forall p | 0 <= p < total
      ensures Marks(bits, total)[p]
    {
      OnesBits(8, p % 8);
    }
  }

  lemma {:induction false} AllUsedCount(f: seq<bool>)
    requires forall p :: 0 <= p < |f| ==> f[p]
    ensures ClearCount(f) == 0
  {
    if f != [] {
      AllUsedCount(f[..|f| - 1]);
    }
  }

  /** Usable entries cleared, then the three ranges set aside. */
  method FillBitmap(m: Manager, qs: seq<Region>, at: nat, bytes: nat)
    requires m.Valid() && PagesApart(qs) && m.totalPages >= KERNEL_LAST
    requires forall i :: 0 <= i < |qs| && qs[i].kind == Usable ==> qs[i].LastPage() <= m.totalPages
    requires (at + bytes + 4095) / 4096 <= m.totalPages && (at + bytes + STACK_BYTES) / 4096 <= m.totalPages
    requires forall p :: 0 <= p < m.totalPages ==> Marks(m.bitmap, m.totalPages)[p]
    requires m.freePages == ClearCount(Marks(m.bitmap, m.totalPages))
    modifies m`freePages, m.bitmap
    ensures m.Valid()
    ensures m.freePages == ClearCount(Marks(m.bitmap, m.totalPages))
    ensures BootFlags(qs, at, bytes, Marks(m.bitmap, m.totalPages))
  {
    hide Marks, SetRange, ClearCount, Covered;
    ClearEntries(m, qs);
    ghost var f := Marks(m.bitmap, m.totalPages);
    ReservePages(m, at / 4096, (at + bytes + 4095) / 4096);
    ReservePages(m, (at + bytes) / 4096, (at + bytes + STACK_BYTES) / 4096);
    ReservePages(m, KERNEL_FIRST, KERNEL_LAST);
    ReserveThree(f, at / 4096, (at + bytes + 4095) / 4096, (at + bytes) / 4096, (at + bytes + STACK_BYTES) / 4096,
                 KERNEL_FIRST, KERNEL_LAST);
  }

  method FindHighest(rs: seq<Region>) returns (highest: nat)
    ensures highest == Highest(rs)
  {
    highest := 0;
    var i := 0;
    while i < |rs|
      invariant 0 <= i <= |rs| && highest == Highest(rs[..i])
    {
      assert rs[..i + 1][..i] == rs[..i] && rs[..i + 1][i] == rs[i];
      if rs[i].kind != Reserved {
        var end := rs[i].base + rs[i].length;
        if end > highest { highest := end; }
      }
      i := i + 1;
    }
    assert rs[..i] == rs;
  }

  method ChooseEntry(rs: seq<Region>, needed: nat) returns (r: Option<nat>)
    ensures r == Choose(rs, needed, 0)
  {
    var i := 0;
    while i < |rs|
      invariant 0 <= i <= |rs| && Choose(rs, needed, 0) == Choose(rs, needed, i)
    {
      if rs[i].kind == Usable && rs[i].length >= needed {
        return Some(i);
      }
      i := i + 1;
    }
    r := None;
  }

  /** Everything the reserved ranges need of the chosen entry. */
  lemma {:induction false} ChosenInside(rs: seq<Region>, c: nat, bytes: nat)
    requires Proper(rs) && c < |rs| && rs[c].kind == Usable && rs[c].length >= bytes + STACK_BYTES
    ensures (rs[c].base + bytes + 4095) / 4096 <= Highest(rs) / 4096
    ensures (rs[c].base + bytes + STACK_BYTES) / 4096 <= Highest(rs) / 4096
    ensures var qs := rs[c := Reduced(rs[c], bytes + STACK_BYTES)];
      forall i :: 0 <= i < |qs| && qs[i].kind == Usable ==> qs[i].LastPage() <= Highest(rs) / 4096
  {
    assert rs[c].End() <= Highest(rs);
    var qs := rs[c := Reduced(rs[c], bytes + STACK_BYTES)];
    forall i | 0 <= i < |qs| && qs[i].kind == Usable
      ensures qs[i].LastPage() <= Highest(rs) / 4096
    {
      assert rs[i].End() <= Highest(rs) && qs[i].End() == rs[i].End();
    }
  }

  /**
   `pmm_init`; null stands for the panic when no usable entry off address 0 has room for bitmap
   and cache. Otherwise the free count is right, and a page is free exactly when the reduced map
   covers it and none of the three reserved ranges does.
   */
  method Boot(rs: seq<Region>) returns (m: Manager?, ghost c: nat)
    requires Proper(rs) && 512 <= Highest(rs) / 4096 < MAX_PAGES
    ensures var bytes := BitmapBytes(Highest(rs) / 4096);
      var r := Choose(rs, bytes + STACK_BYTES, 0);
      && (m == null <==> r.None? || rs[r.value].base == 0)
      && (m != null ==>
            && r == Some(c)
            && m.Valid() && fresh(m) && m.totalPages == Highest(rs) / 4096 && m.stackTop == 0
            && m.freePages == ClearCount(Marks(m.bitmap, m.totalPages))
            && BootFlags(rs[c := Reduced(rs[c], bytes + STACK_BYTES)], rs[c].base, bytes,
                         Marks(m.bitmap, m.totalPages)))
  {
    hide Marks, ClearCount, Choose, Highest, Covered, BootFlags, PagesApart;
    var highest := FindHighest(rs);
    var total := highest / 4096;
    var bytes := (total + 7) / 8;
    var needed := bytes + STACK_BYTES;
    var r := ChooseEntry(rs, needed);
    if r.None? || rs[r.value].base == 0 {
      return null, 0;
    }
    c := r.value;
    var at := rs[r.value].base;
    var qs := rs[r.value := Reduced(rs[r.value], needed)];
    ChosenInside(rs, c, bytes);
    ReducedApart(rs, c, needed);
    var bits := NewBitmap(total);
    var stack := new nat[STACK_ENTRIES];
    m := new Manager(total, bits, stack);
    AllUsedCount(Marks(bits, total));
    FillBitmap(m, qs, at, bytes);
  }

  /** Page `p` lies wholly in a usable entry of the map. */
  ghost predicate WhollyUsable(rs: seq<Region>, p: nat)
  {
    exists i :: 0 <= i < |rs| && rs[i].kind == Usable && rs[i].base <= 4096 * p && 4096 * p + 4096 <= rs[i].End()
  }

  /**
   In bytes of the map: after boot a page is free exactly when it lies wholly in usable memory, not
   in the second MiB, and not wholly in the stretch that bitmap and cache were given.
   */
  lemma {:induction false} FreeAfterBoot(rs: seq<Region>, c: nat, bytes: nat, flags: seq<bool>, p: nat)
    requires Proper(rs) && c < |rs| && rs[c].kind == Usable && rs[c].length >= bytes + STACK_BYTES
    requires BootFlags(rs[c := Reduced(rs[c], bytes + STACK_BYTES)], rs[c].base, bytes, flags)
    requires p < |flags|
    ensures !flags[p] <==>
      && WhollyUsable(rs, p) && !(0x10_0000 <= 4096 * p < 0x20_0000)
      && !(rs[c].base <= 4096 * p && 4096 * p + 4096 <= rs[c].base + bytes + 8192)
  {
    var q := Reduced(rs[c], bytes + STACK_BYTES);
    var qs := rs[c := q];
    if i :| 0 <= i < |rs| && rs[i].kind == Usable && rs[i].base <= 4096 * p && 4096 * p + 4096 <= rs[i].End() {
      assert InPages(rs[i], p);
      assert i != c ==> InPages(qs[i], p);
      assert i != c ==> rs[i].End() <= rs[c].base || rs[c].End() <= rs[i].base;
      assert i == c && !(4096 * p + 4096 <= rs[c].base + bytes + 8192) ==> InPages(qs[c], p);
    }
    if i :| 0 <= i < |qs| && InPages(qs[i], p) {
      AlignedPage(rs[i], p);
      assert i != c ==> rs[i].End() <= rs[c].base || rs[c].End() <= rs[i].base;
    }
  }

  lemma {:induction false} AlignedPage(r: Region, p: nat)
    requires r.base % 4096 == 0 && r.length % 4096 == 0
    ensures r.FirstPage() <= p < r.LastPage() <==> r.base <= 4096 * p && 4096 * p + 4096 <= r.End()
  {
  }

  /**
   The pages the cache occupies are all reserved exactly when the bitmap fills whole pages, or the
   last of them happens to lie in the kernel range.
   */
  lemma {:induction false} CachePagesReserved(rs: seq<Region>, c: nat, bytes: nat, flags: seq<bool>)
    requires Proper(rs) && c < |rs| && rs[c].kind == Usable && rs[c].length >= bytes + STACK_BYTES
    requires |flags| == Highest(rs) / 4096
    requires BootFlags(rs[c := Reduced(rs[c], bytes + STACK_BYTES)], rs[c].base, bytes, flags)
    ensures var first, last := (rs[c].base + bytes) / 4096, (rs[c].base + bytes + STACK_BYTES + 4095) / 4096;
      && last <= |flags|
      && ((forall p :: first <= p < last ==> flags[p]) <==>
            bytes % 4096 == 0 || KERNEL_FIRST <= last - 1 < KERNEL_LAST)
  {
    hide Highest;
    var at, q := rs[c].base, Reduced(rs[c], bytes + STACK_BYTES);
    var qs := rs[c := q];
    CachePages(at, rs[c].length, bytes);
    assert rs[c].End() <= Highest(rs);
    if bytes % 4096 != 0 {
      var p := (at + bytes + STACK_BYTES) / 4096;
      assert InPages(q, p) && qs[c] == q;
      assert Covered(qs, |qs|, p);
    }
  }

  /** Eight MiB with the upper half usable: the last page of the cache, 1026, is free after boot. */
  lemma {:induction false} CachePageLost(rs: seq<Region>, flags: seq<bool>)
    requires rs == [Region(0x40_0000, 0x40_0000, Usable)] && |flags| == 2048
    requires BootFlags(rs[0 := Reduced(rs[0], 256 + STACK_BYTES)], 0x40_0000, 256, flags)
    ensures Proper(rs) && Highest(rs) / 4096 == 2048 && BitmapBytes(2048) == 256
      && Choose(rs, 256 + STACK_BYTES, 0) == Some(0)
    ensures 0x40_0000 + 256 <= 1026 * 4096 < 0x40_0000 + 256 + STACK_BYTES && !flags[1026]
  {
    assert rs[..0] == [];
    CachePagesReserved(rs, 0, 256, flags);
    assert flags[1024] && flags[1025];
  }

  /** Where the pages of the cache end, and where the last one lies. */
  lemma {:induction false} CachePages(at: nat, length: nat, bytes: nat)
    requires at % 4096 == 0 && length % 4096 == 0 && length >= bytes + STACK_BYTES
    ensures var last, p := (at + bytes + STACK_BYTES + 4095) / 4096, (at + bytes + STACK_BYTES) / 4096;
      && last <= (at + length) / 4096
      && (bytes % 4096 == 0 ==> last == p)
      && (bytes % 4096 != 0 ==> last == p + 1 && (at + bytes + 4095) / 4096 <= p)
  {
  }
}
