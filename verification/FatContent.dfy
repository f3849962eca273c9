/**
 What a chain of clusters holds: its sectors laid end to end, as one flat byte sequence, and
 how one sector write or one allocation shows in it.
 */
module FatContent {
  import opened Bytes
  import opened FatTable
  import opened FatChain

  ghost predicate Within(L: Layout, ch: seq<nat>)
  {
    forall i :: 0 <= i < |ch| ==> 2 <= ch[i] < L.limit
  }

  lemma {:induction false} ChainInside(d: Disk, L: Layout, ch: seq<nat>)
    requires L.Fits(|d|) && IsChain(Fat(d, L), ch)
    ensures Within(L, ch)
  {
  }

  function SectorNo(L: Layout, c: nat, s: nat): nat
    requires c >= 2
  {
    L.dataStart + Times(c - 2, L.spc) + s
  }

  /** The sector address the driver computes for any cluster number, in 32 bits. */
  function Address(L: Layout, c: nat, s: nat): nat { (L.dataStart + (c - 2) * L.spc + s) % U32 }

  /** Number of sectors a chain of `n` clusters holds. */
  function SectorCount(L: Layout, n: nat): nat { Times(n, L.spc) }

  function Capacity(L: Layout, ch: seq<nat>): nat { SectorCount(L, |ch|) * 512 }

  /** The device sector that holds the `j`-th sector of the chain. */
  function FileSector(L: Layout, ch: seq<nat>, j: nat): nat
    requires L.spc > 0 && Within(L, ch) && j < SectorCount(L, |ch|)
  {
    QuotBound(j, |ch|, L.spc);
    SectorNo(L, ch[Quot(j, L.spc)], Rem(j, L.spc))
  }

  lemma {:induction false} SectorInside(L: Layout, sectors: nat, c: nat, s: nat)
    requires L.Fits(sectors) && 2 <= c < L.limit && s < L.spc
    ensures L.dataStart <= SectorNo(L, c, s) < sectors
  {
    TimesMono(c - 2, L.limit - 2, L.spc);
  }

  /** On the volume that is the sector of the cluster. */
  lemma {:induction false} AddressInside(L: Layout, sectors: nat, c: nat, s: nat)
    requires L.Fits(sectors) && 2 <= c < L.limit && s < L.spc
    ensures Address(L, c, s) == SectorNo(L, c, s) < sectors
  {
    hide Times;
    TimesIsProduct(c - 2, L.spc);
    SectorInside(L, sectors, c, s);
    InThirtyTwo(SectorNo(L, c, s));
  }

  lemma {:induction false} InThirtyTwo(x: nat)
    requires x < U32
    ensures x % U32 == x
  {
  }

  /** A data sector belongs to one place of one cluster. */
  lemma {:induction false} SectorInjective(L: Layout, a: nat, s: nat, b: nat, t: nat)
    requires a >= 2 && b >= 2 && s < L.spc && t < L.spc
    requires SectorNo(L, a, s) == SectorNo(L, b, t)
    ensures a == b && s == t
  {
    if a < b {
      TimesMono(a - 2, b - 2, L.spc);
    } else if b < a {
      TimesMono(b - 2, a - 2, L.spc);
    }
  }

  lemma {:induction false} FileSectorInside(L: Layout, sectors: nat, ch: seq<nat>, j: nat)
    requires L.Fits(sectors) && Within(L, ch) && j < SectorCount(L, |ch|)
    ensures L.dataStart <= FileSector(L, ch, j) < sectors
  {
    QuotBound(j, |ch|, L.spc);
    SectorInside(L, sectors, ch[Quot(j, L.spc)], Rem(j, L.spc));
  }

  function ByteAt(d: Disk, L: Layout, ch: seq<nat>, p: nat): byte
    requires L.Fits(|d|) && Within(L, ch) && p < Capacity(L, ch)
  {
    FileSectorInside(L, |d|, ch, p / 512);
    d[FileSector(L, ch, p / 512)][p % 512]
  }

  function Content(d: Disk, L: Layout, ch: seq<nat>): (s: seq<byte>)
    requires L.Fits(|d|) && Within(L, ch)
    ensures |s| == Capacity(L, ch)
  {
    seq(Capacity(L, ch), p requires 0 <= p < Capacity(L, ch) => ByteAt(d, L, ch, p))
  }

  /** The flat position of byte `off` of the `k`-th cluster. */
  function Position(L: Layout, k: nat, off: nat): nat { SectorCount(L, k) * 512 + off }

  /** A cursor in the `k`-th cluster addresses the sector the flat position falls in. */
  lemma {:induction false} SectorOfCursor(L: Layout, ch: seq<nat>, k: nat, off: nat)
    requires Within(L, ch) && k < |ch| && off < L.ClusterBytes()
    ensures Position(L, k, off) / 512 == SectorCount(L, k) + off / 512 < SectorCount(L, |ch|)
    ensures Position(L, k, off) % 512 == off % 512
    ensures FileSector(L, ch, Position(L, k, off) / 512) == SectorNo(L, ch[k], off / 512)
  {
    TimesMono(k, |ch|, L.spc);
    QuotRemOf(k, off / 512, L.spc);
  }

  /** A piece of that sector is a piece of the content. */
  lemma {:induction false} SectorSlice(d: Disk, L: Layout, ch: seq<nat>, k: nat, off: nat, n: nat)
    requires L.Fits(|d|) && Within(L, ch) && k < |ch|
    requires off < L.ClusterBytes() && off % 512 + n <= 512
    ensures L.dataStart <= SectorNo(L, ch[k], off / 512) < |d|
    ensures Position(L, k, off) + n <= Capacity(L, ch)
    ensures d[SectorNo(L, ch[k], off / 512)][off % 512..off % 512 + n]
         == Content(d, L, ch)[Position(L, k, off)..Position(L, k, off) + n]
  {
    SectorOfCursor(L, ch, k, off);
    var p := Position(L, k, off);
    FileSectorInside(L, |d|, ch, p / 512);
    var s := SectorNo(L, ch[k], off / 512);
    forall q | p <= q < p + n
      ensures Content(d, L, ch)[q] == d[s][off % 512 + (q - p)]
    {
      assert q / 512 == p / 512;
      assert q % 512 == off % 512 + (q - p);
    }
  }

  /** Only this file position maps to that sector, when the chain has no repetition. */
  lemma {:induction false} OnlyThere(L: Layout, ch: seq<nat>, i: nat, j: nat)
    requires L.spc > 0 && Within(L, ch)
    requires forall a, b :: 0 <= a < b < |ch| ==> ch[a] != ch[b]
    requires i < SectorCount(L, |ch|) && j < SectorCount(L, |ch|)
    requires FileSector(L, ch, i) == FileSector(L, ch, j)
    ensures i == j
  {
    QuotBound(i, |ch|, L.spc);
    QuotBound(j, |ch|, L.spc);
    SectorInjective(L, ch[Quot(i, L.spc)], Rem(i, L.spc), ch[Quot(j, L.spc)], Rem(j, L.spc));
    assert Quot(i, L.spc) == Quot(j, L.spc);
    QuotRem(i, L.spc);
    QuotRem(j, L.spc);
  }

  /** One sector patched in place is the content patched at the flat position. */
  lemma {:induction false} SectorPatch(d: Disk, L: Layout, ch: seq<nat>, k: nat, off: nat, piece: seq<byte>)
    requires L.Fits(|d|) && Within(L, ch) && k < |ch|
    requires forall a, b :: 0 <= a < b < |ch| ==> ch[a] != ch[b]
    requires off < L.ClusterBytes() && off % 512 + |piece| <= 512
    ensures L.dataStart <= SectorNo(L, ch[k], off / 512) < |d|
    ensures Position(L, k, off) + |piece| <= Capacity(L, ch)
    ensures var s := SectorNo(L, ch[k], off / 512);
      Content(d[s := Splice(d[s], off % 512, piece)], L, ch)
      == Splice(Content(d, L, ch), Position(L, k, off), piece)
  {
    hide SectorNo, FileSector, SectorCount, Position;
    SectorSlice(d, L, ch, k, off, |piece|);
    SectorOfCursor(L, ch, k, off);
    var s, p := SectorNo(L, ch[k], off / 512), Position(L, k, off);
    var e := d[s := Splice(d[s], off % 512, piece)];
    var c, c' := Content(d, L, ch), Content(e, L, ch);
    forall i | 0 <= i < |c|
      ensures c'[i] == Splice(c, p, piece)[i]
    {
      FileSectorInside(L, |d|, ch, i / 512);
      if FileSector(L, ch, i / 512) == s {
        OnlyThere(L, ch, i / 512, p / 512);
      }
    }
  }

  ghost predicate SameSectors(d: Disk, e: Disk, L: Layout, c: nat)
    requires |e| == |d| && c >= 2
  {
    forall s :: 0 <= s < L.spc ==>
      SectorNo(L, c, s) < |d| && e[SectorNo(L, c, s)] == d[SectorNo(L, c, s)]
  }

  /** Equal sectors, equal content. */
  lemma {:induction false} ContentFrame(d: Disk, e: Disk, L: Layout, ch: seq<nat>)
    requires L.Fits(|d|) && |e| == |d| && Within(L, ch)
    requires forall i :: 0 <= i < |ch| ==> SameSectors(d, e, L, ch[i])
    ensures Content(e, L, ch) == Content(d, L, ch)
  {
    forall p | 0 <= p < Capacity(L, ch)
      ensures ByteAt(e, L, ch, p) == ByteAt(d, L, ch, p)
    {
      QuotBound(p / 512, |ch|, L.spc);
      var i, s := Quot(p / 512, L.spc), Rem(p / 512, L.spc);
      assert SameSectors(d, e, L, ch[i]);
      assert e[SectorNo(L, ch[i], s)] == d[SectorNo(L, ch[i], s)];
    }
  }

  /** A longer chain starts with the content of the shorter one. */
  lemma {:induction false} ContentPrefix(d: Disk, L: Layout, ch: seq<nat>, more: seq<nat>)
    requires L.Fits(|d|) && Within(L, ch + more)
    ensures Within(L, ch)
    ensures Capacity(L, ch) <= Capacity(L, ch + more)
    ensures Content(d, L, ch + more)[..Capacity(L, ch)] == Content(d, L, ch)
  {
    forall i | 0 <= i < |ch|
      ensures 2 <= ch[i] < L.limit
    {
      assert (ch + more)[i] == ch[i];
    }
    TimesMono(|ch|, |ch + more|, L.spc);
    forall p | 0 <= p < Capacity(L, ch)
      ensures Content(d, L, ch + more)[p] == Content(d, L, ch)[p]
    {
      QuotBound(p / 512, |ch|, L.spc);
    }
  }

  // ----- what an operation leaves alone -----

  /** The entry of `c`, bit for bit, and every sector of `c` are the same on both disks. */
  ghost predicate Untouched(d: Disk, e: Disk, L: Layout, c: nat)
  {
    && |e| == |d|
    && c >= 2
    && EntrySector(L, c) < |d|
    && RawEntry(e, L, c) == RawEntry(d, L, c)
    && SameSectors(d, e, L, c)
  }

  /** Every allocated cluster that is not on `mine` is untouched. */
  ghost predicate Frame(d: Disk, e: Disk, L: Layout, mine: seq<nat>)
  {
    && |e| == |d|
    && forall c :: 2 <= c < L.limit && c !in mine && FatEntry(d, L, c) != FREE_CLUSTER ==> Untouched(d, e, L, c)
  }

  lemma {:induction false} FrameReflexive(d: Disk, L: Layout, mine: seq<nat>)
    requires L.Fits(|d|)
    ensures Frame(d, d, L, mine)
  {
    forall c | 2 <= c < L.limit
      ensures Untouched(d, d, L, c)
    {
      EntryInTable(L, |d|, c);
      forall s | 0 <= s < L.spc
        ensures SectorNo(L, c, s) < |d|
      {
        SectorInside(L, |d|, c, s);
      }
    }
  }

  /** Other chains keep their links and their content. */
  lemma {:induction false} FrameChain(d: Disk, e: Disk, L: Layout, mine: seq<nat>, o: seq<nat>)
    requires L.Fits(|d|) && Frame(d, e, L, mine)
    requires IsChain(Fat(d, L), o) && Disjoint(o, mine)
    ensures IsChain(Fat(e, L), o)
    ensures Content(e, L, o) == Content(d, L, o)
  {
    forall i | 0 <= i < |o|
      ensures Untouched(d, e, L, o[i])
    {
      assert i < |o| - 1 ==> Fat(d, L)[o[i]] == o[i + 1];
    }
    ChainFrame(Fat(d, L), Fat(e, L), o);
    ContentFrame(d, e, L, o);
  }

  /** Every chain that shares no cluster with `mine` has the same links and the same content. */
  ghost predicate OthersKept(d: Disk, e: Disk, L: Layout, mine: seq<nat>)
  {
    && L.Fits(|d|) && |e| == |d|
    && forall o :: IsChain(Fat(d, L), o) && Disjoint(o, mine) ==>
        IsChain(Fat(e, L), o) && Within(L, o) && Content(e, L, o) == Content(d, L, o)
  }

  lemma {:induction false} FrameOthers(d: Disk, e: Disk, L: Layout, mine: seq<nat>)
    requires L.Fits(|d|) && Frame(d, e, L, mine)
    ensures OthersKept(d, e, L, mine)
  {
    forall o | IsChain(Fat(d, L), o) && Disjoint(o, mine)
      ensures IsChain(Fat(e, L), o) && Content(e, L, o) == Content(d, L, o)
    {
      FrameChain(d, e, L, mine, o);
    }
  }

  /** A sector write inside one cluster touches no other cluster. */
  lemma {:induction false} SectorWriteUntouched(d: Disk, L: Layout, c: nat, s: nat, sec: Sector, o: nat)
    requires L.Fits(|d|) && 2 <= c < L.limit && s < L.spc && 2 <= o < L.limit && o != c
    ensures SectorNo(L, c, s) < |d|
    ensures Untouched(d, d[SectorNo(L, c, s) := sec], L, o)
  {
    SectorInside(L, |d|, c, s);
    EntryInTable(L, |d|, o);
    forall t | 0 <= t < L.spc
      ensures SectorNo(L, o, t) < |d| && SectorNo(L, o, t) != SectorNo(L, c, s)
    {
      SectorInside(L, |d|, o, t);
      if SectorNo(L, o, t) == SectorNo(L, c, s) {
        SectorInjective(L, o, t, c, s);
      }
    }
  }

  /** A write to a sector of a cluster of `mine`, or of one that was free, keeps the frame. */
  lemma {:induction false} FramePatch(d0: Disk, d: Disk, L: Layout, mine: seq<nat>, c: nat, s: nat, sec: Sector)
    requires L.Fits(|d0|) && Frame(d0, d, L, mine)
    requires 2 <= c < L.limit && s < L.spc
    requires c in mine || FatEntry(d0, L, c) == FREE_CLUSTER
    ensures L.dataStart <= SectorNo(L, c, s) < |d|
    ensures Frame(d0, d[SectorNo(L, c, s) := sec], L, mine)
  {
    SectorInside(L, |d|, c, s);
    forall o | 2 <= o < L.limit && o !in mine && FatEntry(d0, L, o) != FREE_CLUSTER
      ensures Untouched(d0, d[SectorNo(L, c, s) := sec], L, o)
    {
      assert Untouched(d0, d, L, o);
      SectorWriteUntouched(d, L, c, s, sec, o);
    }
  }
}
