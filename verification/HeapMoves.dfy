/** The pointer moves of `kmalloc` and `kfree` on headers in memory. */
module HeapMoves {
  import opened Bytes
  import opened Memory
  import opened HeapSpec
  import opened HeapBytes
  import opened HeapSteps

  // ----- kmalloc -----

  /** The header pair a split leaves. */
  ghost predicate SplitInto(m: seq<byte>, m': seq<byte>, a: nat, size: nat)
    requires a + 24 <= |m| && a + 48 + size <= |m'| && HeaderAt(m, a).size >= size + 24
  {
    var n, hd := a + 24 + size, HeaderAt(m, a);
    && Kept(m, m', a, n, a)
    && HeaderAt(m', n) == Header(hd.size - size - 24, hd.next, 0, MAGIC)
    && HeaderAt(m', a) == hd.(size := size, next := n)
  }

  method SplitBlock(mem: array<byte>, a: nat, size: nat)
    requires mem.Length <= U64 && a + 24 <= mem.Length && a + 24 + HeaderAt(View(mem), a).size <= mem.Length
    modifies mem
    ensures HeaderAt(old(View(mem)), a).size < size + 40 ==> View(mem) == old(View(mem))
    ensures HeaderAt(old(View(mem)), a).size >= size + 40 ==> SplitInto(old(View(mem)), View(mem), a, size)
  {
    hide View, HeaderAt, Kept, Wrote;
    ghost var m := View(mem);
    var s := GetSize(mem, a);
    if s < size + 40 { return; }
    var n := a + 24 + size;
    var next := GetNext(mem, a);
    PutFresh(mem, n, s - size - 24, next);
    ghost var m1 := View(mem);
    ghost var hd := HeaderAt(m, a);
    ghost var hn := Header(s - size - 24, next, 0, MAGIC);
    WroteOther(m, m1, n, hn, a);
    PutSize(mem, a, size);
    ghost var m2 := View(mem);
    WroteIs(m1, m2, a, hd.(size := size));
    PutNext(mem, a, n);
    ghost var m3 := View(mem);
    WroteTwice(m1, m2, m3, a, hd.(size := size), hd.(size := size, next := n));
    SplitJoined(m, m1, m3, a, n, hn, hd.(size := size, next := n));
  }

  lemma {:induction false} SplitJoined(
    m: seq<byte>, m1: seq<byte>, m2: seq<byte>, a: nat, n: nat, hn: Header, ha: Header)
    requires Wrote(m, m1, n, hn) && Wrote(m1, m2, a, ha) && a + 24 <= n
    ensures Kept(m, m2, a, n, a) && HeaderAt(m2, n) == hn && HeaderAt(m2, a) == ha
  {
    KeptWrote(m, m1, m2, a, n, a, a, ha);
    WroteOther(m1, m2, a, ha, n);
  }

  /** What the pointer to list position `i` holds: the block there, or null behind the last. */
  function At(free: seq<nat>, i: nat): nat { if i < |free| then free[i] else 0 }

  /** The block in front of list position `i`, or null at the head. */
  function Before(free: seq<nat>, i: nat): nat
    requires i <= |free|
  {
    if i == 0 then 0 else free[i - 1]
  }

  /** Where the search ends: at the first block that fits, or behind the last. */
  ghost function FitPlace(h: Heap, size: nat): (i: nat)
    requires Listed(h.blocks, h.free)
    ensures i <= |h.free|
  {
    ListedAll(h);
    var r := Fit(h, size, 0);
    if r.Some? then r.value else |h.free|
  }

  /** The first free block that is large enough, and the one before it in the list. */
  method FindFit(mem: array<byte>, head: nat, size: nat, ghost h: Heap) returns (prev: nat, curr: nat)
    requires Placed(h) && Represents(View(mem), head, h)
    ensures curr == At(h.free, FitPlace(h, size)) && prev == Before(h.free, FitPlace(h, size))
    ensures curr == 0 <==> FitPlace(h, size) == |h.free|
  {
    hide View, HeaderAt, Listed, Linked, Stored, Apart, Fit, Recorded, LinkAt;
    ListedAll(h);
    HeadOfList(View(mem), head, h);
    prev, curr := 0, head;
    ghost var i := 0;
    while curr != 0
      invariant i <= |h.free| && (i < |h.free| ==> h.free[i] != 0)
      invariant curr == if i < |h.free| then h.free[i] else 0
      invariant prev == if i == 0 then 0 else h.free[i - 1]
      invariant Fit(h, size, 0) == Fit(h, size, i)
      decreases |h.free| - i
    {
      FitStep(h, size, i);
      NodeAt(View(mem), head, h, i);
      var used := GetUsed(mem, curr);
      var s := GetSize(mem, curr);
      if used == 0 && s >= size {
        return;
      }
      prev := curr;
      curr := GetNext(mem, curr);
      i := i + 1;
    }
    FitStep(h, size, i);
  }

  /** What the walk reads at list position `i`. No block is at address 0. */
  lemma {:induction false} NodeAt(m: seq<byte>, head: nat, h: Heap, i: nat)
    requires Placed(h) && Represents(m, head, h) && i < |h.free|
    ensures h.free[i] in h.blocks && h.free[i] + 24 <= |m|
    ensures HeaderAt(m, h.free[i]).used == 0 && HeaderAt(m, h.free[i]).size == h.blocks[h.free[i]].size
    ensures HeaderAt(m, h.free[i]).next == Succ(h.free, i)
    ensures i + 1 < |h.free| ==> h.free[i + 1] != 0
  {
    ListedAt(h, i);
    RecordedAt(m, h.blocks, h.free[i]);
    LinkedAt(m, head, h.free, i);
    if i + 1 < |h.free| { ListedAt(h, i + 1); }
  }

  lemma {:induction false} HeadOfList(m: seq<byte>, head: nat, h: Heap)
    requires Placed(h) && Represents(m, head, h)
    ensures head == if h.free == [] then 0 else h.free[0]
    ensures h.free != [] ==> head != 0
  {
    if h.free != [] { ListedAt(h, 0); }
  }

  lemma {:induction false} FitStep(h: Heap, size: nat, i: nat)
    requires i <= |h.free| && forall k :: 0 <= k < |h.free| ==> h.free[k] in h.blocks
    ensures Fit(h, size, i) == if i == |h.free| then None
                               else if h.blocks[h.free[i]].size >= size then Some(i)
                               else Fit(h, size, i + 1)
  {
  }

  lemma {:induction false} LinkedAt(m: seq<byte>, head: nat, free: seq<nat>, k: nat)
    requires Linked(m, head, free) && k < |free|
    ensures LinkAt(m, free, k)
  {
  }

  /** The pointer to list position `i` now holds `to`. */
  ghost predicate Redirected(m: seq<byte>, m': seq<byte>, head: nat, head': nat, free: seq<nat>, i: nat, to: nat)
    requires i <= |free| && (i > 0 ==> free[i - 1] + 24 <= |m|)
  {
    if i == 0 then m' == m && head' == to
    else head' == head && Wrote(m, m', free[i - 1], HeaderAt(m, free[i - 1]).(next := to))
  }

  method Redirect(mem: array<byte>, head: nat, prev: nat, to: nat, ghost free: seq<nat>, ghost i: nat)
    returns (head': nat)
    requires to < U64 && i <= |free| && prev == (if i == 0 then 0 else free[i - 1])
    requires i > 0 ==> prev > 0 && prev + 24 <= mem.Length
    modifies mem
    ensures Redirected(old(View(mem)), View(mem), head, head', free, i, to)
  {
    hide View, HeaderAt, Wrote;
    if prev != 0 {
      PutNext(mem, prev, to);
      head' := head;
    } else {
      head' := to;
    }
  }

  lemma {:induction false} WholeTaken(
    m: seq<byte>, m1: seq<byte>, m2: seq<byte>, head: nat, head': nat, h: Heap, i: nat)
    requires Placed(h) && Represents(m, head, h) && i < |h.free| && h.free[i] in h.blocks
    requires h.free[i] + 24 <= |m| == |m1| && (i > 0 ==> h.free[i - 1] + 24 <= |m|)
    requires Wrote(m, m1, h.free[i], HeaderAt(m, h.free[i]).(used := 1))
    requires Redirected(m1, m2, head, head', h.free, i, Succ(h.free, i))
    ensures var a := h.free[i];
      Represents(m2, head', Heap(h.blocks[a := Block(h.blocks[a].size, true)], h.free[..i] + h.free[i + 1..]))
    ensures PayloadsKept(m, m2, Live(h.blocks))
  {
    hide HeaderAt, Listed, Linked, Apart, Kept;
    var a, p := h.free[i], Prev(h.free, i);
    RecordedAt(m, h.blocks, a);
    WroteKept(m, m1, a, a, p, HeaderAt(m, a).(used := 1));
    if i > 0 {
      ListedApart(h, i - 1, i);
      var hp := HeaderAt(m1, p).(next := Succ(h.free, i));
      KeptWrote(m, m1, m2, a, a, p, p, hp);
      WroteOther(m1, m2, p, hp, a);
      WroteOther(m, m1, a, HeaderAt(m, a).(used := 1), p);
    }
    WholeStored(m, m2, head, head', h, i);
    WholeLinked(m, m2, head, head', h, i);
    HeadersMissPayloads(m, m2, h.blocks, a, a, p);
  }

  lemma {:induction false} WroteKept(m: seq<byte>, m': seq<byte>, a: nat, b: nat, c: nat, hd: Header)
    requires Wrote(m, m', a, hd)
    ensures Kept(m, m', a, b, c)
  {
  }

  lemma {:induction false} PartTaken(
    m: seq<byte>, m1: seq<byte>, m2: seq<byte>, m3: seq<byte>, head: nat, head': nat, h: Heap, i: nat, size: nat)
    requires Placed(h) && Represents(m, head, h) && i < |h.free| && h.free[i] in h.blocks
    requires h.blocks[h.free[i]].size >= size + 24
    requires h.free[i] + 48 + size <= |m| == |m1| == |m2| && (i > 0 ==> h.free[i - 1] + 24 <= |m|)
    requires HeaderAt(m, h.free[i]).size == h.blocks[h.free[i]].size && HeaderAt(m, h.free[i]).next == Succ(h.free, i)
    requires SplitInto(m, m1, h.free[i], size)
    requires Wrote(m1, m2, h.free[i], HeaderAt(m1, h.free[i]).(used := 1))
    requires Redirected(m2, m3, head, head', h.free, i, h.free[i] + 24 + size)
    ensures Represents(m3, head', Heap(Split(h.blocks, h.free[i], size, true),
              h.free[..i] + [h.free[i] + 24 + size] + h.free[i + 1..]))
    ensures PayloadsKept(m, m3, Live(h.blocks))
  {
    hide HeaderAt, Listed, Linked, Apart, Kept, Split;
    var a, n, p := h.free[i], h.free[i] + 24 + size, Prev(h.free, i);
    RecordedAt(m, h.blocks, a);
    ListedAt(h, i);
    var ha := HeaderAt(m1, a).(used := 1);
    KeptMore(m, m1, a, n, p);
    KeptWrote(m, m1, m2, a, n, p, a, ha);
    WroteOther(m1, m2, a, ha, n);
    if i > 0 {
      ListedApart(h, i - 1, i);
      PartAway(h, i, size, p);
      var hp := HeaderAt(m2, p).(next := n);
      KeptWrote(m, m2, m3, a, n, p, p, hp);
      WroteOther(m2, m3, p, hp, a);
      WroteOther(m2, m3, p, hp, n);
      KeptWrote(m, m1, m2, a, n, a, a, ha);
      KeptHeader(m, m2, a, n, a, p);
    }
    PartStored(m, m3, head, head', h, i, size);
    PartLinked(m, m3, head, head', h, i, size);
    HeadersMissPayloads(m, m3, h.blocks, a, n, p);
  }

  lemma {:induction false} KeptMore(m: seq<byte>, m': seq<byte>, a: nat, b: nat, c: nat)
    requires Kept(m, m', a, b, a)
    ensures Kept(m, m', a, b, c)
  {
  }

  /** The block at list position `i` is split, flagged and unlinked. */
  method TakeBlock(mem: array<byte>, head: nat, prev: nat, curr: nat, size: nat, ghost h: Heap, ghost i: nat)
    returns (head': nat)
    requires mem.Length <= U64 && Placed(h) && Represents(View(mem), head, h)
    requires i < |h.free| && curr == h.free[i] && prev == (if i == 0 then 0 else h.free[i - 1])
    requires curr in h.blocks && h.blocks[curr].size >= size
    modifies mem
    ensures Represents(View(mem), head', Take(h, i, size))
    ensures PayloadsKept(old(View(mem)), View(mem), Live(h.blocks))
  {
    hide View, HeaderAt, Kept, Wrote, Listed, Linked, Stored, Apart, PayloadsKept, Redirected, SplitInto, Split;
    ghost var m := View(mem);
    RecordedAt(m, h.blocks, curr);
    LinkedAt(m, head, h.free, i);
    PrevThere(m, head, h, i);
    SplitBlock(mem, curr, size);
    ghost var m1 := View(mem);
    PutUsed(mem, curr, 1);
    ghost var m2 := View(mem);
    var next := GetNext(mem, curr);
    head' := Redirect(mem, head, prev, next, h.free, i);
    ghost var m3 := View(mem);
    if h.blocks[curr].size < size + 40 {
      WroteIs(m, m2, curr, HeaderAt(m, curr).(used := 1));
      WholeTaken(m, m2, m3, head, head', h, i);
    } else {
      WroteIs(m1, m2, curr, HeaderAt(m1, curr).(used := 1));
      SplitNext(m, m1, curr, size);
      PartTaken(m, m1, m2, m3, head, head', h, i, size);
    }
  }

  lemma {:induction false} SplitNext(m: seq<byte>, m': seq<byte>, a: nat, size: nat)
    requires a + 24 <= |m| && a + 48 + size <= |m'| && HeaderAt(m, a).size >= size + 24 && SplitInto(m, m', a, size)
    ensures HeaderAt(m', a).next == a + 24 + size
  {
  }

  lemma {:induction false} PrevThere(m: seq<byte>, head: nat, h: Heap, i: nat)
    requires Placed(h) && Represents(m, head, h) && i <= |h.free|
    ensures i > 0 ==> 0 < h.free[i - 1] && h.free[i - 1] + 24 <= |m|
  {
    if i > 0 {
      ListedAt(h, i - 1);
      RecordedAt(m, h.blocks, h.free[i - 1]);
    }
  }

  // ----- kfree -----

  /** Where the walk in address order stops, and the block before. */
  method FindPlace(mem: array<byte>, head: nat, a: nat, ghost h: Heap) returns (prev: nat, curr: nat)
    requires Placed(h) && Represents(View(mem), head, h)
    ensures curr == At(h.free, Place(h.free, a, 0)) && prev == Before(h.free, Place(h.free, a, 0))
  {
    hide View, HeaderAt, Listed, Linked, Stored, Apart, Recorded, LinkAt;
    HeadOfList(View(mem), head, h);
    prev, curr := 0, head;
    ghost var i := 0;
    while curr != 0 && curr < a
      invariant i <= |h.free| && (i < |h.free| ==> h.free[i] != 0)
      invariant curr == if i < |h.free| then h.free[i] else 0
      invariant prev == if i == 0 then 0 else h.free[i - 1]
      invariant Place(h.free, a, 0) == Place(h.free, a, i)
      decreases |h.free| - i
    {
      NodeAt(View(mem), head, h, i);
      prev := curr;
      curr := GetNext(mem, curr);
      i := i + 1;
    }
  }

  /** The block is flagged free and linked in at its address. */
  method InsertBlock(mem: array<byte>, head: nat, a: nat, ghost h: Heap) returns (head': nat, prev: nat)
    requires mem.Length <= U64 && Placed(h) && Represents(View(mem), head, h) && a in h.blocks && h.blocks[a].used
    modifies mem
    ensures Represents(View(mem), head', Insert(h, a))
    ensures var i := Place(h.free, a, 0); prev == if i == 0 then 0 else h.free[i - 1]
    ensures PayloadsKept(old(View(mem)), View(mem), Live(h.blocks))
  {
    hide View, HeaderAt, Kept, Wrote, Listed, Linked, Stored, Apart, PayloadsKept, Redirected, Insert;
    ghost var m := View(mem);
    RecordedAt(m, h.blocks, a);
    var curr;
    ghost var i := Place(h.free, a, 0);
    prev, curr := FindPlace(mem, head, a, h);
    PrevThere(m, head, h, i);
    CurrThere(m, head, h, i);
    ghost var ha := HeaderAt(m, a);
    PutUsed(mem, a, 0);
    ghost var m1 := View(mem);
    WroteIs(m, m1, a, ha.(used := 0));
    PutNext(mem, a, curr);
    ghost var m2 := View(mem);
    WroteTwice(m, m1, m2, a, ha.(used := 0), ha.(used := 0, next := curr));
    WroteIs(m, m2, a, ha.(used := 0, next := curr));
    head' := Redirect(mem, head, prev, a, h.free, i);
    InsertDone(m, m2, View(mem), head, head', h, a);
  }

  lemma {:induction false} CurrThere(m: seq<byte>, head: nat, h: Heap, i: nat)
    requires Placed(h) && Represents(m, head, h) && i <= |h.free|
    ensures i < |h.free| ==> h.free[i] + 24 <= |m|
  {
    if i < |h.free| {
      ListedAt(h, i);
      RecordedAt(m, h.blocks, h.free[i]);
    }
  }

  lemma {:induction false} InsertDone(
    m: seq<byte>, m1: seq<byte>, m2: seq<byte>, head: nat, head': nat, h: Heap, a: nat)
    requires Placed(h) && Represents(m, head, h) && a in h.blocks && h.blocks[a].used && a + 24 <= |m| == |m1|
    requires var i := Place(h.free, a, 0);
      && (i > 0 ==> h.free[i - 1] + 24 <= |m|)
      && Wrote(m, m1, a, HeaderAt(m, a).(used := 0, next := if i < |h.free| then h.free[i] else 0))
      && Redirected(m1, m2, head, head', h.free, i, a)
    ensures Represents(m2, head', Insert(h, a)) && PayloadsKept(m, m2, Live(h.blocks))
  {
    hide HeaderAt, Listed, Linked, Apart, Kept, Insert, PayloadsKept;
    var i := Place(h.free, a, 0);
    var p := if i > 0 then h.free[i - 1] else a;
    var ha := HeaderAt(m, a).(used := 0, next := if i < |h.free| then h.free[i] else 0);
    WroteKept(m, m1, a, a, p, ha);
    if i > 0 {
      ListedAt(h, i - 1);
      BlocksAway(h.blocks, a, p);
      var hp := HeaderAt(m1, p).(next := a);
      KeptWrote(m, m1, m2, a, a, p, p, hp);
      WroteOther(m1, m2, p, hp, a);
      WroteOther(m, m1, a, ha, p);
    }
    InsertRepresented(m, m2, head, head', h, a);
    HeadersMissPayloads(m, m2, h.blocks, a, a, p);
  }

  lemma {:induction false} BlocksAway(bs: Blocks, a: nat, b: nat)
    requires Apart(bs) && a in bs && b in bs && a != b
    ensures Away(a, b)
  {
  }

  /** A block takes in the one behind it, which follows it in the list too. */
  method Absorb(mem: array<byte>, head: nat, a: nat, b: nat, ghost h: Heap, ghost i: nat)
    requires mem.Length <= U64 && Placed(h) && Represents(View(mem), head, h)
    requires i + 1 < |h.free| && a == h.free[i] && b == h.free[i + 1]
    requires a in h.blocks && b in h.blocks && End(h.blocks, a) == b
    modifies mem
    ensures Represents(View(mem), head, Heap(Merge(h.blocks, a, b), h.free[..i + 1] + h.free[i + 2..]))
    ensures PayloadsKept(old(View(mem)), View(mem), Live(h.blocks))
  {
    hide View, HeaderAt, Kept, Wrote, Listed, Linked, Stored, Apart, PayloadsKept, Merge;
    ghost var m := View(mem);
    RecordedAt(m, h.blocks, a);
    RecordedAt(m, h.blocks, b);
    LinkedAt(m, head, h.free, i + 1);
    var sa := GetSize(mem, a);
    var sb := GetSize(mem, b);
    ghost var ha := HeaderAt(m, a);
    PutSize(mem, a, sa + 24 + sb);
    ghost var m1 := View(mem);
    WroteIs(m, m1, a, ha.(size := sa + 24 + sb));
    WroteOther(m, m1, a, ha.(size := sa + 24 + sb), b);
    var nb := GetNext(mem, b);
    PutNext(mem, a, nb);
    WroteTwice(m, m1, View(mem), a, ha.(size := sa + 24 + sb), ha.(size := sa + 24 + sb, next := nb));
    MergeRepresented(m, View(mem), head, h, i);
    WroteKept(m, View(mem), a, a, a, ha.(size := sa + 24 + sb, next := nb));
    HeadersMissPayloads(m, View(mem), h.blocks, a, a, a);
  }

  method MergeForward(mem: array<byte>, head: nat, a: nat, ghost h: Heap, ghost i: nat)
    requires mem.Length <= U64 && Placed(h) && Represents(View(mem), head, h) && i < |h.free| && a == h.free[i]
    modifies mem
    ensures Represents(View(mem), head, MergeNext(h, i))
    ensures PayloadsKept(old(View(mem)), View(mem), Live(h.blocks))
  {
    hide View, HeaderAt, Listed, Linked, Stored, Apart, Live, Merge;
    ListedAll(h);
    NodeAt(View(mem), head, h, i);
    CurrThere(View(mem), head, h, i + 1);
    var next := GetNext(mem, a);
    var size := GetSize(mem, a);
    if next != 0 && a + 24 + size == next {
      Absorb(mem, head, a, next, h, i);
    }
  }

  method MergeBack(mem: array<byte>, head: nat, prev: nat, a: nat, ghost h: Heap, ghost i: nat)
    requires mem.Length <= U64 && Placed(h) && Represents(View(mem), head, h) && i < |h.free| && a == h.free[i]
    requires prev == if i == 0 then 0 else h.free[i - 1]
    modifies mem
    ensures Represents(View(mem), head, MergePrev(h, i))
    ensures PayloadsKept(old(View(mem)), View(mem), Live(h.blocks))
  {
    hide View, HeaderAt, Listed, Linked, Stored, Apart, Live, Merge;
    ListedAll(h);
    if prev != 0 {
      NodeAt(View(mem), head, h, i - 1);
      var size := GetSize(mem, prev);
      if prev + 24 + size == a {
        Absorb(mem, head, prev, a, h, i - 1);
      }
    } else {
      PrevThere(View(mem), head, h, i);
    }
  }

  /** The whole of `kfree` behind its checks. */
  method FreeBlock(mem: array<byte>, head: nat, a: nat, ghost h: Heap, ghost pools: set<nat>) returns (head': nat)
    requires mem.Length <= U64 && WellFormed(h, pools) && Represents(View(mem), head, h)
    requires a in h.blocks && h.blocks[a].used
    modifies mem
    ensures Represents(View(mem), head', Release(h, a))
    ensures PayloadsKept(old(View(mem)), View(mem), Live(h.blocks) - {a})
  {
    hide View, Represents, Live, Apart, Listed, PayloadsKept, Insert, MergeNext, MergePrev, InPools, InBlocks;
    ghost var m := View(mem);
    ghost var i, g := Place(h.free, a, 0), Insert(h, a);
    ghost var live := Live(h.blocks);
    InsertKeeps(h, pools, a);
    MergeNextKeeps(g, pools, i);
    MergeNextListed(g, i);
    MergeNextLive(g, i);
    ListedAll(g);
    ListedAll(MergeNext(g, i));
    var prev;
    head', prev := InsertBlock(mem, head, a, h);
    ghost var m1 := View(mem);
    MergeForward(mem, head', a, g, i);
    ghost var m2 := View(mem);
    PayloadsKeptTrans(m, m1, m2, live, live - {a});
    MergeBack(mem, head', prev, a, MergeNext(g, i), i);
    PayloadsKeptTrans(m, m2, View(mem), live - {a}, live - {a});
  }
}
