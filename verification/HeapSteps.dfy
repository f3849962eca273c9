/** What the few header writes of each heap operation do to the whole heap in memory. */
module HeapSteps {
  import opened Bytes
  import opened HeapSpec
  import opened HeapBytes

  /** Headers of listed blocks, all present and apart. */
  ghost predicate Placed(h: Heap)
  {
    && 0 !in h.blocks && Apart(h.blocks) && Listed(h.blocks, h.free)
  }

  lemma {:induction false} ListedAt(h: Heap, k: nat)
    requires Listed(h.blocks, h.free) && k < |h.free|
    ensures h.free[k] in h.blocks && !h.blocks[h.free[k]].used
  {
    assert h.free[k] in h.free;
  }

  lemma {:induction false} ListedApart(h: Heap, k: nat, l: nat)
    requires Placed(h) && k < |h.free| && l < |h.free| && k != l
    ensures h.free[k] in h.blocks && h.free[l] in h.blocks && h.free[k] != h.free[l] && Away(h.free[k], h.free[l])
  {
    ListedAt(h, k);
    ListedAt(h, l);
    assert h.free[k] != h.free[l];
  }

  lemma {:induction false} UsedApart(h: Heap, k: nat, a: nat)
    requires Placed(h) && k < |h.free| && a in h.blocks && h.blocks[a].used
    ensures Away(h.free[k], a)
  {
    ListedAt(h, k);
  }

  lemma {:induction false} KeptLength(m: seq<byte>, m': seq<byte>, a: nat, b: nat, c: nat)
    requires Kept(m, m', a, b, c)
    ensures |m'| == |m|
  {
  }

  /** Blocks other than the three whose headers were written are still recorded. */
  lemma {:induction false} StoredOther(m: seq<byte>, m': seq<byte>, bs: Blocks, a: nat, b: nat, c: nat, x: nat)
    requires Stored(m, bs) && Kept(m, m', a, b, c)
    requires x in bs && Away(x, a) && Away(x, b) && Away(x, c)
    ensures Recorded(m', x, bs[x])
  {
    KeptHeader(m, m', a, b, c, x);
  }

  lemma {:induction false} RecordedAt(m: seq<byte>, bs: Blocks, a: nat)
    requires Stored(m, bs) && a in bs
    ensures Recorded(m, a, bs[a])
  {
  }

  lemma {:induction false} LinkOther(m: seq<byte>, m': seq<byte>, free: seq<nat>, k: nat, a: nat, b: nat, c: nat)
    requires k < |free| && LinkAt(m, free, k) && Kept(m, m', a, b, c)
    requires Away(free[k], a) && Away(free[k], b) && Away(free[k], c)
    ensures free[k] + 24 <= |m'| && HeaderAt(m', free[k]).next == Succ(free, k)
  {
    KeptHeader(m, m', a, b, c, free[k]);
  }

  /** The predecessor in the list, or the block itself at the head. */
  function Prev(free: seq<nat>, i: nat): nat
    requires i < |free|
  {
    if i > 0 then free[i - 1] else free[i]
  }

  /** The list pointer a block's predecessor holds: in the header before it, or in the list head. */
  ghost predicate Relinked(m: seq<byte>, m': seq<byte>, head: nat, head': nat, free: seq<nat>, i: nat, to: nat)
    requires i < |free|
  {
    if i == 0 then head' == to
    else
      && head' == head && free[i - 1] + 24 <= |m| == |m'|
      && HeaderAt(m', free[i - 1]) == HeaderAt(m, free[i - 1]).(next := to)
  }

  // ----- taking the whole block -----

  lemma {:induction false} WholeStored(m: seq<byte>, m': seq<byte>, head: nat, head': nat, h: Heap, i: nat)
    requires Placed(h) && Represents(m, head, h) && i < |h.free|
    requires Kept(m, m', h.free[i], h.free[i], Prev(h.free, i))
    requires h.free[i] in h.blocks && Recorded(m', h.free[i], Block(h.blocks[h.free[i]].size, true))
    requires Relinked(m, m', head, head', h.free, i, Succ(h.free, i))
    ensures Stored(m', h.blocks[h.free[i] := Block(h.blocks[h.free[i]].size, true)])
  {
    hide Kept, HeaderAt, Listed, LinkAt;
    var a, p := h.free[i], Prev(h.free, i);
    KeptLength(m, m', a, a, p);
    var cs := h.blocks[a := Block(h.blocks[a].size, true)];
    if i > 0 { ListedApart(h, i - 1, i); }
    forall x | x in cs
      ensures Recorded(m', x, cs[x])
    {
      if x != a && x != p { StoredOther(m, m', h.blocks, a, a, p, x); }
    }
  }

  lemma {:induction false} WholeLinked(m: seq<byte>, m': seq<byte>, head: nat, head': nat, h: Heap, i: nat)
    requires Placed(h) && Linked(m, head, h.free) && i < |h.free|
    requires Kept(m, m', h.free[i], h.free[i], Prev(h.free, i))
    requires Relinked(m, m', head, head', h.free, i, Succ(h.free, i))
    ensures Linked(m', head', h.free[..i] + h.free[i + 1..])
  {
    hide Kept, HeaderAt, Listed, Apart, Away;
    var f := h.free[..i] + h.free[i + 1..];
    forall k: nat | k < |f|
      ensures LinkAt(m', f, k)
    {
      var l := if k < i then k else k + 1;
      assert f[k] == h.free[l] && LinkAt(m, h.free, l);
      ListedApart(h, l, i);
      if l + 1 != i {
        if i > 0 { ListedApart(h, l, i - 1); }
        LinkOther(m, m', h.free, l, h.free[i], h.free[i], Prev(h.free, i));
      }
    }
  }

  // ----- taking a part -----

  lemma {:induction false} PartAway(h: Heap, i: nat, size: nat, x: nat)
    requires Placed(h) && i < |h.free| && h.free[i] in h.blocks && h.blocks[h.free[i]].size >= size + 24
    requires x in h.blocks && x != h.free[i]
    ensures Away(x, h.free[i]) && Away(x, h.free[i] + 24 + size)
  {
    assert x < h.free[i] ==> End(h.blocks, x) <= h.free[i];
    assert h.free[i] < x ==> End(h.blocks, h.free[i]) <= x;
  }

  lemma {:induction false} PartStored(m: seq<byte>, m': seq<byte>, head: nat, head': nat, h: Heap, i: nat, size: nat)
    requires Placed(h) && Represents(m, head, h) && i < |h.free|
    requires h.free[i] in h.blocks && h.blocks[h.free[i]].size >= size + 24
    requires Kept(m, m', h.free[i], h.free[i] + 24 + size, Prev(h.free, i))
    requires Recorded(m', h.free[i], Block(size, true))
    requires Recorded(m', h.free[i] + 24 + size, Block(h.blocks[h.free[i]].size - size - 24, false))
    requires Relinked(m, m', head, head', h.free, i, h.free[i] + 24 + size)
    ensures Stored(m', Split(h.blocks, h.free[i], size, true))
  {
    hide Kept, HeaderAt, Listed, LinkAt;
    var a, n, p := h.free[i], h.free[i] + 24 + size, Prev(h.free, i);
    KeptLength(m, m', a, n, p);
    var cs := Split(h.blocks, a, size, true);
    if i > 0 { ListedApart(h, i - 1, i); }
    forall x | x in cs
      ensures Recorded(m', x, cs[x])
    {
      if x != a && x != n && x != p {
        PartAway(h, i, size, x);
        StoredOther(m, m', h.blocks, a, n, p, x);
      }
    }
  }

  lemma {:induction false} PartLinked(m: seq<byte>, m': seq<byte>, head: nat, head': nat, h: Heap, i: nat, size: nat)
    requires Placed(h) && Linked(m, head, h.free) && i < |h.free|
    requires h.free[i] in h.blocks && h.blocks[h.free[i]].size >= size + 24
    requires Kept(m, m', h.free[i], h.free[i] + 24 + size, Prev(h.free, i))
    requires h.free[i] + 48 + size <= |m'| && HeaderAt(m', h.free[i] + 24 + size).next == Succ(h.free, i)
    requires Relinked(m, m', head, head', h.free, i, h.free[i] + 24 + size)
    ensures Linked(m', head', h.free[..i] + [h.free[i] + 24 + size] + h.free[i + 1..])
  {
    hide Kept, HeaderAt, Listed, Apart, Away;
    var n := h.free[i] + 24 + size;
    var f := h.free[..i] + [n] + h.free[i + 1..];
    assert f == h.free[i := n];
    forall k: nat | k < |f| && k != i
      ensures LinkAt(m', f, k)
    {
      assert LinkAt(m, h.free, k);
      ListedApart(h, k, i);
      if k + 1 != i {
        if i > 0 { ListedApart(h, k, i - 1); }
        PartAway(h, i, size, h.free[k]);
        LinkOther(m, m', h.free, k, h.free[i], n, Prev(h.free, i));
      }
    }
  }

  // ----- a new pool -----

  lemma {:induction false} PoolStored(m: seq<byte>, m': seq<byte>, head: nat, h: Heap, p: nat)
    requires Placed(h) && Represents(m, head, h) && Wrote(m, m', p, Header(16360, head, 0, MAGIC))
    requires p + 16384 <= |m|
    requires forall x :: x in h.blocks ==> Away(x, p)
    ensures Represents(m', p, AddPool(h, p))
  {
    var g := AddPool(h, p);
    forall x | x in g.blocks
      ensures Recorded(m', x, g.blocks[x])
    {
      if x != p { StoredOther(m, m', h.blocks, p, p, p, x); }
    }
    forall k: nat | k < |g.free|
      ensures LinkAt(m', g.free, k)
    {
      if k > 0 {
        assert LinkAt(m, h.free, k - 1);
        ListedAt(h, k - 1);
        LinkOther(m, m', h.free, k - 1, p, p, p);
      }
    }
  }

  // ----- freeing -----

  /** The block `a` in front of list position `i`. */
  lemma {:induction false} InsertRepresented(m: seq<byte>, m': seq<byte>, head: nat, head': nat, h: Heap, a: nat)
    requires Placed(h) && Represents(m, head, h) && a in h.blocks && h.blocks[a].used
    requires var i := Place(h.free, a, 0);
      && Kept(m, m', a, a, if i > 0 then h.free[i - 1] else a)
      && HeaderAt(m', a) == HeaderAt(m, a).(used := 0, next := if i < |h.free| then h.free[i] else 0)
      && if i == 0 then head' == a
         else head' == head && HeaderAt(m', h.free[i - 1]) == HeaderAt(m, h.free[i - 1]).(next := a)
    ensures Represents(m', head', Insert(h, a))
  {
    hide Kept, HeaderAt, Listed, LinkAt;
    var i, g := Place(h.free, a, 0), Insert(h, a);
    var p := if i > 0 then h.free[i - 1] else a;
    KeptLength(m, m', a, a, p);
    if i > 0 { ListedAt(h, i - 1); }
    forall x | x in g.blocks
      ensures Recorded(m', x, g.blocks[x])
    {
      if x != a && x != p { StoredOther(m, m', h.blocks, a, a, p, x); }
    }
    InsertLinked(m, m', head, head', h, a);
  }

  lemma {:induction false} InsertLinked(m: seq<byte>, m': seq<byte>, head: nat, head': nat, h: Heap, a: nat)
    requires Placed(h) && Represents(m, head, h) && a in h.blocks && h.blocks[a].used
    requires var i := Place(h.free, a, 0);
      && Kept(m, m', a, a, if i > 0 then h.free[i - 1] else a)
      && HeaderAt(m', a) == HeaderAt(m, a).(used := 0, next := if i < |h.free| then h.free[i] else 0)
      && if i == 0 then head' == a
         else head' == head && HeaderAt(m', h.free[i - 1]) == HeaderAt(m, h.free[i - 1]).(next := a)
    ensures Linked(m', head', Insert(h, a).free)
  {
    hide Kept, HeaderAt, Listed, Stored, Apart, Away, Recorded, Place;
    var i, f := Place(h.free, a, 0), Insert(h, a).free;
    var p := if i > 0 then h.free[i - 1] else a;
    KeptLength(m, m', a, a, p);
    RecordedAt(m, h.blocks, a);
    if i > 0 { ListedAt(h, i - 1); }
    forall k: nat | k < |f|
      ensures LinkAt(m', f, k)
    {
      if k != i {
        var l := if k < i then k else k - 1;
        ListedAt(h, l);
        assert f[k] == h.free[l] && LinkAt(m, h.free, l);
        if l + 1 != i {
          if i > 0 { ListedApart(h, l, i - 1); }
          UsedApart(h, l, a);
          LinkOther(m, m', h.free, l, a, a, p);
        }
      }
    }
  }

  /** List neighbours `i` and `i + 1` become one block. */
  lemma {:induction false} MergeRepresented(m: seq<byte>, m': seq<byte>, head: nat, h: Heap, i: nat)
    requires Placed(h) && Represents(m, head, h) && i + 1 < |h.free|
    requires h.free[i] in h.blocks && h.free[i + 1] in h.blocks && End(h.blocks, h.free[i]) == h.free[i + 1]
    requires Wrote(m, m', h.free[i], HeaderAt(m, h.free[i]).(
      size := h.blocks[h.free[i]].size + 24 + h.blocks[h.free[i + 1]].size, next := Succ(h.free, i + 1)))
    ensures Represents(m', head, Heap(Merge(h.blocks, h.free[i], h.free[i + 1]), h.free[..i + 1] + h.free[i + 2..]))
  {
    hide Kept, HeaderAt, Listed;
    var a, b := h.free[i], h.free[i + 1];
    KeptLength(m, m', a, a, a);
    var g := Heap(Merge(h.blocks, a, b), h.free[..i + 1] + h.free[i + 2..]);
    ListedAt(h, i);
    forall x | x in g.blocks
      ensures Recorded(m', x, g.blocks[x])
    {
      if x != a { StoredOther(m, m', h.blocks, a, a, a, x); }
    }
    forall k: nat | k < |g.free|
      ensures LinkAt(m', g.free, k)
    {
      if k != i {
        var l := if k < i then k else k + 1;
        assert g.free[k] == h.free[l] && LinkAt(m, h.free, l);
        ListedApart(h, l, i);
        LinkOther(m, m', h.free, l, a, a, a);
      }
    }
  }

  // ----- what stays -----

  /** Header writes inside listed blocks and the block freed never reach a payload in use. */
  lemma {:induction false} HeadersMissPayloads(m: seq<byte>, m': seq<byte>, bs: Blocks, a: nat, n: nat, p: nat)
    requires Apart(bs) && Kept(m, m', a, n, p)
    requires a in bs && p in bs
    requires n == a || (!bs[a].used && a + 24 <= n && n + 24 <= End(bs, a))
    ensures PayloadsKept(m, m', Live(bs))
  {
    forall u, i | u in Live(bs) && u + 24 <= i < u + 24 + Live(bs)[u] && i < |m|
      ensures m'[i] == m[i]
    {
      assert u < a ==> End(bs, u) <= a;
      assert a < u ==> End(bs, a) <= u;
      assert u < p ==> End(bs, u) <= p;
      assert p < u ==> End(bs, p) <= u;
    }
  }
}
