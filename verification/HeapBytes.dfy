/**
 Block headers in memory: 24 bytes in front of each payload, holding the size, the next free block,
 the used flag and three magic bytes.
 */
module HeapBytes {
  import opened Bytes
  import opened Memory
  import opened HeapSpec

  datatype Header = Header(size: nat, next: nat, used: byte, magic: seq<byte>)

  const MAGIC: seq<byte> := [0x4B, 0x4D, 0x42]

  ghost function HeaderAt(m: seq<byte>, a: nat): (hd: Header)
    requires a + 24 <= |m|
  {
    Header(Le(m[a..a + 8]), Le(m[a + 8..a + 16]), m[a + 16], m[a + 17..a + 20])
  }

  /** The fields of a header, from its bytes: two words of eight, the flag, and the magic. */
  lemma {:induction false} HeaderBytes(m: seq<byte>, a: nat, size: nat, next: nat, used: byte, magic: seq<byte>)
    requires a + 24 <= |m| && size < U64 && next < U64
    requires m[a..a + 20] == ToLe(size, 8) + ToLe(next, 8) + [used] + magic
    ensures HeaderAt(m, a) == Header(size, next, used, magic)
  {
    hide ToLe, Le;
    var h := m[a..a + 20];
    assert |magic| == 3 && h[..8] == ToLe(size, 8) && h[8..16] == ToLe(next, 8) && h[17..20] == magic;
    Inner(m, a, 0, 8, 20);
    Inner(m, a, 8, 16, 20);
    Inner(m, a, 17, 20, 20);
    assert h[16] == m[a + 16];
    assert size < Pow256(8) && next < Pow256(8);
    LeOfToLe(size, 8);
    LeOfToLe(next, 8);
  }

  lemma {:induction false} Inner(m: seq<byte>, a: nat, i: nat, j: nat, n: nat)
    requires i <= j <= n && a + n <= |m|
    ensures m[a..a + n][i..j] == m[a + i..a + j]
  {
    var x, y := m[a..a + n][i..j], m[a + i..a + j];
    assert |x| == |y| && forall k :: 0 <= k < |x| ==> x[k] == m[a + i + k] == y[k];
  }

  /** Memory changes at most inside the headers at `a`, `b` and `c`. */
  ghost predicate Kept(m: seq<byte>, m': seq<byte>, a: nat, b: nat, c: nat)
  {
    && |m'| == |m|
    && forall i :: 0 <= i < |m| && !(a <= i < a + 24) && !(b <= i < b + 24) && !(c <= i < c + 24) ==> m'[i] == m[i]
  }

  /** The header at `a` became `hd` and nothing else changed. */
  ghost predicate Wrote(m: seq<byte>, m': seq<byte>, a: nat, hd: Header)
  {
    Kept(m, m', a, a, a) && a + 24 <= |m'| && HeaderAt(m', a) == hd
  }

  predicate Away(x: nat, a: nat) { x + 24 <= a || a + 24 <= x }

  lemma {:induction false} KeptHeader(m: seq<byte>, m': seq<byte>, a: nat, b: nat, c: nat, x: nat)
    requires Kept(m, m', a, b, c) && x + 24 <= |m| && Away(x, a) && Away(x, b) && Away(x, c)
    ensures HeaderAt(m', x) == HeaderAt(m, x)
  {
    assert forall i :: x <= i < x + 24 ==> m'[i] == m[i];
    assert m'[x..x + 8] == m[x..x + 8] && m'[x + 8..x + 16] == m[x + 8..x + 16]
      && m'[x + 17..x + 20] == m[x + 17..x + 20];
  }

  /** One more write to one of the three headers. */
  lemma {:induction false} KeptWrote(
    m: seq<byte>, m1: seq<byte>, m2: seq<byte>, a: nat, b: nat, c: nat, x: nat, hd: Header)
    requires Kept(m, m1, a, b, c) && Wrote(m1, m2, x, hd) && (x == a || x == b || x == c)
    ensures Kept(m, m2, a, b, c)
  {
  }

  lemma {:induction false} WroteOther(m: seq<byte>, m': seq<byte>, a: nat, hd: Header, x: nat)
    requires Wrote(m, m', a, hd) && x + 24 <= |m| && Away(x, a)
    ensures HeaderAt(m', x) == HeaderAt(m, x)
  {
    KeptHeader(m, m', a, a, a, x);
  }

  // ----- reading and writing the fields -----

  method GetSize(mem: array<byte>, a: nat) returns (v: nat)
    requires a + 24 <= mem.Length
    ensures v == HeaderAt(View(mem), a).size
  {
    v := Load64(mem, a);
  }

  method GetNext(mem: array<byte>, a: nat) returns (v: nat)
    requires a + 24 <= mem.Length
    ensures v == HeaderAt(View(mem), a).next && v < U64
  {
    v := Load64(mem, a + 8);
    ToLeOfLe(mem[a + 8..a + 16]);
  }

  method GetUsed(mem: array<byte>, a: nat) returns (v: byte)
    requires a + 24 <= mem.Length
    ensures v == HeaderAt(View(mem), a).used
  {
    v := mem[a + 16];
  }

  /** The three bytes are compared one by one. */
  method GoodMagic(mem: array<byte>, a: nat) returns (good: bool)
    requires a + 24 <= mem.Length
    ensures good == (HeaderAt(View(mem), a).magic == MAGIC)
  {
    good := mem[a + 17] == MAGIC[0] && mem[a + 18] == MAGIC[1] && mem[a + 19] == MAGIC[2];
    assert mem[a + 17..a + 20] == [mem[a + 17], mem[a + 18], mem[a + 19]];
  }

  lemma {:induction false} WordWritten(m: seq<byte>, a: nat, v: nat)
    requires a + 24 <= |m| && v < U64
    ensures Wrote(m, Splice(m, a, ToLe(v, 8)), a, HeaderAt(m, a).(size := v))
    ensures Wrote(m, Splice(m, a + 8, ToLe(v, 8)), a, HeaderAt(m, a).(next := v))
  {
    assert v < Pow256(8);
    LeOfToLe(v, 8);
    SizeField(m, a, ToLe(v, 8));
    NextField(m, a, ToLe(v, 8));
  }

  lemma {:induction false} SizeField(m: seq<byte>, a: nat, w: seq<byte>)
    requires a + 24 <= |m| && |w| == 8
    ensures Wrote(m, Splice(m, a, w), a, HeaderAt(m, a).(size := Le(w)))
  {
    var m' := Splice(m, a, w);
    assert m'[a + 8..a + 16] == m[a + 8..a + 16] && m'[a + 17..a + 20] == m[a + 17..a + 20];
  }

  lemma {:induction false} NextField(m: seq<byte>, a: nat, w: seq<byte>)
    requires a + 24 <= |m| && |w| == 8
    ensures Wrote(m, Splice(m, a + 8, w), a, HeaderAt(m, a).(next := Le(w)))
  {
    var m' := Splice(m, a + 8, w);
    assert m'[a..a + 8] == m[a..a + 8] && m'[a + 17..a + 20] == m[a + 17..a + 20];
  }

  method PutSize(mem: array<byte>, a: nat, v: nat)
    requires a + 24 <= mem.Length && v < U64
    modifies mem
    ensures Wrote(old(View(mem)), View(mem), a, HeaderAt(old(View(mem)), a).(size := v))
  {
    WordWritten(View(mem), a, v);
    Store64(mem, a, v);
  }

  method PutNext(mem: array<byte>, a: nat, v: nat)
    requires a + 24 <= mem.Length && v < U64
    modifies mem
    ensures Wrote(old(View(mem)), View(mem), a, HeaderAt(old(View(mem)), a).(next := v))
  {
    WordWritten(View(mem), a, v);
    Store64(mem, a + 8, v);
  }

  method PutUsed(mem: array<byte>, a: nat, v: byte)
    requires a + 24 <= mem.Length
    modifies mem
    ensures Wrote(old(View(mem)), View(mem), a, HeaderAt(old(View(mem)), a).(used := v))
  {
    ghost var m := View(mem);
    mem[a + 16] := v;
    ghost var m' := View(mem);
    assert m'[a..a + 8] == m[a..a + 8] && m'[a + 8..a + 16] == m[a + 8..a + 16]
      && m'[a + 17..a + 20] == m[a + 17..a + 20];
  }

  method PutMagic(mem: array<byte>, a: nat)
    requires a + 24 <= mem.Length
    modifies mem
    ensures Wrote(old(View(mem)), View(mem), a, HeaderAt(old(View(mem)), a).(magic := MAGIC))
  {
    ghost var m := View(mem);
    mem[a + 17] := MAGIC[0];
    mem[a + 18] := MAGIC[1];
    mem[a + 19] := MAGIC[2];
    ghost var m' := View(mem);
    assert m'[a..a + 8] == m[a..a + 8] && m'[a + 8..a + 16] == m[a + 8..a + 16];
    assert m'[a + 17..a + 20] == [m'[a + 17], m'[a + 18], m'[a + 19]];
  }

  lemma {:induction false} WroteTwice(m: seq<byte>, m1: seq<byte>, m2: seq<byte>, a: nat, hd: Header, hd': Header)
    requires Wrote(m, m1, a, hd) && Wrote(m1, m2, a, hd')
    ensures Wrote(m, m2, a, hd')
  {
  }

  /** A whole fresh header, field by field. */
  method PutFresh(mem: array<byte>, a: nat, size: nat, next: nat)
    requires a + 24 <= mem.Length && size < U64 && next < U64
    modifies mem
    ensures Wrote(old(View(mem)), View(mem), a, Header(size, next, 0, MAGIC))
  {
    hide View, Kept, HeaderAt, Wrote;
    ghost var m := View(mem);
    ghost var h0 := HeaderAt(m, a);
    PutSize(mem, a, size);
    ghost var m1 := View(mem);
    WroteIs(m, m1, a, h0.(size := size));
    PutNext(mem, a, next);
    ghost var m2 := View(mem);
    WroteTwice(m, m1, m2, a, h0.(size := size), h0.(size := size, next := next));
    WroteIs(m, m2, a, h0.(size := size, next := next));
    PutUsed(mem, a, 0);
    ghost var m3 := View(mem);
    WroteTwice(m, m2, m3, a, h0.(size := size, next := next), Header(size, next, 0, h0.magic));
    WroteIs(m, m3, a, Header(size, next, 0, h0.magic));
    PutMagic(mem, a);
    WroteTwice(m, m3, View(mem), a, Header(size, next, 0, h0.magic), Header(size, next, 0, MAGIC));
  }

  lemma {:induction false} WroteIs(m: seq<byte>, m': seq<byte>, a: nat, hd: Header)
    requires Wrote(m, m', a, hd)
    ensures |m'| == |m| && a + 24 <= |m| && HeaderAt(m', a) == hd
  {
  }

  // ----- the heap in memory -----

  ghost predicate Recorded(m: seq<byte>, a: nat, b: Block)
  {
    && a + 24 + b.size <= |m|
    && var hd := HeaderAt(m, a);
       hd.size == b.size && hd.used == (if b.used then 1 else 0) && hd.magic == MAGIC
  }

  ghost predicate Stored(m: seq<byte>, bs: Blocks) { forall a :: a in bs ==> Recorded(m, a, bs[a]) }

  /** What the next pointer of the `k`-th block of the list is. */
  function Succ(free: seq<nat>, k: nat): nat { if k + 1 < |free| then free[k + 1] else 0 }

  ghost predicate LinkAt(m: seq<byte>, free: seq<nat>, k: nat)
    requires k < |free|
  {
    free[k] + 24 <= |m| && HeaderAt(m, free[k]).next == Succ(free, k)
  }

  ghost predicate Linked(m: seq<byte>, head: nat, free: seq<nat>)
  {
    && head == (if free == [] then 0 else free[0])
    && forall k: nat :: k < |free| ==> LinkAt(m, free, k)
  }

  /** The headers and the list in memory are those of `h`. */
  ghost predicate Represents(m: seq<byte>, head: nat, h: Heap) { Stored(m, h.blocks) && Linked(m, head, h.free) }

  /** No byte of these payloads changed. */
  ghost predicate PayloadsKept(m: seq<byte>, m': seq<byte>, live: map<nat, nat>)
  {
    && |m'| == |m|
    && forall u, i :: u in live && u + 24 <= i < u + 24 + live[u] && i < |m| ==> m'[i] == m[i]
  }

  lemma {:induction false} PayloadsKeptTrans(
    m: seq<byte>, m1: seq<byte>, m2: seq<byte>, live: map<nat, nat>, less: map<nat, nat>)
    requires PayloadsKept(m, m1, live) && PayloadsKept(m1, m2, less)
    requires forall u :: u in less ==> u in live && less[u] == live[u]
    ensures PayloadsKept(m, m2, less)
  {
  }

  lemma {:induction false} PayloadsSub(m: seq<byte>, m': seq<byte>, live: map<nat, nat>, less: map<nat, nat>)
    requires PayloadsKept(m, m', live) && forall u :: u in less ==> u in live && less[u] == live[u]
    ensures PayloadsKept(m, m', less)
  {
  }
}
