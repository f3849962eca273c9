/** The bitmap of the page allocator: bits in bytes, and the same bits in 64-bit words. */
module PageBitmap {
  import opened Bytes

  /** Bit `j` of `x`: shift right `j` times and look at the lowest bit. */
  function Bit(x: nat, j: nat): bool { if j == 0 then x % 2 == 1 else Bit(x / 2, j - 1) }

  /** `x` with bit `j` set to `v`. */
  function SetBit(x: nat, j: nat, v: bool): nat
  {
    if j == 0 then x / 2 * 2 + (if v then 1 else 0) else SetBit(x / 2, j - 1, v) * 2 + x % 2
  }

  lemma {:induction false} SetBitBits(x: nat, j: nat, v: bool, i: nat)
    ensures Bit(SetBit(x, j, v), i) == if i == j then v else Bit(x, i)
  {
    if j > 0 && i > 0 {
      SetBitBits(x / 2, j - 1, v, i - 1);
    }
  }

  function Pow2(n: nat): (r: nat)
    ensures r > 0
  {
    if n == 0 then 1 else 2 * Pow2(n - 1)
  }

  lemma {:induction false} SetBitBound(x: nat, j: nat, v: bool, n: nat)
    requires j < n && x < Pow2(n)
    ensures SetBit(x, j, v) < Pow2(n)
  {
    if j > 0 {
      SetBitBound(x / 2, j - 1, v, n - 1);
    }
  }

  function SetByteBit(x: byte, j: nat, v: bool): byte
    requires j < 8
  {
    assert Pow2(8) == 256;
    SetBitBound(x, j, v, 8);
    SetBit(x, j, v)
  }

  /** A page is in use when its bit is set. */
  predicate InUse(bm: seq<byte>, p: nat)
    requires p / 8 < |bm|
  {
    Bit(bm[p / 8], p % 8)
  }

  function Mark(bm: seq<byte>, p: nat, v: bool): (r: seq<byte>)
    requires p / 8 < |bm|
    ensures |r| == |bm|
  {
    bm[p / 8 := SetByteBit(bm[p / 8], p % 8, v)]
  }

  /** Setting one bit changes the state of one page. */
  lemma {:induction false} MarkOne(bm: seq<byte>, p: nat, v: bool, q: nat)
    requires p / 8 < |bm| && q / 8 < |bm|
    ensures InUse(Mark(bm, p, v), q) == if q == p then v else InUse(bm, q)
  {
    if q / 8 == p / 8 {
      SetBitBits(bm[p / 8], p % 8, v, q % 8);
    }
  }

  // ----- words -----

  /** `r` shifted left `n` times. */
  function Shl(r: nat, n: nat): nat { if n == 0 then r else 2 * Shl(r, n - 1) }

  /** The low `n` bits and the rest of a number, bit by bit. */
  lemma {:induction false} BitOfSum(b: nat, r: nat, n: nat, j: nat)
    requires b < Pow2(n)
    ensures Bit(b + Shl(r, n), j) == if j < n then Bit(b, j) else Bit(r, j - n)
    decreases n
  {
    if n > 0 {
      var s := Shl(r, n - 1);
      assert (b + 2 * s) / 2 == b / 2 + s && (b + 2 * s) % 2 == b % 2;
      if j > 0 {
        BitOfSum(b / 2, r, n - 1, j - 1);
      }
    }
  }

  lemma {:induction false} BitOfSplit(b: byte, r: nat, j: nat)
    ensures Bit(b + 256 * r, j) == if j < 8 then Bit(b, j) else Bit(r, j - 8)
  {
    assert Pow2(8) == 256;
    assert Shl(r, 0) == r && Shl(r, 1) == 2 * r;
    assert Shl(r, 2) == 4 * r;
    assert Shl(r, 4) == 4 * Shl(r, 2);
    assert Shl(r, 6) == 4 * Shl(r, 4);
    assert Shl(r, 8) == 4 * Shl(r, 6);
    BitOfSum(b, r, 8, j);
  }

  /** Bit 8k + j of a little-endian word is bit j of its byte k. */
  lemma {:induction false} WordBit(bs: seq<byte>, k: nat, j: nat)
    requires k < |bs| && j < 8
    ensures Bit(Le(bs), 8 * k + j) == Bit(bs[k], j)
  {
    BitOfSplit(bs[0], Le(bs[1..]), 8 * k + j);
    if k > 0 {
      WordBit(bs[1..], k - 1, j);
    }
  }

  const FULL := 0xFFFF_FFFF_FFFF_FFFF

  /** All bits of a full word are set. */
  lemma {:induction false} FullWord(bs: seq<byte>, k: nat, j: nat)
    requires |bs| == 8 && Le(bs) == FULL && k < 8 && j < 8
    ensures Bit(bs[k], j)
  {
    ToLeOfLe(bs);
    FullBytes();
    assert bs[k] == 255;
    OnesBits(8, j);
  }

  lemma {:induction false} FullBytes()
    ensures ToLe(FULL, 8) == [255, 255, 255, 255, 255, 255, 255, 255]
  {
    assert ToLe(0xFF, 1) == [255] + ToLe(0, 0) == [255];
    assert ToLe(0xFFFF, 2) == [255] + ToLe(0xFF, 1);
    assert ToLe(0xFF_FFFF, 3) == [255] + ToLe(0xFFFF, 2);
    assert ToLe(0xFFFF_FFFF, 4) == [255] + ToLe(0xFF_FFFF, 3);
    assert ToLe(0xFF_FFFF_FFFF, 5) == [255] + ToLe(0xFFFF_FFFF, 4);
    assert ToLe(0xFFFF_FFFF_FFFF, 6) == [255] + ToLe(0xFF_FFFF_FFFF, 5);
    assert ToLe(0xFF_FFFF_FFFF_FFFF, 7) == [255] + ToLe(0xFFFF_FFFF_FFFF, 6);
    assert ToLe(FULL, 8) == [255] + ToLe(0xFF_FFFF_FFFF_FFFF, 7);
  }

  lemma {:induction false} OnesBits(n: nat, j: nat)
    requires j < n
    ensures Bit(Pow2(n) - 1, j)
    ensures n == 8 ==> Pow2(n) - 1 == 255
  {
    if j > 0 {
      OnesBits(n - 1, j - 1);
      assert (Pow2(n) - 1) / 2 == Pow2(n - 1) - 1;
    }
    assert Pow2(8) == 256;
  }
}
