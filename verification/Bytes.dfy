/** Bytes, little-endian words and in-place replacement of a piece of a buffer. */
module Bytes {

  type byte = x: int | 0 <= x < 256

  const U32 := 0x1_0000_0000
  const U64 := 0x1_0000_0000_0000_0000

  datatype Option<+T> = None | Some(value: T)

  function Min(a: int, b: int): int { if a <= b then a else b }

  function Max(a: nat, b: nat): (m: nat)
    ensures m >= a && m >= b && (m == a || m == b)
  {
    if a > b then a else b
  }

  /** The value a C cast to a 32-bit `int` gives. */
  function ToInt32(x: int): (r: int)
    ensures -0x8000_0000 <= r < 0x8000_0000
    ensures (x - r) % U32 == 0
  {
    (x + 0x8000_0000) % U32 - 0x8000_0000
  }

  lemma {:induction false} SmallInt32(x: int)
    requires -0x8000_0000 <= x < 0x8000_0000
    ensures ToInt32(x) == x
  {
  }

  function Pow256(n: nat): (r: nat)
    ensures r > 0
  {
    if n == 0 then 1 else 256 * Pow256(n - 1)
  }

  /** The number a little-endian byte sequence stands for. */
  function Le(bs: seq<byte>): nat
  {
    if bs == [] then 0 else bs[0] + 256 * Le(bs[1..])
  }

  /** The low `n` bytes of `v`, least significant first. */
  function ToLe(v: nat, n: nat): (bs: seq<byte>)
    ensures |bs| == n
  {
    if n == 0 then [] else [v % 256] + ToLe(v / 256, n - 1)
  }

  lemma {:induction false} LeOfToLe(v: nat, n: nat)
    requires v < Pow256(n)
    ensures Le(ToLe(v, n)) == v
  {
    if n > 0 {
      LeOfToLe(v / 256, n - 1);
      assert ToLe(v, n)[1..] == ToLe(v / 256, n - 1);
    }
  }

  lemma {:induction false} ToLeOfLe(bs: seq<byte>)
    ensures ToLe(Le(bs), |bs|) == bs
    ensures Le(bs) < Pow256(|bs|)
  {
    if bs != [] {
      ToLeOfLe(bs[1..]);
      assert bs == [bs[0]] + bs[1..];
    }
  }

  /** `s` with the elements from index `at` on replaced by `piece`. */
  function Splice<T>(s: seq<T>, at: nat, piece: seq<T>): (r: seq<T>)
    requires at + |piece| <= |s|
    ensures |r| == |s|
    ensures r[at..at + |piece|] == piece
    ensures forall i :: 0 <= i < |s| && !(at <= i < at + |piece|) ==> r[i] == s[i]
    ensures forall i :: at <= i < at + |piece| ==> r[i] == piece[i - at]
  {
    s[..at] + piece + s[at + |piece|..]
  }

  lemma {:induction false} ConcatAssociates<T>(a: seq<T>, b: seq<T>, c: seq<T>)
    ensures a + b + c == a + (b + c)
  {
  }

  lemma {:induction false} ConcatEmpty<T>(a: seq<T>)
    ensures a + [] == a && [] + a == a
  {
  }

  lemma {:induction false} TakeAll<T>(a: seq<T>)
    ensures a[..|a|] == a
  {
  }

  // ----- products and quotients by a symbolic factor -----

  /** a * m, by repeated addition. */
  function Times(a: nat, m: nat): nat
  {
    if a == 0 then 0 else Times(a - 1, m) + m
  }

  /** j / m, by repeated subtraction. */
  function Quot(j: nat, m: nat): nat
    requires m > 0
  {
    if j < m then 0 else 1 + Quot(j - m, m)
  }

  /** j % m, by repeated subtraction. */
  function Rem(j: nat, m: nat): (r: nat)
    requires m > 0
    ensures r < m
  {
    if j < m then j else Rem(j - m, m)
  }

  lemma {:induction false} TimesIsProduct(a: nat, m: nat)
    ensures Times(a, m) == a * m
  {
    if a > 0 {
      TimesIsProduct(a - 1, m);
      assert a * m == (a - 1) * m + m;
    }
  }

  lemma {:induction false} TimesMono(a: nat, b: nat, m: nat)
    requires a <= b
    ensures Times(a, m) <= Times(b, m)
    ensures a < b ==> Times(a, m) + m <= Times(b, m)
    decreases b
  {
    if a < b {
      TimesMono(a, b - 1, m);
    }
  }

  /** Quotient and remainder recompose the number. */
  lemma {:induction false} QuotRem(j: nat, m: nat)
    requires m > 0
    ensures j == Times(Quot(j, m), m) + Rem(j, m)
  {
    if j >= m {
      QuotRem(j - m, m);
    }
  }

  /** And they are the only ones that do. */
  lemma {:induction false} QuotRemOf(q: nat, r: nat, m: nat)
    requires r < m
    ensures Quot(Times(q, m) + r, m) == q
    ensures Rem(Times(q, m) + r, m) == r
  {
    if q > 0 {
      QuotRemOf(q - 1, r, m);
    }
  }

  lemma {:induction false} QuotBound(j: nat, n: nat, m: nat)
    requires m > 0 && j < Times(n, m)
    ensures Quot(j, m) < n
  {
    QuotRem(j, m);
    if n <= Quot(j, m) {
      TimesMono(n, Quot(j, m), m);
    }
  }

  lemma {:induction false} QuotMono(a: nat, b: nat, m: nat)
    requires m > 0 && a <= b
    ensures Quot(a, m) <= Quot(b, m)
  {
    QuotRem(a, m);
    QuotRem(b, m);
    var qa, qb := Quot(a, m), Quot(b, m);
    if qb < qa {
      TimesMono(qb, qa, m);
    }
  }

  /** They are the quotient and remainder of integer division. */
  lemma {:induction false} QuotRemAreDivMod(j: nat, m: nat)
    requires m > 0
    ensures Quot(j, m) == j / m && Rem(j, m) == j % m
  {
    QuotRem(j, m);
    TimesIsProduct(Quot(j, m), m);
    DivModUnique(j, Quot(j, m), Rem(j, m), m);
  }

  lemma {:induction false} DivModUnique(x: nat, q: nat, r: nat, m: nat)
    requires r < m && x == q * m + r
    ensures x / m == q && x % m == r
  {
    var k: nat := x / m;
    assert x == k * m + x % m;
    if k > q {
      assert (k - q) * m == k * m - q * m;
      TimesIsProduct(k - q, m);
    } else if k < q {
      assert (q - k) * m == q * m - k * m;
      TimesIsProduct(q - k, m);
    }
  }
}
