/** Word-wise memory primitives over a byte-addressed memory; an index is an address. */
module Memory {
  import opened Bytes

  /** `n` bytes from `dest` on set to `c`. */
  function Filled(m: seq<byte>, dest: nat, c: byte, n: nat): (r: seq<byte>)
    requires dest + n <= |m|
    ensures |r| == |m|
    ensures forall i :: 0 <= i < |m| ==> r[i] == if dest <= i < dest + n then c else m[i]
  {
    m[..dest] + seq(n, _ => c) + m[dest + n..]
  }

  /** The simultaneous copy: all source bytes are read before any byte is written. */
  function Copied(m: seq<byte>, dest: nat, src: nat, n: nat): (r: seq<byte>)
    requires dest + n <= |m| && src + n <= |m|
    ensures |r| == |m|
  {
    m[..dest] + m[src..src + n] + m[dest + n..]
  }

  lemma {:induction false} CopiedAt(m: seq<byte>, dest: nat, src: nat, n: nat)
    requires dest + n <= |m| && src + n <= |m|
    ensures forall i :: 0 <= i < |m| ==>
      Copied(m, dest, src, n)[i] == if dest <= i < dest + n then m[src + (i - dest)] else m[i]
  {
  }

  lemma {:induction false} CopiedMeans(m: seq<byte>, m': seq<byte>, dest: nat, src: nat, n: nat)
    requires dest + n <= |m| && src + n <= |m| && m' == Copied(m, dest, src, n)
    ensures |m'| == |m|
    ensures forall i :: 0 <= i < |m| && !(dest <= i < dest + n) ==> m'[i] == m[i]
    ensures forall i :: dest <= i < dest + n ==> m'[i] == m[src + (i - dest)]
  {
  }

  /** The whole memory as a value. */
  ghost function View(mem: array<byte>): (m: seq<byte>)
    reads mem
    ensures |m| == mem.Length
  {
    mem[..]
  }

  // ----- 64-bit access -----

  /** The 64-bit word stored at `a`, least significant byte first. */
  method Load64(mem: array<byte>, a: nat) returns (w: nat)
    requires a + 8 <= mem.Length
    ensures w == Le(mem[a..a + 8]) && ToLe(w, 8) == mem[a..a + 8]
  {
    w := Le(mem[a..a + 8]);
    ToLeOfLe(mem[a..a + 8]);
  }

  method Store64(mem: array<byte>, a: nat, w: nat)
    requires a + 8 <= mem.Length
    modifies mem
    ensures View(mem) == Splice(old(View(mem)), a, ToLe(w, 8))
  {
    var bs := ToLe(w, 8);
    ghost var m := View(mem);
    var i := 0;
    while i < 8
      invariant 0 <= i <= 8
      invariant forall j :: 0 <= j < mem.Length ==> mem[j] == if a <= j < a + i then bs[j - a] else m[j]
    {
      mem[a + i] := bs[i];
      i := i + 1;
    }
  }

  // ----- memset -----

  /** The word of `n` bytes that are all `c`. */
  function Pattern(c: byte, n: nat): nat { if n == 0 then 0 else c + 256 * Pattern(c, n - 1) }

  lemma {:induction false} PatternBytes(c: byte, n: nat)
    ensures ToLe(Pattern(c, n), n) == seq(n, _ => c)
  {
    if n > 0 {
      PatternBytes(c, n - 1);
      var p: nat := Pattern(c, n - 1);
      assert (c + 256 * p) % 256 == c && (c + 256 * p) / 256 == p;
    }
  }

  /** One more byte at the top, as the loop adds it. */
  lemma {:induction false} PatternTop(c: byte, n: nat)
    ensures Pattern(c, n + 1) == Pattern(c, n) + c * Pow256(n)
  {
    if n > 0 {
      PatternTop(c, n - 1);
      assert 256 * (c * Pow256(n - 1)) == c * Pow256(n);
    }
  }

  method MakePattern(c: byte) returns (pattern: nat)
    ensures ToLe(pattern, 8) == seq(8, _ => c)
  {
    pattern := 0;
    var i := 0;
    while i < 8
      invariant 0 <= i <= 8 && pattern == Pattern(c, i)
    {
      PatternTop(c, i);
      pattern := pattern + c * Pow256(i);
      i := i + 1;
    }
    PatternBytes(c, 8);
  }

  /** Byte by byte. */
  method FillBytes(mem: array<byte>, p: nat, c: byte, n: nat)
    requires p + n <= mem.Length
    modifies mem
    ensures View(mem) == Filled(old(View(mem)), p, c, n)
  {
    ghost var m := View(mem);
    var i := 0;
    while i < n
      invariant 0 <= i <= n
      invariant forall j :: 0 <= j < mem.Length ==> mem[j] == if p <= j < p + i then c else m[j]
    {
      mem[p + i] := c;
      i := i + 1;
    }
  }

  /** Word by word: as many whole words as fit. */
  method FillWords(mem: array<byte>, p: nat, c: byte, n: nat) returns (done: nat)
    requires p + n <= mem.Length
    modifies mem
    ensures done <= n < done + 8 && View(mem) == Filled(old(View(mem)), p, c, done)
  {
    var pattern := MakePattern(c);
    ghost var m := View(mem);
    assert Filled(m, p, c, 0) == m;
    done := 0;
    while n - done >= 8
      invariant done <= n
      invariant View(mem) == Filled(m, p, c, done)
    {
      Store64(mem, p + done, pattern);
      done := done + 8;
    }
  }

  lemma {:induction false} FilledJoin(m: seq<byte>, p: nat, c: byte, a: nat, b: nat)
    requires p + a + b <= |m|
    ensures Filled(Filled(m, p, c, a), p + a, c, b) == Filled(m, p, c, a + b)
  {
  }

  /** `memset`: a byte prefix up to an aligned address, whole words, then the rest. */
  method MemSet(mem: array<byte>, dest: nat, c: int, n: nat)
    requires dest + n <= mem.Length
    modifies mem
    ensures View(mem) == Filled(old(View(mem)), dest, c % 256, n)
  {
    hide View, Filled;
    var b: byte := c % 256;
    if n < 16 {
      FillBytes(mem, dest, b, n);
      return;
    }
    ghost var m := View(mem);
    var align := dest % 8;
    var prefix := if align != 0 then 8 - align else 0;
    FillBytes(mem, dest, b, prefix);
    var words := FillWords(mem, dest + prefix, b, n - prefix);
    FilledJoin(m, dest, b, prefix, words);
    FillBytes(mem, dest + prefix + words, b, n - prefix - words);
    FilledJoin(m, dest, b, prefix + words, n - prefix - words);
  }

  // ----- memcpy and memmove -----

  /** A forward copy may not run into source bytes it still has to read. */
  predicate ForwardSafe(dest: nat, src: nat, n: nat) { dest <= src || src + n <= dest }

  lemma {:induction false} CopiedJoin(m: seq<byte>, dest: nat, src: nat, a: nat, b: nat)
    requires dest + a + b <= |m| && src + a + b <= |m| && ForwardSafe(dest, src, a + b)
    ensures Copied(Copied(m, dest, src, a), dest + a, src + a, b) == Copied(m, dest, src, a + b)
  {
    CopiedAt(m, dest, src, a);
    CopiedAt(m, dest, src, a + b);
    CopiedAt(Copied(m, dest, src, a), dest + a, src + a, b);
  }

  lemma {:induction false} NothingCopied(m: seq<byte>, dest: nat, src: nat)
    requires dest <= |m| && src <= |m|
    ensures Copied(m, dest, src, 0) == m
  {
  }

  /** One more byte at the end of a forward copy. */
  lemma {:induction false} CopiedForward(m: seq<byte>, dest: nat, src: nat, i: nat)
    requires dest + i < |m| && src + i < |m| && ForwardSafe(dest, src, i + 1)
    ensures Copied(m, dest, src, i)[src + i] == m[src + i]
    ensures Copied(m, dest, src, i + 1) == Copied(m, dest, src, i)[dest + i := m[src + i]]
  {
    CopiedAt(m, dest, src, i);
    CopiedAt(m, dest, src, i + 1);
  }

  /** One more byte at the front of a backward copy of the last bytes. */
  lemma {:induction false} CopiedBackward(m: seq<byte>, dest: nat, src: nat, i: nat, n: nat)
    requires src < dest && i < n && dest + n <= |m|
    ensures Copied(m, dest + i + 1, src + i + 1, n - i - 1)[src + i] == m[src + i]
    ensures Copied(m, dest + i, src + i, n - i) == Copied(m, dest + i + 1, src + i + 1,
      n - i - 1)[dest + i := m[src + i]]
  {
    CopiedAt(m, dest + i, src + i, n - i);
    CopiedAt(m, dest + i + 1, src + i + 1, n - i - 1);
  }

  method CopyBytes(mem: array<byte>, dest: nat, src: nat, n: nat)
    requires dest + n <= mem.Length && src + n <= mem.Length && ForwardSafe(dest, src, n)
    modifies mem
    ensures View(mem) == Copied(old(View(mem)), dest, src, n)
  {
    ghost var m := View(mem);
    NothingCopied(m, dest, src);
    var i := 0;
    while i < n
      invariant 0 <= i <= n
      invariant View(mem) == Copied(m, dest, src, i)
    {
      CopiedForward(m, dest, src, i);
      mem[dest + i] := mem[src + i];
      i := i + 1;
    }
  }

  lemma {:induction false} WordCopied(m: seq<byte>, dest: nat, src: nat, w: nat)
    requires dest + 8 <= |m| && src + 8 <= |m| && ToLe(w, 8) == m[src..src + 8]
    ensures Splice(m, dest, ToLe(w, 8)) == Copied(m, dest, src, 8)
  {
  }

  method CopyWord(mem: array<byte>, dest: nat, src: nat)
    requires dest + 8 <= mem.Length && src + 8 <= mem.Length
    modifies mem
    ensures View(mem) == Copied(old(View(mem)), dest, src, 8)
  {
    var w := Load64(mem, src);
    WordCopied(View(mem), dest, src, w);
    Store64(mem, dest, w);
  }

  method CopyWords(mem: array<byte>, dest: nat, src: nat, n: nat) returns (done: nat)
    requires dest + n <= mem.Length && src + n <= mem.Length && ForwardSafe(dest, src, n)
    modifies mem
    ensures done <= n < done + 8 && View(mem) == Copied(old(View(mem)), dest, src, done)
  {
    hide Copied, View;
    ghost var m := View(mem);
    NothingCopied(m, dest, src);
    done := 0;
    while n - done >= 8
      invariant done <= n
      invariant View(mem) == Copied(m, dest, src, done)
    {
      CopyWord(mem, dest + done, src + done);
      CopiedJoin(m, dest, src, done, 8);
      done := done + 8;
    }
  }

  /** Equally aligned: a byte prefix up to a word boundary, then whole words. */
  method CopyAligned(mem: array<byte>, dest: nat, src: nat, n: nat) returns (done: nat)
    requires dest + n <= mem.Length && src + n <= mem.Length && ForwardSafe(dest, src, n) && n >= 16
    modifies mem
    ensures done <= n < done + 8 && View(mem) == Copied(old(View(mem)), dest, src, done)
  {
    hide Copied, View;
    ghost var m := View(mem);
    var align := dest % 8;
    var prefix := if align != 0 then 8 - align else 0;
    CopyBytes(mem, dest, src, prefix);
    var words := CopyWords(mem, dest + prefix, src + prefix, n - prefix);
    CopiedJoin(m, dest, src, prefix, words);
    done := prefix + words;
  }

  /** `memcpy`, on disjoint ranges and also downwards onto an overlapping one. */
  method MemCpy(mem: array<byte>, dest: nat, src: nat, n: nat)
    requires dest + n <= mem.Length && src + n <= mem.Length && ForwardSafe(dest, src, n)
    modifies mem
    ensures View(mem) == Copied(old(View(mem)), dest, src, n)
  {
    hide Copied, View;
    ghost var m := View(mem);
    NothingCopied(m, dest, src);
    var done := 0;
    if n >= 16 && dest % 8 == src % 8 {
      done := CopyAligned(mem, dest, src, n);
    }
    CopyBytes(mem, dest + done, src + done, n - done);
    CopiedJoin(m, dest, src, done, n - done);
  }

  /** `memmove`: the simultaneous copy for every overlap. */
  method MemMove(mem: array<byte>, dest: nat, src: nat, n: nat)
    requires dest + n <= mem.Length && src + n <= mem.Length
    modifies mem
    ensures View(mem) == Copied(old(View(mem)), dest, src, n)
  {
    ghost var m := View(mem);
    if dest == src {
      return;
    }
    if dest > src && dest < src + n {
      var i := n;
      NothingCopied(m, dest + n, src + n);
      while i > 0
        invariant 0 <= i <= n
        invariant View(mem) == Copied(m, dest + i, src + i, n - i)
      {
        i := i - 1;
        CopiedBackward(m, dest, src, i, n);
        mem[dest + i] := mem[src + i];
      }
    } else {
      MemCpy(mem, dest, src, n);
    }
  }
}
