/** Path text of the virtual file system: normal form, translation under the bind, mount lookup. */
module VfsPath {
  import opened Bytes
  import opened PathWalk
  import ShortName

  predicate Printing(c: byte) { 32 <= c <= 126 }

  function Printable(s: seq<byte>): (r: seq<byte>)
    ensures forall i :: 0 <= i < |r| ==> Printing(r[i])
  {
    if s == [] then []
    else Printable(s[..|s| - 1]) + if Printing(s[|s| - 1]) then [s[|s| - 1]] else []
  }

  /** Every component with a slash in front. */
  function JoinAll(cs: seq<seq<byte>>): seq<byte>
  {
    if cs == [] then [] else JoinAll(cs[..|cs| - 1]) + [SLASH] + cs[|cs| - 1]
  }

  function Join(cs: seq<seq<byte>>): seq<byte> { if cs == [] then [SLASH] else JoinAll(cs) }

  /** The printable components, joined again. */
  function Normal(s: seq<byte>): seq<byte> { Join(Components(Printable(s))) }

  /** A component of a normal path. */
  ghost predicate Proper(c: seq<byte>) { c != [] && forall i :: 0 <= i < |c| ==> Printing(c[i]) && c[i] != SLASH }

  ghost predicate AllProper(cs: seq<seq<byte>>) { forall i :: 0 <= i < |cs| ==> Proper(cs[i]) }

  // ----- joining and splitting -----

  lemma {:induction false} OneComponent(c: seq<byte>)
    requires c != [] && forall i :: 0 <= i < |c| ==> c[i] != SLASH
    ensures Components(c) == [c]
  {
  }

  /** Splitting undoes joining. */
  lemma {:induction false} ComponentsOfJoin(cs: seq<seq<byte>>)
    requires AllProper(cs)
    ensures Components(JoinAll(cs)) == cs && Components(Join(cs)) == cs
  {
    if cs == [] {
      assert Components([SLASH]) == [] + Components([]);
    } else {
      var n := |cs| - 1;
      ComponentsOfJoin(cs[..n]);
      ComponentsAroundSlash(JoinAll(cs[..n]), cs[n]);
      assert Proper(cs[n]);
      OneComponent(cs[n]);
      assert cs == cs[..n] + [cs[n]];
    }
  }

  /** Components are not empty, hold no slash, and hold only bytes of the text. */
  lemma {:induction false} ComponentsProper(s: seq<byte>)
    requires forall i :: 0 <= i < |s| ==> Printing(s[i])
    ensures AllProper(Components(s))
    decreases |s|
  {
    if s != [] {
      var i := ShortName.IndexOf(s, SLASH);
      if i < |s| {
        ComponentsProper(s[i + 1..]);
      }
    }
  }

  lemma {:induction false} NormalProper(s: seq<byte>)
    ensures AllProper(Components(Printable(s))) && Components(Normal(s)) == Components(Printable(s))
  {
    ComponentsProper(Printable(s));
    ComponentsOfJoin(Components(Printable(s)));
  }

  lemma {:induction false} PrintableId(s: seq<byte>)
    requires forall i :: 0 <= i < |s| ==> Printing(s[i])
    ensures Printable(s) == s
  {
    if s != [] {
      PrintableId(s[..|s| - 1]);
      assert s == s[..|s| - 1] + [s[|s| - 1]];
    }
  }

  lemma {:induction false} PrintableJoin(a: seq<byte>, b: seq<byte>)
    ensures Printable(a + b) == Printable(a) + Printable(b)
    decreases |b|
  {
    if b == [] {
      ConcatEmpty(a);
    } else {
      var n := |b| - 1;
      PrintableJoin(a, b[..n]);
      assert (a + b)[..|a + b| - 1] == a + b[..n];
      assert (a + b)[|a + b| - 1] == b[n];
    }
  }

  lemma {:induction false} JoinPrinting(cs: seq<seq<byte>>)
    requires AllProper(cs)
    ensures forall i :: 0 <= i < |JoinAll(cs)| ==> Printing(JoinAll(cs)[i])
    ensures 0 !in JoinAll(cs) && 0 !in Join(cs) && Printable(Join(cs)) == Join(cs)
  {
    if cs != [] {
      JoinPrinting(cs[..|cs| - 1]);
      assert Proper(cs[|cs| - 1]);
    }
    PrintableId(Join(cs));
  }

  /** Components of the bytes 32 to 126, without slashes, are kept as they are. */
  lemma {:induction false} JoinIsNormal(cs: seq<seq<byte>>)
    requires forall i :: 0 <= i < |cs| ==> cs[i] != [] && SLASH !in cs[i]
    requires forall i, j :: 0 <= i < |cs| && 0 <= j < |cs[i]| ==> 32 <= cs[i][j] <= 126
    ensures Normal(Join(cs)) == Join(cs)
  {
    hide Components, Printable, Join;
    assert AllProper(cs);
    JoinPrinting(cs);
    ComponentsOfJoin(cs);
  }

  /** Any other byte is dropped, wherever it stands. */
  lemma {:induction false} OddByteDropped(a: seq<byte>, c: byte, b: seq<byte>)
    requires c < 32 || c > 126
    ensures Normal(a + [c] + b) == Normal(a + b)
  {
    hide Components;
    PrintableJoin(a + [c], b);
    PrintableJoin(a, [c]);
    PrintableJoin(a, b);
    OddByte(c);
    ConcatEmpty(Printable(a));
  }

  lemma {:induction false} OddByte(c: byte)
    requires c < 32 || c > 126
    ensures Printable([c]) == []
  {
    assert [c][..0] == [];
  }

  /** `//a b/`, a byte 1, `c/` becomes `/a b/c`. */
  lemma {:induction false} NormalExample()
    ensures Normal([47, 47, 97, 32, 98, 47, 1, 99, 47]) == [47, 97, 32, 98, 47, 99]
  {
    hide Components, Printable, JoinAll;
    var a, b: seq<byte> := [97, 32, 98], [99];
    OddByteDropped([47, 47, 97, 32, 98, 47], 1, [99, 47]);
    assert [47, 47, 97, 32, 98, 47] + [1] + [99, 47] == [47, 47, 97, 32, 98, 47, 1, 99, 47];
    var s: seq<byte> := [47, 47, 97, 32, 98, 47] + [99, 47];
    PrintableId(s);
    assert s == [47] + [SLASH] + (a + [SLASH] + (b + [SLASH] + []));
    TwoPieces(a, b);
  }

  lemma {:induction false} TwoPieces(a: seq<byte>, b: seq<byte>)
    requires a != [] && b != [] && SLASH !in a && SLASH !in b
    ensures Components([47] + [SLASH] + (a + [SLASH] + (b + [SLASH] + []))) == [a, b]
    ensures Join([a, b]) == [SLASH] + a + [SLASH] + b
  {
    hide Components;
    ComponentsAroundSlash([47], a + [SLASH] + (b + [SLASH] + []));
    ComponentsAroundSlash(a, b + [SLASH] + []);
    ComponentsAroundSlash(b, []);
    ComponentsOfJoin([]);
    OneComponent(a);
    OneComponent(b);
    OnlyPiece([]);
    assert [a, b][..1] == [a] && [a][..0] == [];
    assert JoinAll([a]) == [] + [SLASH] + a;
  }

  /** The normal form is a fixed point. */
  lemma {:induction false} NormalTwice(s: seq<byte>)
    ensures Normal(Normal(s)) == Normal(s)
  {
    NormalProper(s);
    JoinPrinting(Components(Printable(s)));
  }

  // ----- the scan -----

  predicate EndsInSlash(r: seq<byte>) { r != [] && r[|r| - 1] == SLASH }

  /** One more byte of the path. */
  function ScanStep(r: seq<byte>, c: byte): seq<byte>
  {
    if c == SLASH then (if EndsInSlash(r) then r else r + [SLASH])
    else if Printing(c) then r + [c]
    else r
  }

  function Scan(s: seq<byte>): (r: seq<byte>)
    ensures |r| <= |s|
  {
    if s == [] then [] else ScanStep(Scan(s[..|s| - 1]), s[|s| - 1])
  }

  function Trimmed(r: seq<byte>): seq<byte> { if |r| > 1 && EndsInSlash(r) then r[..|r| - 1] else r }

  function ScanOf(p: seq<byte>): seq<byte> { JoinAll(Components(p)) + if EndsInSlash(p) then [SLASH] else [] }

  /** The text behind the last slash. */
  lemma {:induction false} LastSlash(p: seq<byte>) returns (q: seq<byte>, w: seq<byte>)
    requires p != [] && p[0] == SLASH
    ensures p == q + [SLASH] + w && forall i :: 0 <= i < |w| ==> w[i] != SLASH
  {
    if p[|p| - 1] == SLASH {
      q, w := p[..|p| - 1], [];
    } else {
      q, w := LastSlash(p[..|p| - 1]);
      w := w + [p[|p| - 1]];
    }
  }

  /** Components, by what stands behind the last slash. */
  lemma {:induction false} LastComponent(q: seq<byte>, w: seq<byte>)
    requires forall i :: 0 <= i < |w| ==> w[i] != SLASH
    ensures Components(q + [SLASH] + w) == Components(q) + if w == [] then [] else [w]
    ensures ScanOf(q + [SLASH] + w) == JoinAll(Components(q)) + [SLASH] + w
  {
    ComponentsAroundSlash(q, w);
    if w == [] {
      ConcatEmpty(Components(q));
    } else {
      OneComponent(w);
      var cs := Components(q) + [w];
      assert cs[..|cs| - 1] == Components(q);
      assert (q + [SLASH] + w)[|q| + |w|] == w[|w| - 1];
    }
  }

  lemma {:induction false} ScanOfStep(p: seq<byte>, c: byte)
    requires p != [] && p[0] == SLASH && (c == SLASH || Printing(c))
    ensures ScanStep(ScanOf(p), c) == ScanOf(p + [c])
  {
    hide Components, JoinAll;
    var q, w := LastSlash(p);
    LastComponent(q, w);
    var front := JoinAll(Components(q)) + [SLASH];
    if c == SLASH {
      LastComponent(p, []);
      assert p + [SLASH] + [] == p + [c];
      if w == [] {
        ConcatEmpty(Components(q));
        assert ScanOf(p) == front;
      } else {
        assert EndsInSlash(front + w) == EndsInSlash(w) && !EndsInSlash(w);
        assert !EndsInSlash(p) by { assert p[|p| - 1] == w[|w| - 1]; }
        ConcatEmpty(JoinAll(Components(p)));
      }
    } else {
      LastComponent(q, w + [c]);
      assert q + [SLASH] + (w + [c]) == p + [c];
      ConcatAssociates(front, w, [c]);
    }
  }

  lemma {:induction false} ScanIs(s: seq<byte>)
    requires s != [] && s[0] == SLASH
    ensures Printable(s) != [] && Printable(s)[0] == SLASH
    ensures Scan(s) == ScanOf(Printable(s))
  {
    var n := |s| - 1;
    if n == 0 {
      assert s == [SLASH] && s[..0] == [];
      assert Printable(s) == [] + [SLASH];
      assert Scan(s) == [SLASH];
      LastComponent([], []);
      assert [] + [SLASH] + [] == Printable(s);
    } else {
      hide ScanOf;
      ScanIs(s[..n]);
      ConcatEmpty(Printable(s[..n]));
      if Printing(s[n]) {
        ScanOfStep(Printable(s[..n]), s[n]);
      }
    }
  }

  /** The scan, with a last slash dropped, gives the normal form. */
  lemma {:induction false} ScanNormal(s: seq<byte>)
    requires s != [] && s[0] == SLASH
    ensures Trimmed(Scan(s)) == Normal(s)
  {
    ScanIs(s);
    var p := Printable(s);
    var q, w := LastSlash(p);
    LastComponent(q, w);
  }

  // ----- normalising in place -----

  /** The buffer holds this text, ended by a zero byte. */
  ghost predicate HoldsText(buf: array<byte>, text: seq<byte>)
    reads buf
  {
    0 !in text && |text| < buf.Length && buf[..|text|] == text && buf[|text|] == 0
  }

  /** The two-pointer loop of `normalize_path`: what is written never overtakes what is read. */
  method ScanInPlace(buf: array<byte>, ghost text: seq<byte>) returns (dst: nat)
    requires HoldsText(buf, text)
    modifies buf
    ensures dst == |Scan(text)| && buf[..dst] == Scan(text)
  {
    hide Scan;
    ScanNothing(text);
    var src := 0;
    dst := 0;
    var lastSlash := false;
    assert forall j :: 0 <= j < |text| ==> buf[j] == text[j];
    while buf[src] != 0
      invariant dst <= src <= |text| < buf.Length
      invariant forall j :: src <= j < |text| ==> buf[j] == text[j]
      invariant buf[|text|] == 0
      invariant dst == |Scan(text[..src])| && buf[..dst] == Scan(text[..src])
      invariant lastSlash == EndsInSlash(Scan(text[..src]))
      decreases |text| - src
    {
      var c := buf[src];
      ScanAt(text, src);
      if c == SLASH {
        if !lastSlash {
          buf[dst] := SLASH;
          dst := dst + 1;
          lastSlash := true;
        }
        src := src + 1;
      } else if 32 <= c <= 126 {
        buf[dst] := c;
        dst := dst + 1;
        src := src + 1;
        lastSlash := false;
      } else {
        src := src + 1;
      }
      assert buf[..dst] == Scan(text[..src]);
    }
    TakeAll(text);
  }

  lemma {:induction false} ScanNothing(text: seq<byte>)
    ensures Scan(text[..0]) == []
  {
  }

  lemma {:induction false} ScanAt(text: seq<byte>, i: nat)
    requires i < |text|
    ensures Scan(text[..i + 1]) == ScanStep(Scan(text[..i]), text[i])
  {
    assert text[..i + 1][..i] == text[..i];
  }

  /**
   `normalize_path`: the normal form in place, for any text that begins with a slash. The first
   byte written is that slash, so the result is never empty.
   */
  method NormalizePath(buf: array<byte>, ghost text: seq<byte>) returns (ret: int)
    requires HoldsText(buf, text)
    modifies buf
    ensures text == [] || text[0] != SLASH ==> ret == -1 && HoldsText(buf, text)
    ensures text != [] && text[0] == SLASH ==> ret == 0 && HoldsText(buf, Normal(text))
  {
    hide Scan, Normal;
    assert text != [] ==> buf[0] == text[0];
    if buf[0] == 0 { return -1; }
    if buf[0] != SLASH { return -1; }
    ScanNormal(text);
    NormalHasNoZero(text);
    var dst := ScanInPlace(buf, text);
    ghost var r := Scan(text);
    assert dst > 0 ==> buf[dst - 1] == r[dst - 1];
    if dst > 1 && buf[dst - 1] == SLASH {
      dst := dst - 1;
    }
    assert buf[..dst] == Trimmed(r);
    buf[dst] := 0;
    assert buf[..dst] == Trimmed(r);
    return 0;
  }

  lemma {:induction false} NormalHasNoZero(s: seq<byte>)
    ensures 0 !in Normal(s)
  {
    NormalProper(s);
    JoinPrinting(Components(Printable(s)));
  }
}
