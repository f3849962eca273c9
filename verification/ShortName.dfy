/** Short names: eleven bytes of name and extension, padded with spaces, and their printed form. */
module ShortName {
  import opened Bytes
  import opened FatDir

  const DOT := 46
  const SPACE := 32
  const UNDERSCORE := 95

  /** Upper case, and no space inside a name. */
  function Fold(c: byte): (r: byte)
    ensures r != SPACE
    ensures r == DOT <==> c == DOT
    ensures r == 0 <==> c == 0
  {
    if 97 <= c <= 122 then c - 32 else if c == SPACE then UNDERSCORE else c
  }

  function FoldAll(s: seq<byte>): (r: seq<byte>)
    ensures |r| == |s|
    ensures forall i :: 0 <= i < |s| ==> r[i] == Fold(s[i])
  {
    seq(|s|, i requires 0 <= i < |s| => Fold(s[i]))
  }

  function Cut(s: seq<byte>, width: nat): (r: seq<byte>)
    ensures |r| <= width && r <= s && (|s| <= width ==> r == s)
  {
    if |s| <= width then s else s[..width]
  }

  function Pad(s: seq<byte>, width: nat): (r: seq<byte>)
    requires |s| <= width
    ensures |r| == width && s <= r && forall i :: |s| <= i < width ==> r[i] == SPACE
  {
    s + seq(width - |s|, _ => SPACE)
  }

  function Field(s: seq<byte>, width: nat): (r: seq<byte>)
    ensures |r| == width
  {
    Pad(FoldAll(Cut(s, width)), width)
  }

  /** Index of the first occurrence of `c`, or the length. */
  function IndexOf(s: seq<byte>, c: byte): (i: nat)
    ensures i <= |s|
    ensures forall j :: 0 <= j < i ==> s[j] != c
    ensures i < |s| ==> s[i] == c
  {
    if s == [] || s[0] == c then 0 else 1 + IndexOf(s[1..], c)
  }

  /** The short name of a path component: split at the first dot, unless it leads. */
  function ShortNameOf(s: seq<byte>): Name
  {
    var dot := IndexOf(s, DOT);
    if 0 < dot < |s| then Field(s[..dot], 8) + Field(s[dot + 1..], 3) else Field(s, 8) + Field([], 3)
  }

  /** The readable form of eleven bytes: up to the first space of each part. */
  function Printed(n: Name): seq<byte>
  {
    var name, ext := n[..8], n[8..];
    name[..IndexOf(name, SPACE)] + if ext[0] != SPACE then [DOT] + ext[..IndexOf(ext, SPACE)] else []
  }

  /** The part of a field before its padding is the folded text. */
  lemma {:induction false} FieldText(s: seq<byte>, width: nat)
    ensures var f := Field(s, width); f[..IndexOf(f, SPACE)] == FoldAll(Cut(s, width))
    ensures width > 0 ==> (Field(s, width)[0] == SPACE <==> s == [])
  {
    var f, t := Field(s, width), FoldAll(Cut(s, width));
    assert forall i :: 0 <= i < |t| ==> f[i] == t[i];
    var i := IndexOf(f, SPACE);
    if |t| < width {
      assert f[|t|] == SPACE;
    }
  }

  /** Folding and cutting again changes nothing. */
  lemma {:induction false} FieldAgain(s: seq<byte>, width: nat)
    ensures Field(FoldAll(Cut(s, width)), width) == Field(s, width)
  {
    var t := FoldAll(Cut(s, width));
    assert FoldAll(t) == t;
  }

  lemma {:induction false} IndexOfFolded(s: seq<byte>)
    ensures IndexOf(FoldAll(s), DOT) == IndexOf(s, DOT)
  {
    var i, j, t := IndexOf(s, DOT), IndexOf(FoldAll(s), DOT), FoldAll(s);
    assert i < |s| ==> t[i] == DOT;
    assert j < |s| ==> s[j] == DOT;
  }

  lemma {:induction false} IndexOfSplit(a: seq<byte>, b: seq<byte>, c: byte)
    requires IndexOf(a, c) == |a|
    ensures IndexOf(a + [c] + b, c) == |a|
  {
    var s := a + [c] + b;
    assert s[|a|] == c;
    assert forall j :: 0 <= j < |a| ==> s[j] == a[j];
  }

  /** Where the first dot of a cut name is, when that name had no inner dot or a leading one. */
  lemma {:induction false} IndexOfCut(s: seq<byte>, width: nat)
    requires IndexOf(s, DOT) == |s| || IndexOf(s, DOT) == 0
    ensures var i := IndexOf(Cut(s, width), DOT); i == |Cut(s, width)| || i == 0
  {
    var i, t := IndexOf(Cut(s, width), DOT), Cut(s, width);
    if i < |t| {
      assert s[i] == t[i];
    }
    if s != [] && s[0] == DOT && t != [] {
      assert t[0] == s[0];
    }
  }

  /** Printing a short name and shortening it again gives the same eleven bytes, for every text. */
  lemma {:induction false} PrintedShortName(s: seq<byte>)
    ensures ShortNameOf(Printed(ShortNameOf(s))) == ShortNameOf(s)
  {
    var dot := IndexOf(s, DOT);
    if 0 < dot < |s| {
      SplitName(s[..dot], s[dot + 1..]);
    } else {
      PlainName(s);
    }
  }

  lemma {:induction false} SplitName(a: seq<byte>, b: seq<byte>)
    requires a != [] && IndexOf(a, DOT) == |a|
    ensures ShortNameOf(Printed(Field(a, 8) + Field(b, 3))) == Field(a, 8) + Field(b, 3)
  {
    hide Field, IndexOf;
    var n: Name := Field(a, 8) + Field(b, 3);
    assert n[..8] == Field(a, 8) && n[8..] == Field(b, 3);
    FieldText(a, 8);
    FieldText(b, 3);
    FieldAgain(a, 8);
    FieldAgain(b, 3);
    var x, y := FoldAll(Cut(a, 8)), FoldAll(Cut(b, 3));
    IndexOfFolded(Cut(a, 8));
    assert IndexOf(Cut(a, 8), DOT) == |Cut(a, 8)| by { IndexOfCut(a, 8); assert Cut(a, 8)[0] == a[0]; }
    if b != [] {
      assert Printed(n) == x + [DOT] + y;
      IndexOfSplit(x, y, DOT);
      assert (x + [DOT] + y)[..|x|] == x && (x + [DOT] + y)[|x| + 1..] == y;
    } else {
      assert Printed(n) == x;
    }
  }

  lemma {:induction false} PlainName(s: seq<byte>)
    requires IndexOf(s, DOT) == |s| || IndexOf(s, DOT) == 0
    ensures ShortNameOf(Printed(Field(s, 8) + Field([], 3))) == Field(s, 8) + Field([], 3)
  {
    var n: Name := Field(s, 8) + Field([], 3);
    assert n[..8] == Field(s, 8) && n[8..] == Field([], 3);
    FieldText(s, 8);
    FieldText([], 3);
    FieldAgain(s, 8);
    var x := FoldAll(Cut(s, 8));
    assert Printed(n) == x;
    IndexOfFolded(Cut(s, 8));
    IndexOfCut(s, 8);
  }

  /** What stands in front of the first inner dot, and what stands behind it. */
  function Base(s: seq<byte>): seq<byte> { var dot := IndexOf(s, DOT); if 0 < dot < |s| then s[..dot] else s }

  function Extension(s: seq<byte>): seq<byte> { var dot := IndexOf(s, DOT); if 0 < dot < |s| then s[dot + 1..] else [] }

  /** Two texts share a short name exactly when eight bytes of base and three of extension agree once folded. */
  lemma {:induction false} ShortNamesCollide(s: seq<byte>, t: seq<byte>)
    ensures ShortNameOf(s) == ShortNameOf(t) <==>
      && FoldAll(Cut(Base(s), 8)) == FoldAll(Cut(Base(t), 8))
      && FoldAll(Cut(Extension(s), 3)) == FoldAll(Cut(Extension(t), 3))
  {
    hide Field, IndexOf;
    SameField(Base(s), Base(t), 8);
    SameField(Extension(s), Extension(t), 3);
    assert ShortNameOf(s)[..8] == Field(Base(s), 8) && ShortNameOf(s)[8..] == Field(Extension(s), 3);
    assert ShortNameOf(t)[..8] == Field(Base(t), 8) && ShortNameOf(t)[8..] == Field(Extension(t), 3);
  }

  lemma {:induction false} SameField(s: seq<byte>, t: seq<byte>, width: nat)
    ensures Field(s, width) == Field(t, width) <==> FoldAll(Cut(s, width)) == FoldAll(Cut(t, width))
  {
    FieldText(s, width);
    FieldText(t, width);
  }

  // ----- what a short name looks like -----

  /** No short name has a lower-case letter. */
  lemma {:induction false} NoLowerCase(s: seq<byte>)
    ensures forall i :: 0 <= i < 11 ==> !(97 <= ShortNameOf(s)[i] <= 122)
  {
    hide IndexOf;
    FieldUpper(Base(s), 8);
    FieldUpper(Extension(s), 3);
    assert ShortNameOf(s) == Field(Base(s), 8) + Field(Extension(s), 3);
  }

  lemma {:induction false} FieldUpper(s: seq<byte>, width: nat)
    ensures forall i :: 0 <= i < width ==> !(97 <= Field(s, width)[i] <= 122)
  {
    var t := FoldAll(Cut(s, width));
    forall i | 0 <= i < width
      ensures !(97 <= Field(s, width)[i] <= 122)
    {
      assert i < |t| ==> Field(s, width)[i] == t[i];
    }
  }

  /** The same byte, the same letter in the other case, or a space for an underscore. */
  predicate Alike(a: byte, b: byte)
  {
    || a == b
    || (65 <= a <= 90 && b == a + 32) || (65 <= b <= 90 && a == b + 32)
    || (a == 32 && b == 95) || (a == 95 && b == 32)
  }

  /** Texts that differ only so have the same short name. */
  lemma {:induction false} AlikeNames(s: seq<byte>, t: seq<byte>)
    requires |s| == |t| && forall i :: 0 <= i < |s| ==> Alike(s[i], t[i])
    ensures ShortNameOf(s) == ShortNameOf(t)
  {
    hide IndexOf;
    assert FoldAll(s) == FoldAll(t);
    IndexOfFolded(s);
    IndexOfFolded(t);
    assert FoldAll(Cut(Base(s), 8)) == FoldAll(Cut(Base(t), 8));
    assert FoldAll(Cut(Extension(s), 3)) == FoldAll(Cut(Extension(t), 3));
    ShortNamesCollide(s, t);
  }

  /** No dot, no space and no lower-case letter. */
  predicate Plain(s: seq<byte>) { forall i :: 0 <= i < |s| ==> s[i] != 46 && s[i] != 32 && !(97 <= s[i] <= 122) }

  /** A plain name that fits stands in its eleven bytes as it is, and is printed as it was. */
  lemma {:induction false} PlainText(base: seq<byte>, ext: seq<byte>)
    requires Plain(base) && Plain(ext) && 1 <= |base| <= 8 && |ext| <= 3
    ensures var text := if ext == [] then base else base + [46] + ext;
      && ShortNameOf(text) == base + seq(8 - |base|, _ => 32) + ext + seq(3 - |ext|, _ => 32)
      && Printed(ShortNameOf(text)) == text
  {
    hide IndexOf, ShortNameOf, Field;
    PlainFields(base, ext);
    PlainField(base, 8);
    PlainField(ext, 3);
    FieldText(base, 8);
    FieldText(ext, 3);
    var n: Name := Field(base, 8) + Field(ext, 3);
    assert n[..8] == Field(base, 8) && n[8..] == Field(ext, 3);
  }

  lemma {:induction false} PlainField(s: seq<byte>, width: nat)
    requires Plain(s) && |s| <= width
    ensures FoldAll(Cut(s, width)) == s && Field(s, width) == s + seq(width - |s|, _ => 32)
  {
    assert FoldAll(s) == s;
  }

  lemma {:induction false} PlainFields(base: seq<byte>, ext: seq<byte>)
    requires Plain(base) && base != []
    ensures ShortNameOf(if ext == [] then base else base + [46] + ext) == Field(base, 8) + Field(ext, 3)
  {
    hide Field, IndexOf;
    var i := IndexOf(base, DOT);
    assert i == |base|;
    if ext != [] {
      IndexOfSplit(base, ext, DOT);
      assert (base + [46] + ext)[..|base|] == base && (base + [46] + ext)[|base| + 1..] == ext;
    }
  }

  /** `hello.txt` becomes `HELLO   TXT`. */
  lemma {:induction false} HelloName()
    ensures ShortNameOf([104, 101, 108, 108, 111, 46, 116, 120, 116])
         == [72, 69, 76, 76, 79, 32, 32, 32, 84, 88, 84]
  {
    hide ShortNameOf;
    var upper: seq<byte> := [72, 69, 76, 76, 79, 46, 84, 88, 84];
    AlikeNames([104, 101, 108, 108, 111, 46, 116, 120, 116], upper);
    PlainText([72, 69, 76, 76, 79], [84, 88, 84]);
    assert upper == [72, 69, 76, 76, 79] + [46] + [84, 88, 84];
  }

  // ----- the loops -----

  /** One field: a buffer of spaces whose front is overwritten. */
  method FillField(text: seq<byte>, width: nat) returns (f: seq<byte>)
    ensures f == Field(text, width)
  {
    var buf := new byte[width](_ => SPACE);
    var len := |text|;
    if len > width { len := width; }
    var i := 0;
    while i < len
      invariant 0 <= i <= len
      invariant forall j :: 0 <= j < i ==> buf[j] == Fold(text[j])
      invariant forall j :: i <= j < width ==> buf[j] == SPACE
    {
      var c := text[i];
      if 97 <= c <= 122 { c := c - 32; }
      if c == SPACE { c := UNDERSCORE; }
      buf[i] := c;
      i := i + 1;
    }
    f := buf[..];
    assert forall j :: 0 <= j < width ==> f[j] == Field(text, width)[j];
  }

  method FindChar(s: seq<byte>, c: byte) returns (i: nat)
    ensures i == IndexOf(s, c)
  {
    i := 0;
    while i < |s| && s[i] != c
      invariant 0 <= i <= |s|
      invariant forall j :: 0 <= j < i ==> s[j] != c
    {
      i := i + 1;
    }
    var k := IndexOf(s, c);
    assert k < |s| ==> s[k] == c;
  }

  /** `to_8_3`. */
  method ToShortName(src: seq<byte>) returns (dst: Name)
    ensures dst == ShortNameOf(src)
  {
    var dot := FindChar(src, DOT);
    var name, ext;
    if dot < |src| && dot != 0 {
      name := FillField(src[..dot], 8);
      ext := FillField(src[dot + 1..], 3);
    } else {
      name := FillField(src, 8);
      ext := FillField([], 3);
    }
    dst := name + ext;
  }

  /** `fat32_name_to_string`. */
  method NameToString(n: Name) returns (out: seq<byte>)
    ensures out == Printed(n)
  {
    var i := FindChar(n[..8], SPACE);
    out := n[..8][..i];
    if n[8] != SPACE {
      out := out + [DOT];
      var j := FindChar(n[8..], SPACE);
      out := out + n[8..][..j];
    }
  }
}
