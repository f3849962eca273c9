/** Path resolution inside the volume: a tokeniser that cuts a buffer in place. */
module PathWalk {
  import opened Bytes
  import opened FatTable
  import opened FatChain
  import opened FatVolume
  import opened FatDir
  import opened ShortName

  const SLASH := 47
  const BUFFER := 256

  /** The non-empty pieces between slashes. */
  function Components(s: seq<byte>): seq<seq<byte>>
    decreases |s|
  {
    if s == [] then []
    else
      var i := IndexOf(s, SLASH);
      if i == |s| then [s]
      else (if i == 0 then [] else [s[..i]]) + Components(s[i + 1..])
  }

  /** Nothing behind the last slash: every component is a directory to enter. */
  predicate OpenEnded(s: seq<byte>) { s == [] || s[|s| - 1] == SLASH }

  lemma {:induction false} NamedHasComponent(s: seq<byte>)
    requires !OpenEnded(s)
    ensures Components(s) != []
    decreases |s|
  {
    var i := IndexOf(s, SLASH);
    if i < |s| {
      assert i < |s| - 1;
      assert s[i + 1..][|s[i + 1..]| - 1] == s[|s| - 1];
      NamedHasComponent(s[i + 1..]);
    }
  }

  /** A piece without a slash in front of a slash is one component, unless it is empty. */
  lemma {:induction false} FirstPiece(p: seq<byte>, rest: seq<byte>)
    requires IndexOf(p, SLASH) == |p|
    ensures Components(p + [SLASH] + rest) == (if p == [] then [] else [p]) + Components(rest)
  {
    var s := p + [SLASH] + rest;
    IndexOfSplit(p, rest, SLASH);
    assert s[..|p|] == p && s[|p| + 1..] == rest;
  }

  lemma {:induction false} OnlyPiece(p: seq<byte>)
    requires IndexOf(p, SLASH) == |p|
    ensures Components(p) == if p == [] then [] else [p]
  {
  }

  /** A slash separates: the components of the two sides, one after the other. */
  lemma {:induction false} ComponentsAroundSlash(a: seq<byte>, b: seq<byte>)
    ensures Components(a + [SLASH] + b) == Components(a) + Components(b)
    decreases |a|
  {
    hide Components, IndexOf;
    var i := IndexOf(a, SLASH);
    if i == |a| {
      FirstPiece(a, b);
      OnlyPiece(a);
    } else {
      var p, q := a[..i], a[i + 1..];
      NoSlashBefore(a, i);
      assert a == p + [SLASH] + q;
      FirstPiece(p, q);
      FirstPiece(p, q + [SLASH] + b);
      ComponentsAroundSlash(q, b);
      assert a + [SLASH] + b == p + [SLASH] + (q + [SLASH] + b);
      ConcatAssociates(if p == [] then [] else [p], Components(q), Components(b));
    }
  }

  lemma {:induction false} NoSlashBefore(a: seq<byte>, i: nat)
    requires i == IndexOf(a, SLASH)
    ensures IndexOf(a[..i], SLASH) == i
  {
  }

  lemma {:induction false} DoubledSlashText(a: seq<byte>, b: seq<byte>)
    ensures var s, t := a + [SLASH] + b, a + [SLASH] + [SLASH] + b;
      Components(s) == Components(t) && OpenEnded(s) == OpenEnded(t)
  {
    hide Components;
    ComponentsAroundSlash(a, b);
    ComponentsAroundSlash(a + [SLASH], b);
    ComponentsAroundSlash(a, []);
    OnlyPiece([]);
    ConcatEmpty(a + [SLASH]);
    ConcatEmpty(Components(a));
  }

  // ----- the walk -----

  ghost predicate HasChain(fat: seq<nat>, c: nat) { exists ch :: IsChain(fat, ch) && ch[0] == c }

  ghost function ChainFrom(fat: seq<nat>, c: nat): (ch: seq<nat>)
    requires HasChain(fat, c)
    ensures IsChain(fat, ch) && ch[0] == c
  {
    var ch :| IsChain(fat, ch) && ch[0] == c; ch
  }

  ghost function DirectoryAt(d: Disk, L: Layout, c: nat): seq<Dirent>
    requires L.Fits(|d|) && HasChain(Fat(d, L), c)
  {
    Directory(d, L, ChainFrom(Fat(d, L), c))
  }

  /** The directory a component names in directory `c`, if there is one. */
  ghost function Entered(d: Disk, L: Layout, c: nat, component: seq<byte>): Option<nat>
    requires L.Fits(|d|) && HasChain(Fat(d, L), c)
  {
    var dir := DirectoryAt(d, L, c);
    var r := Lookup(dir, ShortNameOf(component));
    if r.None? || !IsDirectory(dir[r.value]) then None else Some(ClusterOf(dir[r.value]))
  }

  /** Every directory the walk enters has a proper chain. */
  ghost predicate Walkable(d: Disk, L: Layout, c: nat, dirs: seq<seq<byte>>)
    requires L.Fits(|d|)
    decreases |dirs|
  {
    dirs != [] ==>
    && HasChain(Fat(d, L), c)
    && var r := Entered(d, L, c, dirs[0]);
      r.Some? ==> Walkable(d, L, r.value, dirs[1..])
  }

  /** Entering one directory after the other; nothing when one is missing or is a file. */
  ghost function Walk(d: Disk, L: Layout, c: nat, dirs: seq<seq<byte>>): Option<nat>
    requires L.Fits(|d|) && Walkable(d, L, c, dirs)
    decreases |dirs|
  {
    if dirs == [] then Some(c)
    else
      var r := Entered(d, L, c, dirs[0]);
      if r.None? then None else Walk(d, L, r.value, dirs[1..])
  }

  /** A directory, and the short name in it unless the path ends at the directory itself. */
  datatype Resolved = Missing | At(parent: nat, name: Option<Name>)

  function DirsOf(s: seq<byte>): seq<seq<byte>>
  {
    var cs := Components(s);
    if OpenEnded(s) || cs == [] then cs else cs[..|cs| - 1]
  }

  ghost function ResolveFrom(d: Disk, L: Layout, c: nat, s: seq<byte>): Resolved
    requires L.Fits(|d|) && Walkable(d, L, c, DirsOf(s))
  {
    var r, cs := Walk(d, L, c, DirsOf(s)), Components(s);
    if r.None? then Missing
    else At(r.value, if OpenEnded(s) || cs == [] then None else Some(ShortNameOf(cs[|cs| - 1])))
  }

  function Stripped(path: seq<byte>): seq<byte> { if path != [] && path[0] == SLASH then path[1..] else path }

  /** Doubling a slash anywhere does not change what a path resolves to. */
  lemma {:induction false} DoubledSlash(d: Disk, L: Layout, c: nat, a: seq<byte>, b: seq<byte>)
    requires L.Fits(|d|) && Walkable(d, L, c, DirsOf(a + [SLASH] + b))
    ensures Walkable(d, L, c, DirsOf(a + [SLASH] + [SLASH] + b))
    ensures ResolveFrom(d, L, c, a + [SLASH] + [SLASH] + b) == ResolveFrom(d, L, c, a + [SLASH] + b)
  {
    hide Components, OpenEnded, Walk, Walkable;
    DoubledSlashText(a, b);
  }

  // ----- one step of the tokeniser -----

  lemma {:induction false} LastComponent(s: seq<byte>)
    requires s != [] && IndexOf(s, SLASH) == |s|
    ensures DirsOf(s) == [] && !OpenEnded(s) && Components(s) == [s]
  {
    assert s[|s| - 1] != SLASH;
  }

  lemma {:induction false} LeadingSlash(s: seq<byte>)
    requires s != [] && s[0] == SLASH
    ensures Components(s) == Components(s[1..]) && OpenEnded(s) == OpenEnded(s[1..]) && DirsOf(s) == DirsOf(s[1..])
  {
    hide Components;
    EmptyFirst(s);
    if |s| > 1 {
      assert s[1..][|s[1..]| - 1] == s[|s| - 1];
    }
  }

  lemma {:induction false} EmptyFirst(s: seq<byte>)
    requires s != [] && s[0] == SLASH
    ensures Components(s) == Components(s[1..])
  {
    assert s == [] + [SLASH] + s[1..];
    FirstPiece([], s[1..]);
    ConcatEmpty(Components(s[1..]));
  }

  lemma {:induction false} FirstDirectory(s: seq<byte>, i: nat)
    requires i == IndexOf(s, SLASH) && 0 < i < |s|
    ensures Components(s) == [s[..i]] + Components(s[i + 1..])
    ensures OpenEnded(s) == OpenEnded(s[i + 1..])
    ensures DirsOf(s) == [s[..i]] + DirsOf(s[i + 1..])
  {
    hide Components;
    var t := s[i + 1..];
    NoSlashBefore(s, i);
    assert s == s[..i] + [SLASH] + t;
    FirstPiece(s[..i], t);
    if t != [] {
      assert t[|t| - 1] == s[|s| - 1];
      if !OpenEnded(t) {
        NamedHasComponent(t);
      }
    }
  }

  /** Going on at `next` with `t` resolves to the same as going on at `c` with `s`. */
  ghost predicate SameWalk(d: Disk, L: Layout, c: nat, s: seq<byte>, next: Option<nat>, t: seq<byte>)
  {
    && L.Fits(|d|) && Walkable(d, L, c, DirsOf(s))
    && if next.None? then ResolveFrom(d, L, c, s) == Missing
       else Walkable(d, L, next.value, DirsOf(t)) && ResolveFrom(d, L, c, s) == ResolveFrom(d, L, next.value, t)
  }

  lemma {:induction false} SkipSlash(d: Disk, L: Layout, c: nat, s: seq<byte>)
    requires L.Fits(|d|) && Walkable(d, L, c, DirsOf(s)) && s != [] && s[0] == SLASH
    ensures SameWalk(d, L, c, s, Some(c), s[1..])
  {
    hide Components, Walkable, Walk, OpenEnded, DirsOf;
    LeadingSlash(s);
  }

  lemma {:induction false} CutFirst(d: Disk, L: Layout, c: nat, s: seq<byte>, i: nat)
    requires L.Fits(|d|) && Walkable(d, L, c, DirsOf(s))
    requires i == IndexOf(s, SLASH) && 0 < i < |s|
    ensures HasChain(Fat(d, L), c)
    ensures SameWalk(d, L, c, s, Entered(d, L, c, s[..i]), s[i + 1..])
  {
    hide Entered, Components, HasChain, OpenEnded, DirsOf, Walk, Walkable;
    FirstDirectory(s, i);
    var rest := s[i + 1..];
    WalkFirst(d, L, c, s[..i], DirsOf(rest));
    if !OpenEnded(rest) {
      LastOf(s, i);
    }
  }

  lemma {:induction false} LastOf(s: seq<byte>, i: nat)
    requires i == IndexOf(s, SLASH) && 0 < i < |s| && !OpenEnded(s[i + 1..])
    ensures var cs, rs := Components(s), Components(s[i + 1..]);
      cs != [] && rs != [] && cs[|cs| - 1] == rs[|rs| - 1]
  {
    FirstDirectory(s, i);
    NamedHasComponent(s[i + 1..]);
  }

  lemma {:induction false} WalkFirst(d: Disk, L: Layout, c: nat, first: seq<byte>, rest: seq<seq<byte>>)
    requires L.Fits(|d|) && Walkable(d, L, c, [first] + rest)
    ensures HasChain(Fat(d, L), c)
    ensures var r := Entered(d, L, c, first);
      if r.None? then Walk(d, L, c, [first] + rest) == None
      else Walkable(d, L, r.value, rest) && Walk(d, L, c, [first] + rest) == Walk(d, L, r.value, rest)
  {
    assert ([first] + rest)[0] == first && ([first] + rest)[1..] == rest;
  }

  /** The lookup of one component and the step into the directory it names. */
  method Enter(fs: FatFs, cluster: nat, component: seq<byte>) returns (next: Option<nat>)
    requires fs.L.Fits(|fs.disk|) && HasChain(Fat(fs.disk, fs.L), cluster)
    ensures next == Entered(fs.disk, fs.L, cluster, component)
  {
    hide IsChain, Fat, Directory, HasChain, Lookup, Layout.Fits;
    ghost var ch := ChainFrom(Fat(fs.disk, fs.L), cluster);
    var target := ToShortName(component);
    var found, de := FindEntry(fs, cluster, target, ch);
    if !found || !IsDirectory(de) {
      return None;
    }
    next := Some(ClusterOf(de));
  }

  /** The zero-terminated text that starts at `at`. */
  method TextAt(buf: array<byte>, at: nat, ghost text: seq<byte>) returns (r: seq<byte>)
    requires at + |text| < buf.Length && buf[at + |text|] == 0
    requires buf[at..at + |text|] == text && 0 !in text
    ensures r == text
  {
    forall j | at <= j < at + |text|
      ensures buf[j] != 0
    {
      assert buf[j] == text[j - at];
    }
    var i := at;
    while buf[i] != 0
      invariant at <= i <= at + |text|
      invariant forall j :: at <= j < i ==> buf[j] != 0
      decreases at + |text| - i
    {
      assert i < at + |text|;
      i := i + 1;
    }
    r := buf[at..i];
  }

  /** `strchr`: the first slash of the text that starts at `at`, or its end. */
  method SlashIn(buf: array<byte>, at: nat, ghost text: seq<byte>) returns (i: nat)
    requires at + |text| < buf.Length && buf[at + |text|] == 0
    requires buf[at..at + |text|] == text && 0 !in text
    ensures i == at + IndexOf(text, SLASH)
  {
    i := at;
    assert forall j :: 0 <= j < |text| ==> buf[at + j] == text[j];
    while buf[i] != 0 && buf[i] != SLASH
      invariant at <= i <= at + |text|
      invariant forall j :: at <= j < i ==> buf[j] != SLASH
      decreases at + |text| - i
    {
      assert i < at + |text|;
      i := i + 1;
    }
    ghost var k := IndexOf(text, SLASH);
    assert k < |text| ==> buf[at + k] == SLASH;
    assert i < at + |text| ==> buf[i] == text[i - at];
  }

  /** The bytes of `text` from `start` on, still uncut in the buffer, with the final zero. */
  ghost predicate Uncut(buf: array<byte>, text: seq<byte>, start: nat)
    reads buf
  {
    && start <= |text| < buf.Length
    && buf[start..|text|] == text[start..]
    && buf[|text|] == 0
  }

  lemma {:induction false} UncutAt(buf: array<byte>, text: seq<byte>, start: nat)
    requires Uncut(buf, text, start)
    ensures forall j :: start <= j < |text| ==> buf[j] == text[j]
  {
    forall j | start <= j < |text|
      ensures buf[j] == text[j]
    {
      assert buf[start..|text|][j - start] == text[start..][j - start];
    }
  }

  lemma {:induction false} UncutFrom(buf: array<byte>, text: seq<byte>, start: nat)
    requires start <= |text| < buf.Length && buf[|text|] == 0 && forall j :: start <= j < |text| ==> buf[j] == text[j]
    ensures Uncut(buf, text, start)
  {
  }

  /** Finding the next slash and cutting there; without one the buffer is left as it is. */
  method CutAt(tmp: array<byte>, start: nat, ghost text: seq<byte>) returns (slash: bool, i: nat)
    requires 0 !in text && Uncut(tmp, text, start)
    modifies tmp
    ensures i == start + IndexOf(text[start..], SLASH) <= |text|
    ensures slash <==> i < |text|
    ensures tmp[start..i] == text[start..i] && tmp[i] == 0
    ensures slash ==> text[i] == SLASH && Uncut(tmp, text, i + 1)
  {
    ghost var rest := text[start..];
    i := SlashIn(tmp, start, rest);
    slash := tmp[i] != 0;
    if i < |text| {
      assert tmp[i] == rest[i - start];
    }
    UncutAt(tmp, text, start);
    if slash {
      tmp[i] := 0;
      UncutFrom(tmp, text, i + 1);
    }
    assert tmp[start..i] == text[start..i];
  }

  /** The text up to the next slash or the end, cut out of the buffer. */
  method NextToken(tmp: array<byte>, start: nat, ghost text: seq<byte>)
    returns (slash: bool, start': nat, token: seq<byte>)
    requires 0 !in text && Uncut(tmp, text, start)
    modifies tmp
    ensures var rest := text[start..];
      var k := IndexOf(rest, SLASH);
      && token == rest[..k]
      && (slash <==> k < |rest|)
      && (!slash ==> token == rest)
      && (slash ==> start < start' <= |text| && Uncut(tmp, text, start') && text[start'..] == rest[k + 1..])
  {
    var i;
    slash, i := CutAt(tmp, start, text);
    token := TextAt(tmp, start, text[start..i]);
    start' := i + 1;
  }

  /** What stands in front of the slash is entered, unless it is empty. */
  method Descend(fs: FatFs, cluster: nat, component: seq<byte>, ghost rest: seq<byte>) returns (next: Option<nat>)
    requires fs.L.Fits(|fs.disk|) && Walkable(fs.disk, fs.L, cluster, DirsOf(rest))
    requires IndexOf(rest, SLASH) < |rest| && component == rest[..IndexOf(rest, SLASH)]
    ensures SameWalk(fs.disk, fs.L, cluster, rest, next, rest[IndexOf(rest, SLASH) + 1..])
  {
    hide DirsOf, Walkable, SameWalk, Entered, HasChain, Fat;
    if component != [] {
      CutFirst(fs.disk, fs.L, cluster, rest, IndexOf(rest, SLASH));
      next := Enter(fs, cluster, component);
    } else {
      SkipSlash(fs.disk, fs.L, cluster, rest);
      next := Some(cluster);
    }
  }

  lemma {:induction false} UncutEnd(buf: array<byte>, text: seq<byte>, start: nat)
    requires 0 !in text && Uncut(buf, text, start)
    ensures start <= |text| < buf.Length && (buf[start] == 0 <==> start == |text|)
  {
    assert start < |text| ==> buf[start] == buf[start..|text|][0] == text[start];
  }

  lemma {:induction false} UncutAll(buf: array<byte>, text: seq<byte>)
    requires |text| < buf.Length && buf[|text|] == 0 && forall i :: 0 <= i < |text| ==> buf[i] == text[i]
    ensures Uncut(buf, text, 0) && text[0..] == text
  {
    UncutFrom(buf, text, 0);
  }

  lemma {:induction false} SameWalkStart(d: Disk, L: Layout, c: nat, s: seq<byte>)
    requires L.Fits(|d|) && Walkable(d, L, c, DirsOf(s))
    ensures SameWalk(d, L, c, s, Some(c), s)
  {
  }

  lemma {:induction false} SameWalkHere(d: Disk, L: Layout, s: seq<byte>, c: nat, t: seq<byte>)
    requires SameWalk(d, L, L.root, s, Some(c), t)
    ensures L.Fits(|d|) && Walkable(d, L, L.root, DirsOf(s)) && Walkable(d, L, c, DirsOf(t))
    ensures ResolveFrom(d, L, L.root, s) == ResolveFrom(d, L, c, t)
  {
  }

  lemma {:induction false} SameWalkOn(
    d: Disk, L: Layout, s: seq<byte>, c: nat, t: seq<byte>, next: Option<nat>, u: seq<byte>)
    requires SameWalk(d, L, L.root, s, Some(c), t) && SameWalk(d, L, c, t, next, u)
    ensures SameWalk(d, L, L.root, s, next, u)
    ensures next.None? ==> ResolveFrom(d, L, L.root, s) == Missing
  {
  }

  /** The tokeniser over a private copy of the text. */
  method ResolveText(fs: FatFs, text: seq<byte>) returns (res: Resolved)
    requires fs.L.Fits(|fs.disk|) && 0 !in text && |text| < BUFFER
    requires Walkable(fs.disk, fs.L, fs.L.root, DirsOf(text))
    ensures res == ResolveFrom(fs.disk, fs.L, fs.L.root, text)
  {
    hide DirsOf, Walkable, Walk, ResolveFrom, ShortNameOf, Fat, IndexOf, Uncut, SameWalk;
    var tmp := new byte[BUFFER](i => if 0 <= i < |text| then text[i] else 0);
    var cluster, start := fs.L.root, 0;
    UncutAll(tmp, text);
    SameWalkStart(fs.disk, fs.L, cluster, text);
    while tmp[start] != 0
      invariant start <= |text| && Uncut(tmp, text, start)
      invariant SameWalk(fs.disk, fs.L, fs.L.root, text, Some(cluster), text[start..])
      decreases |text| - start
    {
      ghost var rest, at := text[start..], cluster;
      UncutEnd(tmp, text, start);
      SameWalkHere(fs.disk, fs.L, text, cluster, rest);
      var slash, start', component := NextToken(tmp, start, text);
      if !slash {
        NamedEnd(fs.disk, fs.L, cluster, rest);
        var name := ToShortName(component);
        return At(cluster, Some(name));
      }
      var next := Descend(fs, cluster, component, rest);
      SameWalkOn(fs.disk, fs.L, text, at, rest, next, text[start'..]);
      if next.None? {
        return Missing;
      }
      cluster, start := next.value, start';
    }
    UncutEnd(tmp, text, start);
    assert text[start..] == [];
    SameWalkHere(fs.disk, fs.L, text, cluster, []);
    EmptyEnd(fs.disk, fs.L, cluster);
    return At(cluster, None);
  }

  lemma {:induction false} EmptyEnd(d: Disk, L: Layout, c: nat)
    requires L.Fits(|d|)
    ensures Walkable(d, L, c, DirsOf([])) && ResolveFrom(d, L, c, []) == At(c, None)
  {
    assert Components([]) == [];
  }

  lemma {:induction false} NamedEnd(d: Disk, L: Layout, c: nat, s: seq<byte>)
    requires L.Fits(|d|) && s != [] && IndexOf(s, SLASH) == |s|
    ensures Walkable(d, L, c, DirsOf(s)) && ResolveFrom(d, L, c, s) == At(c, Some(ShortNameOf(s)))
  {
    LastComponent(s);
  }

  /** `fat32_resolve` on a path without inner zeros. */
  method Resolve(fs: FatFs, path: seq<byte>) returns (res: Resolved)
    requires fs.L.Fits(|fs.disk|) && 0 !in path
    requires |Stripped(path)| < BUFFER ==> Walkable(fs.disk, fs.L, fs.L.root, DirsOf(Stripped(path)))
    ensures |Stripped(path)| >= BUFFER ==> res == Missing
    ensures |Stripped(path)| < BUFFER ==> res == ResolveFrom(fs.disk, fs.L, fs.L.root, Stripped(path))
  {
    if path == [] || path == [SLASH] {
      return At(fs.L.root, None);
    }
    var text := path;
    if text[0] == SLASH {
      text := text[1..];
    }
    if |text| >= BUFFER {
      return Missing;
    }
    res := ResolveText(fs, text);
  }
}
