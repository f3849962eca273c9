/** From a user's path to a mount and a path inside it. */
module VfsLookup {
  import opened Bytes
  import opened PathWalk
  import opened VfsPath

  // ----- translation -----

  /** `n` below the directory `b`. */
  function Under(b: seq<byte>, n: seq<byte>): seq<byte> { if n == [SLASH] then b else b + n }

  /** The real path a user's path stands for, or nothing when it is malformed or too long. */
  function Translated(bind: Option<seq<byte>>, user: seq<byte>, size: nat): Option<seq<byte>>
  {
    if size < 2 || user == [] || user[0] != SLASH then None
    else match bind {
      case None => Some(Normal(user[..Min(|user|, size - 1)]))
      case Some(b) =>
        if user == [SLASH] then Some(b[..Min(|b|, size - 1)])
        else if |b| + |user| >= size then None
        else Some(Normal(b + user))
    }
  }

  lemma {:induction false} JoinAllConcat(a: seq<seq<byte>>, b: seq<seq<byte>>)
    ensures JoinAll(a + b) == JoinAll(a) + JoinAll(b)
    decreases |b|
  {
    if b == [] {
      ConcatEmpty(a);
    } else {
      var n := |b| - 1;
      JoinAllConcat(a, b[..n]);
      assert (a + b)[..|a + b| - 1] == a + b[..n];
      ConcatAssociates(JoinAll(a), JoinAll(b[..n]), [SLASH]);
      ConcatAssociates(JoinAll(a), JoinAll(b[..n]) + [SLASH], b[n]);
    }
  }

  /** The components of a path below another are those of both. */
  lemma {:induction false} NormalBelow(bs: seq<seq<byte>>, user: seq<byte>)
    requires AllProper(bs) && bs != [] && user != [] && user[0] == SLASH
    ensures Components(Printable(Join(bs) + user)) == bs + Components(Printable(user))
    ensures Normal(Join(bs) + user) == Under(Join(bs), Normal(user))
  {
    hide Components, JoinAll, Printable;
    var b, p := Join(bs), Printable(user);
    ScanIs(user);
    JoinPrinting(bs);
    PrintableJoin(b, user);
    var rest := p[1..];
    assert p == [] + [SLASH] + rest;
    assert b + p == b + [SLASH] + rest;
    ComponentsAroundSlash(b, rest);
    ComponentsAroundSlash([], rest);
    ComponentsOfJoin(bs);
    NoComponents();
    ConcatEmpty(Components(rest));
    var cs := Components(p);
    JoinAllConcat(bs, cs);
    NormalProper(user);
    RootOnly(cs);
    if cs == [] {
      ConcatEmpty(bs);
    }
  }

  lemma {:induction false} NoComponents()
    ensures Components([]) == [] && Components([SLASH]) == []
  {
    assert Components([SLASH]) == [] + Components([]);
  }

  /** Only the path without components is the single slash. */
  lemma {:induction false} RootOnly(cs: seq<seq<byte>>)
    requires AllProper(cs)
    ensures Join(cs) == [SLASH] <==> cs == []
  {
    if cs != [] {
      assert Proper(cs[|cs| - 1]);
    }
  }

  /** With the bind, translating gives the bind's path with the user's normal path below it. */
  lemma {:induction false} TranslationJoins(bs: seq<seq<byte>>, user: seq<byte>, size: nat)
    requires AllProper(bs) && bs != [] && user != [] && user[0] == SLASH
    requires |Join(bs)| + |user| < size
    ensures Translated(Some(Join(bs)), user, size) == Some(Under(Join(bs), Normal(user)))
  {
    hide Normal, Components, JoinAll;
    if user == [SLASH] {
      var b := Join(bs);
      assert b[..|b|] == b;
      SlashNormal();
    } else {
      assert |Join(bs)| > 0 by { RootOnly(bs); JoinNotEmpty(bs); }
      NormalBelow(bs, user);
    }
  }

  lemma {:induction false} SlashNormal()
    ensures Normal([SLASH]) == [SLASH]
  {
    PrintableId([SLASH]);
    NoComponents();
  }

  lemma {:induction false} JoinNotEmpty(cs: seq<seq<byte>>)
    ensures Join(cs) != [] && Join(cs)[0] == SLASH
    decreases |cs|
  {
    if |cs| == 1 {
      assert cs[..0] == [] && JoinAll(cs) == [] + [SLASH] + cs[0];
    } else if cs != [] {
      JoinNotEmpty(cs[..|cs| - 1]);
    }
  }

  /** `strncpy`: the text up to `n` bytes; a shorter one is followed by zeros, one past the limit. */
  method StrNCpy(buf: array<byte>, src: seq<byte>, n: nat)
    requires n < buf.Length
    modifies buf
    ensures var k := Min(|src|, n); buf[..k] == src[..k] && (k < n ==> buf[k] == 0)
  {
    var d := 0;
    while d < n && d < |src|
      invariant 0 <= d <= n && d <= |src|
      invariant buf[..d] == src[..d]
    {
      buf[d] := src[d];
      d := d + 1;
      assert buf[..d] == buf[..d - 1] + [src[d - 1]];
    }
    if d < n {
      ghost var k := d;
      while d <= n
        invariant k <= d <= n + 1
        invariant buf[..k] == src[..k]
        invariant d > k ==> buf[k] == 0
      {
        buf[d] := 0;
        d := d + 1;
      }
    }
  }

  /** `strncpy` with the last byte of the buffer cleared: the text, cut to fit. */
  method CopyCut(buf: array<byte>, src: seq<byte>, size: nat)
    requires 1 <= size <= buf.Length && 0 !in src
    modifies buf
    ensures HoldsText(buf, src[..Min(|src|, size - 1)])
  {
    StrNCpy(buf, src, size - 1);
    ghost var k := Min(|src|, size - 1);
    buf[size - 1] := 0;
    assert buf[..k] == src[..k];
  }

  /** `strcpy` and `strcat`: two texts one after the other. */
  method CopyBoth(buf: array<byte>, a: seq<byte>, b: seq<byte>)
    requires |a| + |b| < buf.Length && 0 !in a && 0 !in b
    modifies buf
    ensures HoldsText(buf, a + b)
  {
    var s := a + b;
    var d := 0;
    while d < |s|
      invariant 0 <= d <= |s|
      invariant buf[..d] == s[..d]
    {
      buf[d] := if d < |a| then a[d] else b[d - |a|];
      d := d + 1;
      assert buf[..d] == buf[..d - 1] + [s[d - 1]];
    }
    buf[d] := 0;
    assert buf[..|s|] == s;
  }

  /** `translate_path`. */
  method TranslatePath(user: seq<byte>, full: array<byte>, size: nat, bind: Option<seq<byte>>) returns (ret: int)
    requires size <= full.Length && 0 !in user
    requires bind.Some? ==> 0 !in bind.value && bind.value != [] && bind.value[0] == SLASH
    modifies full
    ensures var r := Translated(bind, user, size);
      if r.None? then ret == -1 else ret == 0 && HoldsText(full, r.value)
  {
    hide Normal;
    if size < 2 { return -1; }
    if user == [] || user[0] != SLASH { return -1; }
    match bind {
      case None =>
        CopyCut(full, user, size);
        ret := NormalizePath(full, user[..Min(|user|, size - 1)]);
      case Some(b) =>
        if |user| == 1 && user[0] == SLASH {
          CopyCut(full, b, size);
          return 0;
        }
        if |b| + |user| >= size { return -1; }
        CopyBoth(full, b, user);
        ret := NormalizePath(full, b + user);
    }
  }

  // ----- lookup -----

  /** A mount path is in front of the real path, up to a slash or the end. */
  predicate Matches(full: seq<byte>, path: seq<byte>)
  {
    && |path| <= |full| && full[..|path|] == path
    && (|full| == |path| || full[|path|] == SLASH)
  }

  /** On normal paths that is the prefix order of components, but the root matches only itself. */
  lemma {:induction false} MatchIsPrefix(rs: seq<seq<byte>>, ms: seq<seq<byte>>)
    requires AllProper(rs) && AllProper(ms)
    ensures Matches(Join(rs), Join(ms)) <==> if ms == [] then rs == [] else ms <= rs
  {
    ComponentsOfJoin(rs);
    ComponentsOfJoin(ms);
    if ms == [] {
      RootMatch(rs);
    } else {
      if ms <= rs { PrefixMatches(rs, ms); }
      if Matches(Join(rs), Join(ms)) { MatchesPrefix(rs, ms); }
    }
  }

  lemma {:induction false} RootMatch(rs: seq<seq<byte>>)
    requires AllProper(rs)
    ensures Matches(Join(rs), [SLASH]) <==> rs == []
  {
    RootOnly(rs);
    if rs != [] {
      SecondByte(rs);
    }
  }

  lemma {:induction false} SecondByte(rs: seq<seq<byte>>)
    requires AllProper(rs) && rs != []
    ensures |JoinAll(rs)| > 1 && JoinAll(rs)[1] != SLASH
    decreases |rs|
  {
    if |rs| == 1 {
      assert rs[..0] == [] && Proper(rs[0]);
      assert JoinAll(rs) == [] + [SLASH] + rs[0];
    } else {
      SecondByte(rs[..|rs| - 1]);
    }
  }

  lemma {:induction false} PrefixMatches(rs: seq<seq<byte>>, ms: seq<seq<byte>>)
    requires ms != [] && ms <= rs
    ensures Matches(Join(rs), Join(ms))
    ensures Join(rs) == Join(ms) + JoinAll(rs[|ms|..])
  {
    var t := rs[|ms|..];
    assert rs == ms + t;
    JoinAllConcat(ms, t);
    if t != [] { JoinNotEmpty(t); }
  }

  lemma {:induction false} MatchesPrefix(rs: seq<seq<byte>>, ms: seq<seq<byte>>)
    requires AllProper(rs) && AllProper(ms) && ms != [] && Matches(Join(rs), Join(ms))
    ensures ms <= rs
  {
    hide Components, JoinAll;
    ComponentsOfJoin(rs);
    ComponentsOfJoin(ms);
    var full, path := Join(rs), Join(ms);
    if |full| == |path| {
      assert full == path;
    } else {
      var rest := full[|path| + 1..];
      assert full == path + [SLASH] + rest;
      ComponentsAroundSlash(path, rest);
    }
  }

  /** The longest match among the mount paths. */
  ghost predicate IsBest(paths: seq<seq<byte>>, full: seq<byte>, i: nat)
  {
    && i < |paths| && Matches(full, paths[i])
    && forall j :: 0 <= j < |paths| && Matches(full, paths[j]) ==> |paths[j]| <= |paths[i]|
  }

  /** Two matches of the same length are the same text. */
  lemma {:induction false} BestUnique(paths: seq<seq<byte>>, others: seq<seq<byte>>, full: seq<byte>, i: nat, j: nat)
    requires IsBest(paths, full, i) && IsBest(others, full, j)
    requires forall p :: p in paths <==> p in others
    ensures paths[i] == others[j]
  {
    assert paths[i] in paths && others[j] in others;
    assert paths[i] in others && others[j] in paths;
  }

  /** The best match has all other matches' components in front of its own. */
  lemma {:induction false} BestIsDeepest(rs: seq<seq<byte>>, ms: seq<seq<byte>>, ns: seq<seq<byte>>)
    requires AllProper(rs) && AllProper(ms) && AllProper(ns)
    requires Matches(Join(rs), Join(ms)) && Matches(Join(rs), Join(ns)) && |Join(ns)| <= |Join(ms)|
    ensures ns <= ms
  {
    MatchIsPrefix(rs, ms);
    MatchIsPrefix(rs, ns);
    if ns != [] && ms != [] && |ms| < |ns| {
      assert ms <= ns;
      PrefixMatches(ns, ms);
      JoinNotEmpty(ns[|ms|..]);
    }
  }

  /** What stands behind a match, without its slash. */
  function Rest(full: seq<byte>, k: nat): seq<byte>
    requires k <= |full|
    decreases |full| - k
  {
    if k < |full| && full[k] == SLASH then Rest(full, k + 1) else full[k..]
  }

  /** A slash and then another byte: one slash is skipped. */
  lemma {:induction false} RestOneSlash(path: seq<byte>, tail: seq<byte>)
    requires |tail| > 1 && tail[0] == SLASH && tail[1] != SLASH
    ensures Rest(path + tail, |path|) == tail[1..]
  {
    var s, n := path + tail, |path|;
    assert s[n] == SLASH && s[n + 1] == tail[1];
    assert Rest(s, n) == Rest(s, n + 1) == s[n + 1..];
  }

  /** Mount path and rest rebuild a normal path; the rest is made of the components that are left. */
  lemma {:induction false} RestRebuilds(rs: seq<seq<byte>>, ms: seq<seq<byte>>)
    requires AllProper(rs) && AllProper(ms) && Matches(Join(rs), Join(ms))
    ensures var rel := Rest(Join(rs), |Join(ms)|);
      && Join(rs) == Join(ms) + (if rel == [] then [] else [SLASH] + rel)
      && ms <= rs && Components(rel) == rs[|ms|..]
  {
    hide Components, JoinAll;
    MatchIsPrefix(rs, ms);
    NoComponents();
    var full, path := Join(rs), Join(ms);
    if ms == rs {
      assert Rest(full, |path|) == [];
    } else {
      var t := rs[|ms|..];
      PrefixMatches(rs, ms);
      SecondByte(t);
      JoinNotEmpty(t);
      var tail := JoinAll(t);
      RestOneSlash(path, tail);
      ComponentsOfJoin(t);
      assert tail == [] + [SLASH] + tail[1..];
      ComponentsAroundSlash([], tail[1..]);
      ConcatEmpty(Components(tail[1..]));
    }
  }

  /** `find_mount_for_real_path`: the list is searched for the longest match. */
  method FindMount(paths: seq<seq<byte>>, full: seq<byte>) returns (best: Option<nat>, rel: seq<byte>)
    requires forall i :: 0 <= i < |paths| ==> paths[i] != []
    ensures best.None? <==> forall i :: 0 <= i < |paths| ==> !Matches(full, paths[i])
    ensures best.Some? ==> IsBest(paths, full, best.value) && rel == Rest(full, |paths[best.value]|)
  {
    best, rel := None, [];
    if full == [] { return; }
    var bestLen := 0;
    var i := 0;
    while i < |paths|
      invariant 0 <= i <= |paths|
      invariant best.None? ==> bestLen == 0 && forall j :: 0 <= j < i ==> !Matches(full, paths[j])
      invariant best.Some? ==> best.value < i && bestLen == |paths[best.value]| && Matches(full, paths[best.value])
      invariant forall j :: 0 <= j < i && Matches(full, paths[j]) ==> |paths[j]| <= bestLen
    {
      var n := |paths[i]|;
      if n <= |full| && full[..n] == paths[i] {
        if n == |full| || full[n] == SLASH {
          if n > bestLen {
            best, bestLen := Some(i), n;
          }
        }
      }
      i := i + 1;
    }
    if best.Some? {
      var k := bestLen;
      while k < |full| && full[k] == SLASH
        invariant bestLen <= k <= |full|
        invariant Rest(full, bestLen) == Rest(full, k)
      {
        k := k + 1;
      }
      rel := full[k..];
    }
  }
}
