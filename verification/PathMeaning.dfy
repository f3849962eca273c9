/** What a path text leads to: its pieces from left to right, directories all but the last. */
module PathMeaning {
  import opened Bytes
  import opened FatTable
  import opened FatDir
  import opened PathWalk
  import opened ShortName

  /** A walk along two lists of directories is a walk along the first and on from where it ends. */
  lemma {:induction false} WalkJoins(d: Disk, L: Layout, c: nat, a: seq<seq<byte>>, b: seq<seq<byte>>)
    requires L.Fits(|d|) && Walkable(d, L, c, a + b)
    ensures Walkable(d, L, c, a)
    ensures var w := Walk(d, L, c, a);
      if w.None? then Walk(d, L, c, a + b) == None
      else Walkable(d, L, w.value, b) && Walk(d, L, c, a + b) == Walk(d, L, w.value, b)
    decreases |a|
  {
    hide Entered, HasChain, Layout.Fits, Fat;
    if a == [] {
      ConcatEmpty(b);
    } else {
      assert (a + b)[0] == a[0] && (a + b)[1..] == a[1..] + b;
      var r := Entered(d, L, c, a[0]);
      if r.Some? {
        WalkJoins(d, L, r.value, a[1..], b);
      }
    }
  }

  /** A directory that is found is entered at the cluster its entry gives, in two halves. */
  lemma {:induction false} OneStep(d: Disk, L: Layout, c: nat, component: seq<byte>)
    requires L.Fits(|d|) && HasChain(Fat(d, L), c) && Walkable(d, L, c, [component])
    ensures var dir := DirectoryAt(d, L, c);
      var r := Lookup(dir, ShortNameOf(component));
      r.Some? && dir[r.value][11] / 16 % 2 == 1 ==>
        Walk(d, L, c, [component]) == Some(Le(dir[r.value][26..28]) + 0x1_0000 * Le(dir[r.value][20..22]))
  {
    hide HasChain, Fat, Lookup, ShortNameOf, DirectoryAt, Le;
    var one := [component];
    assert |one[1..]| == 0;
  }

  /** The walk gets to the `k`-th directory, which does not exist there or is a file. */
  ghost predicate Blocked(d: Disk, L: Layout, c: nat, dirs: seq<seq<byte>>, k: nat)
    requires L.Fits(|d|) && Walkable(d, L, c, dirs)
  {
    && k < |dirs|
    && Walkable(d, L, c, dirs[..k])
    && var at := Walk(d, L, c, dirs[..k]);
       && at.Some? && HasChain(Fat(d, L), at.value)
       && var dir := DirectoryAt(d, L, at.value);
          var r := Lookup(dir, ShortNameOf(dirs[k]));
          r.None? || dir[r.value][11] / 16 % 2 == 0
  }

  lemma {:induction false} BlockedAt(d: Disk, L: Layout, c: nat, dirs: seq<seq<byte>>, k: nat)
    requires L.Fits(|d|) && Walkable(d, L, c, dirs) && Blocked(d, L, c, dirs, k)
    ensures Walk(d, L, c, dirs) == None
  {
    hide HasChain, Fat, Lookup, ShortNameOf, DirectoryAt;
    var a, b := dirs[..k], dirs[k..];
    assert dirs == a + b;
    WalkJoins(d, L, c, a, b);
    assert b[0] == dirs[k];
  }

  /** Whoever does not get to the end is blocked somewhere. */
  lemma {:induction false} WalkStops(d: Disk, L: Layout, c: nat, dirs: seq<seq<byte>>, k: nat) returns (j: nat)
    requires L.Fits(|d|) && Walkable(d, L, c, dirs) && Walk(d, L, c, dirs) == None
    requires k <= |dirs| && Walkable(d, L, c, dirs[..k]) && Walk(d, L, c, dirs[..k]).Some?
    ensures Blocked(d, L, c, dirs, j)
    decreases |dirs| - k
  {
    hide HasChain, Fat, Lookup, ShortNameOf, DirectoryAt;
    TakeAll(dirs);
    var a, at := dirs[..k], Walk(d, L, c, dirs[..k]).value;
    assert dirs == a + dirs[k..];
    WalkJoins(d, L, c, a, dirs[k..]);
    assert k < |dirs|;
    assert dirs[k..][0] == dirs[k];
    if Entered(d, L, at, dirs[k]).None? {
      j := k;
    } else {
      var more := dirs[..k + 1];
      assert dirs == more + dirs[k + 1..] && more == a + [dirs[k]];
      WalkJoins(d, L, c, more, dirs[k + 1..]);
      WalkJoins(d, L, c, a, [dirs[k]]);
      var one := [dirs[k]];
      assert |one[1..]| == 0;
      j := WalkStops(d, L, c, dirs, k + 1);
    }
  }

  /**
   A path leads nowhere exactly when one of its directories is not found, or is found as an entry
   without the directory bit.
   */
  lemma {:induction false} MissingExactly(d: Disk, L: Layout, c: nat, s: seq<byte>)
    requires L.Fits(|d|) && Walkable(d, L, c, DirsOf(s))
    ensures ResolveFrom(d, L, c, s) == Missing <==> exists k: nat :: Blocked(d, L, c, DirsOf(s), k)
  {
    hide Walk, Walkable, Blocked, DirsOf, Components;
    var dirs := DirsOf(s);
    if k: nat :| Blocked(d, L, c, dirs, k) {
      BlockedAt(d, L, c, dirs, k);
    }
    if Walk(d, L, c, dirs) == None {
      NoWalk(d, L, c, dirs);
      var k := WalkStops(d, L, c, dirs, 0);
    }
  }

  lemma {:induction false} NoWalk(d: Disk, L: Layout, c: nat, dirs: seq<seq<byte>>)
    requires L.Fits(|d|)
    ensures Walkable(d, L, c, dirs[..0]) && Walk(d, L, c, dirs[..0]) == Some(c)
  {
  }

  /**
   A text in front of a last slash is walked through as directories; the piece behind it is the name
   to look up there, in its short form, and there is none when the text ends in the slash.
   */
  lemma {:induction false} LastPiece(d: Disk, L: Layout, c: nat, a: seq<byte>, p: seq<byte>)
    requires SLASH !in p && L.Fits(|d|) && Walkable(d, L, c, Components(a))
    ensures DirsOf(a + [SLASH] + p) == Components(a)
    ensures var w := Walk(d, L, c, Components(a));
      ResolveFrom(d, L, c, a + [SLASH] + p) ==
        if w.None? then Missing else At(w.value, if p == [] then None else Some(ShortNameOf(p)))
  {
    hide Components, Walk, Walkable;
    var s := a + [SLASH] + p;
    ComponentsAroundSlash(a, p);
    assert IndexOf(p, SLASH) == |p|;
    OnlyPiece(p);
    if p == [] {
      assert s[|s| - 1] == SLASH;
      ConcatEmpty(Components(a));
    } else {
      assert s[|s| - 1] == p[|p| - 1] != SLASH;
      assert (Components(a) + [p])[..|Components(a)|] == Components(a);
    }
  }
}
