/** How a user's path finds its mount: translation and lookup together. */
module MountRoute {
  import opened Bytes
  import opened PathWalk
  import opened VfsPath
  import opened VfsLookup
  import opened MountTable

  function Mnt(): seq<seq<byte>> { [[109, 110, 116]] }

  /** The components of the real path: below `mnt` when the bind is there. */
  function RealComponents(bound: bool, user: seq<byte>): seq<seq<byte>>
  {
    if bound then Mnt() + Components(Printable(user))
    else Components(Printable(user[..Min(|user|, 255)]))
  }

  /** The mount's components are in front; the root stands only for itself. */
  predicate Covers(path: seq<byte>, rs: seq<seq<byte>>)
  {
    var ms := Components(path);
    if ms == [] then rs == [] else ms <= rs
  }

  lemma {:induction false} MntJoin()
    ensures AllProper(Mnt()) && Join(Mnt()) == MNT && Components(MNT) == Mnt()
  {
    var c: seq<byte> := [109, 110, 116];
    assert Proper(c);
    assert Mnt()[..0] == [];
    assert JoinAll(Mnt()) == [] + [SLASH] + c;
    ComponentsOfJoin(Mnt());
  }

  lemma {:induction false} NormalIsJoin(path: seq<byte>)
    requires IsNormal(path)
    ensures AllProper(Components(path)) && Join(Components(path)) == path
  {
    hide Components, Printable, Join;
    NormalProper(path);
  }

  lemma {:induction false} RealIsJoin(bound: bool, user: seq<byte>)
    requires Rooted(user) && (bound ==> |user| + 4 < 256)
    ensures AllProper(RealComponents(bound, user))
    ensures Translated(if bound then Some(MNT) else None, user, 256) == Some(Join(RealComponents(bound, user)))
  {
    hide Components, Printable, JoinAll;
    if bound {
      MntJoin();
      NormalProper(user);
      NormalBelow(Mnt(), user);
      TranslationJoins(Mnt(), user, 256);
      assert Mnt() != [];
    } else {
      NormalProper(user[..Min(|user|, 255)]);
    }
  }

  lemma {:induction false} MatchesIsCovers(rs: seq<seq<byte>>, path: seq<byte>)
    requires AllProper(rs) && IsNormal(path)
    ensures Matches(Join(rs), path) <==> Covers(path, rs)
  {
    hide Components, Join;
    NormalIsJoin(path);
    MatchIsPrefix(rs, Components(path));
  }

  ghost predicate AllNormal(paths: seq<seq<byte>>) { forall i :: 0 <= i < |paths| ==> IsNormal(paths[i]) }

  /** The best match in components: it covers, and every other mount that covers is above it. */
  lemma {:induction false} BestCovers(paths: seq<seq<byte>>, rs: seq<seq<byte>>, i: nat)
    requires AllProper(rs) && AllNormal(paths) && IsBest(paths, Join(rs), i)
    ensures Covers(paths[i], rs)
    ensures forall j :: 0 <= j < |paths| && Covers(paths[j], rs) ==> Components(paths[j]) <= Components(paths[i])
    ensures var rel := Rest(Join(rs), |paths[i]|);
      && Components(paths[i]) + Components(rel) == rs
      && Join(rs) == paths[i] + (if rel == [] then [] else [SLASH] + rel)
  {
    hide Components, Join, IsNormal, Covers, Matches;
    MatchesIsCovers(rs, paths[i]);
    NormalIsJoin(paths[i]);
    RestRebuilds(rs, Components(paths[i]));
    forall j | 0 <= j < |paths| && Covers(paths[j], rs)
      ensures Components(paths[j]) <= Components(paths[i])
    {
      MatchesIsCovers(rs, paths[j]);
      NormalIsJoin(paths[j]);
      BestIsDeepest(rs, Components(paths[i]), Components(paths[j]));
    }
  }

  /**
   The way from a user's path to a mount and a path in it. With the bind every path that fits the
   buffer reaches a mount at or below `/mnt`; mount and relative path have the components of the
   real path between them; and no other mount covers more of it.
   */
  method Route(table: Table, user: seq<byte>) returns (ret: int, mount: Mount?, rel: seq<byte>)
    requires table.Valid() && 0 !in user
    ensures var bound := table.rootBind != null;
      if !Rooted(user) || (bound && user != [SLASH] && |user| + 4 >= 256) then ret == ERR_GENERIC && mount == null
      else
        var rs := RealComponents(bound, user);
        && (mount != null ==>
              && ret == OK && mount in table.mounts && Covers(mount.path, rs)
              && (forall m :: m in table.mounts && Covers(m.path, rs) ==> Components(m.path) <= Components(mount.path))
              && Components(mount.path) + Components(rel) == rs
              && Join(rs) == mount.path + (if rel == [] then [] else [SLASH] + rel))
        && (mount == null ==> !bound && ret == ERR_NOTFOUND && forall m :: m in table.mounts ==> !Covers(m.path, rs))
  {
    hide Normal, Components, Covers, IsNormal, Translated, RealComponents, Matches, IsBest, Rest;
    ret, mount, rel := ERR_GENERIC, null, [];
    var bind := if table.rootBind == null then None else Some(table.rootBind.path);
    var buf := new byte[256](_ => 0);
    TranslatedFails(table.rootBind != null, user);
    var r := TranslatePath(user, buf, 256, bind);
    if r < 0 { return; }
    ghost var bound, rs := table.rootBind != null, RealComponents(table.rootBind != null, user);
    RealIsJoin(bound, user);
    var full := TextAt(buf, 0, Join(rs));
    var paths := PathsOf(EntriesOf(table.mounts));
    PathsNormal(table.mounts, paths);
    var best;
    best, rel := FindMount(paths, full);
    if best.None? {
      NoneCovers(table.mounts, paths, rs, table.rootBind, user);
      ret := ERR_NOTFOUND;
      return;
    }
    ret, mount := OK, table.mounts[best.value];
    BestCovers(paths, rs, best.value);
  }

  lemma {:induction false} TranslatedFails(bound: bool, user: seq<byte>)
    ensures Translated(if bound then Some(MNT) else None, user, 256).None? <==>
      !Rooted(user) || (bound && user != [SLASH] && |user| + 4 >= 256)
  {
  }

  lemma {:induction false} PathsNormal(ms: seq<Mount>, paths: seq<seq<byte>>)
    requires Tidy(EntriesOf(ms)) && |paths| == |ms| && forall i :: 0 <= i < |ms| ==> paths[i] == ms[i].path
    ensures AllNormal(paths) && forall i :: 0 <= i < |paths| ==> paths[i] != []
  {
    var t := EntriesOf(ms);
    forall i | 0 <= i < |paths|
      ensures IsNormal(paths[i])
    {
      assert IsNormal(t[i].path);
    }
  }

  lemma {:induction false} NoneCovers(
    ms: seq<Mount>, paths: seq<seq<byte>>, rs: seq<seq<byte>>, bind: Mount?, user: seq<byte>)
    requires AllNormal(paths) && |paths| == |ms| && forall i :: 0 <= i < |ms| ==> paths[i] == ms[i].path
    requires AllProper(rs) && BoundTo(ms, bind) && rs == RealComponents(bind != null, user)
    requires forall i :: 0 <= i < |paths| ==> !Matches(Join(rs), paths[i])
    ensures bind == null && forall m :: m in ms ==> !Covers(m.path, rs)
  {
    hide Components, Join, IsNormal, Matches;
    forall m | m in ms
      ensures !Covers(m.path, rs)
    {
      var i :| 0 <= i < |ms| && ms[i] == m;
      assert paths[i] == m.path;
      MatchesIsCovers(rs, paths[i]);
    }
    MntJoin();
    assert bind != null ==> bind in ms && Covers(MNT, rs);
  }

  // ----- a mount and the paths that reach it -----

  /** The real path goes through this name, and through no mount of the list below it. */
  ghost predicate LeadsTo(name: seq<byte>, ms: seq<Mount>, rs: seq<seq<byte>>)
  {
    Covers(name, rs) && forall m :: m in ms && Covers(m.path, rs) ==> |Components(m.path)| < |Components(name)|
  }

  /**
   A mount followed by a lookup: a path that leads to the new name and to no older mount below it
   reaches the operations and the context that the mount was given, with the rest of the path.
   */
  method MountThenRoute(table: Table, path: seq<byte>, ops: nat, data: nat, user: seq<byte>)
    returns (made: int, ret: int, mount: Mount?, rel: seq<byte>)
    requires table.Valid() && 0 !in path && 0 !in user
    modifies table
    ensures table.Valid()
    ensures made == OK <==> ops != 0 && Rooted(path) && !Taken(old(EntriesOf(table.mounts)), Named(path))
    ensures made == OK ==> (table.rootBind != null <==> Named(path) == MNT || old(table.rootBind) != null)
    ensures made == OK && Rooted(user) && |user| + 4 < 256 ==>
      var rs := RealComponents(table.rootBind != null, user);
      LeadsTo(Named(path), old(table.mounts), rs) ==>
        && ret == OK && mount != null && mount.path == Named(path) && mount.ops == ops && mount.data == data
        && Join(rs) == Named(path) + if rel == [] then [] else [SLASH] + rel
  {
    hide Normal, Components, Covers, IsNormal, RealComponents, Named, Mounting, BoundTo, Tidy, Taken, Join;
    MountingOutcome(EntriesOf(table.mounts), path, ops, data, false);
    made := table.DoMount(Some(path), ops, data, false);
    ret, mount, rel := Route(table, user);
    if made == OK && Rooted(user) && |user| + 4 < 256 {
      ghost var rs := RealComponents(table.rootBind != null, user);
      if LeadsTo(Named(path), old(table.mounts), rs) {
        Reached(table.mounts, old(table.mounts), Named(path), rs, mount);
      }
    }
  }

  lemma {:induction false} Reached(
    ms: seq<Mount>, older: seq<Mount>, name: seq<byte>, rs: seq<seq<byte>>, mount: Mount?)
    requires ms != [] && ms == [ms[0]] + older && ms[0].path == name && LeadsTo(name, older, rs)
    requires mount != null ==>
      && mount in ms && Covers(mount.path, rs)
      && forall m :: m in ms && Covers(m.path, rs) ==> Components(m.path) <= Components(mount.path)
    requires mount == null ==> forall m :: m in ms ==> !Covers(m.path, rs)
    ensures mount == ms[0]
  {
    hide Components, Covers;
    assert ms[0] in ms;
  }

  /** At boot: on an empty table `/mnt` is mounted, and every user path then reaches that mount. */
  method BootMount(table: Table, ops: nat, data: nat, user: seq<byte>)
    returns (ret: int, mount: Mount?, rel: seq<byte>)
    requires table.Valid() && table.mounts == [] && ops != 0
    requires 0 !in user && Rooted(user) && |user| + 4 < 256
    modifies table
    ensures ret == OK && mount != null && mount.path == MNT && mount.ops == ops && mount.data == data
    ensures Normal(user) == [SLASH] + rel
  {
    hide Normal, Components, Covers, RealComponents, Join;
    MntNamed();
    var made;
    made, ret, mount, rel := MountThenRoute(table, MNT, ops, data, user);
    BelowMnt(user, rel);
  }

  lemma {:induction false} MntNamed()
    ensures Rooted(MNT) && Named(MNT) == MNT
  {
    hide Components, Printable, Join;
    MntJoin();
    JoinPrinting(Mnt());
    NamedWhole(MNT);
  }

  lemma {:induction false} BelowMnt(user: seq<byte>, rel: seq<byte>)
    requires Rooted(user)
    ensures Covers(MNT, RealComponents(true, user))
    ensures Join(RealComponents(true, user)) == MNT + (if rel == [] then [] else [SLASH] + rel) ==>
      Normal(user) == [SLASH] + rel
  {
    hide Components, Printable, JoinAll;
    MntJoin();
    var cs := Components(Printable(user));
    JoinAllConcat(Mnt(), cs);
    assert Mnt() != [] && Mnt() + cs != [];
    JoinNotEmpty(cs);
    SameTail(MNT, JoinAll(cs), if rel == [] then [] else [SLASH] + rel);
    if cs == [] {
      NoneJoined(cs);
    }
  }

  lemma {:induction false} NoneJoined(cs: seq<seq<byte>>)
    requires cs == []
    ensures JoinAll(cs) == []
  {
  }

  lemma {:induction false} SameTail(a: seq<byte>, b: seq<byte>, c: seq<byte>)
    ensures a + b == a + c ==> b == c
  {
    assert (a + b)[|a|..] == b && (a + c)[|a|..] == c;
  }
}
