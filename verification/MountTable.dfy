/** The table of mounts and the automatic bind of `/` to `/mnt`. */
module MountTable {
  import opened Bytes
  import opened PathWalk
  import opened VfsPath
  import opened VfsLookup

  const OK := 0
  const ERR_GENERIC := -1
  const ERR_NOMEM := -2
  const ERR_NOTFOUND := -3
  const ERR_EXISTS := -4

  /** The path `/mnt`. */
  const MNT: seq<byte> := [47, 109, 110, 116]

  // ----- the table as a value, newest mount first -----

  datatype Entry = Entry(path: seq<byte>, ops: nat, data: nat)

  function PathsOf(t: seq<Entry>): (ps: seq<seq<byte>>)
    ensures |ps| == |t| && forall i :: 0 <= i < |t| ==> ps[i] == t[i].path
  {
    seq(|t|, i requires 0 <= i < |t| => t[i].path)
  }

  /** Position of the mount at `path`, or the length. */
  function IndexAt(t: seq<Entry>, path: seq<byte>): (i: nat)
    ensures i <= |t|
    ensures forall j :: 0 <= j < i ==> t[j].path != path
    ensures i < |t| ==> t[i].path == path
  {
    if t == [] || t[0].path == path then 0 else 1 + IndexAt(t[1..], path)
  }

  /** What the 256-byte buffer holds of a path, in normal form where it has one. */
  function Named(path: seq<byte>): seq<byte>
  {
    var s := path[..Min(|path|, 255)];
    if s == [] || s[0] != SLASH then s else Normal(s)
  }

  predicate Rooted(path: seq<byte>) { path != [] && path[0] == SLASH }

  function Mounting(t: seq<Entry>, path: Option<seq<byte>>, ops: nat, data: nat, noMemory: bool): (seq<Entry>, int)
  {
    if path.None? || ops == 0 || !Rooted(path.value) then (t, ERR_GENERIC)
    else if IndexAt(t, Named(path.value)) < |t| then (t, ERR_EXISTS)
    else if noMemory then (t, ERR_NOMEM)
    else ([Entry(Named(path.value), ops, data)] + t, OK)
  }

  function Unmounting(t: seq<Entry>, path: Option<seq<byte>>): (seq<Entry>, int)
  {
    if path.None? then (t, ERR_GENERIC)
    else
      var i := IndexAt(t, Named(path.value));
      if i == |t| then (t, ERR_NOTFOUND) else (t[..i] + t[i + 1..], OK)
  }

  /** A path in normal form. */
  ghost predicate IsNormal(path: seq<byte>) { Rooted(path) && Normal(path) == path }

  /** Mount paths are normal and pairwise different. */
  ghost predicate Tidy(t: seq<Entry>)
  {
    && (forall i :: 0 <= i < |t| ==> IsNormal(t[i].path))
    && (forall i, j :: 0 <= i < j < |t| ==> t[i].path != t[j].path)
  }

  lemma {:induction false} NamedIsNormal(path: seq<byte>)
    requires Rooted(path)
    ensures IsNormal(Named(path))
  {
    hide Normal;
    var s := path[..Min(|path|, 255)];
    NormalTwice(s);
    NormalRooted(s);
  }

  lemma {:induction false} NormalRooted(s: seq<byte>)
    ensures Rooted(Normal(s))
  {
    JoinNotEmpty(Components(Printable(s)));
  }

  /** Up to 255 bytes a path is named by its normal form, and bytes behind those do not count. */
  lemma {:induction false} NamedWhole(path: seq<byte>)
    requires Rooted(path)
    ensures |path| <= 255 ==> Named(path) == Normal(path)
    ensures |path| > 255 ==> Named(path) == Normal(path[..255])
  {
    TakeAll(path);
  }

  /** Some mount has this name. */
  ghost predicate Taken(t: seq<Entry>, name: seq<byte>) { exists i :: 0 <= i < |t| && t[i].path == name }

  /**
   A mount with a rooted path, operations, a name not taken and memory puts exactly what it was given
   in front of the table; any other leaves the table, and the answer says why.
   */
  lemma {:induction false} MountingOutcome(t: seq<Entry>, path: seq<byte>, ops: nat, data: nat, noMemory: bool)
    ensures var r := Mounting(t, Some(path), ops, data, noMemory);
      && (r.1 == 0 <==> ops != 0 && Rooted(path) && !Taken(t, Named(path)) && !noMemory)
      && (r.1 == 0 ==> |r.0| == |t| + 1 && r.0[1..] == t
                       && r.0[0].path == Named(path) && r.0[0].ops == ops && r.0[0].data == data)
      && (r.1 != 0 ==> r.0 == t)
      && (r.1 == -1 <==> ops == 0 || !Rooted(path))
      && (r.1 == -4 <==> ops != 0 && Rooted(path) && Taken(t, Named(path)))
      && (r.1 == -2 <==> ops != 0 && Rooted(path) && !Taken(t, Named(path)) && noMemory)
  {
    hide Named;
    var i := IndexAt(t, Named(path));
    assert i < |t| ==> t[i].path == Named(path);
  }

  /** An unmount takes out the mount with that name and no other, or there is none and nothing changes. */
  lemma {:induction false} UnmountingOutcome(t: seq<Entry>, path: seq<byte>)
    ensures var r := Unmounting(t, Some(path));
      && (r.1 == 0 <==> Taken(t, Named(path))) && (r.1 == -3 <==> !Taken(t, Named(path)))
      && (r.1 == 0 ==> exists i :: 0 <= i < |t| && t[i].path == Named(path) && r.0 == t[..i] + t[i + 1..])
      && (r.1 != 0 ==> r.0 == t)
  {
    hide Named;
    var i := IndexAt(t, Named(path));
    assert i < |t| ==> t[i].path == Named(path);
  }

  lemma {:induction false} MountingTidy(t: seq<Entry>, path: Option<seq<byte>>, ops: nat, data: nat, noMemory: bool)
    requires Tidy(t)
    ensures Tidy(Mounting(t, path, ops, data, noMemory).0)
  {
    hide Named, IsNormal;
    if path.Some? && Rooted(path.value) {
      NamedIsNormal(path.value);
    }
  }

  lemma {:induction false} UnmountingTidy(t: seq<Entry>, path: Option<seq<byte>>)
    requires Tidy(t)
    ensures Tidy(Unmounting(t, path).0)
  {
    hide IsNormal, Named, Tidy;
    if path.Some? && IndexAt(t, Named(path.value)) < |t| {
      DroppedTidy(t, IndexAt(t, Named(path.value)));
    }
  }

  lemma {:induction false} DroppedTidy(t: seq<Entry>, i: nat)
    requires Tidy(t) && i < |t|
    ensures Tidy(t[..i] + t[i + 1..])
  {
    hide IsNormal;
    var u := t[..i] + t[i + 1..];
    forall k | 0 <= k < |u|
      ensures u[k] == t[if k < i then k else k + 1]
    {
    }
  }

  /** A successful mount undone by an unmount of any path with the same name gives the table back. */
  lemma {:induction false} MountThenUmount(
    t: seq<Entry>, path: seq<byte>, again: seq<byte>, ops: nat, data: nat, noMemory: bool)
    requires Mounting(t, Some(path), ops, data, noMemory).1 == OK && Named(again) == Named(path)
    ensures Unmounting(Mounting(t, Some(path), ops, data, noMemory).0, Some(again)) == (t, OK)
    ensures IndexAt(Mounting(t, Some(path), ops, data, noMemory).0, Named(again)) == 0
  {
    var e := Entry(Named(path), ops, data);
    assert IndexAt([e] + t, Named(path)) == 0;
    assert ([e] + t)[..0] + ([e] + t)[1..] == t;
  }

  // ----- runs -----

  datatype Call = Mounts(path: Option<seq<byte>>, ops: nat, data: nat,
    noMemory: bool) | Unmounts(path: Option<seq<byte>>)

  function Apply(t: seq<Entry>, c: Call): (seq<Entry>, int)
  {
    match c {
      case Mounts(path, ops, data, noMemory) => Mounting(t, path, ops, data, noMemory)
      case Unmounts(path) => Unmounting(t, path)
    }
  }

  function ApplyAll(t: seq<Entry>, cs: seq<Call>): seq<Entry>
    decreases |cs|
  {
    if cs == [] then t else ApplyAll(Apply(t, cs[0]).0, cs[1..])
  }

  /** Every run from a tidy table ends in one. */
  lemma {:induction false} RunTidy(t: seq<Entry>, cs: seq<Call>)
    requires Tidy(t)
    ensures Tidy(ApplyAll(t, cs))
    decreases |cs|
  {
    if cs != [] {
      match cs[0] {
        case Mounts(path, ops, data, noMemory) => MountingTidy(t, path, ops, data, noMemory);
        case Unmounts(path) => UnmountingTidy(t, path);
      }
      RunTidy(Apply(t, cs[0]).0, cs[1..]);
    }
  }

  // ----- the table in memory -----

  class Mount {
    const path: seq<byte>
    const ops: nat
    const data: nat

    constructor (path: seq<byte>, ops: nat, data: nat)
      ensures this.path == path && this.ops == ops && this.data == data
    {
      this.path, this.ops, this.data := path, ops, data;
    }
  }

  function EntriesOf(ms: seq<Mount>): (t: seq<Entry>)
    ensures |t| == |ms| && forall i :: 0 <= i < |ms| ==> t[i] == Entry(ms[i].path, ms[i].ops, ms[i].data)
  {
    seq(|ms|, i requires 0 <= i < |ms| => Entry(ms[i].path, ms[i].ops, ms[i].data))
  }

  ghost predicate BoundTo(ms: seq<Mount>, bind: Mount?)
  {
    && (bind != null ==> bind in ms && bind.path == MNT)
    && (forall i :: 0 <= i < |ms| && ms[i].path == MNT ==> bind == ms[i])
  }

  /** The mounts decide the bind. */
  lemma {:induction false} SameBind(ms: seq<Mount>, a: Mount?, b: Mount?)
    requires BoundTo(ms, a) && BoundTo(ms, b)
    ensures a == b
  {
  }

  lemma {:induction false} Pushed(ms: seq<Mount>, m: Mount, bind: Mount?)
    requires BoundTo(ms, bind)
    ensures EntriesOf([m] + ms) == [Entry(m.path, m.ops, m.data)] + EntriesOf(ms)
    ensures IndexAt(EntriesOf(ms), m.path) == |ms| ==> BoundTo([m] + ms, if m.path == MNT then m else bind)
  {
    var t := EntriesOf(ms);
    assert forall i :: 0 <= i < |ms| ==> ms[i].path == t[i].path;
  }

  lemma {:induction false} Dropped(ms: seq<Mount>, i: nat, bind: Mount?)
    requires BoundTo(ms, bind) && i < |ms| && Tidy(EntriesOf(ms))
    ensures EntriesOf(ms[..i] + ms[i + 1..]) == EntriesOf(ms)[..i] + EntriesOf(ms)[i + 1..]
    ensures BoundTo(ms[..i] + ms[i + 1..], if ms[i] == bind then null else bind)
  {
    hide IsNormal;
    var t, u := EntriesOf(ms), ms[..i] + ms[i + 1..];
    assert forall k, l :: 0 <= k < l < |ms| ==> t[k].path != t[l].path;
    forall k | 0 <= k < |u|
      ensures u[k] == ms[if k < i then k else k + 1] && u[k].path != ms[i].path
    {
    }
    assert bind != null && ms[i] != bind ==> bind in u by {
      if bind != null && ms[i] != bind {
        var k :| 0 <= k < |ms| && ms[k] == bind;
        assert u[if k < i then k else k - 1] == bind;
      }
    }
  }

  class Table {
    var mounts: seq<Mount>
    var rootBind: Mount?
    var initialized: bool

    /** The bind is there exactly when `/mnt` is mounted, and it is that mount. */
    ghost predicate Valid()
      reads this
    {
      && (!initialized ==> mounts == [] && rootBind == null)
      && Tidy(EntriesOf(mounts))
      && BoundTo(mounts, rootBind)
    }

    constructor ()
      ensures Valid() && mounts == [] && rootBind == null
    {
      mounts, rootBind, initialized := [], null, false;
    }

    /** The name a path has in the table, made in a local buffer. */
    method NameOf(path: seq<byte>) returns (ret: int, name: seq<byte>)
      requires 0 !in path
      ensures name == Named(path) && ret == if Rooted(path) then 0 else -1
    {
      hide Normal;
      var buf := new byte[256](_ => 0);
      CopyCut(buf, path, 256);
      ghost var s := path[..Min(|path|, 255)];
      ret := NormalizePath(buf, s);
      name := TextAt(buf, 0, Named(path));
    }

    method Find(name: seq<byte>) returns (i: nat)
      ensures i == IndexAt(EntriesOf(mounts), name)
    {
      i := 0;
      while i < |mounts| && mounts[i].path != name
        invariant 0 <= i <= |mounts|
        invariant forall j :: 0 <= j < i ==> mounts[j].path != name
      {
        i := i + 1;
      }
    }

    /** `vfs_mount`. Running out of memory is an input. */
    method DoMount(path: Option<seq<byte>>, ops: nat, data: nat, noMemory: bool) returns (ret: int)
      requires Valid() && (path.Some? ==> 0 !in path.value)
      modifies this
      ensures Valid()
      ensures (EntriesOf(mounts), ret) == Mounting(old(EntriesOf(mounts)), path, ops, data, noMemory)
      ensures ret == OK ==> mounts != [] && mounts == [mounts[0]] + old(mounts) && fresh(mounts[0])
      ensures ret == OK ==> mounts[0].path == Named(path.value) && mounts[0].ops == ops && mounts[0].data == data
      ensures ret == OK ==> rootBind == if mounts[0].path == MNT then mounts[0] else old(rootBind)
      ensures ret != OK ==> mounts == old(mounts) && rootBind == old(rootBind)
    {
      hide Named, IsNormal, Tidy, BoundTo;
      MountingTidy(EntriesOf(mounts), path, ops, data, noMemory);
      if !initialized {
        mounts, rootBind, initialized := [], null, true;
      }
      if path.None? || ops == 0 { return ERR_GENERIC; }
      var r, name := NameOf(path.value);
      if r < 0 { return ERR_GENERIC; }
      var i := Find(name);
      if i < |mounts| { return ERR_EXISTS; }
      if noMemory { return ERR_NOMEM; }
      var m := new Mount(name, ops, data);
      Pushed(mounts, m, rootBind);
      mounts := [m] + mounts;
      if name == MNT {
        rootBind := m;
      }
      return OK;
    }

    /** `vfs_umount`. */
    method DoUmount(path: Option<seq<byte>>) returns (ret: int)
      requires Valid() && (path.Some? ==> 0 !in path.value)
      modifies this
      ensures Valid()
      ensures (EntriesOf(mounts), ret) == Unmounting(old(EntriesOf(mounts)), path)
      ensures ret == OK ==>
        var i := IndexAt(old(EntriesOf(mounts)), Named(path.value));
        i < |old(mounts)| && mounts == old(mounts)[..i] + old(mounts)[i + 1..]
      ensures ret != OK ==> mounts == old(mounts) && rootBind == old(rootBind)
    {
      hide Named, IsNormal, Tidy, BoundTo;
      UnmountingTidy(EntriesOf(mounts), path);
      if path.None? { return ERR_GENERIC; }
      var r, name := NameOf(path.value);
      var i := Find(name);
      if i == |mounts| { return ERR_NOTFOUND; }
      var m := mounts[i];
      Dropped(mounts, i, rootBind);
      mounts := mounts[..i] + mounts[i + 1..];
      if m == rootBind {
        rootBind := null;
      }
      return OK;
    }
  }

  /** Every run on the table in memory is the run on values, with the bind in step at the end. */
  method RunCalls(table: Table, cs: seq<Call>)
    requires table.Valid() && forall c :: c in cs && c.path.Some? ==> 0 !in c.path.value
    modifies table
    ensures table.Valid() && EntriesOf(table.mounts) == ApplyAll(old(EntriesOf(table.mounts)), cs)
    decreases |cs|
  {
    hide Mounting, Unmounting, Tidy;
    if cs == [] { return; }
    assert cs[0] in cs;
    match cs[0] {
      case Mounts(path, ops, data, noMemory) => var _ := table.DoMount(path, ops, data, noMemory);
      case Unmounts(path) => var _ := table.DoUmount(path);
    }
    RunCalls(table, cs[1..]);
  }

  /** A mount and then an unmount under any spelling of the same name: the same mounts and the same bind. */
  method MountAndUnmount(table: Table, path: seq<byte>, again: seq<byte>, ops: nat, data: nat, noMemory: bool)
    returns (ret: int)
    requires table.Valid() && 0 !in path && 0 !in again && Named(again) == Named(path)
    modifies table
    ensures table.Valid() && table.rootBind == old(table.rootBind)
    ensures table.mounts == old(table.mounts)
  {
    hide Tidy, Named, BoundTo, Mounting, Unmounting;
    ghost var ms, t := table.mounts, EntriesOf(table.mounts);
    ret := table.DoMount(Some(path), ops, data, noMemory);
    if ret != OK { return; }
    MountThenUmount(t, path, again, ops, data, noMemory);
    WithoutFirst(table.mounts[0], ms);
    var r := table.DoUmount(Some(again));
    SameBind(ms, old(table.rootBind), table.rootBind);
  }

  lemma {:induction false} WithoutFirst<T>(x: T, s: seq<T>)
    ensures ([x] + s)[..0] + ([x] + s)[1..] == s
  {
  }
}
