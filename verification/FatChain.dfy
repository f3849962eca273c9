/**
 Cluster chains over the table as a sequence of numbers, and what allocation does to a whole
 family of chains.
 */
module FatChain {
  import opened Bytes
  import opened FatTable

  /** The step of `fat32_next_cluster`: end marks and bad clusters both end the walk. */
  function Next(entry: nat): nat
  {
    if entry >= EOC_MIN then NO_CLUSTER else if entry == BAD_CLUSTER then NO_CLUSTER else entry
  }

  /** `ch` lists the clusters met from its first one up to the end mark, all inside the table. */
  ghost predicate IsChain(fat: seq<nat>, ch: seq<nat>)
  {
    && ch != []
    && (forall i :: 0 <= i < |ch| ==> 2 <= ch[i] < |fat|)
    && (forall i :: 0 <= i < |ch| - 1 ==> fat[ch[i]] == ch[i + 1])
    && fat[ch[|ch| - 1]] >= BAD_CLUSTER
  }

  ghost predicate Disjoint(a: seq<nat>, b: seq<nat>)
  {
    forall i, j :: 0 <= i < |a| && 0 <= j < |b| ==> a[i] != b[j]
  }

  /** Chains of the same table, no two of which share a cluster. */
  ghost predicate Family(fat: seq<nat>, cs: seq<seq<nat>>)
  {
    && (forall k :: 0 <= k < |cs| ==> IsChain(fat, cs[k]))
    && (forall k, l :: 0 <= k < l < |cs| ==> Disjoint(cs[k], cs[l]))
  }

  /** One walk step along a chain: to its next cluster, or off its end. */
  lemma {:induction false} ChainStep(fat: seq<nat>, ch: seq<nat>, i: nat)
    requires |fat| <= SCAN_LIMIT && IsChain(fat, ch) && i < |ch|
    ensures Next(fat[ch[i]]) == if i + 1 < |ch| then ch[i + 1] else NO_CLUSTER
  {
    if i + 1 < |ch| {
      assert fat[ch[i]] == ch[i + 1];
    }
  }

  /** Two chains that meet run together from there: the rest is determined by the table. */
  lemma {:induction false} MeetingChains(fat: seq<nat>, a: seq<nat>, b: seq<nat>, i: nat, j: nat)
    requires |fat| <= SCAN_LIMIT
    requires IsChain(fat, a) && IsChain(fat, b)
    requires i < |a| && j < |b| && a[i] == b[j]
    ensures a[i..] == b[j..]
    decreases |a| - i
  {
    ChainStep(fat, a, i);
    ChainStep(fat, b, j);
    if i + 1 < |a| {
      assert a[i + 1] < SCAN_LIMIT;
      MeetingChains(fat, a, b, i + 1, j + 1);
      assert a[i..] == [a[i]] + a[i + 1..];
      assert b[j..] == [b[j]] + b[j + 1..];
    }
  }

  /** No chain visits a cluster twice, so chains are acyclic. */
  lemma {:induction false} ChainDistinct(fat: seq<nat>, ch: seq<nat>)
    requires |fat| <= SCAN_LIMIT && IsChain(fat, ch)
    ensures forall i, j :: 0 <= i < j < |ch| ==> ch[i] != ch[j]
  {
    forall i, j | 0 <= i < j < |ch|
      ensures ch[i] != ch[j]
    {
      if ch[i] == ch[j] {
        MeetingChains(fat, ch, ch, i, j);
        assert false;
      }
    }
  }

  /** A first cluster has one chain. */
  lemma {:induction false} ChainUnique(fat: seq<nat>, a: seq<nat>, b: seq<nat>)
    requires |fat| <= SCAN_LIMIT
    requires IsChain(fat, a) && IsChain(fat, b) && a[0] == b[0]
    ensures a == b
  {
    MeetingChains(fat, a, b, 0, 0);
    assert a == a[0..] && b == b[0..];
  }

  /** A chain whose own entries are kept is still a chain. */
  lemma {:induction false} ChainFrame(fat: seq<nat>, fat': seq<nat>, ch: seq<nat>)
    requires |fat| == |fat'| && IsChain(fat, ch)
    requires forall i :: 0 <= i < |ch| ==> fat'[ch[i]] == fat[ch[i]]
    ensures IsChain(fat', ch)
  {
  }

  // ----- allocation -----

  ghost predicate IsLeastFree(fat: seq<nat>, r: nat)
  {
    && 2 <= r < |fat|
    && fat[r] == FREE_CLUSTER
    && forall c :: 2 <= c < r ==> fat[c] != FREE_CLUSTER
  }

  /** `r` is taken and, unless `prev` is 0, hung behind `prev`. */
  function Allocated(fat: seq<nat>, prev: nat, r: nat): (f: seq<nat>)
    requires prev < |fat| && r < |fat|
    ensures |f| == |fat|
  {
    if prev == 0 then fat[r := END_OF_CHAIN] else fat[r := END_OF_CHAIN][prev := r]
  }

  function FreeSet(fat: seq<nat>): set<nat>
  {
    set c: nat | 2 <= c < |fat| && fat[c] == FREE_CLUSTER
  }

  function FreeCount(fat: seq<nat>): nat { |FreeSet(fat)| }

  /** A free cluster lies on no chain. */
  lemma {:induction false} FreeOffChain(fat: seq<nat>, ch: seq<nat>, r: nat)
    requires IsChain(fat, ch) && r < |fat| && fat[r] == FREE_CLUSTER
    ensures r !in ch
  {
    forall i | 0 <= i < |ch|
      ensures ch[i] != r
    {
      assert i < |ch| - 1 ==> fat[ch[i]] == ch[i + 1];
    }
  }

  /** Taking a free cluster, for a new chain or behind a tail, costs one free cluster. */
  lemma {:induction false} AllocFreeSet(fat: seq<nat>, prev: nat, r: nat)
    requires 2 <= r < |fat| && fat[r] == FREE_CLUSTER
    requires prev == 0 || (2 <= prev < |fat| && fat[prev] != FREE_CLUSTER)
    ensures FreeSet(Allocated(fat, prev, r)) == FreeSet(fat) - {r}
    ensures FreeCount(Allocated(fat, prev, r)) == FreeCount(fat) - 1
  {
    assert r in FreeSet(fat);
    assert FreeSet(Allocated(fat, prev, r)) == FreeSet(fat) - {r};
  }

  /** A new chain of one cluster joins the family; nothing else changes. */
  lemma {:induction false} AllocFresh(fat: seq<nat>, cs: seq<seq<nat>>, r: nat)
    requires Family(fat, cs) && 2 <= r < |fat| && fat[r] == FREE_CLUSTER
    ensures Family(Allocated(fat, 0, r), cs + [[r]])
  {
    var f, ds := Allocated(fat, 0, r), cs + [[r]];
    forall k | 0 <= k < |ds|
      ensures IsChain(f, ds[k])
      ensures k < |cs| ==> r !in cs[k]
    {
      if k < |cs| {
        FreeOffChain(fat, cs[k], r);
        ChainFrame(fat, f, cs[k]);
      }
    }
  }

  lemma {:induction false} ExtendedChain(fat: seq<nat>, ch: seq<nat>, r: nat)
    requires |fat| <= SCAN_LIMIT
    requires IsChain(fat, ch) && 2 <= r < |fat| && fat[r] == FREE_CLUSTER
    ensures IsChain(Allocated(fat, ch[|ch| - 1], r), ch + [r])
  {
    FreeOffChain(fat, ch, r);
    ChainDistinct(fat, ch);
    var f, dh := Allocated(fat, ch[|ch| - 1], r), ch + [r];
    forall i | 0 <= i < |dh| - 1
      ensures f[dh[i]] == dh[i + 1]
    {
      if i < |ch| - 1 {
        assert ch[i] != ch[|ch| - 1];
      }
    }
  }

  /** Allocation behind the tail of one chain extends that chain and keeps the others. */
  lemma {:induction false} AllocExtend(fat: seq<nat>, cs: seq<seq<nat>>, k: nat, r: nat)
    requires |fat| <= SCAN_LIMIT
    requires Family(fat, cs) && k < |cs| && 2 <= r < |fat| && fat[r] == FREE_CLUSTER
    ensures Family(Allocated(fat, cs[k][|cs[k]| - 1], r), cs[k := cs[k] + [r]])
  {
    var f, ds := Allocated(fat, cs[k][|cs[k]| - 1], r), cs[k := cs[k] + [r]];
    forall l | 0 <= l < |ds|
      ensures IsChain(f, ds[l])
      ensures r !in cs[l]
    {
      FreeOffChain(fat, cs[l], r);
      if l == k {
        ExtendedChain(fat, cs[k], r);
      } else {
        assert cs[k][|cs[k]| - 1] !in cs[l] by {
          assert Disjoint(cs[k], cs[l]) || Disjoint(cs[l], cs[k]);
        }
        ChainFrame(fat, f, cs[l]);
      }
    }
    forall a, b | 0 <= a < b < |ds|
      ensures Disjoint(ds[a], ds[b])
    {
      assert Disjoint(cs[a], cs[b]);
      forall i, j | 0 <= i < |ds[a]| && 0 <= j < |ds[b]|
        ensures ds[a][i] != ds[b][j]
      {
        if i < |cs[a]| && j < |cs[b]| {
          assert cs[a][i] != cs[b][j];
        }
      }
    }
  }

  // ----- whole runs of allocations -----

  /** Ask for a cluster that starts a chain, or for one behind the tail of chain `k`. */
  datatype Request = NewChain | Extend(k: nat)

  function LeastFreeFrom(fat: seq<nat>, c: nat): (r: Option<nat>)
    ensures r.None? ==> forall x :: c <= x < |fat| ==> fat[x] != FREE_CLUSTER
    ensures r.Some? ==> c <= r.value < |fat| && fat[r.value] == FREE_CLUSTER
    ensures r.Some? ==> forall x :: c <= x < r.value ==> fat[x] != FREE_CLUSTER
    decreases |fat| - c
  {
    if c >= |fat| then None
    else if fat[c] == FREE_CLUSTER then Some(c)
    else LeastFreeFrom(fat, c + 1)
  }

  lemma {:induction false} LeastFreeExists(fat: seq<nat>)
    ensures LeastFreeFrom(fat, 2).Some? <==> FreeCount(fat) > 0
    ensures LeastFreeFrom(fat, 2).Some? ==> IsLeastFree(fat, LeastFreeFrom(fat, 2).value)
  {
    var r := LeastFreeFrom(fat, 2);
    if r.Some? {
      assert r.value in FreeSet(fat);
    } else {
      assert FreeSet(fat) == {};
    }
  }

  /** A table and the chains in use. */
  datatype Volume = Volume(fat: seq<nat>, cs: seq<seq<nat>>)

  /** A request with a free cluster in the table; asking behind a chain that is not there changes nothing. */
  ghost function Serve(v: Volume, q: Request): (w: Volume)
    requires |v.fat| <= SCAN_LIMIT && Family(v.fat, v.cs) && FreeCount(v.fat) > 0
    ensures |w.fat| == |v.fat| && Family(w.fat, w.cs)
  {
    LeastFreeExists(v.fat);
    var r := LeastFreeFrom(v.fat, 2);
    match q {
      case NewChain =>
        AllocFresh(v.fat, v.cs, r.value);
        Volume(Allocated(v.fat, 0, r.value), v.cs + [[r.value]])
      case Extend(k) =>
        if k >= |v.cs| then v
        else
          AllocExtend(v.fat, v.cs, k, r.value);
          Volume(Allocated(v.fat, v.cs[k][|v.cs[k]| - 1], r.value), v.cs[k := v.cs[k] + [r.value]])
    }
  }

  /** A run of no more requests than there are free clusters. */
  ghost function ServeAll(v: Volume, qs: seq<Request>): (w: Volume)
    requires |v.fat| <= SCAN_LIMIT && Family(v.fat, v.cs) && |qs| <= FreeCount(v.fat)
    ensures |w.fat| == |v.fat| && Family(w.fat, w.cs)
    decreases |qs|
  {
    if qs == [] then v
    else
      ServeStep(v, qs[0]);
      ServeAll(Serve(v, qs[0]), qs[1..])
  }

  function Held(cs: seq<seq<nat>>): nat
  {
    if cs == [] then 0 else |cs[|cs| - 1]| + Held(cs[..|cs| - 1])
  }

  lemma {:induction false} HeldUpdate(cs: seq<seq<nat>>, k: nat, ch: seq<nat>)
    requires k < |cs|
    ensures Held(cs[k := ch]) + |cs[k]| == Held(cs) + |ch|
  {
    var n := |cs| - 1;
    if k < n {
      HeldUpdate(cs[..n], k, ch);
      assert cs[k := ch][..n] == cs[..n][k := ch];
    } else {
      assert cs[k := ch][..n] == cs[..n];
    }
  }

  lemma {:induction false} TailTaken(fat: seq<nat>, cs: seq<seq<nat>>, k: nat)
    requires Family(fat, cs) && k < |cs|
    ensures cs[k] != [] && 2 <= cs[k][|cs[k]| - 1] < |fat| && fat[cs[k][|cs[k]| - 1]] != FREE_CLUSTER
  {
    assert IsChain(fat, cs[k]);
  }

  lemma {:induction false} ServeStep(v: Volume, q: Request)
    requires |v.fat| <= SCAN_LIMIT && Family(v.fat, v.cs) && FreeCount(v.fat) > 0
    ensures var w := Serve(v, q);
      && |v.cs| <= |w.cs|
      && (forall k :: 0 <= k < |v.cs| ==> v.cs[k] <= w.cs[k])
      && FreeCount(w.fat) + Held(w.cs) == FreeCount(v.fat) + Held(v.cs)
      && FreeCount(w.fat) >= FreeCount(v.fat) - 1
  {
    hide IsChain, FreeCount, FreeSet, Family, Allocated;
    LeastFreeExists(v.fat);
    var w, r := Serve(v, q), LeastFreeFrom(v.fat, 2);
    if q.NewChain? {
      AllocFreeSet(v.fat, 0, r.value);
      assert w.cs[..|w.cs| - 1] == v.cs;
    } else if q.k < |v.cs| {
      var ch := v.cs[q.k];
      TailTaken(v.fat, v.cs, q.k);
      AllocFreeSet(v.fat, ch[|ch| - 1], r.value);
      HeldUpdate(v.cs, q.k, ch + [r.value]);
    }
  }

  /**
   Over every run of requests the free clusters suffice for: chains only grow at their ends and stay
   disjoint and acyclic, and no cluster is lost or made: free clusters and clusters on chains add up
   to the same number.
   */
  lemma {:induction false} AllocationRun(v: Volume, qs: seq<Request>)
    requires |v.fat| <= SCAN_LIMIT && Family(v.fat, v.cs) && |qs| <= FreeCount(v.fat)
    ensures var w := ServeAll(v, qs);
      && |v.cs| <= |w.cs|
      && (forall k :: 0 <= k < |v.cs| ==> v.cs[k] <= w.cs[k])
      && FreeCount(w.fat) + Held(w.cs) == FreeCount(v.fat) + Held(v.cs)
    decreases |qs|
  {
    hide FreeCount, Family, Serve;
    if qs != [] {
      ServeStep(v, qs[0]);
      var u := Serve(v, qs[0]);
      AllocationRun(u, qs[1..]);
      var w := ServeAll(u, qs[1..]);
      forall k | 0 <= k < |v.cs|
        ensures v.cs[k] <= w.cs[k]
      {
        assert v.cs[k] <= u.cs[k] <= w.cs[k];
      }
    }
  }
}
