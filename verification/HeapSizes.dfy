/** How large blocks are: none is ever smaller than the smallest request, and none handed out is much too large. */
module HeapSizes {
  import opened Bytes
  import opened HeapSpec

  ghost predicate Roomy(bs: Blocks) { forall a :: a in bs ==> bs[a].size >= 16 }

  lemma {:induction false} TakeRoomy(h: Heap, i: nat, size: nat)
    requires Roomy(h.blocks) && size >= 16
    requires i < |h.free| && h.free[i] in h.blocks && h.blocks[h.free[i]].size >= size
    ensures Roomy(Take(h, i, size).blocks)
  {
  }

  lemma {:induction false} ReleaseRoomy(h: Heap, a: nat)
    requires Roomy(h.blocks) && Listed(h.blocks, h.free) && a in h.blocks && h.blocks[a].used
    ensures Roomy(Release(h, a).blocks)
  {
    hide Merge, Listed, Roomy;
    var i, g := Place(h.free, a, 0), Insert(h, a);
    InsertListed(h, a);
    InsertRoomy(h, a);
    MergeNextListed(g, i);
    MergesRoomy(g, i);
    MergesRoomy(MergeNext(g, i), i);
  }

  lemma {:induction false} InsertRoomy(h: Heap, a: nat)
    requires Roomy(h.blocks) && a in h.blocks
    ensures Roomy(Insert(h, a).blocks)
  {
  }

  lemma {:induction false} MergesRoomy(h: Heap, i: nat)
    requires Roomy(h.blocks) && Listed(h.blocks, h.free) && i < |h.free|
    ensures Roomy(MergeNext(h, i).blocks) && Roomy(MergePrev(h, i).blocks)
  {
    ListedAll(h);
  }

  lemma {:induction false} StepRoomy(h: Heap, pools: set<nat>, op: Op)
    requires WellFormed(h, pools) && Legal(h, pools, op) && Roomy(h.blocks)
    ensures Roomy(Step(h, pools, op).0.blocks)
  {
    hide Take, Release, Roomy;
    match op {
      case Malloc(size, p) =>
        if size > 0 {
          var n := Rounded(size);
          var r := Fit(h, n, 0);
          if r.Some? {
            TakeRoomy(h, r.value, n);
          } else {
            PoolRoomy(h, p);
            TakeRoomy(AddPool(h, p), 0, n);
          }
        }
      case Free(a) => ReleaseRoomy(h, a);
    }
  }

  lemma {:induction false} PoolRoomy(h: Heap, p: nat)
    requires Roomy(h.blocks)
    ensures Roomy(AddPool(h, p).blocks)
  {
  }

  /** Over every run a split leaves no block that could not serve the smallest request. */
  lemma {:induction false} RunRoomy(h: Heap, pools: set<nat>, ops: seq<Op>)
    requires WellFormed(h, pools) && LegalRun(h, pools, ops) && Roomy(h.blocks)
    ensures Roomy(Run(h, pools, ops).0.blocks)
    decreases |ops|
  {
    hide WellFormed, Step, Roomy, Legal;
    if ops != [] {
      StepKeeps(h, pools, ops[0]);
      StepRoomy(h, pools, ops[0]);
      var r := Step(h, pools, ops[0]);
      RunRoomy(r.0, r.1, ops[1..]);
    }
  }
}
