/** Runs of calls on the allocator object are the runs of the allocator as a value. */
module PageRun {
  import opened PageSpec
  import opened PageAllocator

  method Perform(m: Manager, owned: seq<Extent>, c: Call) returns (owned': seq<Extent>)
    requires m.Valid() && Callable(World(m.State(), owned), c)
    modifies m`freePages, m`stackTop, m.bitmap, m.framesStack
    ensures m.Valid() && World(m.State(), owned') == Step(World(old(m.State()), owned), c)
  {
    hide Alloc, AllocAligned;
    match c {
      case Malloc(pages) =>
        var ptr := m.Pmalloc(pages);
        owned' := Hand(owned, ptr, pages);
      case MallocAligned(pages, alignment) =>
        var ptr := m.PmallocAligned(pages, alignment);
        owned' := Hand(owned, ptr, pages);
      case Free(k) =>
        if k >= |owned| {
          return owned;
        }
        m.Pfree(owned[k].start * 4096, owned[k].len);
        owned' := Drop(owned, k);
    }
  }

  /**
   Every run of calls on the object ends in the state of the run on values; when no call frees a
   single page, the extents held at the end are disjoint and marked, the cache is empty and the
   free count is the number of clear flags.
   */
  method RunCalls(m: Manager, owned: seq<Extent>, cs: seq<Call>) returns (owned': seq<Extent>)
    requires m.Valid() && Runnable(World(m.State(), owned), cs)
    modifies m`freePages, m`stackTop, m.bitmap, m.framesStack
    ensures m.Valid() && World(m.State(), owned') == Run(World(old(m.State()), owned), cs)
    ensures old(Sound(World(m.State(), owned)) && Clean(World(m.State(), owned), cs))
      ==> Sound(World(m.State(), owned'))
    decreases |cs|
  {
    hide Step, Sound, CleanCall;
    ghost var w := World(m.State(), owned);
    if Sound(w) && Clean(w, cs) {
      CleanRunSound(w, cs);
    }
    if cs == [] {
      return owned;
    }
    owned' := Perform(m, owned, cs[0]);
    owned' := RunCalls(m, owned', cs[1..]);
  }
}
