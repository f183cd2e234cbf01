/**
  What one request to the allocator promises: the invariant survives, an error
  leaves the state as it was, and a success hands out a block that was free (or
  fresh), is now in use and holds the request and its header, while every other
  block in use stays put and the free bytes account for exactly what was handed
  out and what the provider added.
*/
module Service {
  import opened Blocks
  import opened FreeList
  import opened Arena
  import opened Allocation

  /**
    A successful request of req bytes took state st to out.st and handed out the
    block whose header sits at out.ptr - H.
  */
  ghost predicate Served(st: State, out: Outcome, req: nat) {
    && InDom(st.blocks, st.free) && InDom(out.st.blocks, out.st.free)
    && out.ptr - H in out.st.blocks
    && out.st.blocks[out.ptr - H].inUse
    && out.st.blocks[out.ptr - H].size >= req + H
    && !(out.ptr - H in st.blocks && st.blocks[out.ptr - H].inUse)
    && KeepsInUse(st.blocks, out.st.blocks)
    && FreeBytes(out.st.blocks, out.st.free) + out.st.blocks[out.ptr - H].size
       == FreeBytes(st.blocks, st.free) + (out.st.brk - st.brk)
  }

  /**
    A request served from an intermediate state mid, reached from st by a step
    that kept every block in use and added mid.brk - st.brk free bytes, is served
    from st.
  */
  lemma ServedAfter(st: State, mid: State, out: Outcome, req: nat)
    requires InDom(st.blocks, st.free) && InDom(mid.blocks, mid.free)
    requires KeepsInUse(st.blocks, mid.blocks)
    requires FreeBytes(mid.blocks, mid.free) == FreeBytes(st.blocks, st.free) + (mid.brk - st.brk)
    requires Served(mid, out, req)
    ensures Served(st, out, req)
  {
  }

  // ---------------------------------------------------------------- getMemory

  /** Serving a request keeps the invariant, on every path. */
  lemma {:induction false} GetMemoryPreservesInv(p: Policy, st: State, req: nat)
    requires Inv(p, st) && st.free != []
    ensures Inv(p, GetMemorySpec(p, st, req).st)
    decreases HEAP_SIZE - st.brk
  {
    match Search(p, st.blocks, st.free, req + H)
    case Some(i) =>
      CarvePreservesInv(p, st, st.free[i], req);
    case None =>
      if st.brk + SBRK_SIZE <= HEAP_SIZE {
        GrowPreservesInv(p, st);
        GetMemoryPreservesInv(p, Grow(p, st).value, req);
      }
  }

  /** A search hit: the block found is carved and handed out. */
  lemma HitServes(p: Policy, st: State, req: nat, i: nat)
    requires Inv(p, st) && i < |st.free| && Fits(st.blocks, st.free[i], req + H)
    ensures var o := st.free[i];
      Served(st, Outcome(Carve(p, st, o, req), o + H, NoError), req)
  {
    var o := st.free[i];
    CarveResult(p, st, o, req);
    CarveKeepsInUse(p, st, o, req);
    CarveFreeBytes(p, st, o, req);
  }

  /**
    A request that fits in one chunk with its header fails only when the search
    misses and the provider is exhausted, and then changes nothing. On a hit the
    block at the found position is handed out without growth; on a miss the
    arena grows by exactly one chunk and the retry succeeds.
  */
  lemma GetMemoryOutcome(p: Policy, st: State, req: nat)
    requires Inv(p, st) && st.free != [] && req + H <= SBRK_SIZE
    ensures var out := GetMemorySpec(p, st, req);
      var hit := Search(p, st.blocks, st.free, req + H);
      && (out.err == OutOfMemory <==> hit.None? && st.brk + SBRK_SIZE > HEAP_SIZE)
      && (out.err != NoError ==> out.err == OutOfMemory && out.st == st && out.ptr == NIL)
      && (out.err == NoError ==> Served(st, out, req))
      && (hit.Some? ==> out.ptr == st.free[hit.value] + H && out.st.brk == st.brk)
      && (hit.None? && out.err == NoError ==> out.st.brk == st.brk + SBRK_SIZE)
  {
    match Search(p, st.blocks, st.free, req + H)
    case Some(i) =>
      HitServes(p, st, req, i);
    case None =>
      if st.brk + SBRK_SIZE <= HEAP_SIZE {
        GrowServes(p, st, req);
      }
  }

  /** After a miss, growth and the retry together serve the request. */
  lemma GrowServes(p: Policy, st: State, req: nat)
    requires Inv(p, st) && st.free != [] && req + H <= SBRK_SIZE && st.brk + SBRK_SIZE <= HEAP_SIZE
    requires Search(p, st.blocks, st.free, req + H).None?
    ensures var out := GetMemorySpec(p, st, req);
      out.err == NoError && Served(st, out, req) && out.st.brk == st.brk + SBRK_SIZE
  {
    GrowPreservesInv(p, st);
    var g := Grow(p, st).value;
    RetryAfterGrowthSucceeds(p, st, req);
    var i := Search(p, g.blocks, g.free, req + H).value;
    var out := GetMemorySpec(p, g, req);
    assert GetMemorySpec(p, st, req) == out;
    assert out == Outcome(Carve(p, g, g.free[i], req), g.free[i] + H, NoError);
    HitServes(p, g, req, i);
    GrowKeepsInUse(p, st);
    GrowFreeBytes(p, st);
    ServedAfter(st, g, out, req);
  }

  // ---------------------------------------------------------------- malloc

  /** Allocation keeps the invariant, on every path. */
  lemma AllocatePreservesInv(p: Policy, st: State, req: nat)
    requires Inv(p, st)
    ensures Inv(p, Allocate(p, st, req).st)
  {
    if req + H <= SBRK_SIZE {
      if st.free == [] {
        if st.brk + SBRK_SIZE <= HEAP_SIZE {
          SeedPreservesInv(p, st);
          GetMemoryPreservesInv(p, Seed(st), req);
        }
      } else {
        GetMemoryPreservesInv(p, st, req);
      }
    }
  }

  /**
    The outcome of an allocation: too large exactly when the request and its
    header exceed one chunk; out of memory exactly when the search misses and the
    provider is exhausted; either error leaves the state untouched and returns
    NIL; otherwise the request is served.
  */
  lemma AllocateOutcome(p: Policy, st: State, req: nat)
    requires Inv(p, st)
    ensures var out := Allocate(p, st, req);
      && (out.err == SingleRequestTooLarge <==> req + H > SBRK_SIZE)
      && (out.err == OutOfMemory <==>
            req + H <= SBRK_SIZE && Search(p, st.blocks, st.free, req + H).None? && st.brk + SBRK_SIZE > HEAP_SIZE)
      && (out.err != NoError ==> out.st == st && out.ptr == NIL)
      && (out.err == NoError ==> Served(st, out, req))
  {
    if req + H <= SBRK_SIZE {
      if st.free == [] {
        if st.brk + SBRK_SIZE <= HEAP_SIZE {
          SeedServes(p, st, req);
        }
      } else {
        GetMemoryOutcome(p, st, req);
      }
    }
  }

  /** Seeding an empty free list and serving from the fresh chunk. */
  lemma SeedServes(p: Policy, st: State, req: nat)
    requires Inv(p, st) && st.free == [] && st.brk + SBRK_SIZE <= HEAP_SIZE && req + H <= SBRK_SIZE
    ensures Inv(p, Seed(st))
    ensures var out := GetMemorySpec(p, Seed(st), req);
      out.err == NoError && Served(st, out, req)
  {
    SeedPreservesInv(p, st);
    var s := Seed(st);
    SeedFacts(st, req);
    GetMemoryOutcome(p, s, req);
    ServedAfter(st, s, GetMemorySpec(p, s, req), req);
  }

  /** The seeded list holds one chunk of free bytes, which the search finds. */
  lemma SeedFacts(st: State, req: nat)
    requires 0 <= st.brk && Tiled(st.blocks, st.brk) && st.free == [] && req + H <= SBRK_SIZE
    ensures var s := Seed(st);
      && InDom(s.blocks, s.free) && KeepsInUse(st.blocks, s.blocks)
      && FreeBytes(s.blocks, s.free) == FreeBytes(st.blocks, st.free) + (s.brk - st.brk)
      && FirstFit(s.blocks, s.free, req + H).Some? && BestFit(s.blocks, s.free, req + H).Some?
  {
    TiledGrow(st.blocks, st.brk, SBRK_SIZE, false);
    var s := Seed(st);
    assert Candidate(s.blocks, s.free[0], req + H);
  }

  // ---------------------------------------------------------------- cases of a request

  /** A request too large for one chunk with its header: Allocate rejects it and changes nothing. */
  lemma AllocateTooLarge(p: Policy, st: State, req: nat)
    requires Inv(p, st) && req + H > SBRK_SIZE
    ensures Allocate(p, st, req) == Outcome(st, NIL, SingleRequestTooLarge)
  {
  }

  /** A request that fits, with an empty free list and no room left: Allocate fails with OutOfMemory. */
  lemma AllocateExhausted(p: Policy, st: State, req: nat)
    requires Inv(p, st) && req + H <= SBRK_SIZE && st.free == [] && st.brk + SBRK_SIZE > HEAP_SIZE
    ensures Allocate(p, st, req) == Outcome(st, NIL, OutOfMemory)
  {
  }

  /** A request that fits, with an empty free list and room for a chunk: Allocate serves it from the seeded list. */
  lemma AllocateSeeded(p: Policy, st: State, req: nat)
    requires Inv(p, st) && req + H <= SBRK_SIZE && st.free == [] && st.brk + SBRK_SIZE <= HEAP_SIZE
    ensures Inv(p, Seed(st)) && Allocate(p, st, req) == GetMemorySpec(p, Seed(st), req)
  {
    SeedPreservesInv(p, st);
  }

  /** A request that fits, with a non-empty free list: Allocate serves it from that list. */
  lemma AllocateListed(p: Policy, st: State, req: nat)
    requires Inv(p, st) && req + H <= SBRK_SIZE && st.free != []
    ensures Allocate(p, st, req) == GetMemorySpec(p, st, req)
  {
  }

  /** Serving a request that fits fails only with OutOfMemory, and exactly when the pointer is NIL. */
  lemma GetMemoryResult(p: Policy, st: State, req: nat)
    requires Inv(p, st) && st.free != [] && req + H <= SBRK_SIZE
    ensures var out := GetMemorySpec(p, st, req);
      && (out.err == NoError || out.err == OutOfMemory)
      && (out.err == OutOfMemory <==> out.ptr == NIL)
  {
    GetMemoryOutcome(p, st, req);
    GetMemoryPreservesInv(p, st, req);
  }

  /** A search hit at block o: GetMemorySpec carves o, and o can be carved. */
  lemma GetMemoryHit(p: Policy, st: State, req: nat, o: int)
    requires Inv(p, st) && st.free != [] && Search(p, st.blocks, st.free, req + H).Some?
    requires o == st.free[Search(p, st.blocks, st.free, req + H).value]
    ensures GetMemorySpec(p, st, req) == Outcome(Carve(p, st, o, req), o + H, NoError)
    ensures Inv(p, Carve(p, st, o, req)) && o in st.free && 0 <= o
    ensures !st.blocks[o].inUse && st.blocks[o].size >= req + H
    ensures HandOutWhole(p, req, st.blocks[o].size) || o + req + H !in st.blocks
  {
    CarvePreservesInv(p, st, o, req);
    LeftoverIsNew(p, st, o, req);
  }

  /** A miss with room to grow: GetMemorySpec serves the request from the grown arena. */
  lemma GetMemoryRetry(p: Policy, st: State, req: nat)
    requires Inv(p, st) && st.free != [] && Search(p, st.blocks, st.free, req + H).None?
    requires st.brk + SBRK_SIZE <= HEAP_SIZE
    ensures Grow(p, st).Some? && Inv(p, Grow(p, st).value) && Grow(p, st).value.free != []
    ensures GetMemorySpec(p, st, req) == GetMemorySpec(p, Grow(p, st).value, req)
  {
    GrowPreservesInv(p, st);
  }

  /** A miss with the provider exhausted: GetMemorySpec fails with OutOfMemory and changes nothing. */
  lemma GetMemoryExhausted(p: Policy, st: State, req: nat)
    requires Inv(p, st) && st.free != [] && Search(p, st.blocks, st.free, req + H).None?
    requires st.brk + SBRK_SIZE > HEAP_SIZE
    ensures GetMemorySpec(p, st, req) == Outcome(st, NIL, OutOfMemory)
  {
  }

  /** In a tiled arena the remainder of a split starts at a new offset, after a block that starts at or above 0. */
  lemma LeftoverIsNew(p: Policy, st: State, o: int, req: nat)
    requires Tiled(st.blocks, st.brk) && o in st.blocks && st.blocks[o].size >= req + H
    ensures 0 <= o && (HandOutWhole(p, req, st.blocks[o].size) || o + req + H !in st.blocks)
  {
    if !HandOutWhole(p, req, st.blocks[o].size) {
      NoStartInside(st.blocks, st.brk, o, o + req + H);
    }
  }
}
