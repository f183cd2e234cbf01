/**
  The allocator as a function of its abstract state: the block headers, the
  free list in link order and the arena end. Each function here is what one
  routine of the allocator does to that state; the lemmas state what the
  allocator promises about it.
*/
module Arena {
  import opened Blocks
  import opened FreeList

  /** Every block header of the arena, the free list from its head, the arena end. */
  datatype State = State(blocks: map<int, Blk>, free: seq<int>, brk: int)

  /** An allocation's new state, returned pointer (NIL on failure) and error code. */
  datatype Outcome = Outcome(st: State, ptr: int, err: Errno)

  /** The free list holds exactly the blocks that are not in use, each once. */
  ghost predicate FreeListOk(blocks: map<int, Blk>, s: seq<int>) {
    && InDom(blocks, s)
    && Distinct(s)
    && (forall i :: 0 <= i < |s| ==> !blocks[s[i]].inUse)
    && (forall o {:trigger IsFree(blocks, o)} :: IsFree(blocks, o) ==> o in s)
  }

  /** No free block ends where another free block starts. */
  ghost predicate Coalesced(blocks: map<int, Blk>) {
    forall o, q {:trigger End(blocks, o), q in blocks} ::
      o in blocks && q in blocks && !blocks[o].inUse && !blocks[q].inUse ==> End(blocks, o) != q
  }

  /** What holds between any two calls of the allocator under policy p. */
  ghost predicate Inv(p: Policy, st: State) {
    && 0 <= st.brk <= HEAP_SIZE
    && Tiled(st.blocks, st.brk)
    && FreeListOk(st.blocks, st.free)
    && Sorted(p, st.blocks, st.free)
    && Coalesced(st.blocks)
  }

  /** Blocks in use in b1 are still there, untouched, in b2. */
  ghost predicate KeepsInUse(b1: map<int, Blk>, b2: map<int, Blk>) {
    forall o :: o in b1 && b1[o].inUse ==> o in b2 && b2[o] == b1[o]
  }

  // ---------------------------------------------------------------- allocation

  /** Whether the chosen block of `size` bytes is handed out whole rather than split. */
  predicate HandOutWhole(p: Policy, req: int, size: int) {
    match p
    case BySize => req + 2 * H + 1 >= size
    case ByAddress => !(req + 2 * H + 1 <= size)
  }

  /** The policy's search for a block of `need` bytes: a position in the free list. */
  function Search(p: Policy, blocks: map<int, Blk>, s: seq<int>, need: int): (r: Option<nat>)
    requires InDom(blocks, s)
    ensures r.Some? ==> r.value < |s| && Fits(blocks, s[r.value], need)
  {
    match p
    case BySize => FirstFit(blocks, s, need)
    case ByAddress => BestFit(blocks, s, need)
  }

  /**
    Takes the chosen free block o for a request of req bytes: unlinks it, marks it
    in use and, unless it is handed out whole, shrinks it to req + H bytes and
    links the remainder, a new free block at o + req + H, into the list.
  */
  function Carve(p: Policy, st: State, o: int, req: nat): (r: State)
    requires InDom(st.blocks, st.free) && o in st.free
    ensures o in r.blocks && r.blocks[o].inUse && InDom(r.blocks, r.free) && r.brk == st.brk
  {
    if HandOutWhole(p, req, st.blocks[o].size) then TakeWhole(st, o) else TakeSplit(p, st, o, req + H)
  }

  /** The free block o unlinked and marked in use, whole. */
  function TakeWhole(st: State, o: int): (r: State)
    requires InDom(st.blocks, st.free) && o in st.free
    ensures r.blocks == st.blocks[o := st.blocks[o].(inUse := true)] && r.free == Without(st.free, o)
    ensures o in r.blocks && r.blocks[o].inUse && InDom(r.blocks, r.free) && r.brk == st.brk
  {
    WithoutInDom(st.blocks, st.free, o);
    State(st.blocks[o := st.blocks[o].(inUse := true)], Without(st.free, o), st.brk)
  }

  /** The free block o unlinked and cut to n bytes in use; the remainder at o + n is linked in. */
  function TakeSplit(p: Policy, st: State, o: int, n: int): (r: State)
    requires InDom(st.blocks, st.free) && o in st.free && n != 0
    ensures r.blocks == st.blocks[o := Blk(n, true)][o + n := Blk(st.blocks[o].size - n, false)]
    ensures InDom(r.blocks, Without(st.free, o)) && r.free == Insert(p, r.blocks, Without(st.free, o), o + n)
    ensures o in r.blocks && r.blocks[o].inUse && o + n in r.blocks && InDom(r.blocks, r.free) && r.brk == st.brk
  {
    var blocks := st.blocks[o := Blk(n, true)][o + n := Blk(st.blocks[o].size - n, false)];
    WithoutInDom(st.blocks, st.free, o);
    assert InDom(blocks, Without(st.free, o));
    InsertElements(p, blocks, Without(st.free, o), o + n);
    State(blocks, Insert(p, blocks, Without(st.free, o), o + n), st.brk)
  }

  /**
    Grows the arena by one chunk at its end, or fails when the provider is
    exhausted. A free block ending at the chunk's start absorbs it and is
    re-linked; otherwise the chunk is linked in as a new free block.
  */
  function Grow(p: Policy, st: State): (r: Option<State>)
    requires Inv(p, st)
    ensures r.None? <==> st.brk + SBRK_SIZE > HEAP_SIZE
    ensures r.Some? ==> r.value.brk == st.brk + SBRK_SIZE && InDom(r.value.blocks, r.value.free) && r.value.free != []
  {
    if st.brk + SBRK_SIZE > HEAP_SIZE then None
    else
      var chunk := st.blocks[st.brk := Blk(SBRK_SIZE, false)];
      match EndingAt(chunk, st.free, st.brk)
      case Some(l) => Some(MergeChunk(p, st, l))
      case None => Some(FreshChunk(p, st))
  }

  /** The fresh chunk at brk absorbed into the listed block l that ends there. */
  function MergeChunk(p: Policy, st: State, l: int): (r: State)
    requires InDom(st.blocks, st.free) && Distinct(st.free) && l in st.free
    ensures r.brk == st.brk + SBRK_SIZE && InDom(r.blocks, r.free) && r.free != []
  {
    var blocks := st.blocks[l := Blk(st.blocks[l].size + SBRK_SIZE, false)];
    WithoutElements(st.free, l);
    var free := Without(st.free, l);
    InsertElements(p, blocks, free, l);
    State(blocks, Insert(p, blocks, free, l), st.brk + SBRK_SIZE)
  }

  /** The fresh chunk at brk linked in as a free block of its own. */
  function FreshChunk(p: Policy, st: State): (r: State)
    requires InDom(st.blocks, st.free)
    ensures r.brk == st.brk + SBRK_SIZE && InDom(r.blocks, r.free) && r.free != []
  {
    var blocks := st.blocks[st.brk := Blk(SBRK_SIZE, false)];
    InsertElements(p, blocks, st.free, st.brk);
    State(blocks, Insert(p, blocks, st.free, st.brk), st.brk + SBRK_SIZE)
  }

  /** Seeds an empty free list with one fresh chunk. */
  function Seed(st: State): State {
    State(st.blocks[st.brk := Blk(SBRK_SIZE, false)], [st.brk], st.brk + SBRK_SIZE)
  }

  /**
    Serves a request of req bytes from a non-empty free list: takes the block the
    policy's search picks, or on a miss grows the arena and searches again.
  */
  function GetMemorySpec(p: Policy, st: State, req: nat): Outcome
    requires Inv(p, st) && st.free != []
    decreases HEAP_SIZE - st.brk
  {
    match Search(p, st.blocks, st.free, req + H)
    case Some(i) => Outcome(Carve(p, st, st.free[i], req), st.free[i] + H, NoError)
    case None =>
      match Grow(p, st)
      case None => Outcome(st, NIL, OutOfMemory)
      case Some(st1) =>
        GrowPreservesInv(p, st);
        GetMemorySpec(p, st1, req)
  }

  /**
    Allocation of req bytes: rejects a request that does not fit in one chunk
    with its header, seeds an empty free list, then serves it.
  */
  function Allocate(p: Policy, st: State, req: nat): Outcome
    requires Inv(p, st)
  {
    if req + H > SBRK_SIZE then Outcome(st, NIL, SingleRequestTooLarge)
    else if st.free == [] then
      if st.brk + SBRK_SIZE > HEAP_SIZE then Outcome(st, NIL, OutOfMemory)
      else
        SeedPreservesInv(p, st);
        GetMemorySpec(p, Seed(st), req)
    else GetMemorySpec(p, st, req)
  }

  // ---------------------------------------------------------------- release

  /**
    The left half of coalescing: a listed block ending where the block at head
    starts absorbs it and is unlinked. Returns the state and the surviving block.
  */
  function AbsorbLeft(st: State, head: int): (r: (State, int))
    requires InDom(st.blocks, st.free) && Distinct(st.free) && head in st.blocks && head !in st.free
    ensures r.1 in r.0.blocks && r.1 !in r.0.free && InDom(r.0.blocks, r.0.free) && Distinct(r.0.free)
  {
    match EndingAt(st.blocks, st.free, head)
    case Some(l) =>
      WithoutElements(st.free, l);
      var blocks := (st.blocks - {head})[l := st.blocks[l].(size := st.blocks[l].size + st.blocks[head].size)];
      (State(blocks, Without(st.free, l), st.brk), l)
    case None => (st, head)
  }

  /**
    The right half of coalescing: the listed block starting where block c ends,
    if there is one, is absorbed into c and unlinked.
  */
  function AbsorbRight(st: State, c: int): (r: State)
    requires InDom(st.blocks, st.free) && Distinct(st.free) && c in st.blocks && c !in st.free
    ensures c in r.blocks && c !in r.free && InDom(r.blocks, r.free) && Distinct(r.free)
  {
    var right := End(st.blocks, c);
    if right in st.free then
      WithoutElements(st.free, right);
      var blocks := (st.blocks - {right})[c := st.blocks[c].(size := st.blocks[c].size + st.blocks[right].size)];
      State(blocks, Without(st.free, right), st.brk)
    else st
  }

  /**
    Merges the in-use block whose payload starts at ptr with its free neighbours
    on both sides; returns the state and the merged block, still unlinked.
  */
  function Coalesce(p: Policy, st: State, ptr: int): (r: (State, int))
    requires Inv(p, st) && ptr - H in st.blocks && st.blocks[ptr - H].inUse
    ensures r.1 in r.0.blocks && r.1 !in r.0.free && InDom(r.0.blocks, r.0.free) && Distinct(r.0.free)
  {
    var (st1, c) := AbsorbLeft(st, ptr - H);
    (AbsorbRight(st1, c), c)
  }

  /** Release of the block whose payload starts at ptr (NIL: nothing happens). */
  function Release(p: Policy, st: State, ptr: int): (r: State)
    requires Inv(p, st) && (ptr == NIL || (ptr - H in st.blocks && st.blocks[ptr - H].inUse))
    ensures InDom(r.blocks, r.free)
  {
    if ptr == NIL then st
    else
      var (st1, c) := Coalesce(p, st, ptr);
      var blocks := st1.blocks[c := st1.blocks[c].(inUse := false)];
      InsertElements(p, blocks, st1.free, c);
      State(blocks, Insert(p, blocks, st1.free, c), st1.brk)
  }

  // ---------------------------------------------------------------- invariant

  /**
    The free list before block b is linked in: it lists every free block but b,
    each once, and is ordered.
  */
  ghost predicate ReadyToLink(p: Policy, blocks: map<int, Blk>, s: seq<int>, b: int) {
    && InDom(blocks, s) && Distinct(s) && b in blocks && b !in s && !blocks[b].inUse
    && (forall i :: 0 <= i < |s| ==> !blocks[s[i]].inUse)
    && (forall o {:trigger IsFree(blocks, o)} :: IsFree(blocks, o) ==> o in s || o == b)
    && Sorted(p, blocks, s)
  }

  /** Linking the one unlisted free block in restores the invariant. */
  lemma LinkRestoresInv(p: Policy, ns: State, s: seq<int>, b: int)
    requires 0 <= ns.brk <= HEAP_SIZE && Tiled(ns.blocks, ns.brk) && Coalesced(ns.blocks)
    requires ReadyToLink(p, ns.blocks, s, b) && ns.free == Insert(p, ns.blocks, s, b)
    ensures Inv(p, ns)
  {
    InsertElements(p, ns.blocks, s, b);
    InsertKeepsSorted(p, ns.blocks, s, b);
    InsertKeepsDistinct(p, ns.blocks, s, b);
    forall i | 0 <= i < |ns.free| ensures !ns.blocks[ns.free[i]].inUse {
      assert ns.free[i] in s || ns.free[i] == b;
    }
  }

  /** Seeding an empty free list with a fresh chunk keeps the invariant. */
  lemma SeedPreservesInv(p: Policy, st: State)
    requires Inv(p, st) && st.free == [] && st.brk + SBRK_SIZE <= HEAP_SIZE
    ensures Inv(p, Seed(st))
  {
    var t := st.brk;
    var b := st.blocks[t := Blk(SBRK_SIZE, false)];
    TiledGrow(st.blocks, t, SBRK_SIZE, false);
    forall x | x in st.blocks ensures st.blocks[x].inUse {
      assert !IsFree(st.blocks, x) || x in st.free;
    }
  }

  /** Growing the arena keeps the invariant. */
  lemma GrowPreservesInv(p: Policy, st: State)
    requires Inv(p, st) && st.brk + SBRK_SIZE <= HEAP_SIZE
    ensures Grow(p, st).Some? && Inv(p, Grow(p, st).value)
  {
    var t := st.brk;
    var chunk := st.blocks[t := Blk(SBRK_SIZE, false)];
    TiledGrow(st.blocks, t, SBRK_SIZE, false);
    assert InDom(chunk, st.free);
    match EndingAt(chunk, st.free, t)
    case Some(l) => GrowMergeInv(p, st, l);
    case None => GrowFreshInv(p, st);
  }

  lemma GrowMergeInv(p: Policy, st: State, l: int)
    requires Inv(p, st) && st.brk + SBRK_SIZE <= HEAP_SIZE
    requires l in st.free && l in st.blocks && End(st.blocks, l) == st.brk
    ensures Inv(p, MergeChunk(p, st, l))
  {
    GrowMergeParts(p, st, l, MergeChunk(p, st, l));
  }

  lemma GrowMergeParts(p: Policy, st: State, l: int, ns: State)
    requires Inv(p, st) && st.brk + SBRK_SIZE <= HEAP_SIZE
    requires l in st.free && l in st.blocks && End(st.blocks, l) == st.brk
    requires ns == MergeChunk(p, st, l)
    ensures Inv(p, ns)
  {
    var blocks := st.blocks[l := Blk(st.blocks[l].size + SBRK_SIZE, false)];
    var free := Without(st.free, l);
    TiledExtend(st.blocks, st.brk, l, SBRK_SIZE, false);
    GrowMergeCoalesced(st, l, blocks);
    GrowMergeReady(p, st, l, blocks);
    assert ns == State(blocks, Insert(p, blocks, free, l), st.brk + SBRK_SIZE);
    LinkRestoresInv(p, ns, free, l);
  }

  lemma GrowMergeReady(p: Policy, st: State, l: int, blocks: map<int, Blk>)
    requires FreeListOk(st.blocks, st.free) && Sorted(p, st.blocks, st.free) && l in st.free
    requires blocks == st.blocks[l := Blk(st.blocks[l].size + SBRK_SIZE, false)]
    ensures ReadyToLink(p, blocks, Without(st.free, l), l)
  {
    var free := Without(st.free, l);
    WithoutElements(st.free, l);
    WithoutKeepsSorted(p, st.blocks, st.free, l);
    SameOnExcept(st.blocks, blocks, free, l, l);
    SortedFrame(p, st.blocks, blocks, free);
    GrowMergeListed(st, l, blocks);
  }

  /** Two header maps that agree off x and y agree on a list avoiding x and y. */
  lemma SameOnExcept(b1: map<int, Blk>, b2: map<int, Blk>, s: seq<int>, x: int, y: int)
    requires InDom(b1, s) && x !in s && y !in s
    requires forall o :: o in b1 && o != x && o != y ==> o in b2 && b2[o] == b1[o]
    ensures SameOn(b1, b2, s)
  {
    forall i | 0 <= i < |s| ensures s[i] in b2 && b1[s[i]] == b2[s[i]] {
      assert s[i] in s && s[i] in b1;
      assert s[i] != x && s[i] != y;
    }
  }

  lemma GrowMergeListed(st: State, l: int, blocks: map<int, Blk>)
    requires FreeListOk(st.blocks, st.free) && l in st.free
    requires blocks == st.blocks[l := Blk(st.blocks[l].size + SBRK_SIZE, false)]
    ensures forall x :: x in blocks && !blocks[x].inUse ==> x in Without(st.free, l) || x == l
  {
    WithoutElements(st.free, l);
    forall x | x in blocks && !blocks[x].inUse ensures x in Without(st.free, l) || x == l {
      if x != l {
        assert IsFree(st.blocks, x);
        var j :| 0 <= j < |st.free| && st.free[j] == x;
      }
    }
  }

  lemma GrowMergeCoalesced(st: State, l: int, blocks: map<int, Blk>)
    requires Tiled(st.blocks, st.brk) && Coalesced(st.blocks) && l in st.blocks && !st.blocks[l].inUse
    requires End(st.blocks, l) == st.brk
    requires blocks == st.blocks[l := Blk(st.blocks[l].size + SBRK_SIZE, false)]
    ensures Coalesced(blocks)
  {
    forall x, y | x in blocks && y in blocks && !blocks[x].inUse && !blocks[y].inUse
      ensures End(blocks, x) != y
    {
      if x == l {
        assert y + blocks[y].size <= st.brk + SBRK_SIZE;
      } else {
        assert End(blocks, x) == End(st.blocks, x);
      }
    }
  }

  lemma GrowFreshInv(p: Policy, st: State)
    requires Inv(p, st) && st.brk + SBRK_SIZE <= HEAP_SIZE
    requires forall y :: y in st.free ==> End(st.blocks, y) != st.brk
    ensures Inv(p, FreshChunk(p, st))
  {
    GrowFreshParts(p, st, FreshChunk(p, st));
  }

  lemma GrowFreshParts(p: Policy, st: State, ns: State)
    requires Inv(p, st) && st.brk + SBRK_SIZE <= HEAP_SIZE
    requires forall y :: y in st.free ==> End(st.blocks, y) != st.brk
    requires ns == FreshChunk(p, st)
    ensures Inv(p, ns)
  {
    var t := st.brk;
    var chunk := st.blocks[t := Blk(SBRK_SIZE, false)];
    TiledGrow(st.blocks, t, SBRK_SIZE, false);
    SameOnExcept(st.blocks, chunk, st.free, t, t);
    SortedFrame(p, st.blocks, chunk, st.free);
    assert Coalesced(chunk) by {
      forall x, y | x in chunk && y in chunk && !chunk[x].inUse && !chunk[y].inUse
        ensures End(chunk, x) != y
      {
        if x != t {
          assert End(chunk, x) == End(st.blocks, x);
          if y == t {
            assert IsFree(st.blocks, x);
          }
        }
      }
    }
    forall x | IsFree(chunk, x) ensures x in st.free || x == t {
      if x != t { assert IsFree(st.blocks, x); }
    }
    assert ns == State(chunk, Insert(p, chunk, st.free, t), t + SBRK_SIZE);
    LinkRestoresInv(p, ns, st.free, t);
  }
}
