/**
  What an allocation promises: taking a block keeps the invariant, hands out a
  block that was free with room for the request, touches no block in use, and
  moves exactly the handed-out bytes out of the free list; growth adds exactly
  one chunk of free bytes and a retry after growth always finds a block.
*/
module Allocation {
  import opened Blocks
  import opened FreeList
  import opened Arena

  // ---------------------------------------------------------------- carving

  /** The search only proposes blocks that can hold the request. */
  lemma SearchFits(p: Policy, st: State, need: int)
    requires Inv(p, st) && Search(p, st.blocks, st.free, need).Some?
    ensures var i := Search(p, st.blocks, st.free, need).value;
      i < |st.free| && st.free[i] in st.blocks && !st.blocks[st.free[i]].inUse && st.blocks[st.free[i]].size >= need
  {
  }

  /** A block handed out whole keeps the invariant. */
  lemma TakeWholeInv(p: Policy, st: State, o: int)
    requires Inv(p, st) && o in st.free
    ensures Inv(p, TakeWhole(st, o))
  {
    var r := TakeWhole(st, o);
    TiledFlag(st.blocks, st.brk, o, true);
    WithoutElements(st.free, o);
    WithoutKeepsSorted(p, st.blocks, st.free, o);
    SameOnExcept(st.blocks, r.blocks, r.free, o, o);
    SortedFrame(p, st.blocks, r.blocks, r.free);
    forall i | 0 <= i < |r.free| ensures !r.blocks[r.free[i]].inUse {
      assert r.free[i] in r.free && r.free[i] in st.free;
    }
    forall x | IsFree(r.blocks, x) ensures x in r.free {
      assert IsFree(st.blocks, x) && x != o;
      var j :| 0 <= j < |st.free| && st.free[j] == x;
    }
    forall x, y | x in r.blocks && y in r.blocks && !r.blocks[x].inUse && !r.blocks[y].inUse
      ensures End(r.blocks, x) != y
    {
      assert End(r.blocks, x) == End(st.blocks, x);
    }
  }

  /** A block split into a first part of n bytes in use and a free remainder keeps the invariant. */
  lemma TakeSplitInv(p: Policy, st: State, o: int, n: int)
    requires Inv(p, st) && o in st.free && 0 < n < st.blocks[o].size
    ensures Inv(p, TakeSplit(p, st, o, n))
  {
    var r := TakeSplit(p, st, o, n);
    SplitShape(st, o, n, r.blocks);
    SplitReady(p, st, o, n, r.blocks);
    LinkRestoresInv(p, r, Without(st.free, o), o + n);
  }

  /** The split arena is tiled and coalesced, and the remainder is a new offset. */
  lemma SplitShape(st: State, o: int, n: int, blocks: map<int, Blk>)
    requires Tiled(st.blocks, st.brk) && Coalesced(st.blocks) && o in st.blocks && !st.blocks[o].inUse
    requires 0 < n < st.blocks[o].size
    requires blocks == st.blocks[o := Blk(n, true)][o + n := Blk(st.blocks[o].size - n, false)]
    ensures o + n !in st.blocks && Tiled(blocks, st.brk) && Coalesced(blocks)
  {
    TiledSplit(st.blocks, st.brk, o, n, true, false);
    SplitCoalesced(st, o, n, blocks);
  }

  lemma SplitCoalesced(st: State, o: int, n: int, blocks: map<int, Blk>)
    requires Tiled(st.blocks, st.brk) && Coalesced(st.blocks) && o in st.blocks && !st.blocks[o].inUse
    requires 0 < n < st.blocks[o].size && o + n !in st.blocks
    requires blocks == st.blocks[o := Blk(n, true)][o + n := Blk(st.blocks[o].size - n, false)]
    ensures Coalesced(blocks)
  {
    var rem := o + n;
    forall x, y | x in blocks && y in blocks && !blocks[x].inUse && !blocks[y].inUse
      ensures End(blocks, x) != y
    {
      if x == rem {
        assert End(blocks, x) == End(st.blocks, o);
        if y != rem {
          assert y in st.blocks && !st.blocks[y].inUse;
        }
      } else {
        assert x != o && End(blocks, x) == End(st.blocks, x);
        if y == rem {
          NoStartInside(st.blocks, st.brk, o, rem);
          if x < o {
            EndsBefore(st.blocks, st.brk, x, o);
          } else {
            EndsBefore(st.blocks, st.brk, o, x);
          }
        }
      }
    }
  }

  lemma SplitReady(p: Policy, st: State, o: int, n: int, blocks: map<int, Blk>)
    requires FreeListOk(st.blocks, st.free) && Sorted(p, st.blocks, st.free) && o in st.free
    requires n != 0 && o + n !in st.blocks
    requires blocks == st.blocks[o := Blk(n, true)][o + n := Blk(st.blocks[o].size - n, false)]
    ensures ReadyToLink(p, blocks, Without(st.free, o), o + n)
  {
    var rem := o + n;
    var free := Without(st.free, o);
    WithoutElements(st.free, o);
    WithoutKeepsSorted(p, st.blocks, st.free, o);
    assert rem !in st.free;
    SameOnExcept(st.blocks, blocks, free, o, rem);
    SortedFrame(p, st.blocks, blocks, free);
    forall i | 0 <= i < |free| ensures !blocks[free[i]].inUse {
      assert free[i] in free && free[i] in st.free;
    }
    forall x | IsFree(blocks, x) ensures x in free || x == rem {
      if x != rem {
        assert IsFree(st.blocks, x) && x != o;
        var j :| 0 <= j < |st.free| && st.free[j] == x;
      }
    }
  }

  /** Taking the block a search found keeps the invariant. */
  lemma CarvePreservesInv(p: Policy, st: State, o: int, req: nat)
    requires Inv(p, st) && o in st.free && st.blocks[o].size >= req + H
    ensures Inv(p, Carve(p, st, o, req))
  {
    if HandOutWhole(p, req, st.blocks[o].size) {
      TakeWholeInv(p, st, o);
    } else {
      TakeSplitInv(p, st, o, req + H);
    }
  }

  /**
    The block handed out: it starts where the free block did, is in use, holds
    the request and its header, and is the whole free block exactly when the
    policy's rule says so; the remainder of a split is a free block right after it.
  */
  lemma CarveResult(p: Policy, st: State, o: int, req: nat)
    requires Inv(p, st) && o in st.free && st.blocks[o].size >= req + H
    ensures var ns := Carve(p, st, o, req);
      && o in ns.blocks && ns.blocks[o].inUse && ns.blocks[o].size >= req + H
      && (HandOutWhole(p, req, st.blocks[o].size) ==> ns.blocks[o].size == st.blocks[o].size)
      && (!HandOutWhole(p, req, st.blocks[o].size) ==>
            && ns.blocks[o].size == req + H
            && o + req + H in ns.free
            && ns.blocks[o + req + H] == Blk(st.blocks[o].size - req - H, false))
      && ns.brk == st.brk
  {
    if !HandOutWhole(p, req, st.blocks[o].size) {
      var r := TakeSplit(p, st, o, req + H);
      InsertElements(p, r.blocks, Without(st.free, o), o + req + H);
    }
  }

  /**
    Unlinking x and changing its header (and changing or dropping the header of
    one unlisted offset y) takes exactly x's old size out of the free bytes.
  */
  lemma UnlinkFreeBytes(b1: map<int, Blk>, s: seq<int>, x: int, b2: map<int, Blk>, y: int)
    requires InDom(b1, s) && Distinct(s) && x in s && (y == x || y !in s)
    requires forall o :: o in b1 && o != x && o != y ==> o in b2 && b2[o] == b1[o]
    ensures InDom(b2, Without(s, x)) && FreeBytes(b2, Without(s, x)) == FreeBytes(b1, s) - b1[x].size
  {
    var free := Without(s, x);
    assert InDom(b1, free) && FreeBytes(b1, free) == FreeBytes(b1, s) - b1[x].size by {
      FreeBytesWithout(b1, s, x);
    }
    assert InDom(b2, free) && FreeBytes(b2, free) == FreeBytes(b1, free) by {
      WithoutElements(s, x);
      assert y !in free;
      SameOnExcept(b1, b2, free, x, y);
      FreeBytesFrame(b1, b2, free);
    }
  }

  /** Taking a block moves exactly the bytes handed out out of the free list. */
  lemma CarveFreeBytes(p: Policy, st: State, o: int, req: nat)
    requires Inv(p, st) && o in st.free && st.blocks[o].size >= req + H
    ensures var ns := Carve(p, st, o, req);
      FreeBytes(ns.blocks, ns.free) == FreeBytes(st.blocks, st.free) - ns.blocks[o].size
  {
    if HandOutWhole(p, req, st.blocks[o].size) {
      TakeWholeFreeBytes(st, o);
    } else {
      TakeSplitFreeBytes(p, st, o, req + H);
    }
  }

  lemma TakeWholeFreeBytes(st: State, o: int)
    requires InDom(st.blocks, st.free) && Distinct(st.free) && o in st.free
    ensures var r := TakeWhole(st, o);
      FreeBytes(r.blocks, r.free) == FreeBytes(st.blocks, st.free) - r.blocks[o].size
  {
    var r := TakeWhole(st, o);
    UnlinkFreeBytes(st.blocks, st.free, o, r.blocks, o);
  }

  lemma TakeSplitFreeBytes(p: Policy, st: State, o: int, n: int)
    requires InDom(st.blocks, st.free) && Distinct(st.free) && o in st.free
    requires Tiled(st.blocks, st.brk) && 0 < n < st.blocks[o].size
    ensures var r := TakeSplit(p, st, o, n);
      FreeBytes(r.blocks, r.free) == FreeBytes(st.blocks, st.free) - r.blocks[o].size
  {
    var r := TakeSplit(p, st, o, n);
    TiledSplit(st.blocks, st.brk, o, n, true, false);
    UnlinkFreeBytes(st.blocks, st.free, o, r.blocks, o + n);
    FreeBytesInsert(p, r.blocks, Without(st.free, o), o + n);
  }

  /** Taking a block leaves every block in use untouched. */
  lemma CarveKeepsInUse(p: Policy, st: State, o: int, req: nat)
    requires Inv(p, st) && o in st.free && st.blocks[o].size >= req + H
    ensures KeepsInUse(st.blocks, Carve(p, st, o, req).blocks)
  {
    if !HandOutWhole(p, req, st.blocks[o].size) {
      TiledSplit(st.blocks, st.brk, o, req + H, true, false);
    }
  }

  // ---------------------------------------------------------------- growth

  /** The block growth leaves free at the end of the arena: the chunk, or the block that absorbed it. */
  function GrownBlock(p: Policy, st: State): (g: int)
    requires Inv(p, st) && st.brk + SBRK_SIZE <= HEAP_SIZE
    ensures var ns := Grow(p, st).value; g in ns.blocks && g in ns.free
    ensures var ns := Grow(p, st).value; End(ns.blocks, g) == ns.brk
  {
    var chunk := st.blocks[st.brk := Blk(SBRK_SIZE, false)];
    TiledGrow(st.blocks, st.brk, SBRK_SIZE, false);
    GrowPreservesInv(p, st);
    var ns := Grow(p, st).value;
    match EndingAt(chunk, st.free, st.brk)
    case Some(l) =>
      assert ns == MergeChunk(p, st, l);
      l
    case None =>
      assert ns == FreshChunk(p, st);
      st.brk
  }

  /** Growth adds exactly one chunk to the free bytes. */
  lemma GrowFreeBytes(p: Policy, st: State)
    requires Inv(p, st) && st.brk + SBRK_SIZE <= HEAP_SIZE
    ensures var ns := Grow(p, st).value;
      FreeBytes(ns.blocks, ns.free) == FreeBytes(st.blocks, st.free) + SBRK_SIZE
  {
    var chunk := st.blocks[st.brk := Blk(SBRK_SIZE, false)];
    TiledGrow(st.blocks, st.brk, SBRK_SIZE, false);
    assert InDom(chunk, st.free);
    match EndingAt(chunk, st.free, st.brk)
    case Some(l) => MergeFreeBytes(p, st.blocks, st.free, l);
    case None => FreshFreeBytes(p, st.blocks, st.free, st.brk);
  }

  lemma MergeFreeBytes(p: Policy, b1: map<int, Blk>, s: seq<int>, l: int)
    requires InDom(b1, s) && Distinct(s) && l in s
    ensures var b2 := b1[l := Blk(b1[l].size + SBRK_SIZE, false)];
      InDom(b2, Insert(p, b2, Without(s, l), l))
      && FreeBytes(b2, Insert(p, b2, Without(s, l), l)) == FreeBytes(b1, s) + SBRK_SIZE
  {
    var b2 := b1[l := Blk(b1[l].size + SBRK_SIZE, false)];
    UnlinkFreeBytes(b1, s, l, b2, l);
    FreeBytesInsert(p, b2, Without(s, l), l);
  }

  lemma FreshFreeBytes(p: Policy, b1: map<int, Blk>, s: seq<int>, t: int)
    requires InDom(b1, s) && t !in b1
    ensures var b2 := b1[t := Blk(SBRK_SIZE, false)];
      InDom(b2, Insert(p, b2, s, t))
      && FreeBytes(b2, Insert(p, b2, s, t)) == FreeBytes(b1, s) + SBRK_SIZE
  {
    var b2 := b1[t := Blk(SBRK_SIZE, false)];
    assert t !in s;
    SameOnExcept(b1, b2, s, t, t);
    FreeBytesFrame(b1, b2, s);
    FreeBytesInsert(p, b2, s, t);
  }

  /** Growth leaves every block in use untouched. */
  lemma GrowKeepsInUse(p: Policy, st: State)
    requires Inv(p, st) && st.brk + SBRK_SIZE <= HEAP_SIZE
    ensures KeepsInUse(st.blocks, Grow(p, st).value.blocks)
  {
    TiledGrow(st.blocks, st.brk, SBRK_SIZE, false);
  }

  /**
    After growth the search always succeeds for a request that fits in one chunk
    with its header: the block at the end of the arena holds a whole chunk.
  */
  lemma RetryAfterGrowthSucceeds(p: Policy, st: State, req: nat)
    requires Inv(p, st) && st.brk + SBRK_SIZE <= HEAP_SIZE && req + H <= SBRK_SIZE
    ensures Search(p, Grow(p, st).value.blocks, Grow(p, st).value.free, req + H).Some?
  {
    GrowPreservesInv(p, st);
    var ns := Grow(p, st).value;
    var g := GrownBlock(p, st);
    var j :| 0 <= j < |ns.free| && ns.free[j] == g;
    assert !ns.blocks[g].inUse;
    assert ns.blocks[g].size >= SBRK_SIZE by {
      var chunk := st.blocks[st.brk := Blk(SBRK_SIZE, false)];
      TiledGrow(st.blocks, st.brk, SBRK_SIZE, false);
      assert InDom(chunk, st.free);
    }
    assert Candidate(ns.blocks, ns.free[j], req + H);
  }
}
