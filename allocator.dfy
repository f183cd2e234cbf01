/**
  The allocator as the program runs it: one object holding the block headers,
  their free-list links, the head of the free list, the arena end and the error
  code, with one method per routine. Each method follows the routine's loops
  and branches; its contract ties the new state to the function in Arena that
  says what the routine does, so every property proved there holds of the code.
*/
module Malloc {
  import opened Blocks
  import opened FreeList
  import opened Arena
  import opened Links
  import opened Allocation
  import opened Freeing
  import opened Service

  /**
    What the address-order scan knows after looking at the first n listed
    blocks: either no candidate so far and bestSize is still the sentinel, or
    bestPos is the earliest of the smallest candidates so far and bestSize its size.
  */
  ghost predicate BestSoFar(blocks: map<int, Blk>, s: seq<int>, need: int, n: int, bestSize: int, bestPos: int)
    requires InDom(blocks, s) && 0 <= n <= |s|
  {
    && (bestSize == BEST_SENTINEL ==> forall j :: 0 <= j < n ==> !Candidate(blocks, s[j], need))
    && (bestSize != BEST_SENTINEL ==>
          && 0 <= bestPos < n && Candidate(blocks, s[bestPos], need) && bestSize == blocks[s[bestPos]].size
          && (forall j :: 0 <= j < n && Candidate(blocks, s[j], need) ==> bestSize <= blocks[s[j]].size)
          && (forall j :: 0 <= j < bestPos && Candidate(blocks, s[j], need) ==> bestSize < blocks[s[j]].size))
  }

  /** A first-fit scan that met no fitting block before position k and a fitting one at k found k. */
  lemma FirstFitIs(blocks: map<int, Blk>, s: seq<int>, need: int, k: int)
    requires InDom(blocks, s) && 0 <= k < |s| && Fits(blocks, s[k], need)
    requires forall j :: 0 <= j < k ==> !Fits(blocks, s[j], need)
    ensures FirstFit(blocks, s, need) == Some(k)
  {
  }

  /** The listed blocks are non-empty and do not overlap. */
  ghost predicate Apart(blocks: map<int, Blk>, s: seq<int>) {
    && (forall y {:trigger End(blocks, y)} :: y in s && y in blocks ==> y < End(blocks, y))
    && (forall y, z {:trigger End(blocks, y), z in s} ::
          y in s && y in blocks && z in s && y < z ==> End(blocks, y) <= z)
  }

  /** In a tiled arena the listed blocks lie apart. */
  lemma TiledApart(blocks: map<int, Blk>, brk: int, s: seq<int>)
    requires Tiled(blocks, brk) && InDom(blocks, s)
    ensures Apart(blocks, s)
  {
    forall y, z | y in s && y in blocks && z in s && y < z
      ensures End(blocks, y) <= z
    {
      EndsBefore(blocks, brk, y, z);
    }
  }

  /** When the highest listed block below ptr does not end at ptr, no listed block does. */
  lemma NoneEndsAt(blocks: map<int, Blk>, s: seq<int>, ptr: int, left: int)
    requires InDom(blocks, s) && Apart(blocks, s) && left in s && left < ptr && End(blocks, left) != ptr
    requires forall j :: 0 <= j < |s| && s[j] < ptr ==> s[j] <= left
    ensures forall y :: y in s ==> End(blocks, y) != ptr
  {
    forall y | y in s
      ensures End(blocks, y) != ptr
    {
      var j :| 0 <= j < |s| && s[j] == y;
      assert End(blocks, left) > left;
    }
  }

  /** AbsorbLeft when listed block l ends at head: l grows over head and leaves the list. */
  lemma AbsorbLeftFound(st: State, head: int, l: int)
    requires InDom(st.blocks, st.free) && Distinct(st.free) && Tiled(st.blocks, st.brk)
    requires head in st.blocks && head !in st.free && l in st.free && End(st.blocks, l) == head
    ensures AbsorbLeft(st, head).1 == l
    ensures AbsorbLeft(st, head).0 ==
      State((st.blocks - {head})[l := st.blocks[l].(size := st.blocks[l].size + st.blocks[head].size)], Without(st.free, l), st.brk)
  {
    EndingAtUnique(st.blocks, st.brk, st.free, head, l);
  }

  /** AbsorbLeft when no listed block ends at head: nothing changes. */
  lemma AbsorbLeftMissing(st: State, head: int)
    requires InDom(st.blocks, st.free) && Distinct(st.free) && head in st.blocks && head !in st.free
    requires forall y :: y in st.free ==> End(st.blocks, y) != head
    ensures AbsorbLeft(st, head) == (st, head)
  {
  }

  /** AbsorbRight when the block after c is listed: c grows over it and it leaves the list. */
  lemma AbsorbRightFound(st: State, c: int)
    requires InDom(st.blocks, st.free) && Distinct(st.free) && c in st.blocks && c !in st.free
    requires End(st.blocks, c) in st.free
    ensures var right := End(st.blocks, c);
      AbsorbRight(st, c) ==
      State((st.blocks - {right})[c := st.blocks[c].(size := st.blocks[c].size + st.blocks[right].size)], Without(st.free, right), st.brk)
  {
  }

  /** After absorbing the left neighbour, the listed blocks are still free and the block c is not listed. */
  lemma ListedFree(st0: State, head: int, st1: State, c: int)
    requires InDom(st0.blocks, st0.free) && Distinct(st0.free) && head in st0.blocks && head !in st0.free
    requires forall i :: 0 <= i < |st0.free| ==> !st0.blocks[st0.free[i]].inUse
    requires Tiled(st0.blocks, st0.brk)
    requires st1 == AbsorbLeft(st0, head).0 && c == AbsorbLeft(st0, head).1
    ensures c in st1.blocks && c !in st1.free && InDom(st1.blocks, st1.free) && 0 <= c
    ensures 0 < st1.blocks[c].size
    ensures forall y :: y in st1.free ==> !st1.blocks[y].inUse
  {
    match EndingAt(st0.blocks, st0.free, head)
    case Some(l) =>
      WithoutElements(st0.free, l);
    case None =>
  }

  /** Coalesce is the left merge followed by the right merge. */
  lemma CoalesceSteps(p: Policy, st: State, ptr: int)
    requires Inv(p, st) && ptr - H in st.blocks && st.blocks[ptr - H].inUse
    ensures ptr - H !in st.free
    ensures var left := AbsorbLeft(st, ptr - H);
      Coalesce(p, st, ptr) == (AbsorbRight(left.0, left.1), left.1)
  {
  }

  /**
    The fresh chunk's header written at the arena end t (b1): the listed blocks
    stay within the headers and apart, and the chunk is not listed.
  */
  lemma GrowReady(p: Policy, st: State, t: int, b1: map<int, Blk>)
    requires Inv(p, st) && t == st.brk && st.brk + SBRK_SIZE <= HEAP_SIZE
    requires b1 == st.blocks[t := Blk(SBRK_SIZE, false)]
    ensures InDom(b1, st.free) && Apart(b1, st.free) && t in b1 && t !in st.free && 0 <= t
  {
    TiledGrow(st.blocks, t, SBRK_SIZE, false);
    TiledApart(b1, t + SBRK_SIZE, st.free);
  }

  /**
    The listed block l ends where the fresh chunk starts: Grow lets l absorb it.
    b2 is the header map after the absorption, before l is unlinked.
  */
  lemma MergeReady(p: Policy, st: State, l: int, b1: map<int, Blk>, b2: map<int, Blk>)
    requires Inv(p, st) && st.brk + SBRK_SIZE <= HEAP_SIZE && l in st.free
    requires b1 == st.blocks[st.brk := Blk(SBRK_SIZE, false)] && End(b1, l) == st.brk
    requires b2 == (b1 - {st.brk})[l := b1[l].(size := b1[l].size + SBRK_SIZE)]
    ensures Grow(p, st) == Some(MergeChunk(p, st, l))
    ensures InDom(b2, Without(st.free, l)) && l in b2 && l !in Without(st.free, l) && 0 <= l
  {
    MergeFound(p, st, l, b1);
    MergeDomain(st, l, b1, b2);
  }

  /** The listed block l ends where the fresh chunk b1 adds starts, so Grow merges into l. */
  lemma MergeFound(p: Policy, st: State, l: int, b1: map<int, Blk>)
    requires Inv(p, st) && st.brk + SBRK_SIZE <= HEAP_SIZE && l in st.free
    requires b1 == st.blocks[st.brk := Blk(SBRK_SIZE, false)] && End(b1, l) == st.brk
    ensures Grow(p, st) == Some(MergeChunk(p, st, l))
  {
    TiledGrow(st.blocks, st.brk, SBRK_SIZE, false);
    EndingAtUnique(b1, st.brk + SBRK_SIZE, st.free, st.brk, l);
  }

  /** The absorbing block l stays a header of b2, and the rest of the list stays inside b2. */
  lemma MergeDomain(st: State, l: int, b1: map<int, Blk>, b2: map<int, Blk>)
    requires Tiled(st.blocks, st.brk) && InDom(st.blocks, st.free) && Distinct(st.free) && l in st.free
    requires b1 == st.blocks[st.brk := Blk(SBRK_SIZE, false)]
    requires b2 == (b1 - {st.brk})[l := b1[l].(size := b1[l].size + SBRK_SIZE)]
    ensures InDom(b2, Without(st.free, l)) && l in b2 && l !in Without(st.free, l) && 0 <= l
  {
    WithoutElements(st.free, l);
    assert st.brk !in st.blocks;
  }

  /** Once l is linked in again (b3), the merge is MergeChunk's. */
  lemma MergeDone(p: Policy, st: State, l: int, b1: map<int, Blk>, b2: map<int, Blk>, b3: map<int, Blk>)
    requires Inv(p, st) && st.brk + SBRK_SIZE <= HEAP_SIZE && l in st.free
    requires b1 == st.blocks[st.brk := Blk(SBRK_SIZE, false)]
    requires b2 == (b1 - {st.brk})[l := b1[l].(size := b1[l].size + SBRK_SIZE)]
    requires b3 == b2[l := b2[l].(inUse := false)]
    ensures MergeChunk(p, st, l) == State(b3, Insert(p, b3, Without(st.free, l), l), st.brk + SBRK_SIZE)
  {
    TiledGrow(st.blocks, st.brk, SBRK_SIZE, false);
    assert b3 == st.blocks[l := Blk(st.blocks[l].size + SBRK_SIZE, false)];
  }

  /** No listed block ends where the fresh chunk starts: Grow links the chunk in alone. */
  lemma FreshReady(p: Policy, st: State, b1: map<int, Blk>)
    requires Inv(p, st) && st.brk + SBRK_SIZE <= HEAP_SIZE
    requires b1 == st.blocks[st.brk := Blk(SBRK_SIZE, false)]
    requires forall y :: y in st.free ==> End(b1, y) != st.brk
    ensures Grow(p, st) == Some(FreshChunk(p, st))
  {
  }

  /** Once the chunk is linked in (b2), the growth is FreshChunk's. */
  lemma FreshDone(p: Policy, st: State, b1: map<int, Blk>, b2: map<int, Blk>)
    requires Inv(p, st) && st.brk + SBRK_SIZE <= HEAP_SIZE
    requires b1 == st.blocks[st.brk := Blk(SBRK_SIZE, false)]
    requires b2 == b1[st.brk := b1[st.brk].(inUse := false)]
    ensures FreshChunk(p, st) == State(b2, Insert(p, b2, st.free, st.brk), st.brk + SBRK_SIZE)
  {
    assert b2 == b1;
  }

  /** The free list seeded with the chunk at t, the arena end, is Seed's. */
  lemma SeedIs(st: State, t: int, b1: map<int, Blk>)
    requires t == st.brk && b1 == st.blocks[t := Blk(SBRK_SIZE, false)]
    ensures Seed(st) == State(b1, [t], st.brk + SBRK_SIZE)
  {
  }

  /** Carve when the block is handed out whole. */
  lemma CarveWholeForm(p: Policy, st: State, o: int, req: nat)
    requires InDom(st.blocks, st.free) && o in st.free && HandOutWhole(p, req, st.blocks[o].size)
    ensures Carve(p, st, o, req) == State(st.blocks[o := st.blocks[o].(inUse := true)], Without(st.free, o), st.brk)
  {
  }

  /**
    The size-order split as getMemory performs it, before the remainder is
    linked in: b2 is the header map with the remainder's free header written
    at o + req + H, a new offset, and the block cut to req + H bytes in use.
  */
  lemma SizeSplitReady(st: State, o: int, req: nat, left: int, rest: int, b2: map<int, Blk>)
    requires InDom(st.blocks, st.free) && Distinct(st.free) && o in st.free && o + req + H !in st.blocks
    requires left == o + req + H
    requires b2 == st.blocks[left := Blk(rest, false)][o := Blk(req + H, true)]
    ensures InDom(b2, Without(st.free, o)) && left in b2 && left !in Without(st.free, o)
  {
    WithoutElements(st.free, o);
  }

  /**
    The size-order split is Carve's once the remainder, rest bytes at left,
    already written into b2, is marked free and linked in.
  */
  lemma SizeSplitDone(p: Policy, st: State, o: int, req: nat, left: int, rest: int, b2: map<int, Blk>)
    requires InDom(st.blocks, st.free) && Distinct(st.free) && o in st.free && o + req + H !in st.blocks
    requires !HandOutWhole(p, req, st.blocks[o].size)
    requires left == o + req + H && rest == st.blocks[o].size - (req + H)
    requires b2 == st.blocks[left := Blk(rest, false)][o := Blk(req + H, true)]
    ensures Carve(p, st, o, req).blocks == b2[left := b2[left].(inUse := false)]
    ensures Carve(p, st, o, req).free == Insert(p, Carve(p, st, o, req).blocks, Without(st.free, o), left)
  {
    var cut := st.blocks[o := Blk(req + H, true)][left := Blk(rest, false)];
    assert b2[left := b2[left].(inUse := false)] == cut;
    CarveSplitForm(p, st, o, req, cut);
  }

  /**
    The address-order split as getMemory performs it, before the remainder is
    written: b1 has the block marked in use, b2 also cut to req + H bytes, and
    the remainder's offset o + req + H is new and not listed.
  */
  lemma AddressSplitReady(st: State, o: int, req: nat, b1: map<int, Blk>, b2: map<int, Blk>)
    requires InDom(st.blocks, st.free) && Distinct(st.free) && o in st.free && o + req + H !in st.blocks
    requires b1 == st.blocks[o := st.blocks[o].(inUse := true)] && o in b1
    requires b2 == b1[o := b1[o].(size := req + H)]
    ensures InDom(b2, Without(st.free, o)) && o + req + H !in b2 && o + req + H !in Without(st.free, o)
  {
    WithoutElements(st.free, o);
  }

  /**
    The address-order split is Carve's once the remainder, rest bytes at left,
    is written into b2 and linked in.
  */
  lemma AddressSplitDone(p: Policy, st: State, o: int, req: nat, left: int, rest: int, b1: map<int, Blk>, b2: map<int, Blk>)
    requires InDom(st.blocks, st.free) && Distinct(st.free) && o in st.free && o + req + H !in st.blocks
    requires !HandOutWhole(p, req, st.blocks[o].size)
    requires left == o + req + H && rest == st.blocks[o].size - (req + H)
    requires b1 == st.blocks[o := st.blocks[o].(inUse := true)] && o in b1
    requires b2 == b1[o := b1[o].(size := req + H)]
    ensures Carve(p, st, o, req).blocks == b2[left := Blk(rest, false)]
    ensures InDom(Carve(p, st, o, req).blocks, Without(st.free, o)) && left in Carve(p, st, o, req).blocks
    ensures Carve(p, st, o, req).free == Insert(p, Carve(p, st, o, req).blocks, Without(st.free, o), left)
  {
    var cut := st.blocks[o := Blk(req + H, true)][left := Blk(rest, false)];
    assert b2[left := Blk(rest, false)] == cut;
    CarveSplitForm(p, st, o, req, cut);
  }

  /** Carve when the block is split, in closed form. */
  lemma CarveSplitForm(p: Policy, st: State, o: int, req: nat, cut: map<int, Blk>)
    requires InDom(st.blocks, st.free) && Distinct(st.free) && o in st.free && o + req + H !in st.blocks
    requires !HandOutWhole(p, req, st.blocks[o].size)
    requires cut == st.blocks[o := Blk(req + H, true)][o + req + H := Blk(st.blocks[o].size - (req + H), false)]
    ensures Carve(p, st, o, req) == State(cut, Insert(p, cut, Without(st.free, o), o + req + H), st.brk)
  {
    var r := TakeSplit(p, st, o, req + H);
    assert Carve(p, st, o, req) == r;
    assert r.blocks == cut;
  }

  class Allocator {
    /** The order the free list is kept in: by size or by address. */
    const policy: Policy
    /** The header of every block, by offset in the arena. */
    var blocks: map<int, Blk>
    /** The prev and next offsets stored in the headers. */
    var links: map<int, Link>
    /** The head of the free list, or NIL when it is empty. */
    var freelist: int
    /** The end of the arena: the offset the provider hands out next. */
    var brk: int
    /** The error code of the last request. */
    var errno: Errno
    /** The free list in link order. */
    ghost var fl: seq<int>

    ghost predicate Linked()
      reads this`links, this`freelist, this`fl
    {
      LinkedList(links, freelist, fl)
    }

    ghost function Model(): State
      reads this`blocks, this`fl, this`brk
    {
      State(blocks, fl, brk)
    }

    ghost predicate Valid()
      reads this`blocks, this`links, this`freelist, this`fl, this`brk
    {
      Linked() && Inv(policy, Model())
    }

    /** An allocator that has not asked the provider for anything yet. */
    constructor (p: Policy)
      ensures Valid() && policy == p && Model() == State(map[], [], 0) && errno == NoError
    {
      policy := p;
      blocks := map[];
      links := map[];
      freelist := NIL;
      brk := 0;
      errno := NoError;
      fl := [];
    }

    /** The memory provider: the next chunk at the arena end, or NIL once the heap is used up. */
    method Sbrk() returns (chunk: int)
      requires 0 <= brk
      modifies this`brk
      ensures old(brk) + SBRK_SIZE <= HEAP_SIZE ==> chunk == old(brk) && brk == old(brk) + SBRK_SIZE
      ensures old(brk) + SBRK_SIZE > HEAP_SIZE ==> chunk == NIL && brk == old(brk)
    {
      if brk + SBRK_SIZE > HEAP_SIZE {
        return NIL;
      }
      chunk := brk;
      brk := brk + SBRK_SIZE;
    }

    /**
      Unlinks one listed node: its neighbours are joined and the head moves on
      when it was the head. The other nodes keep their order, and headers that
      are not listed keep their links.
    */
    method RemoveFromFreelist(index: int)
      requires Linked() && index in fl
      modifies this`links, this`freelist, this`fl
      ensures Linked() && fl == Without(old(fl), index)
      ensures forall o :: o in old(links) && o !in old(fl) ==> o in links && links[o] == old(links)[o]
    {
      ghost var i := IndexOf(fl, index);
      LinkedAt(links, freelist, fl, i);
      if i > 0 {
        LinkedAt(links, freelist, fl, i - 1);
      }
      var prev := links[index].prev;
      var next := links[index].next;
      if prev == NIL && next == NIL {
        freelist := NIL;
      } else if prev == NIL {
        links := links[next := links[next].(prev := NIL)];
        freelist := next;
      } else if next == NIL {
        links := links[prev := links[prev].(next := NIL)];
      } else {
        links := links[prev := links[prev].(next := next)];
        links := links[next := links[next].(prev := prev)];
      }
      UnlinkKeepsLinked(old(links), old(freelist), fl, i, links, freelist);
      fl := Without(fl, index);
    }

    /**
      Marks a block free and links it in before the first listed block with a
      larger key (size or address), or at the end: the list becomes the sorted
      insert of the block.
    */
    method AddToFreeList(addThis: int)
      requires Linked() && InDom(blocks, fl) && addThis in blocks && addThis !in fl && addThis != NIL
      requires addThis in links && links[addThis] == Link(NIL, NIL)
      modifies this`blocks, this`links, this`freelist, this`fl
      ensures blocks == old(blocks)[addThis := old(blocks)[addThis].(inUse := false)]
      ensures Linked() && fl == Insert(policy, blocks, old(fl), addThis)
    {
      blocks := blocks[addThis := blocks[addThis].(inUse := false)];
      if freelist == NIL {
        freelist := addThis;
        fl := [addThis];
        return;
      }
      ghost var links0, head0, s := links, freelist, fl;
      var index := freelist;
      var eol := false;
      ghost var k := 0;
      while !eol
        invariant links == links0 && freelist == head0 && fl == s && blocks == old(blocks)[addThis := old(blocks)[addThis].(inUse := false)]
        invariant 0 <= k < |s| && index == s[k]
        invariant forall j :: 0 <= j < k ==> Key(policy, blocks, s[j]) <= Key(policy, blocks, addThis)
        invariant eol ==> k == |s| - 1 && Key(policy, blocks, s[k]) <= Key(policy, blocks, addThis)
        decreases |s| - k - (if eol then 1 else 0)
      {
        LinkedAt(links, freelist, s, k);
        if Key(policy, blocks, index) > Key(policy, blocks, addThis) {
          InsertPosIs(policy, blocks, s, addThis, k);
          if links[index].prev == NIL {
            LinkInHead(links, freelist, s, index, addThis);
            links := links[addThis := links[addThis].(next := index)];
            links := links[index := links[index].(prev := addThis)];
            freelist := addThis;
          } else {
            var iprev := links[index].prev;
            LinkInMiddle(links, freelist, s, k, iprev, index, addThis);
            links := links[addThis := links[addThis].(prev := iprev)];
            links := links[iprev := links[iprev].(next := addThis)];
            links := links[addThis := links[addThis].(next := index)];
            links := links[index := links[index].(prev := addThis)];
          }
          fl := s[..k] + [addThis] + s[k..];
          return;
        }
        if links[index].next == NIL {
          eol := true;
        } else {
          index := links[index].next;
          k := k + 1;
        }
      }
      InsertPosIs(policy, blocks, s, addThis, |s|);
      LinkInEnd(links, freelist, s, index, addThis);
      links := links[addThis := links[addThis].(prev := index)];
      links := links[index := links[index].(next := addThis)];
      fl := s[..|s|] + [addThis] + s[|s|..];
    }

    /** The lowest listed offset, found by walking the whole list. */
    method LowestInFreelist() returns (lowest: int)
      requires Linked() && fl != []
      ensures lowest in fl && forall j :: 0 <= j < |fl| ==> lowest <= fl[j]
    {
      lowest := freelist;
      var temp := freelist;
      ghost var k := 0;
      while temp != NIL
        invariant 0 <= k <= |fl| && temp == (if k < |fl| then fl[k] else NIL)
        invariant lowest in fl
        invariant forall j :: 0 <= j < k ==> lowest <= fl[j]
        decreases |fl| - k
      {
        LinkedAt(links, freelist, fl, k);
        if temp < lowest {
          lowest := temp;
        }
        temp := links[temp].next;
        k := k + 1;
      }
    }

    /** The highest listed offset, found by walking the whole list. */
    method HighestInFreelist() returns (highest: int)
      requires Linked() && fl != []
      ensures highest in fl && forall j :: 0 <= j < |fl| ==> fl[j] <= highest
    {
      highest := freelist;
      var temp := freelist;
      ghost var k := 0;
      while temp != NIL
        invariant 0 <= k <= |fl| && temp == (if k < |fl| then fl[k] else NIL)
        invariant highest in fl
        invariant forall j :: 0 <= j < k ==> fl[j] <= highest
        decreases |fl| - k
      {
        LinkedAt(links, freelist, fl, k);
        if temp > highest {
          highest := temp;
        }
        temp := links[temp].next;
        k := k + 1;
      }
    }

    /**
      Walks the whole list for the highest listed offset below ptr, starting
      from lowest, the lowest listed offset; change says whether any listed
      offset lies below ptr.
    */
    method HighestBelow(ptr: int, lowest: int) returns (left: int, change: bool)
      requires Linked() && fl != [] && lowest in fl && forall j :: 0 <= j < |fl| ==> lowest <= fl[j]
      ensures left in fl
      ensures change ==> left < ptr && forall j :: 0 <= j < |fl| && fl[j] < ptr ==> fl[j] <= left
      ensures !change ==> left == lowest && forall j :: 0 <= j < |fl| ==> ptr <= fl[j]
    {
      var index := freelist;
      ghost var k := 0;
      left := lowest;
      change := false;
      var eol := false;
      while !eol
        invariant 0 <= k < |fl| && index == fl[k] && left in fl
        invariant eol ==> k == |fl| - 1
        invariant change ==> left < ptr
        invariant change ==> forall j :: 0 <= j < (if eol then k + 1 else k) && fl[j] < ptr ==> fl[j] <= left
        invariant !change ==> left == lowest && forall j :: 0 <= j < (if eol then k + 1 else k) ==> ptr <= fl[j]
        decreases |fl| - k - (if eol then 1 else 0)
      {
        LinkedAt(links, freelist, fl, k);
        if index < ptr && index >= left {
          left := index;
          change := true;
        }
        if links[index].next == NIL {
          eol := true;
        } else {
          index := links[index].next;
          k := k + 1;
        }
      }
    }

    /**
      The free block directly left of ptr: the listed block that ends at ptr, or
      NIL when there is none. It scans for the lowest listed block, then for the
      highest listed block below ptr, and checks that this one ends at ptr.
    */
    method FindLeftBlk(ptr: int) returns (r: int)
      requires Linked() && InDom(blocks, fl) && Apart(blocks, fl)
      ensures r == NIL <==> forall y :: y in fl ==> End(blocks, y) != ptr
      ensures r != NIL ==> r in fl && End(blocks, r) == ptr
    {
      if freelist == NIL {
        return NIL;
      }
      var lowestInFL := LowestInFreelist();
      assert forall y :: y in fl ==> lowestInFL <= y;
      if ptr < lowestInFL {
        return NIL;
      }
      var index := freelist;
      LinkedAt(links, freelist, fl, 0);
      if links[index].next == NIL {
        assert fl == [index];
        if ptr < index {
          return NIL;
        } else if index + blocks[index].size == ptr {
          return index;
        } else {
          return NIL;
        }
      }
      var left, change := HighestBelow(ptr, lowestInFL);
      if !change {
        return NIL;
      }
      if left + blocks[left].size == ptr {
        return left;
      }
      NoneEndsAt(blocks, fl, ptr, left);
      return NIL;
    }

    /**
      The free block directly right of ptr: the block that starts where ptr
      ends, when it is listed, and NIL otherwise.
    */
    method FindRightBlk(ptr: int) returns (r: int)
      requires Linked() && InDom(blocks, fl) && ptr in blocks && 0 < blocks[ptr].size
      ensures End(blocks, ptr) in fl ==> r == End(blocks, ptr)
      ensures End(blocks, ptr) !in fl ==> r == NIL
    {
      if freelist == NIL {
        return NIL;
      }
      var highestInFL := HighestInFreelist();
      assert forall y :: y in fl ==> y <= highestInFL;
      if ptr > highestInFL {
        return NIL;
      }
      var potentialRight := ptr + blocks[ptr].size;
      var index := freelist;
      ghost var k := 0;
      while index != NIL
        invariant 0 <= k <= |fl| && index == (if k < |fl| then fl[k] else NIL)
        invariant forall j :: 0 <= j < k ==> fl[j] != potentialRight
        decreases |fl| - k
      {
        LinkedAt(links, freelist, fl, k);
        if index == potentialRight {
          return potentialRight;
        }
        index := links[index].next;
        k := k + 1;
      }
      return NIL;
    }

    /**
      The left half of coalescing: when a free listed block ends where the block
      at head starts, that block grows over head and leaves the list, and it is
      returned; otherwise head is. The result is AbsorbLeft's.
    */
    method MergeLeft(head: int) returns (ret: int)
      requires Linked() && InDom(blocks, fl) && Tiled(blocks, brk)
      requires head in blocks && blocks[head].inUse
      requires forall i :: 0 <= i < |fl| ==> !blocks[fl[i]].inUse
      modifies this`blocks, this`links, this`freelist, this`fl
      ensures head !in old(fl)
      ensures Linked() && Model() == AbsorbLeft(old(Model()), head).0 && ret == AbsorbLeft(old(Model()), head).1
    {
      ghost var st0 := Model();
      ret := head;
      TiledApart(blocks, brk, fl);
      var left := FindLeftBlk(ret);
      if left != NIL && !blocks[left].inUse {
        AbsorbLeftFound(st0, head, left);
        var retSize := blocks[ret].size;
        ret := left;
        blocks := (blocks - {head})[ret := blocks[ret].(size := blocks[ret].size + retSize)];
        ghost var merged := blocks;
        assert merged == (st0.blocks - {head})[left := st0.blocks[left].(size := st0.blocks[left].size + st0.blocks[head].size)];
        RemoveFromFreelist(left);
        assert blocks == merged;
      } else {
        AbsorbLeftMissing(st0, head);
      }
    }

    /**
      The right half of coalescing: when the block right after c is listed and
      free, c grows over it and it leaves the list. The result is AbsorbRight's.
    */
    method MergeRight(c: int) returns ()
      requires Linked() && InDom(blocks, fl) && c in blocks && 0 < blocks[c].size && c !in fl
      requires forall y :: y in fl ==> !blocks[y].inUse
      modifies this`blocks, this`links, this`freelist, this`fl
      ensures Linked() && Model() == AbsorbRight(old(Model()), c)
    {
      ghost var st1 := Model();
      var right := FindRightBlk(c);
      if right != NIL && !blocks[right].inUse {
        AbsorbRightFound(st1, c);
        blocks := (blocks - {right})[c := blocks[c].(size := blocks[c].size + blocks[right].size)];
        ghost var merged := blocks;
        assert merged == (st1.blocks - {right})[c := st1.blocks[c].(size := st1.blocks[c].size + st1.blocks[right].size)];
        RemoveFromFreelist(right);
        assert blocks == merged;
      }
    }

    /**
      Merges the block in use at ptr - H with its free left and right
      neighbours, unlinking them, and returns the merged block detached: the
      left merge is AbsorbLeft's and the right merge AbsorbRight's.
    */
    method CoalesceLeftAndRight(ptr: int) returns (ret: int)
      requires Linked() && InDom(blocks, fl) && Tiled(blocks, brk)
      requires ptr - H in blocks && blocks[ptr - H].inUse
      requires forall i :: 0 <= i < |fl| ==> !blocks[fl[i]].inUse
      modifies this`blocks, this`links, this`freelist, this`fl
      ensures ptr - H !in old(fl)
      ensures var left := AbsorbLeft(old(Model()), ptr - H);
        Model() == AbsorbRight(left.0, left.1) && ret == left.1
      ensures Linked() && ret != NIL && ret in links && links[ret] == Link(NIL, NIL)
    {
      ghost var st0 := Model();
      var head := ptr - H;
      ret := MergeLeft(head);
      ListedFree(st0, head, Model(), ret);
      MergeRight(ret);
      ghost var links1 := links;
      links := links[ret := Link(NIL, NIL)];
      LinkedFrame(links1, freelist, fl, links);
    }

    /**
      Releases the block whose payload starts at ptr: nothing happens for NIL;
      otherwise the block is merged with its free neighbours, linked into the
      free list and the error code cleared. The new state is Release's.
    */
    method Free(ptr: int)
      requires Valid() && (ptr == NIL || (ptr - H in blocks && blocks[ptr - H].inUse))
      modifies this`blocks, this`links, this`freelist, this`fl, this`errno
      ensures Valid() && Model() == Release(policy, old(Model()), ptr)
      ensures errno == if ptr == NIL then old(errno) else NoError
    {
      if ptr == NIL {
        return;
      }
      ReleasePreservesInv(policy, Model(), ptr);
      ReleaseBlock(ptr);
      errno := NoError;
    }

    /** The merge and relink of a block in use: the new headers and list are Release's. */
    method ReleaseBlock(ptr: int)
      requires Valid() && ptr - H in blocks && blocks[ptr - H].inUse
      modifies this`blocks, this`links, this`freelist, this`fl
      ensures Linked() && Model() == Release(policy, old(Model()), ptr)
    {
      ghost var st0 := Model();
      var addThis := CoalesceLeftAndRight(ptr);
      CoalesceSteps(policy, st0, ptr);
      ghost var st1 := Model();
      assert Coalesce(policy, st0, ptr) == (st1, addThis);
      AddToFreeList(addThis);
      ghost var done := State(st1.blocks[addThis := st1.blocks[addThis].(inUse := false)], Insert(policy, blocks, st1.free, addThis), st1.brk);
      assert Release(policy, st0, ptr) == done;
      assert Model() == done;
    }

    /**
      The size-order scan of getMemory: walks the list from the head and stops
      at the first free block of at least need bytes. Returns it, or NIL when
      the walk reaches the end; that is FirstFit's answer.
    */
    method FirstFitScan(need: int) returns (found: int)
      requires Linked() && InDom(blocks, fl) && fl != []
      ensures FirstFit(blocks, fl, need).None? ==> found == NIL
      ensures FirstFit(blocks, fl, need).Some? ==> found == fl[FirstFit(blocks, fl, need).value]
    {
      var index := freelist;
      var eol := false;
      ghost var k := 0;
      while !eol
        invariant 0 <= k < |fl| && index == fl[k]
        invariant forall j :: 0 <= j < k ==> !Fits(blocks, fl[j], need)
        invariant eol ==> k == |fl| - 1 && !Fits(blocks, fl[k], need)
        decreases |fl| - k - (if eol then 1 else 0)
      {
        LinkedAt(links, freelist, fl, k);
        if !blocks[index].inUse && blocks[index].size >= need {
          FirstFitIs(blocks, fl, need, k);
          return index;
        }
        if links[index].next != NIL {
          index := links[index].next;
          k := k + 1;
        } else {
          eol := true;
        }
      }
      return NIL;
    }

    /**
      The address-order scan of getMemory: walks the whole list keeping the
      first block seen among the smallest free blocks of at least need bytes,
      with the size it has; bestSize starts at, and stays at, the sentinel when
      there is none. The block kept is BestFit's answer.
    */
    method BestFitScan(need: int) returns (bestFit: int, bestSize: int)
      requires Linked() && InDom(blocks, fl) && fl != []
      ensures BestFit(blocks, fl, need).None? <==> bestSize == BEST_SENTINEL
      ensures BestFit(blocks, fl, need).Some? ==>
        bestFit == fl[BestFit(blocks, fl, need).value] && bestSize == blocks[bestFit].size
    {
      var index := freelist;
      bestFit := NIL;
      bestSize := BEST_SENTINEL;
      var eol := false;
      ghost var k := 0;
      ghost var bestPos := 0;
      while !eol
        invariant 0 <= k < |fl| && index == fl[k]
        invariant eol ==> k == |fl| - 1
        invariant BestSoFar(blocks, fl, need, if eol then k + 1 else k, bestSize, bestPos)
        invariant bestSize != BEST_SENTINEL ==> 0 <= bestPos < |fl| && bestFit == fl[bestPos]
        decreases |fl| - k - (if eol then 1 else 0)
      {
        LinkedAt(links, freelist, fl, k);
        if !blocks[index].inUse && blocks[index].size >= need && blocks[index].size < bestSize {
          bestFit := index;
          bestSize := blocks[index].size;
          bestPos := k;
        }
        if links[index].next != NIL {
          index := links[index].next;
          k := k + 1;
        } else {
          eol := true;
        }
      }
      if bestSize != BEST_SENTINEL {
        assert IsBestFit(blocks, fl, need, bestPos);
        BestFitUnique(blocks, fl, need, bestPos, BestFit(blocks, fl, need).value);
      }
    }

    /**
      Hands out the listed free block index that the size-order scan picked for
      a request of size bytes: a block with fewer than H + 1 spare bytes beyond
      the request and a second header is unlinked and marked in use whole;
      otherwise the remainder after size + H bytes gets a free header, the block
      is unlinked and cut to size + H bytes in use, and the remainder is
      linked in. The new headers and list are Carve's.
    */
    method CarveBySize(index: int, size: nat)
      requires policy == BySize
      requires Linked() && InDom(blocks, fl) && index in fl && 0 <= index
      requires !blocks[index].inUse && blocks[index].size >= size + H
      requires HandOutWhole(policy, size, blocks[index].size) || index + size + H !in blocks
      modifies this`blocks, this`links, this`freelist, this`fl
      ensures Linked()
      ensures blocks == Carve(policy, old(Model()), index, size).blocks && fl == Carve(policy, old(Model()), index, size).free
    {
      ghost var st0 := Model();
      var blkSize := blocks[index].size;
      if size + 2 * H + 1 >= blkSize {
        CarveWholeForm(policy, st0, index, size);
        RemoveFromFreelist(index);
        blocks := blocks[index := blocks[index].(inUse := true)];
        return;
      }
      var leftover := index + size + H;
      WriteRemainder(leftover, blkSize - (size + H));
      RemoveFromFreelist(index);
      blocks := blocks[index := Blk(size + H, true)];
      ghost var b2 := blocks;
      SizeSplitReady(st0, index, size, leftover, blkSize - (size + H), b2);
      SizeSplitDone(policy, st0, index, size, leftover, blkSize - (size + H), b2);
      AddToFreeList(leftover);
    }

    /**
      Hands out the listed free block index that the address-order scan picked
      for a request of size bytes: it is unlinked and marked in use and, when it
      has at least H + 1 spare bytes beyond the request and a second header, cut
      to size + H bytes with the remainder given a free header and linked in.
      The new headers and list are Carve's.
    */
    method CarveByAddress(index: int, size: nat)
      requires policy == ByAddress
      requires Linked() && InDom(blocks, fl) && index in fl && 0 <= index
      requires !blocks[index].inUse && blocks[index].size >= size + H
      requires HandOutWhole(policy, size, blocks[index].size) || index + size + H !in blocks
      modifies this`blocks, this`links, this`freelist, this`fl
      ensures Linked()
      ensures blocks == Carve(policy, old(Model()), index, size).blocks && fl == Carve(policy, old(Model()), index, size).free
    {
      ghost var st0 := Model();
      var bestSize := blocks[index].size;
      RemoveFromFreelist(index);
      blocks := blocks[index := blocks[index].(inUse := true)];
      if size + 2 * H + 1 <= blocks[index].size {
        ghost var b1 := blocks;
        blocks := blocks[index := blocks[index].(size := size + H)];
        ghost var b2 := blocks;
        var leftover := index + size + H;
        AddressSplitReady(st0, index, size, b1, b2);
        AddressSplitDone(policy, st0, index, size, leftover, bestSize - (size + H), b1, b2);
        LinkRemainder(leftover, bestSize - (size + H), Carve(policy, st0, index, size).blocks, Carve(policy, st0, index, size).free);
      } else {
        CarveWholeForm(policy, st0, index, size);
      }
    }

    /**
      Writes a free header at leftover, a new offset, and links it into the free
      list; newBlocks and newList name the resulting headers and list.
    */
    method LinkRemainder(leftover: int, restSize: int, ghost newBlocks: map<int, Blk>, ghost newList: seq<int>)
      requires Linked() && InDom(blocks, fl) && leftover !in blocks && leftover != NIL
      requires newBlocks == blocks[leftover := Blk(restSize, false)]
      requires InDom(newBlocks, fl) && leftover in newBlocks && newList == Insert(policy, newBlocks, fl, leftover)
      modifies this`blocks, this`links, this`freelist, this`fl
      ensures blocks == newBlocks && fl == newList && Linked()
    {
      WriteRemainder(leftover, restSize);
      ghost var b := blocks;
      AddToFreeList(leftover);
      assert blocks == b;
    }

    /** Writes a free header at leftover, a new offset, with NIL links. */
    method WriteRemainder(leftover: int, restSize: int)
      requires Linked() && InDom(blocks, fl) && leftover !in blocks
      modifies this`blocks, this`links
      ensures blocks == old(blocks)[leftover := Blk(restSize, false)]
      ensures Linked() && InDom(blocks, fl) && leftover in blocks && leftover !in fl
      ensures leftover in links && links[leftover] == Link(NIL, NIL)
    {
      blocks := blocks[leftover := Blk(restSize, false)];
      ghost var links0 := links;
      links := links[leftover := Link(NIL, NIL)];
      LinkedFrame(links0, freelist, fl, links);
    }

    /**
      The growth step of getMemory: asks the provider for a chunk and, when it
      gets one, lets a free block ending at the chunk absorb it, or else links
      the chunk in as a free block. Returns the block linked in, or NIL with
      nothing changed when the provider is exhausted. The new state is Grow's.
    */
    method GrowHeap() returns (temp: int)
      requires Valid()
      modifies this`blocks, this`links, this`freelist, this`fl, this`brk
      ensures Linked()
      ensures Grow(policy, old(Model())).None? ==> temp == NIL && Model() == old(Model())
      ensures Grow(policy, old(Model())).Some? ==> temp != NIL && Model() == Grow(policy, old(Model())).value
    {
      ghost var st0 := Model();
      temp := Sbrk();
      if temp == NIL {
        return;
      }
      var chunk := temp;
      blocks := blocks[temp := Blk(SBRK_SIZE, false)];
      ghost var b1 := blocks;
      GrowReady(policy, st0, chunk, b1);
      var left := FindLeftBlk(temp);
      if left != NIL && !blocks[left].inUse {
        var tempSize := blocks[temp].size;
        temp := left;
        blocks := (blocks - {chunk})[temp := blocks[temp].(size := blocks[temp].size + tempSize)];
        ghost var b2 := blocks;
        MergeReady(policy, st0, left, b1, b2);
        RemoveFromFreelist(left);
        LinkDetached(temp);
        MergeDone(policy, st0, left, b1, b2, blocks);
      } else {
        FreshReady(policy, st0, b1);
        LinkDetached(temp);
        FreshDone(policy, st0, b1, blocks);
      }
    }

    /** Clears the links of the unlisted block b and links it in: the tail of the growth step. */
    method LinkDetached(b: int)
      requires Linked() && InDom(blocks, fl) && b in blocks && b !in fl && b != NIL
      modifies this`blocks, this`links, this`freelist, this`fl
      ensures blocks == old(blocks)[b := old(blocks)[b].(inUse := false)]
      ensures Linked() && fl == Insert(policy, blocks, old(fl), b)
    {
      ghost var links0 := links;
      links := links[b := Link(NIL, NIL)];
      LinkedFrame(links0, freelist, fl, links);
      AddToFreeList(b);
    }

    /**
      The search of the policy: the size order takes the first block that fits,
      the address order the best fit, and NIL comes back when none fits.
    */
    method FindFit(need: int) returns (index: int)
      requires Linked() && InDom(blocks, fl) && fl != []
      ensures Search(policy, blocks, fl, need).None? ==> index == NIL
      ensures Search(policy, blocks, fl, need).Some? ==> index == fl[Search(policy, blocks, fl, need).value]
    {
      if policy == BySize {
        index := FirstFitScan(need);
      } else {
        var bestFit, bestSize := BestFitScan(need);
        index := if bestSize != BEST_SENTINEL then bestFit else NIL;
      }
    }

    /**
      Hands out the block the search found: the size order or the address
      order carves it, and the allocator is left in Carve's state.
    */
    method TakeBlock(index: int, size: nat)
      requires Valid() && fl != [] && Search(policy, blocks, fl, size + H).Some?
      requires index == fl[Search(policy, blocks, fl, size + H).value]
      modifies this`blocks, this`links, this`freelist, this`fl
      ensures Valid() && Model() == Carve(policy, old(Model()), index, size)
    {
      ghost var st0 := Model();
      GetMemoryHit(policy, st0, size, index);
      if policy == BySize {
        CarveBySize(index, size);
      } else {
        CarveByAddress(index, size);
      }
    }

    /**
      Serves a request of size bytes from a non-empty free list: the policy's
      scan picks a block, which is handed out; on a miss the arena grows and
      the request is served again, or, when the provider is exhausted, the
      error code becomes OutOfMemory and NIL is returned. The outcome is
      GetMemorySpec's.
    */
    method GetMemory(size: nat) returns (ret: int)
      requires Valid() && fl != []
      modifies this
      ensures Valid()
      ensures Model() == GetMemorySpec(policy, old(Model()), size).st && ret == GetMemorySpec(policy, old(Model()), size).ptr
      ensures errno == if GetMemorySpec(policy, old(Model()), size).err == OutOfMemory then OutOfMemory else old(errno)
      decreases HEAP_SIZE - brk
    {
      ghost var st0 := Model();
      var index := FindFit(size + H);
      if index != NIL {
        GetMemoryHit(policy, st0, size, index);
        TakeBlock(index, size);
        return index + H;
      }
      var temp := GrowHeap();
      if temp == NIL {
        GetMemoryExhausted(policy, st0, size);
        errno := OutOfMemory;
        return NIL;
      }
      GetMemoryRetry(policy, st0, size);
      ret := GetMemory(size);
    }

    /**
      The first request of an allocator with an empty free list: one chunk is
      asked for and becomes the whole free list, or NIL comes back and nothing
      changes when the provider has no room.
    */
    method SeedFreelist() returns (temp: int)
      requires Valid() && fl == []
      modifies this`blocks, this`links, this`freelist, this`fl, this`brk
      ensures Valid()
      ensures temp == NIL <==> old(brk) + SBRK_SIZE > HEAP_SIZE
      ensures temp == NIL ==> Model() == old(Model())
      ensures temp != NIL ==> Model() == Seed(old(Model()))
    {
      ghost var st0 := Model();
      temp := Sbrk();
      if temp == NIL {
        return;
      }
      freelist := temp;
      blocks := blocks[temp := Blk(SBRK_SIZE, false)];
      links := links[temp := Link(NIL, NIL)];
      fl := [temp];
      SeedIs(st0, temp, blocks);
      SeedPreservesInv(policy, st0);
    }

    /**
      Allocation of size bytes: a request that does not fit in one chunk with
      its header sets SingleRequestTooLarge; an empty free list is seeded with
      one chunk from the provider (OutOfMemory when there is none); then the
      request is served and the error code cleared on success. The outcome,
      error code included, is Allocate's.
    */
    method Malloc(size: nat) returns (ret: int)
      requires Valid()
      modifies this
      ensures Valid()
      ensures Model() == Allocate(policy, old(Model()), size).st && ret == Allocate(policy, old(Model()), size).ptr
      ensures errno == Allocate(policy, old(Model()), size).err
    {
      if size + H > SBRK_SIZE {
        AllocateTooLarge(policy, Model(), size);
        errno := SingleRequestTooLarge;
        return NIL;
      }
      ret := Request(size);
    }

    /**
      A request that fits in one chunk with its header: an empty free list is
      seeded with one chunk from the provider (OutOfMemory when there is none),
      then the request is served.
    */
    method Request(size: nat) returns (ret: int)
      requires Valid() && size + H <= SBRK_SIZE
      modifies this
      ensures Valid()
      ensures Model() == Allocate(policy, old(Model()), size).st && ret == Allocate(policy, old(Model()), size).ptr
      ensures errno == Allocate(policy, old(Model()), size).err
    {
      ghost var st0 := Model();
      if freelist == NIL {
        var temp := SeedFreelist();
        if temp == NIL {
          AllocateExhausted(policy, st0, size);
          errno := OutOfMemory;
          return NIL;
        }
        AllocateSeeded(policy, st0, size);
        ret := Serve(size);
      } else {
        AllocateListed(policy, st0, size);
        ret := Serve(size);
      }
    }

    /**
      The tail of malloc: getMemory serves the request, and the error code is
      cleared when a block comes back.
    */
    method Serve(size: nat) returns (ret: int)
      requires Valid() && fl != [] && size + H <= SBRK_SIZE
      modifies this
      ensures Valid()
      ensures Model() == GetMemorySpec(policy, old(Model()), size).st && ret == GetMemorySpec(policy, old(Model()), size).ptr
      ensures errno == GetMemorySpec(policy, old(Model()), size).err
    {
      GetMemoryResult(policy, Model(), size);
      ret := GetMemory(size);
      if ret != NIL {
        errno := NoError;
      }
    }

    /** The size of the block at the head of the free list, or -1 when the list is empty. */
    function GetFreelistSize(): (r: int)
      reads this
      requires Valid()
      ensures r == -1 <==> fl == []
      ensures fl != [] ==> r == blocks[fl[0]].size
    {
      if freelist == NIL then -1 else blocks[freelist].size
    }
  }
}
