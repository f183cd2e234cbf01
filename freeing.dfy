/**
  Release of a block: it is merged with the free block that ends where it
  starts and with the free block that starts where it ends, and the merged block
  is linked into the free list. The lemmas state that the invariant survives,
  exactly the released bytes join the free bytes, every other block in use is
  left alone, the merge happens exactly where a free neighbour exists, and once
  nothing is in use the whole arena is one free block.
*/
module Freeing {
  import opened Blocks
  import opened FreeList
  import opened Arena
  import opened Allocation

  /**
    Between the steps of coalescing: the invariant holds except that block c,
    in use or not, is unlisted and may still have a free block right after it;
    no free block ends where c starts.
  */
  ghost predicate Pending(p: Policy, st: State, c: int) {
    && 0 <= st.brk <= HEAP_SIZE && Tiled(st.blocks, st.brk)
    && InDom(st.blocks, st.free) && Distinct(st.free) && c in st.blocks && c !in st.free
    && (forall i :: 0 <= i < |st.free| ==> !st.blocks[st.free[i]].inUse)
    && (forall o {:trigger IsFree(st.blocks, o)} :: IsFree(st.blocks, o) ==> o in st.free || o == c)
    && Sorted(p, st.blocks, st.free)
    && (forall o, q {:trigger End(st.blocks, o), q in st.blocks} ::
          o in st.blocks && q in st.blocks && o != c && q != c && !st.blocks[o].inUse && !st.blocks[q].inUse
          ==> End(st.blocks, o) != q)
    && (forall o {:trigger End(st.blocks, o)} ::
          o in st.blocks && o != c && !st.blocks[o].inUse ==> End(st.blocks, o) != c)
  }

  /** Blocks in use in b1, other than x, are still there, untouched, in b2. */
  ghost predicate KeepsInUseBut(b1: map<int, Blk>, b2: map<int, Blk>, x: int) {
    forall o :: o in b1 && b1[o].inUse && o != x ==> o in b2 && b2[o] == b1[o]
  }

  // ---------------------------------------------------------------- left neighbour

  /**
    Absorption into the left neighbour leaves a pending state around the
    surviving block c: the released block itself, or the listed block that ended
    where it started. The survivor ends where the released block ended.
  */
  lemma AbsorbLeftPending(p: Policy, st: State, head: int)
    requires Inv(p, st) && head in st.blocks && st.blocks[head].inUse
    ensures head !in st.free
    ensures var r := AbsorbLeft(st, head);
      && Pending(p, r.0, r.1) && r.0.brk == st.brk
      && End(r.0.blocks, r.1) == End(st.blocks, head)
  {
    match EndingAt(st.blocks, st.free, head)
    case None =>
      forall o | o in st.blocks && o != head && !st.blocks[o].inUse ensures End(st.blocks, o) != head {
        assert IsFree(st.blocks, o);
      }
    case Some(l) =>
      var b1 := (st.blocks - {head})[l := st.blocks[l].(size := st.blocks[l].size + st.blocks[head].size)];
      LeftMergePending(p, st, head, l, b1);
  }

  lemma LeftMergePending(p: Policy, st: State, head: int, l: int, b1: map<int, Blk>)
    requires Inv(p, st) && head in st.blocks && st.blocks[head].inUse
    requires l in st.free && l in st.blocks && End(st.blocks, l) == head
    requires b1 == (st.blocks - {head})[l := st.blocks[l].(size := st.blocks[l].size + st.blocks[head].size)]
    ensures Pending(p, State(b1, Without(st.free, l), st.brk), l)
  {
    var free := Without(st.free, l);
    assert !st.blocks[l].inUse;
    assert b1 == (st.blocks - {head})[l := Blk(st.blocks[l].size + st.blocks[head].size, false)];
    TiledMerge(st.blocks, st.brk, l, head, false);
    WithoutElements(st.free, l);
    WithoutKeepsSorted(p, st.blocks, st.free, l);
    assert head !in free;
    SameOnExcept(st.blocks, b1, free, l, head);
    SortedFrame(p, st.blocks, b1, free);
    forall i | 0 <= i < |free| ensures !b1[free[i]].inUse {
      assert free[i] in free && free[i] in st.free;
    }
    forall x | IsFree(b1, x) ensures x in free || x == l {
      if x != l {
        assert IsFree(st.blocks, x);
        var j :| 0 <= j < |st.free| && st.free[j] == x;
      }
    }
    forall x, y | x in b1 && y in b1 && x != l && y != l && !b1[x].inUse && !b1[y].inUse
      ensures End(b1, x) != y
    {
      assert End(b1, x) == End(st.blocks, x);
    }
    forall x | x in b1 && x != l && !b1[x].inUse ensures End(b1, x) != l {
      assert End(b1, x) == End(st.blocks, x);
    }
  }

  // ---------------------------------------------------------------- right neighbour

  /**
    Absorption of the right neighbour keeps the state pending around c, and
    afterwards no free block starts where c ends.
  */
  lemma AbsorbRightPending(p: Policy, st: State, c: int)
    requires Pending(p, st, c)
    ensures var r := AbsorbRight(st, c);
      Pending(p, r, c) && !IsFree(r.blocks, End(r.blocks, c)) && r.brk == st.brk
  {
    var right := End(st.blocks, c);
    if right in st.free {
      var b2 := (st.blocks - {right})[c := st.blocks[c].(size := st.blocks[c].size + st.blocks[right].size)];
      RightMergePending(p, st, c, right, b2);
    } else {
      assert right != c;
      assert IsFree(st.blocks, right) ==> right in st.free || right == c;
    }
  }

  lemma RightMergePending(p: Policy, st: State, c: int, right: int, b2: map<int, Blk>)
    requires Pending(p, st, c) && right == End(st.blocks, c) && right in st.free
    requires b2 == (st.blocks - {right})[c := st.blocks[c].(size := st.blocks[c].size + st.blocks[right].size)]
    ensures Pending(p, State(b2, Without(st.free, right), st.brk), c) && !IsFree(b2, End(b2, c))
  {
    RightMergeList(p, st, c, right, b2);
    RightMergeShape(st, c, right, b2);
  }

  lemma RightMergeList(p: Policy, st: State, c: int, right: int, b2: map<int, Blk>)
    requires InDom(st.blocks, st.free) && Distinct(st.free) && c in st.blocks && c !in st.free
    requires forall i :: 0 <= i < |st.free| ==> !st.blocks[st.free[i]].inUse
    requires forall o {:trigger IsFree(st.blocks, o)} :: IsFree(st.blocks, o) ==> o in st.free || o == c
    requires Sorted(p, st.blocks, st.free) && right in st.free
    requires b2 == (st.blocks - {right})[c := st.blocks[c].(size := st.blocks[c].size + st.blocks[right].size)]
    ensures var free := Without(st.free, right);
      && InDom(b2, free) && Distinct(free) && c in b2 && c !in free
      && (forall i :: 0 <= i < |free| ==> !b2[free[i]].inUse)
      && (forall o {:trigger IsFree(b2, o)} :: IsFree(b2, o) ==> o in free || o == c)
      && Sorted(p, b2, free)
  {
    var free := Without(st.free, right);
    WithoutElements(st.free, right);
    WithoutKeepsSorted(p, st.blocks, st.free, right);
    SameOnExcept(st.blocks, b2, free, right, c);
    SortedFrame(p, st.blocks, b2, free);
    forall i | 0 <= i < |free| ensures !b2[free[i]].inUse {
      assert free[i] in free && free[i] in st.free;
    }
    forall x | IsFree(b2, x) ensures x in free || x == c {
      if x != c {
        assert IsFree(st.blocks, x);
        var j :| 0 <= j < |st.free| && st.free[j] == x;
      }
    }
  }

  lemma RightMergeShape(st: State, c: int, right: int, b2: map<int, Blk>)
    requires Tiled(st.blocks, st.brk) && c in st.blocks && right == End(st.blocks, c) && right in st.blocks
    requires right != c && !st.blocks[right].inUse
    requires forall o, q {:trigger End(st.blocks, o), q in st.blocks} ::
          o in st.blocks && q in st.blocks && o != c && q != c && !st.blocks[o].inUse && !st.blocks[q].inUse
          ==> End(st.blocks, o) != q
    requires forall o {:trigger End(st.blocks, o)} ::
          o in st.blocks && o != c && !st.blocks[o].inUse ==> End(st.blocks, o) != c
    requires b2 == (st.blocks - {right})[c := st.blocks[c].(size := st.blocks[c].size + st.blocks[right].size)]
    ensures Tiled(b2, st.brk) && !IsFree(b2, End(b2, c))
    ensures forall o, q {:trigger End(b2, o), q in b2} ::
          o in b2 && q in b2 && o != c && q != c && !b2[o].inUse && !b2[q].inUse ==> End(b2, o) != q
    ensures forall o {:trigger End(b2, o)} :: o in b2 && o != c && !b2[o].inUse ==> End(b2, o) != c
  {
    var u := st.blocks[c].inUse;
    assert b2 == (st.blocks - {right})[c := Blk(st.blocks[c].size + st.blocks[right].size, u)];
    TiledMerge(st.blocks, st.brk, c, right, u);
    forall x, y | x in b2 && y in b2 && x != c && y != c && !b2[x].inUse && !b2[y].inUse
      ensures End(b2, x) != y
    {
      assert End(b2, x) == End(st.blocks, x);
    }
    forall x | x in b2 && x != c && !b2[x].inUse ensures End(b2, x) != c {
      assert End(b2, x) == End(st.blocks, x);
    }
    var e := End(st.blocks, right);
    assert End(b2, c) == e;
    assert IsFree(b2, e) ==> e != c && e != right && IsFree(st.blocks, e);
  }

  // ---------------------------------------------------------------- linking

  /** Marking the merged block free and linking it in restores the invariant. */
  lemma LinkPending(p: Policy, st: State, c: int, ns: State)
    requires Pending(p, st, c) && !IsFree(st.blocks, End(st.blocks, c))
    requires ns.blocks == st.blocks[c := st.blocks[c].(inUse := false)] && ns.brk == st.brk
    requires InDom(ns.blocks, st.free) && ns.free == Insert(p, ns.blocks, st.free, c)
    ensures Inv(p, ns)
  {
    var b3 := ns.blocks;
    TiledFlag(st.blocks, st.brk, c, false);
    SameOnExcept(st.blocks, b3, st.free, c, c);
    SortedFrame(p, st.blocks, b3, st.free);
    forall i | 0 <= i < |st.free| ensures !b3[st.free[i]].inUse {
      assert st.free[i] in st.free;
    }
    forall x | IsFree(b3, x) ensures x in st.free || x == c {
      if x != c {
        assert IsFree(st.blocks, x);
      }
    }
    assert Coalesced(b3) by {
      forall x, y | x in b3 && y in b3 && !b3[x].inUse && !b3[y].inUse
        ensures End(b3, x) != y
      {
        assert End(b3, x) == End(st.blocks, x);
        if x == c {
          assert y != c ==> IsFree(st.blocks, y);
        } else {
          assert IsFree(st.blocks, x);
        }
      }
    }
    LinkRestoresInv(p, ns, st.free, c);
  }

  /** Releasing a block in use keeps the invariant. */
  lemma ReleasePreservesInv(p: Policy, st: State, ptr: int)
    requires Inv(p, st) && (ptr == NIL || (ptr - H in st.blocks && st.blocks[ptr - H].inUse))
    ensures Inv(p, Release(p, st, ptr))
  {
    if ptr != NIL {
      var head := ptr - H;
      AbsorbLeftPending(p, st, head);
      var st1 := AbsorbLeft(st, head).0;
      var c := AbsorbLeft(st, head).1;
      AbsorbRightPending(p, st1, c);
      var st2 := AbsorbRight(st1, c);
      assert Coalesce(p, st, ptr) == (st2, c);
      LinkPending(p, st2, c, Release(p, st, ptr));
    }
  }

  // ---------------------------------------------------------------- free bytes

  lemma AbsorbLeftBytes(st: State, head: int)
    requires InDom(st.blocks, st.free) && Distinct(st.free) && head in st.blocks && head !in st.free
    ensures var r := AbsorbLeft(st, head);
      FreeBytes(r.0.blocks, r.0.free) + r.0.blocks[r.1].size == FreeBytes(st.blocks, st.free) + st.blocks[head].size
  {
    match EndingAt(st.blocks, st.free, head)
    case None =>
    case Some(l) =>
      var b1 := (st.blocks - {head})[l := st.blocks[l].(size := st.blocks[l].size + st.blocks[head].size)];
      UnlinkFreeBytes(st.blocks, st.free, l, b1, head);
  }

  lemma AbsorbRightBytes(st: State, c: int)
    requires InDom(st.blocks, st.free) && Distinct(st.free) && c in st.blocks && c !in st.free
    ensures var r := AbsorbRight(st, c);
      FreeBytes(r.blocks, r.free) + r.blocks[c].size == FreeBytes(st.blocks, st.free) + st.blocks[c].size
  {
    var right := End(st.blocks, c);
    if right in st.free {
      var b2 := (st.blocks - {right})[c := st.blocks[c].(size := st.blocks[c].size + st.blocks[right].size)];
      UnlinkFreeBytes(st.blocks, st.free, right, b2, c);
    }
  }

  lemma LinkBytes(p: Policy, st: State, c: int, ns: State)
    requires InDom(st.blocks, st.free) && c in st.blocks && c !in st.free
    requires ns.blocks == st.blocks[c := st.blocks[c].(inUse := false)]
    requires InDom(ns.blocks, st.free) && ns.free == Insert(p, ns.blocks, st.free, c)
    ensures InDom(ns.blocks, ns.free)
    ensures FreeBytes(ns.blocks, ns.free) == FreeBytes(st.blocks, st.free) + st.blocks[c].size
  {
    SameOnExcept(st.blocks, ns.blocks, st.free, c, c);
    FreeBytesFrame(st.blocks, ns.blocks, st.free);
    FreeBytesInsert(p, ns.blocks, st.free, c);
  }

  /** Releasing a block adds exactly its size to the free bytes. */
  lemma ReleaseFreeBytes(p: Policy, st: State, ptr: int)
    requires Inv(p, st) && ptr != NIL && ptr - H in st.blocks && st.blocks[ptr - H].inUse
    ensures var ns := Release(p, st, ptr);
      FreeBytes(ns.blocks, ns.free) == FreeBytes(st.blocks, st.free) + st.blocks[ptr - H].size
  {
    var head := ptr - H;
    AbsorbLeftPending(p, st, head);
    AbsorbLeftBytes(st, head);
    var st1 := AbsorbLeft(st, head).0;
    var c := AbsorbLeft(st, head).1;
    AbsorbRightBytes(st1, c);
    var st2 := AbsorbRight(st1, c);
    assert Coalesce(p, st, ptr) == (st2, c);
    LinkBytes(p, st2, c, Release(p, st, ptr));
  }

  // ---------------------------------------------------------------- frame and merge

  lemma AbsorbLeftKeeps(st: State, head: int)
    requires InDom(st.blocks, st.free) && Distinct(st.free) && head in st.blocks && head !in st.free
    requires forall i :: 0 <= i < |st.free| ==> !st.blocks[st.free[i]].inUse
    ensures var r := AbsorbLeft(st, head);
      KeepsInUseBut(st.blocks, r.0.blocks, head) && (r.1 == head || IsFree(st.blocks, r.1))
  {
    match EndingAt(st.blocks, st.free, head)
    case None =>
    case Some(l) =>
      var j :| 0 <= j < |st.free| && st.free[j] == l;
  }

  lemma AbsorbRightKeeps(st: State, c: int)
    requires InDom(st.blocks, st.free) && Distinct(st.free) && c in st.blocks && c !in st.free
    requires forall i :: 0 <= i < |st.free| ==> !st.blocks[st.free[i]].inUse
    ensures KeepsInUseBut(st.blocks, AbsorbRight(st, c).blocks, c)
  {
    var right := End(st.blocks, c);
    if right in st.free {
      var j :| 0 <= j < |st.free| && st.free[j] == right;
    }
  }

  /**
    Releasing a block touches no other block in use, keeps the arena end, and
    leaves the merged block free and listed.
  */
  lemma ReleaseKeepsOthers(p: Policy, st: State, ptr: int)
    requires Inv(p, st) && ptr != NIL && ptr - H in st.blocks && st.blocks[ptr - H].inUse
    ensures var ns, c := Release(p, st, ptr), Coalesce(p, st, ptr).1;
      && KeepsInUseBut(st.blocks, ns.blocks, ptr - H) && ns.brk == st.brk
      && c in ns.free && c in ns.blocks && !ns.blocks[c].inUse
  {
    var head := ptr - H;
    AbsorbLeftPending(p, st, head);
    AbsorbLeftKeeps(st, head);
    var st1 := AbsorbLeft(st, head).0;
    var c := AbsorbLeft(st, head).1;
    AbsorbRightPending(p, st1, c);
    AbsorbRightKeeps(st1, c);
    var st2 := AbsorbRight(st1, c);
    assert Coalesce(p, st, ptr) == (st2, c);
    var ns := Release(p, st, ptr);
    InsertElements(p, ns.blocks, st2.free, c);
    KeepsThree(st.blocks, st1.blocks, st2.blocks, ns.blocks, head, c);
  }

  lemma KeepsThree(b0: map<int, Blk>, b1: map<int, Blk>, b2: map<int, Blk>, b3: map<int, Blk>, head: int, c: int)
    requires KeepsInUseBut(b0, b1, head) && KeepsInUseBut(b1, b2, c) && c in b2
    requires c == head || IsFree(b0, c)
    requires b3 == b2[c := b2[c].(inUse := false)]
    ensures KeepsInUseBut(b0, b3, head)
  {
  }

  /**
    Where the merged block starts: at the released block unless a listed block
    ends right there, in which case at that block.
  */
  lemma ReleaseMergeStart(p: Policy, st: State, ptr: int)
    requires Inv(p, st) && ptr != NIL && ptr - H in st.blocks && st.blocks[ptr - H].inUse
    ensures var head, c := ptr - H, Coalesce(p, st, ptr).1;
      && c in Release(p, st, ptr).blocks
      && (c == head ==> forall x :: x in st.free ==> End(st.blocks, x) != head)
      && (c != head ==> c in st.free && c in st.blocks && End(st.blocks, c) == head)
  {
    AbsorbLeftPending(p, st, ptr - H);
  }

  /**
    Where the merged block ends: where the released block ended, or, when the
    block starting there was listed, where that block ended.
  */
  lemma ReleaseMergeEnd(p: Policy, st: State, ptr: int)
    requires Inv(p, st) && ptr != NIL && ptr - H in st.blocks && st.blocks[ptr - H].inUse
    ensures var c, ns := Coalesce(p, st, ptr).1, Release(p, st, ptr);
      var e := End(st.blocks, ptr - H);
      && c in ns.blocks
      && (e in st.free ==> e in st.blocks && End(ns.blocks, c) == End(st.blocks, e))
      && (e !in st.free ==> End(ns.blocks, c) == e)
  {
    var head := ptr - H;
    AbsorbLeftPending(p, st, head);
    var st1 := AbsorbLeft(st, head).0;
    var c := AbsorbLeft(st, head).1;
    var e := End(st.blocks, head);
    assert (e in st1.free <==> e in st.free) && (e in st1.free ==> st1.blocks[e] == st.blocks[e]) by {
      match EndingAt(st.blocks, st.free, head)
      case None =>
      case Some(l) =>
        WithoutElements(st.free, l);
        assert e != l && e != head;
    }
    AbsorbRightEnd(st1, c);
    ReleaseKeepsSize(p, st, ptr);
  }

  /** Block c, after absorbing the listed block that starts where it ends, ends where that block ended. */
  lemma AbsorbRightEnd(st: State, c: int)
    requires InDom(st.blocks, st.free) && Distinct(st.free) && c in st.blocks && c !in st.free
    ensures var e := End(st.blocks, c);
      End(AbsorbRight(st, c).blocks, c) == if e in st.free then End(st.blocks, e) else e
  {
  }

  /** Release only marks the merged block free: its size is the one coalescing gave it. */
  lemma ReleaseKeepsSize(p: Policy, st: State, ptr: int)
    requires Inv(p, st) && ptr != NIL && ptr - H in st.blocks && st.blocks[ptr - H].inUse
    ensures var (st2, c) := Coalesce(p, st, ptr);
      c in Release(p, st, ptr).blocks && End(Release(p, st, ptr).blocks, c) == End(st2.blocks, c)
  {
  }

  /**
    When no block is in use, the arena is a single free block covering it,
    and it is the only listed block.
  */
  lemma AllFreeIsOneBlock(p: Policy, st: State)
    requires Inv(p, st) && 0 < st.brk
    requires forall o :: o in st.blocks ==> !st.blocks[o].inUse
    ensures st.free == [0] && 0 in st.blocks && st.blocks[0].size == st.brk
  {
    assert 0 in st.blocks;
    var e := End(st.blocks, 0);
    assert e == st.brk;
    forall x | x in st.blocks ensures x == 0 {
      if x != 0 {
        NoStartInside(st.blocks, st.brk, 0, x);
      }
    }
    assert IsFree(st.blocks, 0);
    assert forall i :: 0 <= i < |st.free| ==> st.free[i] == 0;
    FirstTwoDiffer(st.free);
  }

  lemma FirstTwoDiffer(s: seq<int>)
    requires Distinct(s)
    ensures |s| >= 2 ==> s[0] != s[1]
  {
  }

  // ---------------------------------------------------------------- round trip

  /**
    Allocating from a listed block and releasing the allocation straight away
    gives the arena back: the same headers, the same listed blocks and the same
    end. A split remainder is merged back into the block, and a block handed
    out whole has no free neighbour to merge with. The list is compared as a
    multiset, since in size order the block may come back behind blocks of
    equal size.
  */
  lemma HitThenRelease(p: Policy, st: State, o: int, req: nat)
    requires Inv(p, st) && o in st.free && st.blocks[o].size >= req + H
    ensures var ns := Carve(p, st, o, req);
      Inv(p, ns) && o in ns.blocks && ns.blocks[o].inUse
    ensures var rs := Release(p, Carve(p, st, o, req), o + H);
      rs.blocks == st.blocks && multiset(rs.free) == multiset(st.free) && rs.brk == st.brk
  {
    CarvePreservesInv(p, st, o, req);
    CarveMergesBack(p, st, o, req, Carve(p, st, o, req), HandOutWhole(p, req, st.blocks[o].size));
    ReleaseRestores(p, st, Carve(p, st, o, req), o);
  }

  /**
    The block o carved for req bytes, handed out whole or cut (as whole says),
    has no free neighbour on its left, and merging it with its right
    neighbour, if free, restores the headers and, with o, the listed blocks
    of st.
  */
  lemma CarveMergesBack(p: Policy, st: State, o: int, req: nat, ns: State, whole: bool)
    requires Tiled(st.blocks, st.brk) && FreeListOk(st.blocks, st.free) && Coalesced(st.blocks)
    requires o in st.free && st.blocks[o].size >= req + H && ns == Carve(p, st, o, req)
    requires whole == HandOutWhole(p, req, st.blocks[o].size)
    ensures InDom(ns.blocks, ns.free) && Distinct(ns.free) && o in ns.blocks && o !in ns.free
    ensures AbsorbLeft(ns, o) == (ns, o)
    ensures var s1 := AbsorbRight(ns, o);
      && s1.blocks[o := s1.blocks[o].(inUse := false)] == st.blocks
      && multiset(s1.free) + multiset{o} == multiset(st.free) && s1.brk == st.brk
  {
    if whole {
      assert ns == TakeWhole(st, o);
      WholeMergesBack(st, o);
    } else {
      assert ns == TakeSplit(p, st, o, req + H);
      SplitMergesBack(p, st, o, req + H);
    }
  }

  /** The case of CarveMergesBack where the block is handed out whole. */
  lemma WholeMergesBack(st: State, o: int)
    requires FreeListOk(st.blocks, st.free) && Coalesced(st.blocks) && o in st.free
    ensures var ns := TakeWhole(st, o);
      && Distinct(ns.free) && o !in ns.free && AbsorbLeft(ns, o) == (ns, o)
    ensures var s1 := AbsorbRight(TakeWhole(st, o), o);
      && s1.blocks[o := s1.blocks[o].(inUse := false)] == st.blocks
      && multiset(s1.free) + multiset{o} == multiset(st.free) && s1.brk == st.brk
  {
    FreeBlockApart(st, o);
    WithoutElements(st.free, o);
    WithoutInDom(st.blocks, st.free, o);
    WithoutPermutes(st.free, o);
    WholeApart(st, o);
  }

  /** The case of CarveMergesBack where the block is cut to n bytes. */
  lemma SplitMergesBack(p: Policy, st: State, o: int, n: int)
    requires Tiled(st.blocks, st.brk) && FreeListOk(st.blocks, st.free) && Coalesced(st.blocks)
    requires o in st.free && 0 < n < st.blocks[o].size
    ensures var ns := TakeSplit(p, st, o, n);
      && Distinct(ns.free) && o !in ns.free && AbsorbLeft(ns, o) == (ns, o)
    ensures var s1 := AbsorbRight(TakeSplit(p, st, o, n), o);
      && s1.blocks[o := s1.blocks[o].(inUse := false)] == st.blocks
      && multiset(s1.free) + multiset{o} == multiset(st.free) && s1.brk == st.brk
  {
    FreeBlockApart(st, o);
    WithoutElements(st.free, o);
    WithoutInDom(st.blocks, st.free, o);
    WithoutPermutes(st.free, o);
    NoStartInside(st.blocks, st.brk, o, o + n);
    SplitApartMergesBack(p, st, o, n, TakeSplit(p, st, o, n));
  }

  /** SplitMergesBack from the facts about o and the list without it. */
  lemma SplitApartMergesBack(p: Policy, st: State, o: int, n: int, ns: State)
    requires InDom(st.blocks, st.free) && o in st.free && o in st.blocks && !st.blocks[o].inUse
    requires 0 < n < st.blocks[o].size && o + n !in st.blocks
    requires forall y :: y in st.free ==> y in st.blocks && End(st.blocks, y) != o
    requires InDom(st.blocks, Without(st.free, o)) && Distinct(Without(st.free, o))
    requires forall y :: y in Without(st.free, o) ==> y in st.free && y != o
    requires multiset(Without(st.free, o)) + multiset{o} == multiset(st.free)
    requires ns == TakeSplit(p, st, o, n)
    ensures Distinct(ns.free) && o !in ns.free && AbsorbLeft(ns, o) == (ns, o)
    ensures var s1 := AbsorbRight(ns, o);
      && s1.blocks[o := s1.blocks[o].(inUse := false)] == st.blocks
      && multiset(s1.free) + multiset{o} == multiset(st.free) && s1.brk == st.brk
  {
    SplitLeftApart(p, st, o, n);
    assert o + n !in Without(st.free, o);
    SplitRightMerge(p, st, ns, o, n);
  }

  /**
    Releasing the in-use block o of ns gives st back when nothing on the left
    of o merges, and merging on its right restores the headers and, with o,
    the listed blocks of st.
  */
  lemma ReleaseRestores(p: Policy, st: State, ns: State, o: int)
    requires Inv(p, ns) && o in ns.blocks && ns.blocks[o].inUse && o !in ns.free && AbsorbLeft(ns, o) == (ns, o)
    requires var s1 := AbsorbRight(ns, o);
      && s1.blocks[o := s1.blocks[o].(inUse := false)] == st.blocks
      && multiset(s1.free) + multiset{o} == multiset(st.free) && s1.brk == st.brk
    ensures var rs := Release(p, ns, o + H);
      rs.blocks == st.blocks && multiset(rs.free) == multiset(st.free) && rs.brk == st.brk
  {
    var s1 := AbsorbRight(ns, o);
    assert Coalesce(p, ns, o + H) == (s1, o);
    InsertElements(p, st.blocks, s1.free, o);
    InsertPermutes(p, st.blocks, s1.free, o);
  }

  /**
    Release of the in-use block o when nothing on its left merges, in closed
    form: next is the right merge with o marked free and linked in, and it
    keeps the invariant.
  */
  lemma ReleaseIs(p: Policy, st: State, o: int, next: State)
    requires Inv(p, st) && o in st.blocks && st.blocks[o].inUse && o !in st.free && AbsorbLeft(st, o) == (st, o)
    requires next.blocks == AbsorbRight(st, o).blocks[o := AbsorbRight(st, o).blocks[o].(inUse := false)]
    requires next.free == Insert(p, next.blocks, AbsorbRight(st, o).free, o) && next.brk == st.brk
    ensures Release(p, st, o + H) == next && Inv(p, next)
  {
    assert Coalesce(p, st, o + H) == (AbsorbRight(st, o), o);
    ReleasePreservesInv(p, st, o + H);
  }

  /** The free block o in a coalesced arena: no listed block ends at o, and none starts where o ends. */
  lemma FreeBlockApart(st: State, o: int)
    requires FreeListOk(st.blocks, st.free) && Coalesced(st.blocks) && o in st.free
    ensures o in st.blocks && !st.blocks[o].inUse
    ensures forall y :: y in st.free ==> y in st.blocks && End(st.blocks, y) != o && y != End(st.blocks, o)
  {
    var i :| 0 <= i < |st.free| && st.free[i] == o;
    forall y | y in st.free
      ensures y in st.blocks && End(st.blocks, y) != o && y != End(st.blocks, o)
    {
      var j :| 0 <= j < |st.free| && st.free[j] == y;
    }
  }

  /** A block handed out whole merges with nothing once released, and is marked free again. */
  lemma WholeApart(st: State, o: int)
    requires InDom(st.blocks, st.free) && o in st.free && o in st.blocks && !st.blocks[o].inUse
    requires forall y :: y in st.free ==> y in st.blocks && End(st.blocks, y) != o && y != End(st.blocks, o)
    requires Distinct(Without(st.free, o)) && forall y :: y in Without(st.free, o) ==> y in st.free && y != o
    ensures var ns := TakeWhole(st, o);
      && o !in ns.free && AbsorbLeft(ns, o) == (ns, o) && AbsorbRight(ns, o) == ns
      && ns.blocks[o := ns.blocks[o].(inUse := false)] == st.blocks
  {
    var ns := TakeWhole(st, o);
    forall y | y in ns.free
      ensures End(ns.blocks, y) != o && y != End(ns.blocks, o)
    {
    }
  }

  /** A block cut to n bytes merges with nothing on its left once released. */
  lemma SplitLeftApart(p: Policy, st: State, o: int, n: int)
    requires InDom(st.blocks, st.free) && o in st.free && o in st.blocks && 0 < n < st.blocks[o].size && o + n !in st.blocks
    requires forall y :: y in st.free ==> y in st.blocks && End(st.blocks, y) != o
    requires InDom(st.blocks, Without(st.free, o)) && Distinct(Without(st.free, o))
    requires forall y :: y in Without(st.free, o) ==> y in st.free && y != o
    ensures var ns := TakeSplit(p, st, o, n);
      && Distinct(ns.free) && o !in ns.free && AbsorbLeft(ns, o) == (ns, o)
  {
    var w := Without(st.free, o);
    var ns := TakeSplit(p, st, o, n);
    InsertElements(p, ns.blocks, w, o + n);
    InsertKeepsDistinct(p, ns.blocks, w, o + n);
    forall y | y in ns.free
      ensures End(ns.blocks, y) != o
    {
      if y != o + n {
        assert y in st.free && y != o;
      }
    }
  }

  /**
    The remainder of a block cut to n bytes merges back on its right once the
    block is released: the headers are the old ones, and the list is the old
    one without o.
  */
  lemma SplitRightMerge(p: Policy, st: State, ns: State, o: int, n: int)
    requires o in st.free && o in st.blocks && !st.blocks[o].inUse && 0 < n < st.blocks[o].size && o + n !in st.blocks
    requires multiset(Without(st.free, o)) + multiset{o} == multiset(st.free)
    requires ns.blocks == st.blocks[o := Blk(n, true)][o + n := Blk(st.blocks[o].size - n, false)] && ns.brk == st.brk
    requires InDom(ns.blocks, Without(st.free, o)) && Distinct(Without(st.free, o)) && o + n !in Without(st.free, o)
    requires ns.free == Insert(p, ns.blocks, Without(st.free, o), o + n)
    requires InDom(ns.blocks, ns.free) && Distinct(ns.free) && o !in ns.free
    ensures var s1 := AbsorbRight(ns, o);
      && s1.blocks[o := s1.blocks[o].(inUse := false)] == st.blocks
      && multiset(s1.free) + multiset{o} == multiset(st.free) && s1.brk == st.brk
  {
    var size := st.blocks[o].size;
    assert End(ns.blocks, o) == o + n;
    var s1 := AbsorbRight(ns, o);
    assert ns.blocks - {o + n} == st.blocks[o := Blk(n, true)];
    assert s1.blocks == st.blocks[o := Blk(size, true)];
    RemainderListed(p, ns.blocks, Without(st.free, o), o + n, ns.free);
  }

  /** Unlinking r from a list holding the nodes of w and r leaves the nodes of w. */
  lemma Unlisted(f: seq<int>, w: seq<int>, r: int)
    requires r in f && multiset(f) == multiset(w) + multiset{r}
    ensures multiset(Without(f, r)) == multiset(w)
  {
    WithoutPermutes(f, r);
    assert multiset(Without(f, r)) == multiset(Without(f, r)) + multiset{r} - multiset{r};
  }

  /** The remainder r linked into w, giving f, and unlinked again leaves the nodes of w. */
  lemma RemainderListed(p: Policy, blocks: map<int, Blk>, w: seq<int>, r: int, f: seq<int>)
    requires InDom(blocks, w) && Distinct(w) && r in blocks && r !in w && f == Insert(p, blocks, w, r)
    ensures r in f && Distinct(f) && multiset(f) == multiset(w) + multiset{r}
    ensures multiset(Without(f, r)) == multiset(w) && forall y :: y in Without(f, r) ==> y in w
  {
    InsertElements(p, blocks, w, r);
    InsertKeepsDistinct(p, blocks, w, r);
    InsertPermutes(p, blocks, w, r);
    WithoutElements(f, r);
    Unlisted(f, w, r);
  }
}
