/**
  addToFreeList in address order, as my_malloc.c writes it: when the new node
  goes between two listed nodes, the pointers around it are set correctly but
  the list head is then moved to the new node as well. A walk of the list from
  the head then no longer meets the nodes below the new one. The model's own
  insert (Malloc.Allocator.AddToFreeList, against FreeList.Insert) leaves the
  head where it is; the lemmas here show what the written update does instead.
*/
module Findings {
  import opened Blocks
  import opened FreeList
  import opened Links
  import opened Arena
  import opened Service
  import opened Freeing

  /**
    The link updates and the new head of an address-order add of the detached
    node b at insert position k into the linked list s, branch for branch as
    written: the empty list, before the head, between two nodes (also making b
    the head), or after the last node.
  */
  function AsWrittenAddressLink(links: map<int, Link>, head: int, s: seq<int>, b: int, k: nat): (r: (map<int, Link>, int))
    requires LinkedList(links, head, s) && k <= |s| && b in links
    ensures b in r.0
    ensures s == [] || k < |s| ==> r.1 == b
    ensures s != [] && k == |s| ==> r.1 == head
  {
    if s == [] then (links, b)
    else if k == 0 then
      var l1 := links[b := links[b].(next := s[0])];
      (l1[s[0] := l1[s[0]].(prev := b)], b)
    else if k < |s| then
      var l1 := links[b := links[b].(prev := s[k - 1])];
      var l2 := l1[s[k - 1] := l1[s[k - 1]].(next := b)];
      var l3 := l2[b := l2[b].(next := s[k])];
      var l4 := l3[s[k] := l3[s[k]].(prev := b)];
      (l4, b)
    else
      var l1 := links[b := links[b].(prev := s[|s| - 1])];
      (l1[s[|s| - 1] := l1[s[|s| - 1]].(next := b)], head)
  }

  /**
    For an insert between two listed nodes, the list as written is b followed
    by the nodes after it: every one of the k nodes before b's position is
    lost, although the pointers around b are right.
  */
  lemma AsWrittenLosesPrefix(links: map<int, Link>, head: int, s: seq<int>, b: int, k: nat)
    requires LinkedList(links, head, s) && 0 < k < |s|
    requires b !in s && b != NIL && b in links && links[b] == Link(NIL, NIL)
    ensures var (links', head') := AsWrittenAddressLink(links, head, s, b, k);
      Walk(links', head', |s| + 1) == [b] + s[k..]
    ensures var (links', head') := AsWrittenAddressLink(links, head, s, b, k);
      forall j :: 0 <= j < k ==> s[j] !in Walk(links', head', |s| + 1)
  {
    MiddleLinksRight(links, head, s, b, k);
    WalkFromInserted(AsWrittenAddressLink(links, head, s, b, k).0, head, s, b, k);
  }

  /** As written, the pointers of a middle insert are those of the list with b at position k. */
  lemma MiddleLinksRight(links: map<int, Link>, head: int, s: seq<int>, b: int, k: nat)
    requires LinkedList(links, head, s) && 0 < k < |s|
    requires b !in s && b != NIL && b in links && links[b] == Link(NIL, NIL)
    ensures LinkedList(AsWrittenAddressLink(links, head, s, b, k).0, head, s[..k] + [b] + s[k..])
    ensures AsWrittenAddressLink(links, head, s, b, k).1 == b
  {
    LinkInMiddle(links, head, s, k, s[k - 1], s[k], b);
  }

  /** A walk started at b, at position k of a linked list, meets none of the nodes before it. */
  lemma WalkFromInserted(links: map<int, Link>, head: int, s: seq<int>, b: int, k: nat)
    requires 0 < k < |s| && Distinct(s[..k] + [b] + s[k..])
    requires LinkedList(links, head, s[..k] + [b] + s[k..])
    ensures Walk(links, b, |s| + 1) == [b] + s[k..]
    ensures forall j :: 0 <= j < k ==> s[j] !in Walk(links, b, |s| + 1)
  {
    var r := s[..k] + [b] + s[k..];
    assert r[k] == b && r[k..] == [b] + s[k..];
    WalkSuffix(links, head, r, k, |s| + 1);
    forall j | 0 <= j < k ensures s[j] !in r[k..] {
      assert r[j] == s[j];
      forall i | k <= i < |r| ensures r[i] != r[j] {
      }
    }
  }

  /**
    The same links with the head left in place, as the model's insert does:
    a walk meets every old node and b, in the order Insert gives.
  */
  lemma CorrectedKeepsAll(blocks: map<int, Blk>, links: map<int, Link>, head: int, s: seq<int>, b: int)
    requires LinkedList(links, head, s) && InDom(blocks, s) && b in blocks
    requires 0 < InsertPos(ByAddress, blocks, s, b) < |s|
    requires b !in s && b != NIL && b in links && links[b] == Link(NIL, NIL)
    ensures var k := InsertPos(ByAddress, blocks, s, b);
      Walk(AsWrittenAddressLink(links, head, s, b, k).0, head, |s| + 1) == Insert(ByAddress, blocks, s, b)
  {
    var k := InsertPos(ByAddress, blocks, s, b);
    MiddleLinksRight(links, head, s, b, k);
    LinkedWalk(AsWrittenAddressLink(links, head, s, b, k).0, head, s[..k] + [b] + s[k..], |s| + 1);
  }

  // ---------------------------------------------------------------- a run that loses a block

  /** A fresh arena, and the arenas after each of five requests of 76 bytes in address order. */
  const R0 := State(map[], [], 0)
  const R1 := State(map[0 := Blk(100, true), 100 := Blk(1948, false)], [100], 2048)
  const R2 := State(map[0 := Blk(100, true), 100 := Blk(100, true), 200 := Blk(1848, false)], [200], 2048)
  const R3 := State(map[0 := Blk(100, true), 100 := Blk(100, true), 200 := Blk(100, true),
                        300 := Blk(1748, false)], [300], 2048)
  const R4 := State(map[0 := Blk(100, true), 100 := Blk(100, true), 200 := Blk(100, true),
                        300 := Blk(100, true), 400 := Blk(1648, false)], [400], 2048)
  const R5 := State(map[0 := Blk(100, true), 100 := Blk(100, true), 200 := Blk(100, true),
                        300 := Blk(100, true), 400 := Blk(100, true), 500 := Blk(1548, false)], [500], 2048)
  /** After freeing the first block: it is listed before the rest at 500. */
  const R6 := State(map[0 := Blk(100, false), 100 := Blk(100, true), 200 := Blk(100, true),
                        300 := Blk(100, true), 400 := Blk(100, true), 500 := Blk(1548, false)], [0, 500], 2048)
  /** After freeing the fifth block: it absorbs the rest at 500. */
  const R7 := State(map[0 := Blk(100, false), 100 := Blk(100, true), 200 := Blk(100, true),
                        300 := Blk(100, true), 400 := Blk(1648, false)], [0, 400], 2048)
  /** After freeing the third block, with the list kept in address order. */
  const R8 := State(map[0 := Blk(100, false), 100 := Blk(100, true), 200 := Blk(100, false),
                        300 := Blk(100, true), 400 := Blk(1648, false)], [0, 200, 400], 2048)
  /** The links of R7's list, and the freed header at 200, which is linked to nothing. */
  const L7 := map[0 := Link(NIL, 400), 200 := Link(NIL, NIL), 400 := Link(0, NIL)]

  /**
    In address order, 76 bytes from a list holding only the block o, of at
    least 125 bytes: the search picks o, which keeps its first 100 bytes in
    use, and the rest at o + 100 is the only listed block.
  */
  lemma CutFromOnly(st: State, o: int, next: State)
    requires Inv(ByAddress, st) && st.free == [o] && o in st.blocks && st.blocks[o].size >= 125
    requires next == State(st.blocks[o := Blk(100, true)][o + 100 := Blk(st.blocks[o].size - 100, false)], [o + 100], st.brk)
    ensures GetMemorySpec(ByAddress, st, 76) == Outcome(next, o + H, NoError) && Inv(ByAddress, next)
  {
    assert Search(ByAddress, st.blocks, st.free, 100) == Some(0);
    GetMemoryHit(ByAddress, st, 76, o);
    assert Without([o], o) == [];
  }

  /** The fresh arena is consistent in address order. */
  lemma FreshInv()
    ensures Inv(ByAddress, R0)
  {
  }

  /** Each arena of the run is the one before it with the free block cut. */
  /** Seeding the fresh arena, and each cut of 76 bytes, written as map updates. */
  lemma SeedIs()
    ensures Seed(R0) == State(map[0 := Blk(2048, false)], [0], 2048)
  {
  }

  lemma Cut1Is()
    ensures R1 == State(Seed(R0).blocks[0 := Blk(100, true)][100 := Blk(1948, false)], [100], 2048)
  {
    SeedIs();
    assert Seed(R0).blocks[0 := Blk(100, true)][100 := Blk(1948, false)] == R1.blocks;
  }

  lemma Cut2Is()
    ensures R2 == State(R1.blocks[100 := Blk(100, true)][200 := Blk(1848, false)], [200], 2048)
  {
    assert R1.blocks[100 := Blk(100, true)][200 := Blk(1848, false)] == R2.blocks;
  }

  lemma Cut3Is()
    ensures R3 == State(R2.blocks[200 := Blk(100, true)][300 := Blk(1748, false)], [300], 2048)
  {
    assert R2.blocks[200 := Blk(100, true)][300 := Blk(1748, false)] == R3.blocks;
  }

  lemma Cut4Is()
    ensures R4 == State(R3.blocks[300 := Blk(100, true)][400 := Blk(1648, false)], [400], 2048)
  {
    assert R3.blocks[300 := Blk(100, true)][400 := Blk(1648, false)] == R4.blocks;
  }

  lemma Cut5Is()
    ensures R5 == State(R4.blocks[400 := Blk(100, true)][500 := Blk(1548, false)], [500], 2048)
  {
    assert R4.blocks[400 := Blk(100, true)][500 := Blk(1548, false)] == R5.blocks;
  }

  /** The seeded arena is consistent, and serving 76 bytes from it cuts the chunk at 0. */
  lemma SeedCut()
    ensures Inv(ByAddress, Seed(R0)) && Seed(R0).free != []
    ensures GetMemorySpec(ByAddress, Seed(R0), 76) == Outcome(R1, 24, NoError) && Inv(ByAddress, R1)
  {
    FreshInv();
    SeedPreservesInv(ByAddress, R0);
    SeedIs();
    Cut1Is();
    CutFromOnly(Seed(R0), 0, R1);
  }

  /** The first request seeds the list with a chunk and cuts it. */
  lemma FirstCut()
    ensures Inv(ByAddress, R0) && Allocate(ByAddress, R0, 76) == Outcome(R1, 24, NoError) && Inv(ByAddress, R1)
  {
    FreshInv();
    AllocateSeeded(ByAddress, R0, 76);
    SeedCut();
  }

  /** The second request cuts the rest at 100. */
  lemma SecondCut()
    ensures Inv(ByAddress, R1) && Allocate(ByAddress, R1, 76) == Outcome(R2, 124, NoError) && Inv(ByAddress, R2)
  {
    FirstCut();
    AllocateListed(ByAddress, R1, 76);
    Cut2Is();
    CutFromOnly(R1, 100, R2);
  }

  /** The third request cuts the rest at 200. */
  lemma ThirdCut()
    ensures Inv(ByAddress, R2) && Allocate(ByAddress, R2, 76) == Outcome(R3, 224, NoError) && Inv(ByAddress, R3)
  {
    SecondCut();
    AllocateListed(ByAddress, R2, 76);
    Cut3Is();
    CutFromOnly(R2, 200, R3);
  }

  /** The fourth request cuts the rest at 300. */
  lemma FourthCut()
    ensures Inv(ByAddress, R3) && Allocate(ByAddress, R3, 76) == Outcome(R4, 324, NoError) && Inv(ByAddress, R4)
  {
    ThirdCut();
    AllocateListed(ByAddress, R3, 76);
    Cut4Is();
    CutFromOnly(R3, 300, R4);
  }

  /** The fifth request cuts the rest at 400. */
  lemma FifthCut()
    ensures Inv(ByAddress, R4) && Allocate(ByAddress, R4, 76) == Outcome(R5, 424, NoError) && Inv(ByAddress, R5)
  {
    FourthCut();
    AllocateListed(ByAddress, R4, 76);
    Cut5Is();
    CutFromOnly(R4, 400, R5);
  }

  /** The block at 0 has no free neighbour; marked free, it is listed before the block at 500. */
  lemma FreeFirstParts()
    ensures 0 in R5.blocks && R5.blocks[0].inUse && 0 !in R5.free && AbsorbLeft(R5, 0) == (R5, 0)
    ensures R6.blocks == AbsorbRight(R5, 0).blocks[0 := AbsorbRight(R5, 0).blocks[0].(inUse := false)]
    ensures R6.free == Insert(ByAddress, R6.blocks, AbsorbRight(R5, 0).free, 0)
  {
    assert End(R5.blocks, 500) == 2048 && End(R5.blocks, 0) == 100;
    assert EndingAt(R5.blocks, [500], 0) == None;
    assert AbsorbRight(R5, 0) == R5;
    assert R5.blocks[0 := R5.blocks[0].(inUse := false)] == R6.blocks;
  }

  /** Freeing the first allocation lists its block at 0, ahead of the rest. */
  lemma FreeFirst()
    ensures Inv(ByAddress, R5) && 0 in R5.blocks && R5.blocks[0].inUse
    ensures Release(ByAddress, R5, 24) == R6 && Inv(ByAddress, R6)
  {
    FifthCut();
    FreeFirstParts();
    ReleaseIs(ByAddress, R5, 0, R6);
  }

  /** The block at 400 absorbs the free block at 500 after it; marked free, it is listed after 0. */
  lemma FreeFifthParts()
    ensures 400 in R6.blocks && R6.blocks[400].inUse && 400 !in R6.free && AbsorbLeft(R6, 400) == (R6, 400)
    ensures R7.blocks == AbsorbRight(R6, 400).blocks[400 := AbsorbRight(R6, 400).blocks[400].(inUse := false)]
    ensures R7.free == Insert(ByAddress, R7.blocks, AbsorbRight(R6, 400).free, 400)
  {
    assert End(R6.blocks, 0) == 100 && End(R6.blocks, 500) == 2048 && End(R6.blocks, 400) == 500;
    assert EndingAt(R6.blocks, [0, 500], 400) == None;
    assert Without([0, 500], 500) == [0];
    var merged := (R6.blocks - {500})[400 := Blk(1648, true)];
    assert AbsorbRight(R6, 400) == State(merged, [0], 2048);
    assert merged[400 := Blk(1648, false)] == R7.blocks;
  }

  /** Freeing the fifth allocation merges its block with the rest of the arena. */
  lemma FreeFifth()
    ensures Inv(ByAddress, R6) && 400 in R6.blocks && R6.blocks[400].inUse
    ensures Release(ByAddress, R6, 424) == R7 && Inv(ByAddress, R7)
  {
    FreeFirst();
    FreeFifthParts();
    ReleaseIs(ByAddress, R6, 400, R7);
  }

  /** The block at 200 has no free neighbour; it goes between 0 and 400, at position 1. */
  lemma FreeThirdParts()
    ensures 200 in R7.blocks && R7.blocks[200].inUse && 200 !in R7.free
    ensures AbsorbLeft(R7, 200) == (R7, 200) && AbsorbRight(R7, 200) == R7
    ensures R8.blocks == AbsorbRight(R7, 200).blocks[200 := AbsorbRight(R7, 200).blocks[200].(inUse := false)]
    ensures R8.free == Insert(ByAddress, R8.blocks, AbsorbRight(R7, 200).free, 200)
    ensures InsertPos(ByAddress, R8.blocks, R7.free, 200) == 1
  {
    assert End(R7.blocks, 0) == 100 && End(R7.blocks, 400) == 2048 && End(R7.blocks, 200) == 300;
    assert EndingAt(R7.blocks, [0, 400], 200) == None;
    assert R7.blocks[200 := R7.blocks[200].(inUse := false)] == R8.blocks;
    assert Insert(ByAddress, R8.blocks, [0, 400], 200) == [0, 200, 400];
  }

  /**
    The run that shows the finding, from a fresh arena in address order: five
    requests of 76 bytes, then freeing the first and the fifth, reach R7
    (FirstCut to FreeFifth). The third block, at 200, is then freed. It has no free neighbour, so it goes between
    the listed blocks at 0 and 400. As written the list walked from its head
    is then 200, 400, and the free block at 0 is lost; the model's release
    lists 0, 200, 400.
  */
  lemma LostBlockExample()
    ensures Inv(ByAddress, R7) && 200 in R7.blocks && R7.blocks[200].inUse
    ensures Coalesce(ByAddress, R7, 224) == (R7, 200) && Release(ByAddress, R7, 224) == R8
    ensures LinkedList(L7, 0, R7.free)
    ensures var k := InsertPos(ByAddress, R8.blocks, R7.free, 200);
      var (links', head') := AsWrittenAddressLink(L7, 0, R7.free, 200, k);
      k == 1 && Walk(links', head', 3) == [200, 400] && 0 !in Walk(links', head', 3)
  {
    FreeFifth();
    FreeThirdParts();
    ReleaseIs(ByAddress, R7, 200, R8);
    LostBlockLinks();
  }

  /** The links of R7's list, with 200 added at position 1 as written: a walk from the head meets 200 and 400 only. */
  lemma LostBlockLinks()
    ensures R7.free == [0, 400] && LinkedList(L7, 0, [0, 400])
    ensures var (links', head') := AsWrittenAddressLink(L7, 0, [0, 400], 200, 1);
      Walk(links', head', 3) == [200, 400] && 0 !in Walk(links', head', 3)
  {
    assert LinkedList(L7, 0, [0, 400]);
    AsWrittenLosesPrefix(L7, 0, [0, 400], 200, 1);
    assert [0, 400][1..] == [400];
  }
}
