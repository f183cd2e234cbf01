/**
  A run of the size-order allocator on a fresh arena, step by step: three
  allocations, two releases, then a request the free list cannot serve. The
  provider's new chunk is merged into the free block that ends at the old arena
  end, so the list is then headed by the 1524-byte block and not by a 499-byte one.
*/
module Scenarios {
  import opened Blocks
  import opened FreeList
  import opened Arena
  import opened Service
  import opened Freeing
  import opened Malloc

  const S0 := State(map[], [], 0)
  /** After allocating 1500 bytes: the first chunk, split. */
  const S1 := State(map[0 := Blk(1524, true), 1524 := Blk(524, false)], [1524], 2048)
  /** After allocating 1 byte: the remainder, split again. */
  const S2 := State(map[0 := Blk(1524, true), 1524 := Blk(25, true), 1549 := Blk(499, false)], [1549], 2048)
  /** After allocating 475 bytes: the last free block, handed out whole. */
  const S3 := State(map[0 := Blk(1524, true), 1524 := Blk(25, true), 1549 := Blk(499, true)], [], 2048)
  /** After releasing the 475-byte allocation. */
  const S4 := State(map[0 := Blk(1524, true), 1524 := Blk(25, true), 1549 := Blk(499, false)], [1549], 2048)
  /** After releasing the 1500-byte allocation: its in-use neighbour keeps it apart. */
  const S5 := State(map[0 := Blk(1524, false), 1524 := Blk(25, true), 1549 := Blk(499, false)], [1549, 0], 2048)
  /** After the provider's second chunk is absorbed by the block at 1549. */
  const G := State(map[0 := Blk(1524, false), 1524 := Blk(25, true), 1549 := Blk(2547, false)], [0, 1549], 4096)
  /** After the retried search hands out 1600 bytes from the grown block. */
  const S6 := State(map[0 := Blk(1524, false), 1524 := Blk(25, true), 1549 := Blk(1624, true), 3173 := Blk(923, false)], [3173, 0], 4096)

  /** The fresh arena is consistent. */
  lemma FreshInv()
    ensures Inv(BySize, S0)
  {
  }

  /** The seeded chunk at 0 fits 1500 bytes and a header; carving it leaves S1. */
  lemma FirstCarve()
    ensures Seed(S0) == State(map[0 := Blk(2048, false)], [0], 2048)
    ensures Search(BySize, Seed(S0).blocks, Seed(S0).free, 1524) == Some(0)
    ensures Carve(BySize, Seed(S0), 0, 1500) == S1
  {
    assert Without([0], 0) == [];
    assert Seed(S0).blocks[0 := Blk(1524, true)][1524 := Blk(524, false)] == S1.blocks;
  }

  /** The seeded arena is consistent, and serving 1500 bytes from it carves the chunk at 0. */
  lemma FirstServe()
    ensures Inv(BySize, Seed(S0)) && Seed(S0).free != []
    ensures GetMemorySpec(BySize, Seed(S0), 1500) == Outcome(S1, 24, NoError) && Inv(BySize, S1)
  {
    FreshInv();
    SeedPreservesInv(BySize, S0);
    FirstCarve();
    GetMemoryHit(BySize, Seed(S0), 1500, 0);
  }

  /** Allocating 1500 bytes seeds the list with a chunk and splits it. */
  lemma FirstAllocation()
    ensures Inv(BySize, S0) && Allocate(BySize, S0, 1500) == Outcome(S1, 24, NoError) && Inv(BySize, S1)
  {
    FreshInv();
    AllocateSeeded(BySize, S0, 1500);
    FirstServe();
  }

  /** The 524-byte block at 1524 fits 1 byte and a header; carving it leaves S2. */
  lemma SecondCarve()
    ensures Search(BySize, S1.blocks, S1.free, 25) == Some(0)
    ensures Carve(BySize, S1, 1524, 1) == S2
  {
    assert Without([1524], 1524) == [];
    assert S1.blocks[1524 := Blk(25, true)][1549 := Blk(499, false)] == S2.blocks;
  }

  /** Allocating 1 byte splits the remainder again. */
  lemma SecondAllocation()
    ensures Inv(BySize, S1) && Allocate(BySize, S1, 1) == Outcome(S2, 1548, NoError) && Inv(BySize, S2)
  {
    FirstAllocation();
    AllocateListed(BySize, S1, 1);
    SecondCarve();
    GetMemoryHit(BySize, S1, 1, 1524);
  }

  /** The 499-byte block at 1549 fits 475 bytes and a header exactly; it is taken whole. */
  lemma ThirdCarve()
    ensures Search(BySize, S2.blocks, S2.free, 499) == Some(0)
    ensures Carve(BySize, S2, 1549, 475) == S3
  {
    assert Without([1549], 1549) == [];
    assert S2.blocks[1549 := S2.blocks[1549].(inUse := true)] == S3.blocks;
  }

  /** Allocating 475 bytes takes the 499-byte block whole: with its header, the request fills it (475 + H = 499). */
  lemma ThirdAllocation()
    ensures Inv(BySize, S2) && Allocate(BySize, S2, 475) == Outcome(S3, 1573, NoError) && Inv(BySize, S3)
  {
    SecondAllocation();
    AllocateListed(BySize, S2, 475);
    ThirdCarve();
    GetMemoryHit(BySize, S2, 475, 1549);
  }

  /** The block at 1549 has no free neighbour; marked free and linked in, it gives S4. */
  lemma FirstReleaseParts()
    ensures AbsorbLeft(S3, 1549) == (S3, 1549) && AbsorbRight(S3, 1549) == S3
    ensures S3.blocks[1549 := S3.blocks[1549].(inUse := false)] == S4.blocks
    ensures Insert(BySize, S4.blocks, [], 1549) == [1549]
  {
    assert End(S3.blocks, 1549) == 2048;
  }

  /** Releasing the 475-byte allocation relinks its block: no neighbour is free. */
  lemma FirstRelease()
    ensures Inv(BySize, S3) && 1549 in S3.blocks && S3.blocks[1549].inUse
    ensures Release(BySize, S3, 1573) == S4 && Inv(BySize, S4)
  {
    ThirdAllocation();
    FirstReleaseParts();
    ReleasePreservesInv(BySize, S3, 1573);
  }

  /** The block at 0 has no free neighbour; marked free, it is listed after the block at 1549. */
  lemma SecondReleaseParts()
    ensures AbsorbLeft(S4, 0) == (S4, 0) && AbsorbRight(S4, 0) == S4
    ensures S4.blocks[0 := S4.blocks[0].(inUse := false)] == S5.blocks
    ensures Insert(BySize, S5.blocks, [1549], 0) == [1549, 0]
  {
    assert End(S4.blocks, 1549) == 2048 && End(S4.blocks, 0) == 1524;
    assert EndingAt(S4.blocks, [1549], 0) == None;
  }

  /** Releasing the 1500-byte allocation lists it after the smaller block at 1549. */
  lemma SecondRelease()
    ensures Inv(BySize, S4) && 0 in S4.blocks && S4.blocks[0].inUse
    ensures Release(BySize, S4, 24) == S5 && Inv(BySize, S5)
  {
    FirstRelease();
    SecondReleaseParts();
    ReleasePreservesInv(BySize, S4, 24);
  }

  /** No listed block fits 1600 bytes and a header; the block at 1549 ends at the arena end. */
  lemma GrowthParts()
    ensures Search(BySize, S5.blocks, S5.free, 1624) == None
    ensures EndingAt(S5.blocks[2048 := Blk(SBRK_SIZE, false)], S5.free, 2048) == Some(1549)
  {
    assert End(S5.blocks[2048 := Blk(SBRK_SIZE, false)], 1549) == 2048;
  }

  /** The block at 1549 grown by the chunk and relinked after the block at 0 gives G. */
  lemma MergeParts()
    ensures MergeChunk(BySize, S5, 1549) == G
  {
    assert Without([1549, 0], 1549) == [0];
    assert S5.blocks[1549 := Blk(2547, false)] == G.blocks;
    assert Insert(BySize, G.blocks, [0], 1549) == [0, 1549];
  }

  /**
    No listed block holds 1600 bytes and a header, so the arena grows: the
    block at 1549 ends at the old arena end and absorbs the chunk, and the list
    head is then the 1524-byte block.
  */
  lemma GrowthMerges()
    ensures Inv(BySize, S5) && Search(BySize, S5.blocks, S5.free, 1624) == None
    ensures Grow(BySize, S5) == Some(G) && G.blocks[G.free[0]].size == 1524
  {
    SecondRelease();
    GrowthParts();
    MergeParts();
  }

  /** In the grown arena the block at 1549 fits; carving it lists the 923-byte rest first. */
  lemma RetryCarve()
    ensures Search(BySize, G.blocks, G.free, 1624) == Some(1)
    ensures Carve(BySize, G, 1549, 1600) == S6
  {
    assert Without([0, 1549], 1549) == [0];
    assert G.blocks[1549 := Blk(1624, true)][3173 := Blk(923, false)] == S6.blocks;
    assert Insert(BySize, S6.blocks, [0], 3173) == [3173, 0];
  }

  /** The single retry after growing serves the request of 1600 bytes. */
  lemma RetryServes()
    ensures Inv(BySize, S5) && Allocate(BySize, S5, 1600) == Outcome(S6, 1573, NoError)
  {
    GrowthMerges();
    AllocateListed(BySize, S5, 1600);
    GetMemoryRetry(BySize, S5, 1600);
    RetryCarve();
    GetMemoryHit(BySize, G, 1600, 1549);
  }

  /** The arenas after one, two, three and four requests of 2016 bytes. */
  const C1 := State(map[0 := Blk(2048, true)], [], 2048)
  const C2 := State(map[0 := Blk(2048, true), 2048 := Blk(2048, true)], [], 4096)
  const C3 := State(map[0 := Blk(2048, true), 2048 := Blk(2048, true), 4096 := Blk(2048, true)], [], 6144)
  const C4 := State(map[0 := Blk(2048, true), 2048 := Blk(2048, true), 4096 := Blk(2048, true), 6144 := Blk(2048, true)], [], 8192)

  /** A seeded chunk fits 2016 bytes and a header under either search, and is too small to split. */
  lemma SeedFitsWhole(p: Policy, st: State)
    ensures Search(p, Seed(st).blocks, Seed(st).free, 2016 + H) == Some(0)
    ensures HandOutWhole(p, 2016, Seed(st).blocks[st.brk].size)
    ensures Without(Seed(st).free, st.brk) == []
  {
    assert Without([st.brk], st.brk) == [];
  }

  /**
    2016 bytes asked of an empty free list, under either policy: the seeded
    chunk at the arena end is handed out whole, since the 8 bytes it could
    spare cannot hold a split, and the list stays empty.
  */
  lemma OneChunk(p: Policy, st: State)
    requires Inv(p, st) && st.free == [] && st.brk + SBRK_SIZE <= HEAP_SIZE
    ensures Allocate(p, st, 2016) ==
      Outcome(State(st.blocks[st.brk := Blk(SBRK_SIZE, true)], [], st.brk + SBRK_SIZE), st.brk + H, NoError)
    ensures Inv(p, State(st.blocks[st.brk := Blk(SBRK_SIZE, true)], [], st.brk + SBRK_SIZE))
  {
    AllocateSeeded(p, st, 2016);
    SeedFitsWhole(p, st);
    GetMemoryHit(p, Seed(st), 2016, st.brk);
    CarveWholeForm(p, Seed(st), st.brk, 2016);
  }

  lemma FirstChunk(p: Policy)
    ensures Inv(p, S0) && Allocate(p, S0, 2016) == Outcome(C1, 24, NoError) && Inv(p, C1)
  {
    assert Inv(p, S0);
    OneChunk(p, S0);
  }

  lemma SecondChunk(p: Policy)
    ensures Inv(p, C1) && Allocate(p, C1, 2016) == Outcome(C2, 2072, NoError) && Inv(p, C2)
  {
    FirstChunk(p);
    OneChunk(p, C1);
  }

  lemma ThirdChunk(p: Policy)
    ensures Inv(p, C2) && Allocate(p, C2, 2016) == Outcome(C3, 4120, NoError) && Inv(p, C3)
  {
    SecondChunk(p);
    OneChunk(p, C2);
  }

  lemma FourthChunk(p: Policy)
    ensures Inv(p, C3) && Allocate(p, C3, 2016) == Outcome(C4, 6168, NoError) && Inv(p, C4)
  {
    ThirdChunk(p);
    OneChunk(p, C3);
  }

  /**
    Under either policy, four requests of 2016 bytes each take a fresh chunk
    whole; the fifth finds the provider exhausted, fails with OutOfMemory and
    returns NIL, changing nothing.
  */
  lemma FourChunks(p: Policy)
    ensures Inv(p, S0) && Inv(p, C1) && Inv(p, C2) && Inv(p, C3) && Inv(p, C4)
    ensures Allocate(p, S0, 2016) == Outcome(C1, 24, NoError)
    ensures Allocate(p, C1, 2016) == Outcome(C2, 2072, NoError)
    ensures Allocate(p, C2, 2016) == Outcome(C3, 4120, NoError)
    ensures Allocate(p, C3, 2016) == Outcome(C4, 6168, NoError)
    ensures Allocate(p, C4, 2016) == Outcome(C4, NIL, OutOfMemory)
  {
    FirstChunk(p);
    SecondChunk(p);
    ThirdChunk(p);
    FourthChunk(p);
    AllocateExhausted(p, C4, 2016);
  }
}
