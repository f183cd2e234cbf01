/**
  Block headers and the arena they tile.

  The heap is modelled as byte offsets from its start. The provider hands out
  contiguous chunks of SBRK_SIZE bytes, so the arena is always [0, brk). Every
  block begins with a header: its `size` (header included) and `in_use` flag are
  kept in a `Blk`, its free-list `prev`/`next` links in a `Link`.
*/
module Blocks {

  /** Bytes of one block header (size, in_use, prev, next). */
  const H: int := 24
  /** Bytes obtained from the provider per growth request. */
  const SBRK_SIZE: int := 2048
  /** Bytes the provider can supply in all: four chunks. */
  const HEAP_SIZE: int := 8192
  /** Initial `bestSize` of the address-order scan: larger than any block. */
  const BEST_SENTINEL: int := 8193
  /** The null pointer and the null link. */
  const NIL: int := -1

  /** Which ordering the free list keeps and which search it uses. */
  datatype Policy = BySize | ByAddress

  /** The allocator's last-error code. */
  datatype Errno = NoError | SingleRequestTooLarge | OutOfMemory

  datatype Option<T> = None | Some(value: T)

  /** The `size` and `in_use` fields of a block header. */
  datatype Blk = Blk(size: int, inUse: bool)

  /** The `prev` and `next` fields of a block header (NIL when absent). */
  datatype Link = Link(prev: int, next: int)

  /** Block o exists and is not in use. */
  predicate IsFree(blocks: map<int, Blk>, o: int) {
    o in blocks && !blocks[o].inUse
  }

  /** The offset just past block o. */
  function End(blocks: map<int, Blk>, o: int): int
    requires o in blocks
  {
    o + blocks[o].size
  }

  /**
    The blocks partition the arena [0, brk): every block lies inside it with a
    positive size, each block is followed by another block or by the end of the
    arena, the first block starts at 0, and no block reaches past the start of a
    later one. The last two facts are only drawn for blocks whose End is in view.
  */
  ghost predicate Tiled(blocks: map<int, Blk>, brk: int) {
    && (forall o :: o in blocks ==> 0 <= o && 0 < blocks[o].size && o + blocks[o].size <= brk)
    && (forall o {:trigger End(blocks, o)} :: o in blocks ==> End(blocks, o) == brk || End(blocks, o) in blocks)
    && (0 < brk ==> 0 in blocks)
    && (forall o, q {:trigger End(blocks, o), q in blocks} :: o in blocks && q in blocks && o < q ==> End(blocks, o) <= q)
  }

  /** In a tiled arena no block starts strictly inside another block. */
  lemma NoStartInside(blocks: map<int, Blk>, brk: int, o: int, x: int)
    requires Tiled(blocks, brk) && o in blocks && o < x < End(blocks, o)
    ensures x !in blocks
  {
  }

  /** In a tiled arena two blocks that end at the same offset are the same block. */
  lemma SameEndSameBlock(blocks: map<int, Blk>, brk: int, o: int, q: int)
    requires Tiled(blocks, brk) && o in blocks && q in blocks
    requires End(blocks, o) == End(blocks, q)
    ensures o == q
  {
  }

  /** In a tiled arena a block ending at x is the last block starting before x. */
  lemma EndsBefore(blocks: map<int, Blk>, brk: int, o: int, q: int)
    requires Tiled(blocks, brk) && o in blocks && q in blocks && o < q
    ensures End(blocks, o) <= q
  {
  }

  /**
    Splitting a block into a first part of n bytes and a remainder at +n keeps the
    arena tiled, and the remainder's offset was not a block before.
  */
  lemma TiledSplit(blocks: map<int, Blk>, brk: int, o: int, n: int, u1: bool, u2: bool)
    requires Tiled(blocks, brk) && o in blocks && 0 < n < blocks[o].size
    ensures o + n !in blocks
    ensures Tiled(blocks[o := Blk(n, u1)][o + n := Blk(blocks[o].size - n, u2)], brk)
  {
    var m := o + n;
    var b := blocks[o := Blk(n, u1)][m := Blk(blocks[o].size - n, u2)];
    NoStartInside(blocks, brk, o, m);
    forall x | x in b ensures End(b, x) == brk || End(b, x) in b {
      if x == m {
        assert End(b, x) == End(blocks, o);
      } else if x != o {
        assert End(b, x) == End(blocks, x);
      }
    }
    forall x, y | x in b && y in b && x < y
      ensures End(b, x) <= y
    {
      SplitDisjoint(blocks, brk, o, m, u1, u2, x, y);
    }
  }

  lemma SplitDisjoint(blocks: map<int, Blk>, brk: int, o: int, m: int, u1: bool, u2: bool, x: int, y: int)
    requires Tiled(blocks, brk) && o in blocks && o < m < End(blocks, o) && m !in blocks
    requires var b := blocks[o := Blk(m - o, u1)][m := Blk(End(blocks, o) - m, u2)];
      x in b && y in b && x < y
    ensures var b := blocks[o := Blk(m - o, u1)][m := Blk(End(blocks, o) - m, u2)];
      End(b, x) <= y
  {
    var b := blocks[o := Blk(m - o, u1)][m := Blk(End(blocks, o) - m, u2)];
    if x == o {
      if y != m {
        EndsBefore(blocks, brk, o, y);
      }
    } else if x == m {
      EndsBefore(blocks, brk, o, y);
    } else {
      assert End(b, x) == End(blocks, x);
      if y == m {
        assert x < o;
        EndsBefore(blocks, brk, x, o);
      } else {
        EndsBefore(blocks, brk, x, y);
      }
    }
  }

  /**
    Absorbing block q into the block a that ends where q starts keeps the arena
    tiled; the merged block covers both ranges.
  */
  lemma TiledMerge(blocks: map<int, Blk>, brk: int, a: int, q: int, u: bool)
    requires Tiled(blocks, brk) && a in blocks && q in blocks && End(blocks, a) == q
    ensures Tiled((blocks - {q})[a := Blk(blocks[a].size + blocks[q].size, u)], brk)
  {
    var b := (blocks - {q})[a := Blk(blocks[a].size + blocks[q].size, u)];
    forall x | x in b ensures End(b, x) == brk || End(b, x) in b {
      if x == a {
        assert End(b, x) == End(blocks, q);
      } else {
        assert End(b, x) == End(blocks, x);
        if End(blocks, x) == q {
          SameEndSameBlock(blocks, brk, x, a);
        }
      }
    }
    forall x, y | x in b && y in b && x < y
      ensures End(b, x) <= y
    {
      if x == a {
        EndsBefore(blocks, brk, q, y);
      } else {
        assert End(b, x) == End(blocks, x);
        EndsBefore(blocks, brk, x, y);
      }
    }
  }

  /** Appending a fresh block of n bytes at the end of the arena keeps it tiled. */
  lemma TiledGrow(blocks: map<int, Blk>, brk: int, n: int, u: bool)
    requires Tiled(blocks, brk) && 0 <= brk && 0 < n
    ensures brk !in blocks
    ensures Tiled(blocks[brk := Blk(n, u)], brk + n)
  {
    var b := blocks[brk := Blk(n, u)];
    forall x | x in b ensures End(b, x) == brk + n || End(b, x) in b {
      if x != brk {
        assert End(b, x) == End(blocks, x);
      }
    }
    forall x, y | x in b && y in b && x < y
      ensures End(b, x) <= y
    {
      if y != brk {
        assert End(b, x) == End(blocks, x);
        EndsBefore(blocks, brk, x, y);
      }
    }
  }

  /** The last block of the arena extended by n fresh bytes keeps the arena tiled. */
  lemma TiledExtend(blocks: map<int, Blk>, brk: int, l: int, n: int, u: bool)
    requires Tiled(blocks, brk) && l in blocks && End(blocks, l) == brk && 0 < n
    ensures Tiled(blocks[l := Blk(blocks[l].size + n, u)], brk + n)
  {
    var b := blocks[l := Blk(blocks[l].size + n, u)];
    forall x | x in b ensures End(b, x) == brk + n || End(b, x) in b {
      if x != l {
        assert End(b, x) == End(blocks, x);
      }
    }
    forall x, y | x in b && y in b && x < y
      ensures End(b, x) <= y
    {
      assert End(b, x) == End(blocks, x) || x == l;
      EndsBefore(blocks, brk, x, y);
    }
  }

  /** The in_use flag plays no part in the partition. */
  lemma TiledFlag(blocks: map<int, Blk>, brk: int, o: int, u: bool)
    requires Tiled(blocks, brk) && o in blocks
    ensures Tiled(blocks[o := blocks[o].(inUse := u)], brk)
  {
    var b := blocks[o := blocks[o].(inUse := u)];
    forall x | x in b ensures End(b, x) == brk || End(b, x) in b {
      assert End(b, x) == End(blocks, x);
    }
    forall x, y | x in b && y in b && x < y
      ensures End(b, x) <= y
    {
      assert End(b, x) == End(blocks, x);
      EndsBefore(blocks, brk, x, y);
    }
  }
}
