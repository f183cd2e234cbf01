/**
  The free list as the sequence of block offsets met when walking it from the
  head, and the operations the allocator performs on it: unlink, ordered insert,
  the two searches and the left-neighbour lookup.
*/
module FreeList {
  import opened Blocks

  /** Every listed offset has a header. */
  ghost predicate InDom(blocks: map<int, Blk>, s: seq<int>) {
    forall i :: 0 <= i < |s| ==> s[i] in blocks
  }

  predicate Distinct(s: seq<int>) {
    forall i, j :: 0 <= i < j < |s| ==> s[i] != s[j]
  }

  /** The sort key of a block: its size, or its address. */
  function Key(p: Policy, blocks: map<int, Blk>, o: int): int
    requires o in blocks
  {
    match p
    case BySize => blocks[o].size
    case ByAddress => o
  }

  /** The list is ascending in the policy's key. */
  ghost predicate Sorted(p: Policy, blocks: map<int, Blk>, s: seq<int>)
    requires InDom(blocks, s)
  {
    forall i, j :: 0 <= i < j < |s| ==> Key(p, blocks, s[i]) <= Key(p, blocks, s[j])
  }

  /** Two header maps agree on every listed block. */
  ghost predicate SameOn(b1: map<int, Blk>, b2: map<int, Blk>, s: seq<int>) {
    forall i :: 0 <= i < |s| ==> s[i] in b1 && s[i] in b2 && b1[s[i]] == b2[s[i]]
  }

  // ---------------------------------------------------------------- unlink

  /** The position of x in s. */
  function IndexOf(s: seq<int>, x: int): (i: nat)
    requires x in s
    ensures i < |s| && s[i] == x && x !in s[..i]
  {
    if s[0] == x then 0 else 1 + IndexOf(s[1..], x)
  }

  /**
    The list with node x unlinked: the nodes before x and after x, in their
    original order. WithoutElements and WithoutPermutes say which nodes it
    keeps.
  */
  function Without(s: seq<int>, x: int): (r: seq<int>)
    requires x in s
    ensures |r| == |s| - 1
  {
    var i := IndexOf(s, x);
    s[..i] + s[i + 1..]
  }

  /** Position a of the unlinked list holds the node at a, or at a + 1 past x. */
  lemma WithoutAt(s: seq<int>, x: int)
    requires x in s
    ensures forall a :: 0 <= a < |Without(s, x)| ==> Without(s, x)[a] == s[if a < IndexOf(s, x) then a else a + 1]
  {
  }

  /**
    Unlinking one node of a list of distinct nodes removes exactly that node:
    every other node stays, and none is duplicated.
  */
  lemma WithoutElements(s: seq<int>, x: int)
    requires x in s && Distinct(s)
    ensures Distinct(Without(s, x)) && x !in Without(s, x)
    ensures forall j :: 0 <= j < |s| && s[j] != x ==> s[j] in Without(s, x)
    ensures forall y :: y in Without(s, x) ==> y in s
  {
    var i := IndexOf(s, x);
    var r := Without(s, x);
    WithoutAt(s, x);
    forall j | 0 <= j < |s| && s[j] != x ensures s[j] in r {
      if j < i { assert r[j] == s[j]; } else { assert r[j - 1] == s[j]; }
    }
  }

  /** Unlinking x and listing it again gives back the same nodes, counted with multiplicity. */
  lemma WithoutPermutes(s: seq<int>, x: int)
    requires x in s
    ensures multiset(Without(s, x)) + multiset{x} == multiset(s)
  {
    var i := IndexOf(s, x);
    assert s == s[..i] + [x] + s[i + 1..];
  }

  /** Unlinking keeps every listed node's header present. */
  lemma WithoutInDom(blocks: map<int, Blk>, s: seq<int>, x: int)
    requires x in s && InDom(blocks, s)
    ensures InDom(blocks, Without(s, x))
  {
    WithoutAt(s, x);
  }

  /** Unlinking keeps a sorted list sorted. */
  lemma WithoutKeepsSorted(p: Policy, blocks: map<int, Blk>, s: seq<int>, x: int)
    requires InDom(blocks, s) && x in s && Sorted(p, blocks, s)
    ensures InDom(blocks, Without(s, x)) && Sorted(p, blocks, Without(s, x))
  {
    WithoutAt(s, x);
  }

  // ---------------------------------------------------------------- ordered insert

  /**
    Where a block is inserted: before the first listed block whose key is
    strictly larger than its own, or at the end.
  */
  function InsertPos(p: Policy, blocks: map<int, Blk>, s: seq<int>, b: int): (k: nat)
    requires InDom(blocks, s) && b in blocks
    ensures k <= |s|
    ensures forall j :: 0 <= j < k ==> Key(p, blocks, s[j]) <= Key(p, blocks, b)
    ensures k < |s| ==> Key(p, blocks, b) < Key(p, blocks, s[k])
  {
    if s == [] || Key(p, blocks, b) < Key(p, blocks, s[0]) then 0
    else 1 + InsertPos(p, blocks, s[1..], b)
  }

  /** The list with b linked in at its insert position, the others in order around it. */
  function Insert(p: Policy, blocks: map<int, Blk>, s: seq<int>, b: int): (r: seq<int>)
    requires InDom(blocks, s) && b in blocks
    ensures |r| == |s| + 1
  {
    var k := InsertPos(p, blocks, s, b);
    s[..k] + [b] + s[k..]
  }

  /** Position a of the list after inserting b: the old nodes before b's position, b, the rest. */
  lemma InsertAt(p: Policy, blocks: map<int, Blk>, s: seq<int>, b: int)
    requires InDom(blocks, s) && b in blocks
    ensures var r, k := Insert(p, blocks, s, b), InsertPos(p, blocks, s, b);
      forall a :: 0 <= a < |r| ==> r[a] == if a < k then s[a] else if a == k then b else s[a - 1]
  {
  }

  /** Inserting keeps the headers present, and the list holds exactly the old nodes and b. */
  lemma InsertElements(p: Policy, blocks: map<int, Blk>, s: seq<int>, b: int)
    requires InDom(blocks, s) && b in blocks
    ensures InDom(blocks, Insert(p, blocks, s, b))
    ensures forall y :: y in Insert(p, blocks, s, b) <==> y in s || y == b
  {
    var k := InsertPos(p, blocks, s, b);
    var r := Insert(p, blocks, s, b);
    InsertAt(p, blocks, s, b);
    forall a | 0 <= a < |r| ensures r[a] in s || r[a] == b {
      if a < k {
        assert r[a] == s[a];
      } else if a > k {
        assert r[a] == s[a - 1];
      }
    }
    forall j | 0 <= j < |s| ensures s[j] in r {
      if j < k {
        assert r[j] == s[j];
      } else {
        assert r[j + 1] == s[j];
      }
    }
    assert r[k] == b;
  }

  /** Inserting is a permutation of the old nodes and b. */
  lemma InsertPermutes(p: Policy, blocks: map<int, Blk>, s: seq<int>, b: int)
    requires InDom(blocks, s) && b in blocks
    ensures multiset(Insert(p, blocks, s, b)) == multiset(s) + multiset{b}
  {
    var k := InsertPos(p, blocks, s, b);
    assert Insert(p, blocks, s, b) == s[..k] + [b] + s[k..];
    assert s == s[..k] + s[k..];
  }

  /** Inserting into a sorted list keeps it sorted. */
  lemma InsertKeepsSorted(p: Policy, blocks: map<int, Blk>, s: seq<int>, b: int)
    requires InDom(blocks, s) && b in blocks && Sorted(p, blocks, s)
    ensures InDom(blocks, Insert(p, blocks, s, b)) && Sorted(p, blocks, Insert(p, blocks, s, b))
  {
    var k := InsertPos(p, blocks, s, b);
    var r := Insert(p, blocks, s, b);
    InsertElements(p, blocks, s, b);
    InsertAt(p, blocks, s, b);
    forall a, c | 0 <= a < c < |r| ensures Key(p, blocks, r[a]) <= Key(p, blocks, r[c]) {
      InsertedPair(p, blocks, s, b, k, r, a, c);
    }
  }

  lemma InsertedPair(p: Policy, blocks: map<int, Blk>, s: seq<int>, b: int, k: int, r: seq<int>, a: int, c: int)
    requires InDom(blocks, s) && b in blocks && Sorted(p, blocks, s) && 0 <= k <= |s|
    requires forall j :: 0 <= j < k ==> Key(p, blocks, s[j]) <= Key(p, blocks, b)
    requires k < |s| ==> Key(p, blocks, b) < Key(p, blocks, s[k])
    requires |r| == |s| + 1 && 0 <= a < c < |r|
    requires r[a] == if a < k then s[a] else if a == k then b else s[a - 1]
    requires r[c] == if c < k then s[c] else if c == k then b else s[c - 1]
    ensures r[a] in blocks && r[c] in blocks && Key(p, blocks, r[a]) <= Key(p, blocks, r[c])
  {
    if a == k {
      assert Key(p, blocks, s[k]) <= Key(p, blocks, s[c - 1]);
    }
  }

  /** Inserting a node that is not listed keeps the nodes distinct. */
  lemma InsertKeepsDistinct(p: Policy, blocks: map<int, Blk>, s: seq<int>, b: int)
    requires InDom(blocks, s) && b in blocks && Distinct(s) && b !in s
    ensures Distinct(Insert(p, blocks, s, b))
  {
    InsertAt(p, blocks, s, b);
  }

  /** Sortedness only looks at the listed blocks' headers. */
  lemma SortedFrame(p: Policy, b1: map<int, Blk>, b2: map<int, Blk>, s: seq<int>)
    requires InDom(b1, s) && SameOn(b1, b2, s) && Sorted(p, b1, s)
    ensures InDom(b2, s) && Sorted(p, b2, s)
  {
  }

  // ---------------------------------------------------------------- searches

  /** A block can serve a request of `need` bytes (header included). */
  predicate Fits(blocks: map<int, Blk>, o: int, need: int)
    requires o in blocks
  {
    !blocks[o].inUse && blocks[o].size >= need
  }

  /** Size-order search: the first listed block that fits. */
  function FirstFit(blocks: map<int, Blk>, s: seq<int>, need: int): (r: Option<nat>)
    requires InDom(blocks, s)
    ensures r.None? ==> forall j :: 0 <= j < |s| ==> !Fits(blocks, s[j], need)
    ensures r.Some? ==> r.value < |s| && Fits(blocks, s[r.value], need)
    ensures r.Some? ==> forall j :: 0 <= j < r.value ==> !Fits(blocks, s[j], need)
  {
    if s == [] then None
    else if Fits(blocks, s[0], need) then Some(0)
    else match FirstFit(blocks, s[1..], need)
      case None => None
      case Some(k) => Some(k + 1)
  }

  /** A block the address-order scan may pick: it fits and is below the sentinel. */
  predicate Candidate(blocks: map<int, Blk>, o: int, need: int)
    requires o in blocks
  {
    Fits(blocks, o, need) && blocks[o].size < BEST_SENTINEL
  }

  /**
    Position k holds a smallest candidate, and no earlier candidate is as small:
    the earliest of the smallest sufficient blocks.
  */
  ghost predicate IsBestFit(blocks: map<int, Blk>, s: seq<int>, need: int, k: int)
    requires InDom(blocks, s)
  {
    && 0 <= k < |s| && Candidate(blocks, s[k], need)
    && (forall j :: 0 <= j < |s| && Candidate(blocks, s[j], need) ==> blocks[s[k]].size <= blocks[s[j]].size)
    && (forall j :: 0 <= j < k && Candidate(blocks, s[j], need) ==> blocks[s[k]].size < blocks[s[j]].size)
  }

  /** Address-order search: the best fit over the whole list. */
  function BestFit(blocks: map<int, Blk>, s: seq<int>, need: int): (r: Option<nat>)
    requires InDom(blocks, s)
    ensures r.None? ==> forall j :: 0 <= j < |s| ==> !Candidate(blocks, s[j], need)
    ensures r.Some? ==> IsBestFit(blocks, s, need, r.value)
  {
    if s == [] then None
    else match BestFit(blocks, s[1..], need)
      case None =>
        if Candidate(blocks, s[0], need) then Some(0) else None
      case Some(k) =>
        if Candidate(blocks, s[0], need) && blocks[s[0]].size <= blocks[s[k + 1]].size then Some(0)
        else Some(k + 1)
  }

  /** At most one position is the best fit. */
  lemma BestFitUnique(blocks: map<int, Blk>, s: seq<int>, need: int, k1: int, k2: int)
    requires InDom(blocks, s) && IsBestFit(blocks, s, need, k1) && IsBestFit(blocks, s, need, k2)
    ensures k1 == k2
  {
  }

  /**
    In a size-sorted list of blocks below the sentinel the first fit is the best
    fit: walking from the head finds the smallest sufficient block.
  */
  lemma SizeFirstFitIsBestFit(blocks: map<int, Blk>, s: seq<int>, need: int)
    requires InDom(blocks, s) && Sorted(BySize, blocks, s)
    requires forall x :: x in s ==> blocks[x].size < BEST_SENTINEL
    ensures FirstFit(blocks, s, need) == BestFit(blocks, s, need)
  {
    match FirstFit(blocks, s, need)
    case None =>
    case Some(k) =>
      assert Candidate(blocks, s[k], need);
      assert IsBestFit(blocks, s, need, k) by {
        forall j | 0 <= j < |s| && Candidate(blocks, s[j], need)
          ensures blocks[s[k]].size <= blocks[s[j]].size
        {
          if j > k { assert Key(BySize, blocks, s[k]) <= Key(BySize, blocks, s[j]); }
        }
      }
      BestFitUnique(blocks, s, need, k, BestFit(blocks, s, need).value);
  }

  // ---------------------------------------------------------------- neighbours

  /** The first listed block whose range ends exactly at offset x. */
  function EndingAt(blocks: map<int, Blk>, s: seq<int>, x: int): (r: Option<int>)
    requires InDom(blocks, s)
    ensures r.None? ==> forall y :: y in s ==> End(blocks, y) != x
    ensures r.Some? ==> r.value in s && End(blocks, r.value) == x
  {
    if s == [] then None
    else if End(blocks, s[0]) == x then Some(s[0])
    else EndingAt(blocks, s[1..], x)
  }

  /** In a tiled arena, a listed block that ends at x is the one EndingAt finds. */
  lemma EndingAtUnique(blocks: map<int, Blk>, brk: int, s: seq<int>, x: int, l: int)
    requires InDom(blocks, s) && Tiled(blocks, brk) && l in s && End(blocks, l) == x
    ensures EndingAt(blocks, s, x) == Some(l)
  {
    var r := EndingAt(blocks, s, x);
    SameEndSameBlock(blocks, brk, l, r.value);
  }

  // ---------------------------------------------------------------- free bytes

  /** Total bytes of the listed blocks. */
  function FreeBytes(blocks: map<int, Blk>, s: seq<int>): int
    requires InDom(blocks, s)
  {
    if s == [] then 0 else blocks[s[0]].size + FreeBytes(blocks, s[1..])
  }

  lemma {:induction false} FreeBytesConcat(blocks: map<int, Blk>, s: seq<int>, t: seq<int>)
    requires InDom(blocks, s) && InDom(blocks, t)
    ensures InDom(blocks, s + t) && FreeBytes(blocks, s + t) == FreeBytes(blocks, s) + FreeBytes(blocks, t)
  {
    if s == [] {
      assert s + t == t;
    } else {
      assert (s + t)[1..] == s[1..] + t;
      FreeBytesConcat(blocks, s[1..], t);
    }
  }

  /** Cutting a list at k splits its free bytes between the two parts. */
  lemma FreeBytesCut(blocks: map<int, Blk>, s: seq<int>, k: int)
    requires InDom(blocks, s) && 0 <= k <= |s|
    ensures InDom(blocks, s[..k]) && InDom(blocks, s[k..])
    ensures FreeBytes(blocks, s) == FreeBytes(blocks, s[..k]) + FreeBytes(blocks, s[k..])
  {
    assert s == s[..k] + s[k..];
    FreeBytesConcat(blocks, s[..k], s[k..]);
  }

  /** A block spliced between two lists adds its size to theirs. */
  lemma FreeBytesSplice(blocks: map<int, Blk>, pre: seq<int>, b: int, post: seq<int>)
    requires InDom(blocks, pre) && InDom(blocks, post) && b in blocks
    ensures InDom(blocks, pre + [b] + post)
    ensures FreeBytes(blocks, pre + [b] + post) == FreeBytes(blocks, pre) + blocks[b].size + FreeBytes(blocks, post)
  {
    FreeBytesConcat(blocks, pre, [b]);
    assert [b][1..] == [];
    FreeBytesConcat(blocks, pre + [b], post);
  }

  /** Inserting a block adds exactly its size. */
  lemma FreeBytesInsert(p: Policy, blocks: map<int, Blk>, s: seq<int>, b: int)
    requires InDom(blocks, s) && b in blocks
    ensures InDom(blocks, Insert(p, blocks, s, b))
    ensures FreeBytes(blocks, Insert(p, blocks, s, b)) == FreeBytes(blocks, s) + blocks[b].size
  {
    var k := InsertPos(p, blocks, s, b);
    FreeBytesCut(blocks, s, k);
    FreeBytesSplice(blocks, s[..k], b, s[k..]);
  }

  /** Unlinking a block removes exactly its size. */
  lemma FreeBytesWithout(blocks: map<int, Blk>, s: seq<int>, x: int)
    requires InDom(blocks, s) && x in s
    ensures InDom(blocks, Without(s, x))
    ensures FreeBytes(blocks, Without(s, x)) == FreeBytes(blocks, s) - blocks[x].size
  {
    var i := IndexOf(s, x);
    FreeBytesCut(blocks, s, i);
    FreeBytesCut(blocks, s[i..], 1);
    assert s[i..][..1] == [x] && s[i..][1..] == s[i + 1..];
    assert FreeBytes(blocks, [x]) == blocks[x].size by {
      assert [x][1..] == [];
    }
    FreeBytesConcat(blocks, s[..i], s[i + 1..]);
  }

  /** Free bytes only depend on the listed blocks' headers. */
  lemma {:induction false} FreeBytesFrame(b1: map<int, Blk>, b2: map<int, Blk>, s: seq<int>)
    requires InDom(b1, s) && SameOn(b1, b2, s)
    ensures InDom(b2, s) && FreeBytes(b1, s) == FreeBytes(b2, s)
  {
    if s != [] {
      FreeBytesFrame(b1, b2, s[1..]);
    }
  }
}
