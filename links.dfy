/**
  The free list as the allocator stores it: a head offset and, in every listed
  block's header, `prev` and `next` offsets. LinkedList ties that pointer
  structure to the sequence of nodes met when walking it from the head; the
  lemmas say that the pointer updates of an unlink and of a link-in produce the
  linked form of the unlinked and of the extended sequence.
*/
module Links {
  import opened Blocks
  import opened FreeList

  /** Walking from head along `next` meets exactly the nodes of s in order; `prev` mirrors `next`. */
  ghost predicate LinkedList(links: map<int, Link>, head: int, s: seq<int>) {
    && (if s == [] then head == NIL else head == s[0])
    && Distinct(s) && NIL !in s
    && (forall i :: 0 <= i < |s| ==> s[i] in links)
    && (s != [] ==> links[s[0]].prev == NIL && links[s[|s| - 1]].next == NIL)
    && (forall i, j {:trigger s[i], s[j]} :: 0 <= i < |s| && j == i + 1 && j < |s| ==>
          links[s[i]].next == s[j] && links[s[j]].prev == s[i])
  }

  /** The offsets met walking from head along `next`, at most fuel of them. */
  function Walk(links: map<int, Link>, head: int, fuel: nat): (r: seq<int>)
    ensures |r| <= fuel && NIL !in r
    ensures r != [] ==> r[0] == head
    decreases fuel
  {
    if fuel == 0 || head == NIL || head !in links then []
    else [head] + Walk(links, links[head].next, fuel - 1)
  }

  /** Walking a linked list from its node at position k meets exactly the rest of the list. */
  lemma {:induction false} WalkSuffix(links: map<int, Link>, head: int, s: seq<int>, k: nat, fuel: nat)
    requires LinkedList(links, head, s) && k <= |s| && fuel >= |s| - k
    ensures Walk(links, if k < |s| then s[k] else NIL, fuel) == s[k..]
    decreases |s| - k
  {
    if k < |s| {
      LinkedAt(links, head, s, k);
      WalkSuffix(links, head, s, k + 1, fuel - 1);
      assert s[k..] == [s[k]] + s[k + 1..];
    }
  }

  /** A linked list is what a walk from its head meets, however much further the walk may go. */
  lemma LinkedWalk(links: map<int, Link>, head: int, s: seq<int>, fuel: nat)
    requires LinkedList(links, head, s) && fuel >= |s|
    ensures Walk(links, head, fuel) == s
  {
    WalkSuffix(links, head, s, 0, fuel);
  }

  /** The links of the node at position k. */
  lemma LinkedAt(links: map<int, Link>, head: int, s: seq<int>, k: int)
    requires LinkedList(links, head, s) && 0 <= k < |s|
    ensures s[k] in links
    ensures links[s[k]].prev == if k == 0 then NIL else s[k - 1]
    ensures links[s[k]].next == if k == |s| - 1 then NIL else s[k + 1]
  {
    if k > 0 {
      assert s[k - 1] in s;
    }
    if k < |s| - 1 {
      assert s[k + 1] in s;
    }
  }

  /**
    Unlinking the node at position i: its predecessor's `next` skips to its
    successor, its successor's `prev` skips back to its predecessor, the head
    moves on when i is 0, and no other listed node's links change.
  */
  lemma UnlinkKeepsLinked(links: map<int, Link>, head: int, s: seq<int>, i: int, links': map<int, Link>, head': int)
    requires LinkedList(links, head, s) && 0 <= i < |s|
    requires head' == if i == 0 then (if |s| == 1 then NIL else s[1]) else head
    requires i > 0 ==> s[i - 1] in links' && links'[s[i - 1]].next == (if i == |s| - 1 then NIL else s[i + 1])
    requires i > 0 ==> links'[s[i - 1]].prev == links[s[i - 1]].prev
    requires i < |s| - 1 ==> s[i + 1] in links' && links'[s[i + 1]].prev == (if i == 0 then NIL else s[i - 1])
    requires i < |s| - 1 ==> links'[s[i + 1]].next == links[s[i + 1]].next
    requires forall o :: o in links && (i == 0 || o != s[i - 1]) && (i == |s| - 1 || o != s[i + 1]) ==>
      o in links' && links'[o] == links[o]
    ensures LinkedList(links', head', Without(s, s[i]))
  {
    var x := s[i];
    assert IndexOf(s, x) == i by {
      var m := IndexOf(s, x);
      assert s[m] == s[i];
    }
    WithoutElements(s, x);
    var r := s[..i] + s[i + 1..];
    assert Without(s, x) == r;
    UnlinkedEnds(links, head, s, i, links');
    forall a, b | 0 <= a < |r| && b == a + 1 && b < |r|
      ensures links'[r[a]].next == r[b] && links'[r[b]].prev == r[a]
    {
      UnlinkedPair(links, head, s, i, links', a);
    }
  }

  lemma UnlinkedEnds(links: map<int, Link>, head: int, s: seq<int>, i: int, links': map<int, Link>)
    requires LinkedList(links, head, s) && 0 <= i < |s|
    requires i > 0 ==> s[i - 1] in links' && links'[s[i - 1]].next == (if i == |s| - 1 then NIL else s[i + 1])
    requires i > 0 ==> links'[s[i - 1]].prev == links[s[i - 1]].prev
    requires i < |s| - 1 ==> s[i + 1] in links' && links'[s[i + 1]].prev == (if i == 0 then NIL else s[i - 1])
    requires i < |s| - 1 ==> links'[s[i + 1]].next == links[s[i + 1]].next
    requires forall o :: o in links && (i == 0 || o != s[i - 1]) && (i == |s| - 1 || o != s[i + 1]) ==>
      o in links' && links'[o] == links[o]
    ensures var r := s[..i] + s[i + 1..];
      && (forall a :: 0 <= a < |r| ==> r[a] in links')
      && (r != [] ==> links'[r[0]].prev == NIL && links'[r[|r| - 1]].next == NIL)
  {
    var r := s[..i] + s[i + 1..];
    forall a | 0 <= a < |r| ensures r[a] in links' {
      if a < i { assert r[a] == s[a]; } else { assert r[a] == s[a + 1]; }
    }
    if r != [] {
      LinkedAt(links, head, s, 0);
      LinkedAt(links, head, s, |s| - 1);
    }
  }

  lemma UnlinkedPair(links: map<int, Link>, head: int, s: seq<int>, i: int, links': map<int, Link>, a: int)
    requires LinkedList(links, head, s) && 0 <= i < |s| && 0 <= a && a + 2 < |s|
    requires i > 0 ==> s[i - 1] in links' && links'[s[i - 1]].next == (if i == |s| - 1 then NIL else s[i + 1])
    requires i > 0 ==> links'[s[i - 1]].prev == links[s[i - 1]].prev
    requires i < |s| - 1 ==> s[i + 1] in links' && links'[s[i + 1]].prev == (if i == 0 then NIL else s[i - 1])
    requires i < |s| - 1 ==> links'[s[i + 1]].next == links[s[i + 1]].next
    requires forall o :: o in links && (i == 0 || o != s[i - 1]) && (i == |s| - 1 || o != s[i + 1]) ==>
      o in links' && links'[o] == links[o]
    ensures var r := s[..i] + s[i + 1..];
      r[a] in links' && r[a + 1] in links' && links'[r[a]].next == r[a + 1] && links'[r[a + 1]].prev == r[a]
  {
    var r := s[..i] + s[i + 1..];
    if a + 1 < i {
      assert r[a] == s[a] && r[a + 1] == s[a + 1];
      LinkedAt(links, head, s, a);
      LinkedAt(links, head, s, a + 1);
    } else if a + 1 == i {
      assert r[a] == s[i - 1] && r[a + 1] == s[i + 1];
      LinkedAt(links, head, s, i - 1);
      LinkedAt(links, head, s, i + 1);
    } else {
      assert r[a] == s[a + 1] && r[a + 1] == s[a + 2];
      LinkedAt(links, head, s, a + 1);
      LinkedAt(links, head, s, a + 2);
    }
  }

  /**
    Linking b in at position k: b points back to the node before it and on to
    the node after it, those two point to b, the head becomes b when k is 0,
    and no other listed node's links change.
  */
  lemma LinkInKeepsLinked(links: map<int, Link>, head: int, s: seq<int>, k: int, b: int, links': map<int, Link>, head': int)
    requires LinkedList(links, head, s) && 0 <= k <= |s| && b !in s && b != NIL
    requires b in links' && links'[b] == Link(if k == 0 then NIL else s[k - 1], if k == |s| then NIL else s[k])
    requires k > 0 ==> s[k - 1] in links' && links'[s[k - 1]] == links[s[k - 1]].(next := b)
    requires k < |s| ==> s[k] in links' && links'[s[k]] == links[s[k]].(prev := b)
    requires forall o :: o in links && o != b && (k == 0 || o != s[k - 1]) && (k == |s| || o != s[k]) ==>
      o in links' && links'[o] == links[o]
    requires head' == if k == 0 then b else head
    ensures LinkedList(links', head', s[..k] + [b] + s[k..])
  {
    var r := s[..k] + [b] + s[k..];
    assert forall a :: 0 <= a < |r| ==> r[a] == if a < k then s[a] else if a == k then b else s[a - 1];
    forall a, c | 0 <= a < c < |r| ensures r[a] != r[c] {
      if a < k && c < k {
      } else if a < k && c > k {
        assert s[a] != s[c - 1];
      } else if a > k {
        assert s[a - 1] != s[c - 1];
      }
    }
    forall a | 0 <= a < |r| ensures r[a] in links' {
      if a < k { assert r[a] == s[a]; } else if a > k { assert r[a] == s[a - 1]; }
    }
    if k > 0 {
      LinkedAt(links, head, s, 0);
    }
    if k < |s| {
      LinkedAt(links, head, s, |s| - 1);
    }
    forall a, c | 0 <= a < |r| && c == a + 1 && c < |r|
      ensures links'[r[a]].next == r[c] && links'[r[c]].prev == r[a]
    {
      LinkedInPair(links, head, s, k, b, links', a);
    }
  }

  lemma LinkedInPair(links: map<int, Link>, head: int, s: seq<int>, k: int, b: int, links': map<int, Link>, a: int)
    requires LinkedList(links, head, s) && 0 <= k <= |s| && b !in s && b != NIL && 0 <= a < |s|
    requires b in links' && links'[b] == Link(if k == 0 then NIL else s[k - 1], if k == |s| then NIL else s[k])
    requires k > 0 ==> s[k - 1] in links' && links'[s[k - 1]] == links[s[k - 1]].(next := b)
    requires k < |s| ==> s[k] in links' && links'[s[k]] == links[s[k]].(prev := b)
    requires forall o :: o in links && o != b && (k == 0 || o != s[k - 1]) && (k == |s| || o != s[k]) ==>
      o in links' && links'[o] == links[o]
    ensures var r := s[..k] + [b] + s[k..];
      r[a] in links' && r[a + 1] in links' && links'[r[a]].next == r[a + 1] && links'[r[a + 1]].prev == r[a]
  {
    var r := s[..k] + [b] + s[k..];
    if a + 1 < k {
      assert r[a] == s[a] && r[a + 1] == s[a + 1];
      LinkedAt(links, head, s, a);
      LinkedAt(links, head, s, a + 1);
    } else if a + 1 == k {
      assert r[a] == s[a] && r[a + 1] == b;
      LinkedAt(links, head, s, a);
    } else if a == k {
      assert r[a] == b && r[a + 1] == s[k];
      LinkedAt(links, head, s, k);
    } else {
      assert r[a] == s[a - 1] && r[a + 1] == s[a];
      LinkedAt(links, head, s, a - 1);
      LinkedAt(links, head, s, a);
    }
  }

  /** Linking a detached node b in before the head `first`. */
  lemma LinkInHead(links: map<int, Link>, head: int, s: seq<int>, first: int, b: int)
    requires LinkedList(links, head, s) && s != [] && first == s[0]
    requires b !in s && b != NIL && b in links && links[b] == Link(NIL, NIL)
    ensures var l1 := links[b := links[b].(next := first)];
      var l2 := l1[first := l1[first].(prev := b)];
      LinkedList(l2, b, s[..0] + [b] + s[0..])
  {
    var l1 := links[b := links[b].(next := first)];
    var l2 := l1[first := l1[first].(prev := b)];
    LinkedAt(links, head, s, 0);
    LinkInKeepsLinked(links, head, s, 0, b, l2, b);
  }

  /** Linking a detached node b in between `before` at position k - 1 and `after` at position k. */
  lemma LinkInMiddle(links: map<int, Link>, head: int, s: seq<int>, k: int, before: int, after: int, b: int)
    requires LinkedList(links, head, s) && 0 < k < |s| && before == s[k - 1] && after == s[k]
    requires b !in s && b != NIL && b in links && links[b] == Link(NIL, NIL)
    ensures var l1 := links[b := links[b].(prev := before)];
      var l2 := l1[before := l1[before].(next := b)];
      var l3 := l2[b := l2[b].(next := after)];
      var l4 := l3[after := l3[after].(prev := b)];
      LinkedList(l4, head, s[..k] + [b] + s[k..])
  {
    var l1 := links[b := links[b].(prev := before)];
    var l2 := l1[before := l1[before].(next := b)];
    var l3 := l2[b := l2[b].(next := after)];
    var l4 := l3[after := l3[after].(prev := b)];
    LinkedAt(links, head, s, k - 1);
    LinkedAt(links, head, s, k);
    LinkInKeepsLinked(links, head, s, k, b, l4, head);
  }

  /** Linking a detached node b in after the last node `last`. */
  lemma LinkInEnd(links: map<int, Link>, head: int, s: seq<int>, last: int, b: int)
    requires LinkedList(links, head, s) && s != [] && last == s[|s| - 1]
    requires b !in s && b != NIL && b in links && links[b] == Link(NIL, NIL)
    ensures var l1 := links[b := links[b].(prev := last)];
      var l2 := l1[last := l1[last].(next := b)];
      LinkedList(l2, head, s[..|s|] + [b] + s[|s|..])
  {
    var l1 := links[b := links[b].(prev := last)];
    var l2 := l1[last := l1[last].(next := b)];
    LinkedAt(links, head, s, |s| - 1);
    LinkInKeepsLinked(links, head, s, |s|, b, l2, head);
  }

  /** Changing only the links of unlisted nodes keeps the list linked. */
  lemma LinkedFrame(links: map<int, Link>, head: int, s: seq<int>, links': map<int, Link>)
    requires LinkedList(links, head, s)
    requires forall i :: 0 <= i < |s| ==> s[i] in links' && links'[s[i]] == links[s[i]]
    ensures LinkedList(links', head, s)
  {
    forall i, j | 0 <= i < |s| && j == i + 1 && j < |s|
      ensures links'[s[i]].next == s[j] && links'[s[j]].prev == s[i]
    {
      LinkedAt(links, head, s, i);
    }
  }

  /** A position meeting the insert rule is the insert position. */
  lemma InsertPosIs(p: Policy, blocks: map<int, Blk>, s: seq<int>, b: int, k: int)
    requires InDom(blocks, s) && b in blocks && 0 <= k <= |s|
    requires forall j :: 0 <= j < k ==> Key(p, blocks, s[j]) <= Key(p, blocks, b)
    requires k < |s| ==> Key(p, blocks, b) < Key(p, blocks, s[k])
    ensures InsertPos(p, blocks, s, b) == k && Insert(p, blocks, s, b) == s[..k] + [b] + s[k..]
  {
  }
}
