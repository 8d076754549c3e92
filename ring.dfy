/** The circular doubly-linked "used" list of a pool (dlist_head in
    src/pool.h): the sentinel m_used_nodes and the heads of the nodes
    linked into it, with node ids in place of pointers. */
module Rings {
  import opened PoolTypes

  /** The id of the sentinel head m_used_nodes; nodes have ids from 1. */
  const Head: nat := 0

  /** Position k of the ring read from the sentinel: the k-th element, or
      the sentinel at k == |live|. */
  function At(live: seq<nat>, k: nat): nat
    requires k <= |live|
  {
    if k < |live| then live[k] else Head
  }

  /** The last element, or the sentinel on an empty ring. */
  function Last(live: seq<nat>): nat
  {
    if live == [] then Head else live[|live| - 1]
  }

  /** `live` without (the first occurrence of) x, the others in order. */
  function Erase(s: seq<nat>, x: nat): (r: seq<nat>)
  {
    if s == [] then []
    else if s[0] == x then s[1..]
    else [s[0]] + Erase(s[1..], x)
  }

  /** In a chain without repeats, erasing the element at k cuts it out. */
  lemma {:induction false} EraseAt(s: seq<nat>, k: nat)
    requires k < |s| && Distinct(s)
    ensures Erase(s, s[k]) == s[..k] + s[k + 1..]
  {
    if k > 0 {
      assert s[1..][k - 1] == s[k];
      assert s[0] != s[k] by {
        assert s[k] in s[1..];
      }
      EraseAt(s[1..], k - 1);
      assert s[1..][..k - 1] == s[1..k];
      assert s[1..][k..] == s[k + 1..];
      assert [s[0]] + s[1..k] == s[..k];
    }
  }

  /** Cutting one element out of a chain without repeats leaves one. */
  lemma {:induction false} DistinctCut(s: seq<nat>, k: nat)
    requires k < |s| && Distinct(s)
    ensures Distinct(s[..k] + s[k + 1..])
    ensures forall x :: x in s[..k] + s[k + 1..] <==> x in s && x != s[k]
  {
    if k == 0 {
      assert s[..0] + s[1..] == s[1..];
    } else {
      DistinctCut(s[1..], k - 1);
      assert s[1..][..k - 1] + s[1..][k..] == s[1..k] + s[k + 1..];
      assert s[..k] + s[k + 1..] == [s[0]] + (s[1..k] + s[k + 1..]);
      assert s[1..][k - 1] == s[k];
      assert s[0] != s[k] by {
        assert s[k] in s[1..];
      }
    }
  }

  /** A chain without repeats stays so with a new element at its end. */
  lemma DistinctAppend(s: seq<nat>, x: nat)
    requires Distinct(s) && x !in s
    ensures Distinct(s + [x])
  {
    DistinctJoin(s, [x]);
  }

  /** Two positions of a ring without repeats that name the same node are
      the same position. */
  lemma AtInjective(live: seq<nat>, a: nat, b: nat)
    requires a <= |live| && b <= |live| && Head !in live && Distinct(live)
    requires At(live, a) == At(live, b)
    ensures a == b
  {
    if a < |live| && b < |live| && a != b {
      DistinctIndices(live, a, b);
    }
  }

  lemma {:induction false} DistinctIndices(s: seq<nat>, a: nat, b: nat)
    requires a < |s| && b < |s| && a != b && Distinct(s)
    ensures s[a] != s[b]
  {
    if a == 0 {
      assert s[b] == s[1..][b - 1];
      assert s[b] in s[1..];
    } else if b == 0 {
      assert s[a] == s[1..][a - 1];
      assert s[a] in s[1..];
    } else {
      DistinctIndices(s[1..], a - 1, b - 1);
    }
  }

  /** The links of the sentinel and of every element describe the circle
      sentinel, live[0], ..., live[|live| - 1], sentinel. */
  ghost predicate Linked(live: seq<nat>, next: map<nat, nat>, prev: map<nat, nat>)
  {
    Head !in live && Distinct(live) &&
    Head in next && Head in prev && next[Head] == At(live, 0) && prev[Head] == Last(live) &&
    forall k :: 0 <= k < |live| ==> NodeLinked(live, k, next, prev)
  }

  /** The element at k points forward to the one after it and back to the
      one before it, the sentinel standing before the first and after the
      last. */
  ghost predicate NodeLinked(live: seq<nat>, k: nat, next: map<nat, nat>, prev: map<nat, nat>)
    requires k < |live|
  {
    live[k] in next && next[live[k]] == At(live, k + 1) &&
    live[k] in prev && prev[live[k]] == Before(live, k)
  }

  /** What precedes position k: the element before it, or the sentinel. */
  function Before(live: seq<nat>, k: nat): nat
    requires k < |live|
  {
    if k == 0 then Head else live[k - 1]
  }

  /** Each element's links, read off the circle. */
  lemma LinkedNodes(live: seq<nat>, next: map<nat, nat>, prev: map<nat, nat>)
    requires Linked(live, next, prev)
    ensures forall k :: 0 <= k < |live| ==>
              live[k] in next && next[live[k]] == At(live, k + 1) &&
              live[k] in prev && prev[live[k]] == Before(live, k)
  {
    forall k | 0 <= k < |live|
      ensures live[k] in next && next[live[k]] == At(live, k + 1)
      ensures live[k] in prev && prev[live[k]] == Before(live, k)
    {
      assert NodeLinked(live, k, next, prev);
    }
  }

  /** insert(node, sentinel.prev, sentinel) puts the node at the end of
      the circle. */
  lemma AppendLinks(live: seq<nat>, s: nat, n0: map<nat, nat>, p0: map<nat, nat>,
                    n1: map<nat, nat>, p1: map<nat, nat>)
    requires Linked(live, n0, p0) && s != Head && s !in live
    requires n1 == n0[s := Head][Last(live) := s] && p1 == p0[Head := s][s := Last(live)]
    ensures Linked(live + [s], n1, p1)
  {
    var grown := live + [s];
    DistinctAppend(live, s);
    forall j | 0 <= j < |grown|
      ensures NodeLinked(grown, j, n1, p1)
    {
      if j < |live| {
        assert grown[j] == live[j];
        assert NodeLinked(live, j, n0, p0);
        if j + 1 < |live| {
          DistinctIndices(live, j, |live| - 1);
          assert grown[j + 1] == live[j + 1];
        }
        if j > 0 {
          assert grown[j - 1] == live[j - 1];
        }
      }
    }
  }

  /** del(node->prev, node->next) on the element at k leaves the circle
      without it. */
  lemma RemoveLinks(live: seq<nat>, k: nat, n0: map<nat, nat>, p0: map<nat, nat>,
                    n1: map<nat, nat>, p1: map<nat, nat>)
    requires k < |live| && Linked(live, n0, p0)
    requires n1 == n0[Before(live, k) := At(live, k + 1)] && p1 == p0[At(live, k + 1) := Before(live, k)]
    ensures Linked(live[..k] + live[k + 1..], n1, p1)
  {
    var cut := live[..k] + live[k + 1..];
    assert NodeLinked(live, k, n0, p0);
    DistinctCut(live, k);
    forall j | 0 <= j < |cut|
      ensures NodeLinked(cut, j, n1, p1)
    {
      CutLinked(live, k, j, n0, p0, n1, p1);
    }
  }

  lemma CutLinked(live: seq<nat>, k: nat, j: nat, n0: map<nat, nat>, p0: map<nat, nat>,
                  n1: map<nat, nat>, p1: map<nat, nat>)
    requires k < |live| && Linked(live, n0, p0)
    requires n1 == n0[Before(live, k) := At(live, k + 1)] && p1 == p0[At(live, k + 1) := Before(live, k)]
    requires j < |live| - 1
    ensures NodeLinked(live[..k] + live[k + 1..], j, n1, p1)
  {
    var cut := live[..k] + live[k + 1..];
    assert NodeLinked(live, k, n0, p0);
    if j < k {
      assert cut[j] == live[j];
      assert NodeLinked(live, j, n0, p0);
      if j + 1 < k {
        DistinctIndices(live, j, k - 1);
        assert cut[j + 1] == live[j + 1];
      }
      if k + 1 < |live| {
        DistinctIndices(live, j, k + 1);
      }
      if j > 0 {
        assert cut[j - 1] == live[j - 1];
      }
    } else {
      assert cut[j] == live[j + 1];
      assert NodeLinked(live, j + 1, n0, p0);
      if k > 0 {
        DistinctIndices(live, j + 1, k - 1);
      }
      if j > k {
        DistinctIndices(live, j + 1, k + 1);
        assert cut[j - 1] == live[j];
      } else if k > 0 {
        assert cut[j - 1] == live[k - 1];
      }
      if j + 1 < |cut| {
        assert cut[j + 1] == live[j + 2];
      }
    }
  }

  class Ring {
    /** dlist_head::next of the sentinel and of every node. */
    var next: map<nat, nat>
    /** dlist_head::prev of the sentinel and of every node. */
    var prev: map<nat, nat>
    /** The nodes linked into the ring, from sentinel.next round to
        sentinel.prev. */
    ghost var live: seq<nat>

    /** Each node's next is the one after it and its prev the one before,
        with the sentinel closing the circle. */
    ghost predicate Valid()
      reads this
    {
      Linked(live, next, prev)
    }

    /** Pool_dlist_base(): m_used_nodes.init(). */
    constructor ()
      ensures Valid() && live == []
    {
      next := map[Head := Head];
      prev := map[Head := Head];
      live := [];
    }

    /** dlist_head::empty(): the sentinel's next is itself. */
    function Empty(): (r: bool)
      reads this
      requires Valid()
      ensures r <==> live == []
    {
      next[Head] == Head
    }

    /** init(): the sentinel points to itself; the nodes are forgotten. */
    method Init()
      modifies this
      ensures Valid() && live == []
    {
      next := next[Head := Head];
      prev := prev[Head := Head];
      live := [];
    }

    /** push_back(node): insert(node, prev, this), so the node goes in
        between the last element and the sentinel. */
    method PushBack(s: nat)
      requires Valid() && s != Head && s !in live
      modifies this
      ensures Valid() && live == old(live) + [s]
    {
      ghost var n0, p0 := next, prev;
      var last := prev[Head];
      prev := prev[Head := s];
      next := next[s := Head];
      prev := prev[s := last];
      next := next[last := s];
      AppendLinks(live, s, n0, p0, next, prev);
      live := live + [s];
    }

    /** remove(): del(node->prev, node->next), so its neighbours point to
        each other and the others keep their order. */
    method Remove(s: nat)
      requires Valid() && s in live
      modifies this
      ensures Valid() && live == Erase(old(live), s)
      ensures forall x :: x in live <==> x in old(live) && x != s
      ensures |live| + 1 == |old(live)|
    {
      ghost var k :| 0 <= k < |live| && live[k] == s;
      ghost var n0, p0 := next, prev;
      assert NodeLinked(live, k, next, prev);
      var p := prev[s];
      var q := next[s];
      prev := prev[q := p];
      next := next[p := q];
      EraseAt(live, k);
      DistinctCut(live, k);
      RemoveLinks(live, k, n0, p0, next, prev);
      live := live[..k] + live[k + 1..];
    }

    /** splice_front(src) into an empty ring, as move_from uses it: when src
        is not empty its nodes, with their links, are put between the
        sentinel and itself, and src is re-initialised. */
    method SpliceFront(src: Ring)
      requires Valid() && live == [] && src.Valid()
      modifies this, src
      ensures Valid() && src.Valid() && src.live == []
      ensures src != this ==> live == old(src.live)
    {
      if !src.Empty() {
        assert NodeLinked(src.live, 0, src.next, src.prev);
        assert NodeLinked(src.live, |src.live| - 1, src.next, src.prev);
        var first := src.next[Head];
        var last := src.prev[Head];
        next := src.next;
        prev := src.prev;
        prev := prev[first := Head];
        next := next[Head := first];
        next := next[last := Head];
        prev := prev[Head := last];
        assert next == src.next && prev == src.prev;
        live := src.live;
        src.Init();
      }
    }
  }
}
