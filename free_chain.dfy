/** The singly-linked chain of free nodes that both node-management
    algorithms keep (m_free_nodes and the `next` field a free node holds,
    Pool_list_base and Pool_dlist_base in src/pool.h). */
module FreeChains {
  import opened PoolTypes

  /** `free` is what following `link` from `head` meets before Nil. */
  ghost predicate Chain(link: map<nat, int>, head: int, free: seq<nat>)
    decreases |free|
  {
    if free == [] then head == Nil
    else head == free[0] && free[0] in link && Chain(link, link[free[0]], free[1..])
  }

  /** Relinking a node that is not on a chain leaves the chain as it is. */
  lemma {:induction false} ChainFrame(link: map<nat, int>, head: int, free: seq<nat>, s: nat, v: int)
    requires Chain(link, head, free) && s !in free
    ensures Chain(link[s := v], head, free)
    decreases |free|
  {
    if free != [] {
      ChainFrame(link, link[free[0]], free[1..], s, v);
    }
  }

  /** The step of add_to_free_nodes(array): slot base+i is not yet on the
      chain, and pushing it extends the descending run by one. */
  lemma PushArrayStep(base: nat, i: nat, n: nat, rest: seq<nat>)
    requires i < n
    requires forall x :: base <= x < base + n ==> x !in rest
    ensures base + i !in Descending(base, i) + rest
    ensures Descending(base, i + 1) + rest == [base + i] + (Descending(base, i) + rest)
  {
    DescendingStep(base, i);
  }

  class FreeChain {
    /** m_free_nodes: the first free slot, or Nil. */
    var head: int
    /** The `next` field of each node, read while the node is free. */
    var link: map<nat, int>
    /** The chain from head to Nil, in order. */
    ghost var free: seq<nat>

    ghost predicate Valid()
      reads this
    {
      Distinct(free) && Chain(link, head, free)
    }

    constructor ()
      ensures Valid() && free == []
    {
      head := Nil;
      link := map[];
      free := [];
    }

    /** top_free_node: the slot the next create hands out. */
    function Top(): (r: int)
      reads this
      requires Valid()
      ensures r == Nil <==> free == []
      ensures free != [] ==> r == free[0]
    {
      head
    }

    /** add_to_free_nodes(node): the node becomes the new head. */
    method Push(s: nat)
      requires Valid() && s !in free
      modifies this
      ensures Valid() && free == [s] + old(free)
    {
      ChainFrame(link, head, free, s, head);
      assert ([s] + free)[1..] == free;
      link := link[s := head];
      head := s;
      free := [s] + free;
    }

    /** pop_free_node: the head is unlinked (undefined on an empty chain). */
    method Pop()
      requires Valid() && free != []
      modifies this
      ensures Valid() && free == old(free)[1..] && link == old(link)
    {
      head := link[head as nat];
      free := free[1..];
    }

    /** reset_free_nodes: the chain is forgotten (the nodes are not touched). */
    method Reset()
      modifies this
      ensures Valid() && free == [] && link == old(link)
    {
      head := Nil;
      free := [];
    }

    /** add_to_free_nodes(std::array<Node, N>&): the nodes of one array, pushed
        in array order, so that the last one ends at the head. */
    method PushArray(base: nat, n: nat)
      requires Valid()
      requires forall x :: base <= x < base + n ==> x !in free
      modifies this
      ensures Valid() && free == Descending(base, n) + old(free)
    {
      var i := 0;
      while i < n
        invariant 0 <= i <= n
        invariant Valid() && free == Descending(base, i) + old(free)
      {
        PushArrayStep(base, i, n, old(free));
        Push(base + i);
        i := i + 1;
      }
    }

    /** The target of a move takes the chain and the source is left with
        none (the m_free_nodes assignments of both move_from overloads); a
        chain moved into itself ends empty. */
    method TakeFrom(other: FreeChain)
      requires other == this || other.Valid()
      modifies this, other
      ensures Valid() && other.Valid() && other.free == []
      ensures other != this ==> free == old(other.free)
    {
      head := other.head;
      link := other.link;
      free := other.free;
      other.head := Nil;
      other.free := [];
    }
  }
}
