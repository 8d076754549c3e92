/** The free list plus circular doubly-linked "used" list algorithm
    (Pool_dlist_base in src/pool.h) under each capacity policy: the static
    SPool_dlist and the dynamic Pool_dlist and Pool_dlist_block (Pool_xxx
    over a node or block allocator). Id 0 is the sentinel m_used_nodes; the
    nodes have ids from 1, and a node iterator is the id it points to. */
module DListPools {
  import opened PoolTypes
  import opened FreeChains
  import opened Storages
  import opened Rings

  /** The list arithmetic of one step of destroy(first, last): the list is
      whole with positions i .. m-1 cut out, and its element at i, whole[m],
      goes next. */
  lemma RangeStep(whole: seq<nat>, i: nat, m: nat, j: nat, live: seq<nat>, rest: seq<nat>)
    requires i <= m < j <= |whole| && live == whole[..i] + whole[m..]
    ensures i < |live| && live[i] == whole[m]
    ensures live[..i] + live[i + 1..] == whole[..i] + whole[m + 1..]
    ensures [whole[m]] + (Reverse(whole[i..m]) + rest) == Reverse(whole[i..m + 1]) + rest
    ensures i + (j - m) <= |live|
    ensures At(live[..i] + live[i + 1..], i + (j - m - 1)) == At(live, i + (j - m))
    ensures At(live[..i] + live[i + 1..], i) == At(live, i + 1)
  {
    assert whole[i..m + 1][..m - i] == whole[i..m];
    assert Reverse(whole[i..m + 1]) == [whole[m]] + Reverse(whole[i..m]);
    var cut := live[..i] + live[i + 1..];
    if i + 1 < |live| {
      assert cut[i] == live[i + 1];
    }
    if i + (j - m) < |live| {
      assert cut[i + (j - m - 1)] == live[i + (j - m)];
    }
  }

  /** destroy(first, last) stops when first meets last: on a list without
      repeats or the sentinel, that happens only once positions i .. j-1
      are cut out. */
  lemma RangeEnd(whole: seq<nat>, i: nat, m: nat, j: nat, live: seq<nat>)
    requires i <= m <= j <= |whole| && live == whole[..i] + whole[m..]
    requires Head !in live && Distinct(live) && i + (j - m) <= |live|
    requires At(live, i) == At(live, i + (j - m))
    ensures m == j && live == whole[..i] + whole[j..]
  {
    AtInjective(live, i, i + (j - m));
  }

  class DListPool<T> {
    /** m_free_nodes and the `next` field of the free nodes. */
    const chain: FreeChain
    /** m_capacity (or N), the block chain, and the arena. */
    const store: Storage
    /** m_used_nodes and the dlist_head of every live node. */
    const ring: Ring
    /** m_size. */
    var size: nat
    /** The object held by each live node. */
    var data: map<nat, T>

    ghost function Repr(): set<object>
    {
      {this, chain, store, ring}
    }

    ghost predicate Valid()
      reads Repr()
    {
      store.Valid() && chain.Valid() && ring.Valid() && store.first == 1 &&
      size == |ring.live| &&
      (forall s :: s in data <==> s in ring.live) &&
      store.capacity == |chain.free| + size &&
      (forall s :: s in chain.free ==> s !in data && 1 <= s < store.top) &&
      (forall s :: s in data ==> s < store.top)
    }

    /** SPool_dlist(): an empty used list, and every node of m_pool pushed
        onto the free chain in array order. */
    constructor Static(n: nat, flags: Flags)
      ensures Valid() && fresh(Repr())
      ensures store.policy == Policy.Static(n) && store.flags == flags
      ensures data == map[] && ring.live == [] && chain.free == Descending(1, n) && store.capacity == n
    {
      chain := new FreeChain();
      store := new Storage.Static(n, flags, 1);
      ring := new Ring();
      size := 0;
      data := map[];
      new;
      chain.PushArray(1, n);
      DescendingFacts(1, n);
    }

    /** Pool_dlist / Pool_dlist_block default construction: an empty used
        list and no node yet. */
    constructor Dynamic(policy: Policy, flags: Flags)
      requires policy.Node? || (policy.Block? && policy.n > 0)
      ensures Valid() && fresh(Repr())
      ensures store.policy == policy && store.flags == flags
      ensures data == map[] && ring.live == [] && chain.free == [] && store.capacity == 0
    {
      chain := new FreeChain();
      store := new Storage.Dynamic(policy, flags, 1);
      ring := new Ring();
      size := 0;
      data := map[];
    }

    /** size(): the number of nodes on the used list. */
    function Size(): (r: nat)
      reads Repr()
      requires Valid()
      ensures r == |ring.live| && r <= Capacity()
    {
      size
    }

    /** capacity(): used nodes plus free nodes (N for a static pool). */
    function Capacity(): (r: nat)
      reads Repr()
      requires Valid()
      ensures r == |chain.free| + |ring.live|
      ensures store.policy.Static? ==> r == store.policy.n
    {
      store.capacity
    }

    /** empty(): no object is live. */
    function Empty(): (r: bool)
      reads Repr()
      requires Valid()
      ensures r <==> ring.live == [] && data == map[]
    {
      assert data == map[] <== ring.live == [];
      Size() == 0
    }

    /** full(): no node is free. */
    function Full(): (r: bool)
      reads Repr()
      requires Valid()
      ensures r <==> chain.free == []
    {
      Size() == Capacity()
    }

    /** create_obj: the head of the free chain receives the object, is
        unlinked from the chain and goes to the back of the used list; with
        no free node the result is null and nothing changes. */
    method CreateObj(x: T) returns (r: Option<nat>)
      requires Valid()
      modifies this, chain, ring
      ensures Valid()
      ensures old(chain.free) == [] ==>
                r == None && data == old(data) && chain.free == [] && ring.live == old(ring.live)
      ensures old(chain.free) != [] ==>
                r == Some(old(chain.free)[0]) && old(chain.free)[0] !in old(data) &&
                data == old(data)[old(chain.free)[0] := x] && chain.free == old(chain.free)[1..] &&
                ring.live == old(ring.live) + [old(chain.free)[0]]
    {
      var h := chain.Top();
      if h == Nil {
        return None;
      }
      var s := h as nat;
      assert s == chain.free[0] && s !in chain.free[1..];
      assert s !in data && 1 <= s < store.top;
      ghost var f0 := chain.free;
      chain.Pop();
      ring.PushBack(s);
      data := data[s := x];
      size := size + 1;
      r := Some(s);
      forall t | t in chain.free
        ensures t !in data && 1 <= t < store.top
      {
        assert t in f0 && t != s;
      }
    }

    /** destroy_obj: the node is unlinked from the used list (its
        neighbours close up) and becomes the head of the free chain. */
    method DestroyObj(s: nat)
      requires Valid() && s in data
      modifies this, chain, ring
      ensures Valid()
      ensures data == old(data) - {s} && chain.free == [s] + old(chain.free)
      ensures ring.live == Erase(old(ring.live), s)
    {
      size := size - 1;
      data := data - {s};
      ring.Remove(s);
      chain.Push(s);
    }

    /** destroy(obj): a null pointer is ignored. */
    method Destroy(p: Option<nat>)
      requires Valid() && (p.Some? ==> p.value in data)
      modifies this, chain, ring
      ensures Valid()
      ensures p.None? ==> data == old(data) && chain.free == old(chain.free) && ring.live == old(ring.live)
      ensures p.Some? ==> data == old(data) - {p.value} && chain.free == [p.value] + old(chain.free) &&
                          ring.live == Erase(old(ring.live), p.value)
    {
      if p.Some? {
        DestroyObj(p.value);
      }
    }

    /** add_node of the pool's allocator: when the heap delivers, one node
        or one block of fresh nodes goes in front of the free chain and
        capacity grows by as many; the used list is not touched. */
    method AddNode(heapOk: bool)
      requires Valid() && !store.policy.Static?
      modifies store, chain
      ensures Valid() && store.top >= old(store.top)
      ensures store.top == old(store.top) + (if heapOk then store.Unit() else 0)
      ensures chain.free == Descending(old(store.top), store.top - old(store.top)) + old(chain.free)
      ensures store.capacity == old(store.capacity) + (store.top - old(store.top))
    {
      store.AddNode(chain, heapOk);
      DescendingFacts(old(store.top), store.top - old(store.top));
      forall s | s in chain.free
        ensures s !in data && 1 <= s
      {
        if s !in old(chain.free) {
          DescendingRange(old(store.top), store.top - old(store.top), s);
        }
      }
    }

    /** create: a dynamic pool without POOL_FIXED_CAPACITY first grows by
        one step when full (heapOk says whether the heap delivers); then
        create_obj. */
    method Create(x: T, heapOk: bool) returns (r: Option<nat>)
      requires Valid()
      modifies Repr()
      ensures Valid() && Created(r, x, heapOk)
    {
      if !store.policy.Static? && !store.flags.fixedCapacity && Full() {
        AddNode(heapOk);
        DescendingFacts(old(store.top), store.top - old(store.top));
      }
      r := CreateObj(x);
    }

    /** Whether create grows the pool when it finds the free chain `free`. */
    ghost predicate Grows(free: seq<nat>)
    {
      !store.policy.Static? && !store.flags.fixedCapacity && free == []
    }

    /** What create did when it returned r: a node is handed out exactly
        when one was free or the pool grew, and it goes to the back of the
        used list; a free node is the head of the chain, and after growth it
        is the last fresh node, the other fresh ones staying on the chain; a
        null result changes nothing. */
    twostate predicate Created(new r: Option<nat>, new x: T, heapOk: bool)
      reads Repr()
    {
      (r.Some? <==> old(chain.free) != [] || (Grows(old(chain.free)) && heapOk)) &&
      (r.Some? ==>
         r.value !in old(data) && data == old(data)[r.value := x] && ring.live == old(ring.live) + [r.value]) &&
      (r.None? ==>
         data == old(data) && ring.live == old(ring.live) &&
         chain.free == old(chain.free) && store.capacity == old(store.capacity)) &&
      (old(chain.free) != [] ==>
         r == Some(old(chain.free)[0]) && chain.free == old(chain.free)[1..] &&
         store.capacity == old(store.capacity)) &&
      (r.Some? && old(chain.free) == [] ==>
         store.Unit() > 0 && store.top == old(store.top) + store.Unit() && r == Some(store.top - 1) &&
         chain.free == Descending(old(store.top), store.Unit() - 1) &&
         store.capacity == old(store.capacity) + store.Unit())
    }

    /** pool::Pool::create: with POOL_CREATE_EXCEPTION a null result is
        raised as std::bad_alloc; otherwise create's result is passed on. */
    method CreateOrRaise(x: T, heapOk: bool) returns (res: Result<Option<nat>>)
      requires Valid()
      modifies Repr()
      ensures Valid()
      ensures res.Failure? <==>
                store.flags.createException && old(chain.free) == [] && !(Grows(old(chain.free)) && heapOk)
      ensures res.Success? ==> Created(res.value, x, heapOk)
      ensures res.Failure? ==> res.error == BadAlloc && Created(None, x, heapOk)
    {
      var r := Create(x, heapOk);
      res := CreateResult(store.flags.createException, r);
    }

    /** for_each: the used list is walked from m_used_nodes.next to the
        sentinel, each node's successor read before the node is visited. */
    method ForEach() returns (visited: seq<nat>)
      requires Valid()
      ensures visited == ring.live
    {
      LinkedNodes(ring.live, ring.next, ring.prev);
      visited := [];
      ghost var k := 0;
      var iter := ring.next[Head];
      while iter != Head
        invariant 0 <= k <= |ring.live|
        invariant iter == At(ring.live, k) && visited == ring.live[..k]
        decreases |ring.live| - k
      {
        var after := ring.next[iter];
        visited := visited + [iter];
        iter := after;
        k := k + 1;
      }
      assert ring.live[..k] == ring.live;
    }

    /** destroy_all: for_each with destroy_obj. Each step destroys the first
        node of the used list, so the list ends empty and the last node
        destroyed heads the free chain. */
    method DestroyAll()
      requires Valid()
      modifies this, chain, ring
      ensures Valid() && data == map[] && ring.live == []
      ensures chain.free == Reverse(old(ring.live)) + old(chain.free)
    {
      ghost var k := 0;
      ghost var whole := ring.live;
      assert whole[..0] == [] && whole[0..] == whole;
      LinkedNodes(ring.live, ring.next, ring.prev);
      var iter := ring.next[Head];
      while iter != Head
        invariant Valid() && k <= |whole|
        invariant ring.live == whole[k..]
        invariant iter == At(ring.live, 0)
        invariant chain.free == Reverse(whole[..k]) + old(chain.free)
        decreases |ring.live|
      {
        iter := DestroyFront(iter, whole, k, old(chain.free));
        k := k + 1;
      }
      assert whole[..k] == whole;
      assert data == map[] by {
        assert forall s :: s !in data;
      }
    }

    /** One step of destroy_all: the front node, the k-th of the original
        list, is destroyed after its successor is read. */
    method DestroyFront(iter: nat, ghost whole: seq<nat>, ghost k: nat, ghost rest: seq<nat>) returns (after: nat)
      requires Valid() && k <= |whole| && ring.live == whole[k..] && iter != Head
      requires iter == At(ring.live, 0) && chain.free == Reverse(whole[..k]) + rest
      modifies this, chain, ring
      ensures Valid() && k < |whole| && ring.live == whole[k + 1..] && after == At(ring.live, 0)
      ensures chain.free == Reverse(whole[..k + 1]) + rest
    {
      LinkedNodes(ring.live, ring.next, ring.prev);
      after := ring.next[iter];
      ghost var live := ring.live;
      DestroyObj(iter);
      assert ring.live == live[1..];
      assert whole[k..][1..] == whole[k + 1..];
      assert whole[..k + 1][..k] == whole[..k];
    }

    /** begin(): m_used_nodes.next, the first live node, or the sentinel
        (end) on an empty pool. */
    function Begin(): (r: nat)
      reads Repr()
      requires Valid()
      ensures ring.live == [] ==> r == End()
      ensures ring.live != [] ==> r == ring.live[0]
    {
      ring.next[Head]
    }

    /** end(): the sentinel. */
    function End(): (r: nat)
      ensures r !in ring.live || !ring.Valid()
    {
      Head
    }

    /** Iterator increment: the node after pos on the used list; from the
        last node it reaches the sentinel, and from the sentinel the first. */
    function Increment(pos: nat): (r: nat)
      reads Repr()
      requires Valid() && (pos == Head || pos in ring.live)
      ensures pos == Head ==> r == At(ring.live, 0)
      ensures forall k :: 0 <= k < |ring.live| && ring.live[k] == pos ==> r == At(ring.live, k + 1)
    {
      LinkedNodes(ring.live, ring.next, ring.prev);
      ring.next[pos]
    }

    /** Iterator decrement: the node before pos on the used list; from the
        first node it reaches the sentinel, and from the sentinel the last. */
    function Decrement(pos: nat): (r: nat)
      reads Repr()
      requires Valid() && (pos == Head || pos in ring.live)
      ensures pos == Head ==> r == Last(ring.live)
      ensures forall k :: 0 <= k < |ring.live| && ring.live[k] == pos ==> r == Before(ring.live, k)
    {
      LinkedNodes(ring.live, ring.next, ring.prev);
      ring.prev[pos]
    }

    /** Decrement undoes increment and increment undoes decrement, on every
        position of the circle. */
    lemma IncrementDecrement(pos: nat)
      requires Valid() && (pos == Head || pos in ring.live)
      ensures Increment(pos) == Head || Increment(pos) in ring.live
      ensures Decrement(Increment(pos)) == pos
      ensures Decrement(pos) == Head || Decrement(pos) in ring.live
      ensures Increment(Decrement(pos)) == pos
    {
    }

    /** destroy(pos): the successor is read first, then the object at pos
        is destroyed; the successor is still a position of the list. */
    method DestroyAt(pos: nat, ghost k: nat) returns (next: nat)
      requires Valid() && k < |ring.live| && ring.live[k] == pos
      modifies this, chain, ring
      ensures Valid()
      ensures next == Head || next in ring.live
      ensures data == old(data) - {pos} && chain.free == [pos] + old(chain.free)
      ensures next == At(old(ring.live), k + 1) && ring.live == old(ring.live)[..k] + old(ring.live)[k + 1..]
    {
      ghost var live := ring.live;
      LinkedNodes(live, ring.next, ring.prev);
      next := ring.next[pos];
      DestroyObj(pos);
      EraseAt(live, k);
      if next != Head {
        assert ring.live[k] == next;
      }
    }

    /** destroy(first, last): destroy(pos) until last is reached. The range
        is given by positions i <= j of the list (j == |live| for end): the
        objects at positions i .. j-1 go, in order, and last is returned. */
    method DestroyRange(first: nat, last: nat, ghost i: nat, ghost j: nat) returns (r: nat)
      requires Valid() && i <= j <= |ring.live|
      requires first == At(ring.live, i) && last == At(ring.live, j)
      modifies this, chain, ring
      ensures Valid() && r == last
      ensures ring.live == old(ring.live)[..i] + old(ring.live)[j..]
      ensures chain.free == Reverse(old(ring.live)[i..j]) + old(chain.free)
      ensures forall s :: s in data ==> s in old(data) && data[s] == old(data)[s]
    {
      ghost var whole, rest, d0 := ring.live, chain.free, data;
      CuttingStart(first, last, whole, i, j, rest, d0);
      DestroyUntil(first, last, whole, i, i, j, rest, d0);
      CuttingEnd(last, whole, i, j, rest, d0);
      r := last;
    }

    /** The loop of destroy(first, last): destroy the node at cur and step
        to its successor until cur meets last. */
    method DestroyUntil(first: nat, last: nat, ghost whole: seq<nat>, ghost i: nat, ghost m0: nat, ghost j: nat,
                        ghost rest: seq<nat>, ghost d0: map<nat, T>)
      requires Cutting(first, last, whole, i, m0, j, rest, d0)
      modifies this, chain, ring
      ensures Cutting(last, last, whole, i, j, j, rest, d0)
    {
      var cur := first;
      ghost var m := m0;
      while cur != last
        invariant Cutting(cur, last, whole, i, m, j, rest, d0)
        decreases j - m
      {
        cur := DestroyNext(cur, last, whole, i, m, j, rest, d0);
        m := m + 1;
      }
      CuttingMeets(cur, last, whole, i, m, j, rest, d0);
    }

    /** Before the first step nothing is destroyed. */
    lemma CuttingStart(cur: nat, last: nat, whole: seq<nat>, i: nat, j: nat, rest: seq<nat>, d0: map<nat, T>)
      requires Valid() && whole == ring.live && i <= j <= |whole|
      requires cur == At(whole, i) && last == At(whole, j) && rest == chain.free && d0 == data
      ensures Cutting(cur, last, whole, i, i, j, rest, d0)
    {
    }

    /** cur meets last exactly when the positions i .. j-1 are destroyed. */
    lemma CuttingMeets(cur: nat, last: nat, whole: seq<nat>, i: nat, m: nat, j: nat, rest: seq<nat>, d0: map<nat, T>)
      requires Cutting(cur, last, whole, i, m, j, rest, d0) && cur == last
      ensures m == j
    {
      RangeEnd(whole, i, m, j, ring.live);
    }

    /** What the finished loop leaves, read off its state. */
    lemma CuttingEnd(last: nat, whole: seq<nat>, i: nat, j: nat, rest: seq<nat>, d0: map<nat, T>)
      requires Cutting(last, last, whole, i, j, j, rest, d0)
      ensures Valid() && ring.live == whole[..i] + whole[j..]
      ensures chain.free == Reverse(whole[i..j]) + rest
      ensures forall s :: s in data ==> s in d0 && data[s] == d0[s]
    {
    }

    /** The state of destroy(first, last) after the objects at positions
        i .. m-1 of the list `whole` are destroyed: cur is at position i and
        last is still j - m positions further on. */
    ghost predicate Cutting(cur: nat, last: nat, whole: seq<nat>, i: nat, m: nat, j: nat,
                            rest: seq<nat>, d0: map<nat, T>)
      reads Repr()
    {
      Valid() && i <= m <= j <= |whole| &&
      ring.live == whole[..i] + whole[m..] && i + (j - m) <= |ring.live| &&
      cur == At(ring.live, i) && last == At(ring.live, i + (j - m)) &&
      chain.free == Reverse(whole[i..m]) + rest &&
      forall s :: s in data ==> s in d0 && data[s] == d0[s]
    }

    /** One step of destroy(first, last): the object at position i of the
        list, whole[m], goes next. */
    method DestroyNext(cur: nat, last: nat, ghost whole: seq<nat>, ghost i: nat, ghost m: nat, ghost j: nat,
                       ghost rest: seq<nat>, ghost d0: map<nat, T>) returns (next: nat)
      requires Cutting(cur, last, whole, i, m, j, rest, d0) && cur != last
      modifies this, chain, ring
      ensures m < j && Cutting(next, last, whole, i, m + 1, j, rest, d0)
    {
      assert m < j;
      RangeStep(whole, i, m, j, ring.live, rest);
      next := DestroyAt(cur, i);
    }

    /** reserve (dynamic pools). */
    method Reserve(newCap: nat, outcomes: seq<bool>) returns (r: Outcome)
      requires Valid() && !store.policy.Static?
      modifies Repr()
      ensures Valid() && data == old(data) && ring.live == old(ring.live)
      ensures store.Grown(chain, newCap, outcomes)
      ensures r.Fail? <==> store.flags.reserveException && Capacity() < newCap
    {
      r := store.Reserve(chain, newCap, outcomes);
      DescendingFacts(old(store.top), store.top - old(store.top));
      forall s | s in chain.free
        ensures s !in data && 1 <= s
      {
        if s !in old(chain.free) {
          DescendingRange(old(store.top), store.top - old(store.top), s);
        }
      }
    }

    /** shrink_to_fit (dynamic pools): the node allocator releases free
        nodes down to max(size, newCap); the block allocator, on an empty
        pool only, releases whole blocks while capacity exceeds newCap and
        rebuilds the free chain from the blocks left. */
    method ShrinkToFit(newCap: nat)
      requires Valid() && !store.policy.Static?
      modifies Repr()
      ensures Valid() && data == old(data) && ring.live == old(ring.live)
      ensures Capacity() <= old(Capacity())
      ensures store.policy.Node? ==>
                Capacity() == (if old(Capacity()) > Max(|ring.live|, newCap) then Max(|ring.live|, newCap) else old(Capacity())) &&
                chain.free == old(chain.free)[old(Capacity()) - Capacity()..]
      ensures store.policy.Block? && ring.live != [] ==>
                Capacity() == old(Capacity()) && chain.free == old(chain.free) && store.blocks == old(store.blocks)
      ensures store.policy.Block? && ring.live == [] && old(Capacity()) <= newCap ==> Capacity() == old(Capacity())
      ensures store.policy.Block? && ring.live == [] && old(Capacity()) > newCap ==>
                Capacity() <= newCap < Capacity() + store.policy.n
      ensures store.policy.Block? && ring.live == [] ==>
                |store.blocks| <= |old(store.blocks)| && store.blocks == old(store.blocks)[|old(store.blocks)| - |store.blocks|..] &&
                chain.free == Rebuilt(store.blocks, store.policy.n)
    {
      if store.policy.Node? {
        store.ShrinkNodes(chain, size, newCap);
        assert forall s :: s in chain.free ==> s in old(chain.free);
      } else {
        store.ShrinkBlocks(chain, size, newCap);
        if size == 0 {
          assert ring.live == [] && data == map[];
        }
      }
    }

    /** The destructor (Pool_xxx::dtor): destroy_all, then the allocator's:
        the node allocator releases every free node, which is now every
        node; the block allocator releases every block. */
    method Dtor()
      requires Valid() && !store.policy.Static?
      modifies Repr()
      ensures store.Valid() && ring.Valid() && data == map[] && ring.live == [] && size == 0
      ensures store.capacity == 0
      ensures store.policy.Node? ==> chain.Valid() && chain.free == []
      ensures store.policy.Block? ==> store.blocks == []
    {
      DestroyAll();
      store.Dtor(chain);
    }

    /** Pool_xxx::move_from (Pool_dlist_base::move_from with the
        allocator's), called only on a pool with an empty used list: this
        pool takes the other's size, capacity, free chain, blocks, and used
        list (splice_front); the other is left empty with capacity 0. When
        the two are the same pool, the result is that empty state. */
    method MoveFrom(other: DListPool<T>)
      requires store.Valid() && ring.Valid() && ring.live == [] && !store.policy.Static? && store.first == 1
      requires other == this || other.Valid()
      requires other.store.policy == store.policy
      requires other == this || Repr() !! other.Repr()
      modifies Repr(), other.Repr()
      ensures other.Valid() && other.data == map[] && other.ring.live == [] && other.Capacity() == 0
      ensures Valid()
      ensures other != this ==>
                data == old(other.data) && ring.live == old(other.ring.live) && chain.free == old(other.chain.free) &&
                store.capacity == old(other.store.capacity) && store.blocks == old(other.store.blocks)
    {
      size := other.size;
      data := other.data;
      store.MoveFrom(other.store);
      chain.TakeFrom(other.chain);
      ring.SpliceFront(other.ring);
      other.size := 0;
      other.data := map[];
    }

    /** Pool_xxx move constructor: a default-constructed pool, then
        move_from. */
    constructor Moved(other: DListPool<T>)
      requires other.Valid() && !other.store.policy.Static?
      modifies other.Repr()
      ensures Valid() && fresh(Repr())
      ensures store.policy == other.store.policy && store.flags == other.store.flags
      ensures data == old(other.data) && ring.live == old(other.ring.live) && chain.free == old(other.chain.free)
      ensures store.capacity == old(other.store.capacity) && store.blocks == old(other.store.blocks)
      ensures other.Valid() && other.data == map[] && other.ring.live == [] && other.Capacity() == 0
    {
      chain := new FreeChain();
      store := new Storage.Dynamic(other.store.policy, other.store.flags, 1);
      ring := new Ring();
      size := 0;
      data := map[];
      new;
      MoveFrom(other);
    }

    /** move_assign_operator: with POOL_SELF_MOVE_GUARD a self-assignment
        returns at once; otherwise the destructor runs and move_from
        follows (on itself, this leaves the pool empty with capacity 0). */
    method MoveAssign(other: DListPool<T>)
      requires Valid() && !store.policy.Static?
      requires other.Valid() && other.store.policy == store.policy && other.store.flags == store.flags
      requires other == this || Repr() !! other.Repr()
      modifies Repr(), other.Repr()
      ensures Valid() && other.Valid()
      ensures other == this && store.flags.selfMoveGuard ==>
                data == old(data) && ring.live == old(ring.live) && chain.free == old(chain.free) &&
                store.capacity == old(store.capacity)
      ensures other == this && !store.flags.selfMoveGuard ==> data == map[] && ring.live == [] && Capacity() == 0
      ensures other != this ==>
                data == old(other.data) && ring.live == old(other.ring.live) && chain.free == old(other.chain.free) &&
                store.capacity == old(other.store.capacity) && store.blocks == old(other.store.blocks) &&
                other.data == map[] && other.ring.live == [] && other.Capacity() == 0
    {
      if store.flags.selfMoveGuard && other == this {
        return;
      }
      Dtor();
      MoveFrom(other);
    }
  }
}
