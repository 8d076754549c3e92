/** The singly-linked free-list algorithm (Pool_list_base in src/pool.h)
    under each capacity policy: the static SPool_list with its scan for live
    slots, and the dynamic Pool_list and Pool_list_block (Pool_xxx over a
    node or block allocator). Slot ids start at 0; in a static pool slot i
    is node m_pool[i]. */
module ListPools {
  import opened PoolTypes
  import opened FreeChains
  import opened Storages

  class ListPool<T> {
    /** m_free_nodes and the `next` field of the free nodes. */
    const chain: FreeChain
    /** m_capacity (or N), the block chain, and the arena. */
    const store: Storage
    /** m_size. */
    var size: nat
    /** The object held by each live slot. */
    var data: map<nat, T>

    ghost function Repr(): set<object>
    {
      {this, chain, store}
    }

    ghost predicate Valid()
      reads Repr()
    {
      store.Valid() && chain.Valid() && store.first == 0 &&
      size == |data| &&
      store.capacity == |chain.free| + size &&
      (forall s :: s in chain.free ==> s !in data && s < store.top) &&
      (forall s :: s in data ==> s < store.top) &&
      (store.policy.Static? ==> forall s: nat :: s < store.top ==> s in data || s in chain.free)
    }

    /** SPool_list(): every node of m_pool is pushed in array order, so the
        last node is handed out first. */
    constructor Static(n: nat, flags: Flags)
      ensures Valid() && fresh(Repr())
      ensures store.policy == Policy.Static(n) && store.flags == flags
      ensures data == map[] && chain.free == Descending(0, n) && store.capacity == n
    {
      chain := new FreeChain();
      store := new Storage.Static(n, flags, 0);
      size := 0;
      data := map[];
      new;
      chain.PushArray(0, n);
      DescendingFacts(0, n);
    }

    /** Pool_list / Pool_list_block default construction: no node yet. */
    constructor Dynamic(policy: Policy, flags: Flags)
      requires policy.Node? || (policy.Block? && policy.n > 0)
      ensures Valid() && fresh(Repr())
      ensures store.policy == policy && store.flags == flags
      ensures data == map[] && chain.free == [] && store.capacity == 0
    {
      chain := new FreeChain();
      store := new Storage.Dynamic(policy, flags, 0);
      size := 0;
      data := map[];
    }

    /** size(): the number of live objects. */
    function Size(): (r: nat)
      reads Repr()
      requires Valid()
      ensures r == |data| && r <= Capacity()
    {
      size
    }

    /** capacity(): live objects plus free nodes (N for a static pool). */
    function Capacity(): (r: nat)
      reads Repr()
      requires Valid()
      ensures r == |chain.free| + |data|
      ensures store.policy.Static? ==> r == store.policy.n
    {
      store.capacity
    }

    /** empty(): no object is live. */
    function Empty(): (r: bool)
      reads Repr()
      requires Valid()
      ensures r <==> data == map[]
    {
      assert data == map[] <== |data| == 0;
      Size() == 0
    }

    /** full(): no node is free. */
    function Full(): (r: bool)
      reads Repr()
      requires Valid()
      ensures r <==> chain.free == []
    {
      Size() == Capacity()
    }

    /** create_obj: the head of the free chain receives the object and is
        unlinked; with no free node the result is null and nothing changes. */
    method CreateObj(x: T) returns (r: Option<nat>)
      requires Valid()
      modifies this, chain
      ensures Valid()
      ensures old(chain.free) == [] ==> r == None && data == old(data) && chain.free == []
      ensures old(chain.free) != [] ==>
                r == Some(old(chain.free)[0]) && old(chain.free)[0] !in old(data) &&
                data == old(data)[old(chain.free)[0] := x] && chain.free == old(chain.free)[1..]
    {
      var h := chain.Top();
      if h == Nil {
        return None;
      }
      var s := h as nat;
      chain.Pop();
      data := data[s := x];
      size := size + 1;
      r := Some(s);
    }

    /** destroy_obj: the object is destroyed and its node becomes the head
        of the free chain. */
    method DestroyObj(s: nat)
      requires Valid() && s in data
      modifies this, chain
      ensures Valid()
      ensures data == old(data) - {s} && chain.free == [s] + old(chain.free)
    {
      size := size - 1;
      data := data - {s};
      chain.Push(s);
    }

    /** destroy(obj): a null pointer is ignored. */
    method Destroy(p: Option<nat>)
      requires Valid() && (p.Some? ==> p.value in data)
      modifies this, chain
      ensures Valid()
      ensures p.None? ==> data == old(data) && chain.free == old(chain.free)
      ensures p.Some? ==> data == old(data) - {p.value} && chain.free == [p.value] + old(chain.free)
    {
      if p.Some? {
        DestroyObj(p.value);
      }
    }

    /** add_node of the pool's allocator: when the heap delivers, one node
        or one block of fresh nodes goes in front of the free chain and
        capacity grows by as many. */
    method AddNode(heapOk: bool)
      requires Valid() && !store.policy.Static?
      modifies store, chain
      ensures Valid() && store.top >= old(store.top)
      ensures store.top == old(store.top) + (if heapOk then store.Unit() else 0)
      ensures chain.free == Descending(old(store.top), store.top - old(store.top)) + old(chain.free)
      ensures store.capacity == old(store.capacity) + (store.top - old(store.top))
    {
      store.AddNode(chain, heapOk);
      DescendingFacts(old(store.top), store.top - old(store.top));
      forall s | s in chain.free
        ensures s !in data
      {
        if s !in old(chain.free) {
          DescendingRange(old(store.top), store.top - old(store.top), s);
        }
      }
    }

    /** create: a dynamic pool without POOL_FIXED_CAPACITY first grows by
        one step when full (heapOk says whether the heap delivers); then
        create_obj. */
    method Create(x: T, heapOk: bool) returns (r: Option<nat>)
      requires Valid()
      modifies Repr()
      ensures Valid() && Created(r, x, heapOk)
    {
      if !store.policy.Static? && !store.flags.fixedCapacity && Full() {
        AddNode(heapOk);
        DescendingFacts(old(store.top), store.top - old(store.top));
      }
      r := CreateObj(x);
    }

    /** Whether create grows the pool when it finds the free chain `free`. */
    ghost predicate Grows(free: seq<nat>)
    {
      !store.policy.Static? && !store.flags.fixedCapacity && free == []
    }

    /** What create did when it returned r: a node is handed out exactly
        when one was free or the pool grew; a free node is the head of the
        chain, and after growth it is the last fresh node, the other fresh
        ones staying on the chain; a null result changes nothing. */
    twostate predicate Created(new r: Option<nat>, new x: T, heapOk: bool)
      reads Repr()
    {
      (r.Some? <==> old(chain.free) != [] || (Grows(old(chain.free)) && heapOk)) &&
      (r.Some? ==> r.value !in old(data) && data == old(data)[r.value := x]) &&
      (r.None? ==> data == old(data) && chain.free == old(chain.free) && store.capacity == old(store.capacity)) &&
      (old(chain.free) != [] ==>
         r == Some(old(chain.free)[0]) && chain.free == old(chain.free)[1..] &&
         store.capacity == old(store.capacity)) &&
      (r.Some? && old(chain.free) == [] ==>
         store.Unit() > 0 && store.top == old(store.top) + store.Unit() && r == Some(store.top - 1) &&
         chain.free == Descending(old(store.top), store.Unit() - 1) &&
         store.capacity == old(store.capacity) + store.Unit())
    }

    /** pool::Pool::create: with POOL_CREATE_EXCEPTION a null result is
        raised as std::bad_alloc; otherwise create's result is passed on. */
    method CreateOrRaise(x: T, heapOk: bool) returns (res: Result<Option<nat>>)
      requires Valid()
      modifies Repr()
      ensures Valid()
      ensures res.Failure? <==>
                store.flags.createException && old(chain.free) == [] && !(Grows(old(chain.free)) && heapOk)
      ensures res.Success? ==> Created(res.value, x, heapOk)
      ensures res.Failure? ==> res.error == BadAlloc && Created(None, x, heapOk)
    {
      var r := Create(x, heapOk);
      res := CreateResult(store.flags.createException, r);
    }

    /** node_is_used: the free chain is walked from its head; a slot met on
        it is free. */
    method NodeIsUsed(s: nat) returns (r: bool)
      requires Valid()
      ensures r <==> s !in chain.free
    {
      var cur := chain.head;
      ghost var k := 0;
      while cur != Nil
        invariant 0 <= k <= |chain.free|
        invariant Chain(chain.link, cur, chain.free[k..])
        invariant s !in chain.free[..k]
        decreases |chain.free| - k
      {
        assert chain.free[k..][1..] == chain.free[k + 1..];
        assert chain.free[..k + 1] == chain.free[..k] + [cur as nat];
        if cur == s {
          return false;
        }
        cur := chain.link[cur as nat];
        k := k + 1;
      }
      assert chain.free[..k] == chain.free;
      return true;
    }

    /** SPool_list::for_each: the slots the function is applied to, in the
        order of m_pool: none when empty, every node when full, otherwise
        every node not on the free chain. */
    method ForEach() returns (visited: seq<nat>)
      requires Valid() && store.policy.Static?
      ensures visited == Occupied(data.Keys, store.policy.n)
    {
      var n := store.policy.n;
      visited := [];
      if Empty() {
        OccupiedSkip(data.Keys, 0, n);
        return;
      }
      var full := Full();
      var i := 0;
      while i < n
        invariant 0 <= i <= n
        invariant visited == Occupied(data.Keys, i)
      {
        var used := true;
        if !full {
          used := NodeIsUsed(i);
        }
        if used {
          visited := visited + [i];
        }
        i := i + 1;
      }
    }

    /** destroy_all. SPool_list: for_each with destroy_obj, which does
        nothing on an empty pool. The dynamic list pools do not know their
        live slots and do nothing. */
    method DestroyAll()
      requires Valid()
      modifies this, chain
      ensures Valid()
      ensures store.policy.Static? ==>
                data == map[] && chain.free == Reverse(Occupied(old(data).Keys, store.policy.n)) + old(chain.free)
      ensures !store.policy.Static? ==> data == old(data) && chain.free == old(chain.free)
    {
      if !store.policy.Static? {
        return;
      }
      if Empty() {
        OccupiedSkip(data.Keys, 0, store.policy.n);
        return;
      }
      DestroyEach(Full());
    }

    /** The scan of SPool_list::for_each applied with destroy_obj: every
        node when `full`, otherwise every node not on the free chain, in
        the order of m_pool, so the highest live slot ends at the head of
        the free chain. */
    method DestroyEach(full: bool)
      requires Valid() && store.policy.Static? && full == (chain.free == [])
      modifies this, chain
      ensures Valid() && data == map[]
      ensures chain.free == Reverse(Occupied(old(data).Keys, store.policy.n)) + old(chain.free)
    {
      var n := store.policy.n;
      ghost var keys := data.Keys;
      var i := 0;
      while i < n
        invariant 0 <= i <= n && Valid()
        invariant data.Keys == Unscanned(keys, i)
        invariant full ==> forall s: nat :: s < n ==> s in keys
        invariant chain.free == Freed(keys, i) + old(chain.free)
      {
        DestroyIfUsed(i, full, keys, old(chain.free));
        i := i + 1;
      }
      UnscannedEnd(keys, n);
      assert data.Keys == {};
      FreedReversesScan(keys, n);
    }

    /** One step of that scan: slot i is destroyed when the pool was full
        or node_is_used(i) holds, and left alone otherwise; `keys` are the
        slots live when the scan began and `rest` the chain it began with. */
    method DestroyIfUsed(i: nat, full: bool, ghost keys: set<nat>, ghost rest: seq<nat>)
      requires Valid() && store.policy.Static? && i < store.policy.n
      requires full ==> i in keys
      requires data.Keys == Unscanned(keys, i) && chain.free == Freed(keys, i) + rest
      modifies this, chain
      ensures Valid()
      ensures data.Keys == Unscanned(keys, i + 1) && chain.free == Freed(keys, i + 1) + rest
    {
      var used := true;
      if !full {
        used := NodeIsUsed(i);
      }
      DestroyScanned(i, used, keys, rest);
    }

    /** A scan that destroys with destroy_obj each slot it finds live
        passes slot i; `live` is what it found out about slot i. */
    method DestroyScanned(i: nat, live: bool, ghost keys: set<nat>, ghost rest: seq<nat>)
      requires Valid() && (live <==> i in keys)
      requires data.Keys == Unscanned(keys, i) && chain.free == Freed(keys, i) + rest
      modifies this, chain
      ensures Valid()
      ensures data.Keys == Unscanned(keys, i + 1) && chain.free == Freed(keys, i + 1) + rest
    {
      FreedStep(keys, i, rest);
      UnscannedStep(keys, i);
      if live {
        DestroyObj(i);
      }
    }

    /** reserve (dynamic pools). */
    method Reserve(newCap: nat, outcomes: seq<bool>) returns (r: Outcome)
      requires Valid() && !store.policy.Static?
      modifies Repr()
      ensures Valid() && data == old(data)
      ensures store.Grown(chain, newCap, outcomes)
      ensures r.Fail? <==> store.flags.reserveException && Capacity() < newCap
    {
      r := store.Reserve(chain, newCap, outcomes);
      DescendingFacts(old(store.top), store.top - old(store.top));
    }

    /** shrink_to_fit (dynamic pools): the node allocator releases free
        nodes down to max(size, newCap); the block allocator, on an empty
        pool only, releases whole blocks while capacity exceeds newCap and
        rebuilds the free chain from the blocks left. */
    method ShrinkToFit(newCap: nat)
      requires Valid() && !store.policy.Static?
      modifies Repr()
      ensures Valid() && data == old(data)
      ensures Capacity() <= old(Capacity())
      ensures store.policy.Node? ==>
                Capacity() == (if old(Capacity()) > Max(|data|, newCap) then Max(|data|, newCap) else old(Capacity())) &&
                chain.free == old(chain.free)[old(Capacity()) - Capacity()..]
      ensures store.policy.Block? && data != map[] ==>
                Capacity() == old(Capacity()) && chain.free == old(chain.free) && store.blocks == old(store.blocks)
      ensures store.policy.Block? && data == map[] && old(Capacity()) <= newCap ==> Capacity() == old(Capacity())
      ensures store.policy.Block? && data == map[] && old(Capacity()) > newCap ==>
                Capacity() <= newCap < Capacity() + store.policy.n
      ensures store.policy.Block? && data == map[] ==>
                |store.blocks| <= |old(store.blocks)| && store.blocks == old(store.blocks)[|old(store.blocks)| - |store.blocks|..] &&
                chain.free == Rebuilt(store.blocks, store.policy.n)
    {
      if store.policy.Node? {
        store.ShrinkNodes(chain, size, newCap);
        assert forall s :: s in chain.free ==> s in old(chain.free);
      } else {
        store.ShrinkBlocks(chain, size, newCap);
        if size != 0 {
          assert data != map[];
        }
      }
    }

    /** The destructor of a dynamic list pool (Pool_xxx::dtor): destroy_all,
        which does nothing here, then the allocator's: the node allocator
        releases the free nodes, the block allocator every block. Nodes of
        live objects are not released (they leak). */
    method Dtor()
      requires Valid() && !store.policy.Static?
      modifies Repr()
      ensures store.Valid() && data == old(data)
      ensures store.policy.Node? ==> chain.Valid() && chain.free == [] && store.capacity == |data|
      ensures store.policy.Block? ==> store.blocks == [] && store.capacity == 0
    {
      DestroyAll();
      store.Dtor(chain);
    }

    /** Pool_xxx::move_from (Pool_list_base::move_from with the allocator's):
        this pool takes the other's size, capacity, free chain, blocks and
        live objects; the other is left empty with capacity 0. When the two
        are the same pool, the result is that empty state. */
    method MoveFrom(other: ListPool<T>)
      requires store.Valid() && !store.policy.Static? && store.first == 0
      requires other == this || other.Valid()
      requires other.store.policy == store.policy
      requires other == this || Repr() !! other.Repr()
      modifies Repr(), other.Repr()
      ensures other.Valid() && other.data == map[] && other.Capacity() == 0
      ensures Valid()
      ensures other != this ==>
                data == old(other.data) && chain.free == old(other.chain.free) &&
                store.capacity == old(other.store.capacity) && store.blocks == old(other.store.blocks)
    {
      size := other.size;
      data := other.data;
      store.MoveFrom(other.store);
      chain.TakeFrom(other.chain);
      other.size := 0;
      other.data := map[];
    }

    /** Pool_xxx move constructor: a default-constructed pool, then
        move_from. */
    constructor Moved(other: ListPool<T>)
      requires other.Valid() && !other.store.policy.Static?
      modifies other.Repr()
      ensures Valid() && fresh(Repr())
      ensures store.policy == other.store.policy && store.flags == other.store.flags
      ensures data == old(other.data) && chain.free == old(other.chain.free)
      ensures store.capacity == old(other.store.capacity) && store.blocks == old(other.store.blocks)
      ensures other.Valid() && other.data == map[] && other.Capacity() == 0
    {
      chain := new FreeChain();
      store := new Storage.Dynamic(other.store.policy, other.store.flags, 0);
      size := 0;
      data := map[];
      new;
      MoveFrom(other);
    }

    /** move_assign_operator: with POOL_SELF_MOVE_GUARD a self-assignment
        returns at once; otherwise the destructor runs and move_from
        follows (on itself, this leaves the pool empty with capacity 0). */
    method MoveAssign(other: ListPool<T>)
      requires Valid() && !store.policy.Static?
      requires other.Valid() && other.store.policy == store.policy && other.store.flags == store.flags
      requires other == this || Repr() !! other.Repr()
      modifies Repr(), other.Repr()
      ensures Valid() && other.Valid()
      ensures other == this && store.flags.selfMoveGuard ==>
                data == old(data) && chain.free == old(chain.free) && store.capacity == old(store.capacity)
      ensures other == this && !store.flags.selfMoveGuard ==> data == map[] && Capacity() == 0
      ensures other != this ==>
                data == old(other.data) && chain.free == old(other.chain.free) &&
                store.capacity == old(other.store.capacity) && store.blocks == old(other.store.blocks) &&
                other.data == map[] && other.Capacity() == 0
    {
      if store.flags.selfMoveGuard && other == this {
        return;
      }
      Dtor();
      MoveFrom(other);
    }
  }
}
