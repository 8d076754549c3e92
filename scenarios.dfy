/** Client-level consequences of the pool contracts: the sequences of calls
    the pool's tests make (fill, exhaust, free, reuse) and the round trips
    between create and destroy. */
module Scenarios {
  import opened PoolTypes
  import opened Rings
  import opened Storages
  import opened ListPools
  import opened BitsetPools
  import opened DListPools

  /** size(), capacity(), empty() and full() of a list pool. */
  function Gauges<T>(pool: ListPool<T>): (g: (nat, nat, bool, bool))
    reads pool.Repr()
    requires pool.Valid()
    ensures g.0 <= g.1 && (g.2 <==> g.0 == 0) && (g.3 <==> g.0 == g.1)
  {
    (pool.Size(), pool.Capacity(), pool.Empty(), pool.Full())
  }

  /** The first half of the sizes test: a static list pool of two nodes
      with POOL_FIXED_CAPACITY filled through the public create, the third
      create yielding null and changing nothing. */
  method StaticListFilled() returns (pool: ListPool<int>, i: Result<Option<nat>>, i2: Result<Option<nat>>,
                                     i3: Result<Option<nat>>, gauges: seq<(nat, nat, bool, bool)>)
    ensures fresh(pool.Repr()) && pool.Valid() && pool.store.policy.Static?
    ensures pool.data.Keys == {0, 1} && pool.store.capacity == 2
    ensures i == Success(Some(1)) && i2 == Success(Some(0)) && i3 == Success(None)
    ensures gauges == [(0, 2, true, false), (1, 2, false, false), (2, 2, false, true), (2, 2, false, true)]
  {
    pool := new ListPool<int>.Static(2, Flags(true, false, false, false));
    DescendingStep(0, 0);
    DescendingStep(0, 1);
    gauges := [Gauges(pool)];
    i := pool.CreateOrRaise(10, true);
    gauges := gauges + [Gauges(pool)];
    i2 := pool.CreateOrRaise(11, true);
    gauges := gauges + [Gauges(pool)];
    i3 := pool.CreateOrRaise(12, true);
    gauges := gauges + [Gauges(pool)];
  }

  /** size(), capacity(), empty() and full() of a static list pool of two
      nodes with POOL_FIXED_CAPACITY, read after every step of: create,
      create, create when full (null), destroy, destroy, destroy(nullptr). */
  method StaticListSizes() returns (i: Result<Option<nat>>, i2: Result<Option<nat>>, i3: Result<Option<nat>>,
                                    gauges: seq<(nat, nat, bool, bool)>)
    ensures i == Success(Some(1)) && i2 == Success(Some(0)) && i3 == Success(None)
    ensures gauges == [(0, 2, true, false), (1, 2, false, false), (2, 2, false, true), (2, 2, false, true),
                       (1, 2, false, false), (0, 2, true, false), (0, 2, true, false)]
  {
    var pool;
    pool, i, i2, i3, gauges := StaticListFilled();
    var g0 := gauges;
    pool.Destroy(i.value);
    assert pool.data.Keys == {0} && |pool.data| == 1;
    var g1 := Gauges(pool);
    assert g1 == (1, 2, false, false);
    pool.Destroy(i2.value);
    assert pool.data == map[];
    var g2 := Gauges(pool);
    pool.Destroy(None);
    var g3 := Gauges(pool);
    gauges := g0 + [g1, g2, g3];
  }

  /** The public create after a destroy hands out the node freed last
      (LIFO), on a static list pool of two nodes. */
  method ListReusesLastFreed() returns (a: Result<Option<nat>>, b: Result<Option<nat>>, again: Result<Option<nat>>)
    ensures a == Success(Some(1)) && b == Success(Some(0)) && again == a
  {
    var pool := new ListPool<int>.Static(2, Flags(false, false, false, false));
    DescendingStep(0, 0);
    DescendingStep(0, 1);
    a := pool.CreateOrRaise(10, true);
    b := pool.CreateOrRaise(11, true);
    pool.Destroy(a.value);
    again := pool.CreateOrRaise(13, true);
  }

  /** A fixed-capacity dynamic pool never grows: with no node reserved,
      create yields null however the heap would answer. */
  method FixedCapacityNeverGrows() returns (r: Option<nat>)
    ensures r == None
  {
    var pool := new ListPool<int>.Dynamic(Policy.Node, Flags(true, false, false, false));
    r := pool.Create(1, true);
  }

  /** With POOL_CREATE_EXCEPTION a static pool of one node hands it out,
      then, full, raises bad_alloc instead of yielding null. */
  method CreateExceptionRaises() returns (first: Result<Option<nat>>, second: Result<Option<nat>>)
    ensures first == Success(Some(0)) && second == Failure(BadAlloc)
  {
    var pool := new ListPool<int>.Static(1, Flags(false, false, true, false));
    DescendingStep(0, 0);
    first := pool.CreateOrRaise(1, true);
    second := pool.CreateOrRaise(2, true);
  }

  /** A dynamic list pool that is full grows by one node on create, so the
      object lands in the node just allocated. */
  method DynamicGrowsOnCreate() returns (r: Option<nat>)
    ensures r.Some?
  {
    var pool := new ListPool<int>.Dynamic(Policy.Node, Flags(false, false, false, false));
    r := pool.Create(1, true);
  }

  /** Three creates on a static dlist pool of three nodes: the used list
      holds the nodes in creation order, which is the free chain's order. */
  method DListFilled() returns (pool: DListPool<int>)
    ensures fresh(pool.Repr()) && pool.Valid() && pool.ring.live == [3, 2, 1]
  {
    pool := new DListPool<int>.Static(3, Flags(false, false, false, false));
    DescendingFacts(1, 3);
    var a := pool.CreateObj(1);
    var b := pool.CreateObj(2);
    var c := pool.CreateObj(3);
  }

  /** The dlist pool keeps creation order on its used list: for_each visits
      the objects in the order they were created, and destroying the middle
      one closes the gap. */
  method DListKeepsCreationOrder() returns (before: seq<nat>, after: seq<nat>)
    ensures before == [3, 2, 1] && after == [3, 1]
  {
    var pool := DListFilled();
    before := pool.ForEach();
    pool.Destroy(Some(2));
    after := pool.ForEach();
    assert Erase(before, 2) == [3] + Erase([2, 1], 2);
  }

  /** Three creates on a static bitset pool of three slots, then the middle
      one destroyed: slots 0 and 2 are live. */
  method BitsetFilled() returns (pool: BitsetPool<int>)
    ensures fresh(pool.Repr()) && pool.Valid() && pool.base.data.Keys == {0, 2} && pool.used.Length == 3
  {
    pool := new BitsetPool<int>(3, Flags(false, false, false, false));
    DescendingFacts(0, 3);
    var a := pool.Create(1);
    var b := pool.Create(2);
    var c := pool.Create(3);
    pool.Destroy(b);
  }

  /** A bitset pool iterates its live slots in ascending index order:
      with slots 0 and 2 of three live, begin is 0, next is 2, and the next
      after that is end. */
  method BitsetIteration() returns (first: nat, second: nat, last: nat)
    ensures first == 0 && second == 2 && last == 3
  {
    var pool := BitsetFilled();
    ghost var keys := pool.base.data.Keys;
    assert FirstLive(keys, 3) == 0;
    assert NextLive(keys, 0, 3) == 2 by {
      assert NextLive(keys, 0, 3) == NextLive(keys, 1, 3);
    }
    assert NextLive(keys, 2, 3) == 3 by {
      assert NextLive(keys, 2, 3) == NextLive(keys, 3, 3);
    }
    first := pool.Begin();
    second := pool.Next(first);
    last := pool.Next(second);
  }

  /** begin is end once destroy_all has emptied a bitset pool. */
  method BitsetEmptied() returns (emptied: bool)
    ensures emptied
  {
    var pool := BitsetFilled();
    pool.DestroyAll();
    var e := pool.Begin();
    BeginIsEnd(pool.base.data.Keys, 3);
    emptied := e == pool.End();
  }

  /** destroy undoes create on a list pool: the free chain and the objects
      are as before. */
  method ListCreateThenDestroy<T>(pool: ListPool<T>, x: T)
    requires pool.Valid() && !pool.Full()
    modifies pool.Repr()
    ensures pool.Valid() && pool.data == old(pool.data) && pool.chain.free == old(pool.chain.free)
  {
    var r := pool.CreateObj(x);
    pool.Destroy(r);
    assert pool.chain.free == [old(pool.chain.free)[0]] + old(pool.chain.free)[1..];
  }

  /** create after destroy reuses the node just freed (LIFO), on a dlist
      pool: the object moves to the back of the used list. */
  method DListDestroyThenCreate<T>(pool: DListPool<T>, s: nat, x: T) returns (r: Option<nat>)
    requires pool.Valid() && s in pool.data
    modifies pool.Repr()
    ensures pool.Valid() && r == Some(s) && pool.chain.free == old(pool.chain.free)
    ensures pool.ring.live == Erase(old(pool.ring.live), s) + [s] && pool.data == old(pool.data)[s := x]
  {
    pool.DestroyObj(s);
    r := pool.Create(x, true);
    assert pool.chain.free == ([s] + old(pool.chain.free))[1..];
  }

  /** destroy_all is idempotent: a second call changes neither the objects
      nor the free chain. */
  method DListDestroyAllTwice<T>(pool: DListPool<T>)
    requires pool.Valid()
    modifies pool.Repr()
    ensures pool.Valid() && pool.data == map[] && pool.ring.live == []
    ensures pool.chain.free == Reverse(old(pool.ring.live)) + old(pool.chain.free)
  {
    pool.DestroyAll();
    ghost var once := pool.chain.free;
    pool.DestroyAll();
    assert pool.chain.free == Reverse([]) + once;
  }
}
