/** Capacity policies and growth strategies (SPool_base, DPool_base,
    Pool_node_allocator and Pool_block_allocator in src/pool.h).

    Slots are ids of the pool's arena. A static pool owns the ids
    first .. first+N-1 (its node array); a dynamic pool takes fresh ids from
    `top` whenever the heap hands it a node or a block, and never reuses an
    id once the node or block holding it is released. */
module Storages {
  import opened PoolTypes
  import opened FreeChains

  datatype Policy =
    | Static(n: nat)  // SPool_base: N nodes held inline, capacity() is N
    | Node            // DPool_base + Pool_node_allocator: one heap node per step
    | Block(n: nat)   // DPool_base + Pool_block_allocator: a block of N nodes per step

  /** The free chain rebuilt by readd_blocks: each block of the chain, head
      first, pushes its nodes in array order. */
  function Rebuilt(blocks: seq<nat>, n: nat): (r: seq<nat>)
  {
    if blocks == [] then []
    else Descending(blocks[|blocks| - 1], n) + Rebuilt(blocks[..|blocks| - 1], n)
  }

  /** Block ranges of n ids that do not overlap, newest (highest) first, all
      within [lo, hi). */
  ghost predicate Apart(blocks: seq<nat>, n: nat, lo: nat, hi: nat)
  {
    (forall i :: 0 <= i < |blocks| ==> lo <= blocks[i] && blocks[i] + n <= hi) &&
    (forall i, j :: 0 <= i < j < |blocks| ==> blocks[j] + n <= blocks[i])
  }

  lemma {:induction false} RebuiltLength(blocks: seq<nat>, n: nat)
    ensures |Rebuilt(blocks, n)| == Slots(|blocks|, n)
  {
    if blocks != [] {
      RebuiltLength(blocks[..|blocks| - 1], n);
      DescendingFacts(blocks[|blocks| - 1], n);
    }
  }

  /** The capacity of `count` blocks of n nodes each. */
  function Slots(count: nat, n: nat): nat
  {
    if count == 0 then 0 else Slots(count - 1, n) + n
  }

  /** reserve's count of slots: after k + 1 growth attempts, each success
      has added u slots to the c0 there were. */
  lemma GrowthCount(outcomes: seq<bool>, c0: nat, k: nat, c1: nat, c2: nat, u: nat, ok: bool)
    requires ok == Allocates(outcomes, k) && c2 == c1 + (if ok then u else 0)
    requires c1 == c0 + Slots(Successes(outcomes, k), u)
    ensures c2 == c0 + Slots(Successes(outcomes, k + 1), u)
  {
  }

  /** The first ids of the blocks added while top went from lo to hi, one
      block of n ids at a time: the newest (highest) first. */
  function Stacked(lo: nat, hi: nat, n: nat): seq<nat>
    decreases hi
  {
    if n == 0 || hi < lo + n then [] else [hi - n] + Stacked(lo, hi - n, n)
  }

  /** One growth step of the block allocator: a delivered block, taken at
      the top t1, heads the stack of blocks added since t0. */
  lemma StackedStep(n: nat, t0: nat, t1: nat, t2: nat, b0: seq<nat>, b1: seq<nat>, b2: seq<nat>, ok: bool)
    requires n > 0 && t0 <= t1 && b1 == Stacked(t0, t1, n) + b0
    requires t2 == t1 + (if ok then n else 0) && b2 == (if ok then [t1] + b1 else b1)
    ensures b2 == Stacked(t0, t2, n) + b0
  {
  }

  /** The state of reserve's loop after k growth attempts, started from
      capacity c0, top t0, free chain f0 and blocks b0, each success adding
      n slots: capacity cap, top t, free chain free and blocks bs. */
  ghost predicate Progress(n: nat, block: bool, c0: nat, t0: nat, f0: seq<nat>, b0: seq<nat>,
                           outcomes: seq<bool>, newCap: nat, k: nat,
                           cap: nat, t: nat, free: seq<nat>, bs: seq<nat>)
  {
    t0 <= t && cap == c0 + (t - t0) &&
    free == Descending(t0, t - t0) + f0 &&
    (block ==> bs == Stacked(t0, t, n) + b0) &&
    (!block ==> bs == b0) &&
    (t > t0 ==> c0 < newCap && cap < newCap + n) &&
    cap == c0 + Slots(Successes(outcomes, k), n)
  }

  /** Attempt k of reserve's loop, made while capacity c1 is below newCap,
      keeps the loop's state: a delivered node or block (t1 up to t2) heads
      the free chain and, for a block, the block chain. */
  lemma ProgressStep(n: nat, block: bool, c0: nat, t0: nat, f0: seq<nat>, b0: seq<nat>,
                     outcomes: seq<bool>, newCap: nat, k: nat,
                     c1: nat, t1: nat, f1: seq<nat>, b1: seq<nat>,
                     c2: nat, t2: nat, f2: seq<nat>, b2: seq<nat>)
    requires n > 0 && c1 < newCap
    requires Progress(n, block, c0, t0, f0, b0, outcomes, newCap, k, c1, t1, f1, b1)
    requires t2 == t1 + (if Allocates(outcomes, k) then n else 0) && c2 == c1 + (t2 - t1)
    requires f2 == Descending(t1, t2 - t1) + f1
    requires b2 == (if Allocates(outcomes, k) && block then [t1] + b1 else b1)
    ensures Progress(n, block, c0, t0, f0, b0, outcomes, newCap, k + 1, c2, t2, f2, b2)
  {
    GrowthJoin(t0, t1, t2, f0, f1, f2);
    if block {
      StackedStep(n, t0, t1, t2, b0, b1, b2, Allocates(outcomes, k));
    }
    GrowthCount(outcomes, c0, k, c1, c2, n, Allocates(outcomes, k));
  }

  /** What reserve's loop did to capacity c0, top t0, free chain f0 and
      blocks b0, each growth step adding n slots, leaving capacity cap, top t,
      free chain free and blocks bs: the fresh nodes head the free chain,
      each new block heads the block chain, and capacity grew by as many
      slots. It grew only when it was below newCap, and then stayed below
      newCap + n; when it is still short of newCap, every one of the
      newCap - c0 attempts was made and each success added n slots. */
  ghost predicate Growth(n: nat, block: bool, c0: nat, t0: nat, f0: seq<nat>, b0: seq<nat>,
                         outcomes: seq<bool>, newCap: nat, cap: nat, t: nat, free: seq<nat>, bs: seq<nat>)
  {
    t >= t0 && cap == c0 + (t - t0) &&
    free == Descending(t0, t - t0) + f0 &&
    (block ==> bs == Stacked(t0, t, n) + b0) &&
    (!block ==> bs == b0) &&
    (c0 >= newCap ==> t == t0) &&
    (t > t0 ==> cap < newCap + n) &&
    (c0 < newCap && cap < newCap ==> cap == c0 + Slots(Successes(outcomes, newCap - c0), n)) &&
    (c0 < newCap && AllAllocate(outcomes, newCap - c0) ==> newCap <= cap)
  }

  /** Before the first attempt nothing has changed. */
  lemma ProgressStart(n: nat, block: bool, c0: nat, t0: nat, f0: seq<nat>, b0: seq<nat>,
                      outcomes: seq<bool>, newCap: nat)
    ensures Progress(n, block, c0, t0, f0, b0, outcomes, newCap, 0, c0, t0, f0, b0)
  {
    assert Descending(t0, 0) + f0 == f0;
  }

  /** When reserve's loop stops after i - c0 attempts, its state is the
      growth it promises: a capacity still short of newCap counts every one
      of the newCap - c0 attempts, so it is reached when they all succeed. */
  lemma ProgressDone(n: nat, block: bool, c0: nat, t0: nat, f0: seq<nat>, b0: seq<nat>,
                     outcomes: seq<bool>, newCap: nat, i: nat,
                     cap: nat, t: nat, free: seq<nat>, bs: seq<nat>)
    requires n > 0 && c0 <= i && (c0 < newCap ==> i <= newCap) && !(cap < newCap && i < newCap)
    requires Progress(n, block, c0, t0, f0, b0, outcomes, newCap, i - c0, cap, t, free, bs)
    ensures Growth(n, block, c0, t0, f0, b0, outcomes, newCap, cap, t, free, bs)
  {
    if c0 < newCap && AllAllocate(outcomes, newCap - c0) && cap < newCap {
      AllSucceed(outcomes, newCap - c0);
      SlotsAtLeast(newCap - c0, n);
    }
  }

  lemma {:induction false} SlotsAtLeast(count: nat, n: nat)
    requires n > 0
    ensures Slots(count, n) >= count
  {
    if count > 0 {
      SlotsAtLeast(count - 1, n);
    }
  }

  /** The rebuilt chain holds ids of the blocks only. */
  lemma {:induction false} RebuiltBounds(blocks: seq<nat>, n: nat, lo: nat, hi: nat)
    requires forall i :: 0 <= i < |blocks| ==> lo <= blocks[i] && blocks[i] + n <= hi
    ensures forall x :: x in Rebuilt(blocks, n) ==> lo <= x < hi
  {
    if blocks != [] {
      var last := |blocks| - 1;
      RebuiltBounds(blocks[..last], n, lo, hi);
      DescendingFacts(blocks[last], n);
    }
  }

  /** Non-overlapping blocks give a chain without repeats. */
  lemma {:induction false} RebuiltDistinct(blocks: seq<nat>, n: nat, lo: nat, hi: nat)
    requires Apart(blocks, n, lo, hi)
    ensures Distinct(Rebuilt(blocks, n))
  {
    if blocks != [] {
      var last := |blocks| - 1;
      var init := blocks[..last];
      assert Apart(init, n, lo, hi);
      RebuiltDistinct(init, n, lo, hi);
      DescendingFacts(blocks[last], n);
      RebuiltBounds(init, n, blocks[last] + n, hi);
      DistinctJoin(Descending(blocks[last], n), Rebuilt(init, n));
    }
  }

  class Storage {
    const policy: Policy
    const flags: Flags
    /** The lowest id of the arena. */
    const first: nat
    /** m_capacity (N for a static pool). */
    var capacity: nat
    /** m_blocks: the first id of each block, head of the chain first. */
    var blocks: seq<nat>
    /** Every id handed out so far is below top. */
    var top: nat

    ghost predicate Valid()
      reads this
    {
      first <= top &&
      match policy
      case Static(n) => capacity == n && blocks == [] && top == first + n
      case Node => blocks == []
      case Block(n) => n > 0 && capacity == Slots(|blocks|, n) && Apart(blocks, n, first, top)
    }

    /** The number of slots one successful growth step adds. */
    function Unit(): (u: nat)
      ensures policy.Node? ==> u == 1
      ensures policy.Block? ==> u == policy.n
    {
      match policy
      case Static(_) => 1
      case Node => 1
      case Block(n) => n
    }

    /** SPool_base: the node array m_pool of N slots. */
    constructor Static(n: nat, flags: Flags, first: nat)
      ensures Valid() && policy == Policy.Static(n) && this.flags == flags && this.first == first
      ensures capacity == n && blocks == [] && top == first + n
    {
      policy := Policy.Static(n);
      this.flags := flags;
      this.first := first;
      capacity := n;
      blocks := [];
      top := first + n;
    }

    /** DPool_base with either allocator: no node yet. A block size of 0 is
        not modelled. */
    constructor Dynamic(policy: Policy, flags: Flags, first: nat)
      requires policy.Node? || (policy.Block? && policy.n > 0)
      ensures Valid() && this.policy == policy && this.flags == flags && this.first == first
      ensures capacity == 0 && blocks == [] && top == first
    {
      this.policy := policy;
      this.flags := flags;
      this.first := first;
      capacity := 0;
      blocks := [];
      top := first;
    }

    /** add_node of either allocator: when the heap delivers (`ok`), the new
        node, or every node of the new block, goes onto the free chain and
        capacity grows by as many slots. */
    method AddNode(chain: FreeChain, ok: bool)
      requires Valid() && chain.Valid() && !policy.Static?
      requires forall s :: s in chain.free ==> s < top
      modifies this, chain
      ensures Valid() && chain.Valid()
      ensures top == old(top) + (if ok then Unit() else 0)
      ensures capacity == old(capacity) + (top - old(top))
      ensures chain.free == Descending(old(top), top - old(top)) + old(chain.free)
      ensures blocks == if ok && policy.Block? then [old(top)] + old(blocks) else old(blocks)
      ensures forall s :: s in chain.free ==> s < top
    {
      if !ok {
        return;
      }
      match policy {
        case Node =>
          assert Descending(top, 1) == [top];
          chain.Push(top);
          top := top + 1;
          capacity := capacity + 1;
        case Block(n) =>
          DescendingFacts(top, n);
          chain.PushArray(top, n);
          blocks := [top] + blocks;
          top := top + n;
          capacity := capacity + n;
      }
    }

    /** del_node of either allocator: the node allocator releases the node at
        the head of the free chain; the block allocator releases the head
        block and leaves the free chain to the caller. */
    method DelNode(chain: FreeChain)
      requires Valid() && chain.Valid() && !policy.Static?
      requires policy.Node? ==> chain.free != [] && capacity > 0
      requires policy.Block? ==> blocks != []
      modifies this, chain
      ensures Valid() && chain.Valid() && top == old(top)
      ensures policy.Node? ==> capacity == old(capacity) - 1 && chain.free == old(chain.free)[1..]
      ensures policy.Block? ==> capacity == old(capacity) - policy.n
      ensures policy.Block? ==> blocks == old(blocks)[1..] && chain.free == old(chain.free)
    {
      match policy {
        case Node =>
          capacity := capacity - 1;
          chain.Pop();
        case Block(n) =>
          assert Apart(blocks[1..], n, first, top);
          blocks := blocks[1..];
          capacity := capacity - n;
      }
    }

    /** readd_blocks: the free chain is reset and every node of every block
        is pushed again, block by block along the chain. */
    method ReaddBlocks(chain: FreeChain)
      requires Valid() && chain.Valid() && policy.Block?
      modifies chain
      ensures chain.Valid() && chain.free == Rebuilt(blocks, policy.n)
    {
      var n := policy.n;
      chain.Reset();
      var k := 0;
      while k < |blocks|
        invariant 0 <= k <= |blocks|
        invariant chain.Valid() && chain.free == Rebuilt(blocks[..k], n)
      {
        assert blocks[..k + 1][..k] == blocks[..k];
        RebuiltBounds(blocks[..k], n, blocks[k] + n, top);
        chain.PushArray(blocks[k], n);
        k := k + 1;
      }
      assert blocks[..k] == blocks;
    }

    /** What reserve's loop did, from the state before it (see Growth). */
    twostate predicate Grown(chain: FreeChain, newCap: nat, outcomes: seq<bool>)
      reads this, chain
    {
      Growth(Unit(), policy.Block?, old(capacity), old(top), old(chain.free), old(blocks), outcomes, newCap,
             capacity, top, chain.free, blocks)
    }

    /** The loop of reserve: up to new_cap - capacity growth steps are tried
        while capacity is below new_cap; outcomes[j] says whether the heap
        satisfies the j-th. */
    method Grow(chain: FreeChain, newCap: nat, outcomes: seq<bool>)
      requires Valid() && chain.Valid() && !policy.Static?
      requires forall s :: s in chain.free ==> s < top
      modifies this, chain
      ensures Valid() && chain.Valid() && Grown(chain, newCap, outcomes)
      ensures forall s :: s in chain.free ==> s < top
    {
      var c0 := capacity;
      var i := capacity;
      ProgressStart(Unit(), policy.Block?, c0, top, chain.free, blocks, outcomes, newCap);
      while capacity < newCap && i < newCap
        invariant Valid() && chain.Valid()
        invariant forall s :: s in chain.free ==> s < top
        invariant c0 <= i && (c0 < newCap ==> i <= newCap)
        invariant Progress(Unit(), policy.Block?, c0, old(top), old(chain.free), old(blocks), outcomes, newCap,
                           i - c0, capacity, top, chain.free, blocks)
        decreases newCap - i
      {
        GrowStep(chain, newCap, outcomes, c0, i, old(top), old(chain.free), old(blocks));
        i := i + 1;
      }
      ProgressDone(Unit(), policy.Block?, c0, old(top), old(chain.free), old(blocks), outcomes, newCap,
                   i, capacity, top, chain.free, blocks);
    }

    /** One growth step of reserve's loop, started from capacity c0, top t0,
        free chain f0 and blocks b0; outcomes[i - c0] says whether the heap
        satisfies it. */
    method GrowStep(chain: FreeChain, newCap: nat, outcomes: seq<bool>, c0: nat, i: nat,
                    ghost t0: nat, ghost f0: seq<nat>, ghost b0: seq<nat>)
      requires Valid() && chain.Valid() && !policy.Static?
      requires capacity < newCap && c0 <= i < newCap
      requires forall s :: s in chain.free ==> s < top
      requires Progress(Unit(), policy.Block?, c0, t0, f0, b0, outcomes, newCap, i - c0,
                        capacity, top, chain.free, blocks)
      modifies this, chain
      ensures Valid() && chain.Valid()
      ensures forall s :: s in chain.free ==> s < top
      ensures Progress(Unit(), policy.Block?, c0, t0, f0, b0, outcomes, newCap, i + 1 - c0,
                       capacity, top, chain.free, blocks)
    {
      ghost var t1, c1, f1, b1 := top, capacity, chain.free, blocks;
      var ok := Allocates(outcomes, i - c0);
      AddNode(chain, ok);
      ProgressStep(Unit(), policy.Block?, c0, t0, f0, b0, outcomes, newCap, i - c0,
                   c1, t1, f1, b1, capacity, top, chain.free, blocks);
    }

    /** reserve: the growth loop, then with POOL_RESERVE_EXCEPTION a
        capacity still short of new_cap raises. */
    method Reserve(chain: FreeChain, newCap: nat, outcomes: seq<bool>) returns (r: Outcome)
      requires Valid() && chain.Valid() && !policy.Static?
      requires forall s :: s in chain.free ==> s < top
      modifies this, chain
      ensures Valid() && chain.Valid() && Grown(chain, newCap, outcomes)
      ensures forall s :: s in chain.free ==> s < top
      ensures r.Fail? <==> flags.reserveException && capacity < newCap
    {
      Grow(chain, newCap, outcomes);
      if flags.reserveException && capacity < newCap {
        r := Fail(BadAlloc);
      } else {
        r := Pass;
      }
    }

    /** shrink_to_fit of the node allocator: free nodes are released from
        the head of the free chain while capacity exceeds max(size, newCap). */
    method ShrinkNodes(chain: FreeChain, size: nat, newCap: nat)
      requires Valid() && chain.Valid() && policy.Node?
      requires capacity == |chain.free| + size
      requires forall s :: s in chain.free ==> first <= s < top
      modifies this, chain
      ensures Valid() && chain.Valid() && top == old(top)
      ensures capacity == |chain.free| + size
      ensures forall s :: s in chain.free ==> first <= s < top
      ensures capacity == (if old(capacity) > Max(size, newCap) then Max(size, newCap) else old(capacity))
      ensures chain.free == old(chain.free)[old(capacity) - capacity..]
    {
      var target := Max(size, newCap);
      var i := capacity;
      while capacity > target && i > target
        invariant Valid() && chain.Valid() && top == old(top)
        invariant capacity == |chain.free| + size && capacity <= old(capacity) && i >= capacity
        invariant chain.free == old(chain.free)[old(capacity) - capacity..]
        invariant old(capacity) > target ==> capacity >= target
        invariant old(capacity) <= target ==> capacity == old(capacity)
        invariant forall s :: s in chain.free ==> first <= s < top
      {
        ghost var f := chain.free;
        DelNode(chain);
        assert forall s :: s in chain.free ==> s in f;
        i := i - 1;
      }
    }

    /** shrink_to_fit of the block allocator: only on an empty pool, head
        blocks are released while capacity exceeds newCap (so capacity can
        end below newCap), then the free chain is rebuilt from the blocks
        that remain. */
    method ShrinkBlocks(chain: FreeChain, size: nat, newCap: nat)
      requires Valid() && chain.Valid() && policy.Block?
      requires capacity == |chain.free| + size
      requires forall s :: s in chain.free ==> first <= s < top
      modifies this, chain
      ensures Valid() && chain.Valid() && top == old(top)
      ensures capacity == |chain.free| + size
      ensures forall s :: s in chain.free ==> first <= s < top
      ensures size != 0 ==> capacity == old(capacity) && blocks == old(blocks) && chain.free == old(chain.free)
      ensures size == 0 && old(capacity) <= newCap ==> capacity == old(capacity)
      ensures size == 0 && old(capacity) > newCap ==> capacity <= newCap < capacity + policy.n
      ensures size == 0 ==> |blocks| <= |old(blocks)| && blocks == old(blocks)[|old(blocks)| - |blocks|..]
      ensures size == 0 ==> chain.free == Rebuilt(blocks, policy.n)
    {
      if size != 0 {
        return;
      }
      var n := policy.n;
      var i := capacity;
      while capacity > newCap && i > newCap
        invariant Valid() && chain.Valid() && top == old(top) && i >= capacity
        invariant |blocks| <= |old(blocks)|
        invariant blocks == old(blocks)[|old(blocks)| - |blocks|..]
        invariant old(capacity) <= newCap ==> capacity == old(capacity)
        invariant old(capacity) > newCap ==> newCap < capacity + n
      {
        ghost var b1 := blocks;
        DelNode(chain);
        assert blocks == old(blocks)[|old(blocks)| - |blocks|..] by {
          assert blocks == b1[1..];
        }
        i := i - 1;
      }
      ReaddBlocks(chain);
      RebuiltLength(blocks, n);
      RebuiltBounds(blocks, n, first, top);
    }

    /** The allocator half of the destructor: the node allocator releases
        every free node; the block allocator releases every block (the free
        chain is left dangling). */
    method Dtor(chain: FreeChain)
      requires Valid() && chain.Valid() && !policy.Static?
      requires capacity >= |chain.free|
      modifies this, chain
      ensures Valid() && chain.Valid() && top == old(top)
      ensures policy.Node? ==> chain.free == [] && capacity == old(capacity) - |old(chain.free)|
      ensures policy.Block? ==> blocks == [] && capacity == 0 && chain.free == old(chain.free)
    {
      match policy {
        case Node =>
          while chain.Top() != Nil
            invariant Valid() && chain.Valid() && top == old(top)
            invariant |chain.free| <= |old(chain.free)|
            invariant capacity == old(capacity) - (|old(chain.free)| - |chain.free|)
            invariant capacity >= |chain.free|
            decreases |chain.free|
          {
            DelNode(chain);
          }
        case Block(n) =>
          while blocks != []
            invariant Valid() && chain.Valid() && top == old(top)
            invariant chain.free == old(chain.free)
            decreases |blocks|
          {
            DelNode(chain);
          }
      }
    }

    /** The capacity and block chain of a move: the target takes them (with
        the arena they index) and the source keeps none; a pool moved into
        itself ends with neither. */
    method MoveFrom(other: Storage)
      requires Valid() && other.Valid()
      requires !policy.Static? && other.policy == policy && other.first == first
      modifies this, other
      ensures Valid() && other.Valid()
      ensures other.capacity == 0 && other.blocks == [] && other.top == old(other.top)
      ensures other != this ==>
                capacity == old(other.capacity) && blocks == old(other.blocks) && top == old(other.top)
    {
      capacity := other.capacity;
      blocks := other.blocks;
      top := other.top;
      other.capacity := 0;
      other.blocks := [];
    }
  }

  function Max(a: nat, b: nat): nat
  {
    if a < b then b else a
  }
}
