/** The static pool on a free list plus a per-slot occupancy bitset
    (SPool_list_bitset in src/pool.h) and its index-based bidirectional
    iterator. Slot i is node m_pool[i]; iterator position N is end(). */
module BitsetPools {
  import opened PoolTypes
  import opened FreeChains
  import opened Storages
  import opened ListPools

  /** Where the iterator's next() lands from `cur`: the first occupied slot
      above cur, or n (end) when there is none; end stays at end. */
  function NextLive(keys: set<nat>, cur: nat, n: nat): (r: nat)
    requires cur <= n
    ensures cur <= r <= n
    decreases n - cur
  {
    if cur == n then n
    else if cur + 1 < n && cur + 1 in keys then cur + 1
    else NextLive(keys, cur + 1, n)
  }

  /** Where the walk of prev() lands from `cur`: the last occupied slot
      below cur, or n (end) when there is none. */
  function PrevLive(keys: set<nat>, cur: nat, n: nat): nat
    requires cur <= n
  {
    if cur == 0 then n
    else if cur - 1 in keys then cur - 1
    else PrevLive(keys, cur - 1, n)
  }

  /** Where set_first_pos() lands: slot 0 when occupied, otherwise next()
      from 0; n on an empty array. */
  function FirstLive(keys: set<nat>, n: nat): (r: nat)
    ensures r <= n
  {
    if n == 0 then n
    else if 0 in keys then 0
    else NextLive(keys, 0, n)
  }

  /** next() moves to the least occupied slot above cur, or to end. */
  lemma {:induction false} NextLiveSpec(keys: set<nat>, cur: nat, n: nat)
    requires cur < n
    ensures cur < NextLive(keys, cur, n) <= n
    ensures NextLive(keys, cur, n) < n ==> NextLive(keys, cur, n) in keys
    ensures forall j :: cur < j < NextLive(keys, cur, n) ==> j !in keys
    decreases n - cur
  {
    if !(cur + 1 < n && cur + 1 in keys) && cur + 1 < n {
      NextLiveSpec(keys, cur + 1, n);
    }
  }

  /** The walk of prev() moves to the greatest occupied slot below cur, or
      to end. */
  lemma {:induction false} PrevLiveSpec(keys: set<nat>, cur: nat, n: nat)
    requires cur <= n
    ensures PrevLive(keys, cur, n) < cur || PrevLive(keys, cur, n) == n
    ensures PrevLive(keys, cur, n) < cur ==> PrevLive(keys, cur, n) in keys
    ensures PrevLive(keys, cur, n) == n ==> forall j :: j < cur ==> j !in keys
    ensures PrevLive(keys, cur, n) < cur ==> forall j :: PrevLive(keys, cur, n) < j < cur ==> j !in keys
  {
    if cur > 0 && cur - 1 !in keys {
      PrevLiveSpec(keys, cur - 1, n);
    }
  }

  /** set_first_pos() lands on the least occupied slot, or on end. */
  lemma FirstLiveSpec(keys: set<nat>, n: nat)
    ensures FirstLive(keys, n) <= n
    ensures FirstLive(keys, n) < n ==> FirstLive(keys, n) in keys
    ensures forall j :: j < FirstLive(keys, n) ==> j !in keys
  {
    if n > 0 && 0 !in keys {
      NextLiveSpec(keys, 0, n);
    }
  }

  /** begin() == end() exactly when no slot is occupied. */
  lemma BeginIsEnd(keys: set<nat>, n: nat)
    requires forall j :: j in keys ==> j < n
    ensures FirstLive(keys, n) == n <==> keys == {}
  {
    FirstLiveSpec(keys, n);
    if keys != {} {
      var k :| k in keys;
      assert FirstLive(keys, n) <= k < n;
    }
  }

  /** next() and the walk of prev() only look at the slots they pass. */
  lemma {:induction false} NextLiveSame(a: set<nat>, b: set<nat>, cur: nat, n: nat)
    requires cur <= n
    requires forall j :: cur < j < n ==> (j in a <==> j in b)
    ensures NextLive(a, cur, n) == NextLive(b, cur, n)
    decreases n - cur
  {
    if cur < n {
      NextLiveSame(a, b, cur + 1, n);
    }
  }

  /** From an occupied slot, prev() after next() comes back to it. */
  lemma PrevAfterNext(keys: set<nat>, p: nat, n: nat)
    requires p < n && p in keys
    ensures PrevLive(keys, NextLive(keys, p, n), n) == p
  {
    NextLiveSpec(keys, p, n);
    PrevSkip(keys, p, NextLive(keys, p, n), n);
  }

  lemma {:induction false} PrevSkip(keys: set<nat>, p: nat, q: nat, n: nat)
    requires p < q <= n && p in keys
    requires forall j :: p < j < q ==> j !in keys
    ensures PrevLive(keys, q, n) == p
    decreases q - p
  {
    if q - 1 != p {
      PrevSkip(keys, p, q - 1, n);
    }
  }

  /** From an occupied slot with an occupied predecessor, next() after
      prev() comes back to it. */
  lemma NextAfterPrev(keys: set<nat>, q: nat, n: nat)
    requires q < n && q in keys && PrevLive(keys, q, n) < n
    ensures NextLive(keys, PrevLive(keys, q, n), n) == q
  {
    PrevLiveSpec(keys, q, n);
    NextSkip(keys, PrevLive(keys, q, n), q, n);
  }

  lemma {:induction false} NextSkip(keys: set<nat>, p: nat, q: nat, n: nat)
    requires p < q < n && q in keys
    requires forall j :: p < j < q ==> j !in keys
    ensures NextLive(keys, p, n) == q
    decreases q - p
  {
    if p + 1 != q {
      NextSkip(keys, p + 1, q, n);
    }
  }

  /** The positions a walk with ++ visits from `pos` until it reaches end. */
  function Walk(keys: set<nat>, pos: nat, n: nat): seq<nat>
    requires pos <= n
    decreases n - pos
  {
    if pos == n then []
    else
      NextLiveSpec(keys, pos, n);
      [pos] + Walk(keys, NextLive(keys, pos, n), n)
  }

  /** Iterating from an occupied slot (or end) meets the occupied slots
      from there on, in ascending order. */
  lemma {:induction false} WalkScans(keys: set<nat>, pos: nat, n: nat)
    requires pos <= n && (pos < n ==> pos in keys)
    ensures Occupied(keys, pos) + Walk(keys, pos, n) == Occupied(keys, n)
    decreases n - pos
  {
    if pos < n {
      var q := NextLive(keys, pos, n);
      NextLiveSpec(keys, pos, n);
      assert Walk(keys, pos, n) == [pos] + Walk(keys, q, n);
      WalkScans(keys, q, n);
      OccupiedSkip(keys, pos + 1, q);
      assert Occupied(keys, pos + 1) == Occupied(keys, pos) + [pos];
      calc {
        Occupied(keys, pos) + Walk(keys, pos, n);
        Occupied(keys, pos) + ([pos] + Walk(keys, q, n));
        (Occupied(keys, pos) + [pos]) + Walk(keys, q, n);
        Occupied(keys, q) + Walk(keys, q, n);
      }
    }
  }

  /** Forward iteration from begin() to end() visits exactly the occupied
      slots, in the order of m_pool (the order for_each uses). */
  lemma IterationVisitsOccupied(keys: set<nat>, n: nat)
    ensures Walk(keys, FirstLive(keys, n), n) == Occupied(keys, n)
  {
    FirstLiveSpec(keys, n);
    OccupiedSkip(keys, 0, FirstLive(keys, n));
    WalkScans(keys, FirstLive(keys, n), n);
  }

  /** The bits next() reads as written: it increments first and reads
      m_used at the new position before the loop test, so the read at
      position n happens whenever the walk reaches end. */
  function NextReadsAsWritten(keys: set<nat>, cur: nat, n: nat): (visits: seq<nat>)
    requires cur <= n
    decreases n - cur
  {
    if cur == n then []
    else if cur + 1 < n && cur + 1 !in keys then [cur + 1] + NextReadsAsWritten(keys, cur + 1, n)
    else [cur + 1]
  }

  /** From an occupied slot with nothing occupied after it (the last
      element), next() as written reads bit N of a bitset of N bits. */
  lemma {:induction false} NextReadsPastEnd(keys: set<nat>, cur: nat, n: nat)
    requires cur < n
    requires forall j :: cur < j < n ==> j !in keys
    ensures n in NextReadsAsWritten(keys, cur, n)
    decreases n - cur
  {
    if cur + 1 < n {
      NextReadsPastEnd(keys, cur + 1, n);
    }
  }

  /** The smallest instance: one slot, occupied, and ++ on begin(). */
  lemma NextReadsPastEndOfOneSlot()
    ensures NextReadsAsWritten({0}, 0, 1) == [1]
  {
  }

  /** Every position the loop as written lands on is within 1 .. n, and
      it ends where the guarded next() ends. */
  lemma {:induction false} NextAsWrittenEndsAlike(keys: set<nat>, cur: nat, n: nat)
    requires cur < n
    ensures var visits := NextReadsAsWritten(keys, cur, n);
            visits != [] && visits[|visits| - 1] == NextLive(keys, cur, n)
    decreases n - cur
  {
    if cur + 1 < n && cur + 1 !in keys {
      NextAsWrittenEndsAlike(keys, cur + 1, n);
    }
  }

  class BitsetPool<T> {
    /** The free list, the live objects and m_pool's N slots. */
    const base: ListPool<T>
    /** m_used: bit i is set when slot i holds an object. */
    const used: array<bool>

    ghost function Repr(): set<object>
    {
      base.Repr() + {used}
    }

    ghost predicate Valid()
      reads Repr()
    {
      base.Valid() && base.store.policy.Static? && used !in base.Repr() &&
      used.Length == base.store.policy.n &&
      forall i :: 0 <= i < used.Length ==> (used[i] <==> i in base.data)
    }

    /** SPool_list_bitset(): the nodes of m_pool pushed in array order,
        every bit clear. */
    constructor (n: nat, flags: Flags)
      ensures Valid() && fresh(Repr())
      ensures used.Length == n && base.store.flags == flags
      ensures base.data == map[] && base.chain.free == Descending(0, n)
    {
      base := new ListPool.Static(n, flags);
      used := new bool[n](i => false);
    }

    /** create: null when no node is free; otherwise create_obj on the head
        of the free chain and the slot's bit is set. */
    method Create(x: T) returns (r: Option<nat>)
      requires Valid()
      modifies base, base.chain, used
      ensures Valid() && Created(r, x)
    {
      var h := base.chain.Top();
      if h == Nil {
        return None;
      }
      var i := h as nat;
      r := base.CreateObj(x);
      used[i] := true;
    }

    /** What create did when it returned r: the head of the free chain is
        handed out, its object stored and its bit set, exactly when the
        chain was not empty; a null result changes nothing. */
    twostate predicate Created(new r: Option<nat>, new x: T)
      reads Repr()
    {
      (r.Some? <==> old(base.chain.free) != []) &&
      (r.None? ==>
         base.data == old(base.data) && base.chain.free == old(base.chain.free) && used[..] == old(used[..])) &&
      (r.Some? ==>
         r.value == old(base.chain.free)[0] && r.value !in old(base.data) && r.value < used.Length &&
         base.data == old(base.data)[r.value := x] && base.chain.free == old(base.chain.free)[1..] &&
         used[..] == old(used[..])[r.value := true])
    }

    /** pool::Pool::create over this pool: a null result is raised as
        std::bad_alloc when POOL_CREATE_EXCEPTION is set; otherwise
        create's result is passed on. */
    method CreateOrRaise(x: T) returns (res: Result<Option<nat>>)
      requires Valid()
      modifies base, base.chain, used
      ensures Valid()
      ensures res.Failure? <==> base.store.flags.createException && old(base.chain.free) == []
      ensures res.Success? ==> Created(res.value, x)
      ensures res.Failure? ==> res.error == BadAlloc && Created(None, x)
    {
      var r := Create(x);
      res := CreateResult(base.store.flags.createException, r);
    }

    /** destroy: a null pointer is ignored; otherwise the slot's bit is
        cleared and destroy_obj returns the node to the head of the free
        chain. */
    method Destroy(p: Option<nat>)
      requires Valid() && (p.Some? ==> p.value in base.data)
      modifies base, base.chain, used
      ensures Valid()
      ensures p.None? ==> base.data == old(base.data) && base.chain.free == old(base.chain.free) &&
                          used[..] == old(used[..])
      ensures p.Some? ==> base.data == old(base.data) - {p.value} && base.chain.free == [p.value] + old(base.chain.free) &&
                          used[..] == old(used[..])[p.value := false]
    {
      if p.None? {
        return;
      }
      var i := p.value;
      used[i] := false;
      base.DestroyObj(i);
    }

    /** for_each: nothing on an empty pool, otherwise the slots whose bit is
        set, in the order of m_pool. */
    method ForEach() returns (visited: seq<nat>)
      requires Valid()
      ensures visited == Occupied(base.data.Keys, used.Length)
    {
      var n := used.Length;
      visited := [];
      if base.Empty() {
        OccupiedSkip(base.data.Keys, 0, n);
        return;
      }
      var i := 0;
      while i < n
        invariant 0 <= i <= n
        invariant visited == Occupied(base.data.Keys, i)
      {
        if used[i] {
          visited := visited + [i];
        }
        i := i + 1;
      }
    }

    /** destroy_all: for_each with destroy_obj (for_each does nothing on an
        empty pool), then every bit is reset. */
    method DestroyAll()
      requires Valid()
      modifies base, base.chain, used
      ensures Valid() && base.data == map[]
      ensures forall i :: 0 <= i < used.Length ==> !used[i]
      ensures base.chain.free == Reverse(Occupied(old(base.data).Keys, used.Length)) + old(base.chain.free)
    {
      if base.Empty() {
        OccupiedSkip(base.data.Keys, 0, used.Length);
      } else {
        DestroyEachObj();
      }
      forall i | 0 <= i < used.Length {
        used[i] := false;
      }
    }

    /** The loop of for_each applied with destroy_obj: every slot whose bit
        is set, in the order of m_pool, so the highest one ends at the head
        of the free chain; the bits themselves are left as they are. */
    method DestroyEachObj()
      requires Valid()
      modifies base, base.chain
      ensures base.Valid() && base.data == map[]
      ensures base.chain.free == Reverse(Occupied(old(base.data).Keys, used.Length)) + old(base.chain.free)
    {
      var n := used.Length;
      ghost var keys := base.data.Keys;
      var i := 0;
      while i < n
        invariant 0 <= i <= n && base.Valid()
        invariant base.data.Keys == Unscanned(keys, i)
        invariant base.chain.free == Freed(keys, i) + old(base.chain.free)
      {
        base.DestroyScanned(i, used[i], keys, old(base.chain.free));
        i := i + 1;
      }
      UnscannedEnd(keys, n);
      FreedReversesScan(keys, n);
    }

    /** Iterator next() with the read of m_used guarded by cur_pos < N: the
        next occupied slot above cur, or end. */
    method Next(cur: nat) returns (r: nat)
      requires Valid() && cur <= used.Length
      ensures r == NextLive(base.data.Keys, cur, used.Length)
    {
      var n := used.Length;
      r := cur;
      while r < n
        invariant cur <= r <= n
        invariant NextLive(base.data.Keys, r, n) == NextLive(base.data.Keys, cur, n)
      {
        r := r + 1;
        if r < n && used[r] {
          return;
        }
      }
    }

    /** Iterator prev(): end on an empty pool; otherwise the walk down to
        the previous occupied slot, or end when there is none. */
    method Prev(cur: nat) returns (r: nat)
      requires Valid() && cur <= used.Length
      ensures r == PrevLive(base.data.Keys, cur, used.Length)
    {
      var n := used.Length;
      if base.Empty() {
        PrevLiveSpec(base.data.Keys, cur, n);
        return n;
      }
      r := cur;
      while r > 0
        invariant r <= cur
        invariant PrevLive(base.data.Keys, r, n) == PrevLive(base.data.Keys, cur, n)
      {
        r := r - 1;
        if used[r] {
          return;
        }
      }
      return n;
    }

    /** begin(): the iterator constructor's set_first_pos(): end on an empty
        pool, else slot 0 when occupied, else next() from 0. */
    method Begin() returns (r: nat)
      requires Valid()
      ensures r == FirstLive(base.data.Keys, used.Length)
    {
      var n := used.Length;
      if base.Empty() {
        FirstLiveSpec(base.data.Keys, n);
        return n;
      }
      r := 0;
      if !used[0] {
        r := Next(0);
      }
    }

    /** end(): position N, past every occupied slot; ++ leaves it there,
        and begin() reaches it at once exactly on an empty pool. */
    function End(): (r: nat)
      reads Repr()
      requires Valid()
      ensures r !in base.data && forall i :: i in base.data ==> i < r
      ensures r <= used.Length && NextLive(base.data.Keys, r, used.Length) == r
      ensures FirstLive(base.data.Keys, used.Length) == r <==> base.data == map[]
    {
      assert base.data == map[] <== base.data.Keys == {};
      BeginIsEnd(base.data.Keys, used.Length);
      used.Length
    }

    /** destroy(pos): the successor of pos is taken first, then the object
        at pos is destroyed; the successor is still where ++ on pos leads. */
    method DestroyAt(pos: nat) returns (next: nat)
      requires Valid() && pos in base.data
      modifies base, base.chain, used
      ensures Valid()
      ensures next == NextLive(old(base.data).Keys, pos, used.Length)
      ensures next == NextLive(base.data.Keys, pos, used.Length)
      ensures base.data == old(base.data) - {pos} && base.chain.free == [pos] + old(base.chain.free)
    {
      next := Next(pos);
      Destroy(Some(pos));
      NextLiveSame(old(base.data).Keys, base.data.Keys, pos, used.Length);
    }

    /** destroy(first, last): destroy(pos) until last is reached; exactly
        the objects in [first, last) go, in ascending slot order, so the
        highest of them ends at the head of the free chain; last is
        returned. */
    method DestroyRange(first: nat, last: nat) returns (r: nat)
      requires Valid() && first <= last <= used.Length
      requires first == last || first in base.data
      requires last == used.Length || last in base.data
      modifies base, base.chain, used
      ensures Valid() && r == last
      ensures base.data == Without(old(base.data), first, last)
      ensures base.chain.free == Reverse(Occupied(Unscanned(old(base.data).Keys, first), last)) + old(base.chain.free)
    {
      var n := used.Length;
      var cur := first;
      ghost var from := Unscanned(base.data.Keys, first);
      assert base.data == Without(base.data, first, first);
      OccupiedSkip(from, 0, first);
      while cur != last
        invariant Valid() && first <= cur <= last
        invariant cur == last || cur in base.data
        invariant last == n || last in base.data
        invariant base.data == Without(old(base.data), first, cur)
        invariant base.chain.free == Reverse(Occupied(from, cur)) + old(base.chain.free)
        decreases last - cur
      {
        ghost var before := base.data;
        NextLiveSpec(before.Keys, cur, n);
        var next := DestroyAt(cur);
        WithoutStep(old(base.data), first, cur, next);
        RangeFreedStep(old(base.data), first, cur, next, old(base.chain.free));
        cur := next;
      }
      r := last;
    }
  }

  /** The objects of m outside the slot range [lo, hi). */
  function Without<T>(m: map<nat, T>, lo: nat, hi: nat): (r: map<nat, T>)
    ensures forall j :: j in r <==> j in m && !(lo <= j < hi)
    ensures forall j :: j in r ==> r[j] == m[j]
  {
    map j | j in m && !(lo <= j < hi) :: m[j]
  }

  /** Destroying the object at cur, when nothing lies between cur and next,
      extends the destroyed range from [lo, cur) to [lo, next). */
  lemma WithoutStep<T>(m: map<nat, T>, lo: nat, cur: nat, next: nat)
    requires lo <= cur < next
    requires forall j :: cur < j < next ==> j !in Without(m, lo, cur)
    ensures Without(m, lo, cur) - {cur} == Without(m, lo, next)
  {
  }

  /** Destroying the object at cur, when nothing lies between cur and next,
      puts cur in front of the slots already freed from [lo, cur). */
  lemma RangeFreedStep<T>(m: map<nat, T>, lo: nat, cur: nat, next: nat, rest: seq<nat>)
    requires lo <= cur < next && cur in m
    requires forall j :: cur < j < next ==> j !in Without(m, lo, cur)
    ensures [cur] + (Reverse(Occupied(Unscanned(m.Keys, lo), cur)) + rest) ==
            Reverse(Occupied(Unscanned(m.Keys, lo), next)) + rest
  {
    var from := Unscanned(m.Keys, lo);
    forall j | cur + 1 <= j < next
      ensures j !in from
    {
      assert j !in Without(m, lo, cur);
    }
    OccupiedSkip(from, cur + 1, next);
    var s := Occupied(from, cur);
    assert Occupied(from, cur + 1) == s + [cur];
    assert (s + [cur])[..|s|] == s;
    assert Reverse(s + [cur]) == [cur] + Reverse(s);
  }
}
