/** Shared vocabulary of the pool model: results, configuration flags and
    the sequence helpers used to state the order of the free chain. */
module PoolTypes {

  /** A nullable slot reference (`T*` in the source; None is nullptr). */
  datatype Option<+T> = None | Some(value: T)

  /** std::bad_alloc, the only error the pool raises. */
  datatype Error = BadAlloc

  /** Value or raised error at the API boundary. */
  datatype Result<+R> = Success(value: R) | Failure(error: Error)

  /** Completion of an operation that returns nothing or raises. */
  datatype Outcome = Pass | Fail(error: Error)

  /** The behaviour flags of a pool instantiation (Pool_flags).
      POOL_DTOR_OFF only selects whether a destructor is generated and is not modelled. */
  datatype Flags = Flags(
    fixedCapacity: bool,    // POOL_FIXED_CAPACITY
    selfMoveGuard: bool,    // POOL_SELF_MOVE_GUARD
    createException: bool,  // POOL_CREATE_EXCEPTION
    reserveException: bool  // POOL_RESERVE_EXCEPTION
  )

  /** The null link of the free chain. */
  const Nil: int := -1

  /** No slot occurs twice. */
  ghost predicate Distinct(s: seq<nat>)
  {
    s == [] || (s[0] !in s[1..] && Distinct(s[1..]))
  }

  /** Two chains without repeats and without a common slot join into one. */
  lemma {:induction false} DistinctJoin(a: seq<nat>, b: seq<nat>)
    requires Distinct(a) && Distinct(b)
    requires forall x :: x in a ==> x !in b
    ensures Distinct(a + b)
  {
    if a == [] {
      assert a + b == b;
    } else {
      assert (a + b)[1..] == a[1..] + b;
      assert forall x :: x in a[1..] ==> x in a;
      DistinctJoin(a[1..], b);
      assert a[0] in a && a[0] !in b;
      assert (a + b)[0] == a[0] && a[0] !in a[1..] + b;
    }
  }

  /** Two growth stretches of the chain read as one. */
  lemma GrowthJoin(t0: nat, t1: nat, t2: nat, f0: seq<nat>, f1: seq<nat>, f2: seq<nat>)
    requires t0 <= t1 <= t2
    requires f1 == Descending(t0, t1 - t0) + f0
    requires f2 == Descending(t1, t2 - t1) + f1
    ensures f2 == Descending(t0, t2 - t0) + f0
  {
    DescendingJoin(t0, t1 - t0, t2 - t1);
    assert f2 == (Descending(t1, t2 - t1) + Descending(t0, t1 - t0)) + f0;
  }

  /** Ascending: the order in which a scan over the node array meets slots. */
  ghost predicate Increasing(s: seq<nat>)
  {
    forall i, j :: 0 <= i < j < |s| ==> s[i] < s[j]
  }

  function Reverse(s: seq<nat>): (r: seq<nat>)
  {
    if s == [] then [] else [s[|s| - 1]] + Reverse(s[..|s| - 1])
  }

  lemma {:induction false} ReverseFacts(s: seq<nat>)
    ensures |Reverse(s)| == |s|
    ensures forall i :: 0 <= i < |s| ==> Reverse(s)[i] == s[|s| - 1 - i]
  {
    if s != [] {
      ReverseFacts(s[..|s| - 1]);
    }
  }

  /** The order in which pushing base, base+1, ..., base+n-1 onto the head of
      a chain leaves them: base+n-1 first. */
  function Descending(base: nat, n: nat): (r: seq<nat>)
  {
    if n == 0 then [] else [base + n - 1] + Descending(base, n - 1)
  }

  lemma {:induction false} DescendingFacts(base: nat, n: nat)
    ensures |Descending(base, n)| == n
    ensures forall i :: 0 <= i < n ==> Descending(base, n)[i] == base + n - 1 - i
    ensures forall x :: x in Descending(base, n) <==> base <= x < base + n
    ensures Distinct(Descending(base, n))
  {
    if n > 0 {
      DescendingFacts(base, n - 1);
    }
  }

  lemma {:induction false} DescendingRange(base: nat, n: nat, x: nat)
    requires x in Descending(base, n)
    ensures base <= x < base + n
  {
    if x != base + n - 1 {
      DescendingRange(base, n - 1, x);
    }
  }

  /** One more push: the new top id goes in front and was not there yet. */
  lemma DescendingStep(base: nat, i: nat)
    ensures Descending(base, i + 1) == [base + i] + Descending(base, i)
    ensures base + i !in Descending(base, i)
  {
    if base + i in Descending(base, i) {
      DescendingRange(base, i, base + i);
    }
  }

  /** Two consecutive pushes of adjacent ranges read as one range. */
  lemma {:induction false} DescendingJoin(base: nat, a: nat, b: nat)
    ensures Descending(base + a, b) + Descending(base, a) == Descending(base, a + b)
  {
    if b > 0 {
      DescendingJoin(base, a, b - 1);
      assert base + a + b - 1 == base + (a + b) - 1;
    }
  }

  /** The slots below n that are in `keys`, in ascending order: what a scan
      of the node array from index 0 to n-1 meets. */
  function Occupied(keys: set<nat>, n: nat): (r: seq<nat>)
  {
    if n == 0 then []
    else Occupied(keys, n - 1) + (if n - 1 in keys then [n - 1] else [])
  }

  lemma {:induction false} OccupiedFacts(keys: set<nat>, n: nat)
    ensures Increasing(Occupied(keys, n))
    ensures forall x :: x in Occupied(keys, n) <==> x in keys && x < n
  {
    if n > 0 {
      OccupiedFacts(keys, n - 1);
      var prefix := Occupied(keys, n - 1);
      forall i | 0 <= i < |prefix|
        ensures prefix[i] < n - 1
      {
        assert prefix[i] in prefix;
      }
      if n - 1 in keys {
        assert Occupied(keys, n) == prefix + [n - 1];
      } else {
        assert Occupied(keys, n) == prefix + [];
        assert prefix + [] == prefix;
      }
    }
  }

  /** What a scan of slots 0 .. n-1 that frees each occupied slot it meets
      leaves in front of the free chain: the last slot freed first. */
  function Freed(keys: set<nat>, n: nat): (r: seq<nat>)
  {
    if n == 0 then [] else (if n - 1 in keys then [n - 1] else []) + Freed(keys, n - 1)
  }

  /** One more slot scanned: an occupied slot lands in front of the chain. */
  lemma FreedStep(keys: set<nat>, i: nat, rest: seq<nat>)
    ensures i in keys ==> Freed(keys, i + 1) + rest == [i] + (Freed(keys, i) + rest)
    ensures i !in keys ==> Freed(keys, i + 1) + rest == Freed(keys, i) + rest
  {
    assert Freed(keys, i + 1) == (if i in keys then [i] else []) + Freed(keys, i);
  }

  /** Freeing in scan order stacks the occupied slots in reverse scan order. */
  lemma {:induction false} FreedReversesScan(keys: set<nat>, n: nat)
    ensures Freed(keys, n) == Reverse(Occupied(keys, n))
  {
    if n > 0 {
      FreedReversesScan(keys, n - 1);
      var s := Occupied(keys, n - 1);
      if n - 1 in keys {
        assert Occupied(keys, n) == s + [n - 1];
        assert (s + [n - 1])[..|s|] == s;
        assert Reverse(s + [n - 1]) == [n - 1] + Reverse(s);
      } else {
        assert Occupied(keys, n) == s + [];
        assert s + [] == s;
      }
    }
  }

  /** The slots of `keys` a scan that has passed slots 0 .. i-1 has yet to meet. */
  ghost function Unscanned(keys: set<nat>, i: nat): set<nat>
  {
    set s | s in keys && i <= s
  }

  /** Passing slot i removes it from what is left to scan; once the scan
      passes every slot, nothing is left. */
  lemma UnscannedStep(keys: set<nat>, i: nat)
    ensures Unscanned(keys, i + 1) == Unscanned(keys, i) - {i}
    ensures i in keys <==> i in Unscanned(keys, i)
  {
  }

  lemma UnscannedEnd(keys: set<nat>, n: nat)
    requires forall s :: s in keys ==> s < n
    ensures Unscanned(keys, n) == {}
  {
  }

  /** A scan over a stretch with no occupied slot adds nothing. */
  lemma {:induction false} OccupiedSkip(keys: set<nat>, a: nat, b: nat)
    requires a <= b
    requires forall x :: a <= x < b ==> x !in keys
    ensures Occupied(keys, b) == Occupied(keys, a)
  {
    if a < b {
      OccupiedSkip(keys, a, b - 1);
    }
  }

  /** A scan over the whole array meets as many slots as are occupied. */
  lemma {:induction false} OccupiedCount(keys: set<nat>, n: nat)
    requires forall x :: x in keys ==> x < n
    ensures |Occupied(keys, n)| == |keys|
  {
    if n > 0 {
      var below := set x | x in keys && x < n - 1;
      assert forall x :: x in below ==> x < n - 1;
      OccupiedCount(below, n - 1);
      OccupiedSame(keys, below, n - 1);
      if n - 1 in keys {
        assert keys == below + {n - 1};
      } else {
        assert keys == below;
      }
    }
  }

  /** The scan below n depends only on the keys below n. */
  lemma {:induction false} OccupiedSame(a: set<nat>, b: set<nat>, n: nat)
    requires forall x :: x < n ==> (x in a <==> x in b)
    ensures Occupied(a, n) == Occupied(b, n)
  {
    if n > 0 {
      OccupiedSame(a, b, n - 1);
    }
  }

  /** Whether the j-th heap allocation attempt succeeds; attempts past the end
      of the supplied outcomes succeed. */
  function Allocates(outcomes: seq<bool>, j: nat): bool
  {
    j >= |outcomes| || outcomes[j]
  }

  /** Every one of the first `count` allocation attempts succeeds. */
  ghost predicate AllAllocate(outcomes: seq<bool>, count: int)
  {
    forall j: nat :: j < count ==> Allocates(outcomes, j)
  }

  /** The first k+1 attempts succeed exactly when the first k and the k-th do. */
  lemma AllAllocateStep(outcomes: seq<bool>, k: nat)
    ensures AllAllocate(outcomes, k + 1) <==> AllAllocate(outcomes, k) && Allocates(outcomes, k)
  {
  }

  /** How many of the first k allocation attempts succeed. */
  function Successes(outcomes: seq<bool>, k: nat): (r: nat)
    ensures r <= k
  {
    if k == 0 then 0 else Successes(outcomes, k - 1) + (if Allocates(outcomes, k - 1) then 1 else 0)
  }

  /** When every one of the first k attempts succeeds, all k count. */
  lemma {:induction false} AllSucceed(outcomes: seq<bool>, k: nat)
    requires AllAllocate(outcomes, k)
    ensures Successes(outcomes, k) == k
  {
    if k > 0 {
      AllAllocateStep(outcomes, k - 1);
      AllSucceed(outcomes, k - 1);
    }
  }

  /** pool::Pool::create: with POOL_CREATE_EXCEPTION a null result is raised
      as std::bad_alloc; otherwise the result is passed through. */
  function CreateResult(createException: bool, r: Option<nat>): (res: Result<Option<nat>>)
    ensures res.Failure? <==> createException && r.None?
    ensures res.Success? ==> res.value == r
    ensures createException && res.Success? ==> res.value.Some?
  {
    if createException && r.None? then Failure(BadAlloc) else Success(r)
  }
}
