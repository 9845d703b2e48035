/** prune_omp.cpp: the same branch-and-bound search, split in two phases.
    The first phase walks the tree down to a cutoff depth and stores every
    path that survives the prune in a fixed pool of subproblems; the second
    phase runs the search of prune.cpp below each stored path. */
module PruneOmp {
  import opened Overlap
  import opened Orders
  import opened Merging
  import opened Prune

  /** The capacity of the pool of subproblems. */
  const POOL_SIZE: int := 10000

  /** One stored subproblem: the merged string of a path and its used flags. */
  datatype Subproblem = Subproblem(current: seq<char>, used: seq<bool>)

  /** The subproblem a path is stored as. */
  function EntryOf(rs: seq<seq<char>>, order: seq<int>): (e: Subproblem)
    requires IsArrangement(order, |rs|)
    ensures e.current == MergeOrder(rs, order)
    ensures e.used == Flags(order, |rs|)
  {
    Subproblem(MergeOrder(rs, order), Flags(order, |rs|))
  }

  /** The stored entries are exactly the subproblems of the recorded paths,
      each a partial ordering of cutoff reads. */
  ghost predicate PoolHolds(rs: seq<seq<char>>, entries: seq<Subproblem>, orders: seq<seq<int>>, cutoff: int)
  {
    && |entries| == |orders|
    && forall k :: 0 <= k < |orders| ==>
         IsArrangement(orders[k], |rs|) && |orders[k]| == cutoff && entries[k] == EntryOf(rs, orders[k])
  }

  /** Every extension of order to a path of cutoff reads is recorded, unless
      it is at least bound long. */
  ghost predicate PoolCovered(rs: seq<seq<char>>, order: seq<int>, bound: int, cutoff: int, found: seq<seq<int>>)
  {
    forall ext :: ReachesDepth(order, ext, |rs|, cutoff) ==>
      bound <= |MergeOrder(rs, order + ext)| || order + ext in found
  }

  /** The same for the extensions whose next read is below i. */
  ghost predicate PoolCoveredBelow(rs: seq<seq<char>>, order: seq<int>, bound: int, cutoff: int, found: seq<seq<int>>, i: int)
  {
    forall ext :: ReachesDepth(order, ext, |rs|, cutoff) && |ext| > 0 && ext[0] < i ==>
      bound <= |MergeOrder(rs, order + ext)| || order + ext in found
  }

  /** Every stored path is searched down to bound. */
  ghost predicate AllSearched(rs: seq<seq<char>>, orders: seq<seq<int>>, count: int, bound: int)
    requires 0 <= count <= |orders|
  {
    forall s :: 0 <= s < count ==> Covered(rs, orders[s], bound)
  }

  /** The log grew from oldLog to log in count segments, cut at marks, in
      stored order: every entry of segment k extends the k-th stored path. */
  ghost predicate SearchedInOrder(oldLog: seq<seq<int>>, log: seq<seq<int>>, orders: seq<seq<int>>,
                                  marks: seq<int>, count: int)
    requires 0 <= count <= |orders|
  {
    && IsPrefixOf(oldLog, log)
    && |marks| == count + 1 && marks[0] == |oldLog| && marks[count] == |log|
    && (forall k :: 0 <= k <= count ==> |oldLog| <= marks[k] <= |log|)
    && (forall k :: 0 <= k < count ==> marks[k] <= marks[k + 1])
    && (forall k, t :: 0 <= k < count && marks[k] <= t < marks[k + 1] ==>
          |orders[k]| <= |log[t]| && log[t][..|orders[k]|] == orders[k])
  }

  lemma SearchedInOrderNone(log: seq<seq<int>>, orders: seq<seq<int>>)
    ensures SearchedInOrder(log, log, orders, [|log|], 0)
  {
  }

  /** A search below the next stored path closes one more segment. */
  lemma SearchedInOrderSnoc(oldLog: seq<seq<int>>, mid: seq<seq<int>>, log: seq<seq<int>>,
                            orders: seq<seq<int>>, marks: seq<int>, count: int)
    requires 0 <= count < |orders|
    requires SearchedInOrder(oldLog, mid, orders, marks, count)
    requires GrowsBelow(mid, log, orders[count])
    ensures SearchedInOrder(oldLog, log, orders, marks + [|log|], count + 1)
  {
    PrefixTransitive(oldLog, mid, log);
    forall t | 0 <= t < |mid|
      ensures log[t] == mid[t]
    {
      assert log[..|mid|][t] == log[t];
    }
  }

  lemma PoolHoldsSnoc(rs: seq<seq<char>>, entries: seq<Subproblem>, orders: seq<seq<int>>, cutoff: int, order: seq<int>)
    requires PoolHolds(rs, entries, orders, cutoff)
    requires IsArrangement(order, |rs|) && |order| == cutoff
    ensures PoolHolds(rs, entries + [EntryOf(rs, order)], orders + [order], cutoff)
  {
  }

  /** The path itself, when it is already at the cutoff. */
  lemma PoolCoveredLeaf(rs: seq<seq<char>>, order: seq<int>, bound: int, cutoff: int, found: seq<seq<int>>)
    requires |order| == cutoff && order in found
    ensures PoolCovered(rs, order, bound, cutoff, found)
  {
    forall ext | ReachesDepth(order, ext, |rs|, cutoff)
      ensures order + ext in found
    {
      assert order + ext == order;
    }
  }

  /** A path already at least bound long has no short extension. */
  lemma PoolCoveredPruned(rs: seq<seq<char>>, order: seq<int>, bound: int, cutoff: int, found: seq<seq<int>>)
    requires IsArrangement(order, |rs|) && bound <= |MergeOrder(rs, order)|
    ensures PoolCovered(rs, order, bound, cutoff, found)
  {
    forall ext | ReachesDepth(order, ext, |rs|, cutoff)
      ensures bound <= |MergeOrder(rs, order + ext)|
    {
      MergeOrderGrows(rs, order, ext);
    }
  }

  /** Recorded paths stay recorded while the pool grows. */
  lemma PoolCoveredGrow(rs: seq<seq<char>>, order: seq<int>, bound: int, cutoff: int, found: seq<seq<int>>, more: seq<seq<int>>, i: int)
    requires PoolCoveredBelow(rs, order, bound, cutoff, found, i) && IsPrefixOf(found, more)
    ensures PoolCoveredBelow(rs, order, bound, cutoff, more, i)
  {
    forall ext | ReachesDepth(order, ext, |rs|, cutoff) && |ext| > 0 && ext[0] < i && order + ext in found
      ensures order + ext in more
    {
      var k := IndexOf(found, order + ext);
      assert more[k] == found[k];
    }
  }

  lemma PoolCoveredBelowStart(rs: seq<seq<char>>, order: seq<int>, bound: int, cutoff: int, found: seq<seq<int>>)
    ensures PoolCoveredBelow(rs, order, bound, cutoff, found, 0)
  {
    forall ext | ReachesDepth(order, ext, |rs|, cutoff) && |ext| > 0
      ensures 0 <= ext[0]
    {
      ReachesDepthStep(order, ext, |rs|, cutoff);
    }
  }

  /** One more candidate read i handled at the first phase. */
  lemma PoolCoveredBelowStep(rs: seq<seq<char>>, order: seq<int>, bound: int, cutoff: int, found: seq<seq<int>>, i: int)
    requires PoolCoveredBelow(rs, order, bound, cutoff, found, i)
    requires i in order || PoolCovered(rs, order + [i], bound, cutoff, found)
    ensures PoolCoveredBelow(rs, order, bound, cutoff, found, i + 1)
  {
    forall ext | ReachesDepth(order, ext, |rs|, cutoff) && |ext| > 0 && ext[0] < i + 1
      ensures bound <= |MergeOrder(rs, order + ext)| || order + ext in found
    {
      ReachesDepthStep(order, ext, |rs|, cutoff);
      if ext[0] == i {
        assert ReachesDepth(order + [i], ext[1..], |rs|, cutoff);
        assert order + ext == (order + [i]) + ext[1..];
      }
    }
  }

  /** Below the cutoff every extension has a next read, and it is below n. */
  lemma PoolCoveredBelowAll(rs: seq<seq<char>>, order: seq<int>, bound: int, cutoff: int, found: seq<seq<int>>)
    requires |order| != cutoff
    requires PoolCoveredBelow(rs, order, bound, cutoff, found, |rs|)
    ensures PoolCovered(rs, order, bound, cutoff, found)
  {
    forall ext | ReachesDepth(order, ext, |rs|, cutoff)
      ensures bound <= |MergeOrder(rs, order + ext)| || order + ext in found
    {
      assert |ext| > 0;
      ReachesDepthStep(order, ext, |rs|, cutoff);
    }
  }

  /** The number of pool slots the first phase may fill below a path of
      level reads: one per way of extending it to cutoff reads. */
  function Room(n: int, cutoff: int, level: int): nat
  {
    Arr(n - level, cutoff - level)
  }

  /** One unused read takes the room of one child path. */
  lemma RoomSplit(n: int, cutoff: int, level: int)
    requires level < n && level != cutoff
    ensures Room(n, cutoff, level) == Shares(n - level, Room(n, cutoff, level + 1))
  {
    if cutoff < level {
      SharesIsProduct(n - level, 0);
    }
  }

  /** The room in the pool is shared out among the unused reads. */
  lemma PoolRoom(order: seq<int>, n: nat, i: int, level: int, cutoff: int)
    requires IsArrangement(order, n) && |order| == level && level != cutoff
    requires 0 <= i < n && i !in order
    ensures |UnusedBelow(order, i + 1)| == |UnusedBelow(order, i)| + 1
    ensures Shares(|UnusedBelow(order, i)| + 1, Room(n, cutoff, level + 1)) <= Room(n, cutoff, level)
  {
    var u := |UnusedBelow(order, i)|;
    UnusedCount(order, n);
    assert UnusedBelow(order, i + 1) == UnusedBelow(order, i) + {i};
    SubsetCard(UnusedBelow(order, i + 1), UnusedBelow(order, n));
    ArrangementMissingShort(order, n, i);
    RoomSplit(n, cutoff, level);
    SharesMono(u + 1, n - level, Room(n, cutoff, level + 1));
  }

  /** A read on the path adds nothing to the unused reads. */
  lemma UnusedBelowSkip(order: seq<int>, i: int)
    requires 0 <= i && i in order
    ensures |UnusedBelow(order, i + 1)| == |UnusedBelow(order, i)|
  {
    assert UnusedBelow(order, i + 1) == UnusedBelow(order, i);
  }

  /** All the unused reads together fit in the room of the path. */
  lemma PoolRoomAll(order: seq<int>, n: nat, level: int, cutoff: int)
    requires IsArrangement(order, n) && |order| == level && level != cutoff
    ensures Shares(|UnusedBelow(order, n)|, Room(n, cutoff, level + 1)) <= Room(n, cutoff, level)
  {
    UnusedCount(order, n);
    ArrangementLength(order, n);
    if level < n {
      RoomSplit(n, cutoff, level);
    }
  }

  lemma AllSearchedSnoc(rs: seq<seq<char>>, orders: seq<seq<int>>, count: int, bound: int)
    requires 0 <= count < |orders|
    requires AllSearched(rs, orders, count, bound) && Covered(rs, orders[count], bound)
    ensures AllSearched(rs, orders, count + 1, bound)
  {
  }

  /** The pool slots the first phase can fill: n shares of the room below
      one read. */
  function PoolDemand(n: int, cutoff: int): nat
  {
    Shares(n, Room(n, cutoff, 1))
  }

  /** A cutoff outside 1..n leaves no slot to fill. */
  lemma RoomBeyond(n: nat, cutoff: int)
    requires cutoff < 1 || cutoff > n
    ensures PoolDemand(n, cutoff) == 0
  {
    if cutoff > n && n > 0 {
      ArrBeyond(n - 1, cutoff - 1);
    }
    SharesIsProduct(n, Room(n, cutoff, 1));
  }

  /** Stored paths are searched down to a bound that only shrinks. */
  lemma AllSearchedWeaken(rs: seq<seq<char>>, orders: seq<seq<int>>, count: int, bound: int, smaller: int)
    requires 0 <= count <= |orders|
    requires AllSearched(rs, orders, count, bound) && smaller <= bound
    ensures AllSearched(rs, orders, count, smaller)
  {
    forall s | 0 <= s < count
      ensures Covered(rs, orders[s], smaller)
    {
      CoveredWeaken(rs, orders[s], bound, smaller);
    }
  }

  /** Every complete ordering is below a recorded path, or its prefix at the
      cutoff was already at least as long as the bound of the first phase. */
  lemma Optimal(rs: seq<seq<char>>, orders: seq<seq<int>>, cutoff: int, firstBound: int, bound: int)
    requires 1 <= cutoff <= |rs| && bound <= firstBound
    requires forall p :: IsArrangement(p, |rs|) && |p| == cutoff ==>
               firstBound <= |MergeOrder(rs, p)| || p in orders
    requires AllSearched(rs, orders, |orders|, bound)
    ensures forall p :: IsPermutation(p, |rs|) ==> bound <= |MergeOrder(rs, p)|
  {
    forall p | IsPermutation(p, |rs|)
      ensures bound <= |MergeOrder(rs, p)|
    {
      var q, ext := p[..cutoff], p[cutoff..];
      assert p == q + ext;
      ArrangementPrefix(p, cutoff, |rs|);
      if q in orders {
        var s := IndexOf(orders, q);
        assert Covered(rs, orders[s], bound);
        assert IsCompletion(q, ext, |rs|);
      } else {
        MergeOrderGrows(rs, q, ext);
      }
    }
  }

  /** The globals of prune_omp.cpp beside those it shares with prune.cpp:
      the pool, the number of stored subproblems, and the cutoff depth. */
  class PoolSearch {
    const engine: Search
    const cutoff: int
    var pool: array<Subproblem>
    var numSubproblems: nat
    /** The paths whose subproblems fill the first numSubproblems slots. */
    ghost var poolOrders: seq<seq<int>>

    /** The pool part of the state; the search state is engine.Valid(). */
    ghost predicate Valid()
      reads this, pool
    {
      && pool.Length == POOL_SIZE
      && numSubproblems <= POOL_SIZE
      && PoolHolds(engine.rs, pool[..numSubproblems], poolOrders, cutoff)
    }

    constructor (input: seq<seq<char>>, cutoffLevel: int)
      ensures Valid() && engine.Valid() && fresh(engine)
      ensures engine.rs == input && cutoff == cutoffLevel
      ensures engine.bestLen == INT_MAX && engine.bestResult == []
      ensures engine.numSolutions == 0 && engine.numOverlapVerifications == 0
      ensures numSubproblems == 0
    {
      engine := new Search(input);
      cutoff := cutoffLevel;
      pool := new Subproblem[POOL_SIZE](_ => Subproblem([], []));
      numSubproblems := 0;
      poolOrders := [];
    }

    /** The cutoff case of generate_initial_load_get_subproblems: copy the
        path's string and flags into the next free slot of the pool. */
    method StoreSubproblem(current: seq<char>, used: array<bool>, ghost order: seq<int>)
      requires Valid()
      requires IsArrangement(order, |engine.rs|) && |order| == cutoff
      requires used.Length == |engine.rs| && used[..] == Flags(order, |engine.rs|)
      requires current == MergeOrder(engine.rs, order)
      requires numSubproblems < POOL_SIZE
      modifies this`numSubproblems, this`poolOrders, pool
      ensures Valid()
      ensures numSubproblems == old(numSubproblems) + 1 && poolOrders == old(poolOrders) + [order]
      ensures pool[old(numSubproblems)] == Subproblem(current, used[..])
    {
      pool[numSubproblems] := Subproblem(current, used[..]);
      assert pool[..numSubproblems + 1] == old(pool[..numSubproblems]) + [EntryOf(engine.rs, order)];
      PoolHoldsSnoc(engine.rs, old(pool[..numSubproblems]), poolOrders, cutoff, order);
      poolOrders := poolOrders + [order];
      numSubproblems := numSubproblems + 1;
    }

    /** The cutoff case of generate_initial_load_get_subproblems. */
    method StoreLeaf(current: seq<char>, used: array<bool>, ghost order: seq<int>)
      requires Valid() && engine.Valid()
      requires IsArrangement(order, |engine.rs|) && |order| == cutoff
      requires used.Length == |engine.rs| && used[..] == Flags(order, |engine.rs|)
      requires current == MergeOrder(engine.rs, order)
      requires numSubproblems + Room(|engine.rs|, cutoff, cutoff) <= POOL_SIZE
      modifies this`numSubproblems, this`poolOrders, pool
      ensures Valid() && engine.Valid()
      ensures numSubproblems <= old(numSubproblems) + Room(|engine.rs|, cutoff, cutoff)
      ensures GrowsBelow(old(poolOrders), poolOrders, order)
      ensures PoolCovered(engine.rs, order, engine.bestLen, cutoff, poolOrders)
    {
      GrowsBelowRefl(poolOrders, order);
      assert order[..|order|] == order;
      GrowsBelowSnoc(poolOrders, poolOrders, order, order);
      StoreSubproblem(current, used, order);
      PoolCoveredLeaf(engine.rs, order, engine.bestLen, cutoff, poolOrders);
    }

    /** generate_initial_load_get_subproblems: walk below the path order
        down to the cutoff depth, pruning as the search does, and store each
        path that reaches the cutoff. best_len is only read. */
    method GetSubproblems(current: seq<char>, used: array<bool>, level: int, currLen: int, ghost order: seq<int>)
      requires Valid() && engine.Valid()
      requires IsArrangement(order, |engine.rs|) && |order| == level
      requires used.Length == |engine.rs| && used[..] == Flags(order, |engine.rs|)
      requires current == MergeOrder(engine.rs, order) && currLen == |current|
      requires numSubproblems + Room(|engine.rs|, cutoff, level) <= POOL_SIZE
      modifies this`numSubproblems, this`poolOrders, pool, used, engine`numOverlapVerifications, engine`candidates
      ensures Valid() && engine.Valid()
      ensures used[..] == old(used[..])
      ensures numSubproblems <= old(numSubproblems) + Room(|engine.rs|, cutoff, level)
      ensures GrowsBelow(old(poolOrders), poolOrders, order)
      ensures GrowsBelow(old(engine.candidates), engine.candidates, order)
      ensures PoolCovered(engine.rs, order, engine.bestLen, cutoff, poolOrders)
      decreases |engine.rs| - level, 3
    {
      var n := |engine.rs|;
      GrowsBelowRefl(engine.candidates, order);
      if level == cutoff {
        StoreLeaf(current, used, order);
        return;
      }
      GrowsBelowRefl(poolOrders, order);
      PoolCoveredBelowStart(engine.rs, order, engine.bestLen, cutoff, poolOrders);
      var i := 0;
      while i < n
        invariant 0 <= i <= n
        invariant Valid() && engine.Valid()
        invariant used[..] == old(used[..])
        invariant Progress(order, level, i, old(numSubproblems), old(poolOrders), old(engine.candidates))
      {
        SplitStep(current, used, level, order, i, old(numSubproblems), old(poolOrders), old(engine.candidates));
        i := i + 1;
      }
      PoolRoomAll(order, n, level, cutoff);
      PoolCoveredBelowAll(engine.rs, order, engine.bestLen, cutoff, poolOrders);
    }

    /** The loop invariant of generate_initial_load_get_subproblems after the
        reads below i: the pool has spent no more than their share of the room,
        both logs grew only below order, and every extension by a read below i
        is stored or pruned. */
    ghost predicate Progress(order: seq<int>, level: int, i: int, base: int,
                             ordersStart: seq<seq<int>>, candidatesStart: seq<seq<int>>)
      reads this, engine
    {
      numSubproblems <= base + Shares(|UnusedBelow(order, i)|, Room(|engine.rs|, cutoff, level + 1))
      && GrowsBelow(ordersStart, poolOrders, order)
      && GrowsBelow(candidatesStart, engine.candidates, order)
      && PoolCoveredBelow(engine.rs, order, engine.bestLen, cutoff, poolOrders, i)
    }

    /** One pass of the loop of generate_initial_load_get_subproblems: the
        loop's invariant carried from read i to read i+1. */
    method SplitStep(current: seq<char>, used: array<bool>, level: int, ghost order: seq<int>, i: int,
                     ghost base: int, ghost ordersStart: seq<seq<int>>, ghost candidatesStart: seq<seq<int>>)
      requires Valid() && engine.Valid()
      requires IsArrangement(order, |engine.rs|) && |order| == level && level != cutoff
      requires used.Length == |engine.rs| && used[..] == Flags(order, |engine.rs|)
      requires current == MergeOrder(engine.rs, order)
      requires 0 <= i < |engine.rs| && base + Room(|engine.rs|, cutoff, level) <= POOL_SIZE
      requires Progress(order, level, i, base, ordersStart, candidatesStart)
      modifies this`numSubproblems, this`poolOrders, pool, used, engine`numOverlapVerifications, engine`candidates
      ensures Valid() && engine.Valid()
      ensures used[..] == old(used[..])
      ensures Progress(order, level, i + 1, base, ordersStart, candidatesStart)
      decreases |engine.rs| - level, 2
    {
      var n := |engine.rs|;
      if !used[i] {
        ghost var ordersBefore, candidatesBefore := poolOrders, engine.candidates;
        PoolRoom(order, n, i, level, cutoff);
        SplitBy(current, used, level, order, i);
        GrowsBelowChain(ordersStart, ordersBefore, poolOrders, order);
        GrowsBelowChain(candidatesStart, candidatesBefore, engine.candidates, order);
        PoolCoveredGrow(engine.rs, order, engine.bestLen, cutoff, ordersBefore, poolOrders, i);
        PoolCoveredBelowStep(engine.rs, order, engine.bestLen, cutoff, poolOrders, i);
      } else {
        UnusedBelowSkip(order, i);
        PoolCoveredBelowStep(engine.rs, order, engine.bestLen, cutoff, poolOrders, i);
      }
    }

    /** One pass of the loop of generate_initial_load_get_subproblems for an
        unused read i: mark it, count the check, descend, unmark it. */
    method SplitBy(current: seq<char>, used: array<bool>, level: int, ghost order: seq<int>, i: int)
      requires Valid() && engine.Valid()
      requires IsArrangement(order, |engine.rs|) && |order| == level && level != cutoff
      requires used.Length == |engine.rs| && used[..] == Flags(order, |engine.rs|)
      requires current == MergeOrder(engine.rs, order)
      requires 0 <= i < |engine.rs| && !used[i]
      requires numSubproblems + Room(|engine.rs|, cutoff, level + 1) <= POOL_SIZE
      modifies this`numSubproblems, this`poolOrders, pool, used, engine`numOverlapVerifications, engine`candidates
      ensures Valid() && engine.Valid()
      ensures used[..] == old(used[..])
      ensures numSubproblems <= old(numSubproblems) + Room(|engine.rs|, cutoff, level + 1)
      ensures GrowsBelow(old(poolOrders), poolOrders, order)
      ensures GrowsBelow(old(engine.candidates), engine.candidates, order)
      ensures PoolCovered(engine.rs, order + [i], engine.bestLen, cutoff, poolOrders)
      decreases |engine.rs| - level, 1
    {
      var n := |engine.rs|;
      ArrangementMissingShort(order, n, i);
      ghost var next := order + [i];
      ArrangementExtend(order, i, n);
      FlagsExtend(order, i, n);
      GrowsBelowRefl(poolOrders, order);
      used[i] := true;
      assert next[..level] == order;
      GrowsBelowRefl(engine.candidates, order);
      GrowsBelowSnoc(engine.candidates, engine.candidates, order, next);
      engine.CountCandidate(next);
      ghost var ordersMid, candidatesMid := poolOrders, engine.candidates;
      Descend(current, used, level, order, i);
      GrowsBelowTrans(old(poolOrders), ordersMid, poolOrders, order, i);
      GrowsBelowTrans(old(engine.candidates), candidatesMid, engine.candidates, order, i);
      used[i] := false;
      FlagsRestore(order, i, n);
    }

    /** The body of that pass once read i is marked: merge it onto the
        path's string and go one level deeper unless the bound prunes it. */
    method Descend(current: seq<char>, used: array<bool>, level: int, ghost order: seq<int>, i: int)
      requires Valid() && engine.Valid()
      requires IsArrangement(order, |engine.rs|) && IsArrangement(order + [i], |engine.rs|)
      requires |order| == level < |engine.rs| && level != cutoff
      requires used.Length == |engine.rs| && used[..] == Flags(order + [i], |engine.rs|)
      requires current == MergeOrder(engine.rs, order)
      requires 0 <= i < |engine.rs|
      requires numSubproblems + Room(|engine.rs|, cutoff, level + 1) <= POOL_SIZE
      modifies this`numSubproblems, this`poolOrders, pool, used, engine`numOverlapVerifications, engine`candidates
      ensures Valid() && engine.Valid()
      ensures used[..] == old(used[..])
      ensures numSubproblems <= old(numSubproblems) + Room(|engine.rs|, cutoff, level + 1)
      ensures GrowsBelow(old(poolOrders), poolOrders, order + [i])
      ensures GrowsBelow(old(engine.candidates), engine.candidates, order + [i])
      ensures PoolCovered(engine.rs, order + [i], engine.bestLen, cutoff, poolOrders)
      decreases |engine.rs| - level, 0
    {
      ghost var next := order + [i];
      var ov := OverlapDownward(current, engine.rs[i]);
      var temp := current + engine.rs[i][ov..];
      MergeOrderExtend(engine.rs, order, i);
      if |temp| < engine.bestLen {
        GetSubproblems(temp, used, level + 1, |temp|, next);
      } else {
        GrowsBelowRefl(poolOrders, next);
        GrowsBelowRefl(engine.candidates, next);
        PoolCoveredPruned(engine.rs, next, engine.bestLen, cutoff, poolOrders);
      }
    }

    /** One pass of the loop of generate_initial_load_start_pool: the first
        phase below the path holding read i alone. */
    method StartFrom(used: array<bool>, i: int)
      requires Valid() && engine.Valid()
      requires 0 <= i < |engine.rs| && used.Length == |engine.rs| && used[..] == Flags([], |engine.rs|)
      requires numSubproblems + Room(|engine.rs|, cutoff, 1) <= POOL_SIZE
      modifies this`numSubproblems, this`poolOrders, pool, used, engine`numOverlapVerifications, engine`candidates
      ensures Valid() && engine.Valid()
      ensures used[..] == old(used[..])
      ensures numSubproblems <= old(numSubproblems) + Room(|engine.rs|, cutoff, 1)
      ensures IsPrefixOf(old(poolOrders), poolOrders)
      ensures IsPrefixOf(old(engine.candidates), engine.candidates)
      ensures PoolCovered(engine.rs, [i], engine.bestLen, cutoff, poolOrders)
    {
      var n := |engine.rs|;
      used[i] := true;
      FlagsExtend([], i, n);
      assert [] + [i] == [i];
      var initial := engine.rs[i];
      MergeOrderSingle(engine.rs, i);
      GetSubproblems(initial, used, 1, |initial|, [i]);
      used[i] := false;
      FlagsRestore([], i, n);
    }

    /** generate_initial_load_start_pool: a fresh pool, then the first phase
        from every read. Afterwards every partial ordering of cutoff reads is
        stored unless it is at least best_len long, and at most
        n (n-1) ... (n-cutoff+1) paths are stored. */
    method StartPool()
      requires Valid() && engine.Valid()
      requires numSubproblems == 0 && PoolDemand(|engine.rs|, cutoff) <= POOL_SIZE
      modifies this`pool, this`numSubproblems, this`poolOrders, engine`numOverlapVerifications, engine`candidates
      ensures Valid() && engine.Valid() && fresh(pool)
      ensures numSubproblems <= PoolDemand(|engine.rs|, cutoff)
      ensures numSubproblems <= Arr(|engine.rs|, cutoff)
      ensures IsPrefixOf(old(engine.candidates), engine.candidates)
      ensures 1 <= cutoff ==> forall p :: IsArrangement(p, |engine.rs|) && |p| == cutoff ==>
                engine.bestLen <= |MergeOrder(engine.rs, p)| || p in poolOrders
    {
      pool := new Subproblem[POOL_SIZE](_ => Subproblem([], []));
      FillPool();
      if 1 <= cutoff {
        StartsPooledAll(engine.rs, engine.bestLen, cutoff, poolOrders);
      } else {
        RoomBeyond(|engine.rs|, cutoff);
      }
    }

    /** The loop of generate_initial_load_start_pool over the first reads. */
    method FillPool()
      requires Valid() && engine.Valid()
      requires numSubproblems == 0 && PoolDemand(|engine.rs|, cutoff) <= POOL_SIZE
      modifies this`numSubproblems, this`poolOrders, pool, engine`numOverlapVerifications, engine`candidates
      ensures Valid() && engine.Valid()
      ensures numSubproblems <= PoolDemand(|engine.rs|, cutoff)
      ensures IsPrefixOf(old(engine.candidates), engine.candidates)
      ensures 1 <= cutoff ==> StartsPooled(engine.rs, engine.bestLen, cutoff, poolOrders, |engine.rs|)
    {
      var n := |engine.rs|;
      ghost var share := Room(n, cutoff, 1);
      StartsPooledNone(engine.rs, engine.bestLen, cutoff, poolOrders);
      assert Shares(0, share) == 0;
      var used := new bool[n](_ => false);
      NoFlags(used[..], n);
      assert StartProgress(0, engine.candidates);
      var i := 0;
      while i < n
        invariant FillInv(used, i, old(engine.candidates))
      {
        StartStep(used, i, old(engine.candidates));
        i := i + 1;
      }
    }

    /** The loop invariant of generate_initial_load_start_pool after the
        reads below i: a share of the room spent per read, the search's log
        only grown, and every path starting below i stored or pruned. */
    ghost predicate StartProgress(i: int, candidatesStart: seq<seq<int>>)
      reads this, engine
    {
      var n, share := |engine.rs|, Room(|engine.rs|, cutoff, 1);
      numSubproblems <= Shares(i, share) && Shares(n, share) <= POOL_SIZE
      && IsPrefixOf(candidatesStart, engine.candidates)
      && (1 <= cutoff ==> StartsPooled(engine.rs, engine.bestLen, cutoff, poolOrders, i))
    }

    /** The whole loop invariant of generate_initial_load_start_pool. */
    ghost predicate FillInv(used: array<bool>, i: int, candidatesStart: seq<seq<int>>)
      reads this, pool, engine, used
    {
      && Valid() && engine.Valid()
      && 0 <= i <= |engine.rs| && used.Length == |engine.rs| && used[..] == Flags([], |engine.rs|)
      && StartProgress(i, candidatesStart)
    }

    /** One pass of the loop of generate_initial_load_start_pool. */
    method StartStep(used: array<bool>, i: int, ghost candidatesStart: seq<seq<int>>)
      requires FillInv(used, i, candidatesStart) && i < |engine.rs|
      modifies this`numSubproblems, this`poolOrders, pool, used, engine`numOverlapVerifications, engine`candidates
      ensures FillInv(used, i + 1, candidatesStart)
    {
      var n := |engine.rs|;
      ghost var share := Room(n, cutoff, 1);
      ghost var ordersBefore, candidatesBefore := poolOrders, engine.candidates;
      SharesMono(i + 1, n, share);
      StartFrom(used, i);
      PrefixTransitive(candidatesStart, candidatesBefore, engine.candidates);
      if 1 <= cutoff {
        StartsPooledStep(engine.rs, engine.bestLen, cutoff, ordersBefore, poolOrders, i);
      }
    }

    /** The loop invariant of solve_launch_parallel_search after the stored
        paths below sub: one closed segment of each log per path, in stored
        order, and every such path searched down to a best_len that only
        shrank. */
    ghost predicate LaunchInv(sub: int, solutionsStart: seq<seq<int>>, candidatesStart: seq<seq<int>>,
                              lenStart: int, resultStart: seq<char>, marks: seq<int>, candidateMarks: seq<int>)
      reads this, pool, engine
    {
      && Valid() && engine.Valid()
      && 0 <= sub <= numSubproblems
      && SearchedInOrder(solutionsStart, engine.solutions, poolOrders, marks, sub)
      && SearchedInOrder(candidatesStart, engine.candidates, poolOrders, candidateMarks, sub)
      && engine.bestLen <= lenStart
      && (engine.bestLen == lenStart ==> engine.bestResult == resultStart)
      && (sub == 0 ==> engine.bestLen == lenStart)
      && AllSearched(engine.rs, poolOrders, sub, engine.bestLen)
    }

    /** solve_launch_parallel_search: the search of prune.cpp below every
        stored path, one after the other in stored order, each from its
        stored string and a copy of its stored flags. */
    method LaunchSearch() returns (ghost marks: seq<int>, ghost candidateMarks: seq<int>)
      requires Valid() && engine.Valid()
      modifies engine
      ensures Valid() && engine.Valid()
      ensures SearchedInOrder(old(engine.solutions), engine.solutions, poolOrders, marks, numSubproblems)
      ensures SearchedInOrder(old(engine.candidates), engine.candidates, poolOrders, candidateMarks, numSubproblems)
      ensures engine.bestLen <= old(engine.bestLen)
      ensures engine.bestLen == old(engine.bestLen) ==> engine.bestResult == old(engine.bestResult)
      ensures numSubproblems == 0 ==> engine.bestLen == old(engine.bestLen)
      ensures AllSearched(engine.rs, poolOrders, numSubproblems, engine.bestLen)
    {
      var sub := 0;
      marks, candidateMarks := [|engine.solutions|], [|engine.candidates|];
      SearchedInOrderNone(engine.solutions, poolOrders);
      SearchedInOrderNone(engine.candidates, poolOrders);
      while sub < numSubproblems
        invariant LaunchInv(sub, old(engine.solutions), old(engine.candidates), old(engine.bestLen),
                            old(engine.bestResult), marks, candidateMarks)
      {
        marks, candidateMarks := ResumeEntry(sub, old(engine.solutions), old(engine.candidates), old(engine.bestLen),
                                             old(engine.bestResult), marks, candidateMarks);
        sub := sub + 1;
      }
    }

    /** One pass of the loop of solve_launch_parallel_search: the search below
        the stored path sub. */
    method ResumeEntry(sub: int, ghost solutionsStart: seq<seq<int>>, ghost candidatesStart: seq<seq<int>>,
                       ghost lenStart: int, ghost resultStart: seq<char>,
                       ghost marks: seq<int>, ghost candidateMarks: seq<int>)
      returns (ghost marks': seq<int>, ghost candidateMarks': seq<int>)
      requires LaunchInv(sub, solutionsStart, candidatesStart, lenStart, resultStart, marks, candidateMarks)
      requires sub < numSubproblems
      modifies engine
      ensures LaunchInv(sub + 1, solutionsStart, candidatesStart, lenStart, resultStart, marks', candidateMarks')
    {
      var n := |engine.rs|;
      var entry := pool[sub];
      assert entry == EntryOf(engine.rs, poolOrders[sub]);
      var used := new bool[n](j requires 0 <= j < n => entry.used[j]);
      assert used[..] == entry.used;
      ghost var before := engine.bestLen;
      ghost var solutionsBefore, candidatesBefore := engine.solutions, engine.candidates;
      engine.BuildSuperstring(entry.current, used, cutoff, |entry.current|, poolOrders[sub]);
      SearchedInOrderSnoc(solutionsStart, solutionsBefore, engine.solutions, poolOrders, marks, sub);
      SearchedInOrderSnoc(candidatesStart, candidatesBefore, engine.candidates, poolOrders, candidateMarks, sub);
      marks', candidateMarks' := marks + [|engine.solutions|], candidateMarks + [|engine.candidates|];
      AllSearchedWeaken(engine.rs, poolOrders, sub, before, engine.bestLen);
      AllSearchedSnoc(engine.rs, poolOrders, sub, engine.bestLen);
    }

    /** main after reading the input: fill the pool, then search below every
        stored path. With a cutoff between 1 and the number of reads the best
        length is that of the shortest merged string over all orderings;
        with any other cutoff no subproblem is stored and nothing is found. */
    method Solve()
      requires Valid() && engine.Valid() && numSubproblems == 0
      requires PoolDemand(|engine.rs|, cutoff) <= POOL_SIZE
      modifies this, engine
      ensures Valid() && engine.Valid()
      ensures engine.bestLen <= old(engine.bestLen)
      ensures 1 <= cutoff <= |engine.rs| ==>
                forall p :: IsPermutation(p, |engine.rs|) ==> engine.bestLen <= |MergeOrder(engine.rs, p)|
      ensures (cutoff < 1 || cutoff > |engine.rs|) ==>
                numSubproblems == 0 && engine.bestLen == old(engine.bestLen) && engine.bestResult == old(engine.bestResult)
      ensures engine.bestLen < INT_MAX ==>
                IsPermutation(engine.bestOrder, |engine.rs|) && engine.bestResult == MergeOrder(engine.rs, engine.bestOrder)
      ensures engine.bestLen < INT_MAX ==> |engine.bestResult| == engine.bestLen
      ensures engine.bestLen < INT_MAX ==> forall j :: 0 <= j < |engine.rs| ==> IsSubstring(engine.rs[j], engine.bestResult)
    {
      var n := |engine.rs|;
      StartPool();
      ghost var firstBound := engine.bestLen;
      if cutoff < 1 || cutoff > n {
        RoomBeyond(n, cutoff);
      }
      ghost var marks, candidateMarks := LaunchSearch();
      if 1 <= cutoff <= n {
        Optimal(engine.rs, poolOrders, cutoff, firstBound, engine.bestLen);
      }
      if engine.bestLen < INT_MAX {
        forall j | 0 <= j < n
          ensures IsSubstring(engine.rs[j], engine.bestResult)
        {
          MergeOrderIsSuperstring(engine.rs, engine.bestOrder, j);
        }
      }
    }
  }

  /** Before the first read nothing needs to be stored. */
  lemma StartsPooledNone(rs: seq<seq<char>>, bound: int, cutoff: int, found: seq<seq<int>>)
    ensures StartsPooled(rs, bound, cutoff, found, 0)
  {
    forall p | IsArrangement(p, |rs|) && |p| == cutoff && |p| > 0
      ensures p[0] >= 0
    {
    }
  }

  /** Every partial ordering of cutoff reads whose first read is below i is
      stored, unless it is at least bound long. */
  ghost predicate StartsPooled(rs: seq<seq<char>>, bound: int, cutoff: int, found: seq<seq<int>>, i: int)
  {
    forall p :: IsArrangement(p, |rs|) && |p| == cutoff && |p| > 0 && p[0] < i ==>
      bound <= |MergeOrder(rs, p)| || p in found
  }

  lemma StartsPooledStep(rs: seq<seq<char>>, bound: int, cutoff: int, found: seq<seq<int>>, more: seq<seq<int>>, i: int)
    requires 1 <= cutoff && 0 <= i
    requires StartsPooled(rs, bound, cutoff, found, i) && IsPrefixOf(found, more)
    requires PoolCovered(rs, [i], bound, cutoff, more)
    ensures StartsPooled(rs, bound, cutoff, more, i + 1)
  {
    forall p | IsArrangement(p, |rs|) && |p| == cutoff && |p| > 0 && p[0] < i + 1
      ensures bound <= |MergeOrder(rs, p)| || p in more
    {
      if p[0] == i {
        assert p == [i] + p[1..];
        assert ReachesDepth([i], p[1..], |rs|, cutoff);
      } else if p in found {
        var k := IndexOf(found, p);
        assert more[k] == found[k];
      }
    }
  }

  lemma StartsPooledAll(rs: seq<seq<char>>, bound: int, cutoff: int, found: seq<seq<int>>)
    requires 1 <= cutoff && StartsPooled(rs, bound, cutoff, found, |rs|)
    ensures forall p :: IsArrangement(p, |rs|) && |p| == cutoff ==> bound <= |MergeOrder(rs, p)| || p in found
  {
  }
}
