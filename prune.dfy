/** prune.cpp: a recursive branch-and-bound search over orderings of the
    reads. A path is extended one unused read at a time; each extension
    merges the read onto the whole merged string by their maximal overlap,
    and a branch is followed only while it is strictly shorter than the
    best complete superstring found so far. */
module Prune {
  import opened Overlap
  import opened Orders
  import opened Merging

  /** The initial value of best_len. */
  const INT_MAX: int := 2147483647

  /** Every completion of the path order merges to at least bound symbols. */
  ghost predicate Covered(rs: seq<seq<char>>, order: seq<int>, bound: int)
  {
    forall ext :: IsCompletion(order, ext, |rs|) ==> bound <= |MergeOrder(rs, order + ext)|
  }

  /** The same for the completions whose next read is below i. */
  ghost predicate CoveredBelow(rs: seq<seq<char>>, order: seq<int>, bound: int, i: int)
  {
    forall ext :: IsCompletion(order, ext, |rs|) && |ext| > 0 && ext[0] < i ==>
      bound <= |MergeOrder(rs, order + ext)|
  }

  /** Every complete ordering whose first read is below i merges to at least bound symbols. */
  ghost predicate StartsCovered(rs: seq<seq<char>>, bound: int, i: int)
  {
    forall p :: IsPermutation(p, |rs|) && |p| > 0 && p[0] < i ==> bound <= |MergeOrder(rs, p)|
  }

  /** Every entry of a log is a complete ordering. */
  ghost predicate AllComplete(log: seq<seq<int>>, n: int)
  {
    forall k :: 0 <= k < |log| ==> IsPermutation(log[k], n)
  }

  /** Every entry of a log is a partial ordering. */
  ghost predicate AllPartial(log: seq<seq<int>>, n: int)
  {
    forall k :: 0 <= k < |log| ==> IsArrangement(log[k], n)
  }

  /** log is oldLog followed by entries that all extend the path order. */
  ghost predicate GrowsBelow(oldLog: seq<seq<int>>, log: seq<seq<int>>, order: seq<int>)
  {
    IsPrefixOf(oldLog, log) &&
    forall k :: |oldLog| <= k < |log| ==> |order| <= |log[k]| && log[k][..|order|] == order
  }

  lemma AllCompleteSnoc(log: seq<seq<int>>, p: seq<int>, n: int)
    requires AllComplete(log, n) && IsPermutation(p, n)
    ensures AllComplete(log + [p], n)
  {
  }

  lemma AllPartialSnoc(log: seq<seq<int>>, p: seq<int>, n: int)
    requires AllPartial(log, n) && IsArrangement(p, n)
    ensures AllPartial(log + [p], n)
  {
  }

  lemma GrowsBelowRefl(log: seq<seq<int>>, order: seq<int>)
    ensures GrowsBelow(log, log, order)
  {
  }

  lemma GrowsBelowSnoc(oldLog: seq<seq<int>>, log: seq<seq<int>>, order: seq<int>, p: seq<int>)
    requires GrowsBelow(oldLog, log, order)
    requires |order| <= |p| && p[..|order|] == order
    ensures GrowsBelow(oldLog, log + [p], order)
  {
    assert (log + [p])[..|oldLog|] == log[..|oldLog|];
  }

  /** Entries below a longer path are below the shorter one too. */
  lemma GrowsBelowTrans(a: seq<seq<int>>, b: seq<seq<int>>, c: seq<seq<int>>, order: seq<int>, i: int)
    requires GrowsBelow(a, b, order) && GrowsBelow(b, c, order + [i])
    ensures GrowsBelow(a, c, order)
  {
    PrefixTransitive(a, b, c);
    forall k | |a| <= k < |c|
      ensures |order| <= |c[k]| && c[k][..|order|] == order
    {
      if k < |b| {
        assert c[k] == b[k];
      } else {
        assert c[k][..|order|] == c[k][..|order| + 1][..|order|];
        assert (order + [i])[..|order|] == order;
      }
    }
  }

  lemma GrowsBelowChain(a: seq<seq<int>>, b: seq<seq<int>>, c: seq<seq<int>>, order: seq<int>)
    requires GrowsBelow(a, b, order) && GrowsBelow(b, c, order)
    ensures GrowsBelow(a, c, order)
  {
    PrefixTransitive(a, b, c);
    forall k | |a| <= k < |c|
      ensures |order| <= |c[k]| && c[k][..|order|] == order
    {
      if k < |b| {
        assert c[k] == b[k];
      }
    }
  }

  /** An entry logged after b, where a is a prefix of b and b of c, is
      logged after a. */
  lemma LoggedAfter(a: seq<seq<int>>, b: seq<seq<int>>, c: seq<seq<int>>, p: seq<int>)
    requires IsPrefixOf(a, b) && IsPrefixOf(b, c)
    requires p in b[|a|..] || p in c[|b|..]
    ensures p in c[|a|..]
  {
    assert c[|a|..] == b[|a|..] + c[|b|..];
  }

  /** A complete path is its own only completion. */
  lemma CoveredLeaf(rs: seq<seq<char>>, order: seq<int>, bound: int)
    requires IsPermutation(order, |rs|) && bound <= |MergeOrder(rs, order)|
    ensures Covered(rs, order, bound)
  {
    forall ext | IsCompletion(order, ext, |rs|)
      ensures bound <= |MergeOrder(rs, order + ext)|
    {
      assert order + ext == order;
    }
  }

  /** The prune is admissible: a path that is already at least bound long
      has no completion shorter than bound. */
  lemma CoveredPruned(rs: seq<seq<char>>, order: seq<int>, bound: int)
    requires IsArrangement(order, |rs|) && bound <= |MergeOrder(rs, order)|
    ensures Covered(rs, order, bound)
  {
    forall ext | IsCompletion(order, ext, |rs|)
      ensures bound <= |MergeOrder(rs, order + ext)|
    {
      MergeOrderGrows(rs, order, ext);
    }
  }

  lemma CoveredWeaken(rs: seq<seq<char>>, order: seq<int>, bound: int, smaller: int)
    requires Covered(rs, order, bound) && smaller <= bound
    ensures Covered(rs, order, smaller)
  {
  }

  lemma CoveredBelowStart(rs: seq<seq<char>>, order: seq<int>, bound: int)
    ensures CoveredBelow(rs, order, bound, 0)
  {
    CompletionsStartOffPath(order, |rs|);
  }

  /** One more candidate read i handled: either it is on the path, or its
      subtree has been searched down to bound. */
  lemma CoveredBelowStep(rs: seq<seq<char>>, order: seq<int>, bound: int, smaller: int, i: int)
    requires CoveredBelow(rs, order, bound, i) && smaller <= bound
    requires i in order || Covered(rs, order + [i], smaller)
    ensures CoveredBelow(rs, order, smaller, i + 1)
  {
    forall ext | IsCompletion(order, ext, |rs|) && |ext| > 0 && ext[0] < i + 1
      ensures smaller <= |MergeOrder(rs, order + ext)|
    {
      CompletionStep(order, ext, |rs|);
      if ext[0] == i {
        assert IsCompletion(order + [i], ext[1..], |rs|);
        assert order + ext == (order + [i]) + ext[1..];
      }
    }
  }

  /** A partial path's completions all have a next read, and it is below n. */
  lemma CoveredBelowAll(rs: seq<seq<char>>, order: seq<int>, bound: int)
    requires IsArrangement(order, |rs|) && |order| < |rs|
    requires CoveredBelow(rs, order, bound, |rs|)
    ensures Covered(rs, order, bound)
  {
    CompletionsStartOffPath(order, |rs|);
    forall ext | IsCompletion(order, ext, |rs|)
      ensures bound <= |MergeOrder(rs, order + ext)|
    {
      assert |ext| > 0;
    }
  }

  /** The orderings starting at read i are the completions of [i]. */
  lemma StartsCoveredStep(rs: seq<seq<char>>, bound: int, smaller: int, i: int)
    requires StartsCovered(rs, bound, i) && smaller <= bound
    requires Covered(rs, [i], smaller)
    ensures StartsCovered(rs, smaller, i + 1)
  {
    forall p | IsPermutation(p, |rs|) && |p| > 0 && p[0] < i + 1
      ensures smaller <= |MergeOrder(rs, p)|
    {
      if p[0] == i {
        assert p == [i] + p[1..];
        assert IsCompletion([i], p[1..], |rs|);
      }
    }
  }

  /** Every complete ordering of at least one read starts below n. */
  lemma StartsCoveredAll(rs: seq<seq<char>>, bound: int)
    requires StartsCovered(rs, bound, |rs|)
    ensures forall p :: IsPermutation(p, |rs|) && |rs| > 0 ==> bound <= |MergeOrder(rs, p)|
  {
  }

  /** The globals of prune.cpp: the reads, the best result and the two
      effort counters. The ghost fields record what the counters count. */
  class Search {
    const rs: seq<seq<char>>
    var bestLen: int
    var bestResult: seq<char>
    var numSolutions: nat
    var numOverlapVerifications: nat
    /** The complete ordering whose merged string is bestResult. */
    ghost var bestOrder: seq<int>
    /** The complete orderings counted by numSolutions, in the order reached. */
    ghost var solutions: seq<seq<int>>
    /** The extensions (a path and one more read) counted by numOverlapVerifications. */
    ghost var candidates: seq<seq<int>>

    /** best_len is a length reached by a complete ordering once it is below INT_MAX. */
    ghost predicate BestValid()
      reads this
    {
      && bestLen <= INT_MAX
      && (bestLen < INT_MAX ==>
            IsPermutation(bestOrder, |rs|) && bestResult == MergeOrder(rs, bestOrder) && |bestResult| == bestLen)
    }

    ghost predicate Valid()
      reads this
    {
      && numSolutions == |solutions|
      && numOverlapVerifications == |candidates|
      && AllComplete(solutions, |rs|)
      && AllPartial(candidates, |rs|)
      && BestValid()
    }

    constructor (input: seq<seq<char>>)
      ensures Valid()
      ensures rs == input && bestLen == INT_MAX && bestResult == []
      ensures numSolutions == 0 && numOverlapVerifications == 0
    {
      rs := input;
      bestLen := INT_MAX;
      bestResult := [];
      numSolutions := 0;
      numOverlapVerifications := 0;
      bestOrder := [];
      solutions := [];
      candidates := [];
    }

    /** The terminal case of build_superstring: one more solution counted,
        and the best replaced when the path is strictly shorter. */
    method RecordSolution(current: seq<char>, ghost order: seq<int>)
      requires Valid()
      requires IsPermutation(order, |rs|) && current == MergeOrder(rs, order)
      modifies this
      ensures Valid()
      ensures |current| < old(bestLen) ==> bestLen == |current| && bestResult == current && bestOrder == order
      ensures |current| >= old(bestLen) ==>
                bestLen == old(bestLen) && bestResult == old(bestResult) && bestOrder == old(bestOrder)
      ensures bestLen <= |current|
      ensures numSolutions == old(numSolutions) + 1 && solutions == old(solutions) + [order]
      ensures candidates == old(candidates) && numOverlapVerifications == old(numOverlapVerifications)
    {
      numSolutions := numSolutions + 1;
      AllCompleteSnoc(solutions, order, |rs|);
      solutions := solutions + [order];
      if |current| < bestLen {
        bestLen := |current|;
        bestResult := current;
        bestOrder := order;
      }
    }

    /** One overlap check counted, for the extension next of a path. */
    method CountCandidate(ghost next: seq<int>)
      requires Valid() && IsArrangement(next, |rs|)
      modifies this`numOverlapVerifications, this`candidates
      ensures Valid()
      ensures numOverlapVerifications == old(numOverlapVerifications) + 1 && candidates == old(candidates) + [next]
    {
      numOverlapVerifications := numOverlapVerifications + 1;
      AllPartialSnoc(candidates, next, |rs|);
      candidates := candidates + [next];
    }

    /** build_superstring: explore every completion of the path order, whose
        merged string is current. On return the used flags are as on entry,
        and best_len is at most the length of every completion. */
    method BuildSuperstring(current: seq<char>, used: array<bool>, level: int, currLen: int, ghost order: seq<int>)
      requires Valid()
      requires IsArrangement(order, |rs|) && |order| == level
      requires used.Length == |rs| && used[..] == Flags(order, |rs|)
      requires current == MergeOrder(rs, order) && currLen == |current|
      modifies this, used
      ensures Valid()
      ensures used[..] == old(used[..])
      ensures bestLen <= old(bestLen)
      ensures bestLen == old(bestLen) ==> bestResult == old(bestResult)
      ensures Covered(rs, order, bestLen)
      ensures GrowsBelow(old(solutions), solutions, order)
      ensures bestLen == old(bestLen) ==> bestOrder == old(bestOrder)
      ensures bestLen < old(bestLen) ==> bestOrder in solutions[|old(solutions)|..]
      ensures GrowsBelow(old(candidates), candidates, order)
      decreases |rs| - level, 1
    {
      ArrangementLength(order, |rs|);
      GrowsBelowRefl(solutions, order);
      GrowsBelowRefl(candidates, order);
      var n := |rs|;
      if level == n {
        RecordSolution(current, order);
        assert solutions[|old(solutions)|..] == [order];
        GrowsBelowSnoc(old(solutions), old(solutions), order, order);
        CoveredLeaf(rs, order, bestLen);
        return;
      }
      CoveredBelowStart(rs, order, bestLen);
      var i := 0;
      while i < n
        invariant 0 <= i <= n
        invariant Valid()
        invariant used[..] == old(used[..])
        invariant bestLen <= old(bestLen)
        invariant bestLen == old(bestLen) ==> bestResult == old(bestResult)
        invariant CoveredBelow(rs, order, bestLen, i)
        invariant GrowsBelow(old(solutions), solutions, order)
        invariant bestLen == old(bestLen) ==> bestOrder == old(bestOrder)
        invariant bestLen < old(bestLen) ==> bestOrder in solutions[|old(solutions)|..]
        invariant GrowsBelow(old(candidates), candidates, order)
      {
        if !used[i] {
          ghost var before, solutionsBefore, candidatesBefore := bestLen, solutions, candidates;
          ExtendBy(current, used, level, order, i);
          if bestLen < old(bestLen) {
            LoggedAfter(old(solutions), solutionsBefore, solutions, bestOrder);
          }
          GrowsBelowChain(old(solutions), solutionsBefore, solutions, order);
          GrowsBelowChain(old(candidates), candidatesBefore, candidates, order);
          CoveredBelowStep(rs, order, before, bestLen, i);
        } else {
          CoveredBelowStep(rs, order, bestLen, bestLen, i);
        }
        i := i + 1;
      }
      CoveredBelowAll(rs, order, bestLen);
    }

    /** One pass of the loop of build_superstring for an unused read i: mark
        it, count the overlap check, merge it onto the path, descend while the
        result is strictly shorter than best_len, and clear the mark again. */
    method ExtendBy(current: seq<char>, used: array<bool>, level: int, ghost order: seq<int>, i: int)
      requires Valid()
      requires IsArrangement(order, |rs|) && |order| == level < |rs|
      requires used.Length == |rs| && used[..] == Flags(order, |rs|)
      requires current == MergeOrder(rs, order)
      requires 0 <= i < |rs| && !used[i]
      modifies this, used
      ensures Valid()
      ensures used[..] == old(used[..])
      ensures bestLen <= old(bestLen)
      ensures bestLen == old(bestLen) ==> bestResult == old(bestResult)
      ensures Covered(rs, order + [i], bestLen)
      ensures GrowsBelow(old(solutions), solutions, order)
      ensures bestLen == old(bestLen) ==> bestOrder == old(bestOrder)
      ensures bestLen < old(bestLen) ==> bestOrder in solutions[|old(solutions)|..]
      ensures GrowsBelow(old(candidates), candidates, order)
      decreases |rs| - level, 0
    {
      var n := |rs|;
      ghost var next := order + [i];
      ArrangementExtend(order, i, n);
      FlagsExtend(order, i, n);
      GrowsBelowRefl(solutions, order);
      used[i] := true;
      assert next[..level] == order;
      GrowsBelowRefl(candidates, order);
      GrowsBelowSnoc(candidates, candidates, order, next);
      CountCandidate(next);
      ghost var solutionsMid, candidatesMid := solutions, candidates;
      var ov := OverlapDownward(current, rs[i]);
      var temp := current + rs[i][ov..];
      MergeOrderExtend(rs, order, i);
      if |temp| < bestLen {
        BuildSuperstring(temp, used, level + 1, |temp|, next);
        GrowsBelowTrans(old(solutions), solutionsMid, solutions, order, i);
        GrowsBelowTrans(old(candidates), candidatesMid, candidates, order, i);
      } else {
        CoveredPruned(rs, next, bestLen);
      }
      used[i] := false;
      FlagsRestore(order, i, n);
    }

    /** The start loop of main: one search per starting read. Afterwards
        best_len is the length of the shortest merged string over all
        orderings, and best_result is that string. */
    method SearchFromEveryRead()
      requires Valid()
      modifies this
      ensures Valid()
      ensures bestLen <= old(bestLen)
      ensures bestLen == old(bestLen) ==> bestResult == old(bestResult)
      ensures forall p :: IsPermutation(p, |rs|) && |rs| > 0 ==> bestLen <= |MergeOrder(rs, p)|
      ensures bestLen < INT_MAX ==> IsPermutation(bestOrder, |rs|) && bestResult == MergeOrder(rs, bestOrder)
      ensures bestLen < INT_MAX ==> |bestResult| == bestLen
      ensures bestLen < INT_MAX ==> forall j :: 0 <= j < |rs| ==> IsSubstring(rs[j], bestResult)
    {
      var n := |rs|;
      var used := new bool[n](_ => false);
      var i := 0;
      while i < n
        invariant 0 <= i <= n
        invariant Valid()
        invariant used[..] == Flags([], n)
        invariant bestLen <= old(bestLen)
        invariant bestLen == old(bestLen) ==> bestResult == old(bestResult)
        invariant StartsCovered(rs, bestLen, i)
      {
        ghost var before := bestLen;
        used[i] := true;
        FlagsExtend([], i, n);
        assert [] + [i] == [i];
        var initial := rs[i];
        MergeOrderSingle(rs, i);
        BuildSuperstring(initial, used, 1, |initial|, [i]);
        StartsCoveredStep(rs, before, bestLen, i);
        used[i] := false;
        FlagsRestore([], i, n);
        i := i + 1;
      }
      StartsCoveredAll(rs, bestLen);
      if bestLen < INT_MAX {
        forall j | 0 <= j < n
          ensures IsSubstring(rs[j], bestResult)
        {
          MergeOrderIsSuperstring(rs, bestOrder, j);
        }
      }
    }
  }
}
