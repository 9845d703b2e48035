/** nonrec.cpp: a table of pairwise overlaps, a greedy tour whose length
    seeds the bound, then a depth-first search over the orderings that
    carries the used reads as the bits of a 32-bit int and prunes every
    extension that is not strictly shorter than the best so far. Each read is
    appended past its table overlap with the read before it. */
module Nonrec {
  import opened Overlap
  import opened Orders
  import opened Merging
  import opened Chains

  const MAX_READS: int := 1024
  /** best_len before solve runs (1e9). */
  const INITIAL_BEST: int := 1000000000
  /** The most reads whose mask (1 << n_reads) - 1 a 32-bit int holds. */
  const MASK_READS: int := 30

  // The used mask: an int whose bit j is set when read j is on the path.
  // C's shifts and bitwise operators are written out on non-negative ints;
  // with at most MASK_READS reads no value reaches the sign bit.

  /** 1 << i. */
  function Pow2(i: nat): (r: nat)
    ensures r >= 1
  {
    if i == 0 then 1 else 2 * Pow2(i - 1)
  }

  /** Bit j of m. */
  predicate HasBit(m: nat, j: nat)
    decreases j
  {
    if j == 0 then m % 2 == 1 else HasBit(m / 2, j - 1)
  }

  /** a & b, bit by bit. */
  function And(a: nat, b: nat): nat
    decreases a
  {
    if a == 0 || b == 0 then 0
    else 2 * And(a / 2, b / 2) + (if a % 2 == 1 && b % 2 == 1 then 1 else 0)
  }

  /** a | b, bit by bit. */
  function Or(a: nat, b: nat): nat
    decreases a + b
  {
    if a == 0 then b
    else if b == 0 then a
    else 2 * Or(a / 2, b / 2) + (if a % 2 == 1 || b % 2 == 1 then 1 else 0)
  }

  /** The mask of n reads all used: (1 << n) - 1. */
  function FullMask(n: nat): nat
  {
    Pow2(n) - 1
  }

  /** Every bit of mask says whether its read is used. */
  ghost predicate MaskHolds(mask: nat, used: seq<bool>)
  {
    forall j: nat :: HasBit(mask, j) <==> j < |used| && used[j]
  }

  /** The bits of 2 * m + r: r, then the bits of m. */
  lemma BitsOfDouble(m: nat, r: nat, j: nat)
    requires r < 2
    ensures HasBit(2 * m + r, j) <==> if j == 0 then r == 1 else HasBit(m, j - 1)
  {
  }

  lemma {:induction false} NoBitsOfZero(j: nat)
    ensures !HasBit(0, j)
    decreases j
  {
    if j > 0 {
      NoBitsOfZero(j - 1);
    }
  }

  /** m & (1 << i) is 1 << i when bit i of m is set, else 0. */
  lemma {:induction false} AndPow2(m: nat, i: nat)
    ensures And(m, Pow2(i)) == if HasBit(m, i) then Pow2(i) else 0
    decreases i
  {
    if m == 0 {
      NoBitsOfZero(i);
    } else if i > 0 {
      AndPow2(m / 2, i - 1);
      assert Pow2(i) / 2 == Pow2(i - 1) && Pow2(i) % 2 == 0;
    }
  }

  /** The bits of a | b are those of a and those of b. */
  lemma {:induction false} OrBits(a: nat, b: nat, j: nat)
    ensures HasBit(Or(a, b), j) <==> HasBit(a, j) || HasBit(b, j)
    decreases a + b
  {
    if a == 0 {
      NoBitsOfZero(j);
    } else if b == 0 {
      NoBitsOfZero(j);
    } else {
      var r := if a % 2 == 1 || b % 2 == 1 then 1 else 0;
      BitsOfDouble(Or(a / 2, b / 2), r, j);
      BitsOfDouble(a / 2, a % 2, j);
      BitsOfDouble(b / 2, b % 2, j);
      if j > 0 {
        OrBits(a / 2, b / 2, j - 1);
      }
    }
  }

  /** 1 << i has bit i alone. */
  lemma {:induction false} Pow2Bits(i: nat, j: nat)
    ensures HasBit(Pow2(i), j) <==> i == j
    decreases i
  {
    BitsOfDouble(if i == 0 then 0 else Pow2(i - 1), if i == 0 then 1 else 0, j);
    if i == 0 {
      NoBitsOfZero(if j == 0 then 0 else j - 1);
    } else if j > 0 {
      Pow2Bits(i - 1, j - 1);
    }
  }

  /** (1 << n) - 1 has exactly the bits below n. */
  lemma {:induction false} FullMaskBits(n: nat, j: nat)
    ensures HasBit(FullMask(n), j) <==> j < n
    decreases n
  {
    if n == 0 {
      NoBitsOfZero(j);
    } else {
      BitsOfDouble(FullMask(n - 1), 1, j);
      if j > 0 {
        FullMaskBits(n - 1, j - 1);
      }
    }
  }

  /** Two ints with the same bits are equal. */
  lemma {:induction false} SameBits(a: nat, b: nat)
    requires forall j: nat :: HasBit(a, j) <==> HasBit(b, j)
    ensures a == b
    decreases a + b
  {
    if a != 0 || b != 0 {
      assert HasBit(a, 0) <==> HasBit(b, 0);
      forall j: nat
        ensures HasBit(a / 2, j) <==> HasBit(b / 2, j)
      {
        assert HasBit(a, j + 1) <==> HasBit(b, j + 1);
      }
      SameBits(a / 2, b / 2);
    }
  }

  /** 1 << i is the mask of the path that starts at read i. */
  lemma MaskSingle(n: nat, i: int)
    requires 0 <= i < n
    ensures MaskHolds(Pow2(i), Flags([i], n))
  {
    forall j: nat
      ensures HasBit(Pow2(i), j) <==> j < n && Flags([i], n)[j]
    {
      Pow2Bits(i, j);
    }
  }

  /** used_mask & (1 << i) tests whether read i is used. */
  lemma MaskTest(mask: nat, used: seq<bool>, i: int)
    requires MaskHolds(mask, used) && 0 <= i < |used|
    ensures And(mask, Pow2(i)) != 0 <==> used[i]
  {
    AndPow2(mask, i);
    assert HasBit(mask, i as nat) <==> used[i];
  }

  /** used_mask | (1 << i) marks read i used and changes no other bit. */
  lemma MaskSet(mask: nat, used: seq<bool>, i: int)
    requires MaskHolds(mask, used) && 0 <= i < |used|
    ensures MaskHolds(Or(mask, Pow2(i)), used[i := true])
  {
    forall j: nat
      ensures HasBit(Or(mask, Pow2(i)), j) <==> j < |used| && used[i := true][j]
    {
      OrBits(mask, Pow2(i), j);
      Pow2Bits(i, j);
    }
  }

  /** The full-mask test of dfs is the test for a complete path. */
  lemma MaskFull(mask: nat, path: seq<int>, n: nat)
    requires IsArrangement(path, n) && MaskHolds(mask, Flags(path, n))
    ensures mask == FullMask(n) <==> IsPermutation(path, n)
  {
    ArrangementLength(path, n);
    if IsPermutation(path, n) {
      PermutationCovers(path, n);
      forall j: nat
        ensures HasBit(mask, j) <==> HasBit(FullMask(n), j)
      {
        FullMaskBits(n, j);
      }
      SameBits(mask, FullMask(n));
    } else if forall j :: 0 <= j < n ==> j in path {
      CoveringIsPermutation(path, n);
    } else {
      var j :| 0 <= j < n && j !in path;
      FullMaskBits(n, j);
    }
  }

  // The greedy tour.

  /** The inner loop of greedy_superstring_length over the candidates
      below m: the largest table overlap with curr among the unused reads,
      the lowest such read on ties, and (-1, -1) when every read is used. */
  function Pick(rs: seq<seq<char>>, curr: int, used: seq<bool>, m: nat): (r: (int, int))
    requires 0 <= curr < |rs| && |used| == |rs| && m <= |rs|
    ensures r.1 == -1 <==> forall j :: 0 <= j < m ==> used[j]
    ensures r.1 == -1 ==> r.0 == -1
    ensures r.1 != -1 ==> 0 <= r.1 < m && !used[r.1] && r.0 == PairOverlap(rs, curr, r.1)
    ensures forall j :: 0 <= j < m && !used[j] ==> PairOverlap(rs, curr, j) <= r.0
    ensures forall j :: 0 <= j < r.1 && !used[j] ==> PairOverlap(rs, curr, j) < r.0
    decreases m
  {
    if m == 0 then (-1, -1)
    else
      var prev := Pick(rs, curr, used, m - 1);
      if !used[m - 1] && PairOverlap(rs, curr, m - 1) > prev.0 then (PairOverlap(rs, curr, m - 1), m - 1)
      else prev
  }

  lemma SomeUnused(path: seq<int>, n: nat)
    requires IsArrangement(path, n) && |path| < n
    ensures exists j :: 0 <= j < n && j !in path
  {
    UnusedCount(path, n);
    NonEmpty(UnusedBelow(path, n));
  }

  /** The greedy tour from a partial one: at every step the pick among the
      reads not yet on the tour. */
  function GreedyFrom(rs: seq<seq<char>>, tour: seq<int>): (t: seq<int>)
    requires IsArrangement(tour, |rs|) && |tour| >= 1
    ensures IsPermutation(t, |rs|) && |tour| <= |t| && t[..|tour|] == tour
    decreases |rs| - |tour|
  {
    ArrangementLength(tour, |rs|);
    if |tour| == |rs| then tour
    else
      SomeUnused(tour, |rs|);
      var next := Pick(rs, tour[|tour| - 1], Flags(tour, |rs|), |rs|).1;
      ArrangementExtend(tour, next, |rs|);
      var t := GreedyFrom(rs, tour + [next]);
      assert t[..|tour|] == t[..|tour| + 1][..|tour|];
      t
  }

  /** greedy_superstring_length's tour: from read 0, always the pick. */
  function GreedyTour(rs: seq<seq<char>>): (t: seq<int>)
    requires |rs| >= 1
    ensures IsPermutation(t, |rs|) && t[0] == 0
  {
    var t := GreedyFrom(rs, [0]);
    assert t[..1] == [0];
    t
  }

  /** The length greedy_superstring_length returns. */
  function GreedyLength(rs: seq<seq<char>>): int
    requires |rs| >= 1
  {
    |ChainString(rs, GreedyTour(rs))|
  }

  /** Step s of a tour appends the read not yet on it that overlaps the
      read before it most, the lowest such read on ties. */
  ghost predicate GreedyChoice(rs: seq<seq<char>>, t: seq<int>, s: int)
    requires IsArrangement(t, |rs|) && 1 <= s < |t|
  {
    t[s] !in t[..s]
    && (forall j :: 0 <= j < |rs| && j !in t[..s] ==> PairOverlap(rs, t[s - 1], j) <= PairOverlap(rs, t[s - 1], t[s]))
    && (forall j :: 0 <= j < t[s] && j !in t[..s] ==> PairOverlap(rs, t[s - 1], j) < PairOverlap(rs, t[s - 1], t[s]))
  }

  /** Every step the greedy tour takes after tour is a greedy choice. */
  lemma {:induction false} GreedyFromChoices(rs: seq<seq<char>>, tour: seq<int>, s: int)
    requires IsArrangement(tour, |rs|) && |tour| >= 1
    requires |tour| <= s < |GreedyFrom(rs, tour)|
    ensures GreedyChoice(rs, GreedyFrom(rs, tour), s)
    decreases |rs| - |tour|
  {
    ArrangementLength(tour, |rs|);
    var t := GreedyFrom(rs, tour);
    SomeUnused(tour, |rs|);
    var next := Pick(rs, tour[|tour| - 1], Flags(tour, |rs|), |rs|).1;
    ArrangementExtend(tour, next, |rs|);
    var tour' := tour + [next];
    assert t == GreedyFrom(rs, tour');
    if s == |tour| {
      assert t[..s + 1] == tour';
      assert t[..s] == tour && t[s] == next && t[s - 1] == tour[|tour| - 1];
    } else {
      GreedyFromChoices(rs, tour', s);
    }
  }

  /** The greedy tour starts at read 0, visits every read once, and each
      further step is a greedy choice. */
  lemma GreedyTourIsGreedy(rs: seq<seq<char>>, s: int)
    requires |rs| >= 1 && 1 <= s < |rs|
    ensures IsPermutation(GreedyTour(rs), |rs|) && GreedyTour(rs)[0] == 0
    ensures GreedyChoice(rs, GreedyTour(rs), s)
  {
    GreedyFromChoices(rs, [0], s);
  }

  /** Every complete ordering starting below read i is at least bound long. */
  ghost predicate StartsCovered(rs: seq<seq<char>>, bound: int, i: int)
  {
    forall p :: IsPermutation(p, |rs|) && |p| > 0 && p[0] < i ==> bound <= |ChainString(rs, p)|
  }

  lemma StartsCoveredStep(rs: seq<seq<char>>, bound: int, smaller: int, i: int)
    requires 0 <= i < |rs| && StartsCovered(rs, bound, i) && smaller <= bound
    requires ChainCovered(rs, [i], smaller)
    ensures StartsCovered(rs, smaller, i + 1)
  {
    forall p | IsPermutation(p, |rs|) && |p| > 0 && p[0] < i + 1
      ensures smaller <= |ChainString(rs, p)|
    {
      if p[0] == i {
        assert [i] + p[1..] == p;
      }
    }
  }

  /** The best so far and the ordering it came from. */
  class Search {
    const rs: seq<seq<char>>
    const overlap: array2<int>
    var bestLen: int
    var bestResult: seq<char>
    ghost var bestPath: seq<int>

    ghost predicate Valid()
      reads this
    {
      |rs| <= MAX_READS && overlap.Length0 == MAX_READS && overlap.Length1 == MAX_READS
    }

    /** bestResult is the string of a complete ordering, bestLen its length. */
    ghost predicate Recorded()
      reads this
    {
      IsPermutation(bestPath, |rs|) && bestResult == ChainString(rs, bestPath) && |bestResult| == bestLen
    }

    /** The globals once the reads are loaded: best_len at 1e9, no result. */
    constructor (input: seq<seq<char>>)
      requires |input| <= MAX_READS
      ensures Valid() && fresh(overlap)
      ensures rs == input && bestLen == INITIAL_BEST && bestResult == []
    {
      rs := input;
      overlap := new int[MAX_READS, MAX_READS]((_, _) => 0);
      bestLen := INITIAL_BEST;
      bestResult := [];
      bestPath := [];
    }

    /** The inner loop of build_overlap_matrix for row i. */
    method FillRow(i: int)
      requires Valid() && 0 <= i < |rs|
      modifies overlap
      ensures forall b :: 0 <= b < |rs| ==> overlap[i, b] == PairOverlap(rs, i, b)
      ensures forall a, b :: 0 <= a < MAX_READS && 0 <= b < MAX_READS && !(a == i && b < |rs|) ==>
                overlap[a, b] == old(overlap[a, b])
    {
      var j := 0;
      while j < |rs|
        invariant 0 <= j <= |rs|
        invariant forall b :: 0 <= b < j ==> overlap[i, b] == PairOverlap(rs, i, b)
        invariant forall a, b :: 0 <= a < MAX_READS && 0 <= b < MAX_READS && !(a == i && b < j) ==>
                    overlap[a, b] == old(overlap[a, b])
      {
        if i != j {
          var ov := OverlapUpward(rs[i], rs[j]);
          overlap[i, j] := ov;
        } else {
          overlap[i, j] := 0;
        }
        j := j + 1;
      }
    }

    /** build_overlap_matrix: the table of every pair of reads, zero on the
        diagonal; nothing beyond the reads is written. */
    method BuildOverlapMatrix()
      requires Valid()
      modifies overlap
      ensures TableHolds(rs, overlap)
      ensures forall a, b :: 0 <= a < MAX_READS && 0 <= b < MAX_READS && !(a < |rs| && b < |rs|) ==>
                overlap[a, b] == old(overlap[a, b])
    {
      var i := 0;
      while i < |rs|
        invariant 0 <= i <= |rs|
        invariant forall a, b :: 0 <= a < i && 0 <= b < |rs| ==> overlap[a, b] == PairOverlap(rs, a, b)
        invariant forall a, b :: 0 <= a < MAX_READS && 0 <= b < MAX_READS && !(a < i && b < |rs|) ==>
                    overlap[a, b] == old(overlap[a, b])
      {
        FillRow(i);
        i := i + 1;
      }
    }

    /** The inner loop of greedy_superstring_length. */
    method PickNext(curr: int, used: array<bool>) returns (maxOv: int, next: int)
      requires Valid() && TableHolds(rs, overlap) && 0 <= curr < |rs| && used.Length == MAX_READS
      ensures (maxOv, next) == Pick(rs, curr, used[..|rs|], |rs|)
    {
      maxOv, next := -1, -1;
      var i := 0;
      while i < |rs|
        invariant 0 <= i <= |rs|
        invariant (maxOv, next) == Pick(rs, curr, used[..|rs|], i)
      {
        if !used[i] && overlap[curr, i] > maxOv {
          maxOv := overlap[curr, i];
          next := i;
        }
        i := i + 1;
      }
    }

    /** The state of greedy_superstring_length between two picks. */
    ghost predicate GreedyInv(used: array<bool>, curr: int, total: int, tour: seq<int>)
      reads this, used
    {
      Valid() && used.Length == MAX_READS
      && 1 <= |tour| <= |rs| && IsArrangement(tour, |rs|) && curr == tour[|tour| - 1]
      && used[..|rs|] == Flags(tour, |rs|)
      && total == |ChainString(rs, tour)|
      && GreedyFrom(rs, tour) == GreedyTour(rs)
    }

    /** One pass of greedy's outer loop: the pick is appended to the tour. */
    method GreedyStep(used: array<bool>, curr: int, total: int, tour: seq<int>)
      returns (curr': int, total': int, tour': seq<int>)
      requires TableHolds(rs, overlap) && GreedyInv(used, curr, total, tour) && |tour| < |rs|
      modifies used
      ensures GreedyInv(used, curr', total', tour') && |tour'| == |tour| + 1
    {
      var n := |rs|;
      SomeUnused(tour, n);
      var maxOv, next := PickNext(curr, used);
      assert next == Pick(rs, tour[|tour| - 1], Flags(tour, n), n).1;
      ChainExtend(rs, tour, next);
      ArrangementExtend(tour, next, n);
      FlagsExtend(tour, next, n);
      assert GreedyFrom(rs, tour + [next]) == GreedyFrom(rs, tour);
      used[next] := true;
      assert used[..n] == old(used[..n])[next := true];
      curr', total', tour' := next, total + |rs[next]| - maxOv, tour + [next];
    }

    /** greedy_superstring_length: the length of the greedy tour's string.
        The tour itself is returned beside it. */
    method Greedy() returns (total: int, tour: seq<int>)
      requires Valid() && TableHolds(rs, overlap) && |rs| >= 1
      ensures tour == GreedyTour(rs) && total == |ChainString(rs, tour)|
    {
      var n := |rs|;
      var used := new bool[MAX_READS](_ => false);
      var curr := 0;
      total := |rs[0]|;
      used[0] := true;
      tour := [0];
      assert used[..n] == Flags(tour, n);
      var step := 1;
      while step < n
        invariant GreedyInv(used, curr, total, tour) && step == |tour|
      {
        curr, total, tour := GreedyStep(used, curr, total, tour);
        step := step + 1;
      }
    }

    /** What one dfs call has achieved after the candidates below i. */
    ghost predicate Progress(path: seq<int>, i: int, best0: int, result0: seq<char>, path0: seq<int>)
      reads this
    {
      bestLen <= best0 && ChainCoveredBelow(rs, path, bestLen, i)
      && (bestLen < best0 ==> Recorded())
      && (bestLen == best0 ==> bestResult == result0 && bestPath == path0)
    }

    /** dfs: a complete ordering is compared with the best; otherwise each
        unused read whose extension is strictly shorter than the best is
        searched below. Afterwards every completion of the path is at least
        as long as the best, and the best is the recorded one or untouched. */
    method Dfs(last: int, mask: nat, currLen: int, currStr: seq<char>, ghost path: seq<int>)
      requires Valid() && |rs| <= MASK_READS && TableHolds(rs, overlap)
      requires IsArrangement(path, |rs|) && |path| >= 1 && last == path[|path| - 1]
      requires MaskHolds(mask, Flags(path, |rs|))
      requires currStr == ChainString(rs, path) && currLen == |currStr|
      modifies this`bestLen, this`bestResult, this`bestPath
      ensures Progress(path, 0, old(bestLen), old(bestResult), old(bestPath))
      ensures ChainCovered(rs, path, bestLen)
      decreases |rs| - |path|, 1
    {
      var n := |rs|;
      MaskFull(mask, path, n);
      ChainCoveredBelowStart(rs, path, bestLen);
      if mask == FullMask(n) {
        if currLen < bestLen {
          bestLen := currLen;
          bestResult := currStr;
          bestPath := path;
        }
        ChainCoveredLeaf(rs, path, bestLen);
        ChainCoveredBelowStart(rs, path, bestLen);
        return;
      }
      ArrangementLength(path, n);
      var i := 0;
      while i < n
        invariant 0 <= i <= n
        invariant Progress(path, i, old(bestLen), old(bestResult), old(bestPath))
      {
        DfsChild(last, mask, currLen, currStr, path, i, old(bestLen), old(bestResult), old(bestPath));
        i := i + 1;
      }
      ChainCoveredBelowAll(rs, path, bestLen);
      ChainCoveredBelowStart(rs, path, bestLen);
    }

    /** One pass of dfs's loop: read i is skipped when it is on the path or
        when its extension is no shorter than the best, else searched. */
    method DfsChild(last: int, mask: nat, currLen: int, currStr: seq<char>, ghost path: seq<int>, i: int,
                    ghost best0: int, ghost result0: seq<char>, ghost path0: seq<int>)
      requires Valid() && |rs| <= MASK_READS && TableHolds(rs, overlap)
      requires IsArrangement(path, |rs|) && 1 <= |path| < |rs| && last == path[|path| - 1]
      requires MaskHolds(mask, Flags(path, |rs|))
      requires currStr == ChainString(rs, path) && currLen == |currStr|
      requires 0 <= i < |rs| && Progress(path, i, best0, result0, path0)
      modifies this`bestLen, this`bestResult, this`bestPath
      ensures Progress(path, i + 1, best0, result0, path0)
      decreases |rs| - |path|, 0
    {
      var n := |rs|;
      MaskTest(mask, Flags(path, n), i);
      if And(mask, Pow2(i)) == 0 {
        var ov := overlap[last, i];
        var newLen := currLen + |rs[i]| - ov;
        ChainExtend(rs, path, i);
        if newLen >= bestLen {
          ChainCoveredPruned(rs, path + [i], bestLen);
          ChainCoveredBelowStep(rs, path, bestLen, bestLen, i);
        } else {
          var newStr := currStr + rs[i][ov..];
          ArrangementExtend(path, i, n);
          FlagsExtend(path, i, n);
          MaskSet(mask, Flags(path, n), i);
          ghost var before := bestLen;
          Dfs(i, Or(mask, Pow2(i)), newLen, newStr, path + [i]);
          ChainCoveredBelowStep(rs, path, before, bestLen, i);
        }
      } else {
        ChainCoveredBelowStep(rs, path, bestLen, bestLen, i);
      }
    }

    /** The loop of solve: a search from every read. Afterwards no complete
        ordering is shorter than the best, and the best is the recorded one
        or untouched. */
    method SearchAll()
      requires Valid() && 1 <= |rs| <= MASK_READS && TableHolds(rs, overlap)
      modifies this`bestLen, this`bestResult, this`bestPath
      ensures bestLen <= old(bestLen)
      ensures forall p :: IsPermutation(p, |rs|) ==> bestLen <= |ChainString(rs, p)|
      ensures bestLen < old(bestLen) ==> Recorded()
      ensures bestLen == old(bestLen) ==> bestResult == old(bestResult) && bestPath == old(bestPath)
    {
      var n := |rs|;
      var i := 0;
      while i < n
        invariant 0 <= i <= n
        invariant bestLen <= old(bestLen) && StartsCovered(rs, bestLen, i)
        invariant bestLen < old(bestLen) ==> Recorded()
        invariant bestLen == old(bestLen) ==> bestResult == old(bestResult) && bestPath == old(bestPath)
      {
        MaskSingle(n, i);
        assert ChainString(rs, [i]) == rs[i];
        ghost var before := bestLen;
        Dfs(i, Pow2(i), |rs[i]|, rs[i], [i]);
        StartsCoveredStep(rs, before, bestLen, i);
        i := i + 1;
      }
    }

    /** solve as written: best_len is seeded with the greedy length but
        best_result is not, so when no ordering beats the greedy tour the
        result stays as it was (empty, as the globals start). */
    method Solve()
      requires Valid() && 1 <= |rs| <= MASK_READS
      modifies overlap, this`bestLen, this`bestResult, this`bestPath
      ensures TableHolds(rs, overlap)
      ensures bestLen <= GreedyLength(rs)
      ensures forall p :: IsPermutation(p, |rs|) ==> bestLen <= |ChainString(rs, p)|
      ensures bestLen < GreedyLength(rs) ==> Recorded()
      ensures bestLen == GreedyLength(rs) ==> bestResult == old(bestResult)
    {
      BuildOverlapMatrix();
      var g, tour := Greedy();
      bestLen := g;
      SearchAll();
    }

    /** solve with the result seeded from the greedy tour as well: the best
        is then always a recorded shortest ordering, a superstring of every
        read. */
    method SolveSeeded()
      requires Valid() && 1 <= |rs| <= MASK_READS
      modifies overlap, this`bestLen, this`bestResult, this`bestPath
      ensures TableHolds(rs, overlap) && Recorded()
      ensures forall p :: IsPermutation(p, |rs|) ==> bestLen <= |ChainString(rs, p)|
      ensures forall j :: 0 <= j < |rs| ==> IsSubstring(rs[j], bestResult)
    {
      BuildOverlapMatrix();
      var g, tour := Greedy();
      var s, len := BuildChain(rs, overlap, tour);
      bestLen, bestResult, bestPath := g, s, tour;
      SearchAll();
      forall j | 0 <= j < |rs|
        ensures IsSubstring(rs[j], bestResult)
      {
        ChainIsSuperstring(rs, bestPath, j);
      }
    }
  }

  /** Two reads whose greedy tour is already shortest: "AB" then "BC"
      overlap by one symbol, the other order by none. */
  const TwoReads: seq<seq<char>> := ["AB", "BC"]

  lemma TwoReadsOverlaps()
    ensures PairOverlap(TwoReads, 0, 1) == 1 && PairOverlap(TwoReads, 1, 0) == 0
  {
    var ab, bc := TwoReads[0], TwoReads[1];
    assert ab == "AB" && bc == "BC";
    assert ab[1..] == bc[..1];
    assert IsOverlap(ab, bc, 1);
    assert ab[0..] != bc[..2] by { assert ab[0..][0] != bc[..2][0]; }
    assert bc[1..] != ab[..1] by { assert bc[1..][0] != ab[..1][0]; }
    assert bc[0..] != ab[..2] by { assert bc[0..][0] != ab[..2][0]; }
  }

  /** The two orderings of two reads. */
  lemma PermutationsOfTwo(p: seq<int>)
    requires IsPermutation(p, 2)
    ensures p == [0, 1] || p == [1, 0]
  {
    assert p[0] != p[1];
  }

  /** For these reads the greedy tour is a shortest ordering. */
  lemma {:induction false} GreedyIsShortest()
    ensures GreedyLength(TwoReads) == 3
    ensures forall p :: IsPermutation(p, 2) ==> 3 <= |ChainString(TwoReads, p)|
  {
    TwoReadsOverlaps();
    PermutationsOfTwo(GreedyTour(TwoReads));
    ChainExtend(TwoReads, [0], 1);
    ChainExtend(TwoReads, [1], 0);
    assert [0] + [1] == [0, 1] && [1] + [0] == [1, 0];
    assert ChainString(TwoReads, [0, 1]) == "AB" + "BC"[1..];
    assert ChainString(TwoReads, [1, 0]) == "BC" + "AB";
    forall p | IsPermutation(p, 2)
      ensures 3 <= |ChainString(TwoReads, p)|
    {
      PermutationsOfTwo(p);
    }
  }

  /** What Solve promises, for these two reads from the initial globals,
      pins the outcome: best_len is 3 yet best_result is empty, so the
      reported superstring contains neither read. */
  lemma EmptyResultReported(bestLen: int, bestResult: seq<char>, bestPath: seq<int>)
    requires bestLen <= GreedyLength(TwoReads)
    requires forall p :: IsPermutation(p, 2) ==> bestLen <= |ChainString(TwoReads, p)|
    requires bestLen < GreedyLength(TwoReads) ==>
               IsPermutation(bestPath, 2) && bestResult == ChainString(TwoReads, bestPath) && |bestResult| == bestLen
    requires bestLen == GreedyLength(TwoReads) ==> bestResult == []
    ensures bestLen == 3 && bestResult == []
    ensures !IsSubstring("AB", bestResult)
  {
    GreedyIsShortest();
  }
}
