/** The overlap oracle: how many symbols at the end of one read equal the
    start of another. Every variant of the search rests on it, and the
    variants scan for it in two directions. */
module Overlap {

  function Min(a: int, b: int): int
  {
    if a < b then a else b
  }

  /** The last k symbols of a are the first k symbols of b. */
  predicate IsOverlap(a: seq<char>, b: seq<char>, k: int)
  {
    0 <= k <= |a| && k <= |b| && a[|a| - k..] == b[..k]
  }

  /** The largest overlap of a and b that does not exceed m (0 always matches). */
  function LargestOverlapUpTo(a: seq<char>, b: seq<char>, m: int): (r: int)
    ensures 0 <= r && (r <= m || r == 0)
    ensures IsOverlap(a, b, r)
    ensures forall k :: r < k <= m ==> !IsOverlap(a, b, k)
    decreases m
  {
    if m <= 0 then 0
    else if IsOverlap(a, b, m) then m
    else LargestOverlapUpTo(a, b, m - 1)
  }

  /** The maximal suffix-prefix overlap of a and b. */
  function MaxOverlap(a: seq<char>, b: seq<char>): (r: int)
    ensures 0 <= r <= Min(|a|, |b|)
    ensures IsOverlap(a, b, r)
    ensures forall k :: r < k ==> !IsOverlap(a, b, k)
  {
    LargestOverlapUpTo(a, b, Min(|a|, |b|))
  }

  /** The overlap is the unique k that matches and has no larger match. */
  lemma MaxOverlapCharacterized(a: seq<char>, b: seq<char>, k: int)
    ensures k == MaxOverlap(a, b) <==> IsOverlap(a, b, k) && forall j :: k < j ==> !IsOverlap(a, b, j)
  {
  }

  /** The scan that starts at the longest candidate and returns the first
      hit (prune.cpp, prune_omp.cpp, new_brut.cpp). */
  method OverlapDownward(a: seq<char>, b: seq<char>) returns (k: int)
    ensures 0 <= k <= Min(|a|, |b|)
    ensures IsOverlap(a, b, k) && forall j :: k < j ==> !IsOverlap(a, b, j)
    ensures k == MaxOverlap(a, b)
  {
    var max := if |a| < |b| then |a| else |b|;
    var i := max;
    while i > 0
      invariant 0 <= i <= max
      invariant LargestOverlapUpTo(a, b, i) == MaxOverlap(a, b)
    {
      if a[|a| - i..] == b[..i] {
        return i;
      }
      i := i - 1;
    }
    return 0;
  }

  /** The scan that tries every length from 1 upward and keeps the last
      hit (early.cpp, nonrec.cpp, heuristic.cpp). */
  method OverlapUpward(a: seq<char>, b: seq<char>) returns (k: int)
    ensures 0 <= k <= Min(|a|, |b|)
    ensures IsOverlap(a, b, k) && forall j :: k < j ==> !IsOverlap(a, b, j)
    ensures k == MaxOverlap(a, b)
  {
    var lenA, lenB := |a|, |b|;
    k := 0;
    var i := 1;
    while i <= lenA && i <= lenB
      invariant 1 <= i <= Min(lenA, lenB) + 1
      invariant k == LargestOverlapUpTo(a, b, i - 1)
    {
      if a[lenA - i..] == b[..i] {
        k := i;
      }
      i := i + 1;
    }
  }

  /** Both scans compute the same value on every pair of reads. */
  method ScansAgree(a: seq<char>, b: seq<char>) returns (down: int, up: int)
    ensures down == up
  {
    down := OverlapDownward(a, b);
    up := OverlapUpward(a, b);
  }
}
