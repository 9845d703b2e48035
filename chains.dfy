/** Chains of reads joined through an overlap table: each read of a path
    is appended without as many leading symbols as it overlaps the read
    before it (not the whole string built so far). This is how nonrec.cpp
    and new_brut.cpp build their superstrings. */
module Chains {
  import opened Overlap
  import opened Orders
  import opened Merging

  /** The table entry for reads i and j as a table builder that sets the
      diagonal to zero leaves it: the maximal overlap off the diagonal,
      zero on it. */
  function PairOverlap(rs: seq<seq<char>>, i: int, j: int): (r: int)
    requires 0 <= i < |rs| && 0 <= j < |rs|
    ensures 0 <= r <= |rs[j]| && r <= |rs[i]|
    ensures IsOverlap(rs[i], rs[j], r)
    ensures i != j ==> forall k :: r < k ==> !IsOverlap(rs[i], rs[j], k)
  {
    if i == j then 0 else MaxOverlap(rs[i], rs[j])
  }

  /** A table holds PairOverlap for every pair of reads. */
  ghost predicate TableHolds(rs: seq<seq<char>>, m: array2<int>)
    reads m
  {
    |rs| <= m.Length0 && |rs| <= m.Length1
    && forall i, j :: 0 <= i < |rs| && 0 <= j < |rs| ==> m[i, j] == PairOverlap(rs, i, j)
  }

  /** Every index of a path names a read. */
  predicate InRange(path: seq<int>, n: int)
  {
    forall k :: 0 <= k < |path| ==> 0 <= path[k] < n
  }

  /** The string a path builds: its first read, then every further read
      without the symbols it overlaps the read before it. */
  function ChainString(rs: seq<seq<char>>, path: seq<int>): seq<char>
    requires InRange(path, |rs|)
    decreases |path|
  {
    if |path| == 0 then []
    else if |path| == 1 then rs[path[0]]
    else
      var p, i := path[..|path| - 1], path[|path| - 1];
      ChainString(rs, p) + rs[i][PairOverlap(rs, p[|p| - 1], i)..]
  }

  /** The overlaps between consecutive reads of a path, added up. */
  function ChainOverlaps(rs: seq<seq<char>>, path: seq<int>): int
    requires InRange(path, |rs|)
    decreases |path|
  {
    if |path| <= 1 then 0
    else
      var p := path[..|path| - 1];
      ChainOverlaps(rs, p) + PairOverlap(rs, p[|p| - 1], path[|path| - 1])
  }

  /** The length identity: the reads' lengths minus the chained overlaps. */
  lemma {:induction false} ChainLength(rs: seq<seq<char>>, path: seq<int>)
    requires InRange(path, |rs|)
    ensures |ChainString(rs, path)| == SumLengths(Select(rs, path)) - ChainOverlaps(rs, path)
    decreases |path|
  {
    if |path| > 0 {
      var p := path[..|path| - 1];
      assert Select(rs, path)[..|path| - 1] == Select(rs, p);
      if |path| > 1 {
        ChainLength(rs, p);
      } else {
        assert Select(rs, p) == [];
      }
    }
  }

  /** A string that ends with x, extended by y past y's overlap k with x,
      ends with y. */
  lemma AppendPastOverlap(a: seq<char>, x: seq<char>, y: seq<char>, k: int)
    requires |x| <= |a| && a[|a| - |x|..] == x && IsOverlap(x, y, k)
    ensures var s := a + y[k..]; |y| <= |s| && s[|s| - |y|..] == y
  {
    var s := a + y[k..];
    assert a[|a| - k..] == a[|a| - |x|..][|x| - k..];
    assert s[|s| - |y|..] == a[|a| - k..] + y[k..];
    assert y == y[..k] + y[k..];
  }

  /** The string of a path ends with the path's last read. */
  lemma {:induction false} ChainEndsWithLast(rs: seq<seq<char>>, path: seq<int>)
    requires InRange(path, |rs|) && |path| > 0
    ensures var s, r := ChainString(rs, path), rs[path[|path| - 1]]; |r| <= |s| && s[|s| - |r|..] == r
    decreases |path|
  {
    if |path| > 1 {
      var p, i := path[..|path| - 1], path[|path| - 1];
      assert path == p + [i];
      ChainEndsWithLast(rs, p);
      ChainExtend(rs, p, i);
      AppendPastOverlap(ChainString(rs, p), rs[p[|p| - 1]], rs[i], PairOverlap(rs, p[|p| - 1], i));
    }
  }

  /** Extending a path only appends: its string is a prefix of the string
      of every extension. */
  lemma {:induction false} ChainPrefix(rs: seq<seq<char>>, path: seq<int>, ext: seq<int>)
    requires InRange(path + ext, |rs|)
    ensures InRange(path, |rs|)
    ensures |ChainString(rs, path)| <= |ChainString(rs, path + ext)|
    ensures ChainString(rs, path + ext)[..|ChainString(rs, path)|] == ChainString(rs, path)
    decreases |ext|
  {
    assert forall k :: 0 <= k < |path| ==> (path + ext)[k] == path[k];
    if ext != [] {
      var init := ext[..|ext| - 1];
      assert (path + ext)[..|path + ext| - 1] == path + init;
      assert forall k :: 0 <= k < |path + init| ==> (path + init)[k] == (path + ext)[k];
      ChainPrefix(rs, path, init);
      var a, b, c := ChainString(rs, path), ChainString(rs, path + init), ChainString(rs, path + ext);
      if |path + init| > 0 {
        assert c[..|b|] == b;
      } else {
        assert a == [];
      }
      PrefixOfPrefix(a, b, c);
    } else {
      assert path + ext == path;
    }
  }

  /** The string of a path contains every read on the path. */
  lemma ChainContainsEach(rs: seq<seq<char>>, path: seq<int>, k: int)
    requires InRange(path, |rs|) && 0 <= k < |path|
    ensures IsSubstring(rs[path[k]], ChainString(rs, path))
  {
    var p, ext := path[..k + 1], path[k + 1..];
    assert p + ext == path;
    ChainPrefix(rs, p, ext);
    ChainEndsWithLast(rs, p);
    SuffixIsSubstring(rs[path[k]], ChainString(rs, p));
    SubstringOfPrefix(rs[path[k]], ChainString(rs, p), ChainString(rs, path));
  }

  /** The string of a complete ordering is a superstring of all the reads. */
  lemma ChainIsSuperstring(rs: seq<seq<char>>, path: seq<int>, j: int)
    requires IsPermutation(path, |rs|) && 0 <= j < |rs|
    ensures IsSubstring(rs[j], ChainString(rs, path))
  {
    PermutationCovers(path, |rs|);
    var k := IndexOf(path, j);
    ChainContainsEach(rs, path, k);
  }

  /** The string of a path one read longer. */
  lemma ChainExtend(rs: seq<seq<char>>, path: seq<int>, i: int)
    requires InRange(path, |rs|) && 0 <= i < |rs| && |path| > 0
    ensures InRange(path + [i], |rs|)
    ensures ChainString(rs, path + [i]) == ChainString(rs, path) + rs[i][PairOverlap(rs, path[|path| - 1], i)..]
  {
    assert (path + [i])[..|path|] == path;
  }

  /** Every completion of path merges to at least bound symbols. */
  ghost predicate ChainCovered(rs: seq<seq<char>>, path: seq<int>, bound: int)
  {
    forall ext :: IsCompletion(path, ext, |rs|) ==> bound <= |ChainString(rs, path + ext)|
  }

  /** The same for the completions whose next read is below i. */
  ghost predicate ChainCoveredBelow(rs: seq<seq<char>>, path: seq<int>, bound: int, i: int)
  {
    forall ext :: IsCompletion(path, ext, |rs|) && |ext| > 0 && ext[0] < i ==>
      bound <= |ChainString(rs, path + ext)|
  }

  lemma ChainCoveredLeaf(rs: seq<seq<char>>, path: seq<int>, bound: int)
    requires IsPermutation(path, |rs|) && bound <= |ChainString(rs, path)|
    ensures ChainCovered(rs, path, bound)
  {
    forall ext | IsCompletion(path, ext, |rs|)
      ensures bound <= |ChainString(rs, path + ext)|
    {
      assert path + ext == path;
    }
  }

  /** The prune is admissible: a path already bound long has no shorter completion. */
  lemma ChainCoveredPruned(rs: seq<seq<char>>, path: seq<int>, bound: int)
    requires InRange(path, |rs|) && bound <= |ChainString(rs, path)|
    ensures ChainCovered(rs, path, bound)
  {
    forall ext | IsCompletion(path, ext, |rs|)
      ensures bound <= |ChainString(rs, path + ext)|
    {
      ChainPrefix(rs, path, ext);
    }
  }

  lemma ChainCoveredBelowStart(rs: seq<seq<char>>, path: seq<int>, bound: int)
    ensures ChainCoveredBelow(rs, path, bound, 0)
  {
    CompletionsStartOffPath(path, |rs|);
  }

  /** One more candidate read i handled: on the path, or searched below. */
  lemma ChainCoveredBelowStep(rs: seq<seq<char>>, path: seq<int>, bound: int, smaller: int, i: int)
    requires ChainCoveredBelow(rs, path, bound, i) && smaller <= bound
    requires i in path || ChainCovered(rs, path + [i], smaller)
    ensures ChainCoveredBelow(rs, path, smaller, i + 1)
  {
    forall ext | IsCompletion(path, ext, |rs|) && |ext| > 0 && ext[0] < i + 1
      ensures smaller <= |ChainString(rs, path + ext)|
    {
      CompletionStep(path, ext, |rs|);
      if ext[0] == i {
        assert IsCompletion(path + [i], ext[1..], |rs|);
      }
    }
  }

  lemma ChainCoveredBelowAll(rs: seq<seq<char>>, path: seq<int>, bound: int)
    requires IsArrangement(path, |rs|) && |path| < |rs|
    requires ChainCoveredBelow(rs, path, bound, |rs|)
    ensures ChainCovered(rs, path, bound)
  {
    CompletionsStartOffPath(path, |rs|);
    forall ext | IsCompletion(path, ext, |rs|)
      ensures bound <= |ChainString(rs, path + ext)|
    {
      assert |ext| > 0;
    }
  }

  /** The chain-building loop of new_brut.cpp's build_superstring: the first
      read of perm, then each next read without its table overlap with the
      read before it, the length kept alongside. */
  method BuildChain(rs: seq<seq<char>>, m: array2<int>, perm: seq<int>) returns (temp: seq<char>, len: int)
    requires TableHolds(rs, m) && InRange(perm, |rs|) && |perm| > 0
    ensures temp == ChainString(rs, perm) && len == |temp|
    ensures len == SumLengths(Select(rs, perm)) - ChainOverlaps(rs, perm)
  {
    temp := rs[perm[0]];
    len := |temp|;
    assert perm[..1] == [perm[0]];
    var i := 1;
    while i < |perm|
      invariant 1 <= i <= |perm|
      invariant temp == ChainString(rs, perm[..i]) && len == |temp|
    {
      var prev, curr := perm[i - 1], perm[i];
      var ov := m[prev, curr];
      ChainExtend(rs, perm[..i], curr);
      assert perm[..i] + [curr] == perm[..i + 1];
      temp := temp + rs[curr][ov..];
      len := len + |rs[curr]| - ov;
      i := i + 1;
    }
    assert perm[..|perm|] == perm;
    ChainLength(rs, perm);
  }
}
