/** new_brut.cpp: exhaustive search over every ordering of the reads. The
    global perm[] and used[] arrays are filled depth by depth and restored
    on backtrack; at full depth the chain of perm is built from the overlap
    table and kept when strictly shorter than the best so far. */
module NewBrut {
  import opened Overlap
  import opened Orders
  import opened Merging
  import opened Chains

  const MAX_READS := 10
  const MAX_LEN := 100
  /** The initial best_len, MAX_READS * MAX_LEN. */
  const MAX_SUPERSTRING_LEN := MAX_READS * MAX_LEN

  /** build_overlap_matrix: the downward scan off the diagonal, zero on it,
      over the first |rs| rows and columns; the rest is not written. */
  method BuildOverlapMatrix(rs: seq<seq<char>>, overlap: array2<int>)
    requires |rs| <= overlap.Length0 && |rs| <= overlap.Length1
    modifies overlap
    ensures TableHolds(rs, overlap)
    ensures forall a, b :: 0 <= a < overlap.Length0 && 0 <= b < overlap.Length1 && !(a < |rs| && b < |rs|) ==>
              overlap[a, b] == old(overlap[a, b])
  {
    var i := 0;
    while i < |rs|
      invariant 0 <= i <= |rs|
      invariant forall a, b :: 0 <= a < i && 0 <= b < |rs| ==> overlap[a, b] == PairOverlap(rs, a, b)
      invariant forall a, b :: 0 <= a < overlap.Length0 && 0 <= b < overlap.Length1 && !(a < i && b < |rs|) ==>
                  overlap[a, b] == old(overlap[a, b])
    {
      FillRow(rs, overlap, i);
      i := i + 1;
    }
  }

  /** The inner loop of build_overlap_matrix: row i. */
  method FillRow(rs: seq<seq<char>>, overlap: array2<int>, i: int)
    requires 0 <= i < |rs| <= overlap.Length0 && |rs| <= overlap.Length1
    modifies overlap
    ensures forall b :: 0 <= b < |rs| ==> overlap[i, b] == PairOverlap(rs, i, b)
    ensures forall a, b :: 0 <= a < overlap.Length0 && 0 <= b < overlap.Length1 && !(a == i && b < |rs|) ==>
              overlap[a, b] == old(overlap[a, b])
  {
    var j := 0;
    while j < |rs|
      invariant 0 <= j <= |rs|
      invariant forall b :: 0 <= b < j ==> overlap[i, b] == PairOverlap(rs, i, b)
      invariant forall a, b :: 0 <= a < overlap.Length0 && 0 <= b < overlap.Length1 && !(a == i && b < j) ==>
                  overlap[a, b] == old(overlap[a, b])
    {
      if i != j {
        var ov := OverlapDownward(rs[i], rs[j]);
        overlap[i, j] := ov;
      } else {
        overlap[i, j] := 0;
      }
      j := j + 1;
    }
  }

  // The orderings generate_permutations visits, in its order.

  /** The complete orderings reached from prefix: prefix itself at full
      depth, else those through each unused read in increasing order. */
  function Completions(n: nat, prefix: seq<int>): seq<seq<int>>
    requires |prefix| <= n
    decreases n - |prefix|, 1
  {
    if |prefix| == n then [prefix] else CompletionsFrom(n, prefix, 0)
  }

  /** The same, through the unused reads from i on. */
  function CompletionsFrom(n: nat, prefix: seq<int>, i: int): seq<seq<int>>
    requires |prefix| < n && 0 <= i
    decreases n - |prefix|, 0, n - i
  {
    if i >= n then []
    else (if i in prefix then [] else Completions(n, prefix + [i])) + CompletionsFrom(n, prefix, i + 1)
  }

  /** a comes strictly before b in lexicographic order. */
  ghost predicate LexLess(a: seq<int>, b: seq<int>)
  {
    exists k :: 0 <= k < |a| && k < |b| && a[..k] == b[..k] && a[k] < b[k]
  }

  /** Strictly increasing: each ordering occurs once, in lexicographic order. */
  ghost predicate Ascending(ps: seq<seq<int>>)
  {
    forall x, y :: 0 <= x < y < |ps| ==> LexLess(ps[x], ps[y])
  }

  lemma LexLessDiffers(a: seq<int>, b: seq<int>)
    requires LexLess(a, b)
    ensures a != b
  {
  }

  /** An ascending sequence holds no ordering twice. */
  lemma AscendingOnce(ps: seq<seq<int>>, x: int, y: int)
    requires Ascending(ps) && 0 <= x < y < |ps|
    ensures ps[x] != ps[y]
  {
    LexLessDiffers(ps[x], ps[y]);
  }

  lemma AscendingAppend(a: seq<seq<int>>, b: seq<seq<int>>)
    requires Ascending(a) && Ascending(b)
    requires forall x, y :: 0 <= x < |a| && 0 <= y < |b| ==> LexLess(a[x], b[y])
    ensures Ascending(a + b)
  {
    forall x, y | 0 <= x < y < |a + b|
      ensures LexLess((a + b)[x], (a + b)[y])
    {
      if y < |a| {
        assert LexLess(a[x], a[y]);
      } else if x < |a| {
        assert LexLess(a[x], b[y - |a|]);
      } else {
        assert LexLess(b[x - |a|], b[y - |a|]);
      }
    }
  }

  /** Two orderings that extend prefix + [i] and prefix + [j], i < j. */
  lemma LexAtBranch(a: seq<int>, b: seq<int>, prefix: seq<int>)
    requires IsPrefixOf(prefix, a) && IsPrefixOf(prefix, b) && |prefix| < |a| && |prefix| < |b|
    requires a[|prefix|] < b[|prefix|]
    ensures LexLess(a, b)
  {
    var k := |prefix|;
    assert a[..k] == b[..k];
  }

  /** Everything reached from an arrangement is a complete ordering that
      extends it, and the orderings come in increasing order. */
  lemma {:induction false} CompletionsFacts(n: nat, prefix: seq<int>)
    requires IsArrangement(prefix, n) && |prefix| <= n
    ensures forall e :: e in Completions(n, prefix) ==> IsPermutation(e, n) && IsPrefixOf(prefix, e)
    ensures Ascending(Completions(n, prefix))
    decreases n - |prefix|, 1
  {
    if |prefix| < n {
      CompletionsFromFacts(n, prefix, 0);
    }
  }

  lemma {:induction false} CompletionsFromFacts(n: nat, prefix: seq<int>, i: nat)
    requires IsArrangement(prefix, n) && |prefix| < n
    ensures forall e :: e in CompletionsFrom(n, prefix, i) ==>
              IsPermutation(e, n) && IsPrefixOf(prefix, e) && i <= e[|prefix|]
    ensures Ascending(CompletionsFrom(n, prefix, i))
    decreases n - |prefix|, 0, n - i
  {
    if i < n {
      var here := if i in prefix then [] else Completions(n, prefix + [i]);
      var rest := CompletionsFrom(n, prefix, i + 1);
      CompletionsFromFacts(n, prefix, i + 1);
      if i !in prefix {
        ArrangementExtend(prefix, i, n);
        CompletionsFacts(n, prefix + [i]);
        forall e | e in here
          ensures IsPrefixOf(prefix, e) && e[|prefix|] == i
        {
          PrefixTransitive(prefix, prefix + [i], e);
        }
      }
      forall x, y | 0 <= x < |here| && 0 <= y < |rest|
        ensures LexLess(here[x], rest[y])
      {
        assert here[x] in here && rest[y] in rest;
        LexAtBranch(here[x], rest[y], prefix);
      }
      AscendingAppend(here, rest);
    }
  }

  /** Every complete ordering that extends prefix is reached. */
  lemma {:induction false} CompletionsCover(n: nat, prefix: seq<int>, p: seq<int>)
    requires IsPermutation(p, n) && IsPrefixOf(prefix, p)
    ensures p in Completions(n, prefix)
    decreases n - |prefix|, 1
  {
    if |prefix| < n {
      CompletionsFromCover(n, prefix, 0, p);
    } else {
      assert p == prefix;
    }
  }

  lemma {:induction false} CompletionsFromCover(n: nat, prefix: seq<int>, i: nat, p: seq<int>)
    requires IsPermutation(p, n) && IsPrefixOf(prefix, p) && |prefix| < n && i <= p[|prefix|]
    ensures p in CompletionsFrom(n, prefix, i)
    decreases n - |prefix|, 0, n - i
  {
    var k := |prefix|;
    if p[k] == i {
      assert forall j :: 0 <= j < k ==> prefix[j] == p[j] != p[k];
      assert p[..k + 1] == prefix + [i];
      CompletionsCover(n, prefix + [i], p);
    } else {
      CompletionsFromCover(n, prefix, i + 1, p);
    }
  }

  /** Everything that the whole search (from the empty prefix) reaches:
      each complete ordering exactly once, in increasing order. */
  lemma AllOrderings(n: nat)
    ensures forall p :: p in Completions(n, []) <==> IsPermutation(p, n)
    ensures Ascending(Completions(n, []))
  {
    CompletionsFacts(n, []);
    forall p | IsPermutation(p, n)
      ensures p in Completions(n, [])
    {
      CompletionsCover(n, [], p);
    }
  }

  // The best so far, as build_superstring leaves it.

  /** build_superstring's update: the chain of p replaces the best when it
      is strictly shorter. */
  function Offer(rs: seq<seq<char>>, best: (int, seq<char>), p: seq<int>): (int, seq<char>)
    requires InRange(p, |rs|)
  {
    var s := ChainString(rs, p);
    if |s| < best.0 then (|s|, s) else best
  }

  predicate AllInRange(ps: seq<seq<int>>, n: int)
  {
    forall k :: 0 <= k < |ps| ==> InRange(ps[k], n)
  }

  /** The best after the orderings ps have been offered in turn, from the
      initial best_len and the empty best_superstring. */
  function Replay(rs: seq<seq<char>>, ps: seq<seq<int>>): (int, seq<char>)
    requires AllInRange(ps, |rs|)
    decreases |ps|
  {
    if ps == [] then (MAX_SUPERSTRING_LEN, [])
    else Offer(rs, Replay(rs, ps[..|ps| - 1]), ps[|ps| - 1])
  }

  /** One more ordering offered. */
  lemma ReplaySnoc(rs: seq<seq<char>>, ps: seq<seq<int>>, p: seq<int>)
    requires AllInRange(ps, |rs|) && InRange(p, |rs|)
    ensures AllInRange(ps + [p], |rs|)
    ensures Replay(rs, ps + [p]) == Offer(rs, Replay(rs, ps), p)
  {
    assert (ps + [p])[..|ps|] == ps;
  }

  /** The best is no longer than the initial bound nor than any chain offered. */
  lemma {:induction false} ReplayBound(rs: seq<seq<char>>, ps: seq<seq<int>>)
    requires AllInRange(ps, |rs|)
    ensures Replay(rs, ps).0 <= MAX_SUPERSTRING_LEN
    ensures forall k :: 0 <= k < |ps| ==> Replay(rs, ps).0 <= |ChainString(rs, ps[k])|
    decreases |ps|
  {
    if ps != [] {
      ReplayBound(rs, ps[..|ps| - 1]);
    }
  }

  /** The best is the initial pair or the chain of an ordering offered, with
      best_len its length. */
  lemma {:induction false} ReplayAttained(rs: seq<seq<char>>, ps: seq<seq<int>>)
    requires AllInRange(ps, |rs|)
    ensures var r := Replay(rs, ps);
      r == (MAX_SUPERSTRING_LEN, []) ||
      exists k :: 0 <= k < |ps| && r.1 == ChainString(rs, ps[k]) && r.0 == |r.1|
    decreases |ps|
  {
    if ps != [] {
      var init := ps[..|ps| - 1];
      ReplayAttained(rs, init);
      var r := Replay(rs, init);
      if r != (MAX_SUPERSTRING_LEN, []) && Replay(rs, ps) == r {
        var k :| 0 <= k < |init| && r.1 == ChainString(rs, init[k]) && r.0 == |r.1|;
        assert init[k] == ps[k];
      }
    }
  }

  /** Offering more orderings never lengthens the best. */
  lemma {:induction false} ReplayShrinks(rs: seq<seq<char>>, ps: seq<seq<int>>, qs: seq<seq<int>>)
    requires AllInRange(ps + qs, |rs|)
    ensures AllInRange(ps, |rs|)
    ensures Replay(rs, ps + qs).0 <= Replay(rs, ps).0
    decreases |qs|
  {
    assert forall k :: 0 <= k < |ps| ==> (ps + qs)[k] == ps[k];
    if qs != [] {
      var init := qs[..|qs| - 1];
      assert (ps + qs)[..|ps + qs| - 1] == ps + init;
      ReplayShrinks(rs, ps, init);
    } else {
      assert ps + qs == ps;
    }
  }

  /** The globals of new_brut.cpp: the reads, the overlap table, perm[],
      used[], best_len and best_superstring; visited logs the orderings
      build_superstring has been called on. */
  class Brut {
    const rs: seq<seq<char>>
    const overlap: array2<int>
    const used: array<bool>
    const perm: array<int>
    var bestLen: int
    var bestSuperstring: seq<char>
    ghost var visited: seq<seq<int>>

    ghost predicate Valid()
      reads this
    {
      |rs| <= MAX_READS && overlap.Length0 == MAX_READS && overlap.Length1 == MAX_READS
      && used.Length == MAX_READS && perm.Length == MAX_READS
    }

    /** The best is what offering the visited orderings in turn gives. */
    ghost predicate Consistent()
      reads this
    {
      AllInRange(visited, |rs|) && (bestLen, bestSuperstring) == Replay(rs, visited)
    }

    /** The zero-initialised globals, before build_overlap_matrix. */
    constructor (input: seq<seq<char>>)
      requires |input| <= MAX_READS
      ensures rs == input && Valid() && Consistent() && visited == []
      ensures bestLen == MAX_SUPERSTRING_LEN && bestSuperstring == []
      ensures forall j :: 0 <= j < MAX_READS ==> !used[j]
      ensures fresh(overlap) && fresh(used) && fresh(perm)
    {
      rs := input;
      overlap := new int[MAX_READS, MAX_READS];
      used := new bool[MAX_READS](_ => false);
      perm := new int[MAX_READS](_ => 0);
      bestLen := MAX_SUPERSTRING_LEN;
      bestSuperstring := [];
      visited := [];
    }

    /** build_superstring: the chain of perm[0..n), kept when strictly
        shorter. With no reads perm[0] names the zeroed reads[0], the empty
        string. */
    method BuildSuperstring()
      requires Valid() && TableHolds(rs, overlap) && Consistent()
      requires IsPermutation(perm[..|rs|], |rs|)
      modifies this`bestLen, this`bestSuperstring, this`visited
      ensures visited == old(visited) + [perm[..|rs|]] && Consistent()
      ensures bestLen <= old(bestLen)
      ensures bestLen < old(bestLen) ==> bestSuperstring == ChainString(rs, perm[..|rs|]) && |bestSuperstring| == bestLen
      ensures bestLen == old(bestLen) ==> bestSuperstring == old(bestSuperstring)
    {
      var p := perm[..|rs|];
      var temp, len;
      if |rs| == 0 {
        temp, len := [], 0;
      } else {
        temp, len := BuildChain(rs, overlap, p);
      }
      if len < bestLen {
        bestLen := len;
        bestSuperstring := temp;
      }
      ReplaySnoc(rs, visited, p);
      visited := visited + [p];
    }

    /** generate_permutations: every complete ordering extending
        perm[0..depth) is built, in increasing order; used[] and
        perm[0..depth) are as on entry. */
    method GeneratePermutations(depth: int)
      requires Valid() && TableHolds(rs, overlap) && Consistent()
      requires 0 <= depth <= |rs| && IsArrangement(perm[..depth], |rs|)
      requires used[..|rs|] == Flags(perm[..depth], |rs|)
      modifies used, perm, this`bestLen, this`bestSuperstring, this`visited
      ensures Consistent() && bestLen <= old(bestLen)
      ensures used[..] == old(used[..]) && perm[..depth] == old(perm[..depth])
      ensures visited == old(visited) + Completions(|rs|, old(perm[..depth]))
      decreases |rs| - depth, 2
    {
      ghost var prefix := perm[..depth];
      if depth == |rs| {
        BuildSuperstring();
        ReplayShrinks(rs, old(visited), [prefix]);
        return;
      }
      var i := 0;
      while i < |rs|
        invariant 0 <= i <= |rs|
        invariant Consistent() && bestLen <= old(bestLen)
        invariant used[..] == old(used[..]) && perm[..depth] == prefix
        invariant visited + CompletionsFrom(|rs|, prefix, i) == old(visited) + Completions(|rs|, prefix)
      {
        GenerateStep(depth, i, prefix);
        i := i + 1;
      }
    }

    /** One pass of generate_permutations's loop: read i, when unused, is
        placed at depth and searched below. */
    method GenerateStep(depth: int, i: int, ghost prefix: seq<int>)
      requires Valid() && TableHolds(rs, overlap) && Consistent()
      requires 0 <= depth < |rs| && 0 <= i < |rs| && perm[..depth] == prefix && IsArrangement(prefix, |rs|)
      requires used[..|rs|] == Flags(prefix, |rs|)
      modifies used, perm, this`bestLen, this`bestSuperstring, this`visited
      ensures Consistent() && bestLen <= old(bestLen)
      ensures used[..] == old(used[..]) && perm[..depth] == prefix
      ensures visited + CompletionsFrom(|rs|, prefix, i + 1) == old(visited) + CompletionsFrom(|rs|, prefix, i)
      decreases |rs| - depth, 1
    {
      ghost var n := |rs|;
      ghost var rest := CompletionsFrom(n, prefix, i + 1);
      if !used[i] {
        assert i !in prefix;
        Descend(depth, i, prefix);
        assert CompletionsFrom(n, prefix, i) == Completions(n, prefix + [i]) + rest;
      } else {
        assert CompletionsFrom(n, prefix, i) == [] + rest;
      }
    }

    /** The unused branch: read i marked used, placed at perm[depth], the
        search below, and i released again. */
    method Descend(depth: int, i: int, ghost prefix: seq<int>)
      requires Valid() && TableHolds(rs, overlap) && Consistent()
      requires 0 <= depth < |rs| && 0 <= i < |rs| && perm[..depth] == prefix && IsArrangement(prefix, |rs|)
      requires used[..|rs|] == Flags(prefix, |rs|) && i !in prefix
      modifies used, perm, this`bestLen, this`bestSuperstring, this`visited
      ensures Consistent() && bestLen <= old(bestLen)
      ensures used[..] == old(used[..]) && perm[..depth] == prefix
      ensures visited == old(visited) + Completions(|rs|, prefix + [i])
      decreases |rs| - depth, 0
    {
      var n := |rs|;
      ArrangementExtend(prefix, i, n);
      FlagsExtend(prefix, i, n);
      used[i] := true;
      perm[depth] := i;
      assert perm[..depth + 1] == prefix + [i];
      GeneratePermutations(depth + 1);
      assert perm[..depth] == perm[..depth + 1][..depth];
      used[i] := false;
      assert used[..] == old(used[..]);
    }

    /** main after reading: the table, then the search from depth 0. The
        best is no longer than any ordering's chain and is the chain of one
        of them or the initial pair; every ordering was built once, in
        increasing order. */
    method Solve()
      requires Valid() && Consistent() && visited == []
      requires forall j :: 0 <= j < MAX_READS ==> !used[j]
      modifies overlap, used, perm, this`bestLen, this`bestSuperstring, this`visited
      ensures forall p :: p in visited <==> IsPermutation(p, |rs|)
      ensures Ascending(visited)
      ensures bestLen <= MAX_SUPERSTRING_LEN
      ensures forall p :: IsPermutation(p, |rs|) ==> bestLen <= |ChainString(rs, p)|
      ensures (bestLen == MAX_SUPERSTRING_LEN && bestSuperstring == []) ||
              exists p :: IsPermutation(p, |rs|) && bestSuperstring == ChainString(rs, p) && bestLen == |bestSuperstring|
    {
      BuildOverlapMatrix(rs, overlap);
      assert perm[..0] == [];
      assert used[..|rs|] == Flags([], |rs|);
      GeneratePermutations(0);
      SearchOutcome(rs, visited);
    }
  }

  /** The outcome of offering every complete ordering in the search's order. */
  lemma SearchOutcome(rs: seq<seq<char>>, ps: seq<seq<int>>)
    requires ps == Completions(|rs|, []) && AllInRange(ps, |rs|)
    ensures forall p :: p in ps <==> IsPermutation(p, |rs|)
    ensures Ascending(ps)
    ensures Replay(rs, ps).0 <= MAX_SUPERSTRING_LEN
    ensures forall p :: IsPermutation(p, |rs|) ==> Replay(rs, ps).0 <= |ChainString(rs, p)|
    ensures var r := Replay(rs, ps);
      r == (MAX_SUPERSTRING_LEN, []) ||
      exists p :: IsPermutation(p, |rs|) && r.1 == ChainString(rs, p) && r.0 == |r.1|
  {
    AllOrderings(|rs|);
    ReplayBound(rs, ps);
    ReplayAttained(rs, ps);
    forall p | IsPermutation(p, |rs|)
      ensures Replay(rs, ps).0 <= |ChainString(rs, p)|
    {
      var k := IndexOf(ps, p);
    }
    var r := Replay(rs, ps);
    if r != (MAX_SUPERSTRING_LEN, []) {
      var k :| 0 <= k < |ps| && r.1 == ChainString(rs, ps[k]) && r.0 == |r.1|;
      assert ps[k] in ps;
    }
  }

  /** A chain is at most as long as its reads together. */
  lemma {:induction false} ChainAtMostSum(rs: seq<seq<char>>, path: seq<int>)
    requires InRange(path, |rs|)
    ensures |ChainString(rs, path)| <= SumLengths(Select(rs, path))
    decreases |path|
  {
    ChainLength(rs, path);
    ChainOverlapsNonNegative(rs, path);
  }

  lemma {:induction false} ChainOverlapsNonNegative(rs: seq<seq<char>>, path: seq<int>)
    requires InRange(path, |rs|)
    ensures ChainOverlaps(rs, path) >= 0
    decreases |path|
  {
    if |path| > 1 {
      ChainOverlapsNonNegative(rs, path[..|path| - 1]);
    }
  }

  /** Reads that fit fgets's buffer (at most MAX_LEN - 1 symbols each) add
      up to less than the initial best_len. */
  lemma {:induction false} ShortReadsSum(xs: seq<seq<char>>)
    requires forall k :: 0 <= k < |xs| ==> |xs[k]| < MAX_LEN
    ensures SumLengths(xs) <= |xs| * (MAX_LEN - 1)
    decreases |xs|
  {
    if xs != [] {
      ShortReadsSum(xs[..|xs| - 1]);
    }
  }

  /** With at least one read, at most MAX_READS of them, each fitting the
      buffer, some chain is shorter than the initial best_len: the search
      then always ends with the chain of a shortest ordering. */
  lemma BestIsFound(rs: seq<seq<char>>, bestLen: int, bestSuperstring: seq<char>)
    requires 1 <= |rs| <= MAX_READS && forall k :: 0 <= k < |rs| ==> |rs[k]| < MAX_LEN
    requires forall p :: IsPermutation(p, |rs|) ==> bestLen <= |ChainString(rs, p)|
    requires (bestLen == MAX_SUPERSTRING_LEN && bestSuperstring == []) ||
             exists p :: IsPermutation(p, |rs|) && bestSuperstring == ChainString(rs, p) && bestLen == |bestSuperstring|
    ensures exists p :: IsPermutation(p, |rs|) && bestSuperstring == ChainString(rs, p) && bestLen == |bestSuperstring|
  {
    var id := seq(|rs|, k => k);
    assert IsPermutation(id, |rs|);
    ChainAtMostSum(rs, id);
    ShortReadsSum(Select(rs, id));
  }
}
