/** heuristic.cpp: exhaustive search by swapping. The array of read
    pointers is permuted in place (swap, recurse, swap back); at every
    complete arrangement the reads are merged left to right, each onto the
    whole string built so far, and the result is kept when strictly shorter
    than the best so far. */
module Heuristic {
  import opened Overlap
  import opened Merging
  import Orders

  const MAX_READS := 12
  const MAX_LEN := 100
  /** main's initial min_len, MAX_LEN * MAX_READS. */
  const INITIAL_MIN_LEN := MAX_LEN * MAX_READS

  /** merge: a, then b without the symbols it overlaps a's end. */
  method MergeInto(a: seq<char>, b: seq<char>) returns (result: seq<char>)
    ensures result == Merge(a, b)
    ensures |result| == |a| + |b| - MaxOverlap(a, b)
    ensures result[..|a|] == a && result[|result| - |b|..] == b
  {
    var ov := OverlapUpward(a, b);
    result := a + b[ov..];
  }

  /** The merge of one read alone is that read. */
  lemma MergeAllSingle(r: seq<char>)
    ensures MergeAll([r]) == r
  {
    assert [r][..0] == [];
    assert MaxOverlap([], r) == 0;
  }

  /** The buffer loop of calculate_superstring_length (and its copy in
      generate_permutations): arr[0], then every next read merged onto
      the buffer. */
  method MergeLeft(arr: array<seq<char>>, n: int) returns (buffer: seq<char>)
    requires 1 <= n <= arr.Length
    ensures buffer == MergeAll(arr[..n])
  {
    buffer := arr[0];
    MergeAllSingle(arr[0]);
    assert arr[..1] == [arr[0]];
    var i := 1;
    while i < n
      invariant 1 <= i <= n
      invariant buffer == MergeAll(arr[..i])
    {
      var temp := MergeInto(buffer, arr[i]);
      assert arr[..i + 1] == arr[..i] + [arr[i]];
      MergeAllSnoc(arr[..i], arr[i]);
      buffer := temp;
      i := i + 1;
    }
  }

  /** calculate_superstring_length: the length of the left-to-right merge
      of the first n reads. */
  method CalculateSuperstringLength(arr: array<seq<char>>, n: int) returns (len: int)
    requires 1 <= n <= arr.Length
    ensures len == |MergeAll(arr[..n])|
    ensures forall k :: 0 <= k < n ==> |arr[k]| <= len
    ensures len <= SumLengths(arr[..n])
  {
    var buffer := MergeLeft(arr, n);
    len := |buffer|;
    MergeAllLength(arr[..n]);
  }

  /** copy_permutation: the first n entries of src. */
  method CopyPermutation(perm: array<seq<char>>, src: seq<seq<char>>, n: int)
    requires 0 <= n <= |src| && n <= perm.Length
    modifies perm
    ensures perm[..n] == src[..n] && perm[n..] == old(perm[n..])
  {
    var i := 0;
    while i < n
      invariant 0 <= i <= n
      invariant perm[..i] == src[..i] && perm[n..] == old(perm[n..])
    {
      perm[i] := src[i];
      assert perm[..i + 1] == perm[..i] + [perm[i]];
      assert src[..i + 1] == src[..i] + [src[i]];
      i := i + 1;
    }
  }

  // Swapping.

  /** s with entries a and b exchanged. */
  function Swapped<T>(s: seq<T>, a: int, b: int): (r: seq<T>)
    requires 0 <= a < |s| && 0 <= b < |s|
    ensures |r| == |s| && r[a] == s[b] && r[b] == s[a]
    ensures forall k :: 0 <= k < |s| && k != a && k != b ==> r[k] == s[k]
  {
    s[a := s[b]][b := s[a]]
  }

  /** Swapping twice restores the sequence. */
  lemma SwappedTwice<T>(s: seq<T>, a: int, b: int)
    requires 0 <= a < |s| && 0 <= b < |s|
    ensures Swapped(Swapped(s, a, b), a, b) == s
  {
  }

  /** A swap inside the window [lo, hi) leaves the window's contents and
      everything outside it as they were. */
  lemma SwappedWindow<T>(s: seq<T>, a: int, b: int, lo: int, hi: int)
    requires 0 <= lo <= a < hi <= |s| && lo <= b < hi
    ensures multiset(Swapped(s, a, b)[lo..hi]) == multiset(s[lo..hi])
    ensures Swapped(s, a, b)[..lo] == s[..lo] && Swapped(s, a, b)[hi..] == s[hi..]
    ensures multiset(Swapped(s, a, b)) == multiset(s)
  {
    var r := Swapped(s, a, b);
    assert r[lo..hi] == Swapped(s[lo..hi], a - lo, b - lo);
    SwappedPermutes(s[lo..hi], a - lo, b - lo);
    SwappedPermutes(s, a, b);
  }

  lemma SwappedPermutes<T>(s: seq<T>, a: int, b: int)
    requires 0 <= a < |s| && 0 <= b < |s|
    ensures multiset(Swapped(s, a, b)) == multiset(s)
  {
    if a != b {
      var t := s[a := s[b]];
      assert multiset(t) == multiset(s) - multiset{s[a]} + multiset{s[b]};
      assert t[b] == s[b];
      assert multiset(t[b := s[a]]) == multiset(t) - multiset{s[b]} + multiset{s[a]};
    }
  }

  /** swap: the two entries exchanged, nothing else changed. */
  method Swap(arr: array<seq<char>>, a: int, b: int)
    requires 0 <= a < arr.Length && 0 <= b < arr.Length
    modifies arr
    ensures arr[..] == Swapped(old(arr[..]), a, b)
  {
    var tmp := arr[a];
    arr[a] := arr[b];
    arr[b] := tmp;
  }

  // The arrangements generate_permutations reaches, in its order.

  /** The arrangements reached from s with positions start..end still to
      fill: s itself when one position is left, else for each i in
      start..end in turn, those reached after swapping start and i. */
  function Leaves<T>(s: seq<T>, start: int, end: int): seq<seq<T>>
    requires 0 <= start <= end + 1 && end < |s|
    decreases end - start + 1, 1
  {
    if start > end then []
    else if start == end then [s]
    else LeavesFrom(s, start, end, start)
  }

  function LeavesFrom<T>(s: seq<T>, start: int, end: int, i: int): seq<seq<T>>
    requires 0 <= start < end < |s| && start <= i
    decreases end - start + 1, 0, end + 1 - i
  {
    if i > end then []
    else Leaves(Swapped(s, start, i), start + 1, end) + LeavesFrom(s, start, end, i + 1)
  }

  /** t agrees with s outside the window start..end and holds the same
      entries inside it. */
  ghost predicate Rearranges<T>(t: seq<T>, s: seq<T>, start: int, end: int)
    requires 0 <= start <= end + 1 && end < |s|
  {
    |t| == |s| && t[..start] == s[..start] && t[end + 1..] == s[end + 1..]
    && multiset(t[start..end + 1]) == multiset(s[start..end + 1])
  }

  /** Every leaf rearranges the window only, so it is a permutation of s. */
  lemma {:induction false} LeavesRearrange<T>(s: seq<T>, start: int, end: int)
    requires 0 <= start <= end + 1 && end < |s|
    ensures forall t :: t in Leaves(s, start, end) ==> Rearranges(t, s, start, end)
    decreases end - start + 1, 1
  {
    if start < end {
      LeavesFromRearrange(s, start, end, start);
    }
  }

  lemma {:induction false} LeavesFromRearrange<T>(s: seq<T>, start: int, end: int, i: int)
    requires 0 <= start < end < |s| && start <= i
    ensures forall t :: t in LeavesFrom(s, start, end, i) ==> Rearranges(t, s, start, end)
    decreases end - start + 1, 0, end + 1 - i
  {
    if i <= end {
      var s' := Swapped(s, start, i);
      LeavesRearrange(s', start + 1, end);
      LeavesFromRearrange(s, start, end, i + 1);
      SwappedWindow(s, start, i, start, end + 1);
      forall t | t in Leaves(s', start + 1, end)
        ensures Rearranges(t, s, start, end)
      {
        RearrangesWiden(t, s', s, start, end);
      }
    }
  }

  /** A rearrangement of the window start+1..end of s', where s' agrees with
      s before start and after end and holds the same window start..end. */
  lemma RearrangesWiden<T>(t: seq<T>, s': seq<T>, s: seq<T>, start: int, end: int)
    requires 0 <= start < end < |s| && |s'| == |s|
    requires Rearranges(t, s', start + 1, end)
    requires s'[..start] == s[..start] && s'[end + 1..] == s[end + 1..]
    requires multiset(s'[start..end + 1]) == multiset(s[start..end + 1])
    ensures Rearranges(t, s, start, end)
  {
    assert t[..start] == t[..start + 1][..start];
    assert s'[..start] == s'[..start + 1][..start];
    assert t[start..end + 1] == [t[start]] + t[start + 1..end + 1];
    assert s'[start..end + 1] == [s'[start]] + s'[start + 1..end + 1];
    assert t[start] == s'[start] by {
      assert t[..start + 1][start] == s'[..start + 1][start];
    }
  }

  /** Every rearrangement of the window is reached. */
  lemma {:induction false} LeavesCover<T>(s: seq<T>, start: int, end: int, t: seq<T>)
    requires 0 <= start <= end < |s| && Rearranges(t, s, start, end)
    ensures t in Leaves(s, start, end)
    decreases end - start + 1, 1
  {
    if start == end {
      assert t[start..start + 1] == [t[start]] && s[start..start + 1] == [s[start]];
      assert multiset([t[start]]) == multiset([s[start]]);
      assert t[start] == s[start] by {
        assert t[start] in multiset([s[start]]);
      }
      assert t == t[..start] + [t[start]] + t[start + 1..];
      assert s == s[..start] + [s[start]] + s[start + 1..];
    } else {
      assert t[start] in multiset(s[start..end + 1]) by {
        assert t[start] == t[start..end + 1][0];
      }
      var k :| start <= k <= end && s[k] == t[start] by {
        assert t[start] in s[start..end + 1];
      }
      LeavesFromCover(s, start, end, start, k, t);
    }
  }

  lemma {:induction false} LeavesFromCover<T>(s: seq<T>, start: int, end: int, i: int, k: int, t: seq<T>)
    requires 0 <= start < end < |s| && start <= i <= k <= end
    requires Rearranges(t, s, start, end) && s[k] == t[start]
    ensures t in LeavesFrom(s, start, end, i)
    decreases end - start + 1, 0, end + 1 - i
  {
    LeavesFromUnfold(s, start, end, i);
    if i < k {
      LeavesFromCover(s, start, end, i + 1, k, t);
    } else {
      RearrangesAfterSwap(t, s, start, end, k);
      LeavesCover(Swapped(s, start, k), start + 1, end, t);
    }
  }

  /** Swapping the entry t starts with into place leaves the rest of the
      window to rearrange. */
  lemma RearrangesAfterSwap<T>(t: seq<T>, s: seq<T>, start: int, end: int, k: int)
    requires 0 <= start < end < |s| && start <= k <= end
    requires Rearranges(t, s, start, end) && s[k] == t[start]
    ensures Rearranges(t, Swapped(s, start, k), start + 1, end)
  {
    var s' := Swapped(s, start, k);
    SwappedWindow(s, start, k, start, end + 1);
    RearrangesNarrow(t, s', start, end);
  }

  /** t and s' agree at start and rearrange the same window start..end, so
      they rearrange the window start+1..end. */
  lemma RearrangesNarrow<T>(t: seq<T>, s': seq<T>, start: int, end: int)
    requires 0 <= start < end < |s'| && Rearranges(t, s', start, end) && s'[start] == t[start]
    ensures Rearranges(t, s', start + 1, end)
  {
    assert t[..start + 1] == t[..start] + [t[start]];
    assert s'[..start + 1] == s'[..start] + [s'[start]];
    assert t[start..end + 1] == [t[start]] + t[start + 1..end + 1];
    assert s'[start..end + 1] == [s'[start]] + s'[start + 1..end + 1];
    assert multiset(t[start..end + 1]) == multiset{t[start]} + multiset(t[start + 1..end + 1]);
    assert multiset(s'[start..end + 1]) == multiset{t[start]} + multiset(s'[start + 1..end + 1]);
    assert multiset(t[start + 1..end + 1]) == multiset(t[start..end + 1]) - multiset{t[start]};
    assert multiset(s'[start + 1..end + 1]) == multiset(s'[start..end + 1]) - multiset{t[start]};
  }

  // The best so far.

  /** One leaf: the merge of its first n reads (all of them when it has
      fewer) replaces the best when strictly shorter. */
  function Offer(best: (int, seq<char>), leaf: seq<seq<char>>, n: nat): (int, seq<char>)
  {
    var m := MergeAll(leaf[..Min(n, |leaf|)]);
    if |m| < best.0 then (|m|, m) else best
  }

  /** The leaves offered in turn. */
  function Fold(best: (int, seq<char>), ls: seq<seq<seq<char>>>, n: nat): (int, seq<char>)
    decreases |ls|
  {
    if ls == [] then best else Fold(Offer(best, ls[0], n), ls[1..], n)
  }

  lemma {:induction false} FoldAppend(best: (int, seq<char>), a: seq<seq<seq<char>>>, b: seq<seq<seq<char>>>, n: nat)
    ensures Fold(best, a + b, n) == Fold(Fold(best, a, n), b, n)
    decreases |a|
  {
    if a != [] {
      assert (a + b)[0] == a[0] && (a + b)[1..] == a[1..] + b;
      FoldAppend(Offer(best, a[0], n), a[1..], b, n);
    } else {
      assert a + b == b;
    }
  }

  /** Offering a + b is offering a, then b. */
  lemma FoldSplit(best: (int, seq<char>), all: seq<seq<seq<char>>>, a: seq<seq<seq<char>>>, b: seq<seq<seq<char>>>, n: nat)
    requires all == a + b
    ensures Fold(Fold(best, a, n), b, n) == Fold(best, all, n)
  {
    FoldAppend(best, a, b, n);
  }

  lemma LeavesFromUnfold<T>(s: seq<T>, start: int, end: int, i: int)
    requires 0 <= start < end < |s| && start <= i <= end
    ensures LeavesFrom(s, start, end, i) == Leaves(Swapped(s, start, i), start + 1, end) + LeavesFrom(s, start, end, i + 1)
  {
  }

  /** The best never grows and ends no longer than any leaf's merge. */
  lemma {:induction false} FoldBound(best: (int, seq<char>), ls: seq<seq<seq<char>>>, n: int)
    requires 0 <= n && forall k :: 0 <= k < |ls| ==> n <= |ls[k]|
    ensures Fold(best, ls, n).0 <= best.0
    ensures forall k :: 0 <= k < |ls| ==> Fold(best, ls, n).0 <= |MergeAll(ls[k][..n])|
    decreases |ls|
  {
    if ls != [] {
      FoldBound(Offer(best, ls[0], n), ls[1..], n);
      assert forall k :: 1 <= k < |ls| ==> ls[k] == ls[1..][k - 1];
    }
  }

  /** The best is the old one, or a strictly shorter leaf's merge whose
      length is the new min_len. */
  lemma {:induction false} FoldAttained(best: (int, seq<char>), ls: seq<seq<seq<char>>>, n: int)
    requires 0 <= n && forall k :: 0 <= k < |ls| ==> n <= |ls[k]|
    ensures var r := Fold(best, ls, n);
      r == best ||
      (r.0 < best.0 && exists k :: 0 <= k < |ls| && r.1 == MergeAll(ls[k][..n]) && r.0 == |r.1|)
    decreases |ls|
  {
    if ls != [] {
      var b := Offer(best, ls[0], n);
      FoldAttained(b, ls[1..], n);
      FoldBound(b, ls[1..], n);
      var r := Fold(b, ls[1..], n);
      if r != b {
        var k :| 0 <= k < |ls[1..]| && r.1 == MergeAll(ls[1..][k][..n]) && r.0 == |r.1|;
        assert ls[1..][k] == ls[k + 1];
      }
    }
  }

  /** min_len and shortest, which generate_permutations writes through
      pointers. */
  class Search {
    var shortest: seq<char>
    var minLen: int

    constructor (initial: seq<char>, bound: int)
      ensures shortest == initial && minLen == bound
    {
      shortest := initial;
      minLen := bound;
    }

    /** generate_permutations: every arrangement of arr[start..end] is
        reached by swapping; at each the merge of arr[0..end] is offered.
        arr is as on entry afterwards. */
    method GeneratePermutations(arr: array<seq<char>>, start: int, end: int)
      requires 0 <= start <= end + 1 && end < arr.Length
      modifies arr, this`shortest, this`minLen
      ensures arr[..] == old(arr[..])
      ensures (minLen, shortest) == Fold((old(minLen), old(shortest)), Leaves(old(arr[..]), start, end), end + 1)
      decreases end - start + 1, 2
    {
      if start == end {
        ghost var s := arr[..];
        Leaf(arr, end);
        assert Leaves(s, start, end) == [s] && [s][1..] == [];
      } else if start < end {
        Permute(arr, start, end);
      }
    }

    /** The loop of generate_permutations. */
    method Permute(arr: array<seq<char>>, start: int, end: int)
      requires 0 <= start < end < arr.Length
      modifies arr, this`shortest, this`minLen
      ensures arr[..] == old(arr[..])
      ensures (minLen, shortest) == Fold((old(minLen), old(shortest)), LeavesFrom(old(arr[..]), start, end, start), end + 1)
      decreases end - start + 1, 1
    {
      ghost var s := arr[..];
      ghost var best0 := (minLen, shortest);
      var i := start;
      while i <= end
        invariant start <= i <= end + 1
        invariant arr[..] == s
        invariant Fold((minLen, shortest), LeavesFrom(s, start, end, i), end + 1) == Fold(best0, LeavesFrom(s, start, end, start), end + 1)
      {
        ghost var before := (minLen, shortest);
        SwapAndSearch(arr, start, end, i, s);
        LeavesFromUnfold(s, start, end, i);
        FoldSplit(before, LeavesFrom(s, start, end, i), Leaves(Swapped(s, start, i), start + 1, end), LeavesFrom(s, start, end, i + 1), end + 1);
        i := i + 1;
      }
      assert LeavesFrom(s, start, end, i) == [];
    }

    /** The leaf of generate_permutations: the merge length, the early
        return when it is no shorter, else the rebuilt buffer kept. */
    method Leaf(arr: array<seq<char>>, end: int)
      requires 0 <= end < arr.Length
      modifies this`shortest, this`minLen
      ensures (minLen, shortest) == Offer((old(minLen), old(shortest)), arr[..], end + 1)
    {
      var currentLen := CalculateSuperstringLength(arr, end + 1);
      assert arr[..][..end + 1] == arr[..end + 1];
      if currentLen >= minLen {
        return;
      }
      var buffer := MergeLeft(arr, end + 1);
      if currentLen < minLen {
        shortest := buffer;
        minLen := currentLen;
      }
    }

    /** One pass of the loop: swap start and i, search below, swap back. */
    method SwapAndSearch(arr: array<seq<char>>, start: int, end: int, i: int, ghost s: seq<seq<char>>)
      requires 0 <= start < end < arr.Length && start <= i <= end && arr[..] == s
      modifies arr, this`shortest, this`minLen
      ensures arr[..] == s
      ensures (minLen, shortest) == Fold((old(minLen), old(shortest)), Leaves(Swapped(s, start, i), start + 1, end), end + 1)
      decreases end - start + 1, 0
    {
      Swap(arr, start, i);
      GeneratePermutations(arr, start + 1, end);
      Swap(arr, start, i);
      SwappedTwice(s, start, i);
    }
  }

  /** t holds the reads of input, each as often, in some order. */
  ghost predicate Reorders(t: seq<seq<char>>, input: seq<seq<char>>)
  {
    |t| == |input| && multiset(t) == multiset(input)
  }

  /** What the search from main's initial pair ends with. */
  function Outcome(input: seq<seq<char>>): (int, seq<char>)
    requires 1 <= |input|
  {
    Fold((INITIAL_MIN_LEN, []), Leaves(input, 0, |input| - 1), |input|)
  }

  /** main's search on n reads (main itself takes its twelve hard-coded
      reads): the reads copied into perm, shortest empty, min_len
      MAX_LEN * MAX_READS. The best is no longer than any arrangement's
      merge, and is either the initial pair or the merge of an arrangement,
      which then contains every read. */
  method ShortestSuperstring(input: seq<seq<char>>) returns (shortest: seq<char>, minLen: int)
    requires 1 <= |input| <= MAX_READS
    ensures minLen <= INITIAL_MIN_LEN
    ensures forall t :: Reorders(t, input) ==> minLen <= |MergeAll(t)|
    ensures (minLen == INITIAL_MIN_LEN && shortest == []) ||
            exists t :: Reorders(t, input) && shortest == MergeAll(t) && minLen == |shortest|
    ensures minLen < INITIAL_MIN_LEN ==> forall j :: 0 <= j < |input| ==> IsSubstring(input[j], shortest)
  {
    var n := |input|;
    var perm := new seq<char>[n];
    CopyPermutation(perm, input, n);
    assert perm[..] == input;
    var search := new Search([], INITIAL_MIN_LEN);
    search.GeneratePermutations(perm, 0, n - 1);
    shortest, minLen := search.shortest, search.minLen;
    assert (minLen, shortest) == Outcome(input);
    OutcomeBound(input);
    OutcomeAttained(input);
  }

  /** No arrangement merges shorter than the outcome. */
  lemma OutcomeBound(input: seq<seq<char>>)
    requires 1 <= |input|
    ensures Outcome(input).0 <= INITIAL_MIN_LEN
    ensures forall t :: Reorders(t, input) ==> Outcome(input).0 <= |MergeAll(t)|
  {
    var n := |input|;
    var ls := Leaves(input, 0, n - 1);
    LeafLengths(input, ls);
    FoldBound((INITIAL_MIN_LEN, []), ls, n);
    assert input[..0] == [] && input[n..] == [] && input[0..n] == input;
    forall t | Reorders(t, input)
      ensures Outcome(input).0 <= |MergeAll(t)|
    {
      assert t[..0] == [] && t[n..] == [] && t[0..n] == t;
      assert Rearranges(t, input, 0, n - 1);
      LeavesCover(input, 0, n - 1, t);
      var k := Orders.IndexOf(ls, t);
      assert t[..n] == t;
    }
  }

  /** The outcome is the initial pair or the merge of an arrangement, and
      then it contains every read. */
  lemma OutcomeAttained(input: seq<seq<char>>)
    requires 1 <= |input|
    ensures var r := Outcome(input);
      (r.0 == INITIAL_MIN_LEN && r.1 == []) || exists t :: Reorders(t, input) && r.1 == MergeAll(t) && r.0 == |r.1|
    ensures Outcome(input).0 < INITIAL_MIN_LEN ==> forall j :: 0 <= j < |input| ==> IsSubstring(input[j], Outcome(input).1)
  {
    var n := |input|;
    var ls := Leaves(input, 0, n - 1);
    var r := Outcome(input);
    LeafLengths(input, ls);
    FoldAttained((INITIAL_MIN_LEN, []), ls, n);
    if r != (INITIAL_MIN_LEN, []) {
      var k :| 0 <= k < |ls| && r.1 == MergeAll(ls[k][..n]) && r.0 == |r.1|;
      var t := ls[k];
      LeafReorders(input, t);
      assert t[..n] == t;
      forall j | 0 <= j < n
        ensures IsSubstring(input[j], r.1)
      {
        assert input[j] in multiset(t);
        var i :| 0 <= i < n && t[i] == input[j];
        MergeAllContainsEach(t, i);
      }
    }
  }

  /** Every leaf of the whole search holds as many reads as the input. */
  lemma LeafLengths(input: seq<seq<char>>, ls: seq<seq<seq<char>>>)
    requires 1 <= |input| && ls == Leaves(input, 0, |input| - 1)
    ensures forall k :: 0 <= k < |ls| ==> |ls[k]| == |input|
  {
    LeavesRearrange(input, 0, |input| - 1);
    forall k | 0 <= k < |ls|
      ensures |ls[k]| == |input|
    {
      assert ls[k] in ls;
    }
  }

  /** Every leaf of the whole search reorders the reads. */
  lemma LeafReorders(input: seq<seq<char>>, t: seq<seq<char>>)
    requires 1 <= |input| && t in Leaves(input, 0, |input| - 1)
    ensures Reorders(t, input)
  {
    var n := |input|;
    LeavesRearrange(input, 0, n - 1);
    assert input[0..n] == input && t[0..n] == t;
  }
}
