/** Orderings of the reads 0..n-1: the paths the searches walk, the
    used-flags they keep beside a path, and the counting facts about both. */
module Orders {

  /** No read index occurs twice. */
  predicate Distinct(s: seq<int>)
  {
    forall i, j :: 0 <= i < j < |s| ==> s[i] != s[j]
  }

  /** A partial ordering of the reads 0..n-1: every index in range, none repeated. */
  predicate IsArrangement(s: seq<int>, n: int)
  {
    (forall k :: 0 <= k < |s| ==> 0 <= s[k] < n) && Distinct(s)
  }

  /** A complete ordering: every one of the n reads exactly once. */
  predicate IsPermutation(s: seq<int>, n: int)
  {
    |s| == n && IsArrangement(s, n)
  }

  /** ext completes the partial ordering prefix to a complete ordering. */
  predicate IsCompletion(prefix: seq<int>, ext: seq<int>, n: int)
  {
    IsPermutation(prefix + ext, n)
  }

  /** ext extends prefix to a partial ordering of exactly depth reads. */
  predicate ReachesDepth(prefix: seq<int>, ext: seq<int>, n: int, depth: int)
  {
    |prefix + ext| == depth && IsArrangement(prefix + ext, n)
  }

  /** used[j] is set exactly for the reads on the path. */
  function Flags(order: seq<int>, n: nat): (f: seq<bool>)
    ensures |f| == n
    ensures forall j :: 0 <= j < n ==> (f[j] <==> j in order)
  {
    seq(n, j => j in order)
  }

  /** The number of set entries of a flag array. */
  function Trues(s: seq<bool>): nat
    decreases |s|
  {
    if s == [] then 0 else Trues(s[..|s| - 1]) + (if s[|s| - 1] then 1 else 0)
  }

  lemma {:induction false} TruesBound(s: seq<bool>)
    ensures Trues(s) <= |s|
    decreases |s|
  {
    if s != [] {
      TruesBound(s[..|s| - 1]);
    }
  }

  /** One more entry of the prefix counted. */
  lemma TruesPrefixStep(s: seq<bool>, i: nat)
    requires i < |s|
    ensures Trues(s[..i + 1]) == Trues(s[..i]) + (if s[i] then 1 else 0)
  {
    assert s[..i + 1][..i] == s[..i];
  }

  /** Setting one clear flag adds exactly one. */
  lemma {:induction false} TruesSet(s: seq<bool>, i: nat)
    requires i < |s| && !s[i]
    ensures Trues(s[i := true]) == Trues(s) + 1
    decreases |s|
  {
    var t := s[i := true];
    if i == |s| - 1 {
      assert t[..|t| - 1] == s[..|s| - 1];
    } else {
      assert t[..|t| - 1] == s[..|s| - 1][i := true];
      TruesSet(s[..|s| - 1], i);
    }
  }

  /** Clearing one set flag removes exactly one. */
  lemma TruesClear(s: seq<bool>, i: nat)
    requires i < |s| && s[i]
    ensures Trues(s[i := false]) + 1 == Trues(s)
  {
    var t := s[i := false];
    assert t[i := true] == s;
    TruesSet(t, i);
  }

  /** All flags clear: the flags of the empty path. */
  lemma NoFlags(s: seq<bool>, n: nat)
    requires |s| == n && forall j :: 0 <= j < n ==> !s[j]
    ensures s == Flags([], n)
  {
  }

  lemma FlagsExtend(order: seq<int>, i: int, n: nat)
    requires 0 <= i < n
    ensures Flags(order + [i], n) == Flags(order, n)[i := true]
  {
  }

  /** Clearing the flag of a read that was not on the path restores the flags. */
  lemma FlagsRestore(order: seq<int>, i: int, n: nat)
    requires 0 <= i < n && i !in order
    ensures Flags(order + [i], n)[i := false] == Flags(order, n)
  {
  }

  lemma ArrangementExtend(s: seq<int>, i: int, n: int)
    requires IsArrangement(s, n) && 0 <= i < n && i !in s
    ensures IsArrangement(s + [i], n)
  {
  }

  lemma ArrangementPrefix(s: seq<int>, k: nat, n: int)
    requires IsArrangement(s, n) && k <= |s|
    ensures IsArrangement(s[..k], n)
  {
  }

  /** The first read of a completion is a read not yet on the path, and the
      rest completes the path extended by it. */
  lemma CompletionStep(prefix: seq<int>, ext: seq<int>, n: int)
    requires IsCompletion(prefix, ext, n) && |ext| > 0
    ensures 0 <= ext[0] < n && ext[0] !in prefix
    ensures prefix + ext == (prefix + [ext[0]]) + ext[1..]
    ensures IsCompletion(prefix + [ext[0]], ext[1..], n)
  {
    var s := prefix + ext;
    assert s[|prefix|] == ext[0];
    assert (prefix + [ext[0]]) + ext[1..] == s;
    forall k | 0 <= k < |prefix|
      ensures prefix[k] != ext[0]
    {
      assert s[k] == prefix[k];
    }
  }

  /** Every completion of a partial path starts with a read not on it. */
  lemma CompletionsStartOffPath(prefix: seq<int>, n: int)
    ensures forall ext :: IsCompletion(prefix, ext, n) && |ext| > 0 ==> 0 <= ext[0] < n && ext[0] !in prefix
  {
    forall ext | IsCompletion(prefix, ext, n) && |ext| > 0
      ensures 0 <= ext[0] < n && ext[0] !in prefix
    {
      CompletionStep(prefix, ext, n);
    }
  }

  /** The growing record of visited paths keeps its earlier entries. */
  predicate IsPrefixOf<T(==)>(a: seq<T>, b: seq<T>)
  {
    |a| <= |b| && b[..|a|] == a
  }

  lemma PrefixTransitive<T>(a: seq<T>, b: seq<T>, c: seq<T>)
    requires IsPrefixOf(a, b) && IsPrefixOf(b, c)
    ensures IsPrefixOf(a, c)
  {
    assert c[..|a|] == c[..|b|][..|a|];
  }

  /** The same at a fixed depth instead of the full length. */
  lemma ReachesDepthStep(prefix: seq<int>, ext: seq<int>, n: int, depth: int)
    requires ReachesDepth(prefix, ext, n, depth) && |ext| > 0
    ensures 0 <= ext[0] < n && ext[0] !in prefix
    ensures prefix + ext == (prefix + [ext[0]]) + ext[1..]
    ensures ReachesDepth(prefix + [ext[0]], ext[1..], n, depth)
  {
    var s := prefix + ext;
    assert s[|prefix|] == ext[0];
    assert (prefix + [ext[0]]) + ext[1..] == s;
    forall k | 0 <= k < |prefix|
      ensures prefix[k] != ext[0]
    {
      assert s[k] == prefix[k];
    }
  }

  /** The position of x in s. */
  function IndexOf<T(==)>(s: seq<T>, x: T): (k: int)
    requires x in s
    ensures 0 <= k < |s| && s[k] == x
  {
    if s[0] == x then 0 else 1 + IndexOf(s[1..], x)
  }

  /** The indices 0..n-1 as a set. */
  function Range(n: nat): (r: set<int>)
    ensures |r| == n
    ensures forall j :: j in r <==> 0 <= j < n
  {
    if n == 0 then {} else Range(n - 1) + {n - 1}
  }

  /** The set of indices occurring in s. */
  function Elems(s: seq<int>): (r: set<int>)
    ensures forall x :: x in r <==> x in s
    decreases |s|
  {
    if s == [] then {} else Elems(s[..|s| - 1]) + {s[|s| - 1]}
  }

  lemma {:induction false} DistinctElems(s: seq<int>)
    requires Distinct(s)
    ensures |Elems(s)| == |s|
    decreases |s|
  {
    if s != [] {
      var t := s[..|s| - 1];
      DistinctElems(t);
      assert s[|s| - 1] !in t;
    }
  }

  lemma NonEmpty(b: set<int>)
    requires b != {}
    ensures exists x :: x in b
  {
    if forall x :: x !in b {
      assert false;
    }
  }

  lemma {:induction false} SubsetCard(a: set<int>, b: set<int>)
    requires a <= b
    ensures |a| <= |b|
    ensures |a| == |b| ==> a == b
    decreases |b|
  {
    if b != {} {
      NonEmpty(b);
      var x :| x in b;
      SubsetCard(a - {x}, b - {x});
      if x in a {
        assert |a - {x}| == |a| - 1;
        if |a| == |b| {
          assert a - {x} == b - {x};
          assert a == (a - {x}) + {x};
          assert b == (b - {x}) + {x};
        }
      } else {
        assert a - {x} == a;
        assert |b - {x}| == |b| - 1;
      }
    }
  }

  /** Pigeonhole: a partial ordering of n reads has at most n entries. */
  lemma ArrangementLength(s: seq<int>, n: nat)
    requires IsArrangement(s, n)
    ensures |s| <= n
  {
    DistinctElems(s);
    SubsetCard(Elems(s), Range(n));
  }

  /** A partial ordering of all n reads holds every read. */
  lemma PermutationCovers(s: seq<int>, n: nat)
    requires IsPermutation(s, n)
    ensures forall j :: 0 <= j < n ==> j in s
  {
    var e, r := Elems(s), Range(n);
    DistinctElems(s);
    SubsetCard(e, r);
    forall j | 0 <= j < n
      ensures j in s
    {
      assert j in r;
    }
  }

  /** A partial ordering that holds every read is complete. */
  lemma CoveringIsPermutation(s: seq<int>, n: nat)
    requires IsArrangement(s, n)
    requires forall j :: 0 <= j < n ==> j in s
    ensures IsPermutation(s, n)
  {
    var e, r := Elems(s), Range(n);
    DistinctElems(s);
    SubsetCard(e, r);
    forall j | j in r
      ensures j in e
    {
      assert j in s;
    }
    SubsetCard(r, e);
  }

  /** A partial ordering that misses some read is not complete. */
  lemma ArrangementMissingShort(s: seq<int>, n: nat, i: int)
    requires IsArrangement(s, n) && 0 <= i < n && i !in s
    ensures |s| < n
  {
    ArrangementLength(s, n);
    if |s| == n {
      PermutationCovers(s, n);
    }
  }

  /** u shares of a slots each, added up one share at a time. */
  function Shares(u: int, a: nat): nat
    decreases u
  {
    if u <= 0 then 0 else Shares(u - 1, a) + a
  }

  lemma {:induction false} SharesIsProduct(u: nat, a: nat)
    ensures Shares(u, a) == u * a
    decreases u
  {
    if u > 0 {
      SharesIsProduct(u - 1, a);
    }
  }

  lemma {:induction false} SharesMono(u: int, v: int, a: nat)
    requires u <= v
    ensures Shares(u, a) <= Shares(v, a)
    decreases v - u
  {
    if u < v {
      SharesMono(u, v - 1, a);
    }
  }

  lemma {:induction false} SharesWider(u: int, a: nat, b: nat)
    requires a <= b
    ensures Shares(u, a) <= Shares(u, b)
    decreases u
  {
    if u > 0 {
      SharesWider(u - 1, a, b);
    }
  }

  /** The number of ways to extend a path by k more of m unused reads: one
      share of the ways for k - 1 more per choice of the next read (zero when
      k < 0 or k > m). */
  function Arr(m: int, k: int): nat
    decreases k
  {
    if k < 0 then 0 else if k == 0 then 1 else Shares(m, Arr(m - 1, k - 1))
  }

  /** That is the falling factorial m (m-1) ... (m-k+1). */
  lemma ArrIsFallingFactorial(m: nat, k: nat)
    requires 1 <= k
    ensures Arr(m, k) == m * Arr(m - 1, k - 1)
  {
    SharesIsProduct(m, Arr(m - 1, k - 1));
  }

  /** The reads below i that are not on the path. */
  function UnusedBelow(order: seq<int>, i: int): (r: set<int>)
    ensures forall j :: j in r <==> 0 <= j < i && j !in order
    decreases i
  {
    if i <= 0 then {} else UnusedBelow(order, i - 1) + (if i - 1 in order then {} else {i - 1})
  }

  /** A partial ordering of length l leaves exactly n - l reads unused. */
  lemma UnusedCount(order: seq<int>, n: nat)
    requires IsArrangement(order, n)
    ensures |UnusedBelow(order, n)| == n - |order|
  {
    var e, r := Elems(order), Range(n);
    DistinctElems(order);
    assert e <= r;
    assert UnusedBelow(order, n) == r - e;
    assert r == (r - e) + e;
  }

  /** No path has more extensions than there are unused reads. */
  lemma {:induction false} ArrBeyond(m: int, k: int)
    requires 0 <= m < k
    ensures Arr(m, k) == 0
    decreases m
  {
    if m > 0 {
      ArrBeyond(m - 1, k - 1);
      SharesIsProduct(m, 0);
    }
  }
}
