/** Merging reads by their maximal overlap, one read at a time. This is the
    extension step of prune.cpp and prune_omp.cpp (the overlap is taken
    against the whole merged string) and the merge of heuristic.cpp. */
module Merging {
  import opened Overlap
  import opened Orders

  /** s occurs inside t at position p. */
  predicate OccursAt(s: seq<char>, t: seq<char>, p: int)
  {
    0 <= p <= |t| - |s| && t[p..p + |s|] == s
  }

  /** s occurs somewhere inside t. */
  ghost predicate IsSubstring(s: seq<char>, t: seq<char>)
  {
    exists p :: OccursAt(s, t, p)
  }

  /** a followed by b without the symbols of b that a already ends with. */
  function Merge(a: seq<char>, b: seq<char>): (r: seq<char>)
    ensures |r| == |a| + |b| - MaxOverlap(a, b)
    ensures |a| <= |r| && r[..|a|] == a
    ensures |b| <= |r| && r[|r| - |b|..] == b
  {
    var k := MaxOverlap(a, b);
    var r := a + b[k..];
    assert r[|r| - |b|..] == a[|a| - k..] + b[k..];
    assert b == b[..k] + b[k..];
    r
  }

  /** The left fold of Merge over rs, starting from the empty string. */
  function MergeAll(rs: seq<seq<char>>): seq<char>
    decreases |rs|
  {
    if rs == [] then [] else Merge(MergeAll(rs[..|rs| - 1]), rs[|rs| - 1])
  }

  lemma MergeAllSnoc(rs: seq<seq<char>>, r: seq<char>)
    ensures MergeAll(rs + [r]) == Merge(MergeAll(rs), r)
  {
    assert (rs + [r])[..|rs|] == rs;
  }

  lemma SubstringOfPrefix(s: seq<char>, t: seq<char>, u: seq<char>)
    requires IsSubstring(s, t) && |t| <= |u| && u[..|t|] == t
    ensures IsSubstring(s, u)
  {
    var p :| OccursAt(s, t, p);
    assert u[p..p + |s|] == t[p..p + |s|];
    assert OccursAt(s, u, p);
  }

  lemma SuffixIsSubstring(s: seq<char>, u: seq<char>)
    requires |s| <= |u| && u[|u| - |s|..] == s
    ensures IsSubstring(s, u)
  {
    var p := |u| - |s|;
    assert OccursAt(s, u, p);
  }

  /** Appending a non-empty sequence is appending all but its last element,
      then that element. */
  lemma AppendSplit<T>(a: seq<T>, b: seq<T>)
    requires b != []
    ensures a + b == (a + b[..|b| - 1]) + [b[|b| - 1]]
  {
    assert b == b[..|b| - 1] + [b[|b| - 1]];
  }

  lemma PrefixOfPrefix(m: seq<char>, a: seq<char>, b: seq<char>)
    requires |m| <= |a| <= |b| && b[..|a|] == a && a[..|m|] == m
    ensures b[..|m|] == m
  {
    assert b[..|m|] == b[..|a|][..|m|];
  }

  /** The fold is a superstring: every read occurs in it. */
  lemma {:induction false} MergeAllContainsEach(rs: seq<seq<char>>, k: nat)
    requires k < |rs|
    ensures IsSubstring(rs[k], MergeAll(rs))
    decreases |rs|
  {
    var init := rs[..|rs| - 1];
    var m := MergeAll(rs);
    assert m == Merge(MergeAll(init), rs[|rs| - 1]);
    if k == |rs| - 1 {
      SuffixIsSubstring(rs[k], m);
    } else {
      MergeAllContainsEach(init, k);
      assert init[k] == rs[k];
      SubstringOfPrefix(rs[k], MergeAll(init), m);
    }
  }

  /** Merging further reads only appends: the fold of a prefix of the reads
      is a prefix of the fold of all of them. */
  lemma {:induction false} MergeAllExtends(rs: seq<seq<char>>, more: seq<seq<char>>)
    ensures |MergeAll(rs)| <= |MergeAll(rs + more)|
    ensures MergeAll(rs + more)[..|MergeAll(rs)|] == MergeAll(rs)
    decreases |more|
  {
    if more != [] {
      var init, last := more[..|more| - 1], more[|more| - 1];
      AppendSplit(rs, more);
      MergeAllExtends(rs, init);
      MergeAllSnoc(rs + init, last);
      PrefixOfPrefix(MergeAll(rs), MergeAll(rs + init), MergeAll(rs + more));
    } else {
      assert rs + more == rs;
    }
  }

  /** A merged string is never longer than all the reads laid end to end. */
  function SumLengths(rs: seq<seq<char>>): nat
    decreases |rs|
  {
    if rs == [] then 0 else SumLengths(rs[..|rs| - 1]) + |rs[|rs| - 1]|
  }

  lemma {:induction false} MergeAllLength(rs: seq<seq<char>>)
    ensures |MergeAll(rs)| <= SumLengths(rs)
    ensures forall k :: 0 <= k < |rs| ==> |rs[k]| <= |MergeAll(rs)|
    decreases |rs|
  {
    if rs != [] {
      var init := rs[..|rs| - 1];
      MergeAllLength(init);
      forall k | 0 <= k < |rs|
        ensures |rs[k]| <= |MergeAll(rs)|
      {
        MergeAllContainsEach(rs, k);
      }
    }
  }

  /** The reads in the order the path visits them. */
  function Select(rs: seq<seq<char>>, order: seq<int>): (sel: seq<seq<char>>)
    requires forall k :: 0 <= k < |order| ==> 0 <= order[k] < |rs|
    ensures |sel| == |order|
    ensures forall k :: 0 <= k < |order| ==> sel[k] == rs[order[k]]
  {
    seq(|order|, k requires 0 <= k < |order| => rs[order[k]])
  }

  /** The string a path builds when each read is merged by its overlap with
      everything merged before it. */
  function MergeOrder(rs: seq<seq<char>>, order: seq<int>): seq<char>
    requires forall k :: 0 <= k < |order| ==> 0 <= order[k] < |rs|
  {
    MergeAll(Select(rs, order))
  }

  /** Extending a path by read i merges rs[i] onto the path's string. */
  lemma MergeOrderExtend(rs: seq<seq<char>>, order: seq<int>, i: int)
    requires forall k :: 0 <= k < |order| ==> 0 <= order[k] < |rs|
    requires 0 <= i < |rs|
    ensures MergeOrder(rs, order + [i]) == Merge(MergeOrder(rs, order), rs[i])
  {
    assert Select(rs, order + [i]) == Select(rs, order) + [rs[i]];
    MergeAllSnoc(Select(rs, order), rs[i]);
  }

  /** A path of one read is that read. */
  lemma MergeOrderSingle(rs: seq<seq<char>>, i: int)
    requires 0 <= i < |rs|
    ensures MergeOrder(rs, [i]) == rs[i]
  {
    assert [] + [i] == [i];
    MergeOrderExtend(rs, [], i);
    assert Merge([], rs[i]) == rs[i];
  }

  /** The string of a path is a prefix of the string of every extension, so
      a path can only grow: the pruning rule never discards a better answer. */
  lemma MergeOrderGrows(rs: seq<seq<char>>, order: seq<int>, ext: seq<int>)
    requires forall k :: 0 <= k < |order + ext| ==> 0 <= (order + ext)[k] < |rs|
    ensures forall k :: 0 <= k < |order| ==> 0 <= order[k] < |rs|
    ensures |MergeOrder(rs, order)| <= |MergeOrder(rs, order + ext)|
    ensures MergeOrder(rs, order + ext)[..|MergeOrder(rs, order)|] == MergeOrder(rs, order)
  {
    assert forall k :: 0 <= k < |order| ==> (order + ext)[k] == order[k];
    var all := order + ext;
    assert Select(rs, all) == Select(rs, order) + Select(rs, all)[|order|..];
    MergeAllExtends(Select(rs, order), Select(rs, all)[|order|..]);
  }

  /** The string of a complete ordering contains every read. */
  lemma MergeOrderIsSuperstring(rs: seq<seq<char>>, order: seq<int>, j: int)
    requires IsPermutation(order, |rs|) && 0 <= j < |rs|
    ensures IsSubstring(rs[j], MergeOrder(rs, order))
  {
    PermutationCovers(order, |rs|);
    var k := IndexOf(order, j);
    MergeAllContainsEach(Select(rs, order), k);
  }
}
