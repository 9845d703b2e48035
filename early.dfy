/** early.cpp: the search with an explicit stack of frames, a table of
    memoised overlaps and a look-ahead prune. The model keeps both quirks of
    the program: the overlap of the appended read is looked up in the row of
    the current depth (not of the last read), and the used flags a frame's
    loop sets stay set for the siblings pushed after it. */
module Early {
  import opened Overlap
  import opened Orders
  import opened Merging
  import opened Chains
  import Prune

  const MAX_READS: int := 100
  /** The capacity of the stack: MAX_READS * MAX_READS frames. */
  const STACK_CAPACITY: int := 10000

  /** One entry of the explicit stack. */
  datatype Frame = Frame(superstring: seq<char>, used: seq<bool>, depth: int, currentLength: int)

  /** The string the search builds along a path: the read at step k is
      appended without as many leading symbols as the table holds in row k. */
  function DepthChain(rs: seq<seq<char>>, path: seq<int>): seq<char>
    requires |path| <= |rs| && forall k :: 0 <= k < |path| ==> 0 <= path[k] < |rs|
    decreases |path|
  {
    if path == [] then []
    else
      var p, i := path[..|path| - 1], path[|path| - 1];
      DepthChain(rs, p) + rs[i][PairOverlap(rs, |p|, i)..]
  }

  /** The reads 0, 1, ..., d-1 in index order. */
  function Iota(d: nat): (s: seq<int>)
    ensures |s| == d && forall k :: 0 <= k < d ==> s[k] == k
  {
    seq(d, k => k)
  }

  /** The reads laid end to end. */
  function Concatenation(rs: seq<seq<char>>): seq<char>
    decreases |rs|
  {
    if rs == [] then [] else Concatenation(rs[..|rs| - 1]) + rs[|rs| - 1]
  }

  lemma {:induction false} ConcatenationLength(rs: seq<seq<char>>)
    ensures |Concatenation(rs)| == SumLengths(rs)
    decreases |rs|
  {
    if rs != [] {
      ConcatenationLength(rs[..|rs| - 1]);
    }
  }

  lemma {:induction false} SumLengthsPrefix(rs: seq<seq<char>>, d: nat)
    requires d <= |rs|
    ensures SumLengths(rs[..d]) <= SumLengths(rs)
    decreases |rs|
  {
    if d < |rs| {
      SumLengthsPrefix(rs[..|rs| - 1], d);
      assert rs[..|rs| - 1][..d] == rs[..d];
    } else {
      assert rs[..d] == rs;
    }
  }

  /** Along the path 0, 1, ..., d-1 every lookup hits the zero diagonal, so
      the chain is the plain concatenation of the first d reads. */
  lemma {:induction false} IotaChain(rs: seq<seq<char>>, d: nat)
    requires d <= |rs|
    ensures DepthChain(rs, Iota(d)) == Concatenation(rs[..d])
    decreases d
  {
    if d > 0 {
      IotaChain(rs, d - 1);
      assert Iota(d)[..d - 1] == Iota(d - 1);
      assert rs[..d][..d - 1] == rs[..d - 1];
      assert rs[d - 1][PairOverlap(rs, d - 1, d - 1)..] == rs[d - 1];
    }
  }

  /** remaining_overlap_reduction over the first m indices: the table row of
      read i summed over the reads not marked in used. */
  function Reduction(rs: seq<seq<char>>, used: seq<bool>, i: int, m: int): int
    requires 0 <= i < |rs| && |used| == |rs| && 0 <= m <= |rs|
    decreases m
  {
    if m == 0 then 0
    else Reduction(rs, used, i, m - 1) + (if !used[m - 1] then PairOverlap(rs, i, m - 1) else 0)
  }

  /** The reduction is never negative and never more than the reads' total length. */
  lemma {:induction false} ReductionBound(rs: seq<seq<char>>, used: seq<bool>, i: int, m: int)
    requires 0 <= i < |rs| && |used| == |rs| && 0 <= m <= |rs|
    ensures 0 <= Reduction(rs, used, i, m) <= SumLengths(rs[..m])
    decreases m
  {
    if m > 0 {
      ReductionBound(rs, used, i, m - 1);
      assert rs[..m][..m - 1] == rs[..m - 1];
    }
  }

  /** new_superstring: the frame's string followed by read i without the
      symbols the table row of the frame's depth says overlap. */
  function Extension(rs: seq<seq<char>>, f: Frame, i: int): (s: seq<char>)
    requires 0 <= f.depth < |rs| && 0 <= i < |rs|
    ensures |s| == |f.superstring| + |rs[i]| - PairOverlap(rs, f.depth, i)
    ensures s[..|f.superstring|] == f.superstring
  {
    f.superstring + rs[i][PairOverlap(rs, f.depth, i)..]
  }

  /** Read i is pushed: it is unused and both prunes let it through. */
  predicate Pushes(rs: seq<seq<char>>, f: Frame, best: int, i: int)
    requires 0 <= f.depth < |rs| && |f.used| == |rs| && 0 <= i < |rs|
  {
    !f.used[i]
    && |Extension(rs, f, i)| < best
    && |Extension(rs, f, i)| + Reduction(rs, f.used, i, |rs|) < best
  }

  /** new_frame for read i; its flags are those of the popped frame after
      read i is marked. */
  function Child(rs: seq<seq<char>>, f: Frame, i: int): Frame
    requires 0 <= f.depth < |rs| && |f.used| == |rs| && 0 <= i < |rs|
  {
    Frame(Extension(rs, f, i), f.used[i := true], f.depth + 1, |Extension(rs, f, i)|)
  }

  /** The frames the loop over reads i, i+1, ..., n-1 pushes, in push order;
      every push leaves its mark in the flags the later reads are tested with. */
  function ChildrenFrom(rs: seq<seq<char>>, f: Frame, best: int, i: int): seq<Frame>
    requires 0 <= f.depth < |rs| && |f.used| == |rs| && 0 <= i <= |rs|
    decreases |rs| - i
  {
    if i == |rs| then []
    else if Pushes(rs, f, best, i) then [Child(rs, f, i)] + ChildrenFrom(rs, f.(used := f.used[i := true]), best, i + 1)
    else ChildrenFrom(rs, f, best, i + 1)
  }

  /** The read each of those frames appended. */
  ghost function ChildReads(rs: seq<seq<char>>, f: Frame, best: int, i: int): seq<int>
    requires 0 <= f.depth < |rs| && |f.used| == |rs| && 0 <= i <= |rs|
    decreases |rs| - i
  {
    if i == |rs| then []
    else if Pushes(rs, f, best, i) then [i] + ChildReads(rs, f.(used := f.used[i := true]), best, i + 1)
    else ChildReads(rs, f, best, i + 1)
  }

  /** What the k-th frame pushed for a popped frame f is: one level deeper,
      carrying the string of its unused read r and its own length, shorter
      than the best length, with r and every flag of f set, and k more flags
      than the frame before it had (the marks accumulate across siblings). */
  ghost predicate ChildOk(rs: seq<seq<char>>, f: Frame, best: int, c: Frame, r: int, k: int)
    requires 0 <= f.depth < |rs| && |f.used| == |rs|
  {
    0 <= k && 0 <= r < |rs| && !f.used[r]
    && |Extension(rs, f, r)| < best
    && c.depth == f.depth + 1
    && c.superstring == Extension(rs, f, r)
    && c.currentLength == |c.superstring|
    && |c.used| == |rs| && c.used[r]
    && (forall j :: 0 <= j < |rs| && f.used[j] ==> c.used[j])
    && Trues(c.used) == Trues(f.used) + k + 1
  }

  /** A child of the frame with read i marked is a child of the frame
      itself, one place later. */
  lemma ChildOkLift(rs: seq<seq<char>>, f: Frame, best: int, i: int, c: Frame, r: int, k: int)
    requires 0 <= f.depth < |rs| && |f.used| == |rs| && 0 <= i < |rs| && !f.used[i]
    requires Trues(f.used[i := true]) == Trues(f.used) + 1
    requires ChildOk(rs, f.(used := f.used[i := true]), best, c, r, k)
    ensures ChildOk(rs, f, best, c, r, k + 1)
  {
  }

  /** Putting the frame for read i in front of the children of the frame
      with read i marked gives children of the frame itself. */
  lemma ChildOkCons(rs: seq<seq<char>>, f: Frame, g: Frame, best: int, i: int, chg: seq<Frame>, rdg: seq<int>)
    requires 0 <= f.depth < |rs| && |f.used| == |rs| && 0 <= i < |rs| && Pushes(rs, f, best, i)
    requires g == f.(used := f.used[i := true])
    requires Trues(g.used) == Trues(f.used) + 1 && |chg| == |rdg|
    requires forall k :: 0 <= k < |chg| ==> ChildOk(rs, g, best, chg[k], rdg[k], k)
    ensures forall k :: 0 <= k < |chg| + 1 ==>
              ChildOk(rs, f, best, ([Child(rs, f, i)] + chg)[k], ([i] + rdg)[k], k)
  {
    var ch, rd := [Child(rs, f, i)] + chg, [i] + rdg;
    forall k | 0 <= k < |ch|
      ensures ChildOk(rs, f, best, ch[k], rd[k], k)
    {
      if k > 0 {
        assert ch[k] == chg[k - 1] && rd[k] == rdg[k - 1];
        ChildOkLift(rs, f, best, i, ch[k], rd[k], k - 1);
      }
    }
  }

  /** The pushed frames: as many as their reads, no more than the reads f
      leaves unused, and each as ChildOk says. */
  ghost predicate ChildrenAgree(rs: seq<seq<char>>, f: Frame, best: int, i: int)
    requires 0 <= f.depth < |rs| && |f.used| == |rs| && 0 <= i <= |rs|
  {
    var ch, rd := ChildrenFrom(rs, f, best, i), ChildReads(rs, f, best, i);
    |ch| == |rd| && |ch| + Trues(f.used) <= |rs|
    && forall k :: 0 <= k < |ch| ==> ChildOk(rs, f, best, ch[k], rd[k], k)
  }

  lemma {:induction false} ChildrenFacts(rs: seq<seq<char>>, f: Frame, best: int, i: int)
    requires 0 <= f.depth < |rs| && |f.used| == |rs| && 0 <= i <= |rs|
    ensures ChildrenAgree(rs, f, best, i)
    decreases |rs| - i
  {
    if i == |rs| {
      TruesBound(f.used);
    } else if Pushes(rs, f, best, i) {
      var g := f.(used := f.used[i := true]);
      ChildrenFacts(rs, g, best, i + 1);
      ChildrenAgreePush(rs, f, g, best, i);
    } else {
      ChildrenFacts(rs, f, best, i + 1);
    }
  }

  /** The step of that induction where read i is pushed. */
  lemma ChildrenAgreePush(rs: seq<seq<char>>, f: Frame, g: Frame, best: int, i: int)
    requires 0 <= f.depth < |rs| && |f.used| == |rs| && 0 <= i < |rs| && Pushes(rs, f, best, i)
    requires g == f.(used := f.used[i := true]) && ChildrenAgree(rs, g, best, i + 1)
    ensures ChildrenAgree(rs, f, best, i)
  {
    TruesSet(f.used, i);
    var chg, rdg := ChildrenFrom(rs, g, best, i + 1), ChildReads(rs, g, best, i + 1);
    ChildOkCons(rs, f, g, best, i, chg, rdg);
    assert ChildrenFrom(rs, f, best, i) == [Child(rs, f, i)] + chg;
    assert ChildReads(rs, f, best, i) == [i] + rdg;
  }

  /** Flags of the path 0, ..., d-1: exactly the reads below d. */
  lemma FlagsIota(d: nat, n: nat)
    ensures forall j :: 0 <= j < n ==> (Flags(Iota(d), n)[j] <==> j < d)
  {
    forall j | 0 <= j < n
      ensures Flags(Iota(d), n)[j] <==> j < d
    {
      if j < d {
        assert Iota(d)[j] == j;
      }
    }
  }

  lemma {:induction false} TruesNone(n: nat)
    ensures Trues(seq(n, _ => false)) == 0
    decreases n
  {
    if n > 0 {
      assert seq(n, _ => false)[..n - 1] == seq(n - 1, _ => false);
      TruesNone(n - 1);
    }
  }

  /** A partial ordering of l reads sets l flags. */
  lemma {:induction false} TruesFlags(order: seq<int>, n: nat)
    requires IsArrangement(order, n)
    ensures Trues(Flags(order, n)) == |order|
    decreases |order|
  {
    if order == [] {
      assert Flags(order, n) == seq(n, _ => false);
      TruesNone(n);
    } else {
      var p, i := order[..|order| - 1], order[|order| - 1];
      assert order == p + [i];
      ArrangementPrefix(order, |order| - 1, n);
      TruesFlags(p, n);
      FlagsExtend(p, i, n);
      TruesSet(Flags(p, n), i);
    }
  }

  /** A frame whose flags are exactly the reads below its depth pushes read
      `depth` first when both prunes let it through. */
  lemma {:induction false} ChainFirst(rs: seq<seq<char>>, f: Frame, best: int, i: int)
    requires 0 <= f.depth < |rs| && |f.used| == |rs| && 0 <= i <= f.depth
    requires f.used == Flags(Iota(f.depth), |rs|)
    requires |Extension(rs, f, f.depth)| + Reduction(rs, f.used, f.depth, |rs|) < best
    requires 0 <= Reduction(rs, f.used, f.depth, |rs|)
    ensures ChildrenFrom(rs, f, best, i) != [] && ChildReads(rs, f, best, i) != []
    ensures ChildReads(rs, f, best, i)[0] == f.depth
    ensures ChildrenFrom(rs, f, best, i)[0].used == Flags(Iota(f.depth + 1), |rs|)
    decreases f.depth - i
  {
    FlagsIota(f.depth, |rs|);
    if i < f.depth {
      assert f.used[i];
      ChainFirst(rs, f, best, i + 1);
    } else {
      FlagsIota(f.depth + 1, |rs|);
      assert Pushes(rs, f, best, i);
      assert f.used[i := true] == Flags(Iota(i + 1), |rs|);
    }
  }

  lemma ConcatShift<T>(a: seq<T>, x: T, b: seq<T>)
    ensures (a + [x]) + b == a + ([x] + b)
  {
  }

  /** The frames on the stack after the first position k frames can sit at
      depth d: one initial frame, then at most n-e+1 frames of each depth e. */
  function Cap(n: int, d: int): int
    decreases d
  {
    if d <= 0 then 1 else Cap(n, d - 1) + n - d + 1
  }

  /** Each depth after the first adds at most n-1 positions. */
  lemma {:induction false} CapBelow(n: int, d: int)
    requires 1 <= d <= n
    ensures Cap(n, d) <= n + 1 + Shares(d - 1, n - 1)
    decreases d
  {
    if d > 1 {
      CapBelow(n, d - 1);
    }
  }

  /** With at most MAX_READS reads every position the bound allows fits the stack. */
  lemma CapFits(n: int, d: int)
    requires 0 <= d <= n <= MAX_READS
    ensures Cap(n, d) <= STACK_CAPACITY
  {
    if d > 0 {
      CapBelow(n, d);
      SharesMono(d - 1, MAX_READS - 1, n - 1);
      SharesWider(MAX_READS - 1, n - 1, MAX_READS - 1);
      SharesIsProduct(MAX_READS - 1, MAX_READS - 1);
    }
  }

  /** The number of frames a frame of depth d can still lead to, itself included. */
  function NodeWeight(n: int, d: int): nat
    decreases n - d
  {
    if d >= n then 1 else 1 + Shares(n - d, NodeWeight(n, d + 1))
  }

  /** The termination measure of the main loop. */
  function Weight(n: int, st: seq<Frame>): nat
    decreases |st|
  {
    if st == [] then 0 else NodeWeight(n, st[0].depth) + Weight(n, st[1..])
  }

  lemma {:induction false} WeightAppend(n: int, a: seq<Frame>, b: seq<Frame>)
    ensures Weight(n, a + b) == Weight(n, a) + Weight(n, b)
    decreases |a|
  {
    if a != [] {
      assert (a + b)[1..] == a[1..] + b;
      WeightAppend(n, a[1..], b);
    } else {
      assert a + b == b;
    }
  }

  lemma {:induction false} WeightUniform(n: int, ch: seq<Frame>, d: int)
    requires forall k :: 0 <= k < |ch| ==> ch[k].depth == d
    ensures Weight(n, ch) == Shares(|ch|, NodeWeight(n, d))
    decreases |ch|
  {
    if ch != [] {
      WeightUniform(n, ch[1..], d);
    }
  }

  /** Replacing a popped frame by its children makes the stack lighter. */
  lemma ExpandLighter(n: int, rest: seq<Frame>, f: Frame, ch: seq<Frame>)
    requires 0 <= f.depth < n && |ch| <= n - f.depth
    requires forall k :: 0 <= k < |ch| ==> ch[k].depth == f.depth + 1
    ensures Weight(n, rest + ch) < Weight(n, rest + [f])
  {
    WeightAppend(n, rest, ch);
    WeightAppend(n, rest, [f]);
    WeightUniform(n, ch, f.depth + 1);
    SharesMono(|ch|, n - f.depth, NodeWeight(n, f.depth + 1));
    assert [f][1..] == [];
    assert Weight(n, [f]) == NodeWeight(n, f.depth) == 1 + Shares(n - f.depth, NodeWeight(n, f.depth + 1));
  }

  /** What every frame on the stack is: the string of a partial ordering as
      long as the frame is deep, the reads of the ordering all marked, and at
      least as many flags set as the depth. */
  ghost predicate FrameOk(rs: seq<seq<char>>, f: Frame, path: seq<int>)
  {
    |f.used| == |rs| && 0 <= f.depth <= |rs| && |path| == f.depth
    && IsArrangement(path, |rs|)
    && (forall k :: 0 <= k < |path| ==> f.used[path[k]])
    && f.superstring == DepthChain(rs, path)
    && f.currentLength == |f.superstring|
    && f.depth <= Trues(f.used)
  }

  ghost predicate StackOk(rs: seq<seq<char>>, st: seq<Frame>, paths: seq<seq<int>>)
  {
    |st| == |paths|
    && forall k :: 0 <= k < |st| ==> FrameOk(rs, st[k], paths[k]) && k < Cap(|rs|, st[k].depth)
  }

  /** The paths of the frames pushed for reads rd below path. */
  ghost function Extend(path: seq<int>, rd: seq<int>): (ps: seq<seq<int>>)
    ensures |ps| == |rd| && forall k :: 0 <= k < |rd| ==> ps[k] == path + [rd[k]]
  {
    seq(|rd|, k requires 0 <= k < |rd| => path + [rd[k]])
  }

  /** A pushed frame is well formed below the path of its parent. */
  lemma ChildFrameOk(rs: seq<seq<char>>, f: Frame, path: seq<int>, best: int, c: Frame, r: int, k: int)
    requires FrameOk(rs, f, path) && f.depth < |rs|
    requires ChildOk(rs, f, best, c, r, k)
    ensures FrameOk(rs, c, path + [r])
  {
    var n := |rs|;
    forall q | 0 <= q < |path|
      ensures path[q] != r
    {
      assert f.used[path[q]];
    }
    ArrangementExtend(path, r, n);
    assert (path + [r])[..|path|] == path;
    forall q | 0 <= q < |path + [r]|
      ensures c.used[(path + [r])[q]]
    {
      if q < |path| {
        assert f.used[path[q]];
      }
    }
  }

  /** Only the first frame pushed for a chain frame can be a chain frame again. */
  lemma ChildNotChain(rs: seq<seq<char>>, f: Frame, best: int, c: Frame, r: int, k: int)
    requires 0 <= f.depth < |rs| && |f.used| == |rs| && f.depth <= Trues(f.used)
    requires ChildOk(rs, f, best, c, r, k)
    requires 1 <= k || !IsChain(f)
    ensures !IsChain(c)
  {
  }

  /** Popping the top frame leaves a well-formed stack below it. */
  lemma StackPop(rs: seq<seq<char>>, rest: seq<Frame>, restPaths: seq<seq<int>>, f: Frame, path: seq<int>)
    requires StackOk(rs, rest + [f], restPaths + [path])
    ensures StackOk(rs, rest, restPaths) && FrameOk(rs, f, path) && |rest| < Cap(|rs|, f.depth)
  {
    var st, ps, t := rest + [f], restPaths + [path], |rest|;
    assert st[t] == f && ps[t] == path;
    forall k | 0 <= k < t
      ensures FrameOk(rs, rest[k], restPaths[k]) && k < Cap(|rs|, rest[k].depth)
    {
      assert st[k] == rest[k] && ps[k] == restPaths[k];
    }
  }

  /** Frames that are well formed where they land keep the stack well formed. */
  lemma StackPush(rs: seq<seq<char>>, rest: seq<Frame>, restPaths: seq<seq<int>>, ch: seq<Frame>, chPaths: seq<seq<int>>)
    requires StackOk(rs, rest, restPaths) && |ch| == |chPaths|
    requires forall k :: 0 <= k < |ch| ==> FrameOk(rs, ch[k], chPaths[k]) && |rest| + k < Cap(|rs|, ch[k].depth)
    ensures StackOk(rs, rest + ch, restPaths + chPaths)
  {
    var st, ps, t := rest + ch, restPaths + chPaths, |rest|;
    forall k | 0 <= k < |st|
      ensures FrameOk(rs, st[k], ps[k]) && k < Cap(|rs|, st[k].depth)
    {
      if k < t {
        assert st[k] == rest[k] && ps[k] == restPaths[k];
      } else {
        assert st[k] == ch[k - t] && ps[k] == chPaths[k - t];
      }
    }
  }

  /** The frames pushed for a frame at position t are well formed and each
      fits within the bound of its depth. */
  lemma ChildrenOk(rs: seq<seq<char>>, f: Frame, path: seq<int>, best: int, t: int)
    requires FrameOk(rs, f, path) && f.depth < |rs| && t < Cap(|rs|, f.depth)
    ensures var ch, ps := ChildrenFrom(rs, f, best, 0), Extend(path, ChildReads(rs, f, best, 0));
      |ch| == |ps| && |ch| <= |rs| - f.depth
      && forall k :: 0 <= k < |ch| ==> FrameOk(rs, ch[k], ps[k]) && t + k < Cap(|rs|, ch[k].depth)
  {
    var ch, rd := ChildrenFrom(rs, f, best, 0), ChildReads(rs, f, best, 0);
    ChildrenFacts(rs, f, best, 0);
    forall k | 0 <= k < |ch|
      ensures FrameOk(rs, ch[k], path + [rd[k]]) && t + k < Cap(|rs|, ch[k].depth)
    {
      ChildFrameOk(rs, f, path, best, ch[k], rd[k], k);
    }
  }

  /** The frames pushed for a popped frame are well formed, fit the stack,
      and are fewer than the reads the popped frame leaves unused. */
  lemma ExpandOk(rs: seq<seq<char>>, rest: seq<Frame>, restPaths: seq<seq<int>>, f: Frame, path: seq<int>, best: int)
    requires |rs| <= MAX_READS
    requires StackOk(rs, rest + [f], restPaths + [path]) && 0 <= f.depth < |rs| && |f.used| == |rs|
    ensures var ch := ChildrenFrom(rs, f, best, 0);
      StackOk(rs, rest + ch, restPaths + Extend(path, ChildReads(rs, f, best, 0)))
      && |rest| + |ch| <= STACK_CAPACITY
      && Weight(|rs|, rest + ch) < Weight(|rs|, rest + [f])
  {
    var ch, ps := ChildrenFrom(rs, f, best, 0), Extend(path, ChildReads(rs, f, best, 0));
    StackPop(rs, rest, restPaths, f, path);
    ChildrenOk(rs, f, path, best, |rest|);
    StackPush(rs, rest, restPaths, ch, ps);
    CapFits(|rs|, f.depth + 1);
    ExpandLighter(|rs|, rest, f, ch);
  }

  /** The frame whose flags count exactly its depth. */
  predicate IsChain(f: Frame)
  {
    Trues(f.used) == f.depth
  }

  /** c is the one such frame on the stack, sitting on the path 0, 1, ... */
  ghost predicate ChainAt(rs: seq<seq<char>>, st: seq<Frame>, paths: seq<seq<int>>, c: int)
  {
    |st| == |paths| && 0 <= c < |st| && IsChain(st[c])
    && 0 <= st[c].depth && st[c].used == Flags(Iota(st[c].depth), |rs|)
    && paths[c] == Iota(st[c].depth)
    && forall k :: 0 <= k < |st| && k != c ==> !IsChain(st[k])
  }

  ghost predicate NoChain(st: seq<Frame>)
  {
    forall k :: 0 <= k < |st| ==> !IsChain(st[k])
  }

  /** Only a frame whose flags count exactly its depth can be complete. */
  lemma CompleteIsChain(rs: seq<seq<char>>, f: Frame, path: seq<int>)
    requires FrameOk(rs, f, path) && f.depth == |rs|
    ensures IsChain(f)
  {
    TruesBound(f.used);
  }

  /** The first frame the chain frame of depth d pushes is the chain frame
      of depth d+1: both prunes let read d through while no sum reaches best. */
  lemma ChainChild(rs: seq<seq<char>>, f: Frame, best: int)
    requires 0 <= f.depth < |rs| && |f.used| == |rs|
    requires f.used == Flags(Iota(f.depth), |rs|) && f.superstring == DepthChain(rs, Iota(f.depth))
    requires 2 * SumLengths(rs) < best
    ensures ChildrenFrom(rs, f, best, 0) != [] && ChildReads(rs, f, best, 0) != []
    ensures ChildReads(rs, f, best, 0)[0] == f.depth
    ensures ChildrenFrom(rs, f, best, 0)[0].used == Flags(Iota(f.depth + 1), |rs|)
    ensures Iota(f.depth) + [f.depth] == Iota(f.depth + 1)
  {
    var n, d := |rs|, f.depth;
    IotaChain(rs, d);
    IotaChain(rs, d + 1);
    assert rs[..d + 1][..d] == rs[..d];
    assert rs[d][PairOverlap(rs, d, d)..] == rs[d];
    assert Extension(rs, f, d) == Concatenation(rs[..d + 1]);
    ConcatenationLength(rs[..d + 1]);
    SumLengthsPrefix(rs, d + 1);
    ReductionBound(rs, f.used, d, n);
    assert rs[..n] == rs;
    ChainFirst(rs, f, best, 0);
    assert Iota(d) + [d] == Iota(d + 1);
  }

  /** Apart from position c no frame is a chain frame, before and after the
      popped frame is replaced by its children, provided the popped frame is
      a chain frame only when it sat at c. */
  lemma OthersNotChain(rs: seq<seq<char>>, rest: seq<Frame>, f: Frame, best: int, c: int)
    requires 0 <= f.depth < |rs| && |f.used| == |rs| && f.depth <= Trues(f.used)
    requires forall k :: 0 <= k < |rest| && k != c ==> !IsChain(rest[k])
    requires IsChain(f) ==> c == |rest|
    ensures forall k :: 0 <= k < |rest + ChildrenFrom(rs, f, best, 0)| && k != c ==>
              !IsChain((rest + ChildrenFrom(rs, f, best, 0))[k])
  {
    var t := |rest|;
    var ch, rd := ChildrenFrom(rs, f, best, 0), ChildReads(rs, f, best, 0);
    ChildrenFacts(rs, f, best, 0);
    forall k | 0 <= k < |rest + ch| && k != c
      ensures !IsChain((rest + ch)[k])
    {
      if k < t {
        assert (rest + ch)[k] == rest[k];
      } else {
        assert (rest + ch)[k] == ch[k - t];
        ChildNotChain(rs, f, best, ch[k - t], rd[k - t], k - t);
      }
    }
  }

  /** Seen from the stack: the children of the chain frame start with the
      next chain frame, the children of any other frame are never chain frames. */
  lemma ChainStep(rs: seq<seq<char>>, rest: seq<Frame>, restPaths: seq<seq<int>>, f: Frame, path: seq<int>,
                  best: int, c: int) returns (c': int)
    requires StackOk(rs, rest + [f], restPaths + [path]) && 0 <= f.depth < |rs| && |f.used| == |rs|
    requires 2 * SumLengths(rs) < best
    requires ChainAt(rs, rest + [f], restPaths + [path], c)
    ensures ChainAt(rs, rest + ChildrenFrom(rs, f, best, 0), restPaths + Extend(path, ChildReads(rs, f, best, 0)), c')
  {
    var n, t := |rs|, |rest|;
    var st, ps := rest + [f], restPaths + [path];
    assert st[t] == f && ps[t] == path;
    assert FrameOk(rs, f, path);
    var ch, rd := ChildrenFrom(rs, f, best, 0), ChildReads(rs, f, best, 0);
    ChildrenFacts(rs, f, best, 0);
    var st', ps' := rest + ch, restPaths + Extend(path, rd);
    assert forall k :: 0 <= k < t ==> st[k] == rest[k];
    if c == t {
      ChainChild(rs, f, best);
      assert ChildOk(rs, f, best, ch[0], rd[0], 0);
      c' := t;
      assert st'[t] == ch[0] && ps'[t] == path + [rd[0]];
    } else {
      c' := c;
      assert st'[c] == st[c] && ps'[c] == ps[c];
    }
    OthersNotChain(rs, rest, f, best, c');
  }

  /** After the chain frame is gone no frame can become one. */
  lemma NoChainStep(rs: seq<seq<char>>, rest: seq<Frame>, f: Frame, best: int)
    requires NoChain(rest + [f]) && 0 <= f.depth < |rs| && |f.used| == |rs| && f.depth <= Trues(f.used)
    ensures NoChain(rest + ChildrenFrom(rs, f, best, 0))
  {
    assert (rest + [f])[|rest|] == f;
    assert forall k :: 0 <= k < |rest| ==> (rest + [f])[k] == rest[k];
    OthersNotChain(rs, rest, f, best, -1);
  }

  /** The invariant of the main loop: the frames are well formed and, when
      the search starts from INT_MAX with short reads, the chain frame is on
      the stack until the best length is set, and then the best path is 0, 1, ... */
  ghost predicate LoopInv(rs: seq<seq<char>>, st: seq<Frame>, paths: seq<seq<int>>, chained: bool, c: int,
                          best: int, bestPath: seq<int>)
  {
    StackOk(rs, st, paths)
    && (chained && best == Prune.INT_MAX ==> ChainAt(rs, st, paths, c))
    && (chained && best != Prune.INT_MAX ==> NoChain(st) && bestPath == Iota(|rs|))
  }

  /** Popping a complete frame: the rest of the stack keeps the invariant
      whether or not the frame improves the best length. */
  lemma LeafStep(rs: seq<seq<char>>, rest: seq<Frame>, restPaths: seq<seq<int>>, f: Frame, path: seq<int>,
                 chained: bool, c: int, best: int, bestPath: seq<int>)
    requires LoopInv(rs, rest + [f], restPaths + [path], chained, c, best, bestPath) && f.depth == |rs|
    requires chained ==> 2 * SumLengths(rs) < Prune.INT_MAX && best <= Prune.INT_MAX
    ensures IsPermutation(path, |rs|) && f.superstring == DepthChain(rs, path) && f.currentLength == |f.superstring|
    ensures Weight(|rs|, rest) < Weight(|rs|, rest + [f])
    ensures var better := f.currentLength < best;
      LoopInv(rs, rest, restPaths, chained, c, if better then f.currentLength else best, if better then path else bestPath)
  {
    var n, t := |rs|, |rest|;
    var st, ps := rest + [f], restPaths + [path];
    assert st[t] == f && ps[t] == path;
    assert FrameOk(rs, f, path);
    assert forall k :: 0 <= k < t ==> st[k] == rest[k] && ps[k] == restPaths[k];
    CompleteIsChain(rs, f, path);
    if chained && best == Prune.INT_MAX {
      assert c == t;
      IotaChain(rs, n);
      assert rs[..n] == rs;
      ConcatenationLength(rs);
    }
    WeightAppend(n, rest, [f]);
  }

  /** Popping a frame that is not complete and pushing its children keeps
      the invariant, fits the stack and makes the stack lighter. */
  lemma ExpandStep(rs: seq<seq<char>>, rest: seq<Frame>, restPaths: seq<seq<int>>, f: Frame, path: seq<int>,
                   chained: bool, c: int, best: int, bestPath: seq<int>) returns (c': int)
    requires |rs| <= MAX_READS
    requires LoopInv(rs, rest + [f], restPaths + [path], chained, c, best, bestPath) && f.depth != |rs|
    requires chained ==> 2 * SumLengths(rs) < Prune.INT_MAX && best <= Prune.INT_MAX
    ensures 0 <= f.depth < |rs| && |f.used| == |rs|
    ensures var ch := ChildrenFrom(rs, f, best, 0);
      LoopInv(rs, rest + ch, restPaths + Extend(path, ChildReads(rs, f, best, 0)), chained, c', best, bestPath)
      && |rest| + |ch| <= STACK_CAPACITY
      && Weight(|rs|, rest + ch) < Weight(|rs|, rest + [f])
  {
    var t := |rest|;
    assert (rest + [f])[t] == f && (restPaths + [path])[t] == path;
    assert FrameOk(rs, f, path);
    ExpandOk(rs, rest, restPaths, f, path, best);
    c' := c;
    if chained && best == Prune.INT_MAX {
      c' := ChainStep(rs, rest, restPaths, f, path, best, c);
    } else if chained {
      NoChainStep(rs, rest, f, best);
    }
  }

  /** The global state of early.cpp: the reads, the overlap table and the best
      superstring found so far. */
  class Search {
    const rs: seq<seq<char>>
    const cache: array2<int>
    var bestLength: int
    var bestSuperstring: seq<char>
    /** The ordering whose string bestSuperstring is. */
    ghost var bestPath: seq<int>

    ghost predicate Valid()
      reads this
    {
      |rs| <= MAX_READS && cache.Length0 == MAX_READS && cache.Length1 == MAX_READS
      && bestLength <= Prune.INT_MAX
      && (bestLength < Prune.INT_MAX ==>
            IsPermutation(bestPath, |rs|)
            && bestSuperstring == DepthChain(rs, bestPath)
            && |bestSuperstring| == bestLength)
    }

    /** The table as compute_overlap_cache leaves it. */
    ghost predicate CacheReady()
      reads this, cache
      requires Valid()
    {
      forall i, j :: 0 <= i < |rs| && 0 <= j < |rs| ==> cache[i, j] == PairOverlap(rs, i, j)
    }

    /** The globals before main runs: an all-zero table, best_length at
        INT_MAX and an empty best superstring. */
    constructor (input: seq<seq<char>>)
      requires |input| <= MAX_READS
      ensures Valid() && fresh(cache)
      ensures rs == input && bestLength == Prune.INT_MAX && bestSuperstring == []
      ensures forall i, j :: 0 <= i < MAX_READS && 0 <= j < MAX_READS ==> cache[i, j] == 0
    {
      rs := input;
      cache := new int[MAX_READS, MAX_READS]((_, _) => 0);
      bestLength := Prune.INT_MAX;
      bestSuperstring := [];
      bestPath := [];
    }

    /** The inner loop of compute_overlap_cache for row i. */
    method FillRow(i: int)
      requires Valid() && 0 <= i < |rs|
      modifies cache
      ensures forall b :: 0 <= b < |rs| && b != i ==> cache[i, b] == MaxOverlap(rs[i], rs[b])
      ensures forall a, b :: 0 <= a < MAX_READS && 0 <= b < MAX_READS && !(a == i && b < |rs| && b != i) ==>
                cache[a, b] == old(cache[a, b])
    {
      var j := 0;
      while j < |rs|
        invariant 0 <= j <= |rs|
        invariant forall b :: 0 <= b < j && b != i ==> cache[i, b] == MaxOverlap(rs[i], rs[b])
        invariant forall a, b :: 0 <= a < MAX_READS && 0 <= b < MAX_READS && !(a == i && b < j && b != i) ==>
                    cache[a, b] == old(cache[a, b])
      {
        if i != j {
          var ov := OverlapUpward(rs[i], rs[j]);
          cache[i, j] := ov;
        }
        j := j + 1;
      }
    }

    /** compute_overlap_cache: every entry off the diagonal below read_count
        is the overlap of its two reads; nothing else is written. */
    method ComputeOverlapCache()
      requires Valid()
      modifies cache
      ensures forall a, b :: 0 <= a < |rs| && 0 <= b < |rs| && a != b ==> cache[a, b] == MaxOverlap(rs[a], rs[b])
      ensures forall a, b :: 0 <= a < MAX_READS && 0 <= b < MAX_READS && !(a < |rs| && b < |rs| && a != b) ==>
                cache[a, b] == old(cache[a, b])
    {
      var i := 0;
      while i < |rs|
        invariant 0 <= i <= |rs|
        invariant forall a, b :: 0 <= a < i && 0 <= b < |rs| && a != b ==> cache[a, b] == MaxOverlap(rs[a], rs[b])
        invariant forall a, b :: 0 <= a < MAX_READS && 0 <= b < MAX_READS && !(a < i && b < |rs| && a != b) ==>
                    cache[a, b] == old(cache[a, b])
      {
        FillRow(i);
        i := i + 1;
      }
    }

    /** The loop of dfs_iterative that sums remaining_overlap_reduction. */
    method RemainingReduction(used: seq<bool>, i: int) returns (r: int)
      requires Valid() && CacheReady()
      requires 0 <= i < |rs| && |used| == |rs|
      ensures r == Reduction(rs, used, i, |rs|)
    {
      r := 0;
      var j := 0;
      while j < |rs|
        invariant 0 <= j <= |rs|
        invariant r == Reduction(rs, used, i, j)
      {
        if !used[j] {
          r := r + cache[i, j];
        }
        j := j + 1;
      }
    }

    /** The loop of dfs_iterative over the reads for a popped frame f: pushes
        exactly ChildrenFrom(rs, f, bestLength, 0) on top of the stack. */
    method Expand(stack: array<Frame>, size: int, f: Frame) returns (newSize: int)
      requires Valid() && CacheReady() && stack.Length == STACK_CAPACITY
      requires 0 <= f.depth < |rs| && |f.used| == |rs|
      requires 0 <= size && size + |ChildrenFrom(rs, f, bestLength, 0)| <= STACK_CAPACITY
      modifies stack
      ensures newSize == size + |ChildrenFrom(rs, f, bestLength, 0)|
      ensures stack[..newSize] == old(stack[..size]) + ChildrenFrom(rs, f, bestLength, 0)
    {
      ghost var start := stack[..size];
      var current := f;
      var i := 0;
      newSize := size;
      while i < |rs|
        invariant Pushed(stack, start, f, bestLength, current, i, newSize)
      {
        current, newSize := PushChild(stack, start, f, current, i, newSize);
        i := i + 1;
      }
      assert stack[..newSize] + [] == stack[..newSize];
    }

    /** The invariant of that loop after the reads below i: the frames pushed
        so far followed by those the remaining reads push are all of f's
        children, and the flags of current are f's with the pushed reads marked. */
    ghost predicate Pushed(stack: array<Frame>, start: seq<Frame>, f: Frame, best: int, current: Frame, i: int, newSize: int)
      reads stack
    {
      0 <= f.depth < |rs| && |f.used| == |rs| && 0 <= i <= |rs|
      && current == f.(used := current.used) && |current.used| == |rs|
      && |start| <= newSize <= stack.Length
      && |start| + |ChildrenFrom(rs, f, best, 0)| <= stack.Length
      && stack[..newSize] + ChildrenFrom(rs, current, best, i) == start + ChildrenFrom(rs, f, best, 0)
    }

    /** One pass of that loop: read i is pushed when it is unused and both
        prunes let it through, and then marked in the flags of current. */
    method PushChild(stack: array<Frame>, ghost start: seq<Frame>, f: Frame, current: Frame, i: int, size: int)
      returns (next: Frame, newSize: int)
      requires Valid() && CacheReady() && i < |rs|
      requires Pushed(stack, start, f, bestLength, current, i, size)
      modifies stack
      ensures Pushed(stack, start, f, bestLength, next, i + 1, newSize)
    {
      next, newSize := current, size;
      ghost var pending := ChildrenFrom(rs, current, bestLength, i);
      if !current.used[i] {
        var overlapSize := cache[current.depth, i];
        var newSuperstring := current.superstring + rs[i][overlapSize..];
        assert newSuperstring == Extension(rs, current, i);
        var newLength := |newSuperstring|;
        if newLength < bestLength {
          var reduction := RemainingReduction(current.used, i);
          if newLength + reduction < bestLength {
            ghost var before := stack[..size];
            next := current.(used := current.used[i := true]);
            stack[size] := Frame(newSuperstring, next.used, next.depth + 1, newLength);
            assert stack[..size + 1] == before + [Child(rs, current, i)];
            assert pending == [Child(rs, current, i)] + ChildrenFrom(rs, next, bestLength, i + 1);
            ConcatShift(before, Child(rs, current, i), ChildrenFrom(rs, next, bestLength, i + 1));
            newSize := size + 1;
          } else {
            assert pending == ChildrenFrom(rs, current, bestLength, i + 1);
          }
        } else {
          assert pending == ChildrenFrom(rs, current, bestLength, i + 1);
        }
      } else {
        assert pending == ChildrenFrom(rs, current, bestLength, i + 1);
      }
    }

    /** The complete-frame case of dfs_iterative: best_length and
        best_superstring take the frame's length and string when it is
        strictly shorter, and nothing changes otherwise. */
    method VisitLeaf(current: Frame, ghost path: seq<int>)
      requires Valid()
      requires IsPermutation(path, |rs|) && current.superstring == DepthChain(rs, path)
      requires current.currentLength == |current.superstring|
      modifies this`bestLength, this`bestSuperstring, this`bestPath
      ensures Valid()
      ensures current.currentLength < old(bestLength) ==>
                bestLength == current.currentLength && bestSuperstring == current.superstring && bestPath == path
      ensures current.currentLength >= old(bestLength) ==>
                bestLength == old(bestLength) && bestSuperstring == old(bestSuperstring) && bestPath == old(bestPath)
    {
      if current.currentLength < bestLength {
        bestLength := current.currentLength;
        bestSuperstring := current.superstring;
        bestPath := path;
      }
    }

    /** dfs_iterative. The best length never grows and changes only to the
        length of a complete ordering's string, which then is the best
        superstring. Starting from INT_MAX, with reads short enough that no
        sum reaches INT_MAX, only the frames on the path 0, 1, ..., n-1 ever
        reach the full depth, so the result is the reads laid end to end in
        index order. */
    method DfsIterative()
      requires Valid() && CacheReady()
      modifies this`bestLength, this`bestSuperstring, this`bestPath
      ensures Valid()
      ensures bestLength <= old(bestLength)
      ensures bestLength == old(bestLength) ==> bestSuperstring == old(bestSuperstring)
      ensures old(bestLength) == Prune.INT_MAX && 2 * SumLengths(rs) < Prune.INT_MAX ==>
                bestPath == Iota(|rs|) && bestSuperstring == Concatenation(rs) && bestLength == |Concatenation(rs)|
    {
      var n := |rs|;
      var stack := new Frame[STACK_CAPACITY](_ => Frame([], [], 0, 0));
      var stackSize := 0;
      var initial := Frame([], seq(n, _ => false), 0, 0);
      stack[stackSize] := initial;
      stackSize := stackSize + 1;
      ghost var paths: seq<seq<int>> := [[]];
      ghost var chainPos := 0;
      ghost var chained := old(bestLength) == Prune.INT_MAX && 2 * SumLengths(rs) < Prune.INT_MAX;
      if chained {
        TruesNone(n);
        assert initial.used == Flags(Iota(0), n);
      }
      assert stack[..stackSize] == [initial];
      while stackSize > 0
        invariant DfsInv(stack, stackSize, paths, chained, chainPos, old(bestLength), old(bestSuperstring))
        decreases Weight(n, stack[..stackSize])
      {
        stackSize, paths, chainPos := PopFrame(stack, stackSize, paths, chained, chainPos, old(bestLength), old(bestSuperstring));
      }
      if chained {
        IotaChain(rs, n);
        assert rs[..n] == rs;
      }
    }

    /** The invariant of the main loop of dfs_iterative, with the best length
        and superstring the search started from. */
    ghost predicate DfsInv(stack: array<Frame>, size: int, paths: seq<seq<int>>, chained: bool, c: int,
                           best0: int, super0: seq<char>)
      reads this, cache, stack
    {
      stack.Length == STACK_CAPACITY && 0 <= size <= STACK_CAPACITY
      && Valid() && CacheReady()
      && (chained ==> 2 * SumLengths(rs) < Prune.INT_MAX)
      && LoopInv(rs, stack[..size], paths, chained, c, bestLength, bestPath)
      && bestLength <= best0
      && (bestLength == best0 ==> bestSuperstring == super0)
    }

    /** One pass of the main loop of dfs_iterative: pop the top frame, then
        either record it as complete or push its children. */
    method PopFrame(stack: array<Frame>, size: int, ghost paths: seq<seq<int>>, ghost chained: bool, ghost c: int,
                    ghost best0: int, ghost super0: seq<char>)
      returns (newSize: int, ghost newPaths: seq<seq<int>>, ghost newC: int)
      requires DfsInv(stack, size, paths, chained, c, best0, super0) && size > 0
      modifies stack, this`bestLength, this`bestSuperstring, this`bestPath
      ensures DfsInv(stack, newSize, newPaths, chained, newC, best0, super0)
      ensures Weight(|rs|, stack[..newSize]) < old(Weight(|rs|, stack[..size]))
    {
      if stack[size - 1].depth == |rs| {
        newSize, newPaths, newC := PopLeaf(stack, size, paths, chained, c, best0, super0);
      } else {
        newSize, newPaths, newC := PopExpand(stack, size, paths, chained, c, best0, super0);
      }
    }

    /** The popped frame is complete: it is compared with the best so far. */
    method PopLeaf(stack: array<Frame>, size: int, ghost paths: seq<seq<int>>, ghost chained: bool, ghost c: int,
                   ghost best0: int, ghost super0: seq<char>)
      returns (newSize: int, ghost newPaths: seq<seq<int>>, ghost newC: int)
      requires DfsInv(stack, size, paths, chained, c, best0, super0) && size > 0
      requires stack[size - 1].depth == |rs|
      modifies this`bestLength, this`bestSuperstring, this`bestPath
      ensures DfsInv(stack, newSize, newPaths, chained, newC, best0, super0)
      ensures Weight(|rs|, stack[..newSize]) < old(Weight(|rs|, stack[..size]))
    {
      ghost var st := stack[..size];
      newSize := size - 1;
      var current := stack[newSize];
      ghost var path := paths[newSize];
      ghost var rest, restPaths := stack[..newSize], paths[..newSize];
      assert st == rest + [current] && paths == restPaths + [path];
      LeafStep(rs, rest, restPaths, current, path, chained, c, bestLength, bestPath);
      VisitLeaf(current, path);
      newPaths, newC := restPaths, c;
    }

    /** The popped frame is partial: its children are pushed above the rest. */
    method PopExpand(stack: array<Frame>, size: int, ghost paths: seq<seq<int>>, ghost chained: bool, ghost c: int,
                     ghost best0: int, ghost super0: seq<char>)
      returns (newSize: int, ghost newPaths: seq<seq<int>>, ghost newC: int)
      requires DfsInv(stack, size, paths, chained, c, best0, super0) && size > 0
      requires stack[size - 1].depth != |rs|
      modifies stack
      ensures DfsInv(stack, newSize, newPaths, chained, newC, best0, super0)
      ensures Weight(|rs|, stack[..newSize]) < old(Weight(|rs|, stack[..size]))
    {
      ghost var st := stack[..size];
      newSize := size - 1;
      var current := stack[newSize];
      ghost var path := paths[newSize];
      ghost var rest, restPaths := stack[..newSize], paths[..newSize];
      assert st == rest + [current] && paths == restPaths + [path];
      ghost var rd := ChildReads(rs, current, bestLength, 0);
      newC := ExpandStep(rs, rest, restPaths, current, path, chained, c, bestLength, bestPath);
      newSize := Expand(stack, newSize, current);
      newPaths := restPaths + Extend(path, rd);
    }

    /** main after the reads are set: fill the table, then search. */
    method Solve()
      requires Valid() && bestLength == Prune.INT_MAX
      requires forall i, j :: 0 <= i < MAX_READS && 0 <= j < MAX_READS ==> cache[i, j] == 0
      modifies cache, this`bestLength, this`bestSuperstring, this`bestPath
      ensures Valid() && CacheReady()
      ensures 2 * SumLengths(rs) < Prune.INT_MAX ==>
                bestSuperstring == Concatenation(rs) && bestLength == |Concatenation(rs)|
      ensures bestLength < Prune.INT_MAX ==>
                IsPermutation(bestPath, |rs|) && bestSuperstring == DepthChain(rs, bestPath)
    {
      ComputeOverlapCache();
      DfsIterative();
    }
  }
}
