# Shortest common superstring search, modelled in Dafny

The repository solves the shortest common superstring problem for a small
list of DNA reads in six C variants. Each variant puts the reads in an
order, merges neighbouring reads by their maximal suffix-prefix overlap,
and keeps the shortest string it finds.

- `overlap.dfy` (module `Overlap`) is the overlap oracle: the largest `k`
  such that the last `k` symbols of one read are the first `k` symbols of
  the other. It has both scans the variants use. The downward scan returns
  the first hit; the upward scan keeps the last hit. Both are proved equal
  to one function, `MaxOverlap`.
- `merging.dfy` (module `Merging`) merges one string onto another and folds
  that merge over an ordering (`MergeOrder`). It proves the length identity
  and that every read of the fold is a substring of the result.
- `chains.dfy` (module `Chains`) is the table-driven variant of merging. A
  path's string starts with its first read. Every further read is appended
  past the overlap between it and the previous *read*, not the whole
  string. nonrec.cpp and new_brut.cpp build strings this way.
- `orders.dfy` (module `Orders`) holds partial orderings without repeats
  (arrangements), permutations, used-flag arrays and counts of
  arrangements.
- `prune.dfy`: recursive branch and bound with a `used[]` array. The
  overlap is taken against the whole merged prefix. It keeps two effort
  counters.
- `prune_omp.dfy`: the same search in two phases. The first phase stores
  every path that reaches a cutoff depth in a fixed-size pool. The second
  phase resumes prune.cpp's search from each stored path in index order.
  The file's name notwithstanding, nothing runs in parallel.
- `early.dfy`: an explicit stack of frames, a memoised overlap table and a
  look-ahead prune. It keeps the program's two quirks:
  - the overlap is looked up in the row of the current depth, not of the
    last read;
  - the `used` marks a frame's loop sets stay set for the siblings pushed
    after it.

  The model proves the consequence. Only the frames on the path 0, 1, …,
  n-1 can reach full depth, and along that path every lookup hits the zero
  diagonal. So, from the initial `best_length`, the search returns the
  reads laid end to end in index order.
- `nonrec.dfy`: an overlap matrix with a zero diagonal, a greedy
  nearest-overlap tour as the initial bound, and a recursive search whose
  used set is a bit mask. The C `&`, `|` and `<<` are modelled on naturals.
- `heuristic.dfy`: every arrangement, produced by swapping entries of an
  array of reads in place. Each arrangement's merge length is computed by a
  left fold of `merge`. A leaf that is no shorter than the best is skipped.
- `new_brut.dfy`: every permutation, produced in lexicographic order in
  `perm[]`/`used[]`, with the chain built from the overlap matrix.

State that the C code changes in place is modelled as classes with fields
and arrays. The `used[]` flags, `perm[]`, the pool, the stack and the
overlap tables are arrays; `best_len` and the best string are fields. Each
search is specified against ghost functions of the orderings it visits:
- which orderings were offered, in which order;
- which leaves the swap recursion reaches;
- which stack frames are pushed.

The promised properties are proved about those functions. Ghost fields
record the orderings each counter counts and the ordering the best string
came from.

## Model

| member | source | states |
|---|---|---|
| Overlap.MaxOverlap | prune.cpp:21-29 | the overlap is between 0 and the shorter length, matches, and no larger length matches |
| Overlap.MaxOverlapCharacterized | prune.cpp:23-28 | k is the overlap exactly when k matches and no larger length does |
| Overlap.OverlapDownward | prune.cpp:21-29 | the downward scan with early return yields the maximal overlap (also prune_omp.cpp:32-40, new_brut.cpp:12-20) |
| Overlap.OverlapUpward | nonrec.cpp:60-69 | the upward scan keeping the last hit yields the maximal overlap (also early.cpp:16-26, heuristic.cpp:26-36) |
| Overlap.ScansAgree | early.cpp:16-26 | the downward and upward scans return the same value on every pair |
| Merging.Merge | heuristic.cpp:38-42 | the merge starts with a, ends with b, and has length len(a)+len(b)-overlap(a,b) |
| Merging.MergeAllContainsEach | heuristic.cpp:56-65 | every read of a left fold of merge is a substring of the result |
| Merging.MergeAllLength | heuristic.cpp:56-65 | the fold is no longer than the reads together and no shorter than any one read |
| Merging.MergeOrderGrows | prune.cpp:48-55 | extending a path only appends, so its merged string is a prefix of every extension's, which is what makes the prune admissible |
| Merging.MergeOrderIsSuperstring | prune.cpp:33-39 | the merge of a complete ordering contains every read |
| Chains.PairOverlap | nonrec.cpp:72-81 | a table entry is the maximal overlap off the diagonal and 0 on it |
| Chains.ChainLength | new_brut.cpp:41-50 | a chain's length is the sum of its reads' lengths minus the sum of the chained overlaps |
| Chains.ChainIsSuperstring | new_brut.cpp:39-56 | the chain of a complete ordering contains every read |
| Chains.ChainCoveredPruned | nonrec.cpp:118 | a path already at least as long as the bound has no shorter completion |
| Chains.BuildChain | new_brut.cpp:41-50 | the loop builds the chain of perm, and len is its length and the length identity |
| Orders.PermutationCovers | new_brut.cpp:59-62 | a complete ordering names every read |
| Orders.CoveringIsPermutation | nonrec.cpp:105 | an arrangement that names every read is complete |
| Prune.Search.constructor | prune.cpp:12-17 | best_len starts at INT_MAX, the result empty, both counters 0 |
| Prune.Search.RecordSolution | prune.cpp:33-39 | one more solution counted and logged; a strictly shorter merge becomes best_len and best_result with its ordering, anything else leaves all three unchanged |
| Prune.Search.CountCandidate | prune.cpp:47 | num_overlap_verifications grows by exactly one per candidate extension |
| Prune.Search.BuildSuperstring | prune.cpp:31-61 | used is restored; best_len never grows, and when it drops the new best ordering is one of the solutions logged below the path; every completion of the path merges to at least the final best_len; all counted solutions and candidates extend the path |
| Prune.Search.ExtendBy | prune.cpp:42-59 | one extension: the merge onto the whole string, descent only while strictly shorter, the mark cleared again; a new best is a solution logged below the extended path |
| Prune.Search.SearchFromEveryRead | prune.cpp:88-96 | afterwards no complete ordering merges shorter than best_len, and best_result is the merge of a complete ordering and contains every read |
| Prune.CoveredPruned | prune.cpp:54-56 | a pruned path (at least best_len long) has no completion shorter than best_len |
| Prune.CoveredBelowAll | prune.cpp:42-60 | once every read is handled, every completion of the path is covered |
| Prune.StartsCoveredAll | prune.cpp:91-96 | searches started from every read cover every complete ordering |
| PruneOmp.EntryOf | prune_omp.cpp:50-51 | a pool entry holds the merged string of its path and that path's used flags |
| PruneOmp.PoolSearch.StoreSubproblem | prune_omp.cpp:48-53 | exactly one entry appended at the next free slot, num_subproblems + 1 |
| PruneOmp.PoolSearch.GetSubproblems | prune_omp.cpp:43-76 | used is restored; best_len is only read; every extension to the cutoff is stored unless already at least best_len long; the pool grows by at most the room below the path |
| PruneOmp.PoolSearch.SplitBy | prune_omp.cpp:59-73 | one extension of the partitioner: mark, merge, descend while strictly shorter, unmark |
| PruneOmp.PoolSearch.StartPool | prune_omp.cpp:122-135 | every partial ordering of cutoff reads is stored or at least best_len long; at most Arr(n, cutoff) = n(n-1)…(n-cutoff+1) entries are stored (the product form is Orders.ArrIsFallingFactorial), so the pool never overflows |
| PruneOmp.RoomBeyond | prune_omp.cpp:48 | a cutoff outside 1..n never stores anything |
| PruneOmp.PoolSearch.LaunchSearch | prune_omp.cpp:112-119 | stored entries are resumed in index order: the solution log and the candidate log each grow in consecutive segments, segment k holding only extensions of stored path k; best_len never grows; every stored path is searched to the final bound |
| PruneOmp.Optimal | prune_omp.cpp:168-172 | both phases together cover every complete ordering |
| PruneOmp.PoolSearch.Solve | prune_omp.cpp:168-172 | with 1 <= cutoff <= n the final best_len is no longer than any complete merge and best_result contains every read; with any other cutoff nothing changes |
| Early.Search.constructor | early.cpp:9-13 | all-zero table, best_length at INT_MAX, empty best superstring |
| Early.Search.FillRow | early.cpp:33-37 | row i holds the overlap of read i with every other read; nothing else is written |
| Early.Search.ComputeOverlapCache | early.cpp:31-39 | every off-diagonal entry below read_count is the overlap; the diagonal and beyond are untouched |
| Early.Extension | early.cpp:81-86 | the new superstring extends the popped one, using the overlap from the row of the current depth |
| Early.Search.RemainingReduction | early.cpp:94-99 | the sum of read i's table row over the unused reads |
| Early.ReductionBound | early.cpp:94-99 | the look-ahead sum is between 0 and the reads' total length |
| Early.Search.Expand | early.cpp:77-114 | the frames pushed are exactly those that are unused and pass both prunes, in read order, with marks accumulating across siblings |
| Early.Search.PushChild | early.cpp:77-114 | one read: pushed when unused and both prunes pass, then left marked in the popped frame |
| Early.ChildrenFacts | early.cpp:86-113 | each pushed frame is one level deeper, its length is its string's, it is shorter than best_length, and it carries one more mark per earlier sibling |
| Early.Search.VisitLeaf | early.cpp:68-73 | a complete frame replaces the best exactly when strictly shorter |
| Early.ExpandLighter | early.cpp:64-115 | replacing a popped frame by its children strictly lowers the loop measure, so the loop terminates |
| Early.CapFits | early.cpp:51 | the stack never needs more than MAX_READS * MAX_READS frames |
| Early.CompleteIsChain | early.cpp:68 | only a frame with exactly as many marks as its depth can reach read_count |
| Early.ChainChild | early.cpp:77-113 | that frame's first child is the next such frame, appending read `depth` |
| Early.IotaChain | early.cpp:81 | along 0, 1, …, d-1 every lookup hits the zero diagonal, so the string is the plain concatenation |
| Early.Search.DfsIterative | early.cpp:42-119 | best_length never grows; when it changes it is the length of a complete ordering's string; from INT_MAX the result is the concatenation of the reads in index order |
| Early.Search.Solve | early.cpp:138-142 | the table is filled and the search returns the concatenation of the reads |
| Nonrec.Pow2 | nonrec.cpp:105 | models `1 << i` on naturals, as the shifts at lines 105, 114, 124 and 136 use it; with at most 30 reads (`MASK_READS`) no shift reaches the sign bit, so this is exact; positivity is what the mask lemmas below use |
| Nonrec.MaskTest | nonrec.cpp:114 | used_mask & (1 << i) is zero exactly when read i is not on the path |
| Nonrec.MaskSet | nonrec.cpp:124 | used_mask \| (1 << i) is the mask of the path extended by i |
| Nonrec.MaskFull | nonrec.cpp:105 | the mask equals (1 << n) - 1 exactly when the path is complete |
| Nonrec.Search.constructor | nonrec.cpp:55-57 | best_len starts at 1e9 and the result empty |
| Nonrec.Search.BuildOverlapMatrix | nonrec.cpp:72-81 | the table holds the overlap off the diagonal and 0 on it; nothing beyond the reads is written |
| Nonrec.Pick | nonrec.cpp:90-96 | the pick is an unused read with maximal overlap, the lowest on ties, and -1 only when every read is used |
| Nonrec.Search.PickNext | nonrec.cpp:90-96 | the inner loop computes that pick |
| Nonrec.GreedyTour | nonrec.cpp:84-102 | the greedy tour starts at read 0 and visits every read once |
| Nonrec.GreedyTourIsGreedy | nonrec.cpp:89-99 | every step of the tour is a greedy choice, with ties going to the lowest read |
| Nonrec.Search.GreedyStep | nonrec.cpp:97-99 | the pick is appended, marked used, and its chained length added |
| Nonrec.Search.Greedy | nonrec.cpp:84-102 | the result is the length of the greedy tour's chain |
| Nonrec.Search.Dfs | nonrec.cpp:104-127 | best_len never grows; every completion of the path is at least the final best_len; the best is recorded or untouched |
| Nonrec.Search.DfsChild | nonrec.cpp:113-126 | one read: skipped when on the path or when no shorter, else searched with mask \| (1 << i) and last = i |
| Nonrec.Search.SearchAll | nonrec.cpp:133-137 | afterwards no complete ordering's chain is shorter than best_len |
| Nonrec.Search.Solve | nonrec.cpp:129-140 | best_len is at most the greedy length and no chain is shorter; the result is recorded only when the search improves on greedy |
| Nonrec.GreedyIsShortest | nonrec.cpp:129-137 | for ["AB", "BC"] the greedy length 3 is already the optimum |
| Nonrec.EmptyResultReported | nonrec.cpp:129-140 | for ["AB", "BC"] solve reports length 3 but an empty superstring, which contains neither read |
| Nonrec.Search.SolveSeeded | nonrec.cpp:129-140 | seeded with the greedy string too, the result is always a chain of length best_len that contains every read |
| NewBrut.BuildOverlapMatrix | new_brut.cpp:22-32 | the table holds the overlap off the diagonal and 0 on it; nothing else is written |
| NewBrut.Brut.constructor | new_brut.cpp:34-37 | best_len starts at MAX_SUPERSTRING_LEN, used all zero |
| NewBrut.Brut.BuildSuperstring | new_brut.cpp:39-56 | the chain of perm is offered: best_len never grows, and an improvement stores that chain with its length |
| NewBrut.Brut.GeneratePermutations | new_brut.cpp:58-72 | used and perm[0..depth) are restored, and exactly the completions of perm[0..depth) are visited, in order |
| NewBrut.Brut.Descend | new_brut.cpp:65-69 | mark i, place it at perm[depth], search below, unmark |
| NewBrut.CompletionsFacts | new_brut.cpp:59-62 | every visited ordering is a permutation extending the prefix, and they come in strictly increasing lexicographic order |
| NewBrut.CompletionsCover | new_brut.cpp:64-71 | every permutation extending the prefix is visited |
| NewBrut.AllOrderings | new_brut.cpp:58-72 | from depth 0 the visited orderings are exactly the permutations, each once, in lexicographic order |
| NewBrut.AscendingOnce | new_brut.cpp:58-72 | a strictly increasing list holds no ordering twice |
| NewBrut.ReplayBound | new_brut.cpp:52-55 | the best is at most MAX_SUPERSTRING_LEN and at most every offered chain length |
| NewBrut.ReplayAttained | new_brut.cpp:52-55 | the best is the initial pair or an offered chain with its length |
| NewBrut.ReplayShrinks | new_brut.cpp:52-55 | offering more orderings never lengthens the best |
| NewBrut.Brut.Solve | new_brut.cpp:95-98 | every permutation visited once in lexicographic order; best_len is min(MAX_SUPERSTRING_LEN, shortest chain) and attained |
| NewBrut.BestIsFound | new_brut.cpp:36 | with 1..MAX_READS reads that fit the input buffer, the best is always the chain of a real ordering |
| Heuristic.MergeInto | heuristic.cpp:38-42 | result starts with a, ends with b, and has length len(a)+len(b)-overlap |
| Heuristic.MergeLeft | heuristic.cpp:77-83 | the buffer is the left fold of merge over arr[0..n) |
| Heuristic.CalculateSuperstringLength | heuristic.cpp:56-65 | the fold's length, at least every read's and at most their sum |
| Heuristic.CopyPermutation | heuristic.cpp:44-47 | the first n entries are copied and the rest untouched |
| Heuristic.Swap | heuristic.cpp:50-54 | exactly the two entries are exchanged |
| Heuristic.SwappedTwice | heuristic.cpp:94-96 | swapping back restores the array |
| Heuristic.SwappedPermutes | heuristic.cpp:50-54 | a swap keeps the array's contents |
| Heuristic.Search.GeneratePermutations | heuristic.cpp:67-98 | arr is restored, and min_len/shortest are the leaves of the window offered in turn |
| Heuristic.Search.Permute | heuristic.cpp:93-97 | the loop offers the leaves of every choice of arr[start] in turn |
| Heuristic.Search.Leaf | heuristic.cpp:68-91 | a leaf no shorter than min_len changes nothing; a shorter one becomes shortest with its length |
| Heuristic.LeavesRearrange | heuristic.cpp:93-97 | every leaf only rearranges arr[start..end], so it is a permutation of the entry array |
| Heuristic.LeavesCover | heuristic.cpp:93-97 | every rearrangement of arr[start..end] is reached |
| Heuristic.FoldBound | heuristic.cpp:70-88 | min_len never grows and ends no longer than any leaf's merge |
| Heuristic.FoldAttained | heuristic.cpp:85-88 | the result is the initial pair or a leaf's merge with its length |
| Heuristic.ShortestSuperstring | heuristic.cpp:100-107 | min_len is at most MAX_LEN * MAX_READS and at most every arrangement's merge; shortest is that merge and contains every read when min_len improved |
| Heuristic.OutcomeBound | heuristic.cpp:100-107 | no arrangement's merge is shorter than the outcome |
| Heuristic.OutcomeAttained | heuristic.cpp:100-107 | the outcome is the initial pair or an arrangement's merge, which contains every read |

## Left out

- Reading the reads (`fopen`, `fgets`, newline stripping, `argc`/`argv`), `printf`/`perror`/`exit` and `time.h`. The reads are a parameter; the command-line cutoff of prune_omp.cpp is an argument of the `PoolSearch` constructor.
- `read_file` of nonrec.cpp: nonrec.cpp:17-33 is not part of this model.
- C string mechanics (terminators, `strcpy`/`strcat` buffer sizes, `MAX_LEN * MAX_READS` buffers, early.cpp's `MAX_LENGTH`): strings are `seq<char>`. Overflowing a buffer is not modelled.
- `malloc`/`free` of the pool and the stack: these are fresh Dafny arrays of the same fixed capacity. The C pool comes from `malloc` and is uninitialised; the model fills it with empty entries that are never read.
- The stored string's terminator: `memcpy` at prune_omp.cpp:50 copies `curr_len` characters into the pool entry and no terminating zero, and the launch loop then takes `strlen` of that entry (prune_omp.cpp:116). The model's stored string has length `curr_len` exactly, which holds only if the uninitialised byte after it happens to be zero.
- Concurrency: prune_omp.cpp has none, and its dispatcher is modelled as the sequential loop it is.
- The lines of `main` that print results and effort counters.
- Integer widths: lengths, counters (`unsigned long long`) and sums are unbounded. early.cpp's `new_length + remaining_overlap_reduction` cannot wrap. The ensures about the concatenation assume `2 * SumLengths(rs) < INT_MAX`.
- PruneOmp.PoolSearch.StartPool: requires that the first phase can never store more than `POOL_SIZE` entries. The C code has no capacity check and would write past the pool (for example 10 reads at cutoff 5 need 30240 slots).
- Nonrec.Search.Dfs: requires at most 30 reads (`MASK_READS`). `1 << n_reads` overflows a 32-bit `int` beyond that, while `MAX_READS` is 1024.
- Nonrec.Search.Greedy: also returns the tour it picked; the C function returns only the length. It requires at least one read: with none, `reads[0]` is a null pointer and `strlen` on it is undefined.
- Early.Search.Solve and the DfsIterative look-ahead: whether the look-ahead prune or the depth-indexed lookup finds an optimum is not claimed. The behaviour is modelled as written.
- Heuristic.ShortestSuperstring: `main` hard-codes twelve reads (heuristic.cpp:8-21); the model takes any 1..12 reads.
- Heuristic.Offer: merges the first `min(n, |leaf|)` reads. Every leaf has exactly `n`, so the cut never applies.
- NewBrut.Brut.Solve: the C program with zero reads would build a chain from `reads[0]`, which is an empty string; the model handles zero reads as the empty chain.
- `used[]` arrays of `int` holding 0/1 are `bool` arrays.
- Input lines beyond `MAX_READS`: fgets would write past `reads[]`. The constructors require at most `MAX_READS` reads.

## Findings

| source | as written | input that shows it | evidently intended | confidence | as-written member | corrected member |
|---|---|---|---|---|---|---|
| nonrec.cpp:129-140 | `solve` seeds `best_len` with the greedy length but leaves `best_result` empty, so when greedy is already optimal no search improves on it and the printed superstring is empty | reads `AB`, `BC`: greedy length 3 is optimal, and the reported string is empty | seed `best_result` with the greedy tour's string as well, so the result is always a superstring of length `best_len` | not executed | Nonrec.Search.Solve, Nonrec.EmptyResultReported | Nonrec.Search.SolveSeeded |
