# Tour search of IS-hw-pathfinding, in Dafny

The game places coins on a board and asks an agent for a tour. A tour starts at
the origin (id 0), collects every coin (ids 1..N) exactly once and returns to
the origin. The agent is given `coin_distance`, an (N+1) x (N+1) matrix of
non-negative travel costs. Four agents compute tours:

- **Aki**: greedy nearest-coin, ties broken by the smaller id;
- **Jocke**: tries every permutation and keeps the first cheapest one;
- **Uki**: uniform-cost branch and bound over a priority queue of partial
  paths (`PriorityEntity`);
- **Micko**: the same search, with the priority raised by a
  minimum-spanning-tree bound on what is left to visit (`PriorityEntityMicko`,
  `calcMSTcost`).

The model keeps each agent's own form:

- the loops of Aki, Jocke, `calcMSTcost`, Uki and Micko are methods with
  `while` loops;
- the priority queues are collections the methods take the least entry from;
- each loop is proved against a ghost specification function whose properties
  are proved as lemmas.

Modules:

- `Tours`: cost matrices, the coin set, the cost of a path and what a tour is.
- `Ordering`: the entry record and the three-level comparison of
  `PriorityEntity.__lt__` and `PriorityEntityMicko.__lt__`, proved to be a
  strict weak order.
- `Mst`: `calcMSTcost`. It is a lazy Prim loop over a multiset heap of
  `(cost, node)` pairs. It is proved equal to an eager Prim function `MstBound`
  and proved to terminate, and its `pq.get()` never runs on an empty queue.
- `Greedy`: Aki. Its result is a tour, each of whose steps is the least
  unvisited coin under `(distance, id)`. Two such tours are equal.
- `Exhaustive`: Jocke.
  - The permutation enumeration is proved to list exactly the rearrangements
    of `1..N`, so its candidates are exactly the tours.
  - The result is a tour of least cost.
  - It is the earliest least-cost candidate. The enumeration is proved to
    list the rearrangements in increasing lexicographic order, so this is
    the lexicographically least tour of least cost.
  - It is `[0, 0]` when there are no coins.
- `BranchAndBound`: Uki and Micko, as one `Search(m, bounded)`. Every queued
  entry is well formed:
  - its path starts at 0 and repeats no coin;
  - its unvisited set is exactly the coins it misses;
  - its cost is the path's cost;
  - its bound is `calcMSTcost` of it.

  Every tour extends some queued entry. A weight on the queue strictly
  decreases each round, so the search ends, and it ends on a tour.
  - Uki's tour costs no more than any tour.
  - Micko's tour costs no more than any tour whenever the MST bound is
    admissible, that is, never above the true completion cost. That holds
    on every symmetric matrix, which covers the game's Euclidean distances.
- `MstLowerBound`: on a symmetric matrix the MST bound is admissible.
  - Eager Prim from a tree costs at most any set of paths that start in the
    tree and visit each remaining node once.
  - The argument is an exchange. Prim's least edge leaving the tree is no
    dearer than the first edge of the path through its node. Cutting that
    path at the node, and turning the first part around, gives paths
    rooted in the grown tree that cost exactly that first edge less.
  - After any prefix, the rest of a tour is such a path from the prefix's
    last id over its unvisited coins and the origin.

## Model

| member | source | states |
|---|---|---|
| Tours.PathCost | IS-hw-pathfinding/sprites.py:233-236 | definition: the sum of `coin_distance[prev][curr]` over consecutive ids, which is how every agent costs a path (also 259 and 264) |
| Tours.TourCost | IS-hw-pathfinding/sprites.py:229-236 | definition: the cost of a tour, its path cost, the value Jocke, Uki and Micko minimise |
| Tours.Coins | IS-hw-pathfinding/sprites.py:205 | `set(range(1, N + 1))`: an id is in the set exactly when 1 <= id <= N |
| Tours.CoinSeqElems | IS-hw-pathfinding/sprites.py:226 | the range repeats no id and holds exactly the coin set |
| Tours.DistinctCoinsCard | IS-hw-pathfinding/sprites.py:207 | a path without repeats plus the coins it misses number N, so the unvisited set empties exactly when every coin is on the path |
| Tours.PathCostAppend | IS-hw-pathfinding/sprites.py:233-236 | appending one id adds exactly the cost of the new last edge |
| Tours.PathCostPrefix | IS-hw-pathfinding/sprites.py:264 | with non-negative costs, a prefix never costs more than the whole path |
| Tours.TourAt | IS-hw-pathfinding/sprites.py:263-267 | the coin a tour visits at step j is a coin that the first j ids have not visited |
| Tours.TourInRange | IS-hw-pathfinding/sprites.py:240 | a tour uses only ids 0..N, so it indexes the matrix |
| Ordering.Before | IS-hw-pathfinding/sprites.py:122-136 | definition: the if/elif chain of `__lt__` on (priority, path length, last id), branch by branch |
| Ordering.EntityLess | IS-hw-pathfinding/sprites.py:122-136 | definition: `PriorityEntity.__lt__`, the chain with the cost as priority |
| Ordering.MickoLess | IS-hw-pathfinding/sprites.py:173-187 | definition: `PriorityEntityMicko.__lt__`, the chain with `cost + MSTcost` as priority |
| Ordering.BeforeIsLexicographic | IS-hw-pathfinding/sprites.py:122-136 | the branch-by-branch comparison is exactly lexicographic less-than on (priority, -length, last id) |
| Ordering.BeforeIrreflexive | IS-hw-pathfinding/sprites.py:122-136 | no entry is less than itself |
| Ordering.BeforeAsymmetric | IS-hw-pathfinding/sprites.py:122-136 | if a is less than b, b is not less than a |
| Ordering.BeforeTransitive | IS-hw-pathfinding/sprites.py:122-136 | less-than is transitive |
| Ordering.BeforeIncomparable | IS-hw-pathfinding/sprites.py:122-136 | two keys are mutually not-less exactly when priority, length and last id all agree |
| Ordering.BeforeIncomparableTransitive | IS-hw-pathfinding/sprites.py:122-136 | incomparability is transitive, so the order is a strict weak order |
| Ordering.NotBeforeTransitive | IS-hw-pathfinding/sprites.py:122-136 | not-less is transitive: the least entry of a queue is at most every entry |
| Ordering.PlainIsMickoWithoutBound | IS-hw-pathfinding/sprites.py:173-187 | the Micko comparison is the plain one with `cost + MSTcost` as the first key: with equal bounds the two agree |
| Mst.PopMin | IS-hw-pathfinding/sprites.py:148 | `pq.get()` returns an entry no other entry precedes in `(cost, node)` order and removes one copy of it |
| Mst.HeapNonEmpty | IS-hw-pathfinding/sprites.py:147-148 | while `left` is non-empty the heap has an entry, so `pq.get()` never blocks on an empty queue |
| Mst.PopIsPrimStep | IS-hw-pathfinding/sprites.py:148-152 | a least heap entry whose node is still in `left` is exactly the least pair eager Prim adds from the tree into `left` |
| Mst.HeapAfterPop | IS-hw-pathfinding/sprites.py:149-150 | a popped entry whose node is already in the tree leaves the heap serving the tree |
| Mst.SkipKeeps | IS-hw-pathfinding/sprites.py:149-150 | the `continue` branch keeps the loop invariant |
| Mst.EdgeLe | IS-hw-pathfinding/sprites.py:146-154 | definition: Python's order on the heap's `(cost, node)` tuples, cost first, then node |
| Mst.PrimFrom | IS-hw-pathfinding/sprites.py:147-154 | definition: eager Prim, repeatedly adding the least `(cost, node)` pair from the tree into `left`; the reference `calcMSTcost` is proved equal to |
| Mst.MstBound | IS-hw-pathfinding/sprites.py:141-145 | definition: eager Prim from `path[-1]` over `unvisited + {0, path[-1]}`, the value `calcMSTcost` is specified to return |
| Mst.PushPairs | IS-hw-pathfinding/sprites.py:153-154 | the heap grows by exactly one pair `(coin_distance[v][i], i)` for every i in `left`: each entry's count rises by one for such a pair and by nothing otherwise |
| Mst.HeapAfterPush | IS-hw-pathfinding/sprites.py:152-154 | after node v joins the tree and its pairs are queued, every pair from the grown tree into `left` is in the heap, and every heap entry into `left` starts in the tree |
| Mst.AddStep | IS-hw-pathfinding/sprites.py:148-154 | one adding pop restores the heap invariant for the grown tree and charges exactly the eager Prim step |
| Mst.FirstAdd | IS-hw-pathfinding/sprites.py:144-148 | the first pop takes the seed `(0, path[-1])` and leaves the tree holding only the last id |
| Mst.AddKeeps | IS-hw-pathfinding/sprites.py:151-152 | adding the popped node and its cost keeps cost-so-far plus Prim-of-the-rest equal to the bound |
| Mst.AddNode | IS-hw-pathfinding/sprites.py:151-154 | the adding branch of one iteration re-establishes the loop invariant for the grown tree |
| Mst.PrimStep | IS-hw-pathfinding/sprites.py:147-154 | one iteration keeps the invariant and strictly decreases the pair (size of `left`, size of the heap), so the loop ends |
| Mst.CalcMstCost | IS-hw-pathfinding/sprites.py:139-156 | `calcMSTcost` returns exactly the eager Prim cost from `path[-1]` over `unvisited + {0, path[-1]}` |
| Mst.MstOfLoneNode | IS-hw-pathfinding/sprites.py:142-147 | when `unvisited + {0, last}` is just `{last}` the bound is 0, as for a path closed at the origin |
| Mst.MstOfLastLeg | IS-hw-pathfinding/sprites.py:142-156 | with nothing unvisited and last id k != 0, the bound is `coin_distance[k][0]` |
| Greedy.Nearer | IS-hw-pathfinding/sprites.py:213 | definition: the test that replaces `min`: strictly nearer, or as near with a smaller id |
| Greedy.NearerTransitive | IS-hw-pathfinding/sprites.py:213 | the preference `(distance, id)` tested at the scan is transitive |
| Greedy.NearestFrom | IS-hw-pathfinding/sprites.py:209-215 | the scan ends on an unvisited coin to which no unvisited coin is preferred, whichever coin `pop()` started it on |
| Greedy.NextCoin | IS-hw-pathfinding/sprites.py:208-217 | one round picks the least unvisited coin under `(distance from stack[-1], id)` and keeps the loop invariant with one coin fewer |
| Greedy.AkiStart | IS-hw-pathfinding/sprites.py:204-205 | `[0]` with every coin unvisited satisfies the loop invariant |
| Greedy.AkiStep | IS-hw-pathfinding/sprites.py:216-217 | appending the greedy coin and removing it from `unvisited` keeps the invariant and shrinks `unvisited` |
| Greedy.VisitOne | IS-hw-pathfinding/sprites.py:216-217 | the path stays free of repeats and `unvisited` stays exactly the coins not on the path |
| Greedy.GreedyExtend | IS-hw-pathfinding/sprites.py:216 | every earlier step stays greedy, and so does the appended one |
| Greedy.AkiDone | IS-hw-pathfinding/sprites.py:207-218 | once `unvisited` is empty the path plus the closing 0 is a tour |
| Greedy.GreedyClose | IS-hw-pathfinding/sprites.py:218 | appending the origin to the full greedy path gives a tour that is still greedy |
| Greedy.Aki | IS-hw-pathfinding/sprites.py:203-219 | returns a tour, and each step of it is the least unvisited coin under `(distance, id)` |
| Greedy.GreedyUnique | IS-hw-pathfinding/sprites.py:207-217 | the result does not depend on set iteration order: two greedy tours of the same matrix are equal |
| Exhaustive.Permutations | IS-hw-pathfinding/sprites.py:226 | definition: `itertools.permutations`, for each position in turn its element followed by every permutation of the others |
| Exhaustive.PermsFrom | IS-hw-pathfinding/sprites.py:226 | definition: the part of the enumeration whose first element is at position i or later |
| Exhaustive.MultisetWithout | IS-hw-pathfinding/sprites.py:226 | dropping position i removes one copy of its id |
| Exhaustive.PermutationsSound | IS-hw-pathfinding/sprites.py:226 | every listed permutation is a rearrangement of the input |
| Exhaustive.PermsFromSound | IS-hw-pathfinding/sprites.py:226 | every sequence listed from position i on is a rearrangement of the input |
| Exhaustive.PermsFromHas | IS-hw-pathfinding/sprites.py:226 | the enumeration from position j lists everything listed for each later first element |
| Exhaustive.PermutationsComplete | IS-hw-pathfinding/sprites.py:226 | every rearrangement of the input is listed |
| Exhaustive.PermutationsExactly | IS-hw-pathfinding/sprites.py:226 | `permutations(range(1, N + 1))` lists exactly the rearrangements of 1..N |
| Tours.DistinctMultiset | IS-hw-pathfinding/sprites.py:226 | in a sequence without repeats every id occurs once or not at all |
| Exhaustive.PermsFromHead | IS-hw-pathfinding/sprites.py:226 | every permutation listed from position i on starts with the element at some position k >= i |
| Exhaustive.PrependSorted | IS-hw-pathfinding/sprites.py:226 | putting one element in front of every permutation keeps them in lexicographic order |
| Exhaustive.SortedAppend | IS-hw-pathfinding/sprites.py:226 | two lexicographically sorted blocks, the first wholly before the second, are sorted together |
| Exhaustive.PermsFromSorted | IS-hw-pathfinding/sprites.py:226 | the permutations listed from position i on of an increasing sequence are in increasing lexicographic order |
| Exhaustive.PermutationsSorted | IS-hw-pathfinding/sprites.py:226 | `permutations` of an increasing sequence, such as `range(1, N + 1)`, lists its rearrangements in strictly increasing lexicographic order |
| Exhaustive.CloseBefore | IS-hw-pathfinding/sprites.py:240 | closing two candidates of one length at the origin keeps their lexicographic order |
| Exhaustive.TourIsRearrangement | IS-hw-pathfinding/sprites.py:240 | the inside of a tour is a rearrangement of 1..N |
| Exhaustive.RearrangementIsTour | IS-hw-pathfinding/sprites.py:240 | `[0] + perm + [0]` is a tour for every rearrangement of 1..N |
| Exhaustive.CandidateInRange | IS-hw-pathfinding/sprites.py:229-240 | every enumerated permutation indexes the matrix and closes into a tour |
| Exhaustive.CoinSeqLength | IS-hw-pathfinding/sprites.py:226 | every permutation has length N, and N = 0 gives the single empty permutation |
| Exhaustive.TourIsCandidate | IS-hw-pathfinding/sprites.py:226-240 | every tour is `[0] + perm + [0]` for an enumerated permutation |
| Exhaustive.CostOf | IS-hw-pathfinding/sprites.py:231-236 | the inner loop's cost is the cost of the closed tour `[0] + perm + [0]` |
| Exhaustive.JockeTake | IS-hw-pathfinding/sprites.py:237-239 | taking the first candidate, or one strictly cheaper than the best so far, keeps: best is least so far, and earlier ones strictly dearer |
| Exhaustive.JockeKeep | IS-hw-pathfinding/sprites.py:237 | keeping the best on a tie or a dearer candidate keeps the invariant |
| Exhaustive.LeastOverAllTours | IS-hw-pathfinding/sprites.py:229-239 | a cost at most every candidate's is at most every tour's |
| Exhaustive.JockeDone | IS-hw-pathfinding/sprites.py:240 | after the last candidate the kept one closes into a least-cost tour, and every candidate before it is strictly dearer |
| Exhaustive.JockeLexFirst | IS-hw-pathfinding/sprites.py:229-240 | the earliest least-cost candidate closes into the lexicographically least least-cost tour: every other tour of that cost comes after it |
| Exhaustive.Jocke | IS-hw-pathfinding/sprites.py:225-240 | returns a tour of least cost, the earliest least-cost one in enumeration order, which is the lexicographically least tour of that cost, and `[0, 0]` when N = 0 |
| BranchAndBound.MakeEntity | IS-hw-pathfinding/sprites.py:160-164 | an entry's bound is `calcMSTcost` of its unvisited set and last id for Micko, and absent (0) for Uki |
| BranchAndBound.Child | IS-hw-pathfinding/sprites.py:263-268 | definition: the entry pushed for coin `c`: cost plus the edge to `c`, path extended by `c`, `c` no longer unvisited, and its bound |
| BranchAndBound.Closing | IS-hw-pathfinding/sprites.py:258-262 | definition: the entry pushed when nothing is unvisited: cost plus the edge back to 0, path closed at 0, nothing unvisited |
| BranchAndBound.OpenCount | IS-hw-pathfinding/sprites.py:255 | an open entry's path and unvisited set together number N+1, so a path of length N+2 is closed |
| BranchAndBound.ShapeExtend | IS-hw-pathfinding/sprites.py:265-267 | `exp.path + [coin]` with `coin` removed from a copy of `unvisited` is again a repeat-free path with exactly its missed coins unvisited |
| BranchAndBound.ShapeClose | IS-hw-pathfinding/sprites.py:260-261 | closing a path with nothing unvisited gives a tour |
| BranchAndBound.ExtendCost | IS-hw-pathfinding/sprites.py:264 | `exp.cost + coin_distance[exp.path[-1]][coin]` is the cost of the extended path |
| BranchAndBound.ChildWellFormed | IS-hw-pathfinding/sprites.py:263-268 | every pushed child is well formed, still open, and has one unvisited coin fewer |
| BranchAndBound.ClosingWellFormed | IS-hw-pathfinding/sprites.py:258-262 | the closing entry is well formed, closed, and has MST bound 0, so its priority is its cost |
| BranchAndBound.StartWellFormed | IS-hw-pathfinding/sprites.py:248-252 | the start entry `(0, [0], all coins)` is well formed |
| BranchAndBound.StartInv | IS-hw-pathfinding/sprites.py:248-252 | the queue holding only the start entry satisfies the search invariant (well formed, and every tour extends an entry) |
| BranchAndBound.SomeTour | IS-hw-pathfinding/sprites.py:250 | a tour exists for every N |
| BranchAndBound.RemoveAt | IS-hw-pathfinding/sprites.py:254 | the queue after `get()` has one copy fewer of the taken entry and nothing else changed |
| BranchAndBound.LeastExists | IS-hw-pathfinding/sprites.py:254 | a non-empty queue has an entry no other entry is less than |
| BranchAndBound.Get | IS-hw-pathfinding/sprites.py:254 | `paths.get()` returns a position holding an entry no queued entry is less than |
| BranchAndBound.CoveringNonEmpty | IS-hw-pathfinding/sprites.py:253 | a queue that every tour extends is not empty, so `paths.empty()` never ends the loop |
| BranchAndBound.TotalAppend | IS-hw-pathfinding/sprites.py:268 | the queue weight is additive over concatenation |
| BranchAndBound.TotalRemoveAt | IS-hw-pathfinding/sprites.py:254 | taking an entry lowers the queue weight by exactly its weight |
| BranchAndBound.PushedClosing | IS-hw-pathfinding/sprites.py:258-262 | the closing entry alone is a complete expansion of a path with nothing unvisited |
| BranchAndBound.PushedNone | IS-hw-pathfinding/sprites.py:263 | nothing pushed yet is a valid start of the `for coin` loop |
| BranchAndBound.PushedChild | IS-hw-pathfinding/sprites.py:263-268 | pushing the child for one more coin keeps the loop invariant: well-formed children, one per done coin, with the weight those coins account for |
| BranchAndBound.HasChildrenSnoc | IS-hw-pathfinding/sprites.py:263-268 | after the push, the child of every done coin is queued |
| BranchAndBound.WeightSnoc | IS-hw-pathfinding/sprites.py:263-268 | after the push, the pushed weight is that of the done coins |
| BranchAndBound.DoneGrows | IS-hw-pathfinding/sprites.py:263 | the done coins grow by exactly the pushed coin |
| BranchAndBound.AllWellFormedSnoc | IS-hw-pathfinding/sprites.py:268 | pushing a well-formed entry keeps every entry well formed |
| BranchAndBound.TourNext | IS-hw-pathfinding/sprites.py:258-268 | a tour that extends an open entry either is its closing or continues with one of its unvisited coins |
| BranchAndBound.ExpansionCovers | IS-hw-pathfinding/sprites.py:258-268 | every tour that extended the expanded entry extends one of its children |
| BranchAndBound.ReplacedAt | IS-hw-pathfinding/sprites.py:254-268 | the position of each entry in the queue after taking one and appending the children |
| BranchAndBound.ExpandCovers | IS-hw-pathfinding/sprites.py:254-268 | after a round every tour still extends a queued entry |
| BranchAndBound.ExpandWellFormed | IS-hw-pathfinding/sprites.py:254-268 | after a round every queued entry is still well formed |
| BranchAndBound.ExpandLighter | IS-hw-pathfinding/sprites.py:254-268 | a round strictly lowers the queue weight, so the search terminates |
| BranchAndBound.ExpandKeeps | IS-hw-pathfinding/sprites.py:254-268 | a round keeps the search invariant and strictly lowers the weight |
| BranchAndBound.PriorityBelowTour | IS-hw-pathfinding/sprites.py:253-257 | an entry that a tour extends has priority at most the tour's cost (for Micko, given an admissible bound) |
| BranchAndBound.LeastTourOptimal | IS-hw-pathfinding/sprites.py:255-257 | when the least entry is closed, it is a tour and no tour costs less |
| BranchAndBound.PushChild | IS-hw-pathfinding/sprites.py:264-268 | `paths.put` for one coin appends exactly that coin's child and keeps the expansion invariant |
| BranchAndBound.Expand | IS-hw-pathfinding/sprites.py:258-268 | the expansion pushes the closing entry when nothing is unvisited, the child of every unvisited coin otherwise, all well formed, of less total weight |
| BranchAndBound.Search | IS-hw-pathfinding/sprites.py:253-269 | the loop ends on a tour; with the plain order it is of least cost, with the MST order of least cost whenever the bound is admissible |
| BranchAndBound.SymmetricAdmissible | IS-hw-pathfinding/sprites.py:173-178 | on a symmetric matrix, for every tour and every prefix of it, the prefix's cost plus the MST bound of its entry is at most the tour's cost |
| BranchAndBound.Uki | IS-hw-pathfinding/sprites.py:247-269 | returns a tour whose cost is at most every tour's cost |
| BranchAndBound.Micko | IS-hw-pathfinding/sprites.py:276-301 | returns a tour; its cost is at most every tour's cost on every symmetric matrix, and on any matrix whose MST bound never exceeds the true completion cost |
| MstLowerBound.PathCostSplit | IS-hw-pathfinding/sprites.py:264 | cutting a path at an id gives two paths sharing that id whose costs add up to the path's cost |
| MstLowerBound.FirstEdge | IS-hw-pathfinding/sprites.py:264 | a path costs its first edge plus the rest |
| MstLowerBound.ReverseCost | IS-hw-pathfinding/sprites.py:139-156 | on a symmetric matrix a path turned around costs the same |
| MstLowerBound.CutTails | IS-hw-pathfinding/sprites.py:139-156 | the two parts of a path cut at an id both start at it and visit what the path visited, except that id |
| MstLowerBound.CutCost | IS-hw-pathfinding/sprites.py:139-156 | on a symmetric matrix the two parts of the cut cost the path's cost minus its first edge |
| MstLowerBound.PrimBelowPaths | IS-hw-pathfinding/sprites.py:147-154 | on a symmetric matrix, the eager Prim cost from a tree over the remaining nodes is at most the summed cost of any paths that start in the tree and visit each remaining node exactly once |
| MstLowerBound.CutThrough | IS-hw-pathfinding/sprites.py:148-154 | on a symmetric matrix, for any remaining node, the paths can be regrouped to start in the tree grown by that node, losing exactly an edge that leads from the tree into the remaining nodes |
| MstLowerBound.Locate | IS-hw-pathfinding/sprites.py:148-154 | a remaining node lies on some path after its start, and that path's second id is a remaining node |
| MstLowerBound.RegroupCovers | IS-hw-pathfinding/sprites.py:150-153 | the regrouped paths start in the grown tree and visit exactly the remaining nodes other than the added one |
| MstLowerBound.RegroupRootedAt | IS-hw-pathfinding/sprites.py:150-153 | the regrouped paths start in the grown tree |
| MstLowerBound.RegroupTailsAt | IS-hw-pathfinding/sprites.py:150-153 | the regrouped paths visit the remaining nodes other than the added one |
| MstLowerBound.RegroupCost | IS-hw-pathfinding/sprites.py:150-151 | on a symmetric matrix regrouping lowers the summed cost by exactly the first edge of the cut path |
| MstLowerBound.PrimBelowPath | IS-hw-pathfinding/sprites.py:141-154 | on a symmetric matrix, the Prim cost from the first id of a path over the ids it visits after it is at most the path's cost |
| MstLowerBound.MstBelowTour | IS-hw-pathfinding/sprites.py:160-164 | on a symmetric matrix, the MST bound of the start entry is at most the cost of every tour |
| MstLowerBound.RestAfter | IS-hw-pathfinding/sprites.py:284-300 | after its first j ids a tour visits each coin that those ids miss exactly once |
| MstLowerBound.RestCovers | IS-hw-pathfinding/sprites.py:141-144 | the tour after its first j ids, without that prefix's last id, holds exactly `left` of `calcMSTcost` once each: the unvisited coins and the origin |
| MstLowerBound.BoundBelowPath | IS-hw-pathfinding/sprites.py:141-156 | on a symmetric matrix, `calcMSTcost` of an entry is at most the cost of any path from its last id over its unvisited coins and the origin |
| MstLowerBound.SuffixInRange | IS-hw-pathfinding/sprites.py:284-300 | the rest of a tour after a prefix only uses ids of the matrix |
| MstLowerBound.MstBelowSuffix | IS-hw-pathfinding/sprites.py:160-164 | on a symmetric matrix, the MST bound of the entry for a prefix of length at least 2 is at most the cost of the rest of the tour |
| MstLowerBound.MstBelowFirst | IS-hw-pathfinding/sprites.py:160-164 | on a symmetric matrix, the start entry's cost plus its MST bound is at most the tour's cost |
| MstLowerBound.MstBelowLater | IS-hw-pathfinding/sprites.py:160-164 | on a symmetric matrix, a later entry's cost plus its MST bound is at most the tour's cost |
| MstLowerBound.MstBelowRest | IS-hw-pathfinding/sprites.py:173-178 | on a symmetric matrix, the priority `cost + MSTcost` of the entry for any prefix of a tour is at most that tour's cost |

## Left out

- Rendering, sprite loading, agent movement and the game loop around the agents are not part of this model. The agents only consume the matrix and produce a tour.
- `ExampleAgent` is not modelled. It shuffles with `random.shuffle`, which would only be a parameter here.
- `__str__` and `__repr__` are not modelled. They only format entries for printing.
- Costs are `nat`: the game computes real-valued Euclidean distances, and floating-point rounding is not modelled.
- Every agent requires a matrix with at least the origin row (`IsMatrix`). With an empty matrix, `get_agent_path` returns `[0, 0]` from Aki and `[0]` from Uki and Micko, and Jocke fails on an index.
- The comparison functions require non-empty paths. Every entry the agents build has a path starting at 0.
- `PriorityQueue` is a queue of entries. `Get` returns some entry that no other entry is less than. The model does not fix which of several equal entries `heapq` would return. Each new entry is appended at the end.
- The heap of `calcMSTcost` is a multiset, and `PopMin` returns a least `(cost, node)` pair.
- The order in which a Python `set` is iterated is not modelled. Every loop over a set takes an arbitrary element. Aki's `unvisited.pop()` then `add()` is an arbitrary starting coin for its scan.
- The `try` / `except Exception` of Micko is left out. Under `IsMatrix` no statement in the block raises, so the handler, which prints and returns `None`, is unreachable.
- BranchAndBound.Micko: optimality is proved for every symmetric matrix, and for other matrices only under `Admissible(m)`. `calcMSTcost` follows the directed costs, and for an asymmetric matrix the bound can exceed the true completion cost.
- BranchAndBound.Search: for the bounded search, optimality is stated under `Admissible(m)`, which `BranchAndBound.SymmetricAdmissible` discharges for symmetric matrices.
- BranchAndBound.PriorityBelowTour: for the bounded search, it requires `Admissible(m)`, for the same reason.
