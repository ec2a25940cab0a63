# A verified model of the data structures and algorithms

This project models the `dsa/` packages of the repository, and two files of `go-concepts/` (the worker
pool and the expression parser), in Dafny, and proves what their comments, documentation and tests
promise. `dafny verify dfyconfig.toml` checks all of it.

| files | what they model |
|---|---|
| RedBlackModel, RedBlack | the left-leaning red-black tree: its operations as functions on tree values with all invariants, and the linked, mutable nodes of the source refined to them |
| Graph, Traverse, Topo, Cycles, Undirected, Paths | the insertion-ordered graph with its incremental in-degrees; the two depth-first searches; Kahn's order; cycle detection in directed and undirected graphs; Dijkstra and breadth-first distances |
| HashMap | the open-addressing table with tombstones, for an arbitrary hash function |
| Tsp, HeldKarp, TspSearch | tours; the dynamic program; the exhaustive search; the 2-opt local search |
| SubsetSum | the subset-sum dynamic program, the counting program, the enumeration and the verifier |
| SortingModel, StableSorts, HeapSort, IntroSort | insertion sort and merge sort as stable sorts, heapsort, and quicksort with its partition budget |
| WorkerPool | feeder, workers, closer and collector over unbuffered channels as a transition system, for both pool policies |
| ExprParser | the expression grammar with its trees, printing and values, and the parser that mutates a position |
| Queue, Matchmake | the ring buffer and the matchmaker on top of it |
| Trie | the prefix tree with subtree counts |
| Searching | searches over monotone predicates, rotated slices and the whole range of a 64-bit integer |
| Sequences, Options, FiniteSets, BitMasks, Integers | what several of the others need |

Where the source updates things in place the model does so too: methods over classes, arrays and
fields, each proved against a function or predicate whose own properties are proved as lemmas.
Structures of linked nodes carry a ghost description of which node stands where (a tree of nodes for
the red-black tree, a map from paths to nodes for the trie), so that in-place changes are proved to
touch only what they should. A long function of the source is sometimes cut into several methods, one
for the loop and one for its body, so that each has a contract of its own.

## What the proofs found

- `moveRedLeft` does not always leave the left child red, as its comment says. It does exactly when the
  right child had no key to lend; otherwise the left child is black with a red left child, which the
  recursion can enter as well (`LeftIsRedUnlessLent`, `LeftIsBlackAfterLending`).
- `RunPool` with no workers closes the results at once and returns none (`ZeroWorkersStrand`). A call that
  is not cancelled is complete if and only if it has a worker or no jobs (`CompleteIffWorkers`). After the
  return the feeder is freed if and only if there was a worker, or no job, or the caller cancelled, or the
  call is `RunPoolFailFast`, whose deferred cancel frees it; otherwise it waits for ever (`FeederFreedIff`).
- `RunPoolFailFast` with no workers reports no error whatever the jobs (`ZeroWorkersHideFailures`). Unless
  the caller cancels it reports one if and only if a job is negative and there is a worker
  (`FailFastErrorIff`), and the absence of an error stands for a complete result without negative jobs if
  and only if there was a worker or no job (`FailFastMissesNothingIff`).
- `Eval` takes a NUL for the end of the input, so whatever follows one is ignored, although no expression
  has a NUL in it (`NulEndsInput`, `NulIsNoExpression`). It evaluates the text before the first NUL
  (`DenotesBeforeNul`), and meets the grammar on exactly those inputs that have no NUL or are refused up to it
  (`MeetsGrammarIff`).
- `TopoSort` does not keep nodes that are ready at the same time in insertion order, although its comment
  says so: nodes A, B, C with the edges A to C and then A to B come out as A, C, B (`EdgeOrderWins`). Nodes ready from
  the start do come out so (`SourcesByInsertion`); the others do if and only if the edges that free them
  are listed so (`KeepsInsertionOrderIff`).
- The height of a red-black tree is at most 2 log2(n), as promised, for every n but 1
  (`HeightWithinTwiceLogUnlessOne`).
- `IsValid` excuses a red root from the rule against two red links in a row (`DoubledRedAccepted`): it
  accepts exactly what is a tree once its root is blackened (`IsValidIffBlackenedIsTree`). Every operation
  leaves a black root.
- `RotationPoint` may miss the smallest element where elements at the boundary are equal, as in 1, 1, 0, 1
  (`RotationPointMissed`); its contract says exactly when.
- `CountSubsetSums` may report an overflow although the count asked for fits (`OverflowBeforeTheAnswer`);
  it does so exactly when some cell up to the target exceeds an int. Up to 62 numbers that cannot happen,
  and with 63 it can (`SafeExactlyUpTo62`).
- `SubsetSumDP` and `CountSubsetSums` answer a negative target before they look at the numbers. That is
  right for every negative target if and only if no number is negative (`NegativeTargetsUnsolvableIff`,
  `NegativeCountsZeroIff`); a negative number is itself a target that is missed (`NegativeNumberSolvable`).
- `TSPHeldKarp`, up to 20 cities, finds a cheapest tour exactly if one of them, walked from city 0, stays below
  the sentinel MaxInt/4; two cities MaxInt/4 apart have a tour that it does not find (`TooFarApart`).
  `TSPBrute` reports MaxInt and no tour if and only if no tour is below MaxInt.
- Inserting a word into the zero-value trie and deleting it again leaves the root that the insertion made;
  for a trie with a root the two calls cancel out exactly (`InsertThenDelete`).
- `Dijkstra` refuses a negative weight anywhere in the graph, `DijkstraAll` only one it reaches; both
  conditions are stated exactly.
- In the undirected graph a self-loop is stored once and counted twice in the in-degree.

## Readings of the source

- Keys of the red-black tree and of the searches are integers: the source compares them only by a
  linear order. Hash keys, graph nodes and the elements to be sorted are abstract types; a comparison
  function is any total preorder.
- The hash is an arbitrary function to the naturals and the slot its remainder modulo the table size,
  which for a power of two is what the mask computes. The load factor 0.7 is the fraction 7/10.
- The priority queue is used through its contract: it hands out some entry of least distance.
- Integers are unbounded except where the width is the point: `SearchAnswer` with its midpoint, and
  `CountSubsetSums`. Division truncates towards zero where the source's operands may be negative.
- A result of the worker pool names its job by the position it was fed from, so jobs with equal IDs
  stay apart. Time, contexts and scheduling are nondeterministic steps; deadline and cancellation are one.
- A panic of the parser is a failure value that every level passes on.
- Words and patterns are sequences of characters.

## Model

| member | source | states |
|---|---|---|
| `RedBlack.Tree.constructor` | dsa/redblack/redblack.go:111 | an empty tree is valid and is the empty map |
| `RedBlack.Tree.Get` | dsa/redblack/redblack.go:120-136 | the value stored for a key, or none, as in the map the tree holds |
| `RedBlack.Tree.Put` | dsa/redblack/redblack.go:219-233 | map update; reports whether the key was new; the count follows; the tree stays ordered, left-leaning, free of doubled reds and black-balanced |
| `RedBlack.Tree.Delete` | dsa/redblack/redblack.go:456-472 | map removal; reports whether the key was there; all tree rules hold again afterwards, and no absent child is ever followed on the way down |
| `RedBlack.Tree.DeleteMin` | dsa/redblack/redblack.go:373-389 | removes exactly the first entry in key order, which has the least key of the map, and keeps the tree rules; false only on the empty tree |
| `RedBlack.Tree.DeleteMax` | dsa/redblack/redblack.go:408-424 | removes exactly the last entry in key order, which has the greatest key of the map, and keeps the tree rules; false only on the empty tree |
| `RedBlackNodes.RotateLeft` | dsa/redblack/redblack.go:154-164 | the in-place rotation of linked nodes is the rotation of the tree they hold, and touches no other node |
| `RedBlackNodes.RotateRight` | dsa/redblack/redblack.go:167-177 | the in-place rotation of linked nodes is the rotation of the tree they hold, and touches no other node |
| `RedBlackNodes.FlipColors` | dsa/redblack/redblack.go:187-191 | flips the node and both its children, in place, and nothing else |
| `RedBlackNodes.Balance` | dsa/redblack/redblack.go:205-216 | the three repairs in place are the repair of the tree the nodes hold |
| `RedBlackNodes.Put` | dsa/redblack/redblack.go:241-261 | recursive insertion on linked nodes refines insertion on the tree they hold; all nodes stay, and exactly one is made if the key was absent, none otherwise |
| `RedBlackNodes.MoveRedLeft` | dsa/redblack/redblack.go:350-359 | borrowing to the left on linked nodes refines borrowing on the tree they hold |
| `RedBlackNodes.MoveRedRight` | dsa/redblack/redblack.go:362-370 | borrowing to the right on linked nodes refines borrowing on the tree they hold |
| `RedBlackNodes.DeleteMin` | dsa/redblack/redblack.go:391-405 | removal of the leftmost node on linked nodes refines removal on the tree they hold; no new nodes |
| `RedBlackNodes.DeleteMax` | dsa/redblack/redblack.go:426-444 | removal of the rightmost node on linked nodes refines removal on the tree they hold; no new nodes |
| `RedBlackNodes.MinNode` | dsa/redblack/redblack.go:274-279 | returns the key and value of the leftmost node |
| `RedBlackNodes.Del` | dsa/redblack/redblack.go:474-515 | top-down deletion on linked nodes, with the successor's key and value copied over the deleted one, refines deletion on the tree they hold |
| `RedBlackModel.BalanceRepairs` | dsa/redblack/redblack.go:205-216 | given a node whose only faults are those an insertion or deletion below may cause, balance leaves a sound subtree of the same black height, or a red node with one red-red link on the left for the parent to repair |
| `RedBlackModel.PutKeepsRules` | dsa/redblack/redblack.go:241-261 | insertion below any node leaves at most one doubled red link at its top, and none if the node is black; the black height is unchanged |
| `RedBlackModel.MoveRedLeftLends` | dsa/redblack/redblack.go:344-359 | entered with a red node whose left child has nothing to spare, it returns a node of the same size whose left subtree can be entered by a deletion, with the right one sound |
| `RedBlackModel.LeftIsRedUnlessLent` | dsa/redblack/redblack.go:344-359 | the promise that the left child is red afterwards holds if and only if the right child had no key to lend; otherwise the left child's own left child is red |
| `RedBlackModel.LeftIsBlackAfterLending` | dsa/redblack/redblack.go:344-359 | a tree of four keys for which the left child ends up black |
| `RedBlackModel.MoveRedRightLends` | dsa/redblack/redblack.go:362-370 | the mirror image: either the right child becomes one that a deletion can enter, or the node itself has moved there with its key and value |
| `RedBlackModel.DeleteMin` | dsa/redblack/redblack.go:391-405 | removing the least entry of any subtree whose top or left child is red gives a sound subtree of the same black height |
| `RedBlackModel.DeleteMax` | dsa/redblack/redblack.go:426-444 | removing the greatest entry of such a subtree, leaning right on the way down, gives a sound subtree of the same black height |
| `RedBlackModel.Delete` | dsa/redblack/redblack.go:474-515 | deleting a key from any subtree whose top or left child is red gives a sound subtree of the same black height |
| `RedBlackModel.PutEntries` | dsa/redblack/redblack.go:241-261 | in key order: the smaller entries, the new entry, the greater entries, and nothing else |
| `RedBlackModel.DeleteMinEntries` | dsa/redblack/redblack.go:391-405 | in key order: all entries but the first |
| `RedBlackModel.DeleteMaxEntries` | dsa/redblack/redblack.go:426-444 | in key order: all entries but the last |
| `RedBlackModel.DeleteEntries` | dsa/redblack/redblack.go:474-515 | in key order: all entries but the one with the key |
| `RedBlackModel.PutRootKeepsTree` | dsa/redblack/redblack.go:219-233 | with the root blackened, insertion maps trees to trees |
| `RedBlackModel.DeleteRootKeepsTree` | dsa/redblack/redblack.go:456-472 | with the root lent a red colour first and blackened after, deletion maps trees to trees and removes exactly the key |
| `RedBlackModel.DeleteMinKeepsTree` | dsa/redblack/redblack.go:373-389 | with the root lent a red colour first and blackened after, removing the least entry maps trees to trees and removes exactly that entry |
| `RedBlackModel.DeleteMaxKeepsTree` | dsa/redblack/redblack.go:408-424 | the same for the greatest entry |
| `RedBlackModel.PutOnTree` | dsa/redblack/redblack.go:219-233 | on every tree insertion is map update, and the size grows by one exactly for a new key |
| `RedBlackModel.DeleteOnTree` | dsa/redblack/redblack.go:456-472 | on every tree deletion is map removal, and the size shrinks by one exactly for a present key |
| `RedBlackModel.LookupOnMap` | dsa/redblack/redblack.go:120-136 | the walk from the root finds exactly what the map holds |
| `RedBlackModel.OrderedIffSorted` | dsa/redblack/redblack.go:609-622 | the recursive bounds check accepts exactly the trees whose in-order entries are strictly ascending within the bounds |
| `RedBlackModel.IsValidIffIsTree` | dsa/redblack/redblack.go:605-662 | the combined checker accepts a black-rooted tree exactly when it is ordered, left-leaning without doubled reds, black-balanced, and has the counted number of entries |
| `RedBlackModel.IsValidIffBlackenedIsTree` | dsa/redblack/redblack.go:605-662 | on any tree, red roots included, the checker accepts exactly what satisfies the rules once its root is blackened |
| `RedBlackModel.DoubledRedAccepted` | dsa/redblack/redblack.go:628-643 | a red root with a red left child is accepted |
| `RedBlackModel.BlackHeightBounds` | dsa/redblack/redblack.go:575-596 | n + 1 is at least two to the black height, and the height at most twice the black height, plus one below a red top |
| `RedBlackModel.HeightIsLogarithmic` | dsa/redblack/redblack.go:573-596 | for every tree, two to the height is at most (n + 1) squared: the height is at most 2 log2(n + 1) |
| `RedBlackModel.HeightWithinTwiceLogUnlessOne` | dsa/redblack/redblack.go:1-3 | the height of a nonempty tree is at most 2 log2(n) if and only if n is not 1 |
| `RedBlackModel.HeightIsLongestPath` | dsa/redblack/redblack.go:573-580 | the height is the number of nodes on a longest path from the root |
| `RedBlackModel.PathsAreShort` | dsa/redblack/redblack.go:30-50 | no path down a tree of more than one key passes more than 2 log2(n) nodes |
| `RedBlackModel.IsTreeIffRules` | dsa/redblack/redblack.go:30-50 | the trees kept are those with a black root and ascending keys in which no red link leans right or follows another and every path to a missing child passes equally many black nodes |
| `RedBlackModel.WithoutFirst` | dsa/redblack/redblack.go:373-389 | without its first entry the map lacks exactly its least key |
| `RedBlackModel.WithoutLast` | dsa/redblack/redblack.go:408-424 | without its last entry the map lacks exactly its greatest key |
| `Graphs.Graph.constructor` | dsa/graph/graph.go:61-71 | an empty graph is consistent |
| `Graphs.Graph.AddNode` | dsa/graph/graph.go:106-116 | appends a new node at the end of the insertion order, without edges, and leaves an old one alone; the in-degree map stays exact |
| `Graphs.Graph.SetEdge` | dsa/graph/graph.go:154-164 | replaces the weight of the edge in place or appends one, and says which |
| `Graphs.WithArcPlaces` | dsa/graph/graph.go:154-164 | an edge that was there keeps its place in the list and takes the new weight, a new one comes last, and no other list changes |
| `Graphs.Graph.UnsetEdge` | dsa/graph/graph.go:182-195 | drops the edge, keeping the order of the rest, and says whether there was one |
| `Graphs.WithoutArcPlaces` | dsa/graph/graph.go:182-195 | the edge goes, those behind it move up in order, and no other list changes |
| `Graphs.Graph.AddWeightedEdge` | dsa/graph/graph.go:132-151 | adds missing ends in order, then the edge, in both directions if undirected; adjacency lists stay free of duplicates, symmetric if undirected, and the in-degree map exact |
| `Graphs.Graph.RemoveEdge` | dsa/graph/graph.go:167-180 | removes the edge, in both directions if undirected, and nothing else; all invariants hold afterwards |
| `Graphs.AddEdgeKeeps` | dsa/graph/graph.go:132-164 | for an added or re-weighted edge the incremental in-degrees are again the numbers of edges that lead in |
| `Graphs.RemoveEdgeKeeps` | dsa/graph/graph.go:167-195 | for a removed edge the incremental in-degrees are again the numbers of edges that lead in |
| `Graphs.WithEdgeWeights` | dsa/graph/graph.go:132-164 | adding an edge sets its weight, in both directions if undirected, and changes no other |
| `Graphs.WithoutEdgeWeights` | dsa/graph/graph.go:167-195 | removing an edge removes it, in both directions if undirected, and changes no other |
| `Graphs.NewEdgeCount` | dsa/graph/graph.go:132-151 | what a new undirected edge adds to every in-degree, a self-loop counting twice |
| `Graphs.LostEdgeCount` | dsa/graph/graph.go:167-180 | what a removed undirected edge takes from every in-degree, a self-loop counting twice |
| `Traverse.Dfs` | dsa/graph/traverse.go:111-142 | the explicit stack, with duplicates and the check at the pop, yields the recursive depth-first order from any start in any graph: first the start, then always what the first new edge leads to, from the latest node yielded that has one, until there is none |
| `Traverse.Walker.Walk` | dsa/graph/traverse.go:151-180 | the recursive closure appends exactly the depth-first order of what is newly reachable |
| `Traverse.DfsRecursive` | dsa/graph/traverse.go:151-180 | yields the same depth-first order, so both searches agree |
| `Traverse.DepthFirstInOrder` | dsa/graph/traverse.go:151-180 | the recursive order obeys that rule at every node |
| `Traverse.DepthFirstOrderIsUnique` | dsa/graph/traverse.go:94-180 | only one sequence obeys it |
| `Traverse.SkippingIsHarmless` | dsa/graph/traverse.go:111-142 | leaving out neighbours already seen changes nothing in the order of visits |
| `Traverse.PopStep` | dsa/graph/traverse.go:111-142 | popping an unvisited node and pushing its unseen neighbours leaves the order still to come the same |
| `Traverse.DepthFirstVisitsReachable` | dsa/graph/traverse.go:111-180 | the order visits each reachable node exactly once and no other |
| `Topo.TopoSort` | dsa/graph/topo.go:24-66 | directed graphs only; an order returned is a permutation of the nodes with every edge of every list leading forward, in which nodes stand in the order they became ready; then the graph has no cycle, and the cycle error is returned only if there is one |
| `Topo.Kahn` | dsa/graph/topo.go:24-66 | removing nodes without predecessors keeps the counts exact; what is ordered has all its predecessors before it and stands in the order it became ready |
| `Topo.OrderIsUnique` | dsa/graph/topo.go:42-57 | two topological orders that take ready nodes first in, first out are equal, so the result is reproducible |
| `Topo.SourcesByInsertion` | dsa/graph/topo.go:33-38 | nodes without predecessors come first, in the order in which they were inserted |
| `Topo.FreedInEdgeOrder` | dsa/graph/topo.go:52-57 | nodes that become ready in one turn come out in the order of the edges that free them |
| `Topo.FreedInTurn` | dsa/graph/topo.go:42-57 | nodes freed in an earlier turn come out before those freed in a later one |
| `Topo.KeepsInsertionOrderIff` | dsa/graph/topo.go:42-46 | nodes ready at the same time come out in insertion order if and only if the edges that free them are listed in that order |
| `Topo.EdgeOrderWins` | dsa/graph/topo.go:42-46 | three nodes of which the second and third come out the wrong way round |
| `Topo.LeftoverIffBehindCycle` | dsa/graph/topo.go:60-63 | the nodes left over are exactly those that some closed walk leads to |
| `Topo.TopologicalIsAcyclic` | dsa/graph/topo.go:24-66 | an order with every edge forward excludes every closed walk |
| `Topo.PredecessorsCycle` | dsa/graph/topo.go:60-63 | in a nonempty set of nodes, each with a predecessor in the set, some closed walk leads to every node a backward walk may start from |
| `Cycles.ColourWalk.Walk` | dsa/graph/topo.go:98-117 | finds a cycle, or finishes the node with every successor finished before it, leaving the current path and colours as they were |
| `Cycles.HasDirectedCycle` | dsa/graph/topo.go:86-126 | true if and only if the directed graph has a cycle |
| `Cycles.CyclicIffClosedAlong` | dsa/graph/topo.go:86-126 | a cycle is a sequence along listed edges back to its start |
| `Cycles.BackEdge` | dsa/graph/topo.go:166-221 | an edge from the end of the path to a node on it closes a cycle of distinct nodes |
| `Cycles.AllFinished` | dsa/graph/topo.go:86-126 | if every node was finished after its successors there is no cycle |
| `Cycles.PathWalk.Walk` | dsa/graph/topo.go:180-210 | returns a cycle cut from the current path, or finishes the node |
| `Cycles.FindCycle` | dsa/graph/topo.go:166-221 | empty for undirected graphs and, if directed, exactly when there is no cycle; otherwise a closed walk along edges, its nodes distinct but for the last |
| `UndirectedCycles.PlainWalk.Walk` | dsa/graph/topo.go:128-147 | finds a cycle, or adds a tree all of whose edges lead to a parent or a child |
| `UndirectedCycles.DetectUndirectedCycle` | dsa/graph/topo.go:128-159 | true if and only if there is a self-loop or a ring of at least three distinct nodes |
| `UndirectedCycles.HasCycle` | dsa/graph/topo.go:86-159 | the same question for both kinds of graph: true if and only if there is a cycle of its kind |
| `UndirectedCycles.MeetVisited` | dsa/graph/topo.go:128-147 | a visited neighbour other than the one just come from lies on the current path, so it closes a cycle |
| `UndirectedCycles.ForestHasNoCycle` | dsa/graph/topo.go:149-159 | when every node is visited and every edge is a tree edge there is no cycle |
| `Paths.Dijkstra` | dsa/graph/paths.go:128-187 | not found, negative weight and no path are reported exactly when they apply; otherwise a real path of the reported weight, which is the least of all walks, zero-weight cycles included |
| `Paths.OneEdgeMore` | dsa/graph/paths.go:128-187 | the weight of a walk is the sum of the listed weights of its edges |
| `Paths.Rebuild` | dsa/graph/paths.go:75-90 | following the parents ends and gives a path from the start whose weight is the recorded distance |
| `Paths.Expand` | dsa/graph/paths.go:163-183 | relaxing the edges of the node just settled keeps every tentative distance attained by a walk, every settled one least, and the parents a tree |
| `Paths.DijkstraAll` | dsa/graph/paths.go:190-224 | distances of exactly the reachable nodes, each the least over all walks; the negative-weight error exactly when a reachable node has such an edge |
| `Paths.ExpandAll` | dsa/graph/paths.go:208-220 | relaxing while checking the edges: stops at the first negative weight, otherwise keeps the same invariant |
| `Paths.NoShorterWalk` | dsa/graph/paths.go:128-187 | when a node leaves the queue with the least key, no walk of any shape is shorter |
| `Paths.DijkstrasAgree` | dsa/graph/paths.go:128-224 | the single-target distance exists and equals d exactly when the all-targets table says d |
| `Paths.Hops` | dsa/graph/paths.go:93-115 | for exactly the reachable nodes, the least number of edges of any walk |
| `Paths.UnitWeightsAgree` | dsa/graph/paths.go:93-224 | if every weight is one, both tables are equal |
| `HashMaps.HashMap.constructor` | dsa/hashmap/hashmap.go:75-93 | an empty map, without a table below a capacity of one and otherwise with the least fitting one, whose load limit the capacity does not exceed; any hash function |
| `HashMaps.SlotsFor` | dsa/hashmap/hashmap.go:98-106 | the least power of two, and at least eight, that holds n keys under the load factor |
| `HashMapModel.FitsIff` | dsa/hashmap/hashmap.go:45-53 | fitting means a power of two, eight or the least one above, of which the keys take less than seven tenths |
| `HashMaps.HashMap.Probe` | dsa/hashmap/hashmap.go:146-181 | ends on the key's slot if the key is stored, and otherwise on the first slot of its probe path that can take it, a tombstone if it passed one |
| `HashMaps.HashMap.Get` | dsa/hashmap/hashmap.go:184-196 | what the finite map holds |
| `HashMaps.HashMap.Put` | dsa/hashmap/hashmap.go:199-226 | map update; overwriting changes neither table nor counts; the table is kept while one slot more stays within the load limit, and a rebuild fits the keys, drops every tombstone and at most doubles the table; without tombstones it happens exactly when the limit is passed and doubles the table exactly |
| `HashMaps.DoAll` | dsa/hashmap/hashmap.go:73-82 | any sequence of insertions and deletions on a new map holds what the finite map holds, and no more insertions than the capacity asked for never rebuild the table |
| `HashMaps.HashMap.Delete` | dsa/hashmap/hashmap.go:235-255 | map removal, leaving a tombstone; reports whether the key was there |
| `HashMaps.HashMap.Resize` | dsa/hashmap/hashmap.go:268-286 | the same map in a table without tombstones, of the size for its keys |
| `HashMapModel.NeverExhausted` | dsa/hashmap/hashmap.go:146-181 | with an empty slot somewhere, probing meets it before it has been all the way round |
| `HashMapModel.AbsentAtEmpty` | dsa/hashmap/hashmap.go:146-181 | a key is not stored if its probe path reaches an empty slot before it: no gap on the way to any stored key |
| `HashMapModel.Insert` | dsa/hashmap/hashmap.go:199-226 | filling the slot a probe ended on adds the key to the map and makes no gap |
| `HashMapModel.Overwrite` | dsa/hashmap/hashmap.go:199-226 | writing a value over the key's slot updates the map |
| `HashMapModel.Bury` | dsa/hashmap/hashmap.go:235-255 | a tombstone in the key's slot removes it from the map and opens no gap for any other key |
| `HashMapModel.AtMostDoubles` | dsa/hashmap/hashmap.go:98-106 | a table within the load limit is rebuilt, for one key more, at most twice as large |
| `HashMapModel.ExactlyDoubles` | dsa/hashmap/hashmap.go:268-286 | without tombstones, one key too many doubles the table exactly |
| `TspModel.TourLength` | dsa/pvsnp/tsp.go:66-77 | the sum over consecutive cities and back to the start; zero below two cities |
| `TspModel.VerifyTour` | dsa/pvsnp/tsp.go:85-99 | accepts exactly the sequences that visit every city once, with their length |
| `TspModel.RotateTour` | dsa/pvsnp/tsp.go:66-77 | a tour costs the same from any starting point |
| `TspModel.OneCityMore` | dsa/pvsnp/tsp.go:66-77 | the cost of a tour in terms of the matrix entries alone: two cities cost both ways, and one more city replaces the way home by two others, in the direction of travel |
| `HeldKarp.Fill` | dsa/pvsnp/tsp.go:196-234 | every cell ends up attained by its parent and no dearer than any single extension of an expanded cell |
| `HeldKarp.EntryIsLowerBound` | dsa/pvsnp/tsp.go:209-234 | no path from city 0 through a set of cities to its last one, with every part of it below the sentinel, is cheaper than the cell for them |
| `HeldKarp.Rebuild` | dsa/pvsnp/tsp.go:253-264 | walking the parents back from the full set visits every city once, costs what the cell says, and stays below the sentinel all along |
| `HeldKarp.TSPHeldKarp` | dsa/pvsnp/tsp.go:180-267 | too large above 20 cities; a tour returned is valid, costs what is reported and is no dearer than any tour whose parts from city 0 stay below the sentinel; no solution exactly if there is no such tour; a cheapest tour exactly if one of the cheapest is of that kind, which holds on any matrix whose entries are at most 109802048057794950, on any with small sums and on any without negative entries whose cheapest tour is below the sentinel |
| `HeldKarp.TwoCities` | dsa/pvsnp/tsp.go:192-251 | for two cities at distance far with a free way back the tour is found exactly if far is below 2305843009213693951 |
| `HeldKarp.TooFarApart` | dsa/pvsnp/tsp.go:192-251 | two cities with a tour that is missed because it costs that much |
| `HeldKarp.SmallEntriesAreBounded` | dsa/pvsnp/tsp.go:180-267 | entries whose 21-fold is below the sentinel keep all path sums below it |
| `TspBrute.BruteSearch.Recurse` | dsa/pvsnp/tsp.go:149-165 | visits the permutations of the tail in order, and restores the buffer |
| `TspBrute.PermsSound` | dsa/pvsnp/tsp.go:149-165 | every visit is a rearrangement that leaves the prefix alone |
| `TspBrute.PermsComplete` | dsa/pvsnp/tsp.go:149-165 | every such rearrangement is visited |
| `TspBrute.PermsDiffer` | dsa/pvsnp/tsp.go:149-165 | no two visits are the same |
| `TspBrute.TSPBrute` | dsa/pvsnp/tsp.go:111-138 | too large above 12 cities; otherwise, if some tour is below MaxInt, a valid tour of the reported cost that no tour undercuts, and if none is, no tour and MaxInt |
| `TspBrute.TwoCitiesByForce` | dsa/pvsnp/tsp.go:125-137 | for the same two cities the exhaustive search gives up only at 2 to the 63 minus 1 |
| `TspBrute.SolveBoth` | dsa/pvsnp/tsp.go:111-267 | up to 12 cities the exhaustive search never does worse than the dynamic program; without negative distances, or with small sums, both report the same cost unless no tour is below the sentinel |
| `TwoOpts.DeltaIsExact` | dsa/pvsnp/tsp.go:357-397 | on a symmetric matrix the difference of four edges is the change of the whole tour's length |
| `TwoOpts.MoveKeepsCities` | dsa/pvsnp/tsp.go:396-398 | reversing a segment keeps the multiset of cities |
| `TwoOpts.ReverseSegment` | dsa/pvsnp/tsp.go:396-398 | in place: the segment reversed, the rest untouched |
| `TwoOpts.Pass` | dsa/pvsnp/tsp.go:376-400 | one sweep either shortens the tour or changes nothing and shows no considered move gains |
| `TwoOpts.NoMoveGains` | dsa/pvsnp/tsp.go:379-400 | the two shapes of pairs the loops leave out change nothing on a symmetric matrix, so no reversal of any segment gains if no considered one does |
| `TwoOpts.TwoOpt` | dsa/pvsnp/tsp.go:368-404 | ends for every starting tour with a permutation of it, no longer than it, which no reversal of any segment shortens |
| `SubsetSumModel.VerifySubsetSum` | dsa/pvsnp/pvsnp.go:67-84 | accepts exactly distinct indices in range that sum to the target |
| `SubsetSumModel.ReachStep` | dsa/pvsnp/pvsnp.go:143-195 | a sum is reachable with one number more exactly if it was, or was reachable without that number |
| `SubsetSumSearch.Fill` | dsa/pvsnp/pvsnp.go:153-176 | after i numbers a cell is set exactly if the first i numbers reach its sum, and its chain only goes to earlier numbers |
| `SubsetSumSearch.Recover` | dsa/pvsnp/pvsnp.go:182-194 | the chain gives strictly ascending indices that sum to the target |
| `SubsetSumSearch.SubsetSumDP` | dsa/pvsnp/pvsnp.go:143-195 | ascending, hence distinct, indices that the verifier accepts; no-solution exactly for a negative target or when no subset of the non-negative numbers sums to it; the error for negative numbers otherwise |
| `SubsetSumModel.NegativeTargetUnsolvable` | dsa/pvsnp/pvsnp.go:143-146 | for non-negative numbers a negative target has no solution |
| `SubsetSumModel.NegativeTargetsUnsolvableIff` | dsa/pvsnp/pvsnp.go:143-146 | the early answer is right for all negative targets if and only if no number is negative |
| `SubsetSumModel.NegativeNumberSolvable` | dsa/pvsnp/pvsnp.go:143-146 | any negative number is itself a target with a solution that is missed |
| `SubsetSumCount.NegativeCountsZeroIff` | dsa/pvsnp/pvsnp.go:210-213 | the count of 0 is right for all negative targets if and only if no number is negative |
| `SubsetSumCount.SolutionsStep` | dsa/pvsnp/pvsnp.go:221-233 | the number of subsets with one number more is the sum of two cells |
| `SubsetSumCount.CountSubsetSums` | dsa/pvsnp/pvsnp.go:210-236 | without an error, exactly the number of index subsets with that sum; overflow exactly when some cell up to the target exceeds an int, and never up to 62 numbers |
| `SubsetSumCount.CountMeansSolvable` | dsa/pvsnp/pvsnp.go:143-236 | the count is positive exactly when the search has a solution |
| `SubsetSumCount.OverflowBeforeTheAnswer` | dsa/pvsnp/pvsnp.go:197-236 | 63 zeros overflow although the count asked for is 0 |
| `SubsetSumCount.FewNumbersNeverOverflow` | dsa/pvsnp/pvsnp.go:197-236 | up to 62 numbers no cell overflows, whatever the target |
| `SubsetSumCount.SafeExactlyUpTo62` | dsa/pvsnp/pvsnp.go:197-236 | 62 is the greatest number of numbers for which that holds |
| `SubsetSumByMask.IndicesOf` | dsa/pvsnp/pvsnp.go:125-131 | the positions of the set bits, ascending |
| `SubsetSumByMask.SumOfBits` | dsa/pvsnp/pvsnp.go:104-112 | clearing the lowest set bit again and again sums exactly the numbers at the set bits |
| `SubsetSumByMask.SubsetSumBrute` | dsa/pvsnp/pvsnp.go:98-122 | too many above 62 numbers; otherwise distinct indices of a solution exactly when there is one |
| `SubsetSumByMask.SolveTwice` | dsa/pvsnp/pvsnp.go:98-195 | run on one input of at most 62 non-negative numbers, table and enumeration both solve it or both refuse it |
| `StableSorts.InsertionFunc` | dsa/sorting/quadratic.go:55-67 | sorts the range, keeps equivalent elements in order, and leaves the rest of the array alone |
| `StableSorts.InsertNext` | dsa/sorting/quadratic.go:56-66 | slides the greater elements and inserts: the sorted part grows by one, stably |
| `StableSorts.MergeHeads` | dsa/sorting/divide.go:75-88 | writes the merge of the two halves until one is used up |
| `StableSorts.MergeHalves` | dsa/sorting/divide.go:75-95 | the shared-buffer merge, with its two closing copies, writes the stable merge of the two halves |
| `StableSorts.MergeSort` | dsa/sorting/divide.go:41-68 | stable on every range, through the base case and the skipped merge as well |
| `StableSorts.MergeFunc` | dsa/sorting/divide.go:32-39 | a permutation in which no element compares greater than a later one and equivalent elements keep their order |
| `SortingModel.MergeSorted` | dsa/sorting/divide.go:75-95 | merging sorted sequences gives a sorted one |
| `SortingModel.MergeClasses` | dsa/sorting/divide.go:75-95 | in the merge the equivalents of any element stand as in the left half and then as in the right |
| `SortingModel.MergeInOrder` | dsa/sorting/divide.go:61-65 | halves already in order merge to their concatenation, so skipping the merge changes nothing |
| `SortingModel.InsertClasses` | dsa/sorting/quadratic.go:55-67 | insertion keeps the order of equivalent elements |
| `SortingModel.StableSortIsUnique` | dsa/sorting/divide.go:69-95 | a sorted sequence with the equivalents in their old order is determined by the input |
| `SortingModel.StableIsRearranged` | dsa/sorting/divide.go:32-95 | keeping the order of all equivalents is keeping every element |
| `HeapSorts.SiftDown` | dsa/sorting/heapsort.go:52-71 | restores the heap from a root that may be too small, by rearranging the first size elements only |
| `HeapSorts.RootIsGreatest` | dsa/sorting/heapsort.go:28-47 | the root of a heap is no smaller than any element |
| `HeapSorts.BuildHeap` | dsa/sorting/heapsort.go:36-38 | a heap of the same elements |
| `HeapSorts.HeapFunc` | dsa/sorting/heapsort.go:28-47 | a sorted permutation of the range, the rest untouched |
| `IntroSorts.Median3` | dsa/sorting/divide.go:276-287 | computes the median of three |
| `IntroSorts.MedianIsMedian` | dsa/sorting/divide.go:276-287 | it is one of the three, with at least two of them, itself included, on either side |
| `IntroSorts.ChoosePivot` | dsa/sorting/divide.go:257-271 | the median of three samples below 50 elements, the ninther otherwise, without changing the array |
| `IntroSorts.PivotIsMedian` | dsa/sorting/divide.go:257-271 | below 50 elements a median of the first, the middle and the last one, otherwise a median of medians at the low end, in the middle and at the high end, an eighth apart |
| `IntroSorts.PartitionThreeWay` | dsa/sorting/divide.go:193-215 | less, equivalent, greater around an element of the range, so that the middle part is never empty and both sides shrink |
| `IntroSorts.ILog2` | dsa/sorting/divide.go:291-298 | the floor of the logarithm: two to the result is at most n and two to the next number above it |
| `IntroSorts.BudgetFor` | dsa/sorting/divide.go:146-148 | twice the logarithm plus eight |
| `IntroSorts.QuickSort` | dsa/sorting/divide.go:155-181 | sorts for every budget; calls nest at most log2(n) deep; no element takes part in more partitions than the budget |
| `IntroSorts.ChargeOneRound` | dsa/sorting/divide.go:155-181 | a round that costs the larger side one partition, and the smaller side that and what its call may still use, leaves every element within the budget |
| `IntroSorts.QuickFunc` | dsa/sorting/divide.go:125-127 | a sorted permutation of any input; stack depth at most log2(n); each element in at most 2 log2(n) + 8 partitions, n times that in all |
| `WorkerPool.StepKeeps` | go-concepts/08-select-and-timeouts/workerpool.go:70-218 | no step of feeder, worker, closer, collector or caller breaks the invariant of the pool |
| `WorkerPool.StepAccounts` | go-concepts/08-select-and-timeouts/workerpool.go:70-121 | every step keeps each fed job in exactly one place: with one worker, collected once, or dropped once |
| `WorkerPool.NoSendOnClosed` | go-concepts/08-select-and-timeouts/workerpool.go:70-121 | in no run is anything sent on the closed results channel; it is closed only when every worker has exited; the wait group never goes negative |
| `WorkerPool.AtMostOneResult` | go-concepts/08-select-and-timeouts/workerpool.go:70-121 | at any moment of any run at most one result per job, each with the outcome its input calls for, and a cancellation only after cancelling |
| `WorkerPool.ResultsAreRight` | go-concepts/08-select-and-timeouts/workerpool.go:46-57 | in every run a result is an error for a negative input, the square of the input otherwise, or a cancellation after the caller or a failure has cancelled, and no job has two results |
| `WorkerPool.EveryJobIsAnswered` | go-concepts/08-select-and-timeouts/workerpool.go:70-121 | a returned call with a worker that nothing cancelled before has, for each job, the error or the square of its input |
| `WorkerPool.CancelledIff` | go-concepts/08-select-and-timeouts/workerpool.go:162-218 | work is cancelled exactly by the caller and, in the fail-fast call, by the first failure and by the return |
| `WorkerPool.UncancelledIsComplete` | go-concepts/08-select-and-timeouts/workerpool.go:70-121 | a run not cancelled before it returns has exactly one result per job if there was a worker, and none if there was not |
| `WorkerPool.CompleteIffWorkers` | go-concepts/08-select-and-timeouts/workerpool.go:70-121 | not cancelled, a returned call is complete if and only if it had a worker or nothing to do |
| `WorkerPool.ZeroWorkersStrand` | go-concepts/08-select-and-timeouts/workerpool.go:70-121 | every call without workers that returns uncancelled has returned nothing for its jobs, and nothing but a cancellation by the caller can happen any more |
| `WorkerPool.ZeroWorkersLoseJobs` | go-concepts/08-select-and-timeouts/workerpool.go:70-121 | there is such a call for any jobs |
| `WorkerPool.NeverStuck` | go-concepts/08-select-and-timeouts/workerpool.go:70-121 | before the return some goroutine can always move without waiting for a cancellation |
| `WorkerPool.RunsAreFinite` | go-concepts/08-select-and-timeouts/workerpool.go:70-121 | every run ends after a number of steps linear in jobs and workers |
| `WorkerPool.FeederFreedIff` | go-concepts/08-select-and-timeouts/workerpool.go:59-218 | after the return every worker has exited; the feeder has finished or can if and only if there was a worker, or no job, or the call itself cancels on return as the fail-fast one does, or the caller cancelled |
| `WorkerPool.RunPoolIsNotCancelled` | go-concepts/08-select-and-timeouts/workerpool.go:70-121 | without fail-fast only the caller cancels |
| `WorkerPool.FailFastReportsFirst` | go-concepts/08-select-and-timeouts/workerpool.go:162-218 | the error is that of the first collected result that is a failure and not a cancellation, and its input is negative |
| `WorkerPool.FailFastErrorIff` | go-concepts/08-select-and-timeouts/workerpool.go:162-218 | not cancelled by the caller, the call returns an error if and only if some input is negative and there is a worker |
| `WorkerPool.FailFastMissesNothingIff` | go-concepts/08-select-and-timeouts/workerpool.go:162-218 | no error, and no cancelling by the caller: that no input was negative and every job has its result holds if and only if there was a worker or no job |
| `WorkerPool.ZeroWorkersHideFailures` | go-concepts/08-select-and-timeouts/workerpool.go:162-218 | for any jobs there is a call without workers that returns neither results nor an error |
| `WorkerPool.FirstFailureIsFirst` | go-concepts/08-select-and-timeouts/workerpool.go:202-216 | what the collector remembers is a failure with no failure before it, and none exactly if there is none |
| `ExprParsers.ExprParser.PeekNext` | go-concepts/05-defer-panic-recover/boundaries.go:144-152 | skips spaces; the next character, or NUL at the end |
| `ExprParsers.ExprParser.Expr` | go-concepts/05-defer-panic-recover/boundaries.go:154-168 | advances and answers as the grammar function of the rest of the input does |
| `ExprParsers.ExprParser.Term` | go-concepts/05-defer-panic-recover/boundaries.go:170-188 | advances and answers as the grammar function of the rest of the input does, division by zero included |
| `ExprParsers.ExprParser.Factor` | go-concepts/05-defer-panic-recover/boundaries.go:190-214 | advances and answers as the grammar function of the rest of the input does |
| `ExprParsers.Eval` | go-concepts/05-defer-panic-recover/boundaries.go:218-229 | returns v if and only if the text before the first NUL, or the whole input, is an expression of value v followed by spaces; any failure comes back with a reason that the input explains at the position reported, and never escapes otherwise |
| `ExprGrammar.FailureExplained` | go-concepts/05-defer-panic-recover/boundaries.go:154-229 | an end or a bad character only where a factor is due and there is none; a missing parenthesis only behind an open group with an expression in it; trailing input only behind a complete expression that it cannot carry on; a division by zero only behind a slash and a factor worth zero |
| `ExprGrammar.PrintedEvaluates` | go-concepts/05-defer-panic-recover/boundaries.go:128-132 | evaluating what any expression tree prints gives the value of the tree, or division by zero exactly when the tree divides by zero |
| `ExprGrammar.EvaluateIffDenotes` | go-concepts/05-defer-panic-recover/boundaries.go:128-229 | success with v is the same as being printed by an expression tree of value v |
| `ExprGrammar.ExprParses` | go-concepts/05-defer-panic-recover/boundaries.go:154-168 | a printed expression before anything that cannot continue it is parsed completely, left-associatively |
| `ExprGrammar.TermParses` | go-concepts/05-defer-panic-recover/boundaries.go:170-188 | a printed term before anything but a digit is parsed completely, left-associatively |
| `ExprGrammar.ExprSound` | go-concepts/05-defer-panic-recover/boundaries.go:154-168 | whatever parses was printed by an expression of that value |
| `ExprGrammar.ValueIsUnambiguous` | go-concepts/05-defer-panic-recover/boundaries.go:128-132 | no string prints two expressions of different value |
| `ExprGrammar.QuotientTruncates` | go-concepts/05-defer-panic-recover/boundaries.go:170-188 | division truncates towards zero: the remainder has the sign of the dividend and is smaller than the divisor |
| `ExprGrammar.DigitIff` | go-concepts/05-defer-panic-recover/boundaries.go:198-206 | the digits are the ten from 0 to 9 |
| `ExprGrammar.NumeralEvaluates` | go-concepts/05-defer-panic-recover/boundaries.go:198-206 | the decimal notation of any natural number evaluates to it |
| `ExprGrammar.WithoutNulAllIsExpression` | go-concepts/05-defer-panic-recover/boundaries.go:128-132 | an input without NUL is worth v exactly if the whole of it is an expression of value v and spaces |
| `ExprGrammar.DenotesBeforeNul` | go-concepts/05-defer-panic-recover/boundaries.go:144-152 | what is accepted with value v is an input whose text before the first NUL is an expression of value v and spaces |
| `ExprGrammar.NulIsNoExpression` | go-concepts/05-defer-panic-recover/boundaries.go:128-132 | no expression of the grammar has a NUL in it |
| `ExprGrammar.MeetsGrammarIff` | go-concepts/05-defer-panic-recover/boundaries.go:128-229 | success with exactly the values the grammar gives holds on an input if and only if it has no NUL or the text before its first NUL is refused too |
| `ExprGrammar.NulEndsInput` | go-concepts/05-defer-panic-recover/boundaries.go:218-229 | an expression, spaces, a NUL and anything at all evaluate to the value of the expression, although that is no expression |
| `RingBuffers.Queue.Zero` | dsa/queue/queue.go:24-30 | the zero value is an empty queue without a buffer |
| `RingBuffers.Queue.constructor` | dsa/queue/queue.go:32-37 | an empty queue with room for max(1, capacity) elements |
| `RingBuffers.Queue.Push` | dsa/queue/queue.go:43-51 | appends; the buffer doubles exactly when it was full |
| `RingBuffers.Queue.Grow` | dsa/queue/queue.go:56-68 | twice the room, the same elements in order from slot 0 |
| `RingBuffers.Queue.Pop` | dsa/queue/queue.go:71-89 | removes and returns the front, and zeroes its slot |
| `RingBuffers.Queue.Slice` | dsa/queue/queue.go:114-120 | the elements front to back |
| `RingBuffers.Queue.RemoveFunc` | dsa/queue/queue.go:145-154 | removes the first accepted element and keeps the order of the rest |
| `RingBuffers.Queue.RemoveAt` | dsa/queue/queue.go:158-177 | removes one place, keeps the order of the rest, and zeroes the slot given up |
| `RingBuffers.GapClosed` | dsa/queue/queue.go:158-177 | shifting every later element and zeroing the last slot removes exactly one element and leaves unused slots zero |
| `RingBuffers.PopFront` | dsa/queue/queue.go:71-89 | zeroing the head and advancing it, around the end or not, drops the first element |
| `RingBuffers.PushBack` | dsa/queue/queue.go:43-51 | writing at the tail, around the end or not, appends |
| `RingBuffers.Queue.PushFront` | dsa/queue/matchmake.go:96-105 | puts an element before all others |
| `Matchmaking.Matchmake` | dsa/queue/matchmake.go:70-91 | pairs the front player with the nearest of the same rank behind and removes both, or leaves the queue as it was if there is none |
| `Matchmaking.MatchAll` | dsa/queue/matchmake.go:119-136 | ends; nobody is lost or invented, only equal ranks are paired, no two waiting players have the same rank; within each rank players are paired in the order of arrival, the matches stand in the order their front players came, and those waiting in the order they came but for those who came before the last match, who stand behind |
| `Matchmaking.PairServed` | dsa/queue/matchmake.go:70-136 | pairing the front player with the nearest of the rank keeps every rank in the order of arrival |
| `Matchmaking.ArrivalsMatched` | dsa/queue/matchmake.go:119-136 | a match is made by someone who came later than the front player of every match before, and those passed over stand behind |
| `Matchmaking.AttemptFailed` | dsa/queue/matchmake.go:108-136 | a player sent to the back after a failure has nobody to pair with, and neither have those sent before |
| `Matchmaking.RotateInTurn` | dsa/queue/matchmake.go:128-132 | sending the front to the back keeps the order of arrival but for a rotation |
| `Matchmaking.MatchesAreMost` | dsa/queue/matchmake.go:108-136 | with no two of a rank waiting, no other pairing of the same players makes more matches |
| `Tries.Trie.constructor` | dsa/trie/trie.go:64 | the zero value holds no word |
| `Tries.Trie.Len` | dsa/trie/trie.go:67-72 | the number of words stored |
| `Tries.Trie.Insert` | dsa/trie/trie.go:78-109 | adds the word and reports whether it was new; every node's count is again the number of words below it |
| `Tries.Trie.Find` | dsa/trie/trie.go:112-126 | the node at the end of the path, or none |
| `Tries.Trie.Contains` | dsa/trie/trie.go:133-136 | membership in the set of words |
| `Tries.Trie.HasPrefix` | dsa/trie/trie.go:142-145 | whether some word starts with the prefix |
| `Tries.Trie.Count` | dsa/trie/trie.go:152-158 | how many words start with the prefix |
| `Tries.Trie.WordsWithPrefix` | dsa/trie/trie.go:181-195 | every word with the prefix, each once, as many as Count says |
| `Tries.Trie.Collect` | dsa/trie/trie.go:217-233 | the words of a subtree, each once, whatever the order of the children |
| `Tries.Trie.Delete` | dsa/trie/trie.go:248-284 | removes the word and reports whether it was there; counts are exact and every node but the root again leads to a word |
| `Tries.Trie.Prune` | dsa/trie/trie.go:273-281 | unlinks dead nodes from the end of the path and stops at the first that is needed |
| `Tries.Trie.Match` | dsa/trie/trie.go:293-298 | whether some word fits the pattern, a dot standing for any one character |
| `Tries.Trie.MatchFrom` | dsa/trie/trie.go:300-319 | whether some word goes on from the node as the pattern says |
| `Tries.Trie.LongestPrefixOf` | dsa/trie/trie.go:326-358 | the longest word the input starts with, if any |
| `Tries.WordsDetermineTree` | dsa/trie/trie.go:39-51 | two valid tries with the same words have the same paths, flags, counts and links |
| `Tries.InsertThenDelete` | dsa/trie/trie.go:78-284 | inserting a new word and deleting it again restores the paths, flags, counts and links if and only if there was a root before; otherwise an empty root stays |
| `Tries.DeleteThenInsert` | dsa/trie/trie.go:78-284 | deleting a word and inserting it again always restores the paths, flags, counts and links |
| `Tries.PruningStops` | dsa/trie/trie.go:273-281 | at the first node still needed everything above it is needed too |
| `Tries.FitsStep` | dsa/trie/trie.go:300-319 | a pattern is met below a node exactly if its tail is met below a child its first character allows |
| `Searching.Partition` | dsa/searching/searching.go:53-77 | a place where the predicate turns from false to true, whatever the predicate, and 0 exactly if it holds at n/2, n/4 and so on; for a monotone predicate the only such place |
| `Searching.LowerBound` | dsa/searching/searching.go:86-88 | everything before is smaller, nothing from there on is |
| `Searching.BinarySearch` | dsa/searching/searching.go:99-102 | the lower bound, and whether the target occurs |
| `Searching.Exponential` | dsa/searching/searching.go:153-177 | the lower bound, and whether the target occurs: the same answers |
| `Searching.LowerBoundIsUnique` | dsa/searching/searching.go:86-177 | the lower bound is unique, so the two searches return the same index |
| `Searching.SearchRotated` | dsa/searching/rotated.go:27-70 | in any rotation of a sorted slice, duplicates included, an index of the target exactly if it occurs |
| `Searching.LeftHalf` | dsa/searching/rotated.go:50-58 | if the left half starts no higher than it ends and not all three probes are equal it is sorted, and one range check decides |
| `Searching.RightHalf` | dsa/searching/rotated.go:61-66 | otherwise the right half is sorted, and one range check decides |
| `Searching.RotationPoint` | dsa/searching/rotated.go:72-95 | in any rotation of a sorted slice the index of a smallest element if and only if the first element is one or some element at n/2, n/4 and so on is above the last; always if no element at the boundary repeats; 0 if nothing was rotated |
| `Searching.RotationPointMissed` | dsa/searching/rotated.go:72-95 | a rotated slice of four for which it is not |
| `Searching.FindPeak` | dsa/searching/rotated.go:114-120 | an index no smaller than its left neighbour and greater than its right one |
| `Searching.PeakIsStrict` | dsa/searching/rotated.go:97-120 | without equal neighbours it is a strict peak |
| `SearchAnswers.MidpointIsAverage` | dsa/searching/rotated.go:175-182 | unsigned wrap-around cancels out: the average rounded down, for every lo <= hi of 64 bits |
| `SearchAnswers.SearchAnswer` | dsa/searching/rotated.go:145-173 | without any overflow in the full 64-bit range, the least value that satisfies a monotone predicate, if there is one |

## Left out

- The text of the parser's error messages; reason and position are modelled.
- Library code: `container/heap`, `maphash`, `strconv` (a literal too large for an int saturates there), `slices.Sort`, `unicode/utf8`, `iter`; an iterator is the sequence it yields when nobody stops it early.
- Machine-integer overflow outside `SearchAnswer` and `CountSubsetSums`; the arithmetic of `Eval` is unbounded.
- Trie words as bytes: invalid UTF-8 and byte offsets are not modelled.
- `Tries.Trie.WordsWithPrefix`: says nothing about the order, because children come up in map order; sorting them in `Complete` is library code.
- Red-black `Min`, `Max`, `Floor`, `Ceiling`, `Range`, `Keys`, `All`: walks without mutation, easier than `Get` and `MinNode`.
- `BFS`, `BFSLevels`, `ShortestPath`, `Components`, `IsConnected`, `EdgeCount`: easier than the searches and distances that are modelled.
- `TwoOpts.TwoOpt`: symmetric matrices only, which is what the source promises; on others the constant-time difference is not the change of the length.
- `TSPNearestNeighbour` and its variants, `TourCount`, `SubsetCount`, `Points`, floating-point load and spread: easier or approximate.
- `BubbleFunc`, `SelectionFunc`, `bst`, `linkedlist`, `stack`, `matrix.go`: easier versions of what is modelled.
- `UpperBound`, `Last`, `Count`, `Range` and `Linear`: easy on top of `Partition`.
- `HashMaps.HashMap.Probe`: does not model the probe counter, which no answer depends on.
- A negative number of workers, which makes the wait group panic, and `Summarise`, which only folds results.
- The recursion `quickSort` counts nesting and partitions per element in ghost results; comparisons and time are not counted.
- The map returned by the breadth-first and Dijkstra tables as Go maps: iteration order is not modelled.
- The flat cost and parent tables of the Held-Karp program are arrays as in the source; its bit operations are arithmetic on naturals.
- All `String` and `Describe` renderers, deprecated aliases, benchmarks, and the rest of `go-concepts/`.
