# MST edge removal and replacement, in Dafny

A model of the algorithmic core of a small Java program. The program builds a
minimum spanning tree with Kruskal's algorithm over a union-find, removes one
tree edge, finds the two components that are left, and scans the graph for
the cheapest edge that reconnects them.

The model has five modules, one per concept of the program, plus a proof
that the selection is minimal, the driver's edge swap and the driver run:

- `Edges` (`edge.dfy`) models `Edge`:
  - the immutable `(source, destination, weight)` record;
  - `compareTo` as the sign of the weight difference;
  - `equals` as unordered endpoint equality (`SameEndpoints`), which ignores the weight;
  - `hashCode` as the `(min, max)` key it hashes.
- `UnionFinds` (`union_find.dfy`) models `UnionFind`:
  - `parent`/`rank` arrays with the invariant `rank[i] < rank[parent[i]]` for every non-root, which also bounds the recursion of `find`;
  - a ghost `Root` map from each element to its representative;
  - `find` with full path compression, `union` by rank and `connected`.
- `EdgeSorting` (`sorting.dfy`) models `Collections.sort` on the edge list. It is a stable sort by weight, written as an insertion sort.
- `Forests` (`forest.dfy`) holds the graph-theoretic reference definitions the operations are checked against:
  - `Linked`: connectivity through a list of edges;
  - `Acyclic`: a forest;
  - `Subseq`;
  - `Without`: the list minus every edge endpoint-equal to a removed one;
  - `Greedy`: Kruskal's selection rule stated directly.
- `Graphs` (`graph.dfy`) models `Graph`:
  - `addEdge`;
  - `buildMST` (with its loop in `Kruskal`);
  - `findComponentsAfterRemoval` (loop in `Replay`);
  - `findReplacementEdge` (loop in `Scan`, one step in `Consider`);
  - `calculateMSTWeight`.
- `Optimality` (`optimal.dfy`) proves the "minimum" in the name of `buildMST`: no spanning forest of the graph's edges weighs less than what it returns. The argument counts union-find classes:
  - replaying a forest of `k` edges over `n` vertices leaves exactly `n - k` classes, and any other list leaves at least that many;
  - a finer partition has at least as many classes;
  - hence no forest inside the span of a list has more edges than Kruskal's selection from it;
  - applied to the edges no heavier than a threshold, this bounds Kruskal's `i`-th edge by the `i`-th lightest edge of any spanning forest, position by position.
- `Swaps` (`swap.dfy`) models the driver's steps on any graph:
  - `List.remove` as `RemoveFirst`;
  - the swap of the tree's middle edge for the search's answer (`SwapMiddleEdge`, split at the tree into `SwapOut`);
  - the property that the new list is again a spanning forest of the graph, of the same size, whose weight changes by the difference of the two edges (`SwapKeepsSpanning`).
- `Demo` (`demo.dfy`) is the driver's run on its six-vertex, nine-edge graph. It shows:
  - the tree `(0,1,1) (1,2,2) (4,5,3) (1,3,4) (2,4,6)` of weight 16;
  - the removed middle edge `(4,5,3)`;
  - the replacement `(2,5,8)`;
  - the new weight 21.

Design decisions:

- **Value objects.** The Java objects mutate their arrays and lists in place. The model threads them as values instead:
  - `Find`, `Connected` and `Union` return the compressed or linked union-find together with their answer;
  - `BuildMst` returns the graph with its edge list re-ordered;
  - the loops are methods over `seq`.
- **Sorting the graph's own list.** `buildMST` sorts the graph's own list in place (`Graph.java:30`), not a copy, so the removal and the replacement search see the sorted order. The model follows this: `BuildMst` returns the re-sorted graph, and the removal and the replacement search run on it.
- **Skipping endpoint-equal edges.** The replacement scan and the component replay skip every edge endpoint-equal to the removed one, including parallel edges of other weights. The model keeps this behaviour.
- **No replacement although the graph stays connected.** Because of that skipping, the search can answer nothing even when the removed edge is not a bridge: on two vertices joined by the parallel edges `(0,1,5) (0,1,2) (0,1,8)`, the tree is `(0,1,2)`, every edge is `equals` to it, and no replacement is found although the two other edges still join the vertices (`Demo.ParallelScenario`). In general, when the search answers nothing, every graph edge is either `equals` to the removed one or already inside one component (`Swaps.SwapMiddleEdge`).

## Model

| member | source | states |
|---|---|---|
| Edges.CompareTo | src/main/java/com/mst/Edge.java:32-34 | the comparison is negative, zero or positive exactly when the first weight is below, equal to or above the second: edges are ordered by weight alone |
| Edges.SameEndpointsIsEndpointMultisetEquality | src/main/java/com/mst/Edge.java:41-42 | two edges are `equals` iff their endpoint pairs are equal as unordered pairs (multisets of two vertices) |
| Edges.SameEndpointsIgnoresWeight | src/main/java/com/mst/Edge.java:41-42 | changing either edge's weight never changes whether the two are `equals` |
| Edges.SameEndpointsIsEquivalence | src/main/java/com/mst/Edge.java:37-43 | `equals` is reflexive, symmetric and transitive |
| Edges.HashKey | src/main/java/com/mst/Edge.java:45-48 | the hashed key is the ordered pair (smaller endpoint, larger endpoint): the same two vertices whichever way round the edge was written |
| Edges.SameEndpointsIffSameHashKey | src/main/java/com/mst/Edge.java:41-48 | equal edges hash equally, and edges with the same hash key are equal |
| Edges.OrderingInconsistentWithEquality | src/main/java/com/mst/Edge.java:32-42 | there are two edges that are `equals` yet do not compare as equal |
| UnionFinds.Init | src/main/java/com/mst/UnionFind.java:11-18 | a fresh structure over `n` elements is valid, has `parent[i] == i` and `rank[i] == 0` everywhere, so every element is its own class and there are `n` roots |
| UnionFinds.Find | src/main/java/com/mst/UnionFind.java:23-28 | returns the representative of `x` (a root), keeps the invariant and the ranks, changes no element's representative, and leaves `x` pointing straight at its root |
| UnionFinds.FindCompressesPath | src/main/java/com/mst/UnionFind.java:24-27 | after `find(x)` every element on the parent chain from `x` points at the root, and every other parent is as before |
| UnionFinds.OnPathSameRoot | src/main/java/com/mst/UnionFind.java:23-28 | every element on the chain from `x` has the representative of `x`, so compressing the chain relinks nothing across classes |
| UnionFinds.FindIdempotent | src/main/java/com/mst/UnionFind.java:23-28 | finding the representative again after a `find` returns the same root and changes nothing: `find(find(x)) == find(x)` |
| UnionFinds.RootSetFollowsRoots | src/main/java/com/mst/UnionFind.java:23-28 | a structure with the same representatives has the same set of roots, so path compression never changes the number of classes |
| UnionFinds.Connected | src/main/java/com/mst/UnionFind.java:57-59 | answers whether `x` and `y` have the same representative, symmetrically in `x` and `y`, keeping every representative |
| UnionFinds.Union | src/main/java/com/mst/UnionFind.java:34-52 | returns true iff the roots differ. If they are equal, no representative changes. Otherwise the root of lower rank is hung under the other, with `rootY` under `rootX` on a tie; exactly its class moves to the other root. The rank of `rootX` grows by one on a tie and no other rank changes; the invariant holds afterwards |
| UnionFinds.UnionJoinsClasses | src/main/java/com/mst/UnionFind.java:43-51 | after `union(x, y)`, `x` and `y` are connected, and two elements are connected iff they were, or one was with `x` and the other with `y` |
| UnionFinds.UnionRoots | src/main/java/com/mst/UnionFind.java:38-51 | a merging `union` removes exactly the losing root from the set of roots (one class fewer); a non-merging one removes none |
| Graphs.AddEdge | src/main/java/com/mst/Graph.java:20-22 | the list grows by exactly one edge, `(source, destination, weight)`, at the end; the earlier edges and the vertex count are unchanged |
| EdgeSorting.InsertSorted | src/main/java/com/mst/Graph.java:30 | inserting into a sorted list keeps it sorted and adds exactly the one edge |
| EdgeSorting.InsertIsStable | src/main/java/com/mst/Graph.java:30 | insertion puts the edge ahead of the equal-weight edges already there and leaves every equal-weight subsequence otherwise as it was |
| EdgeSorting.SortByWeightIsStableSort | src/main/java/com/mst/Graph.java:30 | the sort returns a permutation of its input, non-decreasing in weight, whose equal-weight subsequences are those of the input: a stable sort |
| EdgeSorting.StableSortIsUnique | src/main/java/com/mst/Graph.java:30 | any two sorted lists with the same equal-weight subsequences are equal, so every stable sort by weight gives the same order |
| Graphs.UnionTracksEdge | src/main/java/com/mst/Graph.java:35 | a union-find whose classes are the components of a list of edges gets the components of that list plus the edge from `union`, and it merges iff the edge's endpoints were not yet joined |
| Graphs.Kruskal | src/main/java/com/mst/Graph.java:32-41 | the loop selects exactly the edges Kruskal's rule selects (`Greedy`), stopping at `vertices - 1` edges without changing the result, and selects at most `vertices - 1` edges |
| Forests.GreedyIsSpanningForest | src/main/java/com/mst/Graph.java:34-41 | Kruskal's selection is an acyclic subsequence of the list that joins the endpoints of every edge of the list |
| Forests.GreedyKeepsConnectivity | src/main/java/com/mst/Graph.java:34-41 | the selection connects two vertices iff the whole list does |
| Forests.GreedySaturated | src/main/java/com/mst/Graph.java:37-38 | once the selection joins all vertices, the remaining edges add nothing, which makes the early `break` harmless |
| Graphs.KruskalOutcome | src/main/java/com/mst/Graph.java:29-43 | Kruskal's selection over a sorted permutation of the edges is a subsequence of the sorted list, non-decreasing in weight, acyclic, and has the graph's connectivity |
| Graphs.ReplayDetectsForest | src/main/java/com/mst/Graph.java:35-36 | replaying a list into a fresh union-find, every `union` returns true iff the list is a forest |
| Graphs.BuildMst | src/main/java/com/mst/Graph.java:28-44 | the graph's list becomes a stable weight-sorted permutation of itself. The result is Kruskal's selection from it: a subsequence non-decreasing in weight, at most `vertices - 1` edges, a forest, every `union` merging when replayed, joining the endpoints of every graph edge and connecting exactly what the graph connects |
| Forests.Without | src/main/java/com/mst/Graph.java:55-58 | an edge is kept iff it was in the list and is not endpoint-equal to the removed edge |
| Forests.ForestHasNoParallelEdges | src/main/java/com/mst/Graph.java:55-58 | two different positions of a forest never hold endpoint-equal edges, so skipping by `equals` drops at most one tree edge |
| Forests.RemoveTreeEdge | src/main/java/com/mst/Graph.java:55-58 | removing an edge that the forest contains drops exactly that one position and leaves a forest |
| Graphs.Replay | src/main/java/com/mst/Graph.java:53-59 | the loop's union-find has the components of the tree minus the skipped edges |
| Graphs.ComponentsAfterRemoval | src/main/java/com/mst/Graph.java:52-62 | two vertices are connected iff tree edges that are not endpoint-equal to the removed edge join them. When the removed edge belongs to an acyclic tree there is exactly one component more than the tree had |
| Graphs.Consider | src/main/java/com/mst/Graph.java:75-84 | one scan step: the edge becomes the replacement iff it is not endpoint-equal to the removed edge, joins two components, and is strictly lighter than the replacement so far (or there is none) |
| Graphs.Scan | src/main/java/com/mst/Graph.java:73-85 | after the loop the answer is empty iff no edge is a candidate, and otherwise is a candidate of least weight, the first among equals; representatives are unchanged |
| Graphs.ScanDone | src/main/java/com/mst/Graph.java:70-87 | what the scan keeps is the first cheapest candidate, or nothing exactly when there is no candidate |
| Graphs.FindReplacementEdge | src/main/java/com/mst/Graph.java:70-88 | returns nothing iff no graph edge is both not endpoint-equal to the removed edge and between two components; otherwise returns such an edge of minimum weight, the earliest in list order among those of that weight |
| Graphs.TotalWeightAppend | src/main/java/com/mst/Graph.java:93-99 | the total weight of a concatenation is the sum of the totals |
| Graphs.CalculateMstWeight | src/main/java/com/mst/Graph.java:93-99 | the loop returns the sum of the weights of the list |
| Optimality.BuildMstIsMinimal | src/main/java/com/mst/Graph.java:24-44 | what `buildMST` returns is a spanning forest of the graph's edges, and weighs no more than any spanning forest of them: it is a minimum spanning tree, as the doc comment claims |
| Optimality.KruskalIsMinimal | src/main/java/com/mst/Graph.java:30-41 | Kruskal's selection from a weight-sorted list weighs no more than any forest of the list's edges that links the endpoints of every edge |
| Optimality.KruskalLighterAt | src/main/java/com/mst/Graph.java:34-41 | the `i`-th edge the loop keeps is no heavier than the `i`-th lightest edge of any forest of the list's edges |
| Optimality.ForestNoLargerThanGreedy | src/main/java/com/mst/Graph.java:34-41 | no forest whose edges a list links has more edges than the loop keeps from that list |
| Optimality.GreedyPrefixOf | src/main/java/com/mst/Graph.java:34-41 | what the loop keeps from a prefix of the list is a prefix of what it keeps from the whole list |
| Optimality.GreedyOfForest | src/main/java/com/mst/Graph.java:34-41 | on a forest the loop keeps every edge |
| Optimality.ReplayedTracks | src/main/java/com/mst/UnionFind.java:34-52 | a fresh union-find after `union` on every edge of a list has exactly the classes the list links |
| Optimality.ReplayedRootCount | src/main/java/com/mst/UnionFind.java:34-52 | after `union` on the edges of a list, at least `n` minus its length classes remain, exactly that many iff the list is a forest |
| Optimality.RefinementHasMoreRoots | src/main/java/com/mst/UnionFind.java:23-28 | a union-find whose classes refine another's has at least as many roots |
| Optimality.TotalWeightPermutation | src/main/java/com/mst/Graph.java:93-99 | the total weight does not depend on the order of the edges |
| Optimality.PairwiseLighter | src/main/java/com/mst/Graph.java:93-99 | a list lighter than another of the same length at every position has a total weight no larger |
| Optimality.ConnectedForestSize | src/main/java/com/mst/Graph.java:34-41 | a forest that joins every two of the `n > 0` vertices has exactly `n - 1` edges |
| Optimality.SizedForestConnected | src/main/java/com/mst/Graph.java:34-41 | a forest of `n - 1` edges over `n > 0` vertices joins every two of them |
| Optimality.ForestSizeDetectsConnectivity | src/main/java/com/mst/Graph.java:34-41 | a forest over `n > 0` vertices has `n - 1` edges iff it joins every two vertices |
| Optimality.AllSameOneRoot | src/main/java/com/mst/UnionFind.java:57-59 | a union-find in which `connected` holds for every pair has a single root |
| Optimality.BuildMstSizeDetectsConnectivity | src/main/java/com/mst/Graph.java:28-44 | what `buildMST` returns has at most `vertices - 1` edges, exactly `vertices - 1` iff the graph joins every two vertices, so a shorter tree means a disconnected graph |
| Swaps.SwapJoinsRemovedEnds | src/main/java/com/mst/Main.java:88-90 | after the swap, the endpoints of the removed edge are joined again through the replacement |
| Swaps.SwapWeight | src/main/java/com/mst/Main.java:88-90 | swapping one edge for another changes the total weight by the difference of their weights |
| Swaps.SwapKeepsSpanning | src/main/java/com/mst/Main.java:88-90 | for a tree edge and any candidate the search may return, `List.remove` then `add` gives the tree minus every endpoint-equal edge plus the candidate; it is a forest, it has the tree's size, it joins exactly what the graph joins, and its weight changes by the candidate's weight minus the removed one's |
| Swaps.NoCandidateMeansCovered | src/main/java/com/mst/Graph.java:73-85 | when no edge is a candidate, every edge not `equals` to the removed one lies inside one component |
| Swaps.SwapOut | src/main/java/com/mst/Main.java:62-92 | removing the middle edge of a spanning forest and searching: either no edge outside the `equals` class of the removed edge crosses the two components, or the answer is such a crossing graph edge, and the new tree is a same-size forest joining exactly what the graph joins |
| Swaps.SwapMiddleEdge | src/main/java/com/mst/Main.java:48-92 | the driver's steps on any graph: an empty tree gives no replacement and no new tree; a new tree exists iff a replacement is found, and then it is a same-size spanning forest of the graph whose weight changes by the two edges' difference |
| Demo.ParallelAnswer | src/main/java/com/mst/Graph.java:73-77 | in a tree of parallel edges every edge is `equals` to the removed one, so the search cannot answer |
| Demo.ParallelStaysConnected | src/main/java/com/mst/Main.java:88-89 | any two of the three parallel edges still join the two vertices |
| Demo.ParallelScenario | src/main/java/com/mst/Main.java:48-78 | on the parallel-edge graph the tree is non-empty and the search answers nothing, although removing the tree edge leaves the graph connected |
| Swaps.RemoveFirstCutsFirstMatch | src/main/java/com/mst/Main.java:88-89 | `List.remove` cuts out exactly the first element that is `equals` to the argument |
| Swaps.RemoveFirstWithoutMatch | src/main/java/com/mst/Main.java:88-89 | `List.remove` leaves the list unchanged when no element is `equals` to the argument |
| Swaps.RemoveFirstIsWithout | src/main/java/com/mst/Main.java:88-89 | when exactly one element is `equals` to the argument, `List.remove` and the skip-all filter of `findComponentsAfterRemoval` agree |
| Demo.SortedDemo | src/main/java/com/mst/Main.java:27-48 | the stable sort of the driver's nine edges is `(0,1,1) (1,2,2) (4,5,3) (1,3,4) (0,3,5) (2,4,6) (1,4,7) (2,5,8) (3,4,9)` |
| Demo.GreedyDemo | src/main/java/com/mst/Main.java:48 | Kruskal's rule selects `(0,1,1) (1,2,2) (4,5,3) (1,3,4) (2,4,6)` from them |
| Demo.RemainingComponents | src/main/java/com/mst/Main.java:62-69 | without `(4,5,3)` the tree splits into `{0,1,2,3,4}` and `{5}` |
| Demo.ReplacementDemo | src/main/java/com/mst/Main.java:76 | on those components the search must answer `(2,5,8)` |
| Demo.DriverTree | src/main/java/com/mst/Main.java:48 | `buildMST` on the driver's graph re-orders its edges to the sorted list and returns the five-edge tree |
| Demo.DriverRemoval | src/main/java/com/mst/Main.java:62-69 | the middle tree edge is `(4,5,3)`, and the union-find after its removal has the components of the other four tree edges |
| Demo.DriverReplacement | src/main/java/com/mst/Main.java:76 | `findReplacementEdge` returns `(2,5,8)` |
| Demo.Scenario | src/main/java/com/mst/Main.java:27-99 | the driver's run: the tree weighs 16, `(4,5,3)` is removed, `(2,5,8)` replaces it and the new tree weighs 21 |

## Left out

- The `Edge` constructor and getters are the fields of an immutable datatype. What is stored is what is read, by construction, so no lemma states it.
- `Edge.toString`, `Graph.displayComponents`, `Graph.displayEdges` and all of `Main`'s printing are console output with no logic to verify.
- Edges.HashKey: models the `(min, max)` pair that `Objects.hash` is applied to, not the numeric value of Java's hash arithmetic.
- Graphs.CalculateMstWeight: sums with unbounded integers. Java's `int` accumulator wraps around at 2^31, which the model does not reproduce; for the small weights the program uses the two agree.
- Graphs.BuildMst: requires every graph edge to lie within the vertices. Java touches only the edges before its early `break`, so a graph whose out-of-range edges all come after the tree is complete returns normally there; the model does not cover such graphs.
- Graphs.ComponentsAfterRemoval: requires every tree edge to lie within the vertices, though Java never passes an edge `equals` to the removed one to `union`. A `null` removed edge is not modelled either: `equals(null)` is false, so Java would then replay every tree edge.
- Graphs.FindReplacementEdge: requires every graph edge to lie within the vertices and the union-find to have exactly `vertices` elements. Java only needs the edges it passes to `connected` to fit the union-find's arrays, and it never looks up an edge `equals` to the removed one. A `null` removed edge is not modelled: `equals(null)` is false, so Java would then skip nothing, while the model always takes an edge.
- Swaps.SwapKeepsSpanning: proves that the new tree is a spanning forest of the graph with the stated weight, not that it weighs least among the spanning forests that avoid the removed edge.
- Other out-of-range vertex indices are preconditions (`InRange`, index bounds) rather than modelled `ArrayIndexOutOfBoundsException` failures.
- The vertex count is a `nat`. A negative count makes `new int[size]` throw in Java, so that case is not modelled.
- Recursion depth and the amortised cost of path compression are performance properties, not behaviour.
- Demo.Scenario: does not replay the driver's `mst.isEmpty()` exit and `replacementEdge != null` test as branches, since on its graph it proves the tree non-empty and the replacement present. `Swaps.SwapMiddleEdge` models both branches on any graph.
