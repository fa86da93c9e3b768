/**
  The demonstration run: the six-vertex, nine-edge graph of the driver
  program, its minimum spanning tree, the removal of the middle tree edge
  and the search for the edge that replaces it.
 */
module Demo {
  import opened Edges
  import opened EdgeSorting
  import opened UnionFinds
  import opened Forests
  import opened Graphs
  import opened Swaps

  const Added: seq<Edge> := [
    Edge(0, 1, 1), Edge(0, 3, 5), Edge(1, 2, 2), Edge(1, 3, 4), Edge(1, 4, 7),
    Edge(2, 4, 6), Edge(2, 5, 8), Edge(3, 4, 9), Edge(4, 5, 3)]

  /** The same edges after the stable sort by weight. */
  const SortedEdges: seq<Edge> := [
    Edge(0, 1, 1), Edge(1, 2, 2), Edge(4, 5, 3), Edge(1, 3, 4), Edge(0, 3, 5),
    Edge(2, 4, 6), Edge(1, 4, 7), Edge(2, 5, 8), Edge(3, 4, 9)]

  /** The tree Kruskal's rule selects from them. */
  const Tree: seq<Edge> := [Edge(0, 1, 1), Edge(1, 2, 2), Edge(4, 5, 3), Edge(1, 3, 4), Edge(2, 4, 6)]

  /** The tree without its middle edge `(4, 5, 3)`. */
  const Remaining: seq<Edge> := [Edge(0, 1, 1), Edge(1, 2, 2), Edge(1, 3, 4), Edge(2, 4, 6)]

  /** One step of the insertion sort. */
  lemma SortStep(e: Edge, rest: seq<Edge>, t: seq<Edge>)
    requires SortByWeight(rest) == t
    ensures SortByWeight([e] + rest) == Insert(e, t)
  {
    assert ([e] + rest)[1..] == rest;
  }

  // The insertion sort of the driver's edges, one inserted edge at a time:
  // `AddedFrom<k>` holds the added edges from index `k` on, `SortedFrom<k>`
  // the same edges sorted, and `SortsFrom<k>` proves the one from the other.

  const AddedFrom9: seq<Edge> := []
  const AddedFrom8: seq<Edge> := [Edge(4, 5, 3)] + AddedFrom9
  const AddedFrom7: seq<Edge> := [Edge(3, 4, 9)] + AddedFrom8
  const AddedFrom6: seq<Edge> := [Edge(2, 5, 8)] + AddedFrom7
  const AddedFrom5: seq<Edge> := [Edge(2, 4, 6)] + AddedFrom6
  const AddedFrom4: seq<Edge> := [Edge(1, 4, 7)] + AddedFrom5
  const AddedFrom3: seq<Edge> := [Edge(1, 3, 4)] + AddedFrom4
  const AddedFrom2: seq<Edge> := [Edge(1, 2, 2)] + AddedFrom3
  const AddedFrom1: seq<Edge> := [Edge(0, 3, 5)] + AddedFrom2
  const AddedFrom0: seq<Edge> := [Edge(0, 1, 1)] + AddedFrom1

  const SortedFrom9: seq<Edge> := []
  const SortedFrom8: seq<Edge> := [Edge(4, 5, 3)]
  const SortedFrom7: seq<Edge> := [Edge(4, 5, 3), Edge(3, 4, 9)]
  const SortedFrom6: seq<Edge> := [Edge(4, 5, 3), Edge(2, 5, 8), Edge(3, 4, 9)]
  const SortedFrom5: seq<Edge> := [Edge(4, 5, 3), Edge(2, 4, 6), Edge(2, 5, 8), Edge(3, 4, 9)]
  const SortedFrom4: seq<Edge> := [
      Edge(4, 5, 3), Edge(2, 4, 6), Edge(1, 4, 7), Edge(2, 5, 8),
      Edge(3, 4, 9)]
  const SortedFrom3: seq<Edge> := [
      Edge(4, 5, 3), Edge(1, 3, 4), Edge(2, 4, 6), Edge(1, 4, 7),
      Edge(2, 5, 8), Edge(3, 4, 9)]
  const SortedFrom2: seq<Edge> := [
      Edge(1, 2, 2), Edge(4, 5, 3), Edge(1, 3, 4), Edge(2, 4, 6),
      Edge(1, 4, 7), Edge(2, 5, 8), Edge(3, 4, 9)]
  const SortedFrom1: seq<Edge> := [
      Edge(1, 2, 2), Edge(4, 5, 3), Edge(1, 3, 4), Edge(0, 3, 5),
      Edge(2, 4, 6), Edge(1, 4, 7), Edge(2, 5, 8), Edge(3, 4, 9)]
  const SortedFrom0: seq<Edge> := [
      Edge(0, 1, 1), Edge(1, 2, 2), Edge(4, 5, 3), Edge(1, 3, 4),
      Edge(0, 3, 5), Edge(2, 4, 6), Edge(1, 4, 7), Edge(2, 5, 8),
      Edge(3, 4, 9)]

  lemma SortsFrom9()
    ensures SortByWeight(AddedFrom9) == SortedFrom9
  {
  }

  lemma SortsFrom8()
    ensures SortByWeight(AddedFrom8) == SortedFrom8
  {
    SortsFrom9();
    SortStep(Edge(4, 5, 3), AddedFrom9, SortedFrom9);
  }

  lemma SortsFrom7()
    ensures SortByWeight(AddedFrom7) == SortedFrom7
  {
    SortsFrom8();
    SortStep(Edge(3, 4, 9), AddedFrom8, SortedFrom8);
  }

  lemma SortsFrom6()
    ensures SortByWeight(AddedFrom6) == SortedFrom6
  {
    SortsFrom7();
    SortStep(Edge(2, 5, 8), AddedFrom7, SortedFrom7);
  }

  lemma SortsFrom5()
    ensures SortByWeight(AddedFrom5) == SortedFrom5
  {
    SortsFrom6();
    SortStep(Edge(2, 4, 6), AddedFrom6, SortedFrom6);
  }

  lemma SortsFrom4()
    ensures SortByWeight(AddedFrom4) == SortedFrom4
  {
    SortsFrom5();
    SortStep(Edge(1, 4, 7), AddedFrom5, SortedFrom5);
  }

  lemma SortsFrom3()
    ensures SortByWeight(AddedFrom3) == SortedFrom3
  {
    SortsFrom4();
    SortStep(Edge(1, 3, 4), AddedFrom4, SortedFrom4);
  }

  lemma SortsFrom2()
    ensures SortByWeight(AddedFrom2) == SortedFrom2
  {
    SortsFrom3();
    SortStep(Edge(1, 2, 2), AddedFrom3, SortedFrom3);
  }

  lemma SortsFrom1()
    ensures SortByWeight(AddedFrom1) == SortedFrom1
  {
    SortsFrom2();
    SortStep(Edge(0, 3, 5), AddedFrom2, SortedFrom2);
  }

  lemma SortsFrom0()
    ensures SortByWeight(AddedFrom0) == SortedFrom0
  {
    SortsFrom1();
    SortStep(Edge(0, 1, 1), AddedFrom1, SortedFrom1);
  }

  /** The suffixes start from the whole list, sorted to `SortedEdges`. */
  lemma AddedFromStart()
    ensures AddedFrom0 == Added && SortedFrom0 == SortedEdges
  {
  }

  /** Every stable sort of the driver's edges gives `SortedEdges`. */
  lemma SortedDemo(es: seq<Edge>)
    requires Sorted(es) && forall w :: WithWeight(es, w) == WithWeight(Added, w)
    ensures es == SortedEdges
  {
    assert SortByWeight(Added) == SortedEdges by {
      SortsFrom0();
      AddedFromStart();
    }
    SortByWeightIsStableSort(Added);
    StableSortIsUnique(es, SortByWeight(Added));
  }

  /** `p` joins `a` and `b` through `c`. */
  lemma LinkedVia(p: seq<Edge>, a: int, c: int, b: int)
    requires Linked(p, a, c) && Linked(p, c, b)
    ensures Linked(p, a, b)
  {
    LinkedTransitive(p);
  }

  /** Kruskal's rule keeps an edge whose endpoints carry different tags, the
      tags being constant on every edge kept so far. */
  lemma Keeps(e: Edge, es: seq<Edge>, kept: seq<Edge>, tags: seq<int>)
    requires Greedy(es) == kept
    requires forall x :: x in kept ==>
      0 <= x.source < |tags| && 0 <= x.destination < |tags| && tags[x.source] == tags[x.destination]
    requires 0 <= e.source < |tags| && 0 <= e.destination < |tags| && tags[e.source] != tags[e.destination]
    ensures Greedy(es + [e]) == kept + [e]
  {
    GreedySnoc(es, e);
    LinkedWithinLabels(kept, tags);
  }

  /** Kruskal's rule skips an edge whose endpoints are already joined. */
  lemma Skips(e: Edge, es: seq<Edge>, kept: seq<Edge>)
    requires Greedy(es) == kept && Linked(kept, e.source, e.destination)
    ensures Greedy(es + [e]) == kept
  {
    GreedySnoc(es, e);
  }

  /** The tree joins every vertex to every other. */
  lemma TreeJoinsAll()
    ensures forall a, b :: 0 <= a < 6 && 0 <= b < 6 ==> Linked(Tree, a, b)
  {
    var t := Tree;
    LinkedEdge(t, t[0]);
    LinkedEdge(t, t[1]);
    LinkedEdge(t, t[2]);
    LinkedEdge(t, t[3]);
    LinkedEdge(t, t[4]);
    LinkedSymmetric(t);
    LinkedReflexive(t);
    LinkedVia(t, 0, 1, 2);
    LinkedVia(t, 0, 1, 3);
    LinkedVia(t, 0, 2, 4);
    LinkedVia(t, 0, 4, 5);
    forall a, b | 0 <= a < 6 && 0 <= b < 6
      ensures Linked(t, a, b)
    {
      LinkedVia(t, a, 0, b);
    }
  }

  // Kruskal's rule over the sorted edges, one edge at a time:
  // `SortedUpTo<k>` holds the first `k` sorted edges, `KeptUpTo<k>` what the
  // rule keeps of them, and `KeepsUpTo<k>` proves the one from the other.
  // The tags tell apart the groups a kept edge joins; a skipped edge closes
  // a path of kept edges.

  const SortedUpTo0: seq<Edge> := []
  const SortedUpTo1: seq<Edge> := SortedUpTo0 + [Edge(0, 1, 1)]
  const SortedUpTo2: seq<Edge> := SortedUpTo1 + [Edge(1, 2, 2)]
  const SortedUpTo3: seq<Edge> := SortedUpTo2 + [Edge(4, 5, 3)]
  const SortedUpTo4: seq<Edge> := SortedUpTo3 + [Edge(1, 3, 4)]
  const SortedUpTo5: seq<Edge> := SortedUpTo4 + [Edge(0, 3, 5)]
  const SortedUpTo6: seq<Edge> := SortedUpTo5 + [Edge(2, 4, 6)]
  const SortedUpTo7: seq<Edge> := SortedUpTo6 + [Edge(1, 4, 7)]
  const SortedUpTo8: seq<Edge> := SortedUpTo7 + [Edge(2, 5, 8)]
  const SortedUpTo9: seq<Edge> := SortedUpTo8 + [Edge(3, 4, 9)]

  const KeptUpTo0: seq<Edge> := []
  const KeptUpTo1: seq<Edge> := [Edge(0, 1, 1)]
  const KeptUpTo2: seq<Edge> := [Edge(0, 1, 1), Edge(1, 2, 2)]
  const KeptUpTo3: seq<Edge> := [Edge(0, 1, 1), Edge(1, 2, 2), Edge(4, 5, 3)]
  const KeptUpTo4: seq<Edge> := [Edge(0, 1, 1), Edge(1, 2, 2), Edge(4, 5, 3), Edge(1, 3, 4)]
  const KeptUpTo5: seq<Edge> := KeptUpTo4
  const KeptUpTo6: seq<Edge> := Tree
  const KeptUpTo7: seq<Edge> := Tree
  const KeptUpTo8: seq<Edge> := Tree
  const KeptUpTo9: seq<Edge> := Tree

  lemma KeepsUpTo0()
    ensures Greedy(SortedUpTo0) == KeptUpTo0
  {
  }

  lemma KeepsUpTo1()
    ensures Greedy(SortedUpTo1) == KeptUpTo1
  {
    KeepsUpTo0();
    Keeps(Edge(0, 1, 1), SortedUpTo0, KeptUpTo0, [0, 1, 2, 3, 4, 5]);
    assert KeptUpTo0 + [Edge(0, 1, 1)] == KeptUpTo1;
  }

  lemma KeepsUpTo2()
    ensures Greedy(SortedUpTo2) == KeptUpTo2
  {
    KeepsUpTo1();
    Keeps(Edge(1, 2, 2), SortedUpTo1, KeptUpTo1, [0, 0, 2, 3, 4, 5]);
    assert KeptUpTo1 + [Edge(1, 2, 2)] == KeptUpTo2;
  }

  lemma KeepsUpTo3()
    ensures Greedy(SortedUpTo3) == KeptUpTo3
  {
    KeepsUpTo2();
    Keeps(Edge(4, 5, 3), SortedUpTo2, KeptUpTo2, [0, 0, 0, 3, 4, 5]);
    assert KeptUpTo2 + [Edge(4, 5, 3)] == KeptUpTo3;
  }

  lemma KeepsUpTo4()
    ensures Greedy(SortedUpTo4) == KeptUpTo4
  {
    KeepsUpTo3();
    Keeps(Edge(1, 3, 4), SortedUpTo3, KeptUpTo3, [0, 0, 0, 3, 4, 4]);
    assert KeptUpTo3 + [Edge(1, 3, 4)] == KeptUpTo4;
  }

  lemma KeepsUpTo5()
    ensures Greedy(SortedUpTo5) == KeptUpTo5
  {
    KeepsUpTo4();
    // 0 - 1 - 3 closes a cycle
    var t := KeptUpTo4;
    LinkedEdge(t, t[0]);
    LinkedEdge(t, t[3]);
    LinkedVia(t, 0, 1, 3);
    Skips(Edge(0, 3, 5), SortedUpTo4, t);
  }

  lemma KeepsUpTo6()
    ensures Greedy(SortedUpTo6) == KeptUpTo6
  {
    KeepsUpTo5();
    Keeps(Edge(2, 4, 6), SortedUpTo5, KeptUpTo5, [0, 0, 0, 0, 4, 4]);
    assert KeptUpTo5 + [Edge(2, 4, 6)] == KeptUpTo6;
  }

  lemma KeepsUpTo7()
    ensures Greedy(SortedUpTo7) == KeptUpTo7
  {
    KeepsUpTo6();
    TreeJoinsAll();
    Skips(Edge(1, 4, 7), SortedUpTo6, Tree);
  }

  lemma KeepsUpTo8()
    ensures Greedy(SortedUpTo8) == KeptUpTo8
  {
    KeepsUpTo7();
    TreeJoinsAll();
    Skips(Edge(2, 5, 8), SortedUpTo7, Tree);
  }

  lemma KeepsUpTo9()
    ensures Greedy(SortedUpTo9) == KeptUpTo9
  {
    KeepsUpTo8();
    TreeJoinsAll();
    Skips(Edge(3, 4, 9), SortedUpTo8, Tree);
  }

  /** Kruskal's rule selects `Tree` from the sorted edges. */
  lemma GreedyDemo()
    ensures Greedy(SortedEdges) == Tree
  {
    assert SortedUpTo9 == SortedEdges;
    KeepsUpTo9();
  }

  /** Without `(4, 5, 3)` the tree falls apart into `{0, 1, 2, 3, 4}` and
      `{5}`. */
  lemma RemainingComponents()
    ensures forall a, b :: 0 <= a < 6 && 0 <= b < 6 ==>
      (Linked(Remaining, a, b) <==> (a == 5) == (b == 5))
  {
    var t := Remaining;
    var tags := [0, 0, 0, 0, 0, 5];
    LinkedWithinLabels(t, tags);
    LinkedEdge(t, t[0]);
    LinkedEdge(t, t[1]);
    LinkedEdge(t, t[2]);
    LinkedEdge(t, t[3]);
    LinkedSymmetric(t);
    LinkedReflexive(t);
    LinkedVia(t, 0, 1, 2);
    LinkedVia(t, 0, 1, 3);
    LinkedVia(t, 0, 2, 4);
    forall a, b | 0 <= a < 5 && 0 <= b < 5
      ensures Linked(t, a, b)
    {
      LinkedVia(t, a, 0, b);
    }
    forall a, b | 0 <= a < 6 && 0 <= b < 6 && Linked(t, a, b)
      ensures (a == 5) == (b == 5)
    {
      assert tags[a] == tags[b];
    }
  }

  /** Taking the middle edge out of the tree leaves `Remaining`... */
  lemma TreeWithoutMiddle()
    ensures Without(Tree, Edge(4, 5, 3)) == Remaining
  {
    var t, x := Tree, Edge(4, 5, 3);
    assert t[..2] + t[3..] == [t[0], t[1], t[3], t[4]];
    assert forall j :: 0 <= j < |t| && j != 2 ==> !SameEndpoints(t[j], x);
    WithoutAllButOne(t, 2, x);
  }

  /** ... and so does `List.remove`, the first endpoint-equal edge being
      the only one. */
  lemma TreeRemoveMiddle()
    ensures RemoveFirst(Tree, Edge(4, 5, 3)) == Remaining
  {
    var t, x := Tree, Edge(4, 5, 3);
    assert t[..2] + t[3..] == [t[0], t[1], t[3], t[4]];
    RemoveFirstCutsFirstMatch(t, x, 2);
  }

  /** Of the sorted edges, `(2, 5, 8)` at index 7 is the only one that joins
      the two components and is not endpoint-equal to `(4, 5, 3)`. */
  lemma OnlyCandidate(uf: UnionFind)
    requires Tracks(uf, Remaining, 6)
    ensures forall k :: 0 <= k < |SortedEdges| ==> (Candidate(uf, Edge(4, 5, 3), SortedEdges[k]) <==> k == 7)
  {
    RemainingComponents();
  }

  /** What the search can answer, given what it promises: `(2, 5, 8)`. */
  lemma ReplacementDemo(uf: UnionFind, r: Option<Edge>)
    requires Tracks(uf, Remaining, 6)
    requires r.None? <==> forall k :: 0 <= k < |SortedEdges| ==> !Candidate(uf, Edge(4, 5, 3), SortedEdges[k])
    requires r.Some? ==> exists k :: FirstCheapest(uf, Edge(4, 5, 3), SortedEdges, k) && SortedEdges[k] == r.value
    ensures r == Some(Edge(2, 5, 8))
  {
    OnlyCandidate(uf);
    assert Candidate(uf, Edge(4, 5, 3), SortedEdges[7]);
    var k :| FirstCheapest(uf, Edge(4, 5, 3), SortedEdges, k) && SortedEdges[k] == r.value;
  }

  /** The weights the driver prints: 16 before, 21 after. */
  lemma DemoWeights()
    ensures TotalWeight(Tree) == 16
    ensures TotalWeight(Remaining + [Edge(2, 5, 8)]) == 21
  {
    TotalWeightAppend(Remaining, [Edge(2, 5, 8)]);
  }

  /** Every tree edge lies within the six vertices. */
  lemma TreeInRange()
    ensures InRange(Tree, 6)
  {
  }

  /** Every sorted edge lies within the six vertices. */
  lemma SortedEdgesInRange()
    ensures InRange(SortedEdges, 6)
  {
  }

  /** The driver builds a six-vertex graph and adds the nine edges in order. */
  method DriverGraph() returns (g: Graph)
    ensures g == Graph(6, Added)
  {
    g := Graph(6, []);
    g := AddEdge(g, 0, 1, 1);
    g := AddEdge(g, 0, 3, 5);
    g := AddEdge(g, 1, 2, 2);
    g := AddEdge(g, 1, 3, 4);
    g := AddEdge(g, 1, 4, 7);
    g := AddEdge(g, 2, 4, 6);
    g := AddEdge(g, 2, 5, 8);
    g := AddEdge(g, 3, 4, 9);
    g := AddEdge(g, 4, 5, 3);
  }

  /** Every edge the driver adds lies within the six vertices. */
  lemma AddedInRange()
    ensures InRange(Added, 6)
  {
  }

  /** `buildMST` on the driver's graph sorts its edges into `SortedEdges`
      and selects `Tree`. */
  method DriverTree(g: Graph) returns (sorted: Graph, mst: seq<Edge>)
    requires g == Graph(6, Added)
    ensures sorted == Graph(6, SortedEdges) && mst == Tree
  {
    assert InRange(g.edges, g.vertices) by {
      AddedInRange();
    }
    sorted, mst := BuildMst(g);
    assert sorted.edges == SortedEdges by {
      SortedDemo(sorted.edges);
    }
    assert mst == Tree by {
      GreedyDemo();
    }
  }

  /** The middle tree edge is `(4, 5, 3)`; without it the union-find holds
      the components of `Remaining`. */
  method DriverRemoval(sorted: Graph, mst: seq<Edge>) returns (removed: Edge, uf: UnionFind)
    requires sorted == Graph(6, SortedEdges) && mst == Tree
    ensures removed == Edge(4, 5, 3) && Tracks(uf, Remaining, 6)
  {
    removed := mst[|mst| / 2];
    assert removed == Edge(4, 5, 3);
    assert InRange(mst, sorted.vertices) by {
      TreeInRange();
    }
    uf := ComponentsAfterRemoval(sorted, mst, removed);
    assert Without(mst, removed) == Remaining by {
      TreeWithoutMiddle();
    }
  }

  /** The search over the sorted edges answers `(2, 5, 8)`. */
  method DriverReplacement(sorted: Graph, uf: UnionFind) returns (replacement: Option<Edge>)
    requires sorted == Graph(6, SortedEdges) && Tracks(uf, Remaining, 6)
    ensures replacement == Some(Edge(2, 5, 8))
  {
    assert InRange(sorted.edges, sorted.vertices) by {
      SortedEdgesInRange();
    }
    var uf';
    replacement, uf' := FindReplacementEdge(sorted, uf, Edge(4, 5, 3));
    assert replacement == Some(Edge(2, 5, 8)) by {
      ReplacementDemo(uf, replacement);
    }
  }

  /** The driver's run, step by step: build the graph, build the tree, take
      out its middle edge, find the components and the replacement, and
      weigh the old and the new tree. */
  method Scenario() returns (mst: seq<Edge>, removed: Edge, replacement: Option<Edge>, total: int, newTotal: int)
    ensures mst == Tree && total == 16
    ensures removed == Edge(4, 5, 3)
    ensures replacement == Some(Edge(2, 5, 8))
    ensures newTotal == 21
  {
    var g := DriverGraph();
    var sorted;
    sorted, mst := DriverTree(g);
    total := CalculateMstWeight(mst);

    var uf;
    removed, uf := DriverRemoval(sorted, mst);
    replacement := DriverReplacement(sorted, uf);

    TreeRemoveMiddle();
    DemoWeights();
    var newMst := RemoveFirst(mst, removed) + [replacement.value];
    newTotal := CalculateMstWeight(newMst);
  }

  /** Three parallel edges between the two vertices of a second graph. */
  const Parallel: seq<Edge> := [Edge(0, 1, 5), Edge(0, 1, 2), Edge(0, 1, 8)]

  /** Whichever of the parallel edges is taken out, the other two still
      join the two vertices. */
  lemma ParallelStaysConnected()
    ensures forall i :: 0 <= i < |Parallel| ==> Linked(Parallel[..i] + Parallel[i + 1..], 0, 1)
  {
    assert Parallel[..0] + Parallel[1..] == [Edge(0, 1, 2), Edge(0, 1, 8)];
    assert Parallel[..1] + Parallel[2..] == [Edge(0, 1, 5), Edge(0, 1, 8)];
    assert Parallel[..2] + Parallel[3..] == [Edge(0, 1, 5), Edge(0, 1, 2)];
    LinkedEdge([Edge(0, 1, 2), Edge(0, 1, 8)], Edge(0, 1, 8));
    LinkedEdge([Edge(0, 1, 5), Edge(0, 1, 8)], Edge(0, 1, 8));
    LinkedEdge([Edge(0, 1, 5), Edge(0, 1, 2)], Edge(0, 1, 2));
  }

  /** In a tree of parallel edges that joins the two vertices, every edge is
      endpoint-equal to the middle one, so the search cannot answer. */
  lemma ParallelAnswer(mst: seq<Edge>, r: Option<Edge>)
    requires (forall e :: e in mst ==> e in Parallel) && Linked(mst, 0, 1)
    requires r.Some? ==> mst != [] && r.value in Parallel && !SameEndpoints(r.value, mst[|mst| / 2])
    ensures mst != [] && r.None?
  {
    assert mst != [];
    assert mst[|mst| / 2] in Parallel;
  }

  /** The swap on a graph of parallel edges finds no replacement, although
      the graph stays connected without the removed edge: the search skips
      every edge `equals` to the removed one, and here that is every edge. */
  method ParallelScenario() returns (mst: seq<Edge>, replacement: Option<Edge>, newMst: Option<seq<Edge>>)
    ensures mst != [] && replacement.None? && newMst.None?
    ensures forall i :: 0 <= i < |Parallel| ==> Linked(Parallel[..i] + Parallel[i + 1..], 0, 1)
  {
    var g := Graph(2, []);
    g := AddEdge(g, 0, 1, 5);
    g := AddEdge(g, 0, 1, 2);
    g := AddEdge(g, 0, 1, 8);
    assert g.edges == Parallel;
    assert InRange(g.edges, g.vertices);
    assert Linked(g.edges, 0, 1) by {
      LinkedEdge(Parallel, Edge(0, 1, 5));
    }
    mst, replacement, newMst := SwapMiddleEdge(g);
    assert mst != [] && replacement.None? by {
      ParallelAnswer(mst, replacement);
    }
    ParallelStaysConnected();
  }
}
