/**
  The graph and its operations: the edge list, Kruskal's construction of a
  minimum spanning forest, the components left when one tree edge is taken
  out, the scan for the cheapest reconnecting edge, and the total weight.
 */
module Graphs {
  import opened Edges
  import opened EdgeSorting
  import opened UnionFinds
  import opened Forests

  /** A reference that may be null. */
  datatype Option<T> = None | Some(value: T)

  /** A vertex count and the edge list, in its current order. */
  datatype Graph = Graph(vertices: nat, edges: seq<Edge>)

  /** `addEdge`: the new edge goes at the end; nothing else changes. */
  function AddEdge(g: Graph, source: int, destination: int, weight: int): (g': Graph)
    ensures g'.vertices == g.vertices
    ensures |g'.edges| == |g.edges| + 1
    ensures g'.edges[..|g.edges|] == g.edges
    ensures g'.edges[|g.edges|] == Edge(source, destination, weight)
  {
    g.(edges := g.edges + [Edge(source, destination, weight)])
  }

  /** The union-find over `[0, n)` has exactly the classes that `es` links. */
  ghost predicate Tracks(uf: UnionFind, es: seq<Edge>, n: nat) {
    && Valid(uf) && |uf.parent| == n
    && forall a, b :: 0 <= a < n && 0 <= b < n ==> (Same(uf, a, b) <==> Linked(es, a, b))
  }

  lemma InitTracksNothing(n: nat)
    ensures Tracks(Init(n), [], n)
  {
  }

  /** `union` on the endpoints of `e` moves a union-find that tracks `es`
      to one that tracks `es + [e]`, and it merges exactly when `es` does
      not link the endpoints yet. */
  lemma UnionTracksEdge(uf: UnionFind, es: seq<Edge>, e: Edge, n: nat)
    requires Tracks(uf, es, n) && 0 <= e.source < n && 0 <= e.destination < n
    ensures Tracks(Union(uf, e.source, e.destination).0, es + [e], n)
    ensures Union(uf, e.source, e.destination).1 <==> !Linked(es, e.source, e.destination)
  {
    var uf' := Union(uf, e.source, e.destination).0;
    UnionJoinsClasses(uf, e.source, e.destination);
    forall a, b | 0 <= a < n && 0 <= b < n
      ensures Same(uf', a, b) <==> Linked(es + [e], a, b)
    {
      LinkedSnoc(es, e, a, b);
    }
  }

  /** With a single class left, everything is in it. */
  lemma OneRootOneClass(uf: UnionFind)
    requires Valid(uf) && |Roots(uf)| == 1
    ensures forall a, b :: 0 <= a < |uf.parent| && 0 <= b < |uf.parent| ==> Same(uf, a, b)
  {
    forall a, b | 0 <= a < |uf.parent| && 0 <= b < |uf.parent|
      ensures Same(uf, a, b)
    {
      var ra, rb := Root(uf, a), Root(uf, b);
      assert ra in Roots(uf) && rb in Roots(uf);
      assert |Roots(uf) - {ra}| == 0;
      assert Roots(uf) - {ra} == {};
      assert rb !in Roots(uf) - {ra};
    }
  }

  /** What Kruskal's loop knows after the first `i` sorted edges: the
      union-find tracks the selected edges, which are Kruskal's selection
      from that prefix, and every selected edge cost one class. */
  ghost predicate KruskalSoFar(uf: UnionFind, mst: seq<Edge>, es: seq<Edge>, i: int, n: nat) {
    && 0 <= i <= |es| && InRange(es, n)
    && Tracks(uf, mst, n)
    && mst == Greedy(es[..i])
    && |Roots(uf)| + |mst| == n
  }

  lemma KruskalStart(es: seq<Edge>, n: nat)
    requires InRange(es, n)
    ensures KruskalSoFar(Init(n), [], es, 0, n)
  {
    assert es[..0] == [];
  }

  /** One iteration: `union` merges exactly when Kruskal's rule selects the
      edge. */
  lemma KruskalStep(uf: UnionFind, mst: seq<Edge>, es: seq<Edge>, i: int, n: nat)
    requires KruskalSoFar(uf, mst, es, i, n) && i < |es|
    ensures 0 <= es[i].source < n && 0 <= es[i].destination < n
    ensures var res := Union(uf, es[i].source, es[i].destination);
      KruskalSoFar(res.0, if res.1 then mst + [es[i]] else mst, es, i + 1, n)
  {
    var e := es[i];
    assert e in es;
    var res := Union(uf, e.source, e.destination);
    var mst' := if res.1 then mst + [e] else mst;
    UnionTracksEdge(uf, mst, e, n);
    UnionRoots(uf, e.source, e.destination);
    assert |Roots(res.0)| + |mst'| == n;
    KruskalGreedyStep(es, i, mst, Linked(mst, e.source, e.destination));
  }

  lemma KruskalGreedyStep(es: seq<Edge>, i: int, mst: seq<Edge>, linked: bool)
    requires 0 <= i < |es| && mst == Greedy(es[..i])
    requires linked == Linked(mst, es[i].source, es[i].destination)
    ensures Greedy(es[..i + 1]) == if linked then mst else mst + [es[i]]
  {
    assert es[..i + 1] == es[..i] + [es[i]];
    GreedySnoc(es[..i], es[i]);
  }

  /** The early exit: with `n - 1` edges selected only one class is left, so
      no later edge would be selected anyway. */
  lemma KruskalSaturates(uf: UnionFind, mst: seq<Edge>, es: seq<Edge>, i: int, n: nat)
    requires KruskalSoFar(uf, mst, es, i, n) && |mst| == n - 1
    ensures mst == Greedy(es)
  {
    OneRootOneClass(uf);
    GreedySaturated(es, i, n);
  }

  /** Whichever way the loop ends, the selection is Kruskal's selection from
      the whole sorted list, with at most `n - 1` edges. */
  lemma KruskalEnd(uf: UnionFind, mst: seq<Edge>, es: seq<Edge>, i: int, n: nat)
    requires KruskalSoFar(uf, mst, es, i, n) && (i == |es| || |mst| == n - 1)
    ensures mst == Greedy(es)
    ensures n == 0 ==> mst == []
    ensures n > 0 ==> |mst| <= n - 1
  {
    if |mst| == n - 1 {
      KruskalSaturates(uf, mst, es, i, n);
    } else {
      assert es[..i] == es;
    }
    if n > 0 {
      SomeRoot(uf);
    }
  }

  /** The loop of `buildMST` over the sorted list: `union` each edge's
      endpoints, keep the edge when that merges two classes, and stop once
      `n - 1` edges are kept. */
  method Kruskal(es: seq<Edge>, n: nat) returns (mst: seq<Edge>)
    requires InRange(es, n)
    ensures mst == Greedy(es)
    ensures n == 0 ==> mst == []
    ensures n > 0 ==> |mst| <= n - 1
  {
    var uf := Init(n);
    mst := [];
    KruskalStart(es, n);
    var i := 0;
    while i < |es|
      invariant KruskalSoFar(uf, mst, es, i, n)
    {
      var e := es[i];
      KruskalStep(uf, mst, es, i, n);
      var res := Union(uf, e.source, e.destination);
      uf := res.0;
      i := i + 1;
      if res.1 {
        mst := mst + [e];
        if |mst| == n - 1 {
          break;
        }
      }
    }
    KruskalEnd(uf, mst, es, i, n);
  }

  /** What holds of Kruskal's selection from the sorted list. */
  lemma KruskalOutcome(edges: seq<Edge>, es: seq<Edge>, mst: seq<Edge>)
    requires Sorted(es) && multiset(es) == multiset(edges) && mst == Greedy(es)
    ensures Subseq(mst, es) && Sorted(mst) && Acyclic(mst)
    ensures forall e :: e in edges ==> Linked(mst, e.source, e.destination)
    ensures forall a, b :: Linked(mst, a, b) <==> Linked(edges, a, b)
  {
    assert forall e :: e in es <==> e in edges by {
      forall e
        ensures e in es <==> e in edges
      {
        assert e in es <==> e in multiset(es);
      }
    }
    GreedyIsSpanningForest(es);
    GreedyKeepsConnectivity(es);
    SameMembersSameLinks(es, edges);
    SubseqSorted(mst, es);
  }

  lemma PermutationInRange(edges: seq<Edge>, es: seq<Edge>, n: nat)
    requires InRange(edges, n) && multiset(es) == multiset(edges)
    ensures InRange(es, n)
  {
    forall e | e in es
      ensures 0 <= e.source < n && 0 <= e.destination < n
    {
      assert e in multiset(es);
    }
  }

  /** `buildMST`: sorts the graph's own edge list (stably, by weight) and
      runs Kruskal's algorithm over it, stopping once `vertices - 1` edges
      are taken. Returns the re-ordered graph with the selected edges. */
  method BuildMst(g: Graph) returns (sorted: Graph, mst: seq<Edge>)
    requires InRange(g.edges, g.vertices)
    ensures sorted.vertices == g.vertices
    ensures Sorted(sorted.edges) && multiset(sorted.edges) == multiset(g.edges)
    ensures forall w :: WithWeight(sorted.edges, w) == WithWeight(g.edges, w)
    ensures mst == Greedy(sorted.edges)
    ensures Subseq(mst, sorted.edges) && Sorted(mst)
    ensures g.vertices == 0 ==> mst == []
    ensures g.vertices > 0 ==> |mst| <= g.vertices - 1
    ensures Acyclic(mst)
    ensures InRange(mst, g.vertices) && EveryUnionMerges(Init(g.vertices), mst, 0)
    ensures forall e :: e in g.edges ==> Linked(mst, e.source, e.destination)
    ensures forall a, b :: Linked(mst, a, b) <==> Linked(g.edges, a, b)
  {
    var n := g.vertices;
    var es := SortByWeight(g.edges);
    SortByWeightIsStableSort(g.edges);
    sorted := g.(edges := es);
    PermutationInRange(g.edges, es, n);
    mst := Kruskal(es, n);
    KruskalOutcome(g.edges, es, mst);
    SelectionReplays(mst, es, n);
  }

  /** Replaying the selection into a fresh union-find, every `union` merges. */
  lemma SelectionReplays(mst: seq<Edge>, es: seq<Edge>, n: nat)
    requires Subseq(mst, es) && InRange(es, n) && Acyclic(mst)
    ensures InRange(mst, n) && EveryUnionMerges(Init(n), mst, 0)
  {
    SubseqMembers(mst, es);
    ReplayDetectsForest(mst, n);
  }

  /** What `findComponentsAfterRemoval` knows after the first `i` tree edges:
      the union-find tracks those of them not endpoint-equal to `removed`,
      and while they form a forest each of them cost one class. */
  ghost predicate RemovalSoFar(uf: UnionFind, mst: seq<Edge>, removed: Edge, i: int, n: nat) {
    && 0 <= i <= |mst| && InRange(mst, n)
    && Tracks(uf, Without(mst[..i], removed), n)
    && (Acyclic(Without(mst[..i], removed)) ==> |Roots(uf)| + |Without(mst[..i], removed)| == n)
  }

  lemma RemovalStart(mst: seq<Edge>, removed: Edge, n: nat)
    requires InRange(mst, n)
    ensures RemovalSoFar(Init(n), mst, removed, 0, n)
  {
    assert mst[..0] == [];
  }

  /** `Without` over one more edge of the list. */
  lemma WithoutStep(mst: seq<Edge>, removed: Edge, i: int)
    requires 0 <= i < |mst|
    ensures Without(mst[..i + 1], removed) ==
      if SameEndpoints(mst[i], removed) then Without(mst[..i], removed)
      else Without(mst[..i], removed) + [mst[i]]
  {
    assert mst[..i + 1] == mst[..i] + [mst[i]];
    WithoutAppend(mst[..i], [mst[i]], removed);
    assert [mst[i]][1..] == [];
  }

  /** One iteration of `findComponentsAfterRemoval`: an edge endpoint-equal
      to `removed` is passed over, any other has its endpoints united. */
  function Feed(uf: UnionFind, e: Edge, removed: Edge): (uf': UnionFind)
    requires Valid(uf) && 0 <= e.source < |uf.parent| && 0 <= e.destination < |uf.parent|
  {
    if SameEndpoints(e, removed) then uf else Union(uf, e.source, e.destination).0
  }

  /** One iteration: an edge endpoint-equal to `removed` is passed over, any
      other is fed to `union`. */
  lemma RemovalStep(uf: UnionFind, mst: seq<Edge>, removed: Edge, i: int, n: nat)
    requires RemovalSoFar(uf, mst, removed, i, n) && i < |mst|
    ensures 0 <= mst[i].source < n && 0 <= mst[i].destination < n
    ensures RemovalSoFar(Feed(uf, mst[i], removed), mst, removed, i + 1, n)
  {
    var e := mst[i];
    assert e in mst;
    var kept := Without(mst[..i], removed);
    WithoutStep(mst, removed, i);
    if !SameEndpoints(e, removed) {
      UnionTracksEdge(uf, kept, e, n);
      UnionRoots(uf, e.source, e.destination);
      AcyclicSnoc(kept, e);
    }
  }

  /** The loop of `findComponentsAfterRemoval`: `union` the endpoints of
      every tree edge not endpoint-equal to `removed`. */
  method Replay(mst: seq<Edge>, removed: Edge, n: nat) returns (uf: UnionFind)
    requires InRange(mst, n)
    ensures RemovalSoFar(uf, mst, removed, |mst|, n)
  {
    uf := Init(n);
    RemovalStart(mst, removed, n);
    var i := 0;
    while i < |mst|
      invariant RemovalSoFar(uf, mst, removed, i, n)
    {
      var e := mst[i];
      RemovalStep(uf, mst, removed, i, n);
      uf := Feed(uf, e, removed);
      i := i + 1;
    }
  }

  /** After the whole list: when `removed` is a member of a forest, the
      edges kept are the forest less that one edge, so one class more. */
  lemma RemovalEnd(uf: UnionFind, mst: seq<Edge>, removed: Edge, n: nat)
    requires RemovalSoFar(uf, mst, removed, |mst|, n)
    ensures Tracks(uf, Without(mst, removed), n)
    ensures Acyclic(Without(mst, removed)) ==> |Roots(uf)| == n - |Without(mst, removed)|
    ensures Acyclic(mst) && (exists k :: 0 <= k < |mst| && SameEndpoints(mst[k], removed)) ==>
      |Roots(uf)| == n - |mst| + 1
  {
    assert mst[..|mst|] == mst;
    if Acyclic(mst) && (exists k :: 0 <= k < |mst| && SameEndpoints(mst[k], removed)) {
      var k :| 0 <= k < |mst| && SameEndpoints(mst[k], removed);
      RemoveTreeEdge(mst, k, removed);
    }
  }

  /** `findComponentsAfterRemoval`: a fresh union-find fed every tree edge
      except those endpoint-equal to `removed`. Its classes are what those
      edges link; when they form a forest it has one class per vertex less
      one per edge; and when `removed` is a member of a forest tree, it has
      exactly one class more than the tree has. */
  method ComponentsAfterRemoval(g: Graph, mst: seq<Edge>, removed: Edge) returns (uf: UnionFind)
    requires InRange(mst, g.vertices)
    ensures Tracks(uf, Without(mst, removed), g.vertices)
    ensures Acyclic(Without(mst, removed)) ==> |Roots(uf)| == g.vertices - |Without(mst, removed)|
    ensures Acyclic(mst) && (exists k :: 0 <= k < |mst| && SameEndpoints(mst[k], removed)) ==>
      |Roots(uf)| == g.vertices - |mst| + 1
  {
    uf := Replay(mst, removed, g.vertices);
    RemovalEnd(uf, mst, removed, g.vertices);
  }

  /** An edge that `findReplacementEdge` may pick: not endpoint-equal to the
      removed edge, and joining two different classes of `uf`. */
  ghost predicate Candidate(uf: UnionFind, removed: Edge, e: Edge)
    requires Valid(uf)
  {
    && 0 <= e.source < |uf.parent| && 0 <= e.destination < |uf.parent|
    && !SameEndpoints(e, removed)
    && !Same(uf, e.source, e.destination)
  }

  /** `es[k]` is a candidate of least weight, and no earlier candidate has
      that weight. */
  ghost predicate FirstCheapest(uf: UnionFind, removed: Edge, es: seq<Edge>, k: int)
    requires Valid(uf)
  {
    && 0 <= k < |es|
    && Candidate(uf, removed, es[k])
    && (forall j :: 0 <= j < |es| && Candidate(uf, removed, es[j]) ==> es[k].weight <= es[j].weight)
    && (forall j :: 0 <= j < k && Candidate(uf, removed, es[j]) ==> es[k].weight < es[j].weight)
  }

  /** Which edges of the list are candidates. */
  ghost function Candidates(uf: UnionFind, removed: Edge, es: seq<Edge>): (c: seq<bool>)
    requires Valid(uf)
    ensures |c| == |es|
  {
    if es == [] then [] else [Candidate(uf, removed, es[0])] + Candidates(uf, removed, es[1..])
  }

  lemma {:induction false} CandidatesAt(uf: UnionFind, removed: Edge, es: seq<Edge>, k: int)
    requires Valid(uf) && 0 <= k < |es|
    ensures Candidates(uf, removed, es)[k] == Candidate(uf, removed, es[k])
  {
    if k > 0 {
      CandidatesAt(uf, removed, es[1..], k - 1);
    }
  }

  /** Among the first `i` edges, with `cand` flagging the candidates,
      `es[best]` is a candidate of least weight and no earlier candidate has
      that weight. */
  ghost predicate CheapestBefore(cand: seq<bool>, es: seq<Edge>, i: int, best: int)
    requires |cand| == |es|
  {
    && 0 <= best < i <= |es|
    && cand[best]
    && (forall j :: 0 <= j < i && cand[j] ==> es[best].weight <= es[j].weight)
    && (forall j :: 0 <= j < best && cand[j] ==> es[best].weight < es[j].weight)
  }

  /** What the replacement scan knows after the first `i` edges: there is a
      choice exactly when some edge so far is a candidate, and the choice is
      the first cheapest of them. */
  ghost predicate ScanSoFar(cand: seq<bool>, es: seq<Edge>, i: int, replacement: Option<Edge>, best: int)
    requires |cand| == |es|
  {
    && 0 <= i <= |es|
    && (replacement.None? <==> forall k :: 0 <= k < i ==> !cand[k])
    && (replacement.Some? ==> CheapestBefore(cand, es, i, best) && es[best] == replacement.value)
  }

  /** One step of the scan: `es[i]` becomes the choice exactly when it is a
      candidate and there is no choice yet or it is strictly lighter. */
  lemma ScanStep(cand: seq<bool>, es: seq<Edge>, i: int, replacement: Option<Edge>, best: int)
    requires |cand| == |es| && ScanSoFar(cand, es, i, replacement, best) && i < |es|
    ensures var take := cand[i] && (replacement.None? || es[i].weight < replacement.value.weight);
      ScanSoFar(cand, es, i + 1, if take then Some(es[i]) else replacement, if take then i else best)
  {
    if cand[i] && replacement.Some? {
      assert CheapestBefore(cand, es, i, best);
    }
  }

  /** `connected` on a union-find with the classes of `uf` answers for `uf`
      and keeps those classes. */
  lemma ConnectedKeepsClasses(cur: UnionFind, uf: UnionFind, x: int, y: int)
    requires SameRoots(cur, uf) && 0 <= x < |uf.parent| && 0 <= y < |uf.parent|
    ensures var c := Connected(cur, x, y); SameRoots(c.0, uf) && (c.1 <==> Same(uf, x, y))
  {
  }

  /** One iteration of `findReplacementEdge` on edge `e`, with `cur` the
      union-find as compressed so far and `uf` the one handed in: an edge
      endpoint-equal to `removed` is skipped; otherwise `connected` is
      asked, and the edge becomes the choice exactly when it is a candidate
      and there is no choice yet or it is strictly lighter. The classes stay
      those of `uf`. */
  method Consider(cur: UnionFind, ghost uf: UnionFind, e: Edge, removed: Edge, replacement: Option<Edge>)
    returns (replacement': Option<Edge>, cur': UnionFind)
    requires SameRoots(cur, uf) && 0 <= e.source < |uf.parent| && 0 <= e.destination < |uf.parent|
    ensures SameRoots(cur', uf)
    ensures replacement' ==
      if Candidate(uf, removed, e) && (replacement.None? || e.weight < replacement.value.weight)
      then Some(e) else replacement
  {
    replacement', cur' := replacement, cur;
    if !SameEndpoints(e, removed) {
      ConnectedKeepsClasses(cur, uf, e.source, e.destination);
      var c := Connected(cur, e.source, e.destination);
      cur' := c.0;
      if !c.1 {
        if replacement.None? || e.weight < replacement.value.weight {
          replacement' := Some(e);
        }
      }
    }
  }

  /** The loop of `findReplacementEdge`, over the edge list in its current
      order. */
  method Scan(es: seq<Edge>, uf: UnionFind, removed: Edge)
    returns (replacement: Option<Edge>, uf': UnionFind, ghost best: int)
    requires Valid(uf) && InRange(es, |uf.parent|)
    ensures SameRoots(uf', uf)
    ensures ScanSoFar(Candidates(uf, removed, es), es, |es|, replacement, best)
  {
    ghost var cand := Candidates(uf, removed, es);
    replacement := None;
    uf' := uf;
    best := 0;
    var i := 0;
    while i < |es|
      invariant SameRoots(uf', uf)
      invariant ScanSoFar(cand, es, i, replacement, best)
    {
      var e := es[i];
      assert e in es;
      ScanStep(cand, es, i, replacement, best);
      CandidatesAt(uf, removed, es, i);
      ghost var take := cand[i] && (replacement.None? || e.weight < replacement.value.weight);
      replacement, uf' := Consider(uf', uf, e, removed, replacement);
      best := if take then i else best;
      i := i + 1;
    }
  }

  /** At the end of the list, the scan's choice is the first cheapest
      candidate of the whole list, and there is none only when no edge is a
      candidate. */
  lemma ScanDone(uf: UnionFind, removed: Edge, es: seq<Edge>, replacement: Option<Edge>, best: int)
    requires Valid(uf) && ScanSoFar(Candidates(uf, removed, es), es, |es|, replacement, best)
    ensures replacement.None? <==> forall k :: 0 <= k < |es| ==> !Candidate(uf, removed, es[k])
    ensures replacement.Some? ==> FirstCheapest(uf, removed, es, best) && es[best] == replacement.value
  {
    var cand := Candidates(uf, removed, es);
    forall k | 0 <= k < |es|
      ensures cand[k] == Candidate(uf, removed, es[k])
    {
      CandidatesAt(uf, removed, es, k);
    }
    if replacement.Some? {
      assert CheapestBefore(cand, es, |es|, best);
    }
  }

  /** `findReplacementEdge`: scans the graph's edge list in its current order,
      skipping every edge endpoint-equal to `removed` and keeping the first
      edge of least weight whose endpoints `uf` does not connect; null when
      there is none. The `connected` calls compress paths in `uf`, which is
      handed back with the same classes. */
  method FindReplacementEdge(g: Graph, uf: UnionFind, removed: Edge)
    returns (replacement: Option<Edge>, uf': UnionFind)
    requires Valid(uf) && |uf.parent| == g.vertices && InRange(g.edges, g.vertices)
    ensures SameRoots(uf', uf)
    ensures replacement.None? <==>
      forall k :: 0 <= k < |g.edges| ==> !Candidate(uf, removed, g.edges[k])
    ensures replacement.Some? ==>
      exists k :: FirstCheapest(uf, removed, g.edges, k) && g.edges[k] == replacement.value
  {
    ghost var best;
    replacement, uf', best := Scan(g.edges, uf, removed);
    ScanDone(uf, removed, g.edges, replacement, best);
  }

  /** The sum of the weights (over unbounded integers). */
  function TotalWeight(es: seq<Edge>): int {
    if es == [] then 0 else es[0].weight + TotalWeight(es[1..])
  }

  /** The total weight is additive over concatenation. */
  lemma {:induction false} TotalWeightAppend(a: seq<Edge>, b: seq<Edge>)
    ensures TotalWeight(a + b) == TotalWeight(a) + TotalWeight(b)
  {
    if a == [] {
      assert a + b == b;
    } else {
      assert (a + b)[1..] == a[1..] + b;
      TotalWeightAppend(a[1..], b);
    }
  }

  /** `calculateMSTWeight`: adds the weights up in list order. */
  method CalculateMstWeight(mst: seq<Edge>) returns (total: int)
    ensures total == TotalWeight(mst)
  {
    total := 0;
    var i := 0;
    while i < |mst|
      invariant 0 <= i <= |mst|
      invariant total == TotalWeight(mst[..i])
    {
      assert mst[..i + 1] == mst[..i] + [mst[i]];
      TotalWeightAppend(mst[..i], [mst[i]]);
      total := total + mst[i].weight;
      i := i + 1;
    }
    assert mst[..i] == mst;
  }

  /** Replays `es[i..]` into `uf`: whether every `union` merges two classes. */
  function EveryUnionMerges(uf: UnionFind, es: seq<Edge>, i: nat): bool
    requires Valid(uf) && InRange(es, |uf.parent|) && i <= |es|
    decreases |es| - i
  {
    if i == |es| then true
    else
      assert es[i] in es;
      var res := Union(uf, es[i].source, es[i].destination);
      res.1 && EveryUnionMerges(res.0, es, i + 1)
  }

  lemma {:induction false} EveryUnionMergesFrom(uf: UnionFind, es: seq<Edge>, i: nat, n: nat)
    requires InRange(es, n) && i <= |es| && Tracks(uf, es[..i], n) && Acyclic(es[..i])
    ensures EveryUnionMerges(uf, es, i) <==> Acyclic(es)
    decreases |es| - i
  {
    if i == |es| {
      assert es[..i] == es;
    } else {
      var e := es[i];
      assert e in es;
      assert es[..i + 1] == es[..i] + [e];
      UnionTracksEdge(uf, es[..i], e, n);
      AcyclicSnoc(es[..i], e);
      var res := Union(uf, e.source, e.destination);
      if res.1 {
        EveryUnionMergesFrom(res.0, es, i + 1, n);
      }
    }
  }

  /** Replaying an edge list into a fresh union-find, every `union` merges
      exactly when the list is a forest. */
  lemma ReplayDetectsForest(es: seq<Edge>, n: nat)
    requires InRange(es, n)
    ensures EveryUnionMerges(Init(n), es, 0) <==> Acyclic(es)
  {
    assert es[..0] == [];
    EveryUnionMergesFrom(Init(n), es, 0, n);
  }
}
