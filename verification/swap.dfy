/**
  The driver's edge swap: take one edge out of the tree, find the cheapest
  edge that reconnects the two halves, and put it in. Whenever the search
  answers, the result is again a spanning forest of the graph.
 */
module Swaps {
  import opened Edges
  import opened EdgeSorting
  import opened UnionFinds
  import opened Forests
  import opened Graphs

  /** `List.remove(Object)`: drops the first element `equals` to `x` (that
      is, endpoint-equal to it); the list is unchanged when there is none. */
  function RemoveFirst(es: seq<Edge>, x: Edge): seq<Edge>
  {
    if es == [] then []
    else if SameEndpoints(es[0], x) then es[1..]
    else [es[0]] + RemoveFirst(es[1..], x)
  }

  /** `RemoveFirst` cuts out exactly the first endpoint-equal element. */
  lemma {:induction false} RemoveFirstCutsFirstMatch(es: seq<Edge>, x: Edge, k: nat)
    requires k < |es| && SameEndpoints(es[k], x)
    requires forall j :: 0 <= j < k ==> !SameEndpoints(es[j], x)
    ensures RemoveFirst(es, x) == es[..k] + es[k + 1..]
  {
    if k > 0 {
      var tail := es[1..];
      assert forall j :: 0 <= j < k - 1 ==> tail[j] == es[j + 1];
      assert !SameEndpoints(es[0], x);
      RemoveFirstCutsFirstMatch(tail, x, k - 1);
      assert es[..k] == [es[0]] + tail[..k - 1];
      assert es[k + 1..] == tail[k..];
    }
  }

  /** Without an endpoint-equal element, `RemoveFirst` changes nothing. */
  lemma {:induction false} RemoveFirstWithoutMatch(es: seq<Edge>, x: Edge)
    requires forall k :: 0 <= k < |es| ==> !SameEndpoints(es[k], x)
    ensures RemoveFirst(es, x) == es
  {
    if es != [] {
      var tail := es[1..];
      assert forall k :: 0 <= k < |tail| ==> tail[k] == es[k + 1];
      assert !SameEndpoints(es[0], x);
      RemoveFirstWithoutMatch(tail, x);
      assert es == [es[0]] + tail;
    }
  }

  /** In a list where only `es[k]` is endpoint-equal to `x`, as in a forest
      that contains `x`, `RemoveFirst` and `Without` agree. */
  lemma RemoveFirstIsWithout(es: seq<Edge>, x: Edge, k: nat)
    requires k < |es| && SameEndpoints(es[k], x)
    requires forall j :: 0 <= j < |es| && j != k ==> !SameEndpoints(es[j], x)
    ensures RemoveFirst(es, x) == Without(es, x)
  {
    RemoveFirstCutsFirstMatch(es, x, k);
    WithoutAllButOne(es, k, x);
  }

  /** The edges in the order the driver adds them. */
  /** Removing `r` from `w + [r]` and adding `e`, whose endpoints `w + [r]`
      links and `w` does not, keeps the endpoints of `r` linked. */
  lemma SwapJoinsRemovedEnds(w: seq<Edge>, r: Edge, e: Edge)
    requires Linked(w + [r], e.source, e.destination) && !Linked(w, e.source, e.destination)
    ensures Linked(w + [e], r.source, r.destination)
  {
    LinkedSnoc(w, r, e.source, e.destination);
    LinkedSymmetric(w);
    LinkedSnoc(w, e, r.source, r.destination);
  }

  /** Swapping position `k` for `e` changes the total weight by the
      difference of the two weights. */
  lemma SwapWeight(mst: seq<Edge>, k: nat, e: Edge)
    requires k < |mst|
    ensures TotalWeight(mst[..k] + mst[k + 1..] + [e]) == TotalWeight(mst) - mst[k].weight + e.weight
  {
    var lo, hi := mst[..k], mst[k + 1..];
    assert mst == lo + ([mst[k]] + hi);
    assert lo + hi + [e] == lo + (hi + [e]);
    TotalWeightAppend(lo, [mst[k]] + hi);
    TotalWeightAppend(lo, hi + [e]);
    TotalWeightAppend(hi, [e]);
    assert ([mst[k]] + hi)[1..] == hi;
    assert [e][1..] == [];
  }

  /** The new tree of the driver: the tree without its `k`-th edge, plus a
      candidate `e` the search may return for the union-find of the
      remaining tree edges. Dropping the edge with `List.remove` is the same
      as dropping every endpoint-equal edge; the result is a forest of the
      same size that links exactly what the graph links, and its weight
      changes by `e.weight - mst[k].weight`. */
  lemma SwapKeepsSpanning(edges: seq<Edge>, mst: seq<Edge>, k: nat, uf: UnionFind, e: Edge)
    requires Acyclic(mst) && forall a, b :: Linked(mst, a, b) <==> Linked(edges, a, b)
    requires k < |mst| && Tracks(uf, Without(mst, mst[k]), |uf.parent|)
    requires e in edges && Candidate(uf, mst[k], e)
    ensures RemoveFirst(mst, mst[k]) == Without(mst, mst[k])
    ensures Acyclic(Without(mst, mst[k]) + [e])
    ensures forall a, b :: Linked(Without(mst, mst[k]) + [e], a, b) <==> Linked(edges, a, b)
    ensures |Without(mst, mst[k]) + [e]| == |mst|
    ensures TotalWeight(Without(mst, mst[k]) + [e]) == TotalWeight(mst) - mst[k].weight + e.weight
  {
    var r := mst[k];
    var lo, hi := mst[..k], mst[k + 1..];
    assert mst == lo + [r] + hi;
    assert SameEndpoints(r, r);
    RemoveTreeEdge(mst, k, r);
    var w := Without(mst, r);
    assert w == lo + hi;
    forall j | 0 <= j < k
      ensures !SameEndpoints(mst[j], r)
    {
      ForestHasNoParallelEdges(mst, j, k);
    }
    RemoveFirstCutsFirstMatch(mst, r, k);
    SwapWeight(mst, k, e);

    assert !Linked(w, e.source, e.destination);
    AcyclicSnoc(w, e);

    assert forall x :: x in mst <==> x in w + [r];
    SameMembersSameLinks(mst, w + [r]);
    LinkedEdge(edges, e);
    SwapJoinsRemovedEnds(w, r, e);
    forall x | x in mst
      ensures Linked(w + [e], x.source, x.destination)
    {
      if x != r {
        assert x in w + [e];
        LinkedEdge(w + [e], x);
      }
    }
    LinkedCover(mst, w + [e]);
    forall x | x in w + [e]
      ensures Linked(edges, x.source, x.destination)
    {
      if x != e {
        assert x in mst;
        LinkedEdge(mst, x);
      }
    }
    LinkedCover(w + [e], edges);
  }

  /** When no edge of the list is a candidate, every edge that is not
      endpoint-equal to the removed one already lies within one class. */
  lemma NoCandidateMeansCovered(edges: seq<Edge>, rest: seq<Edge>, uf: UnionFind, removed: Edge, n: nat)
    requires InRange(edges, n) && Tracks(uf, rest, n)
    requires forall k :: 0 <= k < |edges| ==> !Candidate(uf, removed, edges[k])
    ensures forall e :: e in edges && !SameEndpoints(e, removed) ==> Linked(rest, e.source, e.destination)
  {
    forall e | e in edges && !SameEndpoints(e, removed)
      ensures Linked(rest, e.source, e.destination)
    {
      var k :| 0 <= k < |edges| && edges[k] == e;
      assert !Candidate(uf, removed, edges[k]);
    }
  }

  /** The driver's steps 2 to 5 on a spanning forest `mst` of the graph:
      remove its middle edge, find the components and the replacement, and
      form the new tree with `List.remove` and `add`. */
  method SwapOut(g: Graph, sorted: Graph, mst: seq<Edge>) returns (replacement: Option<Edge>, newMst: Option<seq<Edge>>)
    requires InRange(sorted.edges, g.vertices) && sorted.vertices == g.vertices
    requires forall e :: e in sorted.edges <==> e in g.edges
    requires mst != [] && InRange(mst, g.vertices) && Acyclic(mst)
    requires forall a, b :: Linked(mst, a, b) <==> Linked(g.edges, a, b)
    ensures newMst.Some? <==> replacement.Some?
    ensures replacement.None? ==>
      forall e :: e in g.edges && !SameEndpoints(e, mst[|mst| / 2]) ==>
        Linked(Without(mst, mst[|mst| / 2]), e.source, e.destination)
    ensures replacement.Some? ==>
      && replacement.value in g.edges
      && !SameEndpoints(replacement.value, mst[|mst| / 2])
      && !Linked(Without(mst, mst[|mst| / 2]), replacement.value.source, replacement.value.destination)
    ensures newMst.Some? ==>
      && replacement.Some?
      && newMst.value == Without(mst, mst[|mst| / 2]) + [replacement.value]
      && Acyclic(newMst.value)
      && (forall a, b :: Linked(newMst.value, a, b) <==> Linked(g.edges, a, b))
      && |newMst.value| == |mst|
      && TotalWeight(newMst.value) == TotalWeight(mst) - mst[|mst| / 2].weight + replacement.value.weight
  {
    var removed := mst[|mst| / 2];
    var uf := ComponentsAfterRemoval(sorted, mst, removed);
    var uf';
    replacement, uf' := FindReplacementEdge(sorted, uf, removed);
    newMst := None;
    if replacement.None? {
      NoCandidateMeansCovered(sorted.edges, Without(mst, removed), uf, removed, g.vertices);
    } else {
      var e := replacement.value;
      ghost var k :| FirstCheapest(uf, removed, sorted.edges, k) && sorted.edges[k] == e;
      assert e in g.edges;
      SwapKeepsSpanning(g.edges, mst, |mst| / 2, uf, e);
      newMst := Some(RemoveFirst(mst, removed) + [e]);
    }
  }

  /** The driver's steps 1 to 5 on any graph: build the tree, stop if it is
      empty, and otherwise swap its middle edge. */
  method SwapMiddleEdge(g: Graph) returns (mst: seq<Edge>, replacement: Option<Edge>, newMst: Option<seq<Edge>>)
    requires InRange(g.edges, g.vertices)
    ensures Acyclic(mst) && forall a, b :: Linked(mst, a, b) <==> Linked(g.edges, a, b)
    ensures forall e :: e in mst ==> e in g.edges
    ensures mst == [] ==> replacement.None? && newMst.None?
    ensures newMst.Some? <==> replacement.Some?
    ensures mst != [] && replacement.None? ==>
      forall e :: e in g.edges && !SameEndpoints(e, mst[|mst| / 2]) ==>
        Linked(Without(mst, mst[|mst| / 2]), e.source, e.destination)
    ensures replacement.Some? ==>
      && mst != [] && replacement.value in g.edges
      && !SameEndpoints(replacement.value, mst[|mst| / 2])
      && !Linked(Without(mst, mst[|mst| / 2]), replacement.value.source, replacement.value.destination)
    ensures newMst.Some? ==>
      && mst != [] && replacement.Some?
      && newMst.value == Without(mst, mst[|mst| / 2]) + [replacement.value]
      && Acyclic(newMst.value)
      && (forall a, b :: Linked(newMst.value, a, b) <==> Linked(g.edges, a, b))
      && |newMst.value| == |mst|
      && TotalWeight(newMst.value) == TotalWeight(mst) - mst[|mst| / 2].weight + replacement.value.weight
  {
    var sorted;
    sorted, mst := BuildMst(g);
    replacement, newMst := None, None;
    assert forall e :: e in sorted.edges <==> e in g.edges by {
      forall e
        ensures e in sorted.edges <==> e in g.edges
      {
        assert e in sorted.edges <==> e in multiset(sorted.edges);
        assert e in g.edges <==> e in multiset(g.edges);
      }
    }
    SubseqMembers(mst, sorted.edges);
    if mst != [] {
      assert InRange(sorted.edges, g.vertices) by {
        PermutationInRange(g.edges, sorted.edges, g.vertices);
      }
      replacement, newMst := SwapOut(g, sorted, mst);
    }
  }
}
