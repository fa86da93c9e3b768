/**
  Connectivity of an edge list, stated without a union-find, and Kruskal's
  selection rule stated over it. These are the reference definitions the
  union-find based operations of the graph are proved against.
 */
module Forests {
  import opened Edges
  import opened EdgeSorting

  /** Every endpoint lies in `[0, n)`. */
  ghost predicate InRange(es: seq<Edge>, n: int) {
    forall e :: e in es ==> 0 <= e.source < n && 0 <= e.destination < n
  }

  /** `a` and `b` are joined by a path of edges of `es`: the closure built up
      one edge at a time, the last edge joining whatever its endpoints were
      already joined to. */
  ghost predicate Linked(es: seq<Edge>, a: int, b: int)
    decreases |es|
  {
    if es == [] then a == b
    else
      var init, e := es[..|es| - 1], es[|es| - 1];
      || Linked(init, a, b)
      || (Linked(init, a, e.source) && Linked(init, e.destination, b))
      || (Linked(init, a, e.destination) && Linked(init, e.source, b))
  }

  /** The defining step of `Linked`, for a list written as `es + [e]`. */
  lemma LinkedSnoc(es: seq<Edge>, e: Edge, a: int, b: int)
    ensures Linked(es + [e], a, b) <==>
      || Linked(es, a, b)
      || (Linked(es, a, e.source) && Linked(es, e.destination, b))
      || (Linked(es, a, e.destination) && Linked(es, e.source, b))
  {
    assert (es + [e])[..|es|] == es;
  }

  lemma {:induction false} LinkedReflexive(es: seq<Edge>)
    ensures forall a :: Linked(es, a, a)
  {
    if es != [] {
      LinkedReflexive(es[..|es| - 1]);
    }
  }

  lemma {:induction false} LinkedSymmetric(es: seq<Edge>)
    ensures forall a, b :: Linked(es, a, b) ==> Linked(es, b, a)
  {
    if es != [] {
      LinkedSymmetric(es[..|es| - 1]);
    }
  }

  lemma {:induction false} LinkedTransitive(es: seq<Edge>)
    ensures forall a, b, c :: Linked(es, a, b) && Linked(es, b, c) ==> Linked(es, a, c)
  {
    if es != [] {
      var init := es[..|es| - 1];
      LinkedTransitive(init);
      LinkedSymmetric(init);
    }
  }

  /** Adding an edge never separates anything. */
  lemma LinkedExtend(es: seq<Edge>, e: Edge)
    ensures forall a, b :: Linked(es, a, b) ==> Linked(es + [e], a, b)
  {
    forall a, b | Linked(es, a, b)
      ensures Linked(es + [e], a, b)
    {
      LinkedSnoc(es, e, a, b);
    }
  }

  /** Every edge of a list links its own endpoints. */
  lemma {:induction false} LinkedEdge(es: seq<Edge>, e: Edge)
    requires e in es
    ensures Linked(es, e.source, e.destination)
  {
    var init, last := es[..|es| - 1], es[|es| - 1];
    assert es == init + [last];
    LinkedReflexive(init);
    if e != last {
      assert e in init;
      LinkedEdge(init, e);
      LinkedExtend(init, last);
    }
  }

  /** When every edge of `es1` links its endpoints through `es2`, whatever
      `es1` links `es2` links too. */
  lemma {:induction false} LinkedCover(es1: seq<Edge>, es2: seq<Edge>)
    requires forall e :: e in es1 ==> Linked(es2, e.source, e.destination)
    ensures forall a, b :: Linked(es1, a, b) ==> Linked(es2, a, b)
  {
    if es1 == [] {
      LinkedReflexive(es2);
    } else {
      var init := es1[..|es1| - 1];
      assert forall e :: e in init ==> e in es1;
      LinkedCover(init, es2);
      LinkedTransitive(es2);
      LinkedSymmetric(es2);
      var e := es1[|es1| - 1];
      assert e in es1;
      assert Linked(es2, e.source, e.destination);
      forall a, b | Linked(es1, a, b)
        ensures Linked(es2, a, b)
      {
        if Linked(init, a, e.source) && Linked(init, e.destination, b) {
          assert Linked(es2, a, e.source) && Linked(es2, e.destination, b);
        } else if Linked(init, a, e.destination) && Linked(init, e.source, b) {
          assert Linked(es2, a, e.destination) && Linked(es2, e.source, b);
        }
      }
    }
  }

  /** Lists with the same members link the same pairs, whatever their order. */
  lemma SameMembersSameLinks(es1: seq<Edge>, es2: seq<Edge>)
    requires forall e :: e in es1 <==> e in es2
    ensures forall a, b :: Linked(es1, a, b) <==> Linked(es2, a, b)
  {
    forall e | e in es1
      ensures Linked(es2, e.source, e.destination)
    {
      LinkedEdge(es2, e);
    }
    forall e | e in es2
      ensures Linked(es1, e.source, e.destination)
    {
      LinkedEdge(es1, e);
    }
    LinkedCover(es1, es2);
    LinkedCover(es2, es1);
  }

  /** Tags on `[0, n)` that agree on both endpoints of every edge agree on
      every linked pair. */
  lemma {:induction false} LinkedWithinLabels(es: seq<Edge>, tags: seq<int>)
    requires forall e :: e in es ==>
      0 <= e.source < |tags| && 0 <= e.destination < |tags| && tags[e.source] == tags[e.destination]
    ensures forall a, b :: 0 <= a < |tags| && 0 <= b < |tags| && Linked(es, a, b) ==> tags[a] == tags[b]
  {
    if es != [] {
      var init := es[..|es| - 1];
      assert forall e :: e in init ==> e in es;
      LinkedWithinLabels(init, tags);
      assert es[|es| - 1] in es;
    }
  }

  /** No edge closes a cycle: none is linked by the edges before it. This is
      what a union-find sees as "every `union` merges". */
  ghost predicate Acyclic(es: seq<Edge>) {
    forall k :: 0 <= k < |es| ==> !Linked(es[..k], es[k].source, es[k].destination)
  }

  lemma AcyclicSnoc(es: seq<Edge>, e: Edge)
    ensures Acyclic(es + [e]) <==> Acyclic(es) && !Linked(es, e.source, e.destination)
  {
    var s := es + [e];
    assert forall k :: 0 <= k < |es| ==> s[..k] == es[..k] && s[k] == es[k];
    assert s[..|es|] == es;
  }

  lemma AcyclicPrefix(es: seq<Edge>, n: nat)
    requires Acyclic(es) && n <= |es|
    ensures Acyclic(es[..n])
  {
    assert forall k :: 0 <= k < n ==> es[..n][..k] == es[..k] && es[..n][k] == es[k];
  }

  /** `a` is `b` with some elements dropped, order kept. */
  ghost predicate Subseq(a: seq<Edge>, b: seq<Edge>)
    decreases |b|
  {
    if a == [] then true
    else if b == [] then false
    else
      || (a[|a| - 1] == b[|b| - 1] && Subseq(a[..|a| - 1], b[..|b| - 1]))
      || Subseq(a, b[..|b| - 1])
  }

  lemma {:induction false} SubseqMembers(a: seq<Edge>, b: seq<Edge>)
    requires Subseq(a, b)
    ensures forall e :: e in a ==> e in b
  {
    if a != [] {
      var bi := b[..|b| - 1];
      assert forall e :: e in bi ==> e in b;
      if a[|a| - 1] == b[|b| - 1] && Subseq(a[..|a| - 1], bi) {
        SubseqMembers(a[..|a| - 1], bi);
        assert a == a[..|a| - 1] + [a[|a| - 1]];
      } else {
        SubseqMembers(a, bi);
      }
    }
  }

  /** Dropping edges from a forest leaves a forest. */
  lemma {:induction false} SubseqAcyclic(a: seq<Edge>, b: seq<Edge>)
    requires Subseq(a, b) && Acyclic(b)
    ensures Acyclic(a)
  {
    if a != [] {
      var ai, bi := a[..|a| - 1], b[..|b| - 1];
      AcyclicPrefix(b, |b| - 1);
      if a[|a| - 1] == b[|b| - 1] && Subseq(ai, bi) {
        var e := a[|a| - 1];
        SubseqAcyclic(ai, bi);
        SubseqMembers(ai, bi);
        forall f | f in ai
          ensures Linked(bi, f.source, f.destination)
        {
          LinkedEdge(bi, f);
        }
        LinkedCover(ai, bi);
        assert b == bi + [e];
        AcyclicSnoc(bi, e);
        assert a == ai + [e];
        AcyclicSnoc(ai, e);
      } else {
        SubseqAcyclic(a, bi);
      }
    }
  }

  /** Dropping edges from a weight-sorted list leaves it sorted. */
  lemma {:induction false} SubseqSorted(a: seq<Edge>, b: seq<Edge>)
    requires Subseq(a, b) && Sorted(b)
    ensures Sorted(a)
  {
    if a != [] {
      var ai, bi := a[..|a| - 1], b[..|b| - 1];
      assert Sorted(bi);
      if a[|a| - 1] == b[|b| - 1] && Subseq(ai, bi) {
        SubseqSorted(ai, bi);
        SubseqMembers(ai, bi);
        forall i, j | 0 <= i < j < |a|
          ensures a[i].weight <= a[j].weight
        {
          if j == |a| - 1 {
            assert a[i] in ai;
            var k :| 0 <= k < |bi| && bi[k] == a[i];
          } else {
            assert a[i] == ai[i] && a[j] == ai[j];
          }
        }
      } else {
        SubseqSorted(a, bi);
      }
    }
  }

  /** The list without the edges endpoint-equal to `removed` (the skip in the
      replay of the tree and in the replacement scan). */
  function Without(es: seq<Edge>, removed: Edge): (r: seq<Edge>)
    ensures forall e :: e in r <==> e in es && !SameEndpoints(e, removed)
  {
    if es == [] then []
    else (if SameEndpoints(es[0], removed) then [] else [es[0]]) + Without(es[1..], removed)
  }

  lemma {:induction false} WithoutAppend(a: seq<Edge>, b: seq<Edge>, removed: Edge)
    ensures Without(a + b, removed) == Without(a, removed) + Without(b, removed)
  {
    if a == [] {
      assert a + b == b;
    } else {
      assert (a + b)[1..] == a[1..] + b;
      WithoutAppend(a[1..], b, removed);
    }
  }

  lemma {:induction false} WithoutSubseq(es: seq<Edge>, removed: Edge)
    ensures Subseq(Without(es, removed), es)
    decreases |es|
  {
    if es != [] {
      var init, e := es[..|es| - 1], es[|es| - 1];
      assert es == init + [e];
      WithoutAppend(init, [e], removed);
      WithoutSubseq(init, removed);
      var w := Without(init, removed);
      if SameEndpoints(e, removed) {
        assert Without(es, removed) == w;
        if w != [] {
          assert Subseq(w, es);
        }
      } else {
        assert Without(es, removed) == w + [e];
        assert (w + [e])[..|w|] == w;
      }
    }
  }

  lemma {:induction false} WithoutNothing(es: seq<Edge>, removed: Edge)
    requires forall j :: 0 <= j < |es| ==> !SameEndpoints(es[j], removed)
    ensures Without(es, removed) == es
  {
    if es != [] {
      assert forall j :: 0 <= j < |es| - 1 ==> es[1..][j] == es[j + 1];
      WithoutNothing(es[1..], removed);
      assert es == [es[0]] + es[1..];
    }
  }

  /** A forest holds no two endpoint-equal edges. */
  lemma ForestHasNoParallelEdges(es: seq<Edge>, j: nat, k: nat)
    requires Acyclic(es) && j < k < |es|
    ensures !SameEndpoints(es[j], es[k])
  {
    if SameEndpoints(es[j], es[k]) {
      assert es[j] in es[..k];
      LinkedEdge(es[..k], es[j]);
      LinkedSymmetric(es[..k]);
      assert false;
    }
  }

  lemma WithoutNothingSlice(es: seq<Edge>, lo: nat, hi: nat, removed: Edge)
    requires lo <= hi <= |es|
    requires forall j :: lo <= j < hi ==> !SameEndpoints(es[j], removed)
    ensures Without(es[lo..hi], removed) == es[lo..hi]
  {
    var s := es[lo..hi];
    forall j | 0 <= j < |s|
      ensures !SameEndpoints(s[j], removed)
    {
      assert s[j] == es[lo + j];
    }
    WithoutNothing(s, removed);
  }

  lemma {:induction false} WithoutAllButOne(es: seq<Edge>, k: nat, removed: Edge)
    requires k < |es| && SameEndpoints(es[k], removed)
    requires forall j :: 0 <= j < |es| && j != k ==> !SameEndpoints(es[j], removed)
    ensures Without(es, removed) == es[..k] + es[k + 1..]
  {
    var tail := es[1..];
    if k == 0 {
      WithoutNothingSlice(es, 1, |es|, removed);
      assert es[1..|es|] == tail;
    } else {
      assert forall j :: 0 <= j < |tail| ==> tail[j] == es[j + 1];
      WithoutAllButOne(tail, k - 1, removed);
      assert es[..k] == [es[0]] + tail[..k - 1];
      assert es[k + 1..] == tail[k..];
    }
  }

  /** Taking a member out of a forest: the member is the only edge of the
      forest endpoint-equal to it, so exactly one edge goes, and what is left
      is still a forest. */
  lemma RemoveTreeEdge(es: seq<Edge>, k: nat, removed: Edge)
    requires Acyclic(es) && k < |es| && SameEndpoints(es[k], removed)
    ensures Without(es, removed) == es[..k] + es[k + 1..]
    ensures |Without(es, removed)| == |es| - 1
    ensures Acyclic(Without(es, removed))
  {
    forall j | 0 <= j < |es| && j != k
      ensures !SameEndpoints(es[j], removed)
    {
      if j < k {
        ForestHasNoParallelEdges(es, j, k);
      } else {
        ForestHasNoParallelEdges(es, k, j);
      }
    }
    WithoutAllButOne(es, k, removed);
    WithoutSubseq(es, removed);
    SubseqAcyclic(Without(es, removed), es);
  }

  /** Kruskal's rule over a list already in processing order: keep each edge
      whose endpoints the edges kept so far do not already link. */
  ghost function Greedy(es: seq<Edge>): seq<Edge>
    decreases |es|
  {
    if es == [] then []
    else
      var kept, e := Greedy(es[..|es| - 1]), es[|es| - 1];
      if Linked(kept, e.source, e.destination) then kept else kept + [e]
  }

  lemma GreedySnoc(es: seq<Edge>, e: Edge)
    ensures Greedy(es + [e]) ==
      if Linked(Greedy(es), e.source, e.destination) then Greedy(es) else Greedy(es) + [e]
  {
    assert (es + [e])[..|es|] == es;
  }

  /** Kruskal's selection is a forest taken from the list in order, and it
      links the endpoints of every edge of the list. */
  lemma {:induction false} GreedyIsSpanningForest(es: seq<Edge>)
    ensures Subseq(Greedy(es), es)
    ensures Acyclic(Greedy(es))
    ensures forall e :: e in es ==> Linked(Greedy(es), e.source, e.destination)
  {
    if es != [] {
      var init, e := es[..|es| - 1], es[|es| - 1];
      assert es == init + [e];
      GreedyIsSpanningForest(init);
      var g := Greedy(init);
      if Linked(g, e.source, e.destination) {
        if g != [] {
          assert Subseq(g, es);
        }
      } else {
        assert (g + [e])[..|g|] == g;
        AcyclicSnoc(g, e);
        LinkedExtend(g, e);
        LinkedReflexive(g);
        LinkedSnoc(g, e, e.source, e.destination);
      }
    }
  }

  /** Kruskal's selection links exactly what the whole list links. */
  lemma GreedyKeepsConnectivity(es: seq<Edge>)
    ensures forall a, b :: Linked(Greedy(es), a, b) <==> Linked(es, a, b)
  {
    GreedyIsSpanningForest(es);
    SubseqMembers(Greedy(es), es);
    forall e | e in Greedy(es)
      ensures Linked(es, e.source, e.destination)
    {
      LinkedEdge(es, e);
    }
    LinkedCover(Greedy(es), es);
    LinkedCover(es, Greedy(es));
  }

  /** Once the selection from a prefix links every pair of `[0, n)`, no later
      edge inside `[0, n)` is selected. */
  lemma {:induction false} GreedySaturated(es: seq<Edge>, k: nat, n: int)
    requires InRange(es, n) && k <= |es|
    requires forall a, b :: 0 <= a < n && 0 <= b < n ==> Linked(Greedy(es[..k]), a, b)
    ensures Greedy(es) == Greedy(es[..k])
    decreases |es|
  {
    if |es| > k {
      var init, e := es[..|es| - 1], es[|es| - 1];
      assert init[..k] == es[..k];
      assert forall f :: f in init ==> f in es;
      GreedySaturated(init, k, n);
      assert e in es;
    } else {
      assert es[..k] == es;
    }
  }
}
