/**
  Kruskal's selection has minimum total weight: no spanning forest of the
  graph's edges weighs less. The argument counts classes: a forest of `k`
  edges over `n` vertices leaves `n - k` classes, a finer partition has at
  least as many classes, so no forest inside the span of a list has more
  edges than Kruskal's selection from it; applied to every weight threshold,
  this bounds Kruskal's `i`-th lightest edge by any forest's `i`-th.
 */
module Optimality {
  import opened Edges
  import opened EdgeSorting
  import opened UnionFinds
  import opened Forests
  import opened Graphs

  /** `t` is a spanning forest of `edges`: a forest of edges taken from the
      list that joins the endpoints of every edge of the list. */
  ghost predicate SpanningForestOf(t: seq<Edge>, edges: seq<Edge>) {
    && Acyclic(t)
    && (forall e :: e in t ==> e in edges)
    && (forall e :: e in edges ==> Linked(t, e.source, e.destination))
  }

  /** A fresh union-find over `[0, n)` after `union` on every edge of `es`. */
  ghost function Replayed(es: seq<Edge>, n: nat): (uf: UnionFind)
    requires InRange(es, n)
    ensures Valid(uf) && |uf.parent| == n
    decreases |es|
  {
    if es == [] then Init(n)
    else
      var init, e := es[..|es| - 1], es[|es| - 1];
      assert e in es;
      assert forall x :: x in init ==> x in es;
      Union(Replayed(init, n), e.source, e.destination).0
  }

  /** The replayed union-find has exactly the classes that `es` links. */
  lemma {:induction false} ReplayedTracks(es: seq<Edge>, n: nat)
    requires InRange(es, n)
    ensures Tracks(Replayed(es, n), es, n)
    decreases |es|
  {
    if es == [] {
      InitTracksNothing(n);
    } else {
      var init, e := es[..|es| - 1], es[|es| - 1];
      assert e in es;
      assert es == init + [e];
      assert forall x :: x in init ==> x in es;
      ReplayedTracks(init, n);
      UnionTracksEdge(Replayed(init, n), init, e, n);
    }
  }

  /** One replayed edge removes a class exactly when its endpoints were not
      linked yet. */
  lemma ReplayStepCount(uf: UnionFind, es: seq<Edge>, e: Edge, n: nat)
    requires Tracks(uf, es, n) && 0 <= e.source < n && 0 <= e.destination < n
    ensures |Roots(Union(uf, e.source, e.destination).0)|
         == if Linked(es, e.source, e.destination) then |Roots(uf)| else |Roots(uf)| - 1
  {
    UnionTracksEdge(uf, es, e, n);
    UnionRoots(uf, e.source, e.destination);
  }

  /** Replaying `es` leaves at least `n - |es|` classes, exactly `n - |es|`
      when `es` is a forest. */
  lemma {:induction false} ReplayedRootCount(es: seq<Edge>, n: nat)
    requires InRange(es, n)
    ensures |Roots(Replayed(es, n))| + |es| >= n
    ensures |Roots(Replayed(es, n))| + |es| == n <==> Acyclic(es)
    decreases |es|
  {
    if es == [] {
      assert |Roots(Init(n))| == n;
    } else {
      var init, e := es[..|es| - 1], es[|es| - 1];
      assert e in es;
      assert es == init + [e];
      assert forall x :: x in init ==> x in es;
      AcyclicSnoc(init, e);
      ReplayedRootCount(init, n);
      ReplayedTracks(init, n);
      ReplayStepCount(Replayed(init, n), init, e, n);
    }
  }

  /** Replaying a list that links more leaves no more classes. */
  lemma RootCountFollowsLinks(a: seq<Edge>, b: seq<Edge>, n: nat)
    requires InRange(a, n) && InRange(b, n)
    requires forall x, y :: Linked(a, x, y) ==> Linked(b, x, y)
    ensures |Roots(Replayed(b, n))| <= |Roots(Replayed(a, n))|
  {
    ReplayedTracks(a, n);
    ReplayedTracks(b, n);
    RefinementHasMoreRoots(Replayed(a, n), Replayed(b, n));
  }

  /** The images under `f` of the elements of `s` that index it. */
  ghost function Image(f: seq<int>, s: set<int>): set<int> {
    set x | x in s && 0 <= x < |f| :: f[x]
  }

  /** The elements of `s` in `[0, k)`. */
  ghost function Below(s: set<int>, k: int): set<int> {
    set x | x in s && 0 <= x < k
  }

  /** An image is no larger than the set it is taken of: induction on the
      threshold `k`. */
  lemma {:induction false} ImageNoLarger(f: seq<int>, s: set<int>, k: nat)
    ensures |Image(f, Below(s, k))| <= |Below(s, k)|
  {
    if k == 0 {
      assert Below(s, k) == {};
      assert Image(f, Below(s, k)) == {};
    } else {
      ImageNoLarger(f, s, k - 1);
      if k - 1 in s {
        assert Below(s, k) == Below(s, k - 1) + {k - 1};
        if k - 1 < |f| {
          assert Image(f, Below(s, k)) == Image(f, Below(s, k - 1)) + {f[k - 1]};
        } else {
          assert Image(f, Below(s, k)) == Image(f, Below(s, k - 1));
        }
      } else {
        assert Below(s, k) == Below(s, k - 1);
      }
    }
  }

  /** A union-find whose classes refine another's has at least as many
      classes. */
  lemma RefinementHasMoreRoots(u1: UnionFind, u2: UnionFind)
    requires Valid(u1) && Valid(u2) && |u1.parent| == |u2.parent|
    requires forall a, b :: 0 <= a < |u1.parent| && 0 <= b < |u1.parent| && Same(u1, a, b) ==> Same(u2, a, b)
    ensures |Roots(u2)| <= |Roots(u1)|
  {
    var s := Roots(u1);
    var f := seq(|u2.parent|, x requires 0 <= x < |u2.parent| => Root(u2, x));
    forall r | r in Roots(u2)
      ensures r in Image(f, s)
    {
      var r1 := Root(u1, r);
      RootIsFixedPoint(u1, r1);
      RootIsFixedPoint(u2, r);
      assert Same(u1, r, r1);
      assert r1 in s && f[r1] == r;
    }
    ImageNoLarger(f, s, |u1.parent|);
    assert Below(s, |u1.parent|) == s;
    SubsetNoLarger(Roots(u2), Image(f, s));
  }

  lemma SubsetNoLarger(a: set<int>, b: set<int>)
    requires a <= b
    ensures |a| <= |b|
  {
    assert b == a + (b - a);
  }

  /** No forest whose edges the list `l` links has more edges than
      Kruskal's selection from `l`. */
  lemma ForestNoLargerThanGreedy(a: seq<Edge>, l: seq<Edge>, n: nat)
    requires InRange(a, n) && InRange(l, n) && Acyclic(a)
    requires forall e :: e in a ==> Linked(l, e.source, e.destination)
    ensures |a| <= |Greedy(l)|
  {
    var g := Greedy(l);
    GreedyIsSpanningForest(l);
    SubseqMembers(g, l);
    GreedyKeepsConnectivity(l);
    LinkedCover(a, l);
    RootCountFollowsLinks(a, g, n);
    ReplayedRootCount(a, n);
    ReplayedRootCount(g, n);
  }

  /** Kruskal's rule keeps every edge of a forest. */
  lemma {:induction false} GreedyOfForest(s: seq<Edge>)
    requires Acyclic(s)
    ensures Greedy(s) == s
  {
    if s != [] {
      var init, e := s[..|s| - 1], s[|s| - 1];
      assert s == init + [e];
      AcyclicPrefix(s, |s| - 1);
      GreedyOfForest(init);
      GreedySnoc(init, e);
    }
  }

  /** Being a forest does not depend on the order of the edges. */
  lemma AcyclicPermutation(a: seq<Edge>, b: seq<Edge>, n: nat)
    requires InRange(a, n) && multiset(a) == multiset(b) && Acyclic(a)
    ensures Acyclic(b)
  {
    assert forall e :: e in a <==> e in b by {
      forall e
        ensures e in a <==> e in b
      {
        assert e in a <==> e in multiset(a);
        assert e in b <==> e in multiset(b);
      }
    }
    assert InRange(b, n);
    SameMembersSameLinks(a, b);
    RootCountFollowsLinks(a, b, n);
    RootCountFollowsLinks(b, a, n);
    ReplayedRootCount(a, n);
    ReplayedRootCount(b, n);
    assert |a| == |multiset(a)| == |multiset(b)| == |b|;
  }

  /** Kruskal's selection from a prefix is a prefix of the selection from
      the whole list. */
  lemma {:induction false} GreedyPrefixOf(es: seq<Edge>, k: nat)
    requires k <= |es|
    ensures |Greedy(es[..k])| <= |Greedy(es)|
    ensures Greedy(es[..k]) == Greedy(es)[..|Greedy(es[..k])|]
    decreases |es|
  {
    if k == |es| {
      assert es[..k] == es;
    } else {
      var init, e := es[..|es| - 1], es[|es| - 1];
      assert es[..k] == init[..k];
      GreedyPrefixOf(init, k);
      assert es == init + [e];
      GreedySnoc(init, e);
    }
  }

  /** The number of leading edges no heavier than `w`. */
  function LighterPrefix(es: seq<Edge>, w: int): (k: nat)
    ensures k <= |es|
    ensures forall i :: 0 <= i < k ==> es[i].weight <= w
    ensures k < |es| ==> es[k].weight > w
  {
    if es == [] || es[0].weight > w then 0
    else 1 + LighterPrefix(es[1..], w)
  }

  /** In a sorted list, that prefix holds every edge no heavier than `w`. */
  lemma LighterPrefixHoldsLighter(es: seq<Edge>, w: int, e: Edge)
    requires Sorted(es) && e in es && e.weight <= w
    ensures e in es[..LighterPrefix(es, w)]
  {
    var k := LighterPrefix(es, w);
    var j :| 0 <= j < |es| && es[j] == e;
    assert j < k;
    assert es[..k][j] == e;
  }

  /** Equal lists up to order weigh the same. */
  lemma {:induction false} TotalWeightPermutation(a: seq<Edge>, b: seq<Edge>)
    requires multiset(a) == multiset(b)
    ensures TotalWeight(a) == TotalWeight(b)
    decreases |a|
  {
    if a == [] {
      assert |b| == |multiset(b)| == 0;
    } else {
      var x := a[0];
      assert x in multiset(b);
      var j :| 0 <= j < |b| && b[j] == x;
      var lo, hi := b[..j], b[j + 1..];
      assert b == lo + ([x] + hi);
      assert a == [x] + a[1..];
      assert multiset([x] + hi) == multiset{x} + multiset(hi);
      assert multiset(lo + hi) == multiset(b) - multiset{x};
      assert multiset(a[1..]) == multiset(a) - multiset{x};
      TotalWeightPermutation(a[1..], lo + hi);
      TotalWeightAppend(lo, [x] + hi);
      TotalWeightAppend(lo, hi);
      assert ([x] + hi)[1..] == hi;
    }
  }

  /** Pairing the edges position by position, a list lighter at every
      position weighs less. */
  lemma {:induction false} PairwiseLighter(f: seq<Edge>, t: seq<Edge>)
    requires |f| == |t| && forall i :: 0 <= i < |f| ==> f[i].weight <= t[i].weight
    ensures TotalWeight(f) <= TotalWeight(t)
  {
    if f != [] {
      PairwiseLighter(f[1..], t[1..]);
    }
  }

  /** The lightest `i + 1` edges of a sorted forest of the list's edges are
      all linked by the list's prefix of edges no heavier than the `i`-th. */
  lemma PrefixLinksLighter(es: seq<Edge>, s: seq<Edge>, i: nat)
    requires Sorted(es) && Sorted(s) && i < |s| && forall e :: e in s ==> e in es
    ensures forall e :: e in s[..i + 1] ==> Linked(es[..LighterPrefix(es, s[i].weight)], e.source, e.destination)
  {
    var w := s[i].weight;
    var p := es[..LighterPrefix(es, w)];
    forall e | e in s[..i + 1]
      ensures Linked(p, e.source, e.destination)
    {
      var j :| 0 <= j <= i && s[j] == e;
      assert s[j].weight <= w;
      LighterPrefixHoldsLighter(es, w, e);
      LinkedEdge(p, e);
    }
  }

  /** Every edge of the prefix of edges no heavier than `w` is no heavier
      than `w`. */
  lemma LighterPrefixMembers(es: seq<Edge>, w: int, x: Edge)
    requires x in es[..LighterPrefix(es, w)]
    ensures x.weight <= w
  {
    var k := LighterPrefix(es, w);
    var j :| 0 <= j < k && es[..k][j] == x;
    assert es[j] == x;
  }

  /** The `i`-th edge of Kruskal's selection from a sorted list is no
      heavier than the `i`-th lightest edge of any forest of its edges. */
  lemma KruskalLighterAt(es: seq<Edge>, s: seq<Edge>, n: nat, i: nat)
    requires Sorted(es) && InRange(es, n)
    requires Sorted(s) && Acyclic(s) && forall e :: e in s ==> e in es
    requires i < |s| && i < |Greedy(es)|
    ensures Greedy(es)[i].weight <= s[i].weight
  {
    var k := LighterPrefix(es, s[i].weight);
    var p := es[..k];
    var g := Greedy(p);
    assert i < |g| by {
      assert InRange(p, n) by {
        assert forall x :: x in p ==> x in es;
      }
      assert InRange(s[..i + 1], n) by {
        assert forall x :: x in s[..i + 1] ==> x in s;
      }
      AcyclicPrefix(s, i + 1);
      PrefixLinksLighter(es, s, i);
      ForestNoLargerThanGreedy(s[..i + 1], p, n);
    }
    assert g[i] == Greedy(es)[i] by {
      GreedyPrefixOf(es, k);
    }
    assert g[i] in p by {
      GreedyIsSpanningForest(p);
      SubseqMembers(g, p);
    }
    LighterPrefixMembers(es, s[i].weight, g[i]);
  }

  /** Kruskal's selection from a sorted list weighs no more than any
      spanning forest of the list. */
  lemma KruskalIsMinimal(es: seq<Edge>, t: seq<Edge>, n: nat)
    requires Sorted(es) && InRange(es, n) && SpanningForestOf(t, es)
    ensures TotalWeight(Greedy(es)) <= TotalWeight(t)
  {
    var f := Greedy(es);
    var s := SortByWeight(t);
    SortByWeightIsStableSort(t);
    assert forall e :: e in s <==> e in t by {
      forall e
        ensures e in s <==> e in t
      {
        assert e in s <==> e in multiset(s);
        assert e in t <==> e in multiset(t);
      }
    }
    AcyclicPermutation(t, s, n);
    SameMembersSameLinks(t, s);
    GreedyIsSpanningForest(es);
    SubseqMembers(f, es);
    forall e | e in s
      ensures Linked(es, e.source, e.destination)
    {
      LinkedEdge(es, e);
    }
    ForestNoLargerThanGreedy(s, es, n);
    ForestNoLargerThanGreedy(f, s, n);
    GreedyOfForest(s);
    forall i | 0 <= i < |f|
      ensures f[i].weight <= s[i].weight
    {
      KruskalLighterAt(es, s, n, i);
    }
    PairwiseLighter(f, s);
    TotalWeightPermutation(s, t);
  }

  /** What `buildMST` returns (the re-ordered graph and Kruskal's selection
      from it, as `Graphs.BuildMst` ensures) is a minimum spanning forest of
      the graph: a spanning forest of its edges that weighs no more than any
      other. */
  lemma BuildMstIsMinimal(g: Graph, sorted: Graph, mst: seq<Edge>, t: seq<Edge>)
    requires InRange(g.edges, g.vertices)
    requires Sorted(sorted.edges) && multiset(sorted.edges) == multiset(g.edges)
    requires mst == Greedy(sorted.edges)
    requires SpanningForestOf(t, g.edges)
    ensures SpanningForestOf(mst, g.edges)
    ensures TotalWeight(mst) <= TotalWeight(t)
  {
    var es := sorted.edges;
    assert forall e :: e in es <==> e in g.edges by {
      forall e
        ensures e in es <==> e in g.edges
      {
        assert e in es <==> e in multiset(es);
        assert e in g.edges <==> e in multiset(g.edges);
      }
    }
    PermutationInRange(g.edges, es, g.vertices);
    KruskalOutcome(g.edges, es, mst);
    SubseqMembers(mst, es);
    KruskalIsMinimal(es, t, g.vertices);
  }

  /** A union-find in which every two elements are in one class has a single
      root. */
  lemma AllSameOneRoot(uf: UnionFind)
    requires Valid(uf) && |uf.parent| > 0
    requires forall a, b :: 0 <= a < |uf.parent| && 0 <= b < |uf.parent| ==> Same(uf, a, b)
    ensures |Roots(uf)| == 1
  {
    var r0 := Root(uf, 0);
    RootIsFixedPoint(uf, 0);
    RootIsFixedPoint(uf, r0);
    forall r | r in Roots(uf)
      ensures r == r0
    {
      RootIsFixedPoint(uf, r);
      assert Same(uf, r, 0);
    }
    assert Roots(uf) == {r0};
  }

  /** `es` joins every two of the vertices `[0, n)`. */
  ghost predicate JoinsAll(es: seq<Edge>, n: nat) {
    forall a, b :: 0 <= a < n && 0 <= b < n ==> Linked(es, a, b)
  }

  /** A forest that joins every pair of the `n > 0` vertices has `n - 1`
      edges. */
  lemma ConnectedForestSize(t: seq<Edge>, n: nat)
    requires InRange(t, n) && Acyclic(t) && n > 0
    requires JoinsAll(t, n)
    ensures |t| == n - 1
  {
    var u := Replayed(t, n);
    assert forall a, b :: 0 <= a < n && 0 <= b < n ==> Same(u, a, b) by {
      ReplayedTracks(t, n);
    }
    AllSameOneRoot(u);
    ReplayedRootCount(t, n);
  }

  /** A forest of `n - 1` edges over `n > 0` vertices joins every pair. */
  lemma SizedForestConnected(t: seq<Edge>, n: nat)
    requires InRange(t, n) && Acyclic(t) && n > 0 && |t| == n - 1
    ensures JoinsAll(t, n)
  {
    var u := Replayed(t, n);
    assert |Roots(u)| == 1 by {
      ReplayedRootCount(t, n);
    }
    OneRootOneClass(u);
    ReplayedTracks(t, n);
  }

  /** A forest over `n > 0` vertices has `n - 1` edges exactly when it joins
      every pair of vertices. */
  lemma ForestSizeDetectsConnectivity(t: seq<Edge>, n: nat)
    requires InRange(t, n) && Acyclic(t) && n > 0
    ensures |t| == n - 1 <==> JoinsAll(t, n)
  {
    if JoinsAll(t, n) {
      ConnectedForestSize(t, n);
    }
    if |t| == n - 1 {
      SizedForestConnected(t, n);
    }
  }

  /** The size of what `buildMST` returns tells whether the graph is
      connected: `vertices - 1` edges exactly when every two vertices are
      joined, fewer otherwise. */
  lemma BuildMstSizeDetectsConnectivity(g: Graph, sorted: Graph, mst: seq<Edge>)
    requires InRange(g.edges, g.vertices) && g.vertices > 0
    requires Sorted(sorted.edges) && multiset(sorted.edges) == multiset(g.edges)
    requires mst == Greedy(sorted.edges)
    ensures |mst| <= g.vertices - 1
    ensures |mst| == g.vertices - 1 <==> JoinsAll(g.edges, g.vertices)
  {
    PermutationInRange(g.edges, sorted.edges, g.vertices);
    KruskalOutcome(g.edges, sorted.edges, mst);
    SubseqMembers(mst, sorted.edges);
    ReplayedRootCount(mst, g.vertices);
    assert |Roots(Replayed(mst, g.vertices))| >= 1 by {
      var u := Replayed(mst, g.vertices);
      RootIsFixedPoint(u, 0);
      assert Root(u, 0) in Roots(u);
    }
    ForestSizeDetectsConnectivity(mst, g.vertices);
    assert JoinsAll(mst, g.vertices) <==> JoinsAll(g.edges, g.vertices);
  }
}
