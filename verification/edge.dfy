/**
  The undirected weighted edge of the graph: an immutable record whose
  ordering looks at the weight only and whose equality looks at the
  unordered pair of endpoints only.
 */
module Edges {

  /** An edge `source -- destination` carrying an integer weight. The
      datatype constructor stores the three fields verbatim and the field
      selectors play the part of the getters. */
  datatype Edge = Edge(source: int, destination: int, weight: int)

  /** Sign of an integer, as -1, 0 or 1. */
  function Sign(x: int): int {
    if x < 0 then -1 else if x == 0 then 0 else 1
  }

  /** `compareTo`: `Integer.compare` on the two weights. */
  function CompareTo(a: Edge, b: Edge): (c: int)
    ensures c == Sign(a.weight - b.weight)
    ensures c < 0 <==> a.weight < b.weight
    ensures c == 0 <==> a.weight == b.weight
    ensures c > 0 <==> a.weight > b.weight
  {
    if a.weight < b.weight then -1
    else if a.weight == b.weight then 0
    else 1
  }

  /** `equals`: the same unordered pair of endpoints, whatever the weights. */
  predicate SameEndpoints(a: Edge, b: Edge) {
    || (a.source == b.source && a.destination == b.destination)
    || (a.source == b.destination && a.destination == b.source)
  }

  function Min(x: int, y: int): int { if x <= y then x else y }
  function Max(x: int, y: int): int { if x <= y then y else x }

  /** The pair that `hashCode` feeds to the hash: smaller endpoint first.
      The numeric hash itself is not modelled, only what it depends on. */
  function HashKey(e: Edge): (k: (int, int))
    ensures k.0 <= k.1
    ensures multiset{k.0, k.1} == multiset{e.source, e.destination}
  {
    (Min(e.source, e.destination), Max(e.source, e.destination))
  }

  /** Endpoint equality is the same thing as equality of the endpoint
      multisets; in particular the weights play no part. */
  lemma SameEndpointsIsEndpointMultisetEquality(a: Edge, b: Edge)
    ensures SameEndpoints(a, b)
        <==> multiset{a.source, a.destination} == multiset{b.source, b.destination}
  {
    var ma := multiset{a.source, a.destination};
    var mb := multiset{b.source, b.destination};
    if ma == mb {
      assert a.source in mb;
      assert ma[a.source] == mb[a.source];
      if a.source == b.source {
        assert (ma - multiset{a.source}) == multiset{a.destination};
        assert (mb - multiset{b.source}) == multiset{b.destination};
      } else {
        assert a.source == b.destination;
        assert (ma - multiset{a.source}) == multiset{a.destination};
        assert (mb - multiset{b.destination}) == multiset{b.source};
      }
    }
  }

  /** `equals` and `hashCode` agree in both directions: two edges are equal
      exactly when their hash keys are equal. */
  lemma SameEndpointsIffSameHashKey(a: Edge, b: Edge)
    ensures SameEndpoints(a, b) <==> HashKey(a) == HashKey(b)
  {
    SameEndpointsIsEndpointMultisetEquality(a, b);
    var ka, kb := HashKey(a), HashKey(b);
    if ka == kb {
      assert multiset{a.source, a.destination} == multiset{b.source, b.destination};
    }
  }

  /** `equals` is an equivalence relation. */
  lemma SameEndpointsIsEquivalence(a: Edge, b: Edge, c: Edge)
    ensures SameEndpoints(a, a)
    ensures SameEndpoints(a, b) ==> SameEndpoints(b, a)
    ensures SameEndpoints(a, b) && SameEndpoints(b, c) ==> SameEndpoints(a, c)
  {
  }

  /** The weight never affects equality. */
  lemma SameEndpointsIgnoresWeight(a: Edge, b: Edge, w: int, w': int)
    ensures SameEndpoints(a, b) <==> SameEndpoints(a.(weight := w), b.(weight := w'))
  {
  }

  /** The ordering is not consistent with equality: parallel edges of
      different weights are equal yet compare as unequal. */
  lemma OrderingInconsistentWithEquality()
    ensures exists a: Edge, b: Edge :: SameEndpoints(a, b) && CompareTo(a, b) != 0
  {
    var a, b := Edge(0, 1, 5), Edge(1, 0, 2);
    assert SameEndpoints(a, b) && CompareTo(a, b) == 1;
  }
}
