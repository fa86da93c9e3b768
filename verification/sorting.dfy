/**
  `Collections.sort` on a list of edges: a stable sort under `compareTo`,
  that is, by weight alone, equal weights keeping their list order.
 */
module EdgeSorting {
  import opened Edges

  /** Non-decreasing in weight. */
  ghost predicate Sorted(s: seq<Edge>) {
    forall i, j :: 0 <= i < j < |s| ==> s[i].weight <= s[j].weight
  }

  /** The edges of weight `w`, in list order. A sort is stable exactly when
      it keeps each of these subsequences as it was. */
  function WithWeight(s: seq<Edge>, w: int): seq<Edge>
  {
    if s == [] then []
    else (if s[0].weight == w then [s[0]] else []) + WithWeight(s[1..], w)
  }

  lemma SortedCons(x: Edge, s: seq<Edge>)
    requires Sorted(s)
    requires forall y :: y in s ==> x.weight <= y.weight
    ensures Sorted([x] + s)
  {
    var r := [x] + s;
    forall i, j | 0 <= i < j < |r|
      ensures r[i].weight <= r[j].weight
    {
      if i == 0 {
        assert r[j] == s[j - 1];
      } else {
        assert r[i] == s[i - 1] && r[j] == s[j - 1];
      }
    }
  }

  /** The head of a sorted list is no heavier than anything in it. */
  lemma HeadIsLightest(t: seq<Edge>)
    requires Sorted(t)
    ensures forall y :: y in t ==> t[0].weight <= y.weight
  {
    forall y | y in t
      ensures t[0].weight <= y.weight
    {
      var k :| 0 <= k < |t| && t[k] == y;
    }
  }

  /** A lower bound on the weights of `s` and on `e` bounds whatever holds
      exactly the elements of `s` and `e`. */
  lemma LowerBoundKept(lo: int, e: Edge, s: seq<Edge>, r: seq<Edge>)
    requires multiset(r) == multiset(s) + multiset{e}
    requires lo <= e.weight
    requires forall y :: y in s ==> lo <= y.weight
    ensures forall y :: y in r ==> lo <= y.weight
  {
    forall y | y in r
      ensures lo <= y.weight
    {
      assert y in multiset(r);
      if y != e {
        assert y in multiset(s);
      }
    }
  }

  /** Places `e` in front of the first element that does not compare below
      it, so `e` stays ahead of the equal-weight elements that follow it. */
  function Insert(e: Edge, t: seq<Edge>): seq<Edge>
  {
    if t == [] || CompareTo(e, t[0]) <= 0 then [e] + t
    else [t[0]] + Insert(e, t[1..])
  }

  /** Inserting into a sorted list keeps it sorted and adds exactly `e`. */
  lemma {:induction false} InsertSorted(e: Edge, t: seq<Edge>)
    requires Sorted(t)
    ensures Sorted(Insert(e, t))
    ensures multiset(Insert(e, t)) == multiset(t) + multiset{e}
  {
    if t == [] || CompareTo(e, t[0]) <= 0 {
      HeadIsLightest(t);
      SortedCons(e, t);
    } else {
      var tail := t[1..];
      assert t == [t[0]] + tail;
      InsertSorted(e, tail);
      var rest := Insert(e, tail);
      HeadIsLightest(t);
      LowerBoundKept(t[0].weight, e, tail, rest);
      SortedCons(t[0], rest);
    }
  }

  /** `Insert` puts `e` ahead of every equal-weight element of `t` and leaves
      the other equal-weight subsequences alone. */
  lemma {:induction false} InsertIsStable(e: Edge, t: seq<Edge>, w: int)
    ensures WithWeight(Insert(e, t), w) == (if e.weight == w then [e] else []) + WithWeight(t, w)
  {
    if t == [] || CompareTo(e, t[0]) <= 0 {
      assert ([e] + t)[1..] == t;
    } else {
      var rest := Insert(e, t[1..]);
      InsertIsStable(e, t[1..], w);
      assert ([t[0]] + rest)[1..] == rest;
    }
  }

  /** The stable sort by weight: an insertion sort. */
  function SortByWeight(s: seq<Edge>): seq<Edge>
  {
    if s == [] then [] else Insert(s[0], SortByWeight(s[1..]))
  }

  /** `SortByWeight` gives a permutation sorted by weight that keeps every
      equal-weight subsequence as it was: a stable sort. By
      `StableSortIsUnique`, every stable sort gives this same list. */
  lemma {:induction false} SortByWeightIsStableSort(s: seq<Edge>)
    ensures Sorted(SortByWeight(s))
    ensures |SortByWeight(s)| == |s| && multiset(SortByWeight(s)) == multiset(s)
    ensures forall w :: WithWeight(SortByWeight(s), w) == WithWeight(s, w)
  {
    if s != [] {
      var t := SortByWeight(s[1..]);
      SortByWeightIsStableSort(s[1..]);
      InsertSorted(s[0], t);
      assert s == [s[0]] + s[1..];
      var r := SortByWeight(s);
      assert |r| == |multiset(r)|;
      forall w
        ensures WithWeight(r, w) == WithWeight(s, w)
      {
        InsertIsStable(s[0], t, w);
      }
    }
  }

  lemma WithWeightHead(s: seq<Edge>)
    requires s != []
    ensures WithWeight(s, s[0].weight) != [] && WithWeight(s, s[0].weight)[0] == s[0]
  {
  }

  lemma {:induction false} WithWeightMembers(s: seq<Edge>, w: int)
    ensures forall e :: e in WithWeight(s, w) ==> e in s && e.weight == w
  {
    if s != [] {
      WithWeightMembers(s[1..], w);
    }
  }

  /** Two sorted lists with the same equal-weight subsequences start alike. */
  lemma HeadsAgree(a: seq<Edge>, b: seq<Edge>)
    requires Sorted(a) && Sorted(b) && a != [] && b != []
    requires forall w :: WithWeight(a, w) == WithWeight(b, w)
    ensures a[0] == b[0]
  {
    WithWeightHead(a);
    WithWeightHead(b);
    var wa, wb := a[0].weight, b[0].weight;
    WithWeightMembers(b, wa);
    WithWeightMembers(a, wb);
    var x := WithWeight(b, wa)[0];
    assert x in b && x.weight == wa;
    var k :| 0 <= k < |b| && b[k] == x;
    assert b[0].weight <= b[k].weight;
    var y := WithWeight(a, wb)[0];
    assert y in a && y.weight == wb;
    var j :| 0 <= j < |a| && a[j] == y;
    assert a[0].weight <= a[j].weight;
  }

  /** A stable sort by weight has only one possible result: two lists that
      are both sorted and have the same equal-weight subsequences coincide. */
  lemma {:induction false} StableSortIsUnique(a: seq<Edge>, b: seq<Edge>)
    requires Sorted(a) && Sorted(b)
    requires forall w :: WithWeight(a, w) == WithWeight(b, w)
    ensures a == b
    decreases |a|
  {
    if a == [] || b == [] {
      if a != [] {
        WithWeightHead(a);
        assert false;
      } else if b != [] {
        WithWeightHead(b);
        assert false;
      }
    } else {
      HeadsAgree(a, b);
      forall w
        ensures WithWeight(a[1..], w) == WithWeight(b[1..], w)
      {
        var p := if a[0].weight == w then [a[0]] else [];
        assert WithWeight(a, w) == p + WithWeight(a[1..], w);
        assert WithWeight(b, w) == p + WithWeight(b[1..], w);
        assert WithWeight(a[1..], w) == WithWeight(a, w)[|p|..];
        assert WithWeight(b[1..], w) == WithWeight(b, w)[|p|..];
      }
      StableSortIsUnique(a[1..], b[1..]);
      assert a == [a[0]] + a[1..];
      assert b == [b[0]] + b[1..];
    }
  }
}
