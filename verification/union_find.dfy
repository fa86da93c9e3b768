/**
  The disjoint-set forest over the elements `[0, n)`: a parent array with
  full path compression in `Find` and union by rank in `Union`. The
  structure is a value; every operation returns the updated structure
  along with its answer, which is how the in-place updates of the arrays
  (including those made by path compression) are modelled.
 */
module UnionFinds {

  datatype UnionFind = UnionFind(parent: seq<int>, rank: seq<nat>)

  /** The representation invariant: parents stay in range and a non-root
      has a strictly smaller rank than its parent. The second half makes
      every parent chain reach a root and gives `Root` its termination
      measure. */
  ghost predicate Valid(uf: UnionFind) {
    && |uf.rank| == |uf.parent|
    && (forall i :: 0 <= i < |uf.parent| ==> 0 <= uf.parent[i] < |uf.parent|)
    && (forall i :: 0 <= i < |uf.parent| && uf.parent[i] != i ==> uf.rank[i] < uf.rank[uf.parent[i]])
  }

  /** The largest rank, an upper bound for the measure of `Root`. */
  function MaxRank(r: seq<nat>): (m: nat)
    ensures forall i :: 0 <= i < |r| ==> r[i] <= m
    ensures r != [] ==> exists i :: 0 <= i < |r| && r[i] == m
  {
    if r == [] then 0
    else
      var m' := MaxRank(r[1..]);
      assert forall i :: 1 <= i < |r| ==> r[i] == r[1..][i - 1];
      if r[0] > m' then r[0] else m'
  }

  /** The representative of `x`: follow parent pointers until a fixed
      point. This is the ghost "root-of" map; it never changes anything. */
  ghost function Root(uf: UnionFind, x: int): (r: int)
    requires Valid(uf) && 0 <= x < |uf.parent|
    ensures 0 <= r < |uf.parent| && uf.parent[r] == r
    ensures uf.rank[x] <= uf.rank[r]
    ensures uf.parent[x] != x ==> uf.rank[x] < uf.rank[r]
    decreases MaxRank(uf.rank) - uf.rank[x]
  {
    if uf.parent[x] == x then x else Root(uf, uf.parent[x])
  }

  /** `x` and `y` are in the same class. */
  ghost predicate Same(uf: UnionFind, x: int, y: int)
    requires Valid(uf) && 0 <= x < |uf.parent| && 0 <= y < |uf.parent|
  {
    Root(uf, x) == Root(uf, y)
  }

  /** `a` and `b` are valid structures over the same elements and every
      element has the same root in both: the same classes, the same
      representatives. */
  ghost predicate SameRoots(a: UnionFind, b: UnionFind) {
    && Valid(a) && Valid(b) && |a.parent| == |b.parent|
    && forall i :: 0 <= i < |b.parent| ==> Root(a, i) == Root(b, i)
  }

  /** `uf'` is `uf` with root `l` hung under root `w`: the class of `l`
      moves into the class of `w`, every other element keeps its root. */
  ghost predicate Relinked(uf: UnionFind, uf': UnionFind, w: int, l: int) {
    && Valid(uf) && Valid(uf') && |uf'.parent| == |uf.parent|
    && forall i :: 0 <= i < |uf.parent| ==>
         Root(uf', i) == if Root(uf, i) == l then w else Root(uf, i)
  }

  /** The roots, one per class; its size is the number of classes. */
  ghost function Roots(uf: UnionFind): set<int> {
    set i | 0 <= i < |uf.parent| && uf.parent[i] == i
  }

  /** `i` lies on the parent chain that leads from `x` to its root. */
  ghost predicate OnPath(uf: UnionFind, x: int, i: int)
    requires Valid(uf) && 0 <= x < |uf.parent|
    decreases MaxRank(uf.rank) - uf.rank[x]
  {
    i == x || (uf.parent[x] != x && OnPath(uf, uf.parent[x], i))
  }

  /** Every element of a chain has the chain's root. */
  lemma {:induction false} OnPathSameRoot(uf: UnionFind, x: int, i: int)
    requires Valid(uf) && 0 <= x < |uf.parent| && OnPath(uf, x, i)
    ensures 0 <= i < |uf.parent| && Root(uf, i) == Root(uf, x)
    decreases MaxRank(uf.rank) - uf.rank[x]
  {
    if i != x {
      OnPathSameRoot(uf, uf.parent[x], i);
    }
  }

  /** The elements `[0, n)` as a set. */
  function Upto(n: nat): (r: set<int>)
    ensures |r| == n
    ensures forall i :: i in r <==> 0 <= i < n
  {
    if n == 0 then {} else Upto(n - 1) + {n - 1}
  }

  /** `new UnionFind(n)`: every element its own singleton class of rank 0. */
  function Init(n: nat): (uf: UnionFind)
    ensures Valid(uf) && |uf.parent| == n
    ensures forall i :: 0 <= i < n ==> uf.parent[i] == i && uf.rank[i] == 0
    ensures forall i :: 0 <= i < n ==> Root(uf, i) == i
    ensures forall x, y :: 0 <= x < n && 0 <= y < n ==> (Same(uf, x, y) <==> x == y)
    ensures |Roots(uf)| == n
  {
    var uf := UnionFind(seq(n, i => i), seq(n, i => 0));
    assert Roots(uf) == Upto(n);
    uf
  }

  /** A root is its own representative and the only element that is. */
  lemma RootIsFixedPoint(uf: UnionFind, i: int)
    requires Valid(uf) && 0 <= i < |uf.parent|
    ensures uf.parent[i] == i <==> Root(uf, i) == i
    ensures Root(uf, Root(uf, i)) == Root(uf, i)
  {
  }

  /** Pointing `x` straight at its root changes no element's root. */
  lemma {:induction false} RedirectKeepsRoot(uf: UnionFind, uf': UnionFind, x: int, i: int)
    requires Valid(uf) && Valid(uf') && 0 <= x < |uf.parent|
    requires uf'.parent == uf.parent[x := Root(uf, x)]
    requires 0 <= i < |uf.parent|
    ensures Root(uf', i) == Root(uf, i)
    decreases MaxRank(uf.rank) - uf.rank[i]
  {
    if i == x {
      var r := Root(uf, x);
      if r != x {
        assert uf'.parent[r] == r;
      }
    } else if uf.parent[i] != i {
      RedirectKeepsRoot(uf, uf', x, uf.parent[i]);
    }
  }

  /** Hanging root `b` under root `a` moves exactly the class of `b` into
      the class of `a`. */
  lemma {:induction false} LinkRoot(uf: UnionFind, uf': UnionFind, a: int, b: int, i: int)
    requires Valid(uf) && Valid(uf')
    requires 0 <= a < |uf.parent| && 0 <= b < |uf.parent| && a != b
    requires uf.parent[a] == a && uf.parent[b] == b
    requires uf'.parent == uf.parent[b := a]
    requires 0 <= i < |uf.parent|
    ensures Root(uf', i) == if Root(uf, i) == b then a else Root(uf, i)
    decreases MaxRank(uf.rank) - uf.rank[i]
  {
    if i == b {
      assert uf'.parent[a] == a;
    } else if uf.parent[i] != i {
      LinkRoot(uf, uf', a, b, uf.parent[i]);
    }
  }

  lemma LinkRoots(uf: UnionFind, uf': UnionFind, a: int, b: int)
    requires Valid(uf) && Valid(uf')
    requires 0 <= a < |uf.parent| && 0 <= b < |uf.parent| && a != b
    requires uf.parent[a] == a && uf.parent[b] == b
    requires uf'.parent == uf.parent[b := a]
    ensures Relinked(uf, uf', a, b)
  {
    forall i | 0 <= i < |uf.parent|
      ensures Root(uf', i) == if Root(uf, i) == b then a else Root(uf, i)
    {
      LinkRoot(uf, uf', a, b, i);
    }
  }

  /** `find(x)`: the root of `x`, with full path compression. Every element
      on the path from `x` to the root now points at the root, no other
      parent changes, no rank changes, and no element changes class. */
  function Find(uf: UnionFind, x: int): (res: (UnionFind, int))
    requires Valid(uf) && 0 <= x < |uf.parent|
    ensures Valid(res.0) && |res.0.parent| == |uf.parent| && res.0.rank == uf.rank
    ensures res.1 == Root(uf, x)
    ensures res.0.parent[x] == res.1
    ensures SameRoots(res.0, uf)
    decreases MaxRank(uf.rank) - uf.rank[x]
  {
    if uf.parent[x] == x then
      (uf, x)
    else
      var p := uf.parent[x];
      var sub := Find(uf, p);
      var uf1, r := sub.0, sub.1;
      var uf2 := uf1.(parent := uf1.parent[x := r]);
      assert Valid(uf2);
      assert SameRoots(uf1, uf);
      assert r == Root(uf1, x);
      forall i | 0 <= i < |uf.parent|
        ensures Root(uf2, i) == Root(uf, i)
      {
        RedirectKeepsRoot(uf1, uf2, x, i);
      }
      (uf2, r)
  }

  /** Full path compression: after `Find(uf, x)` exactly the elements on the
      path from `x` to its root point at the root, and every other parent
      is as before. */
  lemma {:induction false} FindCompressesPath(uf: UnionFind, x: int, i: int)
    requires Valid(uf) && 0 <= x < |uf.parent| && 0 <= i < |uf.parent|
    ensures Find(uf, x).0.parent[i] == if OnPath(uf, x, i) then Root(uf, x) else uf.parent[i]
    decreases MaxRank(uf.rank) - uf.rank[x]
  {
    if uf.parent[x] != x && i != x {
      FindCompressesPath(uf, uf.parent[x], i);
    }
  }

  /** `connected(x, y)`: whether both have the same root; the structure
      comes back compressed but with the same classes. */
  function Connected(uf: UnionFind, x: int, y: int): (res: (UnionFind, bool))
    requires Valid(uf) && 0 <= x < |uf.parent| && 0 <= y < |uf.parent|
    ensures Valid(res.0) && |res.0.parent| == |uf.parent| && res.0.rank == uf.rank
    ensures SameRoots(res.0, uf)
    ensures res.1 <==> Same(uf, x, y)
    ensures res.1 <==> Same(uf, y, x)
  {
    var fx := Find(uf, x);
    var fy := Find(fx.0, y);
    (fy.0, fx.1 == fy.1)
  }

  /** The linking step of `union` once the two roots are known and differ:
      the root of lower rank goes under the other one, `rx` winning a tie
      and gaining one rank. */
  function Link(uf: UnionFind, rx: int, ry: int): (uf': UnionFind)
    requires Valid(uf) && 0 <= rx < |uf.parent| && 0 <= ry < |uf.parent|
    requires uf.parent[rx] == rx && uf.parent[ry] == ry && rx != ry
    ensures Valid(uf') && |uf'.parent| == |uf.parent|
    ensures uf.rank[rx] < uf.rank[ry] ==> Relinked(uf, uf', ry, rx)
    ensures uf.rank[rx] >= uf.rank[ry] ==> Relinked(uf, uf', rx, ry)
    ensures forall i :: 0 <= i < |uf.parent| && i != rx ==> uf'.rank[i] == uf.rank[i]
    ensures uf'.rank[rx] == if uf.rank[rx] == uf.rank[ry] then uf.rank[rx] + 1 else uf.rank[rx]
  {
    if uf.rank[rx] < uf.rank[ry] then
      var uf' := uf.(parent := uf.parent[rx := ry]);
      LinkRoots(uf, uf', ry, rx);
      uf'
    else if uf.rank[rx] > uf.rank[ry] then
      var uf' := uf.(parent := uf.parent[ry := rx]);
      LinkRoots(uf, uf', rx, ry);
      uf'
    else
      var uf' := UnionFind(uf.parent[ry := rx], uf.rank[rx := uf.rank[rx] + 1]);
      LinkRoots(uf, uf', rx, ry);
      uf'
  }

  /** `union(x, y)`: false and no change of classes when `x` and `y` already
      share a root; otherwise true, and the root of lower rank is hung under
      the other one, `Root(x)` winning a tie and gaining one rank. */
  function Union(uf: UnionFind, x: int, y: int): (res: (UnionFind, bool))
    requires Valid(uf) && 0 <= x < |uf.parent| && 0 <= y < |uf.parent|
    ensures Valid(res.0) && |res.0.parent| == |uf.parent|
    ensures res.1 <==> Root(uf, x) != Root(uf, y)
    ensures !res.1 ==> SameRoots(res.0, uf)
    ensures res.1 && uf.rank[Root(uf, x)] < uf.rank[Root(uf, y)] ==>
      Relinked(uf, res.0, Root(uf, y), Root(uf, x))
    ensures res.1 && uf.rank[Root(uf, x)] >= uf.rank[Root(uf, y)] ==>
      Relinked(uf, res.0, Root(uf, x), Root(uf, y))
    ensures forall i :: 0 <= i < |uf.parent| && i != Root(uf, x) ==> res.0.rank[i] == uf.rank[i]
    ensures res.0.rank[Root(uf, x)] ==
      if res.1 && uf.rank[Root(uf, x)] == uf.rank[Root(uf, y)]
      then uf.rank[Root(uf, x)] + 1 else uf.rank[Root(uf, x)]
  {
    var fx := Find(uf, x);
    var fy := Find(fx.0, y);
    var uf2, rx, ry := fy.0, fx.1, fy.1;
    SameRootsTransitive(uf2, fx.0, uf);
    if rx == ry then (uf2, false)
    else
      var uf' := Link(uf2, rx, ry);
      if uf.rank[rx] < uf.rank[ry] then
        RelinkedAfterSameRoots(uf, uf2, uf', ry, rx);
        (uf', true)
      else
        RelinkedAfterSameRoots(uf, uf2, uf', rx, ry);
        (uf', true)
  }

  lemma SameRootsTransitive(a: UnionFind, b: UnionFind, c: UnionFind)
    requires SameRoots(a, b) && SameRoots(b, c)
    ensures SameRoots(a, c)
  {
  }

  /** Relinking a structure with the classes of `uf` relinks `uf`. */
  lemma RelinkedAfterSameRoots(uf: UnionFind, uf2: UnionFind, uf': UnionFind, w: int, l: int)
    requires SameRoots(uf2, uf) && Relinked(uf2, uf', w, l)
    ensures Relinked(uf, uf', w, l)
  {
  }

  /** `find(find(x)) == find(x)`, and finding a root changes nothing. */
  lemma FindIdempotent(uf: UnionFind, x: int)
    requires Valid(uf) && 0 <= x < |uf.parent|
    ensures var (uf', r) := Find(uf, x); Find(uf', r) == (uf', r)
  {
  }

  /** A root set is determined by the root map. */
  lemma RootSetFollowsRoots(uf: UnionFind, uf': UnionFind)
    requires SameRoots(uf', uf)
    ensures Roots(uf') == Roots(uf)
  {
    forall i | 0 <= i < |uf.parent|
      ensures i in Roots(uf') <==> i in Roots(uf)
    {
      RootIsFixedPoint(uf, i);
      RootIsFixedPoint(uf', i);
    }
  }

  /** There is at least one class as soon as there is one element. */
  lemma SomeRoot(uf: UnionFind)
    requires Valid(uf) && |uf.parent| > 0
    ensures |Roots(uf)| >= 1
  {
    assert Root(uf, 0) in Roots(uf);
  }

  /** The classes after `union(x, y)`: exactly the classes of `x` and `y`
      are joined (nothing changes when they already coincide). */
  lemma UnionJoinsClasses(uf: UnionFind, x: int, y: int)
    requires Valid(uf) && 0 <= x < |uf.parent| && 0 <= y < |uf.parent|
    ensures var uf' := Union(uf, x, y).0;
      && Same(uf', x, y)
      && (forall a, b :: 0 <= a < |uf.parent| && 0 <= b < |uf.parent| ==>
           (Same(uf', a, b) <==>
              || Same(uf, a, b)
              || (Same(uf, a, x) && Same(uf, y, b))
              || (Same(uf, a, y) && Same(uf, x, b))))
  {
    var (uf', merged) := Union(uf, x, y);
    var rx, ry := Root(uf, x), Root(uf, y);
    if merged {
      var (w, l) := if uf.rank[rx] < uf.rank[ry] then (ry, rx) else (rx, ry);
      assert Relinked(uf, uf', w, l);
      assert w != l && (w == rx || w == ry) && (l == rx || l == ry);
    }
  }

  /** The root count after `union(x, y)`: when it merges, exactly one root
      (the loser of the rank comparison) stops being a root. */
  lemma UnionRoots(uf: UnionFind, x: int, y: int)
    requires Valid(uf) && 0 <= x < |uf.parent| && 0 <= y < |uf.parent|
    ensures var (uf', merged) := Union(uf, x, y);
      && Roots(uf') == Roots(uf) - (if !merged then {}
                                    else if uf.rank[Root(uf, x)] < uf.rank[Root(uf, y)] then {Root(uf, x)}
                                    else {Root(uf, y)})
      && |Roots(uf')| == if merged then |Roots(uf)| - 1 else |Roots(uf)|
  {
    var (uf', merged) := Union(uf, x, y);
    var rx, ry := Root(uf, x), Root(uf, y);
    if !merged {
      RootSetFollowsRoots(uf, uf');
    } else if uf.rank[rx] < uf.rank[ry] {
      RootsAfterLink(uf, uf', ry, rx);
    } else {
      RootsAfterLink(uf, uf', rx, ry);
    }
  }

  /** Hanging root `l` under root `w` removes `l`, and only `l`, from the roots. */
  lemma RootsAfterLink(uf: UnionFind, uf': UnionFind, w: int, l: int)
    requires 0 <= w < |uf.parent| && 0 <= l < |uf.parent| && w != l
    requires uf.parent[w] == w && uf.parent[l] == l
    requires Relinked(uf, uf', w, l)
    ensures Roots(uf') == Roots(uf) - {l}
    ensures |Roots(uf')| == |Roots(uf)| - 1
  {
    forall i | 0 <= i < |uf.parent|
      ensures i in Roots(uf') <==> i in Roots(uf) - {l}
    {
      RootIsFixedPoint(uf, i);
      RootIsFixedPoint(uf', i);
    }
    assert Roots(uf') == Roots(uf) - {l};
    assert l in Roots(uf);
  }
}
