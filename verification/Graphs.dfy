/** Finite directed graphs with flagged edges, degrees, counting and undirected connectivity: what
    create_network.py takes from networkx. */
module Graphs {

  datatype Edge = Edge(src: nat, dst: nat)

  /** The edges of a DiGraph, each with its `manual` attribute. */
  type Graph = map<Edge, bool>

  function Out(g: Graph, n: nat): set<Edge> {
    set e | e in g.Keys && e.src == n
  }

  function In(g: Graph, n: nat): set<Edge> {
    set e | e in g.Keys && e.dst == n
  }

  /** The out-edges of n with a given attribute. */
  function Flagged(g: Graph, n: nat, manual: bool): set<Edge> {
    set e | e in g.Keys && e.src == n && g[e] == manual
  }

  // ----- the order of the edges -----

  /** A graph with its edges in the order in which they were added. */
  datatype Listing = Listing(graph: Graph, order: seq<Edge>)

  /** The order holds every edge once. */
  predicate Lists(g: Graph, order: seq<Edge>) {
    (forall i, j :: 0 <= i < j < |order| ==> order[i] != order[j]) && (set e | e in order) == g.Keys
  }

  type Mesh = m: Listing | Lists(m.graph, m.order) witness Listing(map[], [])

  /** out_edges(n): the targets with a given attribute, in the order of the edges. */
  function Targets(order: seq<Edge>, g: Graph, n: nat, manual: bool): (s: seq<nat>)
    ensures forall r: nat :: r in s <==> Edge(n, r) in order && Edge(n, r) in Flagged(g, n, manual)
  {
    if order == [] then []
    else
      var s, e := Targets(order[..|order| - 1], g, n, manual), order[|order| - 1];
      if e in Flagged(g, n, manual) then s + [e.dst] else s
  }

  /** add_edge: an edge that is there keeps its place. */
  function Placed(order: seq<Edge>, e: Edge): seq<Edge> {
    if e in order then order else order + [e]
  }

  lemma PlacedLists(g: Graph, order: seq<Edge>, e: Edge, manual: bool)
    requires Lists(g, order)
    ensures Lists(g[e := manual], Placed(order, e))
  {
    var o := Placed(order, e);
    assert forall x :: x in o <==> x in order || x == e;
    assert forall x :: x in order <==> x in (set y | y in order);
    if e !in order {
      assert forall i :: 0 <= i < |order| ==> order[i] != e;
    }
  }

  predicate Mirrored(g: Graph) {
    exists e :: e in g.Keys && Edge(e.dst, e.src) in g.Keys
  }

  function Range(lo: nat, hi: nat): (s: set<nat>)
    ensures forall i :: i in s <==> lo <= i < hi
    decreases hi
  {
    if hi <= lo then {} else Range(lo, hi - 1) + {hi - 1}
  }

  lemma OneMore<T>(s: set<T>, x: T)
    requires x !in s
    ensures |s + {x}| == |s| + 1
  {
  }

  lemma {:induction false} RangeSize(lo: nat, hi: nat)
    requires lo <= hi
    ensures |Range(lo, hi)| == hi - lo
    decreases hi
  {
    if lo < hi {
      RangeSize(lo, hi - 1);
      OneMore(Range(lo, hi - 1), hi - 1);
    }
  }

  lemma SubsetSize<T>(a: set<T>, b: set<T>)
    requires a <= b
    ensures |a| <= |b|
    ensures |a| == |b| ==> a == b
  {
    assert b == a + (b - a);
    assert |b| == |a| + |b - a|;
  }

  /** A set of edges that an injection sends into [0, bound) has at most bound elements. */
  lemma {:induction false} InjectionBound(s: set<Edge>, f: Edge -> int, bound: nat)
    requires forall e :: e in s ==> 0 <= f(e) < bound
    requires forall e, d :: e in s && d in s && f(e) == f(d) ==> e == d
    ensures |s| <= bound
    decreases bound
  {
    if bound == 0 {
      assert s == {};
    } else {
      var top := set e | e in s && f(e) == bound - 1;
      if e :| e in top {
        assert top == {e};
      } else {
        assert top == {};
      }
      InjectionBound(s - top, f, bound - 1);
      assert s == (s - top) + (top * s);
      assert top * s == top;
    }
  }

  // ----- counting edges by their ends -----

  function OutBelow(g: Graph, n: nat): set<Edge> {
    set e | e in g.Keys && e.src < n
  }

  function InBelow(g: Graph, n: nat): set<Edge> {
    set e | e in g.Keys && e.dst < n
  }

  lemma {:induction false} CountBySource(g: Graph, n: nat, degree: nat)
    requires forall i :: 0 <= i < n ==> |Out(g, i)| == degree
    ensures |OutBelow(g, n)| == n * degree
  {
    if n == 0 {
      assert OutBelow(g, 0) == {};
    } else {
      CountBySource(g, n - 1, degree);
      assert OutBelow(g, n) == OutBelow(g, n - 1) + Out(g, n - 1);
      assert n * degree == (n - 1) * degree + degree;
    }
  }

  lemma {:induction false} CountByTarget(g: Graph, n: nat, cap: int)
    requires forall i :: 0 <= i < n ==> |In(g, i)| <= cap
    ensures |InBelow(g, n)| <= n * cap
  {
    if n == 0 {
      assert InBelow(g, 0) == {};
    } else {
      CountByTarget(g, n - 1, cap);
      assert InBelow(g, n) == InBelow(g, n - 1) + In(g, n - 1);
      assert n * cap == (n - 1) * cap + cap;
    }
  }

  /** Edges among the nodes below n. */
  function Among(g: Graph, n: nat): set<Edge> {
    set e | e in g.Keys && e.src < n && e.dst < n
  }

  /** One edge at most for every unordered pair. */
  lemma {:induction false} CountByPair(g: Graph, n: nat)
    requires !Mirrored(g)
    ensures 2 * |Among(g, n)| <= n * (n - 1)
  {
    if n == 0 {
      assert Among(g, 0) == {};
    } else {
      CountByPair(g, n - 1);
      PairStep(g, n);
      assert n * (n - 1) == (n - 1) * (n - 2) + 2 * (n - 1);
    }
  }

  lemma PairStep(g: Graph, n: nat)
    requires !Mirrored(g) && n > 0
    ensures |Among(g, n)| <= |Among(g, n - 1)| + n - 1
  {
    var k := n - 1;
    var added := set e | e in Among(g, n) && (e.src == k || e.dst == k);
    assert Edge(k, k) !in g.Keys;
    InjectionBound(added, (e: Edge) => if e.src == k then e.dst else e.src, k);
    assert Among(g, n) == Among(g, k) + added;
  }

  // ----- undirected connectivity -----

  ghost predicate Within(g: Graph, nodes: set<nat>) {
    forall e :: e in g.Keys ==> e.src in nodes && e.dst in nodes
  }

  /** s with everything one edge away from it, in either direction. */
  function Grown(g: Graph, s: set<nat>): (r: set<nat>)
    ensures s <= r
  {
    s + (set e | e in g.Keys && e.src in s :: e.dst) + (set e | e in g.Keys && e.dst in s :: e.src)
  }

  ghost predicate Closed(g: Graph, s: set<nat>) {
    forall e :: e in g.Keys ==> (e.src in s <==> e.dst in s)
  }

  lemma ClosedIffGrown(g: Graph, s: set<nat>)
    ensures Grown(g, s) == s <==> Closed(g, s)
  {
    if Grown(g, s) == s {
      forall e | e in g.Keys ensures e.src in s <==> e.dst in s {
        assert e.src in s ==> e.dst in Grown(g, s);
        assert e.dst in s ==> e.src in Grown(g, s);
      }
    }
  }

  /** Everything connected to s. */
  function Spread(g: Graph, s: set<nat>, nodes: set<nat>): (r: set<nat>)
    requires Within(g, nodes) && s <= nodes
    ensures s <= r <= nodes && Closed(g, r)
    decreases |nodes - s|
  {
    var t := Grown(g, s);
    ClosedIffGrown(g, s);
    if t == s then s
    else
      assert t <= nodes;
      SmallerGap(nodes, s, t);
      Spread(g, t, nodes)
  }

  lemma SmallerGap(nodes: set<nat>, s: set<nat>, t: set<nat>)
    requires s <= t <= nodes && s != t
    ensures |nodes - t| < |nodes - s|
  {
    SubsetSize(nodes - t, nodes - s);
    assert nodes - t == nodes - s ==> t == nodes - (nodes - s);
    assert nodes - (nodes - s) == s;
    assert nodes - (nodes - t) == t;
  }

  /** It is the least closed set around s. */
  lemma {:induction false} SpreadLeast(g: Graph, s: set<nat>, nodes: set<nat>, c: set<nat>)
    requires Within(g, nodes) && s <= nodes && s <= c && Closed(g, c)
    ensures Spread(g, s, nodes) <= c
    decreases |nodes - s|
  {
    var t := Grown(g, s);
    if t != s {
      assert t <= c && t <= nodes;
      SmallerGap(nodes, s, t);
      SpreadLeast(g, t, nodes, c);
    }
  }

  /** nx.is_connected of the undirected graph on the nodes 0 .. n-1. */
  predicate Connected(g: Graph, n: nat)
    requires Within(g, Range(0, n))
  {
    n > 0 && Spread(g, {0}, Range(0, n)) == Range(0, n)
  }

  /** Connected graphs are those without a cut. */
  lemma ConnectedIffNoCut(g: Graph, n: nat)
    requires Within(g, Range(0, n)) && n > 0
    ensures Connected(g, n) <==> forall s: set<nat> :: s <= Range(0, n) && s != {} && Closed(g, s) ==> s == Range(0, n)
  {
    var nodes := Range(0, n);
    if Connected(g, n) {
      forall s: set<nat> | s <= nodes && s != {} && Closed(g, s) ensures s == nodes {
        CutEmptyOrAll(g, n, s);
      }
    }
  }

  lemma CutEmptyOrAll(g: Graph, n: nat, s: set<nat>)
    requires Within(g, Range(0, n)) && Connected(g, n) && s <= Range(0, n) && Closed(g, s)
    ensures s == {} || s == Range(0, n)
  {
    var nodes := Range(0, n);
    if 0 in s {
      SpreadLeast(g, {0}, nodes, s);
    } else {
      assert Closed(g, nodes - s);
      SpreadLeast(g, {0}, nodes, nodes - s);
      assert s <= nodes - s;
      assert s * (nodes - s) == {};
    }
  }

  /** A walk along edges in either direction. */
  ghost predicate Walk(g: Graph, w: seq<nat>) {
    w != [] && forall i, j :: 0 <= i < j < |w| && j == i + 1 ==> Adjacent(g, w[i], w[j])
  }

  predicate Adjacent(g: Graph, a: nat, b: nat) {
    Edge(a, b) in g.Keys || Edge(b, a) in g.Keys
  }

  ghost predicate Linked(g: Graph, a: nat, b: nat) {
    exists w :: Walk(g, w) && w[0] == a && w[|w| - 1] == b
  }

  lemma {:induction false} WalkStays(g: Graph, w: seq<nat>, s: set<nat>)
    requires Walk(g, w) && Closed(g, s) && w[0] in s
    ensures w[|w| - 1] in s
    decreases |w|
  {
    if |w| > 1 {
      assert Adjacent(g, w[0], w[1]);
      var v := w[1..];
      WalkStays(g, v, s);
    }
  }

  lemma LinkedStep(g: Graph, a: nat, b: nat, c: nat)
    requires Linked(g, a, b) && Adjacent(g, b, c)
    ensures Linked(g, a, c)
  {
    var w :| Walk(g, w) && w[0] == a && w[|w| - 1] == b;
    var v := w + [c];
    assert Walk(g, v) && v[0] == a && v[|v| - 1] == c;
  }

  lemma LinkedStays(g: Graph, a: nat, b: nat, s: set<nat>)
    requires Linked(g, a, b) && Closed(g, s) && a in s
    ensures b in s
  {
    var w :| Walk(g, w) && w[0] == a && w[|w| - 1] == b;
    WalkStays(g, w, s);
  }

  lemma ConnectedLinks(g: Graph, n: nat, v: nat)
    requires Within(g, Range(0, n)) && Connected(g, n) && v < n
    ensures Linked(g, 0, v)
  {
    assert Walk(g, [0]) && [0][0] == 0;
    assert Linked(g, 0, 0);
    ghost var linked := set u | u in Range(0, n) && Linked(g, 0, u);
    assert 0 in linked;
    forall e | e in g.Keys ensures e.src in linked <==> e.dst in linked {
      if e.src in linked { LinkedStep(g, 0, e.src, e.dst); }
      if e.dst in linked { LinkedStep(g, 0, e.dst, e.src); }
    }
    CutEmptyOrAll(g, n, linked);
    assert v in Range(0, n);
    assert v in linked;
  }

  /** What is_connected computes is reachability along walks. */
  lemma ConnectedIffWalks(g: Graph, n: nat)
    requires Within(g, Range(0, n)) && n > 0
    ensures Connected(g, n) <==> forall v: nat :: v < n ==> Linked(g, 0, v)
  {
    hide Linked, Spread, Closed, Grown;
    if Connected(g, n) {
      forall v: nat | v < n ensures Linked(g, 0, v) {
        ConnectedLinks(g, n, v);
      }
    }
    if forall v: nat :: v < n ==> Linked(g, 0, v) {
      var reached := Spread(g, {0}, Range(0, n));
      forall v: nat | v < n ensures v in reached {
        LinkedStays(g, 0, v, reached);
      }
    }
  }
}
