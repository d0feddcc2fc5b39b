/** The topology generator: validate_args, try_build_graph, validate_graph and build_network of
    utils/create_network.py. */
module Topology {
  import opened Bytes
  import opened Graphs

  datatype Params = Params(size: int, reachable: int, outbound: int, recon: int, maxInbound: int)

  datatype Verdict = Accepted | BadSize | BadOutbound | BadRecon | BadReachable | TooFewReachable | CapTooSmall

  /** validate_args; every verdict but Accepted is an InfeasibleNetwork. */
  function ValidateArgs(p: Params): Verdict {
    if p.size <= 0 then BadSize
    else if p.outbound <= 0 then BadOutbound
    else if p.recon < 0 then BadRecon
    else if !(0 < p.reachable <= p.size) then BadReachable
    else
      var totalOutbound := p.outbound + p.recon;
      if p.reachable < 2 * totalOutbound + 1 then TooFewReachable
      else if p.reachable * p.maxInbound < p.size * totalOutbound then CapTooSmall
      else Accepted
  }

  /** Parameters in the ranges the command line documents. */
  predicate InRange(p: Params) {
    p.size > 0 && p.outbound > 0 && p.recon >= 0 && 0 < p.reachable <= p.size
  }

  /** What an attempt needs in order not to raise: nodes, degrees and targets that exist. */
  predicate Buildable(p: Params) {
    p.size > 0 && p.outbound >= 0 && p.recon >= 0 && p.reachable <= p.size
  }

  ghost predicate Sited(g: Graph, size: int) {
    forall e :: e in g.Keys ==> e.src < size && e.dst < size
  }

  lemma SitedWithin(g: Graph, size: nat)
    requires Sited(g, size)
    ensures Within(g, Range(0, size))
  {
  }

  // ----- the checker -----

  /** What validate_graph asserts of one node. */
  predicate NodeValid(g: Graph, p: Params, n: nat) {
    && |Out(g, n)| == p.outbound + p.recon
    && |Flagged(g, n, false)| == p.recon
    && (forall e :: e in Out(g, n) ==> e.dst < p.reachable && Edge(e.dst, n) !in g.Keys)
    && |In(g, n)| <= p.maxInbound
  }

  predicate NoSelfLoops(g: Graph) {
    forall e :: e in g.Keys ==> e.src != e.dst
  }

  /** Every assertion of validate_graph, on a graph over the nodes 0 .. size-1. */
  predicate ValidGraph(g: Graph, p: Params)
    requires p.size > 0 && Sited(g, p.size)
  {
    SitedWithin(g, p.size);
    && NoSelfLoops(g)
    && (forall n: nat :: n < p.size ==> NodeValid(g, p, n))
    && Connected(g, p.size)
  }

  // ----- graphs and random numbers as objects -----

  class DiGraph {
    var edges: Graph
    var order: seq<Edge>

    ghost predicate Valid()
      reads this
    {
      Lists(edges, order)
    }

    constructor ()
      ensures Valid() && edges == map[] && order == []
    {
      edges, order := map[], [];
    }

    predicate HasEdge(a: nat, b: nat)
      reads this
    {
      Edge(a, b) in edges.Keys
    }

    function InDegree(r: nat): nat
      reads this
    {
      |In(edges, r)|
    }

    method AddEdge(a: nat, b: nat, manual: bool)
      requires Valid()
      modifies this
      ensures Valid()
      ensures edges == old(edges)[Edge(a, b) := manual] && order == Placed(old(order), Edge(a, b))
    {
      PlacedLists(edges, order, Edge(a, b), manual);
      edges, order := edges[Edge(a, b) := manual], Placed(order, Edge(a, b));
    }
  }

  /** A call of rng.sample. */
  datatype Call = Call(population: seq<nat>, k: nat)

  /** The result of rng.sample as a function of the earlier calls and of this one: any generator. */
  type Picker = (seq<Call>, seq<nat>, nat) -> seq<nat>

  predicate Distinct(s: seq<nat>) {
    forall i, j :: 0 <= i < j < |s| ==> s[i] != s[j]
  }

  predicate IsSample(s: seq<nat>, population: seq<nat>, k: nat) {
    |s| == k && Distinct(s) && forall i :: 0 <= i < |s| ==> s[i] in population
  }

  /** What rng.sample promises: k distinct elements of a population that has them. */
  ghost predicate Sampler(pick: Picker) {
    forall h: seq<Call>, c: seq<nat>, k: nat :: k <= |c| && Distinct(c) ==> IsSample(pick(h, c, k), c, k)
  }

  class Rng {
    const pick: Picker
    var history: seq<Call>

    constructor (pick: Picker)
      ensures this.pick == pick && history == []
    {
      this.pick := pick;
      history := [];
    }

    method Sample(population: seq<nat>, k: nat) returns (s: seq<nat>)
      requires k <= |population|
      modifies this
      ensures s == pick(old(history), population, k) && history == old(history) + [Call(population, k)]
      ensures Sampler(pick) && Distinct(population) ==> IsSample(s, population, k)
    {
      s := pick(history, population, k);
      history := history + [Call(population, k)];
    }
  }

  // ----- one attempt -----

  predicate Candidate(g: Graph, p: Params, n: nat, r: nat) {
    r != n && Edge(n, r) !in g.Keys && Edge(r, n) !in g.Keys && |In(g, r)| < p.maxInbound
  }

  /** The candidates below k in ascending order. */
  function CandidatesBelow(g: Graph, p: Params, n: nat, k: nat): (c: seq<nat>)
    ensures forall r: nat :: r in c <==> r < k && Candidate(g, p, n, r)
    ensures Distinct(c)
  {
    if k == 0 then []
    else
      var c := CandidatesBelow(g, p, n, k - 1);
      if Candidate(g, p, n, k - 1) then c + [k - 1] else c
  }

  function Candidates(g: Graph, p: Params, n: nat): (c: seq<nat>)
    ensures forall r: nat :: r in c <==> r < p.reachable && Candidate(g, p, n, r)
    ensures Distinct(c)
  {
    CandidatesBelow(g, p, n, if p.reachable < 0 then 0 else p.reachable)
  }

  function AddAll(g: Graph, n: nat, targets: seq<nat>, manual: bool): Graph {
    if targets == [] then g
    else AddAll(g, n, targets[..|targets| - 1], manual)[Edge(n, targets[|targets| - 1]) := manual]
  }

  /** The order of the edges after the targets of n. */
  function PlaceAll(order: seq<Edge>, n: nat, targets: seq<nat>): seq<Edge> {
    if targets == [] then order
    else Placed(PlaceAll(order, n, targets[..|targets| - 1]), Edge(n, targets[|targets| - 1]))
  }

  datatype Attempt = Attempt(graph: Option<Graph>, history: seq<Call>)

  /** One pass over the nodes from n on; None on deadlock. */
  function Pass(g: Graph, p: Params, n: nat, degree: nat, manual: bool, pick: Picker, h: seq<Call>): Attempt
    decreases p.size - n
  {
    if n >= p.size then Attempt(Some(g), h)
    else
      var c := Candidates(g, p, n);
      if |c| < degree then Attempt(None, h)
      else Pass(AddAll(g, n, pick(h, c, degree), manual), p, n + 1, degree, manual, pick, h + [Call(c, degree)])
  }

  /** The order of the edges after such a pass. */
  function PassOrder(g: Graph, order: seq<Edge>, p: Params, n: nat, degree: nat, manual: bool, pick: Picker,
      h: seq<Call>): seq<Edge>
    decreases p.size - n
  {
    if n >= p.size then order
    else
      var c := Candidates(g, p, n);
      if |c| < degree then order
      else
        var s := pick(h, c, degree);
        PassOrder(AddAll(g, n, s, manual), PlaceAll(order, n, s), p, n + 1, degree, manual, pick, h + [Call(c, degree)])
  }

  /** try_build_graph. */
  function TryBuild(p: Params, pick: Picker, h: seq<Call>): Attempt
    requires p.outbound >= 0 && p.recon >= 0
  {
    var first := Pass(map[], p, 0, p.outbound, true, pick, h);
    if first.graph.None? then first else Pass(first.graph.value, p, 0, p.recon, false, pick, first.history)
  }

  /** The order of the edges of what try_build_graph returns. */
  function TryOrder(p: Params, pick: Picker, h: seq<Call>): seq<Edge>
    requires p.outbound >= 0 && p.recon >= 0
  {
    var first := Pass(map[], p, 0, p.outbound, true, pick, h);
    if first.graph.None? then []
    else
      var order := PassOrder(map[], [], p, 0, p.outbound, true, pick, h);
      PassOrder(first.graph.value, order, p, 0, p.recon, false, pick, first.history)
  }

  method TryBuildGraph(p: Params, rng: Rng) returns (graph: Option<Mesh>)
    requires p.outbound >= 0 && p.recon >= 0
    modifies rng
    ensures Attempt(if graph.Some? then Some(graph.value.graph) else None, rng.history)
         == TryBuild(p, rng.pick, old(rng.history))
    ensures graph.Some? ==> graph.value.order == TryOrder(p, rng.pick, old(rng.history))
  {
    hide Pass, PassOrder, Lists;
    var g := new DiGraph();
    var ok := BuildPass(g, p, p.outbound, true, rng);
    if !ok { return None; }
    ok := BuildPass(g, p, p.recon, false, rng);
    if !ok { return None; }
    return Some(Listing(g.edges, g.order));
  }

  method BuildPass(g: DiGraph, p: Params, degree: nat, manual: bool, rng: Rng) returns (ok: bool)
    requires g.Valid()
    modifies g, rng
    ensures g.Valid()
    ensures Attempt(if ok then Some(g.edges) else None, rng.history)
         == Pass(old(g.edges), p, 0, degree, manual, rng.pick, old(rng.history))
    ensures ok ==> g.order == PassOrder(old(g.edges), old(g.order), p, 0, degree, manual, rng.pick, old(rng.history))
  {
    hide AddAll, Candidates, PlaceAll, Lists;
    ghost var all := Pass(g.edges, p, 0, degree, manual, rng.pick, rng.history);
    ghost var order := PassOrder(g.edges, g.order, p, 0, degree, manual, rng.pick, rng.history);
    var node := 0;
    while node < p.size
      invariant node >= 0 && g.Valid()
      invariant all == Pass(g.edges, p, node, degree, manual, rng.pick, rng.history)
      invariant order == PassOrder(g.edges, g.order, p, node, degree, manual, rng.pick, rng.history)
    {
      var candidates := ListCandidates(g, p, node);
      if |candidates| < degree { return false; }
      var targets := rng.Sample(candidates, degree);
      AddTargets(g, node, targets, manual);
      node := node + 1;
    }
    return true;
  }

  method ListCandidates(g: DiGraph, p: Params, node: nat) returns (c: seq<nat>)
    ensures c == Candidates(g.edges, p, node)
  {
    c := [];
    var r := 0;
    while r < p.reachable
      invariant 0 <= r && (p.reachable >= 0 ==> r <= p.reachable) && (p.reachable < 0 ==> r == 0)
      invariant c == CandidatesBelow(g.edges, p, node, r)
    {
      if r != node && !g.HasEdge(node, r) && !g.HasEdge(r, node) && g.InDegree(r) < p.maxInbound {
        c := c + [r];
      }
      r := r + 1;
    }
  }

  method AddTargets(g: DiGraph, node: nat, targets: seq<nat>, manual: bool)
    requires g.Valid()
    modifies g
    ensures g.Valid()
    ensures g.edges == AddAll(old(g.edges), node, targets, manual) && g.order == PlaceAll(old(g.order), node, targets)
  {
    hide Lists, Placed;
    for i := 0 to |targets|
      invariant g.Valid()
      invariant g.edges == AddAll(old(g.edges), node, targets[..i], manual)
      invariant g.order == PlaceAll(old(g.order), node, targets[..i])
    {
      assert targets[..i + 1][..i] == targets[..i];
      g.AddEdge(node, targets[i], manual);
    }
    assert targets[..|targets|] == targets;
  }

  lemma {:induction false} PlaceAllLists(g: Graph, order: seq<Edge>, n: nat, targets: seq<nat>, manual: bool)
    requires Lists(g, order)
    ensures Lists(AddAll(g, n, targets, manual), PlaceAll(order, n, targets))
  {
    hide Lists, Placed;
    if targets != [] {
      var front := targets[..|targets| - 1];
      PlaceAllLists(g, order, n, front, manual);
      PlacedLists(AddAll(g, n, front, manual), PlaceAll(order, n, front), Edge(n, targets[|targets| - 1]), manual);
    }
  }

  lemma {:induction false} PassLists(g: Graph, order: seq<Edge>, p: Params, n: nat, degree: nat, manual: bool,
      pick: Picker, h: seq<Call>)
    requires Lists(g, order)
    ensures var r := Pass(g, p, n, degree, manual, pick, h).graph;
            r.Some? ==> Lists(r.value, PassOrder(g, order, p, n, degree, manual, pick, h))
    decreases p.size - n
  {
    hide Lists, AddAll, PlaceAll, Candidates;
    if n < p.size {
      var c := Candidates(g, p, n);
      if degree <= |c| {
        var s := pick(h, c, degree);
        PlaceAllLists(g, order, n, s, manual);
        PassLists(AddAll(g, n, s, manual), PlaceAll(order, n, s), p, n + 1, degree, manual, pick,
            h + [Call(c, degree)]);
      }
    }
  }

  /** The order of an attempt holds every edge of its graph once. */
  lemma TryLists(p: Params, pick: Picker, h: seq<Call>)
    requires p.outbound >= 0 && p.recon >= 0 && TryBuild(p, pick, h).graph.Some?
    ensures Lists(TryBuild(p, pick, h).graph.value, TryOrder(p, pick, h))
  {
    hide Pass, PassOrder;
    var first := Pass(map[], p, 0, p.outbound, true, pick, h);
    PassLists(map[], [], p, 0, p.outbound, true, pick, h);
    var order := PassOrder(map[], [], p, 0, p.outbound, true, pick, h);
    PassLists(first.graph.value, order, p, 0, p.recon, false, pick, first.history);
  }

  // ----- what adding a sample does -----

  function NewEdges(n: nat, targets: seq<nat>): set<Edge> {
    set t | t in targets :: Edge(n, t)
  }

  lemma {:induction false} AddAllKeys(g: Graph, n: nat, targets: seq<nat>, manual: bool)
    ensures var h := AddAll(g, n, targets, manual);
            && h.Keys == g.Keys + NewEdges(n, targets)
            && (forall e :: e in g.Keys && !(e.src == n && e.dst in targets) ==> h[e] == g[e])
            && (forall t :: t in targets ==> h[Edge(n, t)] == manual)
  {
    if targets != [] {
      var front, last := targets[..|targets| - 1], targets[|targets| - 1];
      AddAllKeys(g, n, front, manual);
      assert targets == front + [last];
      assert NewEdges(n, targets) == NewEdges(n, front) + {Edge(n, last)};
    }
  }

  lemma {:induction false} TargetsSize(n: nat, targets: seq<nat>)
    requires Distinct(targets)
    ensures |NewEdges(n, targets)| == |targets|
  {
    if targets == [] {
      assert NewEdges(n, targets) == {};
    } else {
      var front, last := targets[..|targets| - 1], targets[|targets| - 1];
      TargetsSize(n, front);
      assert targets == front + [last];
      assert last !in front;
      assert NewEdges(n, targets) == NewEdges(n, front) + {Edge(n, last)};
    }
  }

  /** The invariants kept by every step: within range, no self-loop, no mirrored edge, in-degrees capped. */
  ghost predicate Safe(g: Graph, p: Params) {
    && (forall e :: e in g.Keys ==> e.src < p.size && e.dst < p.reachable && e.src != e.dst)
    && !Mirrored(g)
    && (forall r: nat :: r < p.size ==> |In(g, r)| <= p.maxInbound || In(g, r) == {})
  }

  lemma FreshTargets(g: Graph, p: Params, n: nat, s: seq<nat>, k: nat)
    requires IsSample(s, Candidates(g, p, n), k)
    ensures NewEdges(n, s) !! g.Keys && |NewEdges(n, s)| == k
  {
    hide Candidates;
    TargetsSize(n, s);
    forall t | t in s ensures Edge(n, t) !in g.Keys {
      assert Candidate(g, p, n, t);
    }
  }

  /** The edges of one node after its sample: new ones with the given attribute, the others as they were. */
  lemma FlaggedAfter(g: Graph, n: nat, s: seq<nat>, manual: bool, m: nat, b: bool)
    requires NewEdges(n, s) !! g.Keys
    ensures var f := Flagged(AddAll(g, n, s, manual), m, b);
            if m == n && b == manual then f == Flagged(g, m, b) + NewEdges(n, s) else f == Flagged(g, m, b)
  {
    hide AddAll;
    AddAllKeys(g, n, s, manual);
    assert forall t :: t in s ==> Edge(n, t) in NewEdges(n, s);
  }

  lemma GrownBy(a: set<Edge>, b: set<Edge>, keys: set<Edge>)
    requires a <= keys && b !! keys
    ensures |a + b| == |a| + |b|
  {
    assert a !! b;
  }

  /** A node gets exactly its sample, as new edges with the given attribute; every other node keeps its own. */
  lemma StepFlags(g: Graph, p: Params, n: nat, s: seq<nat>, k: nat, manual: bool)
    requires IsSample(s, Candidates(g, p, n), k)
    ensures var h := AddAll(g, n, s, manual);
            && (forall m: nat, b: bool :: m != n || b != manual ==> Flagged(h, m, b) == Flagged(g, m, b))
            && |Flagged(h, n, manual)| == |Flagged(g, n, manual)| + k
  {
    assert Flagged(g, n, manual) <= g.Keys;
    hide *;
    FreshTargets(g, p, n, s, k);
    GrownBy(Flagged(g, n, manual), NewEdges(n, s), g.Keys);
    FlaggedAfter(g, n, s, manual, n, manual);
    forall m: nat, b: bool | m != n || b != manual
      ensures Flagged(AddAll(g, n, s, manual), m, b) == Flagged(g, m, b)
    {
      FlaggedAfter(g, n, s, manual, m, b);
    }
  }

  lemma StepIn(g: Graph, p: Params, n: nat, s: seq<nat>, k: nat, manual: bool, r: nat)
    requires IsSample(s, Candidates(g, p, n), k)
    requires |In(g, r)| <= p.maxInbound || In(g, r) == {}
    ensures var h := AddAll(g, n, s, manual); |In(h, r)| <= p.maxInbound || In(h, r) == {}
  {
    hide Candidates;
    var h := AddAll(g, n, s, manual);
    AddAllKeys(g, n, s, manual);
    if r in s {
      assert Candidate(g, p, n, r);
      assert In(h, r) == In(g, r) + {Edge(n, r)};
    } else {
      assert In(h, r) == In(g, r);
    }
  }

  lemma StepSafe(g: Graph, p: Params, n: nat, s: seq<nat>, k: nat, manual: bool)
    requires Safe(g, p) && n < p.size && IsSample(s, Candidates(g, p, n), k)
    ensures Safe(AddAll(g, n, s, manual), p)
  {
    hide Candidates;
    var h := AddAll(g, n, s, manual);
    AddAllKeys(g, n, s, manual);
    forall e | e in h.Keys
      ensures e.src < p.size && e.dst < p.reachable && e.src != e.dst && Edge(e.dst, e.src) !in h.Keys
    {
      if e in g.Keys {
        assert Edge(e.dst, e.src) !in g.Keys;
        assert e.src in s ==> Candidate(g, p, n, e.src);
      } else {
        assert e.src == n && e.dst in s;
        assert Candidate(g, p, n, e.dst);
      }
    }
    forall r: nat | r < p.size ensures |In(h, r)| <= p.maxInbound || In(h, r) == {} {
      StepIn(g, p, n, s, k, manual, r);
    }
  }

  /** After the nodes below n of a pass: they have their degree of new edges, the others none yet. */
  ghost predicate PassDone(g: Graph, was: Graph, p: Params, n: nat, degree: nat, manual: bool) {
    && Safe(g, p)
    && (forall m: nat :: m < p.size ==> |Flagged(g, m, manual)| == if m < n then degree else 0)
    && (forall m: nat, b: bool :: m < p.size && b != manual ==> Flagged(g, m, b) == Flagged(was, m, b))
  }

  lemma {:induction false} PassEstablishes(g: Graph, was: Graph, p: Params, n: nat, degree: nat, manual: bool,
      pick: Picker, h: seq<Call>)
    requires Sampler(pick) && n <= p.size && PassDone(g, was, p, n, degree, manual)
    ensures var r := Pass(g, p, n, degree, manual, pick, h).graph;
            r.Some? ==> PassDone(r.value, was, p, p.size, degree, manual)
    decreases p.size - n
  {
    hide Candidates, AddAll, Flagged, Safe, IsSample;
    if n < p.size {
      var c := Candidates(g, p, n);
      if degree <= |c| {
        var s := pick(h, c, degree);
        assert IsSample(s, c, degree);
        StepSafe(g, p, n, s, degree, manual);
        StepFlags(g, p, n, s, degree, manual);
        PassEstablishes(AddAll(g, n, s, manual), was, p, n + 1, degree, manual, pick, h + [Call(c, degree)]);
      }
    }
  }

  lemma EmptyDone(p: Params, degree: nat)
    ensures PassDone(map[], map[], p, 0, degree, true)
  {
    var g: Graph := map[];
    assert forall r: nat :: In(g, r) == {};
    assert forall m: nat, b: bool :: Flagged(g, m, b) == {};
  }

  /** All but connectedness, whatever the sampler does. */
  lemma TryBuildEstablishes(p: Params, pick: Picker, h: seq<Call>, g: Graph)
    requires Sampler(pick) && p.outbound >= 0 && p.recon >= 0 && p.size > 0
    requires TryBuild(p, pick, h).graph == Some(g)
    ensures Safe(g, p)
    ensures forall m: nat :: m < p.size ==> |Flagged(g, m, true)| == p.outbound && |Flagged(g, m, false)| == p.recon
  {
    hide Safe, Flagged, Pass;
    EmptyDone(p, p.outbound);
    PassEstablishes(map[], map[], p, 0, p.outbound, true, pick, h);
    var first := Pass(map[], p, 0, p.outbound, true, pick, h);
    NoneYet(first.graph.value, p);
    PassEstablishes(first.graph.value, first.graph.value, p, 0, p.recon, false, pick, first.history);
  }

  lemma NoneYet(g: Graph, p: Params)
    requires PassDone(g, map[], p, if p.size < 0 then 0 else p.size, if p.outbound < 0 then 0 else p.outbound, true)
    ensures forall degree: nat :: PassDone(g, g, p, 0, degree, false)
  {
    hide Safe;
    forall m: nat | m < p.size ensures Flagged(g, m, false) == {} {
      assert Flagged(g, m, false) == Flagged(map[], m, false) == {};
    }
  }

  /** Such a graph passes every assertion of validate_graph, given that it is connected and that inbound slots
      can be counted. */
  lemma EstablishesValid(g: Graph, p: Params)
    requires Buildable(p) && Safe(g, p)
    requires forall m: nat :: m < p.size ==> |Flagged(g, m, true)| == p.outbound && |Flagged(g, m, false)| == p.recon
    ensures Sited(g, p.size) && NoSelfLoops(g)
    ensures p.maxInbound >= 0 ==> forall n: nat :: n < p.size ==> NodeValid(g, p, n)
  {
    forall n: nat | n < p.size && p.maxInbound >= 0 ensures NodeValid(g, p, n) {
      assert Out(g, n) == Flagged(g, n, true) + Flagged(g, n, false);
      assert Flagged(g, n, true) !! Flagged(g, n, false);
      forall e | e in Out(g, n) ensures e.dst < p.reachable && Edge(e.dst, n) !in g.Keys {
        assert Edge(e.dst, e.src) !in g.Keys;
      }
    }
  }

  // ----- the checker as a loop, and the whole builder -----

  /** validate_graph; false where an assertion fails. */
  method ValidateGraph(g: Graph, p: Params) returns (ok: bool)
    requires p.size > 0 && Sited(g, p.size)
    ensures ok <==> ValidGraph(g, p)
  {
    SitedWithin(g, p.size);
    if !NoSelfLoops(g) { return false; }
    for n := 0 to p.size
      invariant forall m: nat :: m < n ==> NodeValid(g, p, m)
    {
      if !NodeValid(g, p, n) { return false; }
    }
    return Connected(g, p.size);
  }

  /** build_network: the first attempt from a on that is neither deadlocked nor disconnected. */
  function BuildFrom(p: Params, pick: Picker, h: seq<Call>, a: nat, maxAttempts: int): Option<(Mesh, nat)>
    requires Buildable(p) && Sampler(pick)
    decreases maxAttempts - a
  {
    if a > maxAttempts then None
    else
      var t := TryBuild(p, pick, h);
      if t.graph.Some? && IsConnected(p, pick, h) then
        TryLists(p, pick, h);
        Some((Listing(t.graph.value, TryOrder(p, pick, h)), a))
      else BuildFrom(p, pick, t.history, a + 1, maxAttempts)
  }

  /** nx.is_connected of the graph an attempt returned. */
  predicate IsConnected(p: Params, pick: Picker, h: seq<Call>)
    requires Buildable(p) && Sampler(pick) && TryBuild(p, pick, h).graph.Some?
  {
    var g := TryBuild(p, pick, h).graph.value;
    TryBuildEstablishes(p, pick, h, g);
    EstablishesValid(g, p);
    SitedWithin(g, p.size);
    Connected(g, p.size)
  }

  method BuildNetwork(p: Params, maxAttempts: int, rng: Rng) returns (r: Option<(Mesh, nat)>)
    requires Buildable(p) && Sampler(rng.pick)
    modifies rng
    ensures r == BuildFrom(p, rng.pick, old(rng.history), 1, maxAttempts)
  {
    hide TryBuild, TryOrder, Lists;
    var attempt := 1;
    while attempt <= maxAttempts
      invariant attempt >= 1
      invariant BuildFrom(p, rng.pick, old(rng.history), 1, maxAttempts)
                == BuildFrom(p, rng.pick, rng.history, attempt, maxAttempts)
      decreases maxAttempts - attempt
    {
      ghost var h := rng.history;
      var graph := TryBuildGraph(p, rng);
      if graph.Some? {
        var g := graph.value.graph;
        TryBuildEstablishes(p, rng.pick, h, g);
        EstablishesValid(g, p);
        SitedWithin(g, p.size);
        if Connected(g, p.size) {
          return Some((graph.value, attempt));
        }
      }
      attempt := attempt + 1;
    }
    return None;
  }

  /** What the generator has answered before attempt n, counted from 0. */
  function Before(p: Params, pick: Picker, h: seq<Call>, n: nat): seq<Call>
    requires p.outbound >= 0 && p.recon >= 0
  {
    if n == 0 then h else TryBuild(p, pick, Before(p, pick, h, n - 1)).history
  }

  /** An attempt that is neither deadlocked nor disconnected. */
  ghost predicate Succeeds(p: Params, pick: Picker, h: seq<Call>)
    requires p.outbound >= 0 && p.recon >= 0 && p.size > 0
  {
    var g := TryBuild(p, pick, h).graph;
    g.Some? && Within(g.value, Range(0, p.size)) && Connected(g.value, p.size)
  }

  /** None of the first n attempts succeeds. */
  ghost predicate AllFail(p: Params, pick: Picker, h: seq<Call>, n: int)
    requires p.outbound >= 0 && p.recon >= 0 && p.size > 0
  {
    forall m: nat :: m < n ==> !Succeeds(p, pick, Before(p, pick, h, m))
  }

  lemma {:induction false} BeforeNext(p: Params, pick: Picker, h: seq<Call>, n: nat)
    requires p.outbound >= 0 && p.recon >= 0
    ensures Before(p, pick, TryBuild(p, pick, h).history, n) == Before(p, pick, h, n + 1)
  {
    hide TryBuild;
    if n > 0 { BeforeNext(p, pick, h, n - 1); }
  }

  lemma SucceedsIff(p: Params, pick: Picker, h: seq<Call>)
    requires Buildable(p) && Sampler(pick)
    ensures Succeeds(p, pick, h) <==> TryBuild(p, pick, h).graph.Some? && IsConnected(p, pick, h)
  {
    hide TryBuild, Connected;
    if TryBuild(p, pick, h).graph.Some? {
      var g := TryBuild(p, pick, h).graph.value;
      TryBuildEstablishes(p, pick, h, g);
      EstablishesValid(g, p);
      SitedWithin(g, p.size);
    }
  }

  /** Failing n times after a failure is failing n + 1 times. */
  lemma OneMoreFailure(p: Params, pick: Picker, h: seq<Call>, n: int)
    requires p.outbound >= 0 && p.recon >= 0 && p.size > 0
    requires !Succeeds(p, pick, h) && AllFail(p, pick, TryBuild(p, pick, h).history, n)
    ensures AllFail(p, pick, h, n + 1)
  {
    hide TryBuild, Succeeds;
    var next := TryBuild(p, pick, h).history;
    forall m: nat | m < n + 1 ensures !Succeeds(p, pick, Before(p, pick, h, m)) {
      if m > 0 {
        BeforeNext(p, pick, h, m - 1);
        assert !Succeeds(p, pick, Before(p, pick, next, m - 1));
      }
    }
  }

  /** build_network returns what the first attempt that succeeds has built, with its number, and fails exactly when
      none of the allowed attempts does. */
  lemma {:induction false} RetriesUntilSuccess(p: Params, pick: Picker, h: seq<Call>, a: nat, maxAttempts: int)
    requires Buildable(p) && Sampler(pick)
    ensures var r := BuildFrom(p, pick, h, a, maxAttempts);
            if r.None? then AllFail(p, pick, h, maxAttempts - a + 1)
            else
              var (m, i) := r.value;
              && a <= i <= maxAttempts && AllFail(p, pick, h, i - a)
              && var start := Before(p, pick, h, i - a);
                 && Succeeds(p, pick, start)
                 && TryBuild(p, pick, start).graph == Some(m.graph) && m.order == TryOrder(p, pick, start)
    decreases maxAttempts - a
  {
    hide TryBuild, TryOrder, Succeeds, IsConnected;
    if a <= maxAttempts {
      SucceedsIff(p, pick, h);
      assert Before(p, pick, h, 0) == h;
      if !Succeeds(p, pick, h) {
        var next := TryBuild(p, pick, h).history;
        RetriesUntilSuccess(p, pick, next, a + 1, maxAttempts);
        var r := BuildFrom(p, pick, next, a + 1, maxAttempts);
        if r.Some? {
          OneMoreFailure(p, pick, h, r.value.1 - a - 1);
          BeforeNext(p, pick, h, r.value.1 - a - 1);
        } else {
          OneMoreFailure(p, pick, h, maxAttempts - a);
        }
      }
    }
  }

  /** Without inbound slots the first node is already stuck. */
  lemma SlotsNeeded(p: Params, pick: Picker, h: seq<Call>)
    requires InRange(p) && TryBuild(p, pick, h).graph.Some?
    ensures p.maxInbound > 0
  {
    var c := Candidates(map[], p, 0);
    if c != [] {
      assert c[0] in c;
      assert Candidate(map[], p, 0, c[0]);
    }
  }

  /** Under any sampling choices a graph that build_network returns passes every assertion of validate_graph,
      unless max_inbound is negative and no edge was wanted. */
  lemma {:induction false} BuilderMeetsChecker(p: Params, pick: Picker, h: seq<Call>, a: nat, maxAttempts: int)
    requires Buildable(p) && Sampler(pick) && BuildFrom(p, pick, h, a, maxAttempts).Some?
    ensures var (g, attempt) := BuildFrom(p, pick, h, a, maxAttempts).value;
            && a <= attempt <= maxAttempts
            && Sited(g.graph, p.size)
            && (ValidGraph(g.graph, p) <==> p.maxInbound >= 0)
            && (InRange(p) ==> p.maxInbound > 0)
    decreases maxAttempts - a
  {
    hide TryBuild;
    var t := TryBuild(p, pick, h);
    if t.graph.Some? {
      if InRange(p) { SlotsNeeded(p, pick, h); }
      TryBuildEstablishes(p, pick, h, t.graph.value);
      EstablishesValid(t.graph.value, p);
      assert NodeValid(t.graph.value, p, 0) ==> p.maxInbound >= 0;
    }
    if !(t.graph.Some? && IsConnected(p, pick, h)) {
      BuilderMeetsChecker(p, pick, t.history, a + 1, maxAttempts);
    }
  }

  /** A valid graph has exactly size * (outbound + recon) edges. */
  lemma EdgeCount(g: Graph, p: Params)
    requires p.size > 0 && Sited(g, p.size) && ValidGraph(g, p)
    ensures |g.Keys| == p.size * (p.outbound + p.recon)
  {
    assert NodeValid(g, p, 0);
    forall n: nat | n < p.size ensures |Out(g, n)| == p.outbound + p.recon {
      assert NodeValid(g, p, n);
    }
    hide *;
    CountBySource(g, p.size, p.outbound + p.recon);
    AllBelow(g, p.size);
  }

  lemma AllBelow(g: Graph, size: nat)
    requires Sited(g, size)
    ensures OutBelow(g, size) == g.Keys
  {
  }

  // ----- the order of the targets -----

  /** The result of an earlier call. */
  function Answer(pick: Picker, h: seq<Call>, i: nat): seq<nat>
    requires i < |h|
  {
    pick(h[..i], h[i].population, h[i].k)
  }

  lemma {:induction false} SameTargets(order: seq<Edge>, g: Graph, f: Graph, n: nat, manual: bool)
    requires forall e :: e in order ==> (e in Flagged(g, n, manual) <==> e in Flagged(f, n, manual))
    ensures Targets(order, g, n, manual) == Targets(order, f, n, manual)
  {
    hide Flagged;
    if order != [] { SameTargets(order[..|order| - 1], g, f, n, manual); }
  }

  /** One new edge at the end. */
  lemma TargetsSnoc(g: Graph, order: seq<Edge>, e: Edge, manual: bool, n: nat, b: bool)
    requires Lists(g, order) && e !in g.Keys
    ensures Placed(order, e) == order + [e]
    ensures Targets(Placed(order, e), g[e := manual], n, b)
         == Targets(order, g, n, b) + if n == e.src && b == manual then [e.dst] else []
  {
    assert forall x :: x in order <==> x in (set y | y in order);
    var o := Placed(order, e);
    assert o == order + [e] && o[..|o| - 1] == order;
    SameTargets(order, g, g[e := manual], n, b);
  }

  lemma FrontFresh(g: Graph, k: nat, s: seq<nat>, manual: bool)
    requires NewEdges(k, s) !! g.Keys && Distinct(s) && s != []
    ensures var front := s[..|s| - 1];
            && NewEdges(k, front) !! g.Keys && Distinct(front)
            && Edge(k, s[|s| - 1]) !in AddAll(g, k, front, manual).Keys
  {
    hide AddAll;
    var front, e := s[..|s| - 1], Edge(k, s[|s| - 1]);
    AddAllKeys(g, k, front, manual);
    assert e in NewEdges(k, s);
  }

  /** A sample is listed in its own order, after what was there; the other lists stay. */
  lemma {:induction false} SampleOrder(g: Graph, order: seq<Edge>, k: nat, s: seq<nat>, manual: bool, n: nat, b: bool)
    requires Lists(g, order) && NewEdges(k, s) !! g.Keys && Distinct(s)
    ensures Targets(PlaceAll(order, k, s), AddAll(g, k, s, manual), n, b)
         == Targets(order, g, n, b) + if n == k && b == manual then s else []
  {
    hide Lists, Placed, Targets, NewEdges, Distinct;
    if s != [] {
      var front, e := s[..|s| - 1], Edge(k, s[|s| - 1]);
      assert s == front + [s[|s| - 1]];
      FrontFresh(g, k, s, manual);
      SampleOrder(g, order, k, front, manual, n, b);
      PlaceAllLists(g, order, k, front, manual);
      TargetsSnoc(AddAll(g, k, front, manual), PlaceAll(order, k, front), e, manual, n, b);
    }
  }

  /** What a pass adds to the lists of targets: for the nodes from n on, the answers to its calls. */
  ghost predicate Listed(g: Graph, order: seq<Edge>, f: Graph, after: seq<Edge>, size: int, n: nat, manual: bool,
      pick: Picker, h: seq<Call>, last: seq<Call>)
    requires n <= size
  {
    && |last| == |h| + size - n && h <= last
    && (forall m: nat, b: bool :: b != manual || m < n || size <= m ==>
          Targets(after, f, m, b) == Targets(order, g, m, b))
    && (forall m: nat :: n <= m < size ==>
          Targets(after, f, m, manual) == Targets(order, g, m, manual) + Answer(pick, last, |h| + m - n))
  }

  lemma {:induction false} PassListed(g: Graph, order: seq<Edge>, p: Params, n: nat, degree: nat, manual: bool,
      pick: Picker, h: seq<Call>)
    requires Sampler(pick) && Lists(g, order) && n <= p.size && Pass(g, p, n, degree, manual, pick, h).graph.Some?
    ensures var r := Pass(g, p, n, degree, manual, pick, h);
            Listed(g, order, r.graph.value, PassOrder(g, order, p, n, degree, manual, pick, h), p.size, n, manual,
                pick, h, r.history)
    decreases p.size - n
  {
    hide Candidates, AddAll, PlaceAll, Lists, Targets, IsSample, NewEdges;
    if n < p.size {
      hide Listed;
      var c := Candidates(g, p, n);
      var s, next := pick(h, c, degree), h + [Call(c, degree)];
      assert IsSample(s, c, degree);
      var f, o := AddAll(g, n, s, manual), PlaceAll(order, n, s);
      PlaceAllLists(g, order, n, s, manual);
      PassListed(f, o, p, n + 1, degree, manual, pick, next);
      FreshTargets(g, p, n, s, degree);
      SampleDistinct(s, c, degree);
      forall m: nat, b: bool
        ensures Targets(o, f, m, b) == Targets(order, g, m, b) + if m == n && b == manual then s else []
      {
        SampleOrder(g, order, n, s, manual, m, b);
      }
      var r := Pass(f, p, n + 1, degree, manual, pick, next);
      var after := PassOrder(f, o, p, n + 1, degree, manual, pick, next);
      ListedStep(g, order, f, o, r.graph.value, after, p.size, n, manual, pick, h, c, degree, r.history);
    }
  }

  lemma ListedStep(g: Graph, order: seq<Edge>, f: Graph, o: seq<Edge>, end: Graph, after: seq<Edge>, size: int, n: nat,
      manual: bool, pick: Picker, h: seq<Call>, c: seq<nat>, k: nat, last: seq<Call>)
    requires n < size && Listed(f, o, end, after, size, n + 1, manual, pick, h + [Call(c, k)], last)
    requires forall m: nat, b: bool ::
               Targets(o, f, m, b) == Targets(order, g, m, b) + if m == n && b == manual then pick(h, c, k) else []
    ensures Listed(g, order, end, after, size, n, manual, pick, h, last)
  {
    hide Targets, Lists;
    var next := h + [Call(c, k)];
    assert last[..|next|] == next && last[|h|] == next[|h|] && last[..|h|] == next[..|h|] == h;
    assert Answer(pick, last, |h|) == pick(h, c, k);
    hide Answer;
  }

  lemma SampleDistinct(s: seq<nat>, c: seq<nat>, k: nat)
    requires IsSample(s, c, k)
    ensures Distinct(s)
  {
  }

  /** The targets of every node are listed in the order in which they were drawn: its addnode targets are the
      answer to its call in the first pass, its addconnection targets to that in the second. */
  lemma DrawOrder(p: Params, pick: Picker, h: seq<Call>, n: nat)
    requires Sampler(pick) && p.outbound >= 0 && p.recon >= 0 && TryBuild(p, pick, h).graph.Some? && n < p.size
    ensures var (t, order) := (TryBuild(p, pick, h), TryOrder(p, pick, h));
            var (g, last) := (t.graph.value, t.history);
            && |last| == |h| + 2 * p.size && h <= last
            && Targets(order, g, n, true) == Answer(pick, last, |h| + n)
            && Targets(order, g, n, false) == Answer(pick, last, |h| + p.size + n)
  {
    hide Pass, PassOrder, Targets, Answer;
    var first := Pass(map[], p, 0, p.outbound, true, pick, h);
    var o := PassOrder(map[], [], p, 0, p.outbound, true, pick, h);
    PassLists(map[], [], p, 0, p.outbound, true, pick, h);
    PassListed(map[], [], p, 0, p.outbound, true, pick, h);
    PassListed(first.graph.value, o, p, 0, p.recon, false, pick, first.history);
    NoTargets(n);
    SameAnswer(pick, first.history, TryBuild(p, pick, h).history, |h| + n);
  }

  lemma NoTargets(n: nat)
    ensures Targets([], map[], n, true) == [] && Targets([], map[], n, false) == []
  {
  }

  lemma SameAnswer(pick: Picker, h: seq<Call>, last: seq<Call>, i: nat)
    requires h <= last && i < |h|
    ensures Answer(pick, h, i) == Answer(pick, last, i)
  {
    assert h[..i] == last[..i];
  }

  // ----- an attempt call by call -----

  /** Call i of an attempt serves this node, with this degree and attribute. */
  function Served(p: Params, i: nat): nat
    requires i < 2 * p.size
  {
    if i < p.size then i else i - p.size
  }

  function Wanted(p: Params, i: nat): nat
    requires p.outbound >= 0 && p.recon >= 0
  {
    if i < p.size then p.outbound else p.recon
  }

  /** The graph made of the answers to the first i calls after the history h. */
  function Grown(p: Params, pick: Picker, h: seq<Call>, last: seq<Call>, i: nat): Graph
    requires |h| + i <= |last| && i <= 2 * p.size
  {
    if i == 0 then map[]
    else AddAll(Grown(p, pick, h, last, i - 1), Served(p, i - 1), Answer(pick, last, |h| + i - 1), i - 1 < p.size)
  }

  /** What call i is offered: the candidates of its node in the graph so far, enough of them. */
  ghost predicate Offered(p: Params, pick: Picker, h: seq<Call>, last: seq<Call>, i: nat)
    requires p.outbound >= 0 && p.recon >= 0 && |h| + i < |last| && i < 2 * p.size
  {
    && last[|h| + i] == Call(Candidates(Grown(p, pick, h, last, i), p, Served(p, i)), Wanted(p, i))
    && Wanted(p, i) <= |last[|h| + i].population|
  }

  ghost predicate Traced(p: Params, pick: Picker, h: seq<Call>, last: seq<Call>)
    requires p.outbound >= 0 && p.recon >= 0
  {
    && h <= last && |last| <= |h| + 2 * p.size
    && forall i: nat :: i < |last| - |h| ==> Offered(p, pick, h, last, i)
  }

  lemma {:induction false} GrownPrefix(p: Params, pick: Picker, h: seq<Call>, last: seq<Call>, longer: seq<Call>,
      i: nat)
    requires |h| + i <= |last| && i <= 2 * p.size && last <= longer
    ensures Grown(p, pick, h, last, i) == Grown(p, pick, h, longer, i)
  {
    hide AddAll, Answer;
    if i > 0 {
      GrownPrefix(p, pick, h, last, longer, i - 1);
      SameAnswer(pick, last, longer, |h| + i - 1);
    }
  }

  /** One more call. */
  lemma TraceOne(p: Params, pick: Picker, h: seq<Call>, last: seq<Call>, c: seq<nat>)
    requires p.outbound >= 0 && p.recon >= 0 && Traced(p, pick, h, last) && |last| - |h| < 2 * p.size
    requires var i := |last| - |h|; c == Candidates(Grown(p, pick, h, last, i), p, Served(p, i)) && Wanted(p, i) <= |c|
    ensures var i := |last| - |h|;
            var next := last + [Call(c, Wanted(p, i))];
            && Traced(p, pick, h, next)
            && Grown(p, pick, h, next, i + 1)
               == AddAll(Grown(p, pick, h, last, i), Served(p, i), pick(last, c, Wanted(p, i)), i < p.size)
  {
    hide Candidates, AddAll, Grown;
    var k := |last| - |h|;
    var next := last + [Call(c, Wanted(p, k))];
    forall i: nat | i < |next| - |h| ensures Offered(p, pick, h, next, i) {
      GrownPrefix(p, pick, h, last, next, i);
      if i < k { assert Offered(p, pick, h, last, i); }
    }
    GrownStep(p, pick, h, last, next, k);
  }

  lemma GrownStep(p: Params, pick: Picker, h: seq<Call>, last: seq<Call>, next: seq<Call>, i: nat)
    requires |last| == |h| + i && |next| == |last| + 1 && last <= next && i < 2 * p.size
    ensures var s := pick(last, next[|last|].population, next[|last|].k);
            Grown(p, pick, h, next, i + 1) == AddAll(Grown(p, pick, h, last, i), Served(p, i), s, i < p.size)
  {
    hide AddAll;
    GrownPrefix(p, pick, h, last, next, i);
    assert next[..|last|] == last;
  }

  /** How a pass that starts at node n of an attempt goes on. */
  lemma {:induction false} PassTraced(g: Graph, p: Params, n: nat, manual: bool, pick: Picker, h: seq<Call>,
      last: seq<Call>)
    requires p.outbound >= 0 && p.recon >= 0 && n <= p.size && Traced(p, pick, h, last)
    requires |last| == |h| + n + (if manual then 0 else p.size) && g == Grown(p, pick, h, last, |last| - |h|)
    ensures var end := if manual then p.size else 2 * p.size;
            var r := Pass(g, p, n, if manual then p.outbound else p.recon, manual, pick, last);
            var i := |r.history| - |h|;
            && Traced(p, pick, h, r.history) && 0 <= i <= end
            && (r.graph.Some? ==> i == end && r.graph.value == Grown(p, pick, h, r.history, i))
            && (r.graph.None? ==>
                i < end && |Candidates(Grown(p, pick, h, r.history, i), p, Served(p, i))| < Wanted(p, i))
    decreases p.size - n
  {
    hide Candidates, AddAll, Grown, Traced, Answer;
    if n < p.size {
      var degree := if manual then p.outbound else p.recon;
      var c := Candidates(g, p, n);
      var i := |last| - |h|;
      assert Served(p, i) == n && Wanted(p, i) == degree && (i < p.size <==> manual);
      if degree <= |c| {
        TraceOne(p, pick, h, last, c);
        PassTraced(AddAll(g, n, pick(last, c, degree), manual), p, n + 1, manual, pick, h, last + [Call(c, degree)]);
      }
    }
  }

  /** An attempt asks for one sample after the other, each from the candidates in the graph so far; it returns that
      graph after the last one, and gives up exactly at a node with too few candidates. */
  lemma AttemptTraced(p: Params, pick: Picker, h: seq<Call>)
    requires Buildable(p)
    ensures var t := TryBuild(p, pick, h);
            var i := |t.history| - |h|;
            && Traced(p, pick, h, t.history) && 0 <= i
            && (t.graph.Some? <==> i == 2 * p.size)
            && (t.graph.Some? ==> t.graph.value == Grown(p, pick, h, t.history, i))
            && (t.graph.None? ==> |Candidates(Grown(p, pick, h, t.history, i), p, Served(p, i))| < Wanted(p, i))
  {
    hide *;
    TracedStart(p, pick, h);
    TwoPasses(p, pick, h);
    PassTraced(map[], p, 0, true, pick, h, h);
    var first := Pass(map[], p, 0, p.outbound, true, pick, h);
    if first.graph.Some? { PassTraced(first.graph.value, p, 0, false, pick, h, first.history); }
  }

  lemma TwoPasses(p: Params, pick: Picker, h: seq<Call>)
    requires Buildable(p)
    ensures p.size > 0 && p.outbound >= 0 && p.recon >= 0
    ensures var first := Pass(map[], p, 0, p.outbound, true, pick, h);
            TryBuild(p, pick, h)
            == if first.graph.None? then first else Pass(first.graph.value, p, 0, p.recon, false, pick, first.history)
  {
    hide Pass;
  }

  lemma TracedStart(p: Params, pick: Picker, h: seq<Call>)
    requires Buildable(p)
    ensures Traced(p, pick, h, h) && Grown(p, pick, h, h, 0) == map[]
  {
  }

  // ----- the addnode edges of one attempt -----

  /** Edges of the manual pass. */
  function Manual(g: Graph): set<Edge> {
    set e | e in g.Keys && g[e]
  }

  lemma {:induction false} SecondPassKeepsManual(g: Graph, p: Params, n: nat, degree: nat, pick: Picker, h: seq<Call>)
    requires Sampler(pick)
    ensures var r := Pass(g, p, n, degree, false, pick, h).graph; r.Some? ==> Manual(r.value) == Manual(g)
    decreases p.size - n
  {
    hide Candidates, AddAll, Manual, IsSample;
    if n < p.size {
      var c := Candidates(g, p, n);
      if degree <= |c| {
        var s := pick(h, c, degree);
        assert IsSample(s, c, degree);
        FreshTargets(g, p, n, s, degree);
        AddedNotManual(g, n, s);
        SecondPassKeepsManual(AddAll(g, n, s, false), p, n + 1, degree, pick, h + [Call(c, degree)]);
      }
    }
  }

  lemma AddedNotManual(g: Graph, n: nat, s: seq<nat>)
    requires NewEdges(n, s) !! g.Keys
    ensures Manual(AddAll(g, n, s, false)) == Manual(g)
  {
    hide AddAll;
    var h := AddAll(g, n, s, false);
    AddAllKeys(g, n, s, false);
    forall e | e in h.Keys ensures h[e] <==> e in g.Keys && g[e] {
      if e in g.Keys {
        assert e !in NewEdges(n, s);
        assert e.dst in s ==> Edge(n, e.dst) in NewEdges(n, s);
      }
    }
  }

  lemma {:induction false} PassIgnoresRecon(g: Graph, p: Params, q: Params, n: nat, degree: nat, manual: bool,
      pick: Picker, h: seq<Call>)
    requires q == p.(recon := q.recon)
    ensures Pass(g, p, n, degree, manual, pick, h) == Pass(g, q, n, degree, manual, pick, h)
    decreases p.size - n
  {
    hide AddAll;
    if n < p.size {
      SameCandidates(g, p, q, n, if p.reachable < 0 then 0 else p.reachable);
      var c := Candidates(g, p, n);
      if degree <= |c| {
        PassIgnoresRecon(AddAll(g, n, pick(h, c, degree), manual), p, q, n + 1, degree, manual, pick,
            h + [Call(c, degree)]);
      }
    }
  }

  lemma {:induction false} SameCandidates(g: Graph, p: Params, q: Params, n: nat, k: nat)
    requires q == p.(recon := q.recon)
    ensures CandidatesBelow(g, p, n, k) == CandidatesBelow(g, q, n, k)
  {
    if k > 0 { SameCandidates(g, p, q, n, k - 1); }
  }

  /** With the same generator state, attempts that differ only in recon_outbound choose the same addnode edges. */
  lemma ManualIndependentOfRecon(p: Params, recon: int, pick: Picker, h: seq<Call>)
    requires Sampler(pick) && p.outbound >= 0 && p.recon >= 0 && recon >= 0
    ensures var a, b := TryBuild(p, pick, h).graph, TryBuild(p.(recon := recon), pick, h).graph;
            a.Some? && b.Some? ==> Manual(a.value) == Manual(b.value)
  {
    hide Pass, Manual;
    var q := p.(recon := recon);
    PassIgnoresRecon(map[], p, q, 0, p.outbound, true, pick, h);
    var first := Pass(map[], p, 0, p.outbound, true, pick, h);
    if first.graph.Some? {
      SecondPassKeepsManual(first.graph.value, p, 0, p.recon, pick, first.history);
      SecondPassKeepsManual(first.graph.value, q, 0, recon, pick, first.history);
    }
  }
}
