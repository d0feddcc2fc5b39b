/** Which parameters admit a valid graph, and that the builder can reach every one: the feasibility test of
    utils/create_network.py is exact. */
module Feasibility {
  import opened NumberTheory
  import opened Bytes
  import opened Graphs
  import opened Topology

  // ----- rejections are justified -----

  lemma Cancel(a: int, b: int, r: int)
    requires r > 0
    ensures r * a <= r * b ==> a <= b
    ensures r * a < r * b ==> a < b
  {
    assert (a - b) * r == r * a - r * b;
    MulGap(a - b, r);
  }

  lemma HalfPairs(r: int, t: int)
    requires r > 0 && 2 * (r * t) <= r * (r - 1)
    ensures 2 * t <= r - 1
  {
    assert r * (2 * t) == 2 * (r * t);
    Cancel(2 * t, r - 1, r);
  }

  /** Counting the edges among reachable nodes by unordered pair. */
  lemma ReachableBound(g: Graph, p: Params)
    requires InRange(p) && Sited(g, p.size) && ValidGraph(g, p)
    ensures 2 * (p.outbound + p.recon) <= p.reachable - 1
  {
    var r, t := p.reachable, p.outbound + p.recon;
    forall n: nat | n < p.size ensures |Out(g, n)| == t { assert NodeValid(g, p, n); }
    forall e | e in g.Keys ensures e.dst < r && Edge(e.dst, e.src) !in g.Keys { MirrorFree(g, p, e); }
    CountBySource(g, r, t);
    CountByPair(g, r);
    SubsetSize(OutBelow(g, r), Among(g, r));
    HalfPairs(r, t);
  }

  lemma MirrorFree(g: Graph, p: Params, e: Edge)
    requires InRange(p) && Sited(g, p.size) && ValidGraph(g, p) && e in g.Keys
    ensures e.dst < p.reachable && Edge(e.dst, e.src) !in g.Keys
  {
    assert NodeValid(g, p, e.src);
    assert e in Out(g, e.src);
  }

  /** Counting all edges by target. */
  lemma CapacityBound(g: Graph, p: Params)
    requires InRange(p) && Sited(g, p.size) && ValidGraph(g, p)
    ensures p.size * (p.outbound + p.recon) <= p.reachable * p.maxInbound
  {
    forall n: nat | n < p.size ensures |In(g, n)| <= p.maxInbound { assert NodeValid(g, p, n); }
    forall e | e in g.Keys ensures e.dst < p.reachable { MirrorFree(g, p, e); }
    CountByTarget(g, p.reachable, p.maxInbound);
    EdgeCount(g, p);
    assert InBelow(g, p.reachable) == g.Keys;
  }

  /** Whenever validate_args rejects parameters within range, no graph passes validate_graph. */
  lemma RejectionsJustified(g: Graph, p: Params)
    requires InRange(p) && Sited(g, p.size) && ValidGraph(g, p)
    ensures ValidateArgs(p) == Accepted
  {
    hide ValidGraph;
    ReachableBound(g, p);
    CapacityBound(g, p);
  }

  // ----- accepted parameters have a valid graph -----

  /** Reachable nodes take the next ones on a ring; the others go round the ring one after the other. */
  function Base(p: Params, n: nat): int {
    if n < p.reachable then n + 1 else (n - p.reachable) * (p.outbound + p.recon)
  }

  /** Which of its connections node n makes to r. */
  function Slot(p: Params, n: nat, r: nat): (j: nat)
    requires p.reachable > 0
    ensures j < p.reachable
  {
    (r - Base(p, n)) % p.reachable
  }

  function Target(p: Params, n: nat, j: nat): (r: nat)
    requires p.reachable > 0
    ensures r < p.reachable
  {
    (Base(p, n) + j) % p.reachable
  }

  lemma ShiftMod(b: int, x: int, m: int)
    requires m > 0 && 0 <= x < m
    ensures ((b + x) % m - b) % m == x && (b + (x - b) % m) % m == x
  {
    hide *;
    CongMod(b + x, m);
    CongRefl(b, m);
    CongSub((b + x) % m, b + x, b, b, m);
    CongSameMod((b + x) % m - b, x, m);
    CongMod(x - b, m);
    CongAdd(b, b, (x - b) % m, x - b, m);
    CongSameMod(b + (x - b) % m, x, m);
    ModSmall(x, m);
  }

  lemma SlotOfTarget(p: Params, n: nat, j: nat)
    requires j < p.reachable
    ensures Slot(p, n, Target(p, n, j)) == j
  {
    hide Base;
    ShiftMod(Base(p, n), j, p.reachable);
  }

  lemma TargetOfSlot(p: Params, n: nat, r: nat)
    requires r < p.reachable
    ensures Target(p, n, Slot(p, n, r)) == r
  {
    hide Base;
    ShiftMod(Base(p, n), r, p.reachable);
  }

  function Grid(n: nat, r: nat): (s: set<Edge>)
    ensures forall e :: e in s <==> e.src < n && e.dst < r
  {
    set a, b | a in Range(0, n) && b in Range(0, r) :: Edge(a, b)
  }

  function Ring(p: Params): (g: Graph)
    requires InRange(p)
    ensures forall e :: e in g.Keys <==>
              e.src < p.size && e.dst < p.reachable && Slot(p, e.src, e.dst) < p.outbound + p.recon
    ensures forall e :: e in g.Keys ==> (g[e] <==> Slot(p, e.src, e.dst) < p.outbound)
  {
    map e | e in Grid(p.size, p.reachable) && Slot(p, e.src, e.dst) < p.outbound + p.recon ::
      Slot(p, e.src, e.dst) < p.outbound
  }

  function Targets(p: Params, n: nat, from: nat, to: nat): (s: seq<nat>)
    requires p.reachable > 0 && from <= to
    ensures |s| == to - from && forall i :: 0 <= i < |s| ==> s[i] == Target(p, n, from + i)
  {
    seq<nat>(to - from, i requires 0 <= i < to - from => Target(p, n, from + i))
  }

  /** The edges of n in slots from .. to-1. */
  function SlotEdges(p: Params, n: nat, from: nat, to: nat): (s: set<Edge>)
    requires p.reachable > 0
    ensures forall e :: e in s <==> e.src == n && e.dst < p.reachable && from <= Slot(p, n, e.dst) < to
  {
    set r | r in Range(0, p.reachable) && from <= Slot(p, n, r) < to :: Edge(n, r)
  }

  lemma SlotCount(p: Params, n: nat, from: nat, to: nat)
    requires from <= to <= p.reachable && p.reachable > 0
    ensures |SlotEdges(p, n, from, to)| == to - from
  {
    var ts := Targets(p, n, from, to);
    forall i: nat | i < to - from ensures Slot(p, n, ts[i]) == from + i {
      SlotOfTarget(p, n, from + i);
    }
    hide Slot, Target;
    TargetsSize(n, ts);
    forall r: nat | r < p.reachable && from <= Slot(p, n, r) < to ensures r in ts {
      TargetOfSlot(p, n, r);
      assert ts[Slot(p, n, r) - from] == r;
    }
    assert SlotEdges(p, n, from, to) == NewEdges(n, ts);
  }

  lemma RingOut(p: Params, n: nat)
    requires ValidateArgs(p) == Accepted && n < p.size
    ensures |Out(Ring(p), n)| == p.outbound + p.recon && |Flagged(Ring(p), n, false)| == p.recon
  {
    var g, t := Ring(p), p.outbound + p.recon;
    SlotCount(p, n, 0, t);
    SlotCount(p, n, p.outbound, t);
    hide Slot, Ring, SlotEdges;
    assert Out(g, n) == SlotEdges(p, n, 0, t);
    assert Flagged(g, n, false) == SlotEdges(p, n, p.outbound, t);
  }

  lemma OppositeSlots(a: int, b: int, r: int, t: int)
    requires 0 <= a < r && 0 <= b < r && r >= 2 * t + 1 && t > 0
    requires (b - a - 1) % r < t
    ensures a != b && (a - b - 1) % r >= t
  {
    var k := if b - a - 1 < 0 then 1 else 0;
    QuotientUnique(b - a - 1, r, -k, b - a - 1 + k * r);
    var l := if a - b - 1 < 0 then 1 else 0;
    QuotientUnique(a - b - 1, r, -l, a - b - 1 + l * r);
  }

  lemma RingSimple(p: Params, e: Edge)
    requires ValidateArgs(p) == Accepted && e in Ring(p).Keys
    ensures e.src != e.dst && Edge(e.dst, e.src) !in Ring(p).Keys
  {
    hide Ring;
    if e.src < p.reachable {
      OppositeSlots(e.src, e.dst, p.reachable, p.outbound + p.recon);
      assert e.dst - (e.src + 1) == e.dst - e.src - 1 && e.src - (e.dst + 1) == e.src - e.dst - 1;
    }
  }

  /** A place for every edge into r: its slot for edges of the ring, its round for the others. */
  function Place(p: Params, e: Edge): int
    requires p.reachable > 0
  {
    var t, j := p.outbound + p.recon, Slot(p, e.src, e.dst);
    if e.src < p.reachable then j else t + ((e.src - p.reachable) * t + j) / p.reachable
  }

  lemma RoundBound(a: int, n: int, t: int, j: int, r: int, m: int)
    requires 0 <= a < n && 0 <= j < t && r > 0 && r * m >= (r + n) * t
    ensures 0 <= (a * t + j) / r < m - t
  {
    NonNegative(a, t);
    NonNegative(n - a - 1, t);
    assert (n - a - 1) * t == n * t - a * t - t;
    assert (r + n) * t == r * t + n * t && r * (m - t) == r * m - r * t;
    Quotient(a * t + j, r, m - t);
  }

  lemma NonNegative(a: int, b: int)
    requires a >= 0 && b >= 0
    ensures a * b >= 0
  {
  }

  lemma Quotient(k: int, r: int, b: int)
    requires r > 0 && 0 <= k < r * b
    ensures 0 <= k / r < b
  {
    assert k == r * (k / r) + k % r;
    Cancel(k / r, b, r);
    Cancel(-1, k / r, r);
  }

  lemma PlaceBound(p: Params, e: Edge)
    requires ValidateArgs(p) == Accepted && e in Ring(p).Keys
    ensures 0 <= Place(p, e) < p.maxInbound
  {
    var t, j := p.outbound + p.recon, Slot(p, e.src, e.dst);
    hide Ring, Slot;
    if e.src < p.reachable {
      TotalBelowCap(p.reachable, p.size, t, p.maxInbound);
    } else {
      RoundBound(e.src - p.reachable, p.size - p.reachable, t, j, p.reachable, p.maxInbound);
    }
  }

  lemma TotalBelowCap(r: int, n: int, t: int, m: int)
    requires 0 < r <= n && t > 0 && r * m >= n * t
    ensures t <= m
  {
    NonNegative(n - r, t);
    assert (n - r) * t == n * t - r * t;
    Cancel(t, m, r);
  }

  lemma SameRound(a: int, i: int, b: int, j: int, t: int)
    requires 0 <= i < t && 0 <= j < t && a * t + i == b * t + j
    ensures a == b && i == j
  {
    assert (a - b) * t == j - i;
    MulGap(a - b, t);
  }

  lemma SlotCong(p: Params, n: nat, r: nat)
    requires 0 <= r < p.reachable
    ensures (Base(p, n) + Slot(p, n, r)) % p.reachable == r
  {
    TargetOfSlot(p, n, r);
  }

  lemma PlaceInjective(p: Params, e: Edge, d: Edge)
    requires ValidateArgs(p) == Accepted && e in Ring(p).Keys && d in Ring(p).Keys
    requires e.dst == d.dst && Place(p, e) == Place(p, d)
    ensures e == d
  {
    var t, r, i, j := p.outbound + p.recon, p.reachable, Slot(p, e.src, e.dst), Slot(p, d.src, d.dst);
    SlotCong(p, e.src, e.dst);
    SlotCong(p, d.src, d.dst);
    RoundNonNegative(p, e);
    RoundNonNegative(p, d);
    hide Ring, Slot;
    if e.src < r && d.src < r {
      CongSameMod(e.src + 1 + i, d.src + 1 + i, r);
      SameResidue(e.src, d.src, 1 + i, r);
    } else if e.src >= r && d.src >= r {
      assert i < t && j < t by { RingSlots(p, e); RingSlots(p, d); }
      SamePlace(e.src - r, i, d.src - r, j, t, r);
    }
  }

  lemma RingSlots(p: Params, e: Edge)
    requires InRange(p) && e in Ring(p).Keys
    ensures Slot(p, e.src, e.dst) < p.outbound + p.recon
  {
  }

  lemma SamePlace(a: int, i: int, b: int, j: int, t: int, r: int)
    requires r > 0 && 0 <= i < t && 0 <= j < t
    requires (a * t + i) / r == (b * t + j) / r && (a * t + i) % r == (b * t + j) % r
    ensures a == b && i == j
  {
    var k, l := a * t + i, b * t + j;
    assert k == r * (k / r) + k % r && l == r * (l / r) + l % r;
    SameRound(a, i, b, j, t);
  }

  lemma RoundNonNegative(p: Params, e: Edge)
    requires ValidateArgs(p) == Accepted && e in Ring(p).Keys
    ensures e.src >= p.reachable ==> Place(p, e) >= p.outbound + p.recon
    ensures e.src < p.reachable ==> Place(p, e) < p.outbound + p.recon
  {
    var t, j := p.outbound + p.recon, Slot(p, e.src, e.dst);
    hide Ring, Slot;
    if e.src >= p.reachable {
      RoundBound(e.src - p.reachable, p.size - p.reachable, t, j, p.reachable, p.maxInbound);
    }
  }

  lemma SameResidue(a: int, b: int, c: int, r: int)
    requires 0 <= a < r && 0 <= b < r && Cong(a + c, b + c, r)
    ensures a == b
  {
    assert a + c - (b + c) == a - b;
    CongUnique(a, b, r);
  }

  lemma RingIn(p: Params, r: nat)
    requires ValidateArgs(p) == Accepted
    ensures |In(Ring(p), r)| <= p.maxInbound
  {
    var s := In(Ring(p), r);
    hide Ring, Place;
    forall e | e in s ensures 0 <= Place(p, e) < p.maxInbound { PlaceBound(p, e); }
    forall e, d | e in s && d in s && Place(p, e) == Place(p, d) ensures e == d { PlaceInjective(p, e, d); }
    RoomForOne(p);
    InjectionBound(s, e => Place(p, e), p.maxInbound);
  }

  lemma RoomForOne(p: Params)
    requires ValidateArgs(p) == Accepted
    ensures p.maxInbound >= 0
  {
    TotalBelowCap(p.reachable, p.size, p.outbound + p.recon, p.maxInbound);
  }

  lemma FirstSlot(p: Params, n: nat)
    requires ValidateArgs(p) == Accepted && n < p.size
    ensures Edge(n, Target(p, n, 0)) in Ring(p).Keys
  {
    SlotOfTarget(p, n, 0);
  }

  lemma NextOnRing(p: Params, n: nat)
    requires p.reachable > n + 1
    ensures Target(p, n, 0) == n + 1
  {
    ModSmall(n + 1, p.reachable);
  }

  lemma {:induction false} RingReaches(p: Params, s: set<nat>, n: nat)
    requires ValidateArgs(p) == Accepted && Closed(Ring(p), s) && 0 in s && n < p.reachable
    ensures n in s
  {
    if n > 0 {
      hide Ring, Target;
      RingReaches(p, s, n - 1);
      FirstSlot(p, n - 1);
      NextOnRing(p, n - 1);
    }
  }

  lemma RingConnected(p: Params)
    requires ValidateArgs(p) == Accepted
    ensures Sited(Ring(p), p.size) && Within(Ring(p), Range(0, p.size)) && Connected(Ring(p), p.size)
  {
    var g := Ring(p);
    SitedWithin(g, p.size);
    var s := Spread(g, {0}, Range(0, p.size));
    hide Ring, Target;
    forall n: nat | n < p.size ensures n in s {
      if n < p.reachable {
        RingReaches(p, s, n);
      } else {
        FirstSlot(p, n);
        RingReaches(p, s, Target(p, n, 0));
      }
    }
    assert s == Range(0, p.size);
  }

  /** Accepted parameters have a valid graph. */
  lemma RingValid(p: Params)
    requires ValidateArgs(p) == Accepted
    ensures Sited(Ring(p), p.size) && ValidGraph(Ring(p), p)
  {
    var g := Ring(p);
    RingConnected(p);
    forall e | e in g.Keys ensures e.src != e.dst { RingSimple(p, e); }
    hide Ring, Connected, NodeValid, Sited;
    forall n: nat | n < p.size ensures NodeValid(g, p, n) {
      RingNode(p, n);
    }
  }

  lemma RingNode(p: Params, n: nat)
    requires ValidateArgs(p) == Accepted && n < p.size
    ensures NodeValid(Ring(p), p, n)
  {
    RingOut(p, n);
    RingIn(p, n);
    forall e | e in Out(Ring(p), n) ensures e.dst < p.reachable && Edge(e.dst, n) !in Ring(p).Keys { RingSimple(p, e); }
  }

  /** validate_args is exact: within range it accepts precisely the parameters of some valid graph. */
  lemma AcceptedIffFeasible(p: Params)
    requires InRange(p)
    ensures ValidateArgs(p) == Accepted <==> exists g: Graph :: Sited(g, p.size) && ValidGraph(g, p)
  {
    hide ValidGraph, Sited;
    if ValidateArgs(p) == Accepted { RingValid(p); }
    forall g: Graph | Sited(g, p.size) && ValidGraph(g, p) ensures ValidateArgs(p) == Accepted {
      RejectionsJustified(g, p);
    }
  }

  // ----- every valid graph can be built -----

  function Degree(p: Params, manual: bool): nat
    requires InRange(p)
  {
    if manual then p.outbound else p.recon
  }

  /** The targets of n below k with a given attribute, in ascending order. */
  function TargetList(g: Graph, n: nat, manual: bool, k: nat): (s: seq<nat>)
    ensures Distinct(s)
    ensures forall r: nat :: r in s <==> r < k && Edge(n, r) in Flagged(g, n, manual)
  {
    if k == 0 then []
    else
      var s := TargetList(g, n, manual, k - 1);
      if Edge(n, k - 1) in Flagged(g, n, manual) then s + [k - 1] else s
  }

  function Chosen(g: Graph, p: Params, calls: nat): seq<nat>
    requires InRange(p)
  {
    if calls < p.size then TargetList(g, calls, true, p.reachable)
    else TargetList(g, calls - p.size, false, p.reachable)
  }

  /** A sampler that picks the edges of g whenever they are a possible sample. */
  function Following(g: Graph, p: Params): Picker
    requires InRange(p)
  {
    (h: seq<Call>, c: seq<nat>, k: nat) =>
      var s := Chosen(g, p, |h|);
      if IsSample(s, c, k) then s else if k <= |c| then c[..k] else c
  }

  lemma FollowingSamples(g: Graph, p: Params)
    requires InRange(p)
    ensures Sampler(Following(g, p))
  {
    hide Chosen;
    forall h: seq<Call>, c: seq<nat>, k: nat | k <= |c| && Distinct(c)
      ensures IsSample(Following(g, p)(h, c, k), c, k)
    {
      assert IsSample(c[..k], c, k);
    }
  }

  /** The part of g that exists once the nodes below n have been served in a pass. */
  function Partial(g: Graph, n: nat, manual: bool): Graph {
    map e | e in g.Keys && (if manual then g[e] && e.src < n else g[e] || e.src < n) :: g[e]
  }

  lemma ListIsFlagged(g: Graph, p: Params, n: nat, manual: bool)
    requires InRange(p) && Sited(g, p.size) && ValidGraph(g, p) && n < p.size
    ensures NewEdges(n, TargetList(g, n, manual, p.reachable)) == Flagged(g, n, manual)
    ensures |TargetList(g, n, manual, p.reachable)| == Degree(p, manual)
  {
    var s := TargetList(g, n, manual, p.reachable);
    forall e | e in Flagged(g, n, manual) ensures e.dst < p.reachable && e == Edge(n, e.dst) {
      MirrorFree(g, p, e);
    }
    hide TargetList, ValidGraph, Flagged, Sited;
    assert NewEdges(n, s) == Flagged(g, n, manual);
    TargetsSize(n, s);
    FlaggedSizes(g, p, n);
  }

  lemma FlaggedSizes(g: Graph, p: Params, n: nat)
    requires InRange(p) && Sited(g, p.size) && ValidGraph(g, p) && n < p.size
    ensures |Flagged(g, n, true)| == p.outbound && |Flagged(g, n, false)| == p.recon
  {
    assert NodeValid(g, p, n);
    hide ValidGraph;
    assert Out(g, n) == Flagged(g, n, true) + Flagged(g, n, false) && Flagged(g, n, true) !! Flagged(g, n, false);
  }

  lemma PartialNext(g: Graph, n: nat, manual: bool, s: seq<nat>)
    requires NewEdges(n, s) == Flagged(g, n, manual)
    ensures AddAll(Partial(g, n, manual), n, s, manual) == Partial(g, n + 1, manual)
  {
    hide AddAll;
    var cur, next := Partial(g, n, manual), Partial(g, n + 1, manual);
    AddAllKeys(cur, n, s, manual);
    var h := AddAll(cur, n, s, manual);
    assert h.Keys == next.Keys;
    forall e | e in h.Keys ensures h[e] == next[e] {
      if e in NewEdges(n, s) {
        assert e.dst in s;
      } else {
        assert e.dst in s ==> Edge(n, e.dst) in NewEdges(n, s);
      }
    }
  }

  /** A target of n not served yet is still a candidate. */
  lemma StillCandidate(g: Graph, p: Params, n: nat, manual: bool, r: nat)
    requires InRange(p) && Sited(g, p.size) && ValidGraph(g, p) && n < p.size
    requires Edge(n, r) in Flagged(g, n, manual)
    ensures r < p.reachable && Candidate(Partial(g, n, manual), p, n, r)
  {
    var e, cur := Edge(n, r), Partial(g, n, manual);
    MirrorFree(g, p, e);
    assert NodeValid(g, p, r);
    hide ValidGraph;
    assert e in In(g, r) && e !in In(cur, r);
    assert In(cur, r) <= In(g, r) - {e};
    SubsetSize(In(cur, r), In(g, r) - {e});
  }

  lemma ListSampled(g: Graph, p: Params, n: nat, manual: bool)
    requires InRange(p) && Sited(g, p.size) && ValidGraph(g, p) && n < p.size
    ensures IsSample(TargetList(g, n, manual, p.reachable), Candidates(Partial(g, n, manual), p, n), Degree(p, manual))
    ensures |Candidates(Partial(g, n, manual), p, n)| >= Degree(p, manual)
  {
    hide ValidGraph, TargetList, Candidates, Candidate, Flagged;
    var s, c := TargetList(g, n, manual, p.reachable), Candidates(Partial(g, n, manual), p, n);
    ListIsFlagged(g, p, n, manual);
    forall i | 0 <= i < |s| ensures s[i] in c {
      assert s[i] in s;
      StillCandidate(g, p, n, manual, s[i]);
    }
    TargetsSize(n, s);
    Fits(s, c);
  }

  lemma Fits(s: seq<nat>, c: seq<nat>)
    requires Distinct(s) && forall i :: 0 <= i < |s| ==> s[i] in c
    ensures |s| <= |c|
  {
    TargetsSize(0, s);
    assert NewEdges(0, s) <= NewEdges(0, c);
    AtMost(0, c);
    SubsetSize(NewEdges(0, s), NewEdges(0, c));
  }

  lemma {:induction false} AtMost(n: nat, c: seq<nat>)
    ensures |NewEdges(n, c)| <= |c|
  {
    if c == [] {
      assert NewEdges(n, c) == {};
    } else {
      var front := c[..|c| - 1];
      AtMost(n, front);
      assert c == front + [c[|c| - 1]];
      assert NewEdges(n, c) == NewEdges(n, front) + {Edge(n, c[|c| - 1])};
    }
  }

  lemma ServesNode(g: Graph, p: Params, n: nat, manual: bool, h: seq<Call>)
    requires InRange(p) && Sited(g, p.size) && ValidGraph(g, p) && n < p.size
    requires |h| == if manual then n else p.size + n
    ensures var cur := Partial(g, n, manual);
            var c := Candidates(cur, p, n);
            && Degree(p, manual) <= |c|
            && AddAll(cur, n, Following(g, p)(h, c, Degree(p, manual)), manual) == Partial(g, n + 1, manual)
  {
    assert p.reachable > 0;
    hide *;
    var c := Candidates(Partial(g, n, manual), p, n);
    ListSampled(g, p, n, manual);
    ListIsFlagged(g, p, n, manual);
    FollowingPicks(g, p, n, manual, h, c);
    PartialNext(g, n, manual, TargetList(g, n, manual, p.reachable));
  }

  /** Following g, a pass serves every node with its edges of g. */
  lemma {:induction false} PassFollows(g: Graph, p: Params, n: nat, manual: bool, h: seq<Call>)
    requires InRange(p) && Sited(g, p.size) && ValidGraph(g, p) && n <= p.size
    requires |h| == if manual then n else p.size + n
    ensures var a := Pass(Partial(g, n, manual), p, n, Degree(p, manual), manual, Following(g, p), h);
            a.graph == Some(Partial(g, p.size, manual)) && |a.history| == |h| + p.size - n
    decreases p.size - n
  {
    hide *;
    var cur, degree := Partial(g, n, manual), Degree(p, manual);
    PassStep(cur, p, n, degree, manual, Following(g, p), h);
    if n < p.size {
      var c := Candidates(cur, p, n);
      ServesNode(g, p, n, manual, h);
      PassFollows(g, p, n + 1, manual, h + [Call(c, degree)]);
    }
  }

  lemma PassStep(g: Graph, p: Params, n: nat, degree: nat, manual: bool, pick: Picker, h: seq<Call>)
    ensures n >= p.size ==> Pass(g, p, n, degree, manual, pick, h) == Attempt(Some(g), h)
    ensures n < p.size && degree <= |Candidates(g, p, n)| ==>
            var c := Candidates(g, p, n);
            Pass(g, p, n, degree, manual, pick, h)
            == Pass(AddAll(g, n, pick(h, c, degree), manual), p, n + 1, degree, manual, pick, h + [Call(c, degree)])
  {
    hide AddAll, Candidates;
  }

  lemma FollowingPicks(g: Graph, p: Params, n: nat, manual: bool, h: seq<Call>, c: seq<nat>)
    requires InRange(p) && n < p.size && |h| == if manual then n else p.size + n
    requires IsSample(TargetList(g, n, manual, p.reachable), c, Degree(p, manual))
    ensures Following(g, p)(h, c, Degree(p, manual)) == TargetList(g, n, manual, p.reachable)
  {
    hide TargetList, IsSample;
    assert Chosen(g, p, |h|) == TargetList(g, n, manual, p.reachable) by {
      if manual {
      } else {
        assert |h| - p.size == n;
      }
    }
  }

  /** Every graph that passes validate_graph is what some generator makes the first attempt return. */
  lemma BuilderReaches(g: Graph, p: Params)
    requires InRange(p) && Sited(g, p.size) && ValidGraph(g, p)
    ensures Sampler(Following(g, p)) && BuildFrom(p, Following(g, p), [], 1, 1).Some?
    ensures var (m, attempt) := BuildFrom(p, Following(g, p), [], 1, 1).value; m.graph == g && attempt == 1
  {
    FollowingSamples(g, p);
    SitedWithin(g, p.size);
    assert Connected(g, p.size);
    PartialEnds(g, p);
    hide ValidGraph, Following, Partial, Pass, Sited, Connected;
    PassFollows(g, p, 0, true, []);
    var first := Pass(map[], p, 0, p.outbound, true, Following(g, p), []);
    PassFollows(g, p, 0, false, first.history);
    assert TryBuild(p, Following(g, p), []).graph == Some(g);
  }

  lemma PartialEnds(g: Graph, p: Params)
    requires InRange(p) && Sited(g, p.size)
    ensures Partial(g, 0, true) == map[]
    ensures Partial(g, p.size, true) == Partial(g, 0, false) && Partial(g, p.size, false) == g
  {
    assert Partial(g, 0, true).Keys == {};
  }

  /** Parameters are accepted exactly when some generator makes build_network succeed, and then at its first attempt. */
  lemma AcceptedIffBuildable(p: Params)
    requires InRange(p)
    ensures ValidateArgs(p) == Accepted <==>
            exists pick: Picker :: Sampler(pick) && BuildFrom(p, pick, [], 1, 1).Some?
  {
    hide ValidGraph, BuildFrom, Following, Ring, Sampler;
    if ValidateArgs(p) == Accepted {
      RingValid(p);
      BuilderReaches(Ring(p), p);
      var pick := Following(Ring(p), p);
      assert Sampler(pick) && BuildFrom(p, pick, [], 1, 1).Some?;
    }
    forall pick: Picker | Sampler(pick) && BuildFrom(p, pick, [], 1, 1).Some? ensures ValidateArgs(p) == Accepted {
      BuildableAccepted(p, pick, [], 1, 1);
    }
  }

  /** After a rejection no generator and no number of attempts could have helped. */
  lemma BuildableAccepted(p: Params, pick: Picker, h: seq<Call>, a: nat, maxAttempts: int)
    requires InRange(p) && Sampler(pick)
    ensures BuildFrom(p, pick, h, a, maxAttempts).Some? ==> ValidateArgs(p) == Accepted
  {
    hide ValidGraph, BuildFrom;
    if BuildFrom(p, pick, h, a, maxAttempts).Some? {
      BuilderMeetsChecker(p, pick, h, a, maxAttempts);
      RejectionsJustified(BuildFrom(p, pick, h, a, maxAttempts).value.0.graph, p);
    }
  }
}
