/** The three arms of utils/create_eclipse_network.py, and what relaying can reach in each. */
module Eclipse {
  import opened Bytes
  import opened Graphs
  import opened Topology

  /** Names of the network: tank-0000 and on, blackhole-0001 and on, and victim. */
  datatype Name = Tank(i: nat) | Blackhole(i: nat) | Victim

  /** An entry under addconnection; the type is given when it is not warnet's default, v2 when it is off. */
  datatype Conn = Conn(to: Name, kind: Option<string>, v1: bool)

  /** One entry of network.yaml with both kinds of outgoing connection. */
  datatype Node = Node(name: Name, addnode: seq<Name>, addconnection: seq<Conn>, blackhole: bool)

  const DEFAULT_CONNECTION_TYPE: string := "outbound-full-relay"

  datatype Arm = Control | Relay | Recon

  // ----- to_network_yaml -----

  function Names(targets: seq<nat>): (s: seq<Name>)
    ensures |s| == |targets| && forall i :: 0 <= i < |s| ==> s[i] == Tank(targets[i])
  {
    seq(|targets|, i requires 0 <= i < |targets| => Tank(targets[i]))
  }

  function Conns(targets: seq<nat>, kind: Option<string>, v1: bool): (s: seq<Conn>)
    ensures |s| == |targets| && forall i :: 0 <= i < |s| ==> s[i] == Conn(Tank(targets[i]), kind, v1)
  {
    seq(|targets|, i requires 0 <= i < |targets| => Conn(Tank(targets[i]), kind, v1))
  }

  /** The type as it is written. */
  function Shown(kind: string): Option<string> {
    if kind == DEFAULT_CONNECTION_TYPE then None else Some(kind)
  }

  function TankOf(g: Mesh, n: nat, kind: string, v2: bool): Node {
    Node(Tank(n), Names(Targets(g.order, g.graph, n, true)),
         Conns(Targets(g.order, g.graph, n, false), Shown(kind), !v2), false)
  }

  function Tanks(g: Mesh, size: nat, kind: string, v2: bool): (nodes: seq<Node>)
    ensures |nodes| == size && forall i :: 0 <= i < size ==> nodes[i] == TankOf(g, i, kind, v2)
  {
    seq(size, i requires 0 <= i < size => TankOf(g, i, kind, v2))
  }

  method ToNetworkYaml(g: Mesh, size: nat, kind: string, v2: bool) returns (nodes: seq<Node>)
    ensures nodes == Tanks(g, size, kind, v2)
  {
    nodes := [];
    for n := 0 to size
      invariant |nodes| == n && forall i :: 0 <= i < n ==> nodes[i] == TankOf(g, i, kind, v2)
    {
      var addnode, addconnection := [], [];
      for i := 0 to |g.order|
        invariant addnode == Names(Targets(g.order[..i], g.graph, n, true))
        invariant addconnection == Conns(Targets(g.order[..i], g.graph, n, false), Shown(kind), !v2)
      {
        assert g.order[..i + 1][..i] == g.order[..i];
        var e := g.order[i];
        assert e in set x | x in g.order;
        if e.src == n {
          if g.graph[e] {
            addnode := addnode + [Tank(e.dst)];
          } else {
            var entry := Conn(Tank(e.dst), None, false);
            if kind != DEFAULT_CONNECTION_TYPE { entry := entry.(kind := Some(kind)); }
            if !v2 { entry := entry.(v1 := true); }
            addconnection := addconnection + [entry];
          }
        }
      }
      assert g.order[..|g.order|] == g.order;
      nodes := nodes + [Node(Tank(n), addnode, addconnection, false)];
    }
  }

  /** What the two arguments do: every addconnection entry has the type exactly when it is not the default one, and
      is marked exactly when v2 is off. */
  lemma WrittenTypes(g: Mesh, size: nat, kind: string, v2: bool, i: nat, j: nat)
    requires i < size && j < |Tanks(g, size, kind, v2)[i].addconnection|
    ensures var c := Tanks(g, size, kind, v2)[i].addconnection[j];
            && (c.kind == None <==> kind == "outbound-full-relay")
            && (kind != "outbound-full-relay" ==> c.kind == Some(kind))
            && (c.v1 <==> !v2)
  {
    hide Targets;
  }

  // ----- the overlay of one arm -----

  /** What one seed draws for all arms: the targets of each blackhole and the extra links of the victim. */
  datatype Draw = Draw(bhTargets: seq<seq<nat>>, victimExtra: seq<nat>)

  predicate GoodDraw(d: Draw, p: Params) {
    && p.outbound >= 0 && p.recon >= 0
    && |d.bhTargets| == p.outbound && |d.victimExtra| == p.recon
    && (forall i :: 0 <= i < |d.bhTargets| ==> |d.bhTargets[i]| == p.outbound + p.recon && Distinct(d.bhTargets[i]))
    && Distinct(d.victimExtra)
    && (forall i, j :: 0 <= i < |d.bhTargets| && 0 <= j < |d.bhTargets[i]| ==> d.bhTargets[i][j] < p.reachable)
    && (forall j :: 0 <= j < |d.victimExtra| ==> d.victimExtra[j] < p.reachable)
  }

  /** The type of the extra links of an arm, and of the mesh's own addconnection edges. */
  function ArmType(arm: Arm): Option<string> {
    match arm
    case Control => None
    case Relay => Some("outbound-full-relay")
    case Recon => Some("outbound-full-recon")
  }

  function MeshType(arm: Arm): string {
    if arm.Recon? then "outbound-full-recon" else "outbound-full-relay"
  }

  function BlackholeNode(d: Draw, p: Params, arm: Arm, i: nat): Node
    requires GoodDraw(d, p) && i < p.outbound
  {
    Node(Blackhole(i + 1), Names(d.bhTargets[i][..p.outbound]),
         if arm.Control? then [] else Conns(d.bhTargets[i][p.outbound..], ArmType(arm), false), true)
  }

  function BlackholeNames(n: nat): (s: seq<Name>)
    ensures |s| == n && forall i :: 0 <= i < n ==> s[i] == Blackhole(i + 1)
  {
    seq(n, i requires 0 <= i < n => Blackhole(i + 1))
  }

  function VictimNode(d: Draw, p: Params, arm: Arm): Node
    requires GoodDraw(d, p)
  {
    Node(Victim, BlackholeNames(p.outbound),
         if arm.Control? then [] else Conns(d.victimExtra, ArmType(arm), false), false)
  }

  function Blackholes(d: Draw, p: Params, arm: Arm): (s: seq<Node>)
    requires GoodDraw(d, p)
    ensures |s| == p.outbound && forall i :: 0 <= i < |s| ==> s[i] == BlackholeNode(d, p, arm, i)
  {
    seq(p.outbound, i requires 0 <= i < p.outbound => BlackholeNode(d, p, arm, i))
  }

  /** The nodes of an arm over an honest mesh. */
  function ArmNodes(g: Mesh, d: Draw, p: Params, arm: Arm): seq<Node>
    requires GoodDraw(d, p) && p.size >= 0
  {
    Tanks(g, p.size, MeshType(arm), true) + Blackholes(d, p, arm) + [VictimNode(d, p, arm)]
  }

  method BuildBlackhole(d: Draw, p: Params, arm: Arm, i: nat) returns (bh: Node)
    requires GoodDraw(d, p) && i < p.outbound
    ensures bh == BlackholeNode(d, p, arm, i) && bh.name == Blackhole(i + 1)
  {
    var targets := d.bhTargets[i];
    bh := Node(Blackhole(i + 1), Names(targets[..p.outbound]), [], true);
    if !arm.Control? {
      bh := bh.(addconnection := Conns(targets[p.outbound..p.outbound + p.recon], ArmType(arm), false));
      assert targets[p.outbound..p.outbound + p.recon] == targets[p.outbound..];
    }
  }

  /** One turn of the loop over arms, on the nodes of that arm's mesh. */
  method BuildArm(tanks: seq<Node>, d: Draw, p: Params, arm: Arm) returns (nodes: seq<Node>)
    requires GoodDraw(d, p)
    ensures nodes == tanks + Blackholes(d, p, arm) + [VictimNode(d, p, arm)]
  {
    hide BlackholeNode;
    var blackholes: seq<Node> := [];
    var names: seq<Name> := [];
    for i := 0 to p.outbound
      invariant |blackholes| == i && forall j :: 0 <= j < i ==> blackholes[j] == BlackholeNode(d, p, arm, j)
      invariant names == BlackholeNames(i)
    {
      var bh := BuildBlackhole(d, p, arm, i);
      blackholes := blackholes + [bh];
      names := names + [bh.name];
    }
    var victim := Node(Victim, names, [], false);
    if !arm.Control? {
      victim := victim.(addconnection := Conns(d.victimExtra, ArmType(arm), false));
    }
    nodes := tanks + blackholes + [victim];
  }

  /** The mesh of the first successful attempt of a generator. */
  function MeshOf(p: Params, pick: Picker): Option<Mesh>
    requires Sampler(pick)
  {
    if ValidateArgs(p) != Accepted then None
    else
      match BuildFrom(p, pick, [], 1, 500)
      case None => None
      case Some((m, _)) => Some(m)
  }

  /** honest_mesh: the assertions of validate_graph cannot fail on what build_network returned. */
  method HonestMesh(p: Params, kind: string, rng: Rng) returns (r: Option<seq<Node>>)
    requires Sampler(rng.pick) && rng.history == []
    modifies rng
    ensures r.None? <==> MeshOf(p, rng.pick).None?
    ensures r.Some? ==>
              var m := MeshOf(p, rng.pick).value;
              && ValidateArgs(p) == Accepted && Sited(m.graph, p.size) && ValidGraph(m.graph, p)
              && r.value == Tanks(m, p.size, kind, true)
  {
    hide BuildFrom, ValidGraph, Lists;
    if ValidateArgs(p) != Accepted { return None; }
    var b := BuildNetwork(p, 500, rng);
    if b.None? { return None; }
    var g := b.value.0;
    BuilderMeetsChecker(p, rng.pick, [], 1, 500);
    var ok := ValidateGraph(g.graph, p);
    assert ok;
    var nodes := ToNetworkYaml(g, p.size, kind, true);
    return Some(nodes);
  }

  function Indices(n: nat): (s: seq<nat>)
    ensures |s| == n && Distinct(s) && forall i :: 0 <= i < n ==> s[i] == i
  {
    seq<nat>(n, i => i)
  }

  /** A generator's history of i draws from the reachable honest nodes. */
  function Draws(p: Params, i: nat): (h: seq<Call>)
    requires p.reachable >= 0 && p.outbound >= 0 && p.recon >= 0
    ensures |h| == i && forall k :: 0 <= k < i ==> h[k] == Call(Indices(p.reachable), p.outbound + p.recon)
  {
    seq(i, _ => Call(Indices(p.reachable), p.outbound + p.recon))
  }

  /** The targets drawn once for all arms: one draw for every blackhole, then one for the victim. */
  function LinksOf(p: Params, pick: Picker): Draw
    requires p.reachable >= 0 && p.outbound >= 0 && p.recon >= 0
  {
    var names := Indices(p.reachable);
    Draw(seq(p.outbound, i requires 0 <= i < p.outbound => pick(Draws(p, i), names, p.outbound + p.recon)),
         pick(Draws(p, p.outbound), names, p.recon))
  }

  method DrawLinks(p: Params, rng: Rng) returns (d: Draw)
    requires Sampler(rng.pick) && ValidateArgs(p) == Accepted && rng.history == []
    modifies rng
    ensures d == LinksOf(p, rng.pick) && GoodDraw(d, p)
    ensures |rng.history| == p.outbound + 1 && forall i :: 0 <= i <= p.outbound ==>
              && rng.history[i].population == Indices(p.reachable)
              && Answer(rng.pick, rng.history, i) == if i < p.outbound then d.bhTargets[i] else d.victimExtra
  {
    hide IsSample, Sampler, Answer;
    var names := Indices(p.reachable);
    var bhTargets: seq<seq<nat>> := [];
    for i := 0 to p.outbound
      invariant rng.history == Draws(p, i)
      invariant |bhTargets| == i
      invariant forall k :: 0 <= k < i ==> bhTargets[k] == rng.pick(Draws(p, k), names, p.outbound + p.recon)
      invariant forall k :: 0 <= k < i ==> IsSample(bhTargets[k], names, p.outbound + p.recon)
    {
      var s := rng.Sample(names, p.outbound + p.recon);
      bhTargets := bhTargets + [s];
    }
    var victimExtra := rng.Sample(names, p.recon);
    d := Draw(bhTargets, victimExtra);
    GoodSamples(d, p, names);
    DrawsAnswered(p, rng.pick, rng.history, d);
  }

  lemma DrawsAnswered(p: Params, pick: Picker, h: seq<Call>, d: Draw)
    requires p.reachable >= 0 && p.outbound >= 0 && p.recon >= 0 && d == LinksOf(p, pick)
    requires h == Draws(p, p.outbound) + [Call(Indices(p.reachable), p.recon)]
    ensures forall i :: 0 <= i <= p.outbound ==>
              && h[i].population == Indices(p.reachable)
              && Answer(pick, h, i) == if i < p.outbound then d.bhTargets[i] else d.victimExtra
  {
    forall i | 0 <= i <= p.outbound
      ensures h[i].population == Indices(p.reachable)
      ensures Answer(pick, h, i) == if i < p.outbound then d.bhTargets[i] else d.victimExtra
    {
      assert h[..i] == Draws(p, i);
    }
  }

  /** A generator that answers with the parts of d in turn whenever they are a possible sample. */
  function Drawing(p: Params, d: Draw): Picker
    requires GoodDraw(d, p)
  {
    (h: seq<Call>, c: seq<nat>, k: nat) =>
      var s := if |h| < p.outbound then d.bhTargets[|h|] else d.victimExtra;
      if IsSample(s, c, k) then s else if k <= |c| then c[..k] else c
  }

  /** Every choice of links is what some generator draws. */
  lemma EveryDraw(p: Params, d: Draw)
    requires GoodDraw(d, p) && p.reachable >= 0
    ensures Sampler(Drawing(p, d)) && LinksOf(p, Drawing(p, d)) == d
  {
    var pick, names := Drawing(p, d), Indices(p.reachable);
    forall h: seq<Call>, c: seq<nat>, k: nat | k <= |c| && Distinct(c) ensures IsSample(pick(h, c, k), c, k) {
      assert IsSample(c[..k], c, k);
    }
    forall i | 0 <= i < p.outbound ensures pick(Draws(p, i), names, p.outbound + p.recon) == d.bhTargets[i] {
      ReachableSample(d.bhTargets[i], p, p.outbound + p.recon);
    }
    ReachableSample(d.victimExtra, p, p.recon);
    assert LinksOf(p, pick).bhTargets == d.bhTargets;
  }

  lemma ReachableSample(s: seq<nat>, p: Params, k: nat)
    requires p.reachable >= 0 && |s| == k && Distinct(s) && forall j :: 0 <= j < |s| ==> s[j] < p.reachable
    ensures IsSample(s, Indices(p.reachable), k)
  {
    forall j | 0 <= j < |s| ensures s[j] in Indices(p.reachable) {
      assert Indices(p.reachable)[s[j]] == s[j];
    }
  }

  lemma GoodSamples(d: Draw, p: Params, names: seq<nat>)
    requires p.outbound >= 0 && p.recon >= 0 && |d.bhTargets| == p.outbound
    requires forall n :: n in names ==> n < p.reachable
    requires forall k :: 0 <= k < |d.bhTargets| ==> IsSample(d.bhTargets[k], names, p.outbound + p.recon)
    requires IsSample(d.victimExtra, names, p.recon)
    ensures GoodDraw(d, p)
  {
  }

  // ----- relaying -----

  /** An entry opens a connection between two nodes; items travel along it in both directions. */
  predicate Opens(nodes: seq<Node>, a: Name, b: Name) {
    exists i :: 0 <= i < |nodes| && nodes[i].name == a && OpensAt(nodes[i], b)
  }

  predicate Linked(nodes: seq<Node>, a: Name, b: Name) {
    Opens(nodes, a, b) || Opens(nodes, b, a)
  }

  /** A node that is no blackhole hands what it holds to a node it is connected to; a blackhole receives
      and never forwards. */
  predicate Forwards(nodes: seq<Node>, a: Name, b: Name) {
    !a.Blackhole? && Linked(nodes, a, b)
  }

  /** A run: the holders of an item after each hand-over, from the honest nodes it started at. */
  ghost predicate IsRun(nodes: seq<Node>, start: set<Name>, run: seq<set<Name>>) {
    && |run| > 0 && run[0] == start
    && forall k, l :: 0 <= k < l < |run| && l == k + 1 ==> OneHandOver(nodes, run[k], run[l])
  }

  ghost predicate OneHandOver(nodes: seq<Node>, s: set<Name>, t: set<Name>) {
    exists a, b :: a in s && Forwards(nodes, a, b) && t == s + {b}
  }

  ghost predicate HonestSet(s: set<Name>, p: Params) {
    s != {} && forall x :: x in s ==> x.Tank? && x.i < p.size
  }

  /** Everyone in the network. */
  function Everyone(p: Params): (s: set<Name>)
    ensures forall x :: x in s <==> (x.Tank? && x.i < p.size) || (x.Blackhole? && 1 <= x.i <= p.outbound) || x.Victim?
  {
    (set i | i in Range(0, if p.size < 0 then 0 else p.size) :: Tank(i))
    + (set i | i in Range(1, if p.outbound < 0 then 0 else p.outbound + 1) :: Blackhole(i)) + {Victim}
  }

  // ----- who is connected to whom -----

  /** Connections of the mesh. */
  predicate MeshOpens(g: Mesh, p: Params, a: Name, b: Name) {
    a.Tank? && b.Tank? && a.i < p.size && Edge(a.i, b.i) in g.graph.Keys
  }

  predicate BlackholeOpens(d: Draw, p: Params, arm: Arm, a: Name, b: Name)
    requires GoodDraw(d, p)
  {
    a.Blackhole? && b.Tank? && 1 <= a.i <= p.outbound
    && b.i in if arm.Control? then d.bhTargets[a.i - 1][..p.outbound] else d.bhTargets[a.i - 1]
  }

  predicate VictimOpens(d: Draw, p: Params, arm: Arm, a: Name, b: Name)
    requires GoodDraw(d, p)
  {
    a.Victim? && ((b.Blackhole? && 1 <= b.i <= p.outbound) || (!arm.Control? && b.Tank? && b.i in d.victimExtra))
  }

  lemma NamesHave(s: seq<nat>, b: Name)
    ensures b in Names(s) <==> b.Tank? && b.i in s
  {
    if b.Tank? && b.i in s {
      var j :| 0 <= j < |s| && s[j] == b.i;
      assert Names(s)[j] == b;
    }
  }

  /** An entry of the list goes to b. */
  predicate ConnsTo(s: seq<Conn>, b: Name) {
    exists i :: 0 <= i < |s| && s[i].to == b
  }

  lemma ConnsHave(s: seq<nat>, kind: Option<string>, v1: bool, b: Name)
    ensures ConnsTo(Conns(s, kind, v1), b) <==> b.Tank? && b.i in s
  {
    if b.Tank? && b.i in s {
      var j :| 0 <= j < |s| && s[j] == b.i;
      assert Conns(s, kind, v1)[j].to == b;
    }
  }

  lemma BlackholeNamesHave(n: nat, b: Name)
    ensures b in BlackholeNames(n) <==> b.Blackhole? && 1 <= b.i <= n
  {
    if b.Blackhole? && 1 <= b.i <= n { assert BlackholeNames(n)[b.i - 1] == b; }
  }

  lemma TankOpensIff(g: Mesh, p: Params, n: nat, kind: string, b: Name)
    requires p.size >= 0 && n < p.size
    ensures OpensAt(TankOf(g, n, kind, true), b) <==> MeshOpens(g, p, Tank(n), b)
  {
    if b.Tank? {
      var e := Edge(n, b.i);
      assert e in g.order <==> e in set x | x in g.order;
    }
    NamesHave(Targets(g.order, g.graph, n, true), b);
    ConnsHave(Targets(g.order, g.graph, n, false), Shown(kind), false, b);
  }

  lemma BlackholeOpensIff(d: Draw, p: Params, arm: Arm, i: nat, b: Name)
    requires GoodDraw(d, p) && i < p.outbound
    ensures var bh := BlackholeNode(d, p, arm, i);
            OpensAt(bh, b) <==> BlackholeOpens(d, p, arm, Blackhole(i + 1), b)
  {
    var s := d.bhTargets[i];
    NamesHave(s[..p.outbound], b);
    ConnsHave(s[p.outbound..], ArmType(arm), false, b);
    assert s == s[..p.outbound] + s[p.outbound..];
  }

  lemma VictimOpensIff(d: Draw, p: Params, arm: Arm, b: Name)
    requires GoodDraw(d, p)
    ensures var v := VictimNode(d, p, arm);
            OpensAt(v, b) <==> VictimOpens(d, p, arm, Victim, b)
  {
    BlackholeNamesHave(p.outbound, b);
    ConnsHave(d.victimExtra, ArmType(arm), false, b);
  }

  predicate ArmOpens(g: Mesh, d: Draw, p: Params, arm: Arm, a: Name, b: Name)
    requires GoodDraw(d, p)
  {
    MeshOpens(g, p, a, b) || BlackholeOpens(d, p, arm, a, b) || VictimOpens(d, p, arm, a, b)
  }

  predicate OpensAt(x: Node, b: Name) {
    b in x.addnode || ConnsTo(x.addconnection, b)
  }

  /** Where a name stands in the list of nodes, and which name stands where. */
  function Position(p: Params, a: Name): int {
    match a
    case Tank(i) => i
    case Blackhole(i) => p.size + i - 1
    case Victim => p.size + p.outbound
  }

  function NodeOf(g: Mesh, d: Draw, p: Params, arm: Arm, i: nat): Node
    requires GoodDraw(d, p) && 0 <= p.size
  {
    if i < p.size then TankOf(g, i, MeshType(arm), true)
    else if i < p.size + p.outbound then BlackholeNode(d, p, arm, i - p.size)
    else VictimNode(d, p, arm)
  }

  lemma ArmNodeIs(g: Mesh, d: Draw, p: Params, arm: Arm, i: nat)
    requires GoodDraw(d, p) && 0 <= p.size
    ensures |ArmNodes(g, d, p, arm)| == p.size + p.outbound + 1
    ensures i < |ArmNodes(g, d, p, arm)| ==> ArmNodes(g, d, p, arm)[i] == NodeOf(g, d, p, arm, i)
  {
    hide TankOf, BlackholeNode, VictimNode;
  }

  lemma TankAt(g: Mesh, d: Draw, p: Params, arm: Arm, i: nat, b: Name)
    requires GoodDraw(d, p) && i < p.size
    ensures var x := TankOf(g, i, MeshType(arm), true);
            x.name == Tank(i) && (OpensAt(x, b) <==> ArmOpens(g, d, p, arm, Tank(i), b))
  {
    hide Targets;
    TankOpensIff(g, p, i, MeshType(arm), b);
  }

  lemma BlackholeAt(g: Mesh, d: Draw, p: Params, arm: Arm, i: nat, b: Name)
    requires GoodDraw(d, p) && i < p.outbound
    ensures var x := BlackholeNode(d, p, arm, i);
            x.name == Blackhole(i + 1) && (OpensAt(x, b) <==> ArmOpens(g, d, p, arm, Blackhole(i + 1), b))
  {
    BlackholeOpensIff(d, p, arm, i, b);
  }

  lemma VictimAt(g: Mesh, d: Draw, p: Params, arm: Arm, b: Name)
    requires GoodDraw(d, p)
    ensures var x := VictimNode(d, p, arm); x.name == Victim && (OpensAt(x, b) <==> ArmOpens(g, d, p, arm, Victim, b))
  {
    VictimOpensIff(d, p, arm, b);
  }

  lemma NodeAt(g: Mesh, d: Draw, p: Params, arm: Arm, i: nat, b: Name)
    requires GoodDraw(d, p) && 0 <= p.size && i < |ArmNodes(g, d, p, arm)|
    ensures var x := ArmNodes(g, d, p, arm)[i];
            Position(p, x.name) == i && (OpensAt(x, b) <==> ArmOpens(g, d, p, arm, x.name, b))
  {
    hide ArmNodes, TankOf, BlackholeNode, VictimNode, OpensAt, ArmOpens;
    ArmNodeIs(g, d, p, arm, i);
    if i < p.size {
      TankAt(g, d, p, arm, i, b);
    } else if i < p.size + p.outbound {
      BlackholeAt(g, d, p, arm, i - p.size, b);
    } else {
      VictimAt(g, d, p, arm, b);
    }
  }

  lemma NamedAt(g: Mesh, d: Draw, p: Params, arm: Arm, a: Name, b: Name)
    requires GoodDraw(d, p) && 0 <= p.size && ArmOpens(g, d, p, arm, a, b)
    ensures 0 <= Position(p, a) < |ArmNodes(g, d, p, arm)| && ArmNodes(g, d, p, arm)[Position(p, a)].name == a
  {
    hide ArmNodes;
    ArmNodeIs(g, d, p, arm, if Position(p, a) < 0 then 0 else Position(p, a));
  }

  /** The connections of an arm, by name. */
  lemma OpensIff(g: Mesh, d: Draw, p: Params, arm: Arm, a: Name, b: Name)
    requires GoodDraw(d, p) && p.size >= 0
    ensures Opens(ArmNodes(g, d, p, arm), a, b) <==> ArmOpens(g, d, p, arm, a, b)
  {
    hide ArmNodes, ArmOpens, Position;
    var nodes := ArmNodes(g, d, p, arm);
    if ArmOpens(g, d, p, arm, a, b) {
      NamedAt(g, d, p, arm, a, b);
      NodeAt(g, d, p, arm, Position(p, a), b);
      assert OpensAt(nodes[Position(p, a)], b);
    }
    forall i | 0 <= i < |nodes| && nodes[i].name == a && OpensAt(nodes[i], b) ensures ArmOpens(g, d, p, arm, a, b) {
      NodeAt(g, d, p, arm, i, b);
    }
  }

  // ----- what the arms share -----

  function Untyped(x: Node): Node {
    var conns := x.addconnection;
    x.(addconnection := seq(|conns|, i requires 0 <= i < |conns| => conns[i].(kind := None)))
  }

  /** Over one mesh and one draw the relay and recon arms differ in connection types only. */
  lemma SameWiring(g: Mesh, d: Draw, p: Params, i: nat)
    requires GoodDraw(d, p) && 0 <= p.size
    ensures var relay, recon := ArmNodes(g, d, p, Relay), ArmNodes(g, d, p, Recon);
            |relay| == |recon| && (i < |relay| ==> Untyped(relay[i]) == Untyped(recon[i]))
  {
    ArmNodeIs(g, d, p, Relay, i);
    ArmNodeIs(g, d, p, Recon, i);
    hide ArmNodes, Targets;
    var x, y := NodeOf(g, d, p, Relay, i), NodeOf(g, d, p, Recon, i);
    assert Untyped(x).addconnection == Untyped(y).addconnection;
  }

  /** Every extra link of an arm has the type of that arm: warnet's default in the relay arm, full
      reconciliation in the recon arm; the control arm has none. */
  lemma ExtraTypes(g: Mesh, d: Draw, p: Params, arm: Arm, i: nat, j: nat)
    requires GoodDraw(d, p) && 0 <= p.size
    requires i < |ArmNodes(g, d, p, arm)| && j < |ArmNodes(g, d, p, arm)[i].addconnection|
    ensures var c := ArmNodes(g, d, p, arm)[i].addconnection[j];
            && !c.v1
            && (c.kind == Some("outbound-full-recon") <==> arm.Recon?)
            && (!arm.Recon? ==> c.kind in {None, Some(DEFAULT_CONNECTION_TYPE)})
  {
    ArmNodeIs(g, d, p, arm, i);
    hide ArmNodes, Targets;
    assert "outbound-full-recon"[16] != DEFAULT_CONNECTION_TYPE[16];
  }

  /** Every node of an arm has the baseline of addnode connections, and in the relay and recon arms the extra
      connections besides; blackholes and nobody else are configured as such. */
  lemma Degrees(g: Mesh, d: Draw, p: Params, arm: Arm, i: nat)
    requires GoodDraw(d, p) && 0 <= p.size && i < |ArmNodes(g, d, p, arm)|
    requires var mesh := if arm.Control? then p.(recon := 0) else p;
             p.size > 0 && Sited(g.graph, p.size) && ValidGraph(g.graph, mesh)
    ensures var x := ArmNodes(g, d, p, arm)[i];
            && |x.addnode| == p.outbound && |x.addconnection| == (if arm.Control? then 0 else p.recon)
            && (x.blackhole <==> x.name.Blackhole?)
  {
    ArmNodeIs(g, d, p, arm, i);
    hide ArmNodes, ValidGraph;
    if i < p.size {
      var mesh := if arm.Control? then p.(recon := 0) else p;
      NodeDegrees(g, mesh, i);
    }
  }

  lemma NodeDegrees(g: Mesh, p: Params, n: nat)
    requires p.size > 0 && Sited(g.graph, p.size) && ValidGraph(g.graph, p) && n < p.size
    ensures |Targets(g.order, g.graph, n, true)| == p.outbound && |Targets(g.order, g.graph, n, false)| == p.recon
  {
    assert NodeValid(g.graph, p, n);
    hide ValidGraph, Sited, Connected;
    var yes, no := Flagged(g.graph, n, true), Flagged(g.graph, n, false);
    assert Out(g.graph, n) == yes + no && yes !! no;
    TargetCount(g, n, true);
    TargetCount(g, n, false);
  }

  /** A node has as many listed targets as edges. */
  lemma TargetCount(g: Mesh, n: nat, manual: bool)
    ensures |Targets(g.order, g.graph, n, manual)| == |Flagged(g.graph, n, manual)|
  {
    TargetSet(g.order, g.graph, n, manual);
    assert Flagged(g.graph, n, manual) == Among(g.order, Flagged(g.graph, n, manual)) by {
      forall e | e in Flagged(g.graph, n, manual) ensures e in g.order {
        assert e in set x | x in g.order;
      }
    }
  }

  lemma {:induction false} TargetSet(order: seq<Edge>, g: Graph, n: nat, manual: bool)
    requires forall i, j :: 0 <= i < j < |order| ==> order[i] != order[j]
    ensures |Targets(order, g, n, manual)| == |Among(order, Flagged(g, n, manual))|
  {
    if order != [] {
      hide Flagged, Among;
      TargetSet(order[..|order| - 1], g, n, manual);
      AmongSnoc(order, Flagged(g, n, manual));
    }
  }

  function Among(order: seq<Edge>, f: set<Edge>): set<Edge> {
    set e | e in order && e in f
  }

  lemma AmongSnoc(order: seq<Edge>, f: set<Edge>)
    requires order != [] && forall i, j :: 0 <= i < j < |order| ==> order[i] != order[j]
    ensures var front, last := order[..|order| - 1], order[|order| - 1];
            |Among(order, f)| == |Among(front, f)| + if last in f then 1 else 0
  {
    var front, last := order[..|order| - 1], order[|order| - 1];
    assert order == front + [last] && last !in front;
    assert Among(order, f) == if last in f then Among(front, f) + {last} else Among(front, f);
  }

  // ----- safety -----

  /** In the control arm, or without extras, every connection of the victim is to a blackhole. */
  lemma VictimCaptured(g: Mesh, d: Draw, p: Params, arm: Arm, a: Name)
    requires GoodDraw(d, p) && p.size >= 0 && (arm.Control? || p.recon == 0)
    ensures !Forwards(ArmNodes(g, d, p, arm), a, Victim)
  {
    OpensIff(g, d, p, arm, a, Victim);
    OpensIff(g, d, p, arm, Victim, a);
  }

  /** Then no run, however long and wherever among the honest nodes it starts, ever reaches the victim. */
  lemma {:induction false} VictimNeverReached(g: Mesh, d: Draw, p: Params, arm: Arm, start: set<Name>,
      run: seq<set<Name>>)
    requires GoodDraw(d, p) && p.size >= 0 && (arm.Control? || p.recon == 0)
    requires HonestSet(start, p) && IsRun(ArmNodes(g, d, p, arm), start, run)
    ensures Victim !in run[|run| - 1]
    decreases |run|
  {
    if |run| > 1 {
      hide ArmNodes, Forwards;
      var front := run[..|run| - 1];
      assert IsRun(ArmNodes(g, d, p, arm), start, front);
      VictimNeverReached(g, d, p, arm, start, front);
      var s, t := run[|run| - 2], run[|run| - 1];
      assert OneHandOver(ArmNodes(g, d, p, arm), s, t);
      var a, b :| a in s && Forwards(ArmNodes(g, d, p, arm), a, b) && t == s + {b};
      VictimCaptured(g, d, p, arm, a);
    }
  }

  // ----- liveness -----

  ghost predicate ClosedUnder(nodes: seq<Node>, s: set<Name>) {
    forall a, b :: a in s && Forwards(nodes, a, b) ==> b in s
  }

  /** An item held by an honest node, in a set closed under relaying, is held by every honest node. */
  lemma HonestClosure(g: Mesh, d: Draw, p: Params, arm: Arm, s: set<Name>)
    requires GoodDraw(d, p) && p.size > 0 && Within(g.graph, Range(0, p.size)) && Connected(g.graph, p.size)
    requires ClosedUnder(ArmNodes(g, d, p, arm), s) && exists x :: x in s && x.Tank? && x.i < p.size
    ensures forall i: nat :: i < p.size ==> Tank(i) in s
  {
    hide ArmNodes, Connected;
    var held := set i | i in Range(0, p.size) && Tank(i) in s;
    forall e | e in g.graph.Keys ensures e.src in held <==> e.dst in held {
      OpensIff(g, d, p, arm, Tank(e.src), Tank(e.dst));
      assert Forwards(ArmNodes(g, d, p, arm), Tank(e.src), Tank(e.dst));
      assert Forwards(ArmNodes(g, d, p, arm), Tank(e.dst), Tank(e.src));
    }
    CutEmptyOrAll(g.graph, p.size, held);
    var x :| x in s && x.Tank? && x.i < p.size;
    assert x.i in held;
    forall i: nat | i < p.size ensures Tank(i) in s {
      assert i in Range(0, p.size);
      assert i in held;
    }
  }

  /** With extra links every set closed under relaying that holds an honest node holds everyone. */
  lemma ClosureIsEveryone(g: Mesh, d: Draw, p: Params, arm: Arm, s: set<Name>)
    requires GoodDraw(d, p) && 0 < p.reachable <= p.size && p.outbound > 0
    requires Within(g.graph, Range(0, p.size)) && Connected(g.graph, p.size)
    requires !arm.Control? && p.recon >= 1
    requires ClosedUnder(ArmNodes(g, d, p, arm), s) && exists x :: x in s && x.Tank? && x.i < p.size
    ensures Everyone(p) <= s
  {
    hide ArmNodes, Connected;
    HonestClosure(g, d, p, arm, s);
    var v := Tank(d.victimExtra[0]);
    OpensIff(g, d, p, arm, Victim, v);
    assert Forwards(ArmNodes(g, d, p, arm), v, Victim);
    forall i: nat | 1 <= i <= p.outbound ensures Blackhole(i) in s {
      var b := Tank(d.bhTargets[i - 1][0]);
      OpensIff(g, d, p, arm, Blackhole(i), b);
      assert Forwards(ArmNodes(g, d, p, arm), b, Blackhole(i));
    }
  }

  /** Relaying stays within the network. */
  lemma EveryoneClosed(g: Mesh, d: Draw, p: Params, arm: Arm)
    requires GoodDraw(d, p) && 0 < p.reachable <= p.size && Within(g.graph, Range(0, p.size))
    ensures ClosedUnder(ArmNodes(g, d, p, arm), Everyone(p))
  {
    hide ArmNodes;
    forall a, b | a in Everyone(p) && Forwards(ArmNodes(g, d, p, arm), a, b) ensures b in Everyone(p) {
      OpensIff(g, d, p, arm, a, b);
      OpensIff(g, d, p, arm, b, a);
    }
  }

  /** A run that cannot be continued with anything new: it exists from every start. */
  lemma {:induction false} LongestRun(nodes: seq<Node>, all: set<Name>, start: set<Name>, run: seq<set<Name>>)
      returns (longer: seq<set<Name>>)
    requires IsRun(nodes, start, run) && run[|run| - 1] <= all && ClosedUnder(nodes, all)
    ensures IsRun(nodes, start, longer) && run[|run| - 1] <= longer[|longer| - 1] <= all
    ensures ClosedUnder(nodes, longer[|longer| - 1])
    decreases |all - run[|run| - 1]|
  {
    hide Forwards;
    var s := run[|run| - 1];
    if a, b :| a in s && Forwards(nodes, a, b) && b !in s {
      var next := run + [s + {b}];
      assert OneHandOver(nodes, s, s + {b});
      assert next[|next| - 1] == s + {b};
      assert forall k :: 0 <= k < |run| ==> next[k] == run[k];
      SmallerNames(all, s, b);
      longer := LongestRun(nodes, all, start, next);
    } else {
      longer := run;
    }
  }

  lemma SmallerNames(all: set<Name>, s: set<Name>, b: Name)
    requires b in all && b !in s
    ensures |all - (s + {b})| < |all - s|
  {
    assert all - s == (all - (s + {b})) + {b};
  }

  /** From any honest start some run reaches everyone, the victim included. */
  lemma EveryoneReached(g: Mesh, d: Draw, p: Params, arm: Arm, start: set<Name>) returns (run: seq<set<Name>>)
    requires GoodDraw(d, p) && 0 < p.reachable <= p.size && p.outbound > 0
    requires Within(g.graph, Range(0, p.size)) && Connected(g.graph, p.size)
    requires !arm.Control? && p.recon >= 1 && HonestSet(start, p)
    ensures IsRun(ArmNodes(g, d, p, arm), start, run) && run[|run| - 1] == Everyone(p)
  {
    hide ArmNodes, Connected;
    var nodes := ArmNodes(g, d, p, arm);
    EveryoneClosed(g, d, p, arm);
    run := LongestRun(nodes, Everyone(p), start, [start]);
    var x :| x in start;
    assert x in run[|run| - 1] && x.Tank? && x.i < p.size;
    ClosureIsEveryone(g, d, p, arm, run[|run| - 1]);
  }

  ghost predicate CanReachVictim(nodes: seq<Node>, start: set<Name>) {
    exists run :: IsRun(nodes, start, run) && Victim in run[|run| - 1]
  }

  /** Over a mesh that build_network returned, an item of an honest node can reach the victim exactly in the
      relay and recon arms with at least one extra link. */
  lemma EclipseOutcome(mesh: Params, pick: Picker, maxAttempts: int, d: Draw, p: Params, arm: Arm, start: set<Name>)
    requires InRange(mesh) && Sampler(pick) && BuildFrom(mesh, pick, [], 1, maxAttempts).Some?
    requires mesh == if arm.Control? then p.(recon := 0) else p
    requires GoodDraw(d, p) && HonestSet(start, p)
    ensures var g := BuildFrom(mesh, pick, [], 1, maxAttempts).value.0;
            CanReachVictim(ArmNodes(g, d, p, arm), start) <==> !arm.Control? && p.recon >= 1
  {
    var g := BuildFrom(mesh, pick, [], 1, maxAttempts).value.0;
    BuilderMeetsChecker(mesh, pick, [], 1, maxAttempts);
    SitedWithin(g.graph, p.size);
    assert Connected(g.graph, p.size);
    hide ArmNodes, ValidGraph, Connected, BuildFrom, IsRun;
    if !arm.Control? && p.recon >= 1 {
      var run := EveryoneReached(g, d, p, arm, start);
      assert Victim in run[|run| - 1];
    } else {
      forall run | IsRun(ArmNodes(g, d, p, arm), start, run) ensures Victim !in run[|run| - 1] {
        VictimNeverReached(g, d, p, arm, start, run);
      }
    }
  }

  // ----- the whole program -----

  datatype Networks = Networks(control: seq<Node>, relay: seq<Node>, recon: seq<Node>)

  /** The parameters of the meshes with extra links. */
  function Overlaid(honest: int, reachable: int, outbound: int, extras: int): Params {
    Params(honest, reachable, outbound, extras, 125)
  }

  ghost predicate OneWiring(relay: seq<Node>, recon: seq<Node>) {
    |relay| == |recon| && forall i :: 0 <= i < |relay| ==> Untyped(relay[i]) == Untyped(recon[i])
  }

  /** main, with equal generators for the three meshes and another one for the links; None where it stops with
      an error. */
  method Generate(honest: int, reachable: int, outbound: int, extras: int, meshes: Picker, links: Picker)
    returns (r: Option<Networks>)
    requires Sampler(meshes) && Sampler(links)
    ensures var p := Overlaid(honest, reachable, outbound, extras);
            && (r.None? <==> outbound > 8 || MeshOf(p.(recon := 0), meshes).None? || MeshOf(p, meshes).None?)
            && (r.Some? ==>
                var d := LinksOf(p, links);
                && GoodDraw(d, p)
                && r.value.control == ArmNodes(MeshOf(p.(recon := 0), meshes).value, d, p, Control)
                && r.value.relay == ArmNodes(MeshOf(p, meshes).value, d, p, Relay)
                && r.value.recon == ArmNodes(MeshOf(p, meshes).value, d, p, Recon)
                && OneWiring(r.value.relay, r.value.recon)
                && forall start :: HonestSet(start, p) ==>
                     && !CanReachVictim(r.value.control, start)
                     && (CanReachVictim(r.value.relay, start) <==> extras >= 1)
                     && (CanReachVictim(r.value.recon, start) <==> extras >= 1))
  {
    hide MeshOf, ValidGraph, Sited, Tanks, Sampler, LinksOf, GoodDraw, HonestSet, CanReachVictim;
    if outbound > 8 { return None; }
    var p := Overlaid(honest, reachable, outbound, extras);
    var rng := new Rng(meshes);
    var control := HonestMesh(p.(recon := 0), "outbound-full-relay", rng);
    if control.None? { return None; }
    rng := new Rng(meshes);
    var relay := HonestMesh(p, "outbound-full-relay", rng);
    if relay.None? { return None; }
    rng := new Rng(meshes);
    var recon := HonestMesh(p, "outbound-full-recon", rng);
    rng := new Rng(links);
    var d := DrawLinks(p, rng);
    var controlNodes := BuildArm(control.value, d, p, Control);
    var relayNodes := BuildArm(relay.value, d, p, Relay);
    var reconNodes := BuildArm(recon.value, d, p, Recon);
    r := Some(Networks(controlNodes, relayNodes, reconNodes));
    Outcomes(p, meshes, d);
  }

  /** What holds of the three networks over the meshes of one generator. */
  lemma Outcomes(p: Params, meshes: Picker, d: Draw)
    requires Sampler(meshes) && MeshOf(p.(recon := 0), meshes).Some? && MeshOf(p, meshes).Some? && GoodDraw(d, p)
    ensures p.size >= 0
    ensures var m := MeshOf(p, meshes).value; OneWiring(ArmNodes(m, d, p, Relay), ArmNodes(m, d, p, Recon))
    ensures forall start :: HonestSet(start, p) ==>
              && !CanReachVictim(ArmNodes(MeshOf(p.(recon := 0), meshes).value, d, p, Control), start)
              && (CanReachVictim(ArmNodes(MeshOf(p, meshes).value, d, p, Relay), start) <==> p.recon >= 1)
              && (CanReachVictim(ArmNodes(MeshOf(p, meshes).value, d, p, Recon), start) <==> p.recon >= 1)
  {
    hide BuildFrom, ArmNodes, CanReachVictim, HonestSet, GoodDraw, Sampler, Untyped;
    var m := MeshOf(p, meshes).value;
    SameWiring(m, d, p, 0);
    forall i: nat | i < |ArmNodes(m, d, p, Relay)|
      ensures Untyped(ArmNodes(m, d, p, Relay)[i]) == Untyped(ArmNodes(m, d, p, Recon)[i])
    {
      SameWiring(m, d, p, i);
    }
    forall start | HonestSet(start, p)
      ensures !CanReachVictim(ArmNodes(MeshOf(p.(recon := 0), meshes).value, d, p, Control), start)
      ensures CanReachVictim(ArmNodes(m, d, p, Relay), start) <==> p.recon >= 1
      ensures CanReachVictim(ArmNodes(m, d, p, Recon), start) <==> p.recon >= 1
    {
      EclipseOutcome(p.(recon := 0), meshes, 500, d, p, Control, start);
      EclipseOutcome(p, meshes, 500, d, p, Relay, start);
      EclipseOutcome(p, meshes, 500, d, p, Recon, start);
    }
  }
}
