/** Taproot script trees: taproot_tree_helper and taproot_construct of script.py. */
module Taproot {
  import opened Bytes
  import opened Curve
  import opened PointCodec
  import opened Messages
  import opened Group
  import opened Keys
  import ScriptNum

  const OP_1: byte := 0x51
  const LEAF_VERSION_TAPSCRIPT := 0xc0
  const ANNEX_TAG: byte := 0x50
  /** BIP 341, "Script validation rules": the most siblings a control block can hold. */
  const MAX_DEPTH := 128

  /** An entry of a tree: a leaf with an optional version, a nested list, or a function giving the partner
      of its left neighbour. */
  datatype Item =
    | Leaf(name: Option<string>, code: Str, stated: Option<int>)
    | List(items: seq<Item>)
    | Partner(f: Bytes -> Bytes)

  function Version(stated: Option<int>): int {
    if stated.None? then LEAF_VERSION_TAPSCRIPT else stated.value
  }

  datatype LeafInfo = LeafInfo(name: string, version: byte, code: Str, control: Bytes, leaf: Bytes)

  /** Python's < on byte strings. */
  predicate Less(a: Bytes, b: Bytes) {
    if b == [] then false
    else if a == [] then true
    else a[0] < b[0] || (a[0] == b[0] && Less(a[1..], b[1..]))
  }

  function TapLeaf(H: TaggedHash, version: byte, code: Str): Bytes32 {
    H("TapLeaf", [version] + SerString(code))
  }

  /** Two siblings, the smaller one first. */
  function Branch(H: TaggedHash, left: Bytes, right: Bytes): Bytes32 {
    if Less(right, left) then H("TapBranch", right + left) else H("TapBranch", left + right)
  }

  /** A sibling added at the end of every control. */
  function Extend(leaves: seq<LeafInfo>, sibling: Bytes): (r: seq<LeafInfo>)
    ensures |r| == |leaves|
  {
    seq(|leaves|, i requires 0 <= i < |leaves| => leaves[i].(control := leaves[i].control + sibling))
  }

  /** taproot_tree_helper; None where an assertion fails or bytes([version]) raises. */
  function TreeHelper(H: TaggedHash, scripts: seq<Item>): Option<(seq<LeafInfo>, Bytes)>
    decreases scripts
  {
    if |scripts| == 0 then Some(([], []))
    else if |scripts| == 1 then
      match scripts[0]
      case Partner(_) => None
      case List(items) => TreeHelper(H, items)
      case Leaf(name, code, stated) =>
        var version := Version(stated);
        if version % 2 != 0 || !(0 <= version < 256) then None
        else
          var h := TapLeaf(H, version, code);
          if name.None? then Some(([], h)) else Some(([LeafInfo(name.value, version, code, [], h)], h))
    else if |scripts| == 2 && scripts[1].Partner? then
      match TreeHelper(H, scripts[..1])
      case None => None
      case Some((left, leftH)) =>
        var rightH := scripts[1].f(leftH);
        Some((Extend(left, rightH), Branch(H, leftH, rightH)))
    else
      var split := |scripts| / 2;
      match TreeHelper(H, scripts[..split])
      case None => None
      case Some((left, leftH)) =>
        match TreeHelper(H, scripts[split..])
        case None => None
        case Some((right, rightH)) =>
          Some((Extend(left, rightH) + Extend(right, leftH), Branch(H, leftH, rightH)))
  }

  /** No empty list, even byte-sized versions, and functions only as the partner of what precedes them,
      with 32-byte results. */
  ghost predicate WellFormed(scripts: seq<Item>)
    decreases scripts
  {
    if |scripts| == 0 then false
    else if |scripts| == 1 then
      match scripts[0]
      case Partner(_) => false
      case List(items) => WellFormed(items)
      case Leaf(_, _, stated) => Version(stated) % 2 == 0 && 0 <= Version(stated) < 256
    else if |scripts| == 2 && scripts[1].Partner? then
      WellFormed(scripts[..1]) && forall h: Bytes :: |h| == 32 ==> |scripts[1].f(h)| == 32
    else WellFormed(scripts[..|scripts| / 2]) && WellFormed(scripts[|scripts| / 2..])
  }

  // ----- folding a control -----

  /** BIP 341, "Script validation rules": the branch hashed upwards from the leaf, 32 bytes at a time. */
  function Fold(H: TaggedHash, h: Bytes, control: Bytes): Bytes
    decreases |control|
  {
    if |control| < 32 then h else Fold(H, Branch(H, h, control[..32]), control[32..])
  }

  lemma {:induction false} LessTotal(a: Bytes, b: Bytes)
    ensures !(Less(a, b) && Less(b, a))
    ensures Less(a, b) || Less(b, a) || a == b
  {
    if a != [] && b != [] {
      LessTotal(a[1..], b[1..]);
      assert a == [a[0]] + a[1..] && b == [b[0]] + b[1..];
    }
  }

  lemma BranchSymmetric(H: TaggedHash, a: Bytes, b: Bytes)
    ensures Branch(H, a, b) == Branch(H, b, a)
  {
    LessTotal(a, b);
  }

  lemma {:induction false} FoldAppend(H: TaggedHash, h: Bytes, control: Bytes, sibling: Bytes)
    requires |control| % 32 == 0 && |sibling| == 32
    ensures Fold(H, h, control + sibling) == Branch(H, Fold(H, h, control), sibling)
    decreases |control|
  {
    hide Branch;
    var t := control + sibling;
    if control == [] {
      assert t == sibling && t[..32] == sibling && t[32..] == [];
    } else {
      assert t[..32] == control[..32] && t[32..] == control[32..] + sibling;
      FoldAppend(H, Branch(H, h, control[..32]), control[32..], sibling);
    }
  }

  /** What a returned leaf promises of the root. */
  predicate Proves(H: TaggedHash, x: LeafInfo, root: Bytes) {
    && x.leaf == TapLeaf(H, x.version, x.code)
    && |x.control| % 32 == 0
    && Fold(H, x.leaf, x.control) == root
  }

  predicate AllProve(H: TaggedHash, leaves: seq<LeafInfo>, root: Bytes) {
    forall i :: 0 <= i < |leaves| ==> Proves(H, leaves[i], root)
  }

  lemma ExtendProves(H: TaggedHash, leaves: seq<LeafInfo>, h: Bytes, sibling: Bytes)
    requires AllProve(H, leaves, h) && |sibling| == 32
    ensures AllProve(H, Extend(leaves, sibling), Branch(H, h, sibling))
  {
    hide Branch, Fold, TapLeaf;
    forall i | 0 <= i < |leaves| ensures Proves(H, Extend(leaves, sibling)[i], Branch(H, h, sibling)) {
      assert Proves(H, leaves[i], h);
      FoldAppend(H, leaves[i].leaf, leaves[i].control, sibling);
    }
  }

  /** Of a well-formed tree the helper returns, and every returned leaf proves its inclusion in the root. */
  lemma {:induction false} InclusionProofs(H: TaggedHash, scripts: seq<Item>)
    requires WellFormed(scripts)
    ensures TreeHelper(H, scripts).Some?
    ensures var (leaves, root) := TreeHelper(H, scripts).value; |root| == 32 && AllProve(H, leaves, root)
    decreases scripts
  {
    hide Branch, Fold, TapLeaf, AllProve, Extend;
    if |scripts| == 1 {
      match scripts[0] {
        case List(items) => InclusionProofs(H, items);
        case Leaf(_, _, _) => LeafProves(H, scripts[0]);
      }
    } else if |scripts| == 2 && scripts[1].Partner? {
      InclusionProofs(H, scripts[..1]);
      var (left, leftH) := TreeHelper(H, scripts[..1]).value;
      ExtendProves(H, left, leftH, scripts[1].f(leftH));
    } else {
      var split := |scripts| / 2;
      InclusionProofs(H, scripts[..split]);
      InclusionProofs(H, scripts[split..]);
      var (left, leftH) := TreeHelper(H, scripts[..split]).value;
      var (right, rightH) := TreeHelper(H, scripts[split..]).value;
      ExtendProves(H, left, leftH, rightH);
      ExtendProves(H, right, rightH, leftH);
      BranchSymmetric(H, leftH, rightH);
      AllProveBoth(H, Extend(left, rightH), Extend(right, leftH), Branch(H, leftH, rightH));
    }
  }

  lemma AllProveBoth(H: TaggedHash, a: seq<LeafInfo>, b: seq<LeafInfo>, root: Bytes)
    requires AllProve(H, a, root) && AllProve(H, b, root)
    ensures AllProve(H, a + b, root)
  {
    hide Proves;
  }

  lemma LeafProves(H: TaggedHash, x: Item)
    requires x.Leaf? && Version(x.stated) % 2 == 0 && 0 <= Version(x.stated) < 256
    ensures var version := Version(x.stated);
            var h := TapLeaf(H, version, x.code);
            AllProve(H, [], h) && forall name :: AllProve(H, [LeafInfo(name, version, x.code, [], h)], h)
  {
  }

  /** A list without items has an empty hash, which a branch cannot hold: the leaf beside it is proved only if
      hashing its own hash alone gives it back. */
  lemma EmptyListWitness(H: TaggedHash, name: string, code: Str)
    ensures var h := TapLeaf(H, LEAF_VERSION_TAPSCRIPT, code);
            var x := LeafInfo(name, LEAF_VERSION_TAPSCRIPT, code, [], h);
            var root := H("TapBranch", h);
            && TreeHelper(H, [Leaf(Some(name), code, None), List([])]) == Some(([x], root))
            && (Proves(H, x, root) <==> root == h)
  {
    var scripts := [Leaf(Some(name), code, None), List([])];
    var h := TapLeaf(H, LEAF_VERSION_TAPSCRIPT, code);
    var x := LeafInfo(name, LEAF_VERSION_TAPSCRIPT, code, [], h);
    assert scripts[..1] == [scripts[0]] && scripts[1..] == [scripts[1]];
    assert TreeHelper(H, [scripts[0]]) == Some(([x], h));
    assert TreeHelper(H, []) == Some(([], []));
    assert TreeHelper(H, [scripts[1]]) == Some(([], []));
    var none: Bytes := [];
    assert none + h == h && x.control + none == none;
    assert Extend([x], none) == [x] && Extend([], h) == [] && [x] + [] == [x];
  }

  // ----- which leaves are returned -----

  datatype Named = Named(name: string, version: int, code: Str)

  /** The named leaves of a tree from left to right. */
  function NamedLeaves(scripts: seq<Item>): seq<Named>
    decreases scripts
  {
    if scripts == [] then []
    else
      (match scripts[0]
       case Leaf(Some(name), code, stated) => [Named(name, Version(stated), code)]
       case Leaf(None, _, _) => []
       case List(items) => NamedLeaves(items)
       case Partner(_) => [])
      + NamedLeaves(scripts[1..])
  }

  function Tags(leaves: seq<LeafInfo>): (r: seq<Named>)
    ensures |r| == |leaves|
  {
    seq(|leaves|, i requires 0 <= i < |leaves| => Named(leaves[i].name, leaves[i].version, leaves[i].code))
  }

  lemma {:induction false} NamedSplit(a: seq<Item>, b: seq<Item>)
    ensures NamedLeaves(a + b) == NamedLeaves(a) + NamedLeaves(b)
    decreases |a|
  {
    if a == [] {
      assert a + b == b;
    } else {
      assert (a + b)[0] == a[0] && (a + b)[1..] == a[1..] + b;
      NamedSplit(a[1..], b);
    }
  }

  lemma NamedOne(x: Item)
    ensures x.List? ==> NamedLeaves([x]) == NamedLeaves(x.items)
    ensures x.Partner? ==> NamedLeaves([x]) == []
    ensures x.Leaf? ==>
              NamedLeaves([x]) == if x.name.Some? then [Named(x.name.value, Version(x.stated), x.code)] else []
  {
    assert [x][1..] == [];
    assert NamedLeaves([]) == [];
  }

  lemma TagsExtend(leaves: seq<LeafInfo>, sibling: Bytes)
    ensures Tags(Extend(leaves, sibling)) == Tags(leaves)
  {
  }

  /** Whenever the helper returns, exactly the named leaves are returned, in order. */
  lemma {:induction false} ReturnsNamedLeaves(H: TaggedHash, scripts: seq<Item>)
    requires TreeHelper(H, scripts).Some?
    ensures Tags(TreeHelper(H, scripts).value.0) == NamedLeaves(scripts)
    decreases scripts
  {
    hide Branch, TapLeaf, Tags, Extend, NamedLeaves;
    if |scripts| == 0 {
      NoTags();
    } else if |scripts| == 1 {
      assert scripts == [scripts[0]];
      NamedOne(scripts[0]);
      OneTag(H, scripts[0]);
      if scripts[0].List? { ReturnsNamedLeaves(H, scripts[0].items); }
    } else {
      var split := if |scripts| == 2 && scripts[1].Partner? then 1 else |scripts| / 2;
      assert scripts == scripts[..split] + scripts[split..];
      NamedSplit(scripts[..split], scripts[split..]);
      ReturnsNamedLeaves(H, scripts[..split]);
      var (left, leftH) := TreeHelper(H, scripts[..split]).value;
      if |scripts| == 2 && scripts[1].Partner? {
        assert scripts[1..] == [scripts[1]];
        NamedOne(scripts[1]);
        TagsExtend(left, scripts[1].f(leftH));
      } else {
        ReturnsNamedLeaves(H, scripts[split..]);
        var (right, rightH) := TreeHelper(H, scripts[split..]).value;
        TagsExtend(left, rightH);
        TagsExtend(right, leftH);
        TagsBoth(Extend(left, rightH), Extend(right, leftH));
      }
    }
  }

  lemma NoTags()
    ensures Tags([]) == [] && NamedLeaves([]) == []
  {
  }

  lemma OneTag(H: TaggedHash, x: Item)
    ensures x.Leaf? && TreeHelper(H, [x]).Some? ==> Tags(TreeHelper(H, [x]).value.0) == NamedLeaves([x])
  {
    NamedOne(x);
  }

  lemma TagsBoth(a: seq<LeafInfo>, b: seq<LeafInfo>)
    ensures Tags(a + b) == Tags(a) + Tags(b)
  {
  }

  // ----- how deep a leaf lies -----

  /** The depths of the named leaves in the binary tree, from left to right. */
  function Depths(scripts: seq<Item>): seq<nat>
    decreases scripts
  {
    if |scripts| == 0 then []
    else if |scripts| == 1 then
      match scripts[0]
      case Leaf(name, _, _) => if name.Some? then [0] else []
      case List(items) => Depths(items)
      case Partner(_) => []
    else if |scripts| == 2 && scripts[1].Partner? then Deeper(Depths(scripts[..1]))
    else Deeper(Depths(scripts[..|scripts| / 2])) + Deeper(Depths(scripts[|scripts| / 2..]))
  }

  function Deeper(d: seq<nat>): (r: seq<nat>)
    ensures |r| == |d| && forall i :: 0 <= i < |d| ==> r[i] == d[i] + 1
  {
    seq(|d|, i requires 0 <= i < |d| => d[i] + 1)
  }

  /** The branches have these depths, and the versions are even. */
  ghost predicate LiesAt(leaves: seq<LeafInfo>, depths: seq<nat>) {
    && |leaves| == |depths|
    && forall i :: 0 <= i < |leaves| ==> |leaves[i].control| == 32 * depths[i] && leaves[i].version % 2 == 0
  }

  lemma ExtendLies(leaves: seq<LeafInfo>, depths: seq<nat>, sibling: Bytes)
    requires LiesAt(leaves, depths) && |sibling| == 32
    ensures LiesAt(Extend(leaves, sibling), Deeper(depths))
  {
  }

  lemma LieBoth(a: seq<LeafInfo>, d: seq<nat>, b: seq<LeafInfo>, e: seq<nat>)
    requires LiesAt(a, d) && LiesAt(b, e)
    ensures LiesAt(a + b, d + e)
  {
  }

  /** A returned branch holds one sibling for every level above its leaf. */
  lemma {:induction false} BranchLengths(H: TaggedHash, scripts: seq<Item>)
    requires WellFormed(scripts)
    ensures TreeHelper(H, scripts).Some? && LiesAt(TreeHelper(H, scripts).value.0, Depths(scripts))
    decreases scripts
  {
    hide Branch, Fold, TapLeaf, AllProve, Extend, Deeper, LiesAt;
    InclusionProofs(H, scripts);
    if |scripts| == 1 {
      match scripts[0] {
        case List(items) => BranchLengths(H, items);
        case Leaf(_, _, _) => LeafLies(H, scripts[0]);
      }
    } else if |scripts| == 2 && scripts[1].Partner? {
      BranchLengths(H, scripts[..1]);
      InclusionProofs(H, scripts[..1]);
      var (left, leftH) := TreeHelper(H, scripts[..1]).value;
      ExtendLies(left, Depths(scripts[..1]), scripts[1].f(leftH));
    } else {
      var a, b := scripts[..|scripts| / 2], scripts[|scripts| / 2..];
      BranchLengths(H, a);
      BranchLengths(H, b);
      InclusionProofs(H, a);
      InclusionProofs(H, b);
      var (left, leftH) := TreeHelper(H, a).value;
      var (right, rightH) := TreeHelper(H, b).value;
      ExtendLies(left, Depths(a), rightH);
      ExtendLies(right, Depths(b), leftH);
      LieBoth(Extend(left, rightH), Deeper(Depths(a)), Extend(right, leftH), Deeper(Depths(b)));
    }
  }

  lemma LeafLies(H: TaggedHash, x: Item)
    requires x.Leaf? && TreeHelper(H, [x]).Some?
    ensures LiesAt(TreeHelper(H, [x]).value.0, Depths([x]))
  {
  }

  // ----- taproot_construct -----

  datatype Info = Info(scriptPubKey: Bytes, output: Bytes32, negated: bool, tweak: Bytes32,
                       leaves: map<string, LeafInfo>, root: Bytes)

  /** The dictionary of leaves: of two with one name the later one stays. */
  function ByName(leaves: seq<LeafInfo>): map<string, LeafInfo> {
    if leaves == [] then map[]
    else
      var last := leaves[|leaves| - 1];
      ByName(leaves[..|leaves| - 1])[last.name := last]
  }

  /** The position of the last leaf of a name, or -1. */
  function LastOf(names: seq<Named>, name: string): (i: int)
    ensures -1 <= i < |names|
    ensures i >= 0 ==> names[i].name == name
    ensures forall j :: i < j < |names| ==> names[j].name != name
  {
    if names == [] then -1
    else if names[|names| - 1].name == name then |names| - 1
    else LastOf(names[..|names| - 1], name)
  }

  lemma {:induction false} ByNameIs(leaves: seq<LeafInfo>, name: string)
    ensures var i := LastOf(Tags(leaves), name);
            && (name in ByName(leaves) <==> i >= 0)
            && (i >= 0 ==> ByName(leaves)[name] == leaves[i])
  {
    if leaves != [] {
      var front := leaves[..|leaves| - 1];
      ByNameIs(front, name);
      assert Tags(leaves)[..|leaves| - 1] == Tags(front);
    }
  }

  /** The two ways of making the output key. */
  function Tweaked(pubkey: Bytes32, tweak: Bytes32, infinity: bool): Option<(Bytes32, bool)>
    requires GroupFacts()
  {
    if infinity then ComputeXOnlyPubkey(tweak) else TweakAddPubkey(pubkey, tweak)
  }

  /** taproot_construct; None where something raises. */
  function Construct(H: TaggedHash, pubkey: Bytes32, scripts: seq<Item>, infinity: bool): Option<Info>
    requires GroupFacts()
  {
    match TreeHelper(H, scripts)
    case None => None
    case Some((leaves, h)) =>
      var tweak := H("TapTweak", pubkey + h);
      match Tweaked(pubkey, tweak, infinity)
      case None => None
      case Some((tweaked, negated)) =>
        match ScriptNum.Build([ScriptNum.Op(OP_1), ScriptNum.Data(tweaked)])
        case None => None
        case Some(script) => Some(Info(script, tweaked, negated, tweak, ByName(leaves), h))
  }

  /** The internal point: that of the key, or infinity. */
  function Internal(pubkey: Bytes32, infinity: bool): Option<Point> {
    if infinity then Some(Infinity) else FromBytesXOnly(pubkey)
  }

  /** Whether there is an output point: the internal one plus the tweak times the generator. */
  predicate Tweakable(pubkey: Bytes32, infinity: bool, tweak: Bytes32)
    requires GroupFacts()
  {
    && Internal(pubkey, infinity).Some?
    && FromBE(tweak) < ORDER
    && OutputPoint(pubkey, infinity, tweak).Affine?
  }

  function OutputPoint(pubkey: Bytes32, infinity: bool, tweak: Bytes32): (q: Point)
    requires GroupFacts() && Internal(pubkey, infinity).Some?
    ensures OnCurve(q)
  {
    InternalOnCurve(pubkey, infinity);
    GeneratorOnCurve();
    ScaleMod(FromBE(tweak), G);
    AddOnCurve(Scale(FromBE(tweak), G), Internal(pubkey, infinity).value);
    AddPoints(Scale(FromBE(tweak), G), Internal(pubkey, infinity).value)
  }

  lemma InternalOnCurve(pubkey: Bytes32, infinity: bool)
    requires GroupFacts() && Internal(pubkey, infinity).Some?
    ensures OnCurve(Internal(pubkey, infinity).value) && Internal(pubkey, infinity).value.Infinity? == infinity
  {
    if !infinity { LiftXFinds(FromBE(pubkey)); }
  }

  /** BIP 341, "Constructing and spending Taproot outputs": the output key is the x coordinate of the output
      point, together with the parity of its y. */
  predicate Commits(pubkey: Bytes32, infinity: bool, tweak: Bytes32, output: Bytes32, negated: bool)
    requires GroupFacts()
  {
    && Tweakable(pubkey, infinity, tweak)
    && var q := OutputPoint(pubkey, infinity, tweak);
       output == ToBytesXOnly(q) && negated == (q.y % 2 != 0)
  }

  lemma CommitsIff(pubkey: Bytes32, infinity: bool, tweak: Bytes32, output: Bytes32, negated: bool)
    requires GroupFacts()
    ensures Tweaked(pubkey, tweak, infinity).Some? <==> Tweakable(pubkey, infinity, tweak)
    ensures Tweaked(pubkey, tweak, infinity) == Some((output, negated))
       <==> Commits(pubkey, infinity, tweak, output, negated)
  {
    var t := FromBE(tweak);
    if infinity {
      GeneratorOnCurve();
      if 0 < t < ORDER { ValidSecret(t); }
    } else if Internal(pubkey, false).Some? {
      if t < ORDER {
        TweakedPubkey(pubkey, tweak, Internal(pubkey, false).value);
      } else {
        TweakTooLarge(pubkey, tweak);
      }
    }
  }

  lemma OutputScript(output: Bytes32)
    ensures ScriptNum.Build([ScriptNum.Op(OP_1), ScriptNum.Data(output)]) == Some([0x51, 0x20] + output)
  {
    var es := [ScriptNum.Op(OP_1), ScriptNum.Data(output)];
    assert es[1..] == [ScriptNum.Data(output)] && es[1..][1..] == [];
    ScriptNum.RawShort(output);
    assert ScriptNum.Coerced(es[1]) == Some([0x20 as byte] + output);
    assert ScriptNum.Build([]) == Some([]);
    assert ScriptNum.Build(es[1..]) == Some([0x20 as byte] + output + []);
    assert [OP_1] + ([0x20 as byte] + output + []) == [OP_1, 0x20] + output;
  }

  /** A construction returns exactly when a point can be tweaked by the root; then the script names the
      output key, and the dictionary holds the last leaf of every name. */
  lemma Constructed(H: TaggedHash, pubkey: Bytes32, scripts: seq<Item>, infinity: bool)
    requires GroupFacts() && TreeHelper(H, scripts).Some?
    ensures var tweak := H("TapTweak", pubkey + TreeHelper(H, scripts).value.1);
            Construct(H, pubkey, scripts, infinity).Some? <==> Tweakable(pubkey, infinity, tweak)
    ensures Construct(H, pubkey, scripts, infinity).Some? ==>
              var info := Construct(H, pubkey, scripts, infinity).value;
              && info.scriptPubKey == [0x51, 0x20] + info.output
              && info.root == TreeHelper(H, scripts).value.1 && info.tweak == H("TapTweak", pubkey + info.root)
              && Commits(pubkey, infinity, info.tweak, info.output, info.negated)
              && info.leaves == ByName(TreeHelper(H, scripts).value.0)
              && forall name :: name in info.leaves <==> LastOf(NamedLeaves(scripts), name) >= 0
  {
    var (leaves, root) := TreeHelper(H, scripts).value;
    var tweak := H("TapTweak", pubkey + root);
    var t := Tweaked(pubkey, tweak, infinity);
    var (output, negated) := if t.Some? then t.value else (tweak, false);
    hide TreeHelper, Tweaked, Tweakable, Commits, Tags, NamedLeaves, ScriptNum.Build, GroupFacts;
    CommitsIff(pubkey, infinity, tweak, output, negated);
    OutputScript(output);
    ReturnsNamedLeaves(H, scripts);
    forall name ensures name in ByName(leaves) <==> LastOf(NamedLeaves(scripts), name) >= 0 {
      ByNameIs(leaves, name);
    }
  }

  // ----- spending -----

  /** BIP 341, "Script validation rules": the last of two or more witness elements is the annex when it starts
      with its tag. */
  function WithoutAnnex(wit: seq<Bytes>): seq<Bytes> {
    var n := |wit|;
    if n >= 2 && wit[n - 1] != [] && wit[n - 1][0] == ANNEX_TAG then wit[..n - 1] else wit
  }

  /** Whether a control block proves that the output key commits to a script. */
  predicate Accepts(H: TaggedHash, output: Bytes32, code: Str, block: Bytes)
    requires GroupFacts()
  {
    && 33 <= |block| <= 33 + 32 * MAX_DEPTH && (|block| - 33) % 32 == 0
    && var root := Fold(H, TapLeaf(H, block[0] - block[0] % 2, code), block[33..]);
       Commits(block[1..33], false, H("TapTweak", block[1..33] + root), output, block[0] % 2 == 1)
  }

  /** BIP 341, "Script validation rules": a witness takes the script path of an output, down to its script. */
  predicate Spends(H: TaggedHash, scriptPubKey: Bytes, wit: seq<Bytes>)
    requires GroupFacts()
  {
    var stack := WithoutAnnex(wit);
    && |scriptPubKey| == 34 && scriptPubKey[..2] == [OP_1, 0x20]
    && |stack| >= 2 && |stack[|stack| - 2]| < I63
    && Accepts(H, scriptPubKey[2..], stack[|stack| - 2], stack[|stack| - 1])
  }

  /** The control block of a leaf: its version with the parity of the output point, the internal key, its branch. */
  function ControlBlock(pubkey: Bytes32, x: LeafInfo, negated: bool): Bytes
    requires x.version % 2 == 0
  {
    [x.version + (if negated then 1 else 0)] + pubkey + x.control
  }

  /** No key but infinity gives the point that treating it as infinity gives. */
  lemma InfinityApart(pubkey: Bytes32, tweak: Bytes32, output: Bytes32, negated: bool)
    requires GroupFacts() && Commits(pubkey, true, tweak, output, negated)
    ensures !Commits(pubkey, false, tweak, output, negated)
  {
    if Commits(pubkey, false, tweak, output, negated) {
      var q, r := OutputPoint(pubkey, true, tweak), OutputPoint(pubkey, false, tweak);
      assert OnCurve(q) && OnCurve(r) && q.Affine? && r.Affine? && q.y % 2 == r.y % 2;
      assert ToBytesXOnly(q) == ToBytesXOnly(r);
      var s, p := Scale(FromBE(tweak), G), Internal(pubkey, false).value;
      assert r == AddPoints(s, p) && q == s;
      InternalOnCurve(pubkey, false);
      hide *;
      XOnlyRoundTrip(q);
      XOnlyRoundTrip(r);
      EvenPointUnique(q, r);
      OnlyIdentity(s, p);
    }
  }

  lemma OnlyIdentity(s: Point, p: Point)
    requires GroupFacts() && OnCurve(s) && OnCurve(p) && AddPoints(s, p) == s
    ensures p == Infinity
  {
    NegOnCurve(s);
    AddCommutes(NegPoint(s), s);
    Assoc(NegPoint(s), s, p);
    Identity(p);
  }

  /** The parts of a control block. */
  lemma BlockParts(pubkey: Bytes32, x: LeafInfo, negated: bool)
    requires x.version % 2 == 0
    ensures var b := ControlBlock(pubkey, x, negated);
            && |b| == 33 + |x.control| && b[1..33] == pubkey && b[33..] == x.control
            && b[0] - b[0] % 2 == x.version && (b[0] % 2 == 1 <==> negated)
            && (b[0] == ANNEX_TAG <==> x.version == ANNEX_TAG && !negated)
  {
  }

  /** Validation lifts the internal key and limits the branch, whatever the construction did. */
  lemma AcceptsIff(H: TaggedHash, pubkey: Bytes32, infinity: bool, x: LeafInfo, root: Bytes, output: Bytes32,
      negated: bool)
    requires GroupFacts() && x.version % 2 == 0 && Proves(H, x, root)
    requires Commits(pubkey, infinity, H("TapTweak", pubkey + root), output, negated)
    ensures Accepts(H, output, x.code, ControlBlock(pubkey, x, negated))
       <==> !infinity && |x.control| <= 32 * MAX_DEPTH
  {
    hide Fold, TapLeaf, Commits, GroupFacts, ControlBlock;
    BlockParts(pubkey, x, negated);
    if infinity { InfinityApart(pubkey, H("TapTweak", pubkey + root), output, negated); }
  }

  /** The three witnesses of a script and a control block: without an annex, with one, and without one where
      the control block is taken for it. */
  lemma Stacks(args: seq<Bytes>, code: Bytes, block: Bytes, annex: Bytes)
    requires block != []
    ensures block[0] != ANNEX_TAG ==> WithoutAnnex(args + [code, block]) == args + [code, block]
    ensures annex != [] && annex[0] == ANNEX_TAG ==> WithoutAnnex(args + [code, block, annex]) == args + [code, block]
    ensures block[0] == ANNEX_TAG ==> WithoutAnnex([code, block]) == [code]
  {
    assert (args + [code, block, annex])[..|args| + 2] == args + [code, block];
  }

  ghost predicate SpendsIff(H: TaggedHash, info: Info, pubkey: Bytes32, x: LeafInfo, spendable: bool)
    requires GroupFacts() && x.version % 2 == 0
  {
    var block := ControlBlock(pubkey, x, info.negated);
    && (block[0] == 0x50 <==> x.version == 0x50 && !info.negated)
    && (forall args :: block[0] != 0x50 ==> (Spends(H, info.scriptPubKey, args + [x.code, block]) <==> spendable))
    && (forall args, annex: Bytes :: annex != [] && annex[0] == 0x50 ==>
          (Spends(H, info.scriptPubKey, args + [x.code, block, annex]) <==> spendable))
    && (block[0] == 0x50 ==> !Spends(H, info.scriptPubKey, [x.code, block]))
  }

  /** Of every name in the dictionary the last leaf is there, and its script and control block spend the output
      exactly when the internal key was not taken for infinity and the leaf lies at most 128 levels deep. */
  lemma ConstructedSpends(H: TaggedHash, pubkey: Bytes32, scripts: seq<Item>, infinity: bool, name: string)
    requires GroupFacts() && (scripts == [] || WellFormed(scripts)) && Construct(H, pubkey, scripts, infinity).Some?
    ensures |Depths(scripts)| == |NamedLeaves(scripts)|
    ensures var info, i := Construct(H, pubkey, scripts, infinity).value, LastOf(NamedLeaves(scripts), name);
            && (name in info.leaves <==> i >= 0)
            && (i >= 0 ==>
                var x := info.leaves[name];
                && Named(x.name, x.version, x.code) == NamedLeaves(scripts)[i]
                && |x.control| == 32 * Depths(scripts)[i] && x.version % 2 == 0
                && SpendsIff(H, info, pubkey, x, !infinity && Depths(scripts)[i] <= 128))
  {
    hide *;
    Constants();
    EveryLeafProves(H, scripts);
    EveryLeafLies(H, scripts);
    Constructed(H, pubkey, scripts, infinity);
    ReturnsNamedLeaves(H, scripts);
    var (leaves, root) := TreeHelper(H, scripts).value;
    var info, i := Construct(H, pubkey, scripts, infinity).value, LastOf(NamedLeaves(scripts), name);
    ByNameIs(leaves, name);
    if i >= 0 {
      PickLeaf(H, leaves, root, Depths(scripts), i);
      LeafSpends(H, info, pubkey, infinity, leaves[i]);
    }
  }

  lemma Constants()
    ensures OP_1 == 0x51 && MAX_DEPTH == 128
  {
  }

  lemma PickLeaf(H: TaggedHash, leaves: seq<LeafInfo>, root: Bytes, depths: seq<nat>, i: nat)
    requires AllProve(H, leaves, root) && LiesAt(leaves, depths) && i < |leaves|
    ensures Proves(H, leaves[i], root) && |leaves[i].control| == 32 * depths[i] && leaves[i].version % 2 == 0
    ensures Named(leaves[i].name, leaves[i].version, leaves[i].code) == Tags(leaves)[i]
  {
    hide Proves;
  }

  lemma LeafSpends(H: TaggedHash, info: Info, pubkey: Bytes32, infinity: bool, x: LeafInfo)
    requires GroupFacts() && x.version % 2 == 0 && Proves(H, x, info.root)
    requires info.scriptPubKey == [OP_1, 0x20] + info.output && info.tweak == H("TapTweak", pubkey + info.root)
    requires Commits(pubkey, infinity, info.tweak, info.output, info.negated)
    ensures SpendsIff(H, info, pubkey, x, !infinity && |x.control| <= 32 * MAX_DEPTH)
  {
    hide Proves, Commits, GroupFacts, Accepts, ControlBlock, WithoutAnnex, Spends;
    AcceptsIff(H, pubkey, infinity, x, info.root, info.output, info.negated);
    BlockParts(pubkey, x, info.negated);
    var block := ControlBlock(pubkey, x, info.negated);
    var spendable := !infinity && |x.control| <= 32 * MAX_DEPTH;
    forall args: seq<Bytes> | block[0] != ANNEX_TAG
      ensures Spends(H, info.scriptPubKey, args + [x.code, block]) <==> spendable
    {
      Stacks(args, x.code, block, []);
      PathIs(H, info.scriptPubKey, info.output, args + [x.code, block], args, x.code, block);
    }
    forall args: seq<Bytes>, annex: Bytes | annex != [] && annex[0] == ANNEX_TAG
      ensures Spends(H, info.scriptPubKey, args + [x.code, block, annex]) <==> spendable
    {
      Stacks(args, x.code, block, annex);
      PathIs(H, info.scriptPubKey, info.output, args + [x.code, block, annex], args, x.code, block);
    }
    Stacks([], x.code, block, []);
    ShortStack(H, info.scriptPubKey, [x.code, block]);
  }

  lemma PathIs(H: TaggedHash, scriptPubKey: Bytes, output: Bytes32, wit: seq<Bytes>, args: seq<Bytes>, code: Str,
      block: Bytes)
    requires GroupFacts() && scriptPubKey == [OP_1, 0x20] + output && WithoutAnnex(wit) == args + [code, block]
    ensures Spends(H, scriptPubKey, wit) <==> Accepts(H, output, code, block)
  {
    hide Accepts, GroupFacts, WithoutAnnex;
    assert scriptPubKey[2..] == output && scriptPubKey[..2] == [OP_1, 0x20];
  }

  lemma ShortStack(H: TaggedHash, scriptPubKey: Bytes, wit: seq<Bytes>)
    requires GroupFacts()
    ensures |WithoutAnnex(wit)| < 2 ==> !Spends(H, scriptPubKey, wit)
  {
  }

  lemma EveryLeafProves(H: TaggedHash, scripts: seq<Item>)
    requires scripts == [] || WellFormed(scripts)
    ensures TreeHelper(H, scripts).Some?
    ensures AllProve(H, TreeHelper(H, scripts).value.0, TreeHelper(H, scripts).value.1)
  {
    hide WellFormed, Proves;
    if scripts != [] { InclusionProofs(H, scripts); }
  }

  lemma EveryLeafLies(H: TaggedHash, scripts: seq<Item>)
    requires (scripts == [] || WellFormed(scripts)) && TreeHelper(H, scripts).Some?
    ensures LiesAt(TreeHelper(H, scripts).value.0, Depths(scripts))
    ensures |TreeHelper(H, scripts).value.0| == |Depths(scripts)|
  {
    hide WellFormed;
    if scripts != [] { BranchLengths(H, scripts); }
  }

  // ----- trees on both sides of the conditions -----

  /** One named leaf below n unnamed ones. */
  function Deep(n: nat, name: string, code: Str): seq<Item> {
    if n == 0 then [Leaf(Some(name), code, None)] else [Leaf(None, [], None), List(Deep(n - 1, name, code))]
  }

  /** Trees of every depth are well formed, so that some leaves lie too deep to be spent. */
  lemma {:induction false} DeepWitness(n: nat, name: string, code: Str)
    ensures WellFormed(Deep(n, name, code)) && Depths(Deep(n, name, code)) == [n]
    ensures NamedLeaves(Deep(n, name, code)) == [Named(name, LEAF_VERSION_TAPSCRIPT, code)]
  {
    if n > 0 {
      var inner := Deep(n - 1, name, code);
      var s := Deep(n, name, code);
      DeepWitness(n - 1, name, code);
      assert s[..1] == [s[0]] && s[1..] == [List(inner)] && s == [s[0]] + [s[1]];
      NamedSplit([s[0]], [s[1]]);
      NamedOne(s[0]);
      NamedOne(s[1]);
      assert Depths([s[0]]) == [] && Depths([s[1]]) == [n - 1];
    } else {
      NamedOne(Leaf(Some(name), code, None));
    }
  }

  /** The leaf of such a tree below 128 levels is returned with its control block, which no output accepts. */
  lemma TooDeep(H: TaggedHash, pubkey: Bytes32, n: nat, name: string, code: Str, args: seq<Bytes>)
    requires GroupFacts() && n > 128 && Construct(H, pubkey, Deep(n, name, code), false).Some?
    ensures var info := Construct(H, pubkey, Deep(n, name, code), false).value;
            && name in info.leaves && info.leaves[name].version == LEAF_VERSION_TAPSCRIPT
            && !Spends(H, info.scriptPubKey, args + [code, ControlBlock(pubkey, info.leaves[name], info.negated)])
  {
    hide Spends, GroupFacts, Construct, ControlBlock, Deep;
    DeepWitness(n, name, code);
    ConstructedSpends(H, pubkey, Deep(n, name, code), false, name);
  }

  /** Treating the internal key as infinity gives an output for every tweak in range but zero, which no leaf spends. */
  lemma InfinityUnspent(H: TaggedHash, pubkey: Bytes32, name: string, code: Str, args: seq<Bytes>)
    requires GroupFacts()
    requires 0 < FromBE(H("TapTweak", pubkey + TapLeaf(H, LEAF_VERSION_TAPSCRIPT, code))) < ORDER
    ensures var made := Construct(H, pubkey, [Leaf(Some(name), code, None)], true);
            && made.Some? && name in made.value.leaves && made.value.leaves[name].version == LEAF_VERSION_TAPSCRIPT
            && var block := ControlBlock(pubkey, made.value.leaves[name], made.value.negated);
               !Spends(H, made.value.scriptPubKey, args + [code, block])
  {
    var scripts := [Leaf(Some(name), code, None)];
    assert scripts == Deep(0, name, code);
    assert TreeHelper(H, scripts).value.1 == TapLeaf(H, LEAF_VERSION_TAPSCRIPT, code);
    hide *;
    InfinityTweakable(pubkey, H("TapTweak", pubkey + TapLeaf(H, LEAF_VERSION_TAPSCRIPT, code)));
    DeepWitness(0, name, code);
    EveryLeafProves(H, scripts);
    Constructed(H, pubkey, scripts, true);
    ConstructedSpends(H, pubkey, scripts, true, name);
    assert LastOf([Named(name, LEAF_VERSION_TAPSCRIPT, code)], name) == 0;
  }

  lemma InfinityTweakable(pubkey: Bytes32, tweak: Bytes32)
    requires GroupFacts() && 0 < FromBE(tweak) < ORDER
    ensures Tweakable(pubkey, true, tweak)
  {
    CommitsIff(pubkey, true, tweak, tweak, false);
  }

  /** The coins of MiniWallet: one unnamed leaf, spent by its script and a control block with even parity, which
      is accepted exactly when the output point has an even y. */
  lemma MiniWalletSpends(H: TaggedHash, pubkey: Bytes32, code: Str)
    requires GroupFacts() && Construct(H, pubkey, [Leaf(None, code, None)], false).Some?
    ensures var info := Construct(H, pubkey, [Leaf(None, code, None)], false).value;
            Spends(H, info.scriptPubKey, [code, [LEAF_VERSION_TAPSCRIPT] + pubkey]) <==> !info.negated
  {
    var scripts := [Leaf(None, code, None)];
    Constructed(H, pubkey, scripts, false);
    var info := Construct(H, pubkey, scripts, false).value;
    var x := LeafInfo("", LEAF_VERSION_TAPSCRIPT, code, [], info.root);
    assert Proves(H, x, info.root);
    var block := [LEAF_VERSION_TAPSCRIPT as byte] + pubkey;
    assert block == ControlBlock(pubkey, x, false) by { assert block + [] == block; }
    BlockParts(pubkey, x, false);
    assert info.scriptPubKey[2..] == info.output && info.scriptPubKey[..2] == [OP_1, 0x20];
    hide Fold, TapLeaf, Commits, GroupFacts, ControlBlock, Construct;
    ParityFixed(pubkey, info.tweak, info.output, info.negated);
  }

  lemma ParityFixed(pubkey: Bytes32, tweak: Bytes32, output: Bytes32, negated: bool)
    requires GroupFacts() && Commits(pubkey, false, tweak, output, negated)
    ensures Commits(pubkey, false, tweak, output, false) <==> !negated
  {
  }
}
