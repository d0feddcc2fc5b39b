/** What a Taproot output commits to (script.py): only scripts of its tree have a control path, as long as the hash
    inputs at hand do not collide. */
module TaprootBinding {
  import opened NumberTheory
  import opened Bytes
  import opened Field
  import opened Curve
  import opened PointCodec
  import opened Messages
  import opened Group
  import opened Keys
  import opened Taproot
  import Der

  // ----- the hash inputs -----

  datatype Input = Input(tag: string, data: Bytes)

  /** No two of these inputs have one hash. */
  ghost predicate CollisionFree(H: TaggedHash, s: set<Input>) {
    forall a, b :: a in s && b in s && H(a.tag, a.data) == H(b.tag, b.data) ==> a == b
  }

  function LeafInput(version: byte, code: Str): Input {
    Input("TapLeaf", [version] + SerString(code))
  }

  /** Two siblings as they are hashed: the smaller number first. */
  function BranchInput(a: Bytes, b: Bytes): Input {
    Input("TapBranch", if FromBE(b) < FromBE(a) then b + a else a + b)
  }

  /** The order of the program on byte strings of one length is that of the numbers they stand for. */
  lemma {:induction false} LessIff(a: Bytes, b: Bytes)
    requires |a| == |b|
    ensures Less(a, b) <==> FromBE(a) < FromBE(b)
  {
    if a != [] {
      LessIff(a[1..], b[1..]);
      Der.LeadingByte(a);
      Der.LeadingByte(b);
      BEBytesRoundTrip(a[1..]);
      BEBytesRoundTrip(b[1..]);
      hide FromBE, Pow;
      LeadingDigit(a[0], FromBE(a[1..]), b[0], FromBE(b[1..]), Pow(256, |a| - 1));
    }
  }

  lemma LeadingDigit(a: nat, x: nat, b: nat, y: nat, w: nat)
    requires x < w && y < w
    ensures a * w + x < b * w + y <==> a < b || (a == b && x < y)
  {
    if a < b { assert (a + 1) * w <= b * w; }
    if b < a { assert (b + 1) * w <= a * w; }
  }

  lemma TapLeafIs(H: TaggedHash, version: byte, code: Str)
    ensures TapLeaf(H, version, code) == H("TapLeaf", [version] + SerCompactSize(|code|) + code)
    ensures TapLeaf(H, version, code) == H(LeafInput(version, code).tag, LeafInput(version, code).data)
  {
    hide SerCompactSize;
    assert [version] + (SerCompactSize(|code|) + code) == [version] + SerCompactSize(|code|) + code;
  }

  lemma BranchIs(H: TaggedHash, a: Bytes, b: Bytes)
    requires |a| == |b|
    ensures Branch(H, a, b) == H(BranchInput(a, b).tag, BranchInput(a, b).data)
  {
    LessIff(a, b);
    LessIff(b, a);
    hide Less, FromBE;
  }

  lemma LeafInjective(v: byte, c: Str, w: byte, d: Str)
    requires LeafInput(v, c) == LeafInput(w, d)
    ensures v == w && c == d
  {
    hide SerString;
    var a, b := [v] + SerString(c), [w] + SerString(d);
    assert a[0] == v && b[0] == w && a[1..] == SerString(c) && b[1..] == SerString(d);
    assert SerString(c) + [] == SerString(c) && SerString(d) + [] == SerString(d);
    StringTrip(c, []);
    StringTrip(d, []);
  }

  lemma BranchInjective(a: Bytes, b: Bytes, c: Bytes, d: Bytes)
    requires |a| == 32 && |b| == 32 && |c| == 32 && |d| == 32 && BranchInput(a, b) == BranchInput(c, d)
    ensures (a == c && b == d) || (a == d && b == c)
  {
    hide FromBE;
    Halves(a, b);
    Halves(b, a);
    Halves(c, d);
    Halves(d, c);
  }

  lemma Halves(a: Bytes, b: Bytes)
    requires |a| == 32
    ensures (a + b)[..32] == a && (a + b)[32..] == b
  {
  }

  // ----- the inputs of a control path -----

  /** The branches hashed when a control is folded. */
  function PathInputs(H: TaggedHash, h: Bytes, control: Bytes): set<Input>
    decreases |control|
  {
    if |control| < 32 then {}
    else {BranchInput(h, control[..32])} + PathInputs(H, Branch(H, h, control[..32]), control[32..])
  }

  lemma {:induction false} PathAppend(H: TaggedHash, h: Bytes, control: Bytes, sibling: Bytes)
    requires |control| % 32 == 0 && |sibling| == 32
    ensures PathInputs(H, h, control + sibling)
         == PathInputs(H, h, control) + {BranchInput(Fold(H, h, control), sibling)}
    decreases |control|
  {
    hide Branch, BranchInput;
    var t := control + sibling;
    if control == [] {
      assert t == sibling && t[..32] == sibling && t[32..] == [];
    } else {
      assert t[..32] == control[..32] && t[32..] == control[32..] + sibling;
      PathAppend(H, Branch(H, h, control[..32]), control[32..], sibling);
    }
  }

  lemma {:induction false} FoldLength(H: TaggedHash, h: Bytes, control: Bytes)
    requires |h| == 32
    ensures |Fold(H, h, control)| == 32
    decreases |control|
  {
    if |control| >= 32 { FoldLength(H, Branch(H, h, control[..32]), control[32..]); }
  }

  /** Folding along one control is injective. */
  lemma {:induction false} FoldInjective(H: TaggedHash, h: Bytes, k: Bytes, control: Bytes, s: set<Input>)
    requires |h| == 32 && |k| == 32 && |control| % 32 == 0 && Fold(H, h, control) == Fold(H, k, control)
    requires CollisionFree(H, s) && PathInputs(H, h, control) <= s && PathInputs(H, k, control) <= s
    ensures h == k
    decreases |control|
  {
    hide Branch, BranchInput, CollisionFree;
    if |control| >= 32 {
      var e := control[..32];
      FoldInjective(H, Branch(H, h, e), Branch(H, k, e), control[32..], s);
      BranchIs(H, h, e);
      BranchIs(H, k, e);
      Uncollided(H, s, BranchInput(h, e), BranchInput(k, e));
      BranchInjective(h, e, k, e);
    }
  }

  lemma Uncollided(H: TaggedHash, s: set<Input>, a: Input, b: Input)
    requires CollisionFree(H, s) && a in s && b in s && H(a.tag, a.data) == H(b.tag, b.data)
    ensures a == b
  {
  }

  // ----- the tree -----

  /** The inputs hashed when a tree is built. */
  function TreeInputs(H: TaggedHash, scripts: seq<Item>): set<Input>
    requires WellFormed(scripts)
    decreases scripts
  {
    if |scripts| == 1 then
      match scripts[0]
      case List(items) => TreeInputs(H, items)
      case Leaf(_, code, stated) => {LeafInput(Version(stated), code)}
    else if |scripts| == 2 && scripts[1].Partner? then
      var left := RootOf(H, scripts[..1]);
      TreeInputs(H, scripts[..1]) + {BranchInput(left, scripts[1].f(left))}
    else
      var a, b := scripts[..|scripts| / 2], scripts[|scripts| / 2..];
      TreeInputs(H, a) + TreeInputs(H, b) + {BranchInput(RootOf(H, a), RootOf(H, b))}
  }

  function RootOf(H: TaggedHash, scripts: seq<Item>): (r: Bytes32)
    requires WellFormed(scripts)
  {
    InclusionProofs(H, scripts);
    TreeHelper(H, scripts).value.1
  }

  /** A script with its branch is a leaf of the tree, named or not; or it lies in what a partner function stands for,
      of which only the hash is known. */
  ghost predicate IsLeaf(H: TaggedHash, scripts: seq<Item>, version: byte, code: Str, control: Bytes)
    requires WellFormed(scripts)
    decreases scripts
  {
    if |scripts| == 1 then
      match scripts[0]
      case List(items) => IsLeaf(H, items, version, code, control)
      case Leaf(_, c, stated) => version == Version(stated) && code == c && control == []
    else
      && |control| >= 32
      && var (front, sibling) := (control[..|control| - 32], control[|control| - 32..]);
         if |scripts| == 2 && scripts[1].Partner? then
           var left := RootOf(H, scripts[..1]);
           var right := scripts[1].f(left);
           || (sibling == right && IsLeaf(H, scripts[..1], version, code, front))
           || (sibling == left && Fold(H, TapLeaf(H, version, code), front) == right)
         else
           var a, b := scripts[..|scripts| / 2], scripts[|scripts| / 2..];
           || (sibling == RootOf(H, b) && IsLeaf(H, a, version, code, front))
           || (sibling == RootOf(H, a) && IsLeaf(H, b, version, code, front))
  }

  /** The root of a list: of its one item, or of two halves. */
  lemma RootIs(H: TaggedHash, scripts: seq<Item>)
    requires WellFormed(scripts)
    ensures |scripts| == 1 && scripts[0].List? ==> RootOf(H, scripts) == RootOf(H, scripts[0].items)
    ensures |scripts| == 1 && scripts[0].Leaf? ==>
              RootOf(H, scripts) == TapLeaf(H, Version(scripts[0].stated), scripts[0].code)
    ensures |scripts| == 2 && scripts[1].Partner? ==>
              var left := RootOf(H, scripts[..1]);
              RootOf(H, scripts) == Branch(H, left, scripts[1].f(left)) && |scripts[1].f(left)| == 32
    ensures |scripts| >= 2 && !(|scripts| == 2 && scripts[1].Partner?) ==>
              RootOf(H, scripts) == Branch(H, RootOf(H, scripts[..|scripts| / 2]), RootOf(H, scripts[|scripts| / 2..]))
  {
    hide Branch, TapLeaf, Extend;
    InclusionProofs(H, scripts);
    if |scripts| == 2 && scripts[1].Partner? {
      InclusionProofs(H, scripts[..1]);
    } else if |scripts| >= 2 {
      InclusionProofs(H, scripts[..|scripts| / 2]);
      InclusionProofs(H, scripts[|scripts| / 2..]);
    }
  }

  /** A control that folds to one of two siblings' branch ends in the other one. */
  lemma LastStep(H: TaggedHash, h: Bytes, control: Bytes, left: Bytes, right: Bytes, s: set<Input>)
    requires |h| == 32 && |left| == 32 && |right| == 32 && |control| % 32 == 0 && |control| >= 32
    requires Fold(H, h, control) == Branch(H, left, right)
    requires CollisionFree(H, s) && PathInputs(H, h, control) <= s && BranchInput(left, right) in s
    ensures var (front, sibling) := (control[..|control| - 32], control[|control| - 32..]);
            && PathInputs(H, h, front) <= s
            && ((Fold(H, h, front) == left && sibling == right) || (Fold(H, h, front) == right && sibling == left))
  {
    hide Branch, BranchInput, CollisionFree, Fold, PathInputs;
    var front, sibling := control[..|control| - 32], control[|control| - 32..];
    assert control == front + sibling;
    FoldAppend(H, h, front, sibling);
    PathAppend(H, h, front, sibling);
    FoldLength(H, h, front);
    var f := Fold(H, h, front);
    BranchIs(H, f, sibling);
    BranchIs(H, left, right);
    Uncollided(H, s, BranchInput(f, sibling), BranchInput(left, right));
    BranchInjective(f, sibling, left, right);
  }

  lemma TagsDiffer(v: byte, c: Str, a: Bytes, b: Bytes)
    ensures LeafInput(v, c) != BranchInput(a, b)
  {
    assert "TapBranch"[3] != "TapLeaf"[3];
    hide FromBE, SerString;
  }

  /** A leaf's hash is no branch. */
  lemma LeafNoBranch(H: TaggedHash, v: byte, c: Str, h: Bytes, control: Bytes, s: set<Input>)
    requires |h| == 32 && |control| % 32 == 0 && |control| >= 32
    requires CollisionFree(H, s) && PathInputs(H, h, control) <= s && LeafInput(v, c) in s
    ensures Fold(H, h, control) != TapLeaf(H, v, c)
  {
    hide *;
    var front, sibling := control[..|control| - 32], control[|control| - 32..];
    assert control == front + sibling;
    FoldAppend(H, h, front, sibling);
    PathAppend(H, h, front, sibling);
    FoldLength(H, h, front);
    LeafApart(H, v, c, Fold(H, h, front), sibling, s);
  }

  lemma LeafApart(H: TaggedHash, v: byte, c: Str, a: Bytes, b: Bytes, s: set<Input>)
    requires |a| == |b| && CollisionFree(H, s) && BranchInput(a, b) in s && LeafInput(v, c) in s
    ensures Branch(H, a, b) != TapLeaf(H, v, c)
  {
    hide *;
    BranchIs(H, a, b);
    TapLeafIs(H, v, c);
    TagsDiffer(v, c, a, b);
    if Branch(H, a, b) == TapLeaf(H, v, c) { Uncollided(H, s, BranchInput(a, b), LeafInput(v, c)); }
  }

  /** Without collisions a script and a control fold to the root of a tree only if they are a leaf and its branch. */
  lemma {:induction false} OnlyLeavesProve(H: TaggedHash, scripts: seq<Item>, v: byte, c: Str, control: Bytes,
      s: set<Input>)
    requires WellFormed(scripts) && |control| % 32 == 0 && Fold(H, TapLeaf(H, v, c), control) == RootOf(H, scripts)
    requires CollisionFree(H, s) && TreeInputs(H, scripts) <= s
    requires LeafInput(v, c) in s && PathInputs(H, TapLeaf(H, v, c), control) <= s
    ensures IsLeaf(H, scripts, v, c, control)
    decreases scripts
  {
    hide Branch, BranchInput, CollisionFree, Fold, PathInputs, TapLeaf, LeafInput, RootOf;
    RootIs(H, scripts);
    var h := TapLeaf(H, v, c);
    if |scripts| == 1 {
      match scripts[0] {
        case List(items) => OnlyLeavesProve(H, items, v, c, control, s);
        case Leaf(_, d, stated) => LeafProvesItself(H, Version(stated), d, v, c, control, s);
      }
    } else {
      var split := if |scripts| == 2 && scripts[1].Partner? then 1 else |scripts| / 2;
      var a := scripts[..split];
      var left := RootOf(H, a);
      var right := if |scripts| == 2 && scripts[1].Partner? then scripts[1].f(left) else RootOf(H, scripts[split..]);
      BranchNoLeaf(H, left, right, v, c, control, s);
      LastStep(H, h, control, left, right, s);
      var front := control[..|control| - 32];
      if Fold(H, h, front) == left && control[|control| - 32..] == right {
        OnlyLeavesProve(H, a, v, c, front, s);
      } else if !(|scripts| == 2 && scripts[1].Partner?) {
        OnlyLeavesProve(H, scripts[split..], v, c, front, s);
      }
    }
  }

  lemma LeafProvesItself(H: TaggedHash, w: byte, d: Str, v: byte, c: Str, control: Bytes, s: set<Input>)
    requires |control| % 32 == 0 && Fold(H, TapLeaf(H, v, c), control) == TapLeaf(H, w, d)
    requires CollisionFree(H, s) && LeafInput(w, d) in s
    requires LeafInput(v, c) in s && PathInputs(H, TapLeaf(H, v, c), control) <= s
    ensures v == w && c == d && control == []
  {
    hide *;
    if |control| >= 32 { LeafNoBranch(H, w, d, TapLeaf(H, v, c), control, s); }
    FoldNothing(H, TapLeaf(H, v, c), control);
    SameLeaf(H, v, c, w, d, s);
  }

  lemma FoldNothing(H: TaggedHash, h: Bytes, control: Bytes)
    ensures |control| < 32 ==> Fold(H, h, control) == h
  {
  }

  lemma SameLeaf(H: TaggedHash, v: byte, c: Str, w: byte, d: Str, s: set<Input>)
    requires CollisionFree(H, s) && LeafInput(v, c) in s && LeafInput(w, d) in s
    ensures TapLeaf(H, v, c) == TapLeaf(H, w, d) ==> v == w && c == d
  {
    hide *;
    TapLeafIs(H, v, c);
    TapLeafIs(H, w, d);
    if TapLeaf(H, v, c) == TapLeaf(H, w, d) {
      Uncollided(H, s, LeafInput(v, c), LeafInput(w, d));
      LeafInjective(v, c, w, d);
    }
  }

  lemma BranchNoLeaf(H: TaggedHash, left: Bytes, right: Bytes, v: byte, c: Str, control: Bytes, s: set<Input>)
    requires |left| == |right| && Fold(H, TapLeaf(H, v, c), control) == Branch(H, left, right)
    requires CollisionFree(H, s) && BranchInput(left, right) in s && LeafInput(v, c) in s
    ensures |control| >= 32
  {
    hide *;
    FoldNothing(H, TapLeaf(H, v, c), control);
    LeafApart(H, v, c, left, right, s);
  }

  /** Leaves do prove: the other direction, which needs nothing of the hash. */
  lemma {:induction false} LeavesProve(H: TaggedHash, scripts: seq<Item>, v: byte, c: Str, control: Bytes)
    requires WellFormed(scripts) && IsLeaf(H, scripts, v, c, control)
    ensures |control| % 32 == 0 ==> Fold(H, TapLeaf(H, v, c), control) == RootOf(H, scripts)
    decreases scripts
  {
    hide Branch, Fold, TapLeaf, RootOf;
    RootIs(H, scripts);
    if |scripts| == 1 {
      match scripts[0] {
        case List(items) => LeavesProve(H, items, v, c, control);
        case Leaf(_, _, _) => FoldNothing(H, TapLeaf(H, v, c), control);
      }
    } else if |control| % 32 == 0 {
      var split := if |scripts| == 2 && scripts[1].Partner? then 1 else |scripts| / 2;
      var front, sibling := control[..|control| - 32], control[|control| - 32..];
      assert control == front + sibling;
      FoldAppend(H, TapLeaf(H, v, c), front, sibling);
      var left := RootOf(H, scripts[..split]);
      var right := if |scripts| == 2 && scripts[1].Partner? then scripts[1].f(left) else RootOf(H, scripts[split..]);
      BranchSymmetric(H, left, right);
      if sibling == right && IsLeaf(H, scripts[..split], v, c, front) {
        LeavesProve(H, scripts[..split], v, c, front);
      } else if !(|scripts| == 2 && scripts[1].Partner?) {
        LeavesProve(H, scripts[split..], v, c, front);
      }
    }
  }

  // ----- roots with the hash inputs written out -----

  /** The root of one leaf, a single OP_TRUE with the default version say. */
  lemma SingleRoot(H: TaggedHash, name: Option<string>, code: Str, stated: Option<int>)
    requires 0 <= Version(stated) < 256 && Version(stated) % 2 == 0
    ensures var root := RootOf(H, [Leaf(name, code, stated)]);
            root == H("TapLeaf", [Version(stated) as byte] + SerCompactSize(|code|) + code)
    ensures RootOf(H, [Leaf(None, [0x51], None)]) == H("TapLeaf", [0xc0, 0x01, 0x51])
  {
    RootIs(H, [Leaf(name, code, stated)]);
    TapLeafIs(H, Version(stated), code);
    RootIs(H, [Leaf(None, [0x51], None)]);
    TapLeafIs(H, 0xc0, [0x51]);
    assert [0xc0 as byte] + SerCompactSize(1) + [0x51] == [0xc0, 0x01, 0x51];
  }

  /** The root of two leaves: their hashes, the smaller number first. */
  lemma PairRoot(H: TaggedHash, x: Item, y: Item)
    requires x.Leaf? && y.Leaf? && WellFormed([x]) && WellFormed([y])
    ensures WellFormed([x, y])
    ensures var a := H("TapLeaf", [Version(x.stated) as byte] + SerCompactSize(|x.code|) + x.code);
            var b := H("TapLeaf", [Version(y.stated) as byte] + SerCompactSize(|y.code|) + y.code);
            RootOf(H, [x, y]) == H("TapBranch", if FromBE(b) < FromBE(a) then b + a else a + b)
  {
    var s := [x, y];
    assert s[..1] == [x] && s[1..] == [y];
    hide Branch, TapLeaf, FromBE, SerCompactSize;
    RootIs(H, [x]);
    RootIs(H, [y]);
    RootIs(H, s);
    TapLeafIs(H, Version(x.stated), x.code);
    TapLeafIs(H, Version(y.stated), y.code);
    BranchIs(H, RootOf(H, [x]), RootOf(H, [y]));
  }

  // ----- what an output commits to -----

  /** The inputs hashed when a control block is checked. */
  function BlockInputs(H: TaggedHash, code: Str, block: Bytes): set<Input>
    requires |block| >= 33
  {
    var version := block[0] - block[0] % 2;
    var h := TapLeaf(H, version, code);
    {LeafInput(version, code)} + PathInputs(H, h, block[33..])
    + {Input("TapTweak", block[1..33] + Fold(H, h, block[33..]))}
  }

  lemma SameBytes(a: Bytes32, b: Bytes32)
    requires FromBE(a) == FromBE(b)
    ensures a == b
  {
    BEBytesRoundTrip(a);
    BEBytesRoundTrip(b);
    hide FromBE, ToBE, Pow;
  }

  /** An output key and its parity fix the tweak of an internal key. */
  lemma TweakFixed(pubkey: Bytes32, t: Bytes32, u: Bytes32, output: Bytes32, negated: bool)
    requires GroupFacts() && Commits(pubkey, false, t, output, negated) && Commits(pubkey, false, u, output, negated)
    ensures t == u
  {
    var q, r := OutputPoint(pubkey, false, t), OutputPoint(pubkey, false, u);
    assert q.Affine? && r.Affine? && q.y % 2 == r.y % 2 && ToBytesXOnly(q) == ToBytesXOnly(r);
    var a, b, p := Scale(FromBE(t), G), Scale(FromBE(u), G), Internal(pubkey, false).value;
    assert q == AddPoints(a, p) && r == AddPoints(b, p) && FromBE(t) < ORDER && FromBE(u) < ORDER;
    InternalOnCurve(pubkey, false);
    assert IsPrime(SIZE);
    OrderPrime();
    hide *;
    XOnlyRoundTrip(q);
    XOnlyRoundTrip(r);
    EvenPointUnique(q, r);
    ScaleOnCurve(FromBE(t));
    ScaleOnCurve(FromBE(u));
    CancelRight(a, b, p);
    SameMultiple(FromBE(t), FromBE(u));
    CongUnique(FromBE(t), FromBE(u), ORDER);
    SameBytes(t, u);
  }

  lemma CancelRight(a: Point, b: Point, p: Point)
    requires GroupFacts() && OnCurve(a) && OnCurve(b) && OnCurve(p) && AddPoints(a, p) == AddPoints(b, p)
    ensures a == b
  {
    NegOnCurve(p);
    Assoc(a, p, NegPoint(p));
    Assoc(b, p, NegPoint(p));
    Identity(a);
    Identity(b);
  }

  /** Two roots committed to by one key are equal, or their tweaks collide. */
  lemma RootFixed(H: TaggedHash, key: Bytes32, a: Bytes, b: Bytes, output: Bytes32, negated: bool, s: set<Input>)
    requires GroupFacts() && CollisionFree(H, s) && Input("TapTweak", key + a) in s && Input("TapTweak", key + b) in s
    requires Commits(key, false, H("TapTweak", key + a), output, negated)
    requires Commits(key, false, H("TapTweak", key + b), output, negated)
    ensures a == b
  {
    hide *;
    TweakFixed(key, H("TapTweak", key + a), H("TapTweak", key + b), output, negated);
    Uncollided(H, s, Input("TapTweak", key + a), Input("TapTweak", key + b));
    assert (key + a)[32..] == a && (key + b)[32..] == b;
  }

  /** The script's hash that a control block is checked with. */
  function BlockLeaf(H: TaggedHash, code: Str, block: Bytes): Bytes32
    requires |block| >= 33
  {
    TapLeaf(H, block[0] - block[0] % 2, code)
  }

  /** What a check of a control block says and hashes. */
  ghost predicate Checked(H: TaggedHash, output: Bytes32, code: Str, block: Bytes, s: set<Input>)
    requires GroupFacts() && |block| >= 33
  {
    var h := BlockLeaf(H, code, block);
    var tweak := block[1..33] + Fold(H, h, block[33..]);
    && |block[33..]| % 32 == 0
    && Input("TapTweak", tweak) in s && PathInputs(H, h, block[33..]) <= s
    && LeafInput(block[0] - block[0] % 2, code) in s
    && Commits(block[1..33], false, H("TapTweak", tweak), output, block[0] % 2 == 1)
  }

  lemma CheckedIs(H: TaggedHash, output: Bytes32, code: Str, block: Bytes, s: set<Input>)
    requires |block| >= 33 && BlockInputs(H, code, block) <= s
    requires GroupFacts() && Accepts(H, output, code, block)
    ensures Checked(H, output, code, block, s)
  {
    hide Fold, TapLeaf, Commits, GroupFacts, LeafInput, PathInputs;
  }

  /** Binding: with one control block, one script. */
  lemma OneScript(H: TaggedHash, output: Bytes32, code: Str, other: Str, block: Bytes, s: set<Input>)
    requires GroupFacts() && Accepts(H, output, code, block) && Accepts(H, output, other, block)
    requires CollisionFree(H, s) && BlockInputs(H, code, block) <= s && BlockInputs(H, other, block) <= s
    ensures code == other
  {
    hide Fold, TapLeaf, Commits, GroupFacts, LeafInput, PathInputs, CollisionFree, Accepts, BlockInputs, BlockLeaf;
    AtLeast33(H, output, code, block);
    CheckedIs(H, output, code, block, s);
    CheckedIs(H, output, other, block, s);
    var h, k := BlockLeaf(H, code, block), BlockLeaf(H, other, block);
    RootFixed(H, block[1..33], Fold(H, h, block[33..]), Fold(H, k, block[33..]), output, block[0] % 2 == 1, s);
    FoldInjective(H, h, k, block[33..], s);
    BlockLeafIs(H, code, block);
    BlockLeafIs(H, other, block);
    SameLeaf(H, block[0] - block[0] % 2, code, block[0] - block[0] % 2, other, s);
  }

  lemma AtLeast33(H: TaggedHash, output: Bytes32, code: Str, block: Bytes)
    requires GroupFacts() && Accepts(H, output, code, block)
    ensures |block| >= 33
  {
    hide Fold, TapLeaf, Commits, GroupFacts;
  }

  lemma BlockLeafIs(H: TaggedHash, code: Str, block: Bytes)
    requires |block| >= 33
    ensures BlockLeaf(H, code, block) == TapLeaf(H, block[0] - block[0] % 2, code)
  {
    hide TapLeaf;
  }

  /** Whoever spends a constructed output under its internal key and parity does it with a leaf of its tree and that
      leaf's branch; without scripts nobody does. */
  lemma OnlyLeavesSpend(H: TaggedHash, pubkey: Bytes32, scripts: seq<Item>, info: Info,
      version: byte, code: Str, path: Bytes, block: Bytes, s: set<Input>)
    requires version % 2 == 0 && block == [version + (if info.negated then 1 else 0)] + pubkey + path
    requires CollisionFree(H, s) && BlockInputs(H, code, block) <= s && Input("TapTweak", pubkey + info.root) in s
    requires scripts == [] || (WellFormed(scripts) && TreeInputs(H, scripts) <= s)
    requires GroupFacts() && Construct(H, pubkey, scripts, false) == Some(info)
    requires Accepts(H, info.output, code, block)
    ensures scripts != [] && IsLeaf(H, scripts, version, code, path)
  {
    hide Fold, TapLeaf, Commits, GroupFacts, LeafInput, PathInputs, CollisionFree, Accepts, BlockInputs, BlockLeaf;
    hide Construct, TreeInputs, IsLeaf, WellFormed, RootOf;
    Parts(pubkey, version, info.negated, path, block);
    ConstructedRoot(H, pubkey, scripts, info);
    CheckedIs(H, info.output, code, block, s);
    var h := BlockLeaf(H, code, block);
    BlockLeafIs(H, code, block);
    RootFixed(H, pubkey, Fold(H, h, path), info.root, info.output, info.negated, s);
    FoldLength(H, h, path);
    OnlyLeavesProve(H, scripts, version, code, path, s);
  }

  lemma Parts(pubkey: Bytes32, version: byte, negated: bool, path: Bytes, block: Bytes)
    requires version % 2 == 0 && block == [version + (if negated then 1 else 0)] + pubkey + path
    ensures |block| >= 33 && block[1..33] == pubkey && block[33..] == path
    ensures block[0] - block[0] % 2 == version && (block[0] % 2 == 1 <==> negated)
  {
  }

  lemma ConstructedRoot(H: TaggedHash, pubkey: Bytes32, scripts: seq<Item>, info: Info)
    requires GroupFacts() && (scripts == [] || WellFormed(scripts))
    requires Construct(H, pubkey, scripts, false) == Some(info)
    ensures scripts == [] ==> info.root == []
    ensures scripts != [] ==> WellFormed(scripts) && info.root == RootOf(H, scripts)
    ensures Commits(pubkey, false, H("TapTweak", pubkey + info.root), info.output, info.negated)
  {
    hide Construct, Commits, GroupFacts, WellFormed;
    EveryLeafProves(H, scripts);
    Constructed(H, pubkey, scripts, false);
  }
}
