/** key.py: ECDSA and Schnorr signatures and x-only key tweaking.  The tagged hash is a parameter. */
module Keys {
  import opened NumberTheory
  import opened Bytes
  import opened Field
  import opened Curve
  import opened Group
  import opened PointCodec
  import Checksum
  import Der

  /** TaggedHash(tag, data): any function with 32-byte results. */
  type TaggedHash = (string, Bytes) -> Bytes32

  /** secret * G for a secret that is not a multiple of the group order. */
  function PublicPoint(secret: int): (q: Point)
    requires GroupFacts() && secret % ORDER != 0
    ensures OnCurve(q) && q.Affine? && q == Scale(secret, G)
  {
    GeneratorOnCurve();
    ScaleMod(secret, G);
    ScaleFinite(secret, G);
    Scale(secret, G)
  }

  lemma ValidSecret(x: int)
    requires 0 < x < ORDER
    ensures x % ORDER != 0 && (ORDER - x) % ORDER != 0
  {
    ModSmall(x, ORDER);
    ModSmall(ORDER - x, ORDER);
  }

  lemma OrderFits()
    ensures ORDER < Pow(256, 32) && SIZE < Pow(256, 32) && ORDER == 2 * ORDER_HALF + 1
  {
    Two256();
  }

  // ----- x-only keys -----

  function ComputeXOnlyPubkey(key: Bytes32): Option<(Bytes32, bool)>
    requires GroupFacts()
  {
    var x := FromBE(key);
    if x == 0 || x >= ORDER then None
    else
      ValidSecret(x);
      var q := PublicPoint(x);
      Some((ToBytesXOnly(q), q.y % 2 != 0))
  }

  function TweakAddPrivkey(key: Bytes32, tweak: Bytes32): Option<Bytes32>
    requires GroupFacts()
  {
    var x := FromBE(key);
    if x == 0 || x >= ORDER then None
    else
      ValidSecret(x);
      var x' := if PublicPoint(x).y % 2 != 0 then ORDER - x else x;
      var t := FromBE(tweak);
      if t >= ORDER then None
      else
        var r := (x' + t) % ORDER;
        OrderFits();
        if r == 0 then None else Some(ToBE(r, 32))
  }

  function TweakAddPubkey(key: Bytes32, tweak: Bytes32): Option<(Bytes32, bool)>
    requires GroupFacts()
  {
    match FromBytesXOnly(key)
    case None => None
    case Some(p) =>
      var t := FromBE(tweak);
      if t >= ORDER then None
      else
        LiftXFinds(FromBE(key));
        GeneratorOnCurve();
        ScaleMod(t, G);
        AddOnCurve(Scale(t, G), p);
        var q := AddPoints(Scale(t, G), p);
        if q.Infinity? then None else Some((ToBytesXOnly(q), q.y % 2 != 0))
  }

  /** The secret whose point is the even-y one of the pair: what every x-only operation works with. */
  function EvenSecret(x: int): (e: int)
    requires GroupFacts() && 0 < x < ORDER
    ensures 0 < e < ORDER
  {
    ValidSecret(x);
    if PublicPoint(x).y % 2 != 0 then ORDER - x else x
  }

  lemma NegatedSecret(x: int)
    requires GroupFacts() && 0 < x < ORDER
    ensures Scale(ORDER - x, G) == NegPoint(Scale(x, G))
  {
    GeneratorOnCurve();
    ScaleNeg(x, G);
    CongIntro(ORDER - x, -x, 1, ORDER);
    ScaleCong(ORDER - x, -x, G);
  }

  /** Negating the secret makes y even without changing x, and lift_x finds that point. */
  lemma EvenSecretPoint(x: int)
    requires GroupFacts() && 0 < x < ORDER && x % ORDER != 0
    ensures var q, p := PublicPoint(x), Scale(EvenSecret(x), G);
            && OnCurve(p) && p.Affine? && p.y % 2 == 0 && p.x == q.x
            && FromBytesXOnly(ToBytesXOnly(q)) == Some(p)
  {
    var q := PublicPoint(x);
    assert IsPrime(SIZE) && EvenSecret(x) == if q.y % 2 != 0 then ORDER - x else x;
    hide *;
    XOnlyRoundTrip(q);
    EvenOfPair(q);
    if q.y % 2 != 0 { NegatedSecret(x); }
  }

  lemma EvenOfPair(q: Point)
    requires IsPrime(SIZE) && OnCurve(q) && q.Affine?
    ensures var r := if q.y % 2 == 0 then q else NegPoint(q); OnCurve(r) && r.Affine? && r.y % 2 == 0 && r.x == q.x
  {
    NegOnCurve(q);
    NegParity(q.y);
  }

  lemma TweakedPoint(t: int, e: int)
    requires GroupFacts()
    ensures var q := AddPoints(Scale(t, G), Scale(e, G));
            OnCurve(q) && q == Scale((e + t) % ORDER, G) && (q.Infinity? <==> (e + t) % ORDER == 0)
  {
    GeneratorOnCurve();
    ScaleAdd(t, e, G);
    ScaleFinite(t + e, G);
    ScaleMod(t + e, G);
  }

  lemma PubkeyOf(r: int)
    requires GroupFacts() && 0 < r < ORDER && r < Pow(256, 32)
    ensures var q := Scale(r, G);
            q.Affine? && OnCurve(q) && ComputeXOnlyPubkey(ToBE(r, 32)) == Some((ToBytesXOnly(q), q.y % 2 != 0))
  {
    BERoundTrip(r, 32);
    ValidSecret(r);
    var q := PublicPoint(r);
  }

  lemma TweakedPubkey(key: Bytes32, tweak: Bytes32, p: Point)
    requires GroupFacts() && FromBytesXOnly(key) == Some(p) && FromBE(tweak) < ORDER
    ensures var q := AddPoints(Scale(FromBE(tweak), G), p);
            && OnCurve(q)
            && TweakAddPubkey(key, tweak) == if q.Infinity? then None else Some((ToBytesXOnly(q), q.y % 2 != 0))
  {
    LiftXFinds(FromBE(key));
    GeneratorOnCurve();
    ScaleMod(FromBE(tweak), G);
    AddOnCurve(Scale(FromBE(tweak), G), p);
  }

  /** Tweaking commutes with taking the public key: the tweaked private key, when there is one, has the
      tweaked public key, negation flag included; and both sides refuse together. */
  lemma TweaksAgree(key: Bytes32, tweak: Bytes32)
    requires GroupFacts() && ComputeXOnlyPubkey(key).Some?
    ensures TweakAddPubkey(ComputeXOnlyPubkey(key).value.0, tweak)
         == match TweakAddPrivkey(key, tweak)
            case None => None
            case Some(k) => ComputeXOnlyPubkey(k)
  {
    hide *;
    var x, t := FromBE(key), FromBE(tweak);
    XOnlyIs(key);
    TweakedPrivkey(key, tweak);
    TweakedSecretIs(x, t);
    EvenSecretPoint(x);
    var e := EvenSecret(x);
    var pub := ComputeXOnlyPubkey(key).value.0;
    if t < ORDER {
      TweakedPubkey(pub, tweak, Scale(e, G));
      TweakedPoint(t, e);
      if TweakedSecret(x, t) != 0 { PubkeyOf(TweakedSecret(x, t)); }
    } else {
      TweakTooLarge(pub, tweak);
    }
  }

  lemma TweakTooLarge(key: Bytes32, tweak: Bytes32)
    requires GroupFacts() && FromBE(tweak) >= ORDER
    ensures TweakAddPubkey(key, tweak) == None
  {
  }

  /** The private side in terms of the even secret. */
  lemma TweakedPrivkey(key: Bytes32, tweak: Bytes32)
    requires GroupFacts() && ComputeXOnlyPubkey(key).Some?
    ensures var x, t := FromBE(key), FromBE(tweak);
            && 0 < x < ORDER
            && TweakAddPrivkey(key, tweak)
               == if t >= ORDER || TweakedSecret(x, t) == 0 then None else Some(ToBE(TweakedSecret(x, t), 32))
  {
    hide SIZE, ORDER, Scale, AddPoints, GroupFacts, OnCurve, FromBE, ToBE, Pow, Times, PublicPoint, ToBytesXOnly;
  }

  lemma XOnlyIs(key: Bytes32)
    requires GroupFacts() && ComputeXOnlyPubkey(key).Some?
    ensures var x := FromBE(key);
            0 < x < ORDER && x % ORDER != 0 && ComputeXOnlyPubkey(key).value.0 == ToBytesXOnly(PublicPoint(x))
  {
    ValidSecret(FromBE(key));
    ModSmall(FromBE(key), ORDER);
    hide SIZE, ORDER, Scale, AddPoints, GroupFacts, OnCurve, FromBE, ToBytesXOnly;
  }

  /** The even secret plus a tweak, reduced. */
  function TweakedSecret(x: int, t: int): (r: nat)
    requires GroupFacts() && 0 < x < ORDER
    ensures r < ORDER && r < Pow(256, 32)
  {
    OrderFits();
    CongMod(EvenSecret(x) + t, ORDER);
    (EvenSecret(x) + t) % ORDER
  }

  lemma TweakedSecretIs(x: int, t: int)
    requires GroupFacts() && 0 < x < ORDER
    ensures TweakedSecret(x, t) == (EvenSecret(x) + t) % ORDER
  {
  }

  // ----- Schnorr signatures (BIP 340) -----

  /** The secret masked by a hash. */
  function Masked(sec: nat, mask: Bytes32): Bytes32
    requires sec < ORDER
  {
    MaskFits(sec, mask);
    ToBE(Checksum.Xor(sec, FromBE(mask)), 32)
  }

  lemma MaskFits(sec: nat, mask: Bytes32)
    requires sec < ORDER
    ensures Checksum.Xor(sec, FromBE(mask)) < Pow(256, 32)
  {
    OrderFits();
    hide *;
    BEBytesRoundTrip(mask);
    Pow256(32);
    Checksum.XorBelow(sec, FromBE(mask), 256);
  }

  function Challenge(H: TaggedHash, r: Bytes, p: Bytes, msg: Bytes): int {
    FromBE(H("BIP0340/challenge", r + p + msg)) % ORDER
  }

  /** The deterministic nonce: a hash of the masked secret, the key and the message. */
  function Nonce(H: TaggedHash, sec: int, pk: Bytes, msg: Bytes, aux: Bytes): (k: int)
    requires 0 <= sec < ORDER
    ensures 0 <= k < ORDER
  {
    var t := Masked(sec, H("BIP0340/aux", aux));
    FromBE(H("BIP0340/nonce", t + pk + msg)) % ORDER
  }

  function SignatureBytes(H: TaggedHash, pk: Bytes, rb: Bytes32, k: int, sec: int, msg: Bytes): (sig: Bytes)
    ensures |sig| == 64
  {
    OrderFits();
    rb + ToBE((k + Challenge(H, rb, pk, msg) * sec) % ORDER, 32)
  }

  function SignSchnorr(H: TaggedHash, key: Bytes32, msg: Bytes32, aux: Bytes32, flipP: bool, flipR: bool):
    Outcome<Option<Bytes>>
    requires GroupFacts()
  {
    var x := FromBE(key);
    if x == 0 || x >= ORDER then Returned(None)
    else
      ValidSecret(x);
      var p := PublicPoint(x);
      var sec := if (p.y % 2 == 0) == flipP then ORDER - x else x;
      var kp := Nonce(H, sec, ToBytesXOnly(p), msg, aux);
      if kp == 0 then Raised
      else
        ValidSecret(kp);
        var r := PublicPoint(kp);
        var k := if (r.y % 2 == 0) != flipR then kp else ORDER - kp;
        Returned(Some(SignatureBytes(H, ToBytesXOnly(p), ToBytesXOnly(r), k, sec, msg)))
  }

  /** s*G - e*P is the finite point with even y and abscissa r. */
  predicate SchnorrEquation(p: Point, r: int, s: int, e: int) {
    var q := WeightedSum([(s, G), (-e, p)]);
    q.Affine? && q.y % 2 == 0 && r == q.x
  }

  function VerifySchnorr(H: TaggedHash, key: Bytes32, sig: Bytes, msg: Bytes32): bool
    requires |sig| == 64
  {
    match FromBytesXOnly(key)
    case None => false
    case Some(p) =>
      var r, s := FromBE(sig[0..32]), FromBE(sig[32..64]);
      if r >= SIZE || s >= ORDER then false
      else SchnorrEquation(p, r, s, Challenge(H, sig[0..32], key, msg))
  }

  lemma SumOfTwo(a: int, p: Point, b: int, q: Point)
    ensures WeightedSum([(a, p), (b, q)]) == AddPoints(Scale(a, p), Scale(b, q))
  {
    var s := [(a, p), (b, q)];
    assert s[..1] == [(a, p)];
    assert s[..1][..0] == [];
    assert WeightedSum(s[..1]) == AddPoints(WeightedSum([]), Scale(a, p));
  }

  /** s*G - e*(d*G) is one multiple of the generator. */
  lemma CombinedMultiple(s: int, e: int, d: int)
    requires GroupFacts()
    ensures WeightedSum([(s, G), (-e, Scale(d, G))]) == Scale(s - e * d, G)
  {
    hide *;
    GeneratorOnCurve();
    ScaleOnCurve(d);
    SumOfTwo(s, G, -e, Scale(d, G));
    ScaleScale(-e, d, G);
    ScaleAdd(s, -e * d, G);
    assert s + -e * d == s - e * d;
  }

  lemma ScaleOnCurve(a: int)
    requires GroupFacts()
    ensures OnCurve(Scale(a, G)) && OnCurve(G) && G.Affine?
  {
    GeneratorOnCurve();
    ScaleMod(a, G);
  }

  /** Equal multiples of the generator have congruent scalars. */
  lemma SameMultiple(a: int, b: int)
    requires GroupFacts()
    ensures Scale(a, G) == Scale(b, G) <==> Cong(a, b, ORDER)
  {
    assert IsPrime(SIZE);
    hide *;
    ScaleOnCurve(a);
    ScaleOnCurve(b);
    if Cong(a, b, ORDER) { ScaleCong(a, b, G); }
    ScaleAdd(a, -b, G);
    ScaleNeg(b, G);
    NegOnCurve(Scale(b, G));
    ScaleFinite(a - b, G);
    assert a + -b == a - b;
    CongZero(a, b, ORDER);
  }

  /** The verification equation with an even nonce point has exactly one solution. */
  lemma EquationIff(k: int, e: int, d: int, s: int)
    requires GroupFacts() && Scale(k, G).Affine? && Scale(k, G).y % 2 == 0 && 0 <= s < ORDER
    ensures SchnorrEquation(Scale(d, G), Scale(k, G).x, s, e) <==> s == (k + e * d) % ORDER
  {
    var q := WeightedSum([(s, G), (-e, Scale(d, G))]);
    assert IsPrime(SIZE);
    assert SchnorrEquation(Scale(d, G), Scale(k, G).x, s, e) <==> q.Affine? && q.y % 2 == 0 && Scale(k, G).x == q.x;
    hide *;
    CombinedMultiple(s, e, d);
    ScaleOnCurve(k);
    ScaleOnCurve(s - e * d);
    if q.Affine? && q.y % 2 == 0 && q.x == Scale(k, G).x { EvenPointUnique(q, Scale(k, G)); }
    SameMultiple(s - e * d, k);
    ShiftCong(s, e * d, k, ORDER);
  }

  lemma ShiftCong(s: int, c: int, k: int, m: int)
    requires m > 0 && 0 <= s < m
    ensures Cong(s - c, k, m) <==> s == (k + c) % m
  {
    assert s - c - k == s - (k + c);
    CongSameMod(s, k + c, m);
    ModSmall(s, m);
  }

  lemma VerifyFields(H: TaggedHash, key: Bytes32, rb: Bytes32, s: int, msg: Bytes32, p: Point)
    requires FromBytesXOnly(key) == Some(p) && 0 <= s < ORDER && s < Pow(256, 32) && FromBE(rb) < SIZE
    ensures VerifySchnorr(H, key, rb + ToBE(s, 32), msg)
            <==> SchnorrEquation(p, FromBE(rb), s, Challenge(H, rb, key, msg))
  {
    var sb := ToBE(s, 32);
    var sig := rb + sb;
    assert sig[0..32] == rb && sig[32..64] == sb;
    BERoundTrip(s, 32);
  }

  /** Bytes made with a scalar k' and a secret d' verify under the key of d, with the nonce point of k, exactly
      when they agree with the bytes of k and d. */
  lemma SignatureIff(H: TaggedHash, pk: Bytes32, rb: Bytes32, k: int, d: int, k': int, d': int, msg: Bytes32)
    requires GroupFacts() && FromBytesXOnly(pk) == Some(Scale(d, G))
    requires Scale(k, G).Affine? && Scale(k, G).y % 2 == 0 && FromBE(rb) == Scale(k, G).x < SIZE
    ensures var e := Challenge(H, rb, pk, msg);
            VerifySchnorr(H, pk, SignatureBytes(H, pk, rb, k', d', msg), msg)
            <==> (k' + e * d') % ORDER == (k + e * d) % ORDER
  {
    hide *;
    var e := Challenge(H, rb, pk, msg);
    SignatureIs(H, pk, rb, k', d', msg);
    EquationIff(k, e, d, (k' + e * d') % ORDER);
    VerifyFields(H, pk, rb, (k' + e * d') % ORDER, msg, Scale(d, G));
  }

  lemma SignatureIs(H: TaggedHash, pk: Bytes, rb: Bytes32, k: int, d: int, msg: Bytes)
    ensures var s := (k + Challenge(H, rb, pk, msg) * d) % ORDER;
            0 <= s < ORDER && s < Pow(256, 32) && SignatureBytes(H, pk, rb, k, d, msg) == rb + ToBE(s, 32)
  {
    OrderFits();
    CongMod(k + Challenge(H, rb, pk, msg) * d, ORDER);
    hide SIZE, ORDER, Challenge, Pow, ToBE;
  }

  /** The x-only bytes of a secret's public point. */
  function XOnly(x: int): Bytes32
    requires GroupFacts() && 0 < x < ORDER
  {
    ValidSecret(x);
    ToBytesXOnly(PublicPoint(x))
  }

  /** What is signed with: the even secret of x, negated by a flip. */
  function Flipped(x: int, flip: bool): (e: int)
    requires GroupFacts() && 0 < x < ORDER
    ensures 0 < e < ORDER
  {
    if flip then ORDER - EvenSecret(x) else EvenSecret(x)
  }

  function NonceUsed(H: TaggedHash, x: int, msg: Bytes, aux: Bytes, flipP: bool): (k: int)
    requires GroupFacts() && 0 < x < ORDER
    ensures 0 <= k < ORDER
  {
    Nonce(H, Flipped(x, flipP), XOnly(x), msg, aux)
  }

  lemma FlippedMeans(x: int, flip: bool)
    requires GroupFacts() && 0 < x < ORDER
    ensures Flipped(x, flip) == if flip then ORDER - EvenSecret(x) else EvenSecret(x)
  {
    hide GroupFacts, EvenSecret, ORDER;
  }

  lemma FlippedIs(x: int, flip: bool)
    requires GroupFacts() && 0 < x < ORDER && x % ORDER != 0
    ensures Flipped(x, flip) == if (PublicPoint(x).y % 2 == 0) == flip then ORDER - x else x
    ensures XOnly(x) == ToBytesXOnly(PublicPoint(x))
  {
    hide GroupFacts, PublicPoint, ToBytesXOnly, ORDER;
  }

  /** The bytes sign_schnorr returns, in terms of the even secrets of key and nonce. */
  lemma SignedBytes(H: TaggedHash, key: Bytes32, msg: Bytes32, aux: Bytes32, flipP: bool, flipR: bool, sig: Bytes)
    requires GroupFacts() && SignSchnorr(H, key, msg, aux, flipP, flipR) == Returned(Some(sig))
    ensures var x := FromBE(key);
            && 0 < x < ORDER
            && var kp := NonceUsed(H, x, msg, aux, flipP);
               && 0 < kp
               && sig == SignatureBytes(H, XOnly(x), XOnly(kp), Flipped(kp, flipR), Flipped(x, flipP), msg)
  {
    hide SIZE, ORDER, Scale, PublicPoint, GroupFacts, OnCurve, FromBE, ToBytesXOnly, SignatureBytes, Nonce, Flipped,
        XOnly;
    var x := FromBE(key);
    ValidSecret(x);
    FlippedIs(x, flipP);
    var kp := NonceUsed(H, x, msg, aux, flipP);
    ValidSecret(kp);
    FlippedIs(kp, flipR);
  }

  /** What the flips put between the signed scalar and the verified one. */
  function Offset(k: int, e: int, d: int, flipP: bool, flipR: bool): int {
    (if flipR then k else 0) + if flipP then e * d else 0
  }

  lemma TwiceZero(x: int, m: int)
    requires IsPrime(m) && m > 2
    ensures (2 * x) % m == 0 <==> x % m == 0
  {
    ModSmall(2, m);
    if (2 * x) % m == 0 { PrimeDivides(2, x, m); }
    if x % m == 0 { MulMod(2 * (x / m), m); }
  }

  lemma FlippedScalar(k: int, e: int, d: int, flipP: bool, flipR: bool, m: int)
    requires IsPrime(m) && m > 2
    ensures var k', d' := if flipR then m - k else k, if flipP then m - d else d;
            (k' + e * d') % m == (k + e * d) % m <==> Offset(k, e, d, flipP, flipR) % m == 0
  {
    var k', d', o := if flipR then m - k else k, if flipP then m - d else d, Offset(k, e, d, flipP, flipR);
    var c := (if flipR then 1 else 0) + if flipP then e else 0;
    FlippedTerms(k, e, d, flipP, flipR, m);
    hide *;
    CongSameMod(k' + e * d', k + e * d, m);
    CongIntro(k' + e * d' - (k + e * d), -2 * o, c, m);
    CongSameMod(k' + e * d' - (k + e * d), -2 * o, m);
    CongZero(k' + e * d', k + e * d, m);
    TwiceZero(-o, m);
    NegZero(o, m);
  }

  lemma FlippedTerms(k: int, e: int, d: int, flipP: bool, flipR: bool, m: int)
    ensures var k', d' := if flipR then m - k else k, if flipP then m - d else d;
            k' + e * d' - (k + e * d) - -2 * Offset(k, e, d, flipP, flipR)
            == ((if flipR then 1 else 0) + if flipP then e else 0) * m
  {
  }

  lemma NegZero(x: int, m: int)
    requires m > 0
    ensures (-x) % m == 0 <==> x % m == 0
  {
    hide *;
    CongZero(0, x, m);
    CongZero(x, 0, m);
    if x % m == 0 { CongSym(x, 0, m); }
    if (-x) % m == 0 { CongSym(0, x, m); }
  }

  /** An x-only key decodes to the point of the even secret, and its bytes are that point's abscissa. */
  lemma XOnlyDecodes(x: int)
    requires GroupFacts() && 0 < x < ORDER
    ensures var p := Scale(EvenSecret(x), G);
            && FromBytesXOnly(XOnly(x)) == Some(p) && p.Affine? && p.y % 2 == 0 && FromBE(XOnly(x)) == p.x < SIZE
  {
    ValidSecret(x);
    var q := PublicPoint(x);
    assert IsPrime(SIZE) && XOnly(x) == ToBytesXOnly(q) && q.x < SIZE;
    hide *;
    EvenSecretPoint(x);
    XOnlyRoundTrip(q);
  }

  lemma XOnlyReturned(key: Bytes32)
    requires GroupFacts() && 0 < FromBE(key) < ORDER
    ensures ComputeXOnlyPubkey(key).Some? && ComputeXOnlyPubkey(key).value.0 == XOnly(FromBE(key))
  {
    hide SIZE, ORDER, PublicPoint, GroupFacts, FromBE, ToBytesXOnly;
  }

  /** With any flips, a returned signature verifies under the x-only key of its secret exactly when what the flips
      leave between the two sides vanishes modulo the order. */
  lemma SchnorrFlips(H: TaggedHash, key: Bytes32, msg: Bytes32, aux: Bytes32, flipP: bool, flipR: bool, sig: Bytes)
    requires GroupFacts() && SignSchnorr(H, key, msg, aux, flipP, flipR) == Returned(Some(sig))
    ensures var x := FromBE(key);
            && |sig| == 64 && 0 < x < ORDER
            && ComputeXOnlyPubkey(key).Some? && ComputeXOnlyPubkey(key).value.0 == XOnly(x)
            && var kp := NonceUsed(H, x, msg, aux, flipP);
               && 0 < kp < ORDER
               && var e := Challenge(H, XOnly(kp), XOnly(x), msg);
                  VerifySchnorr(H, XOnly(x), sig, msg)
                  <==> Offset(EvenSecret(kp), e, EvenSecret(x), flipP, flipR) % ORDER == 0
  {
    assert IsPrime(ORDER);
    hide *;
    SignedBytes(H, key, msg, aux, flipP, flipR, sig);
    XOnlyReturned(key);
    var x := FromBE(key);
    var kp := NonceUsed(H, x, msg, aux, flipP);
    FlipsVerify(H, x, kp, flipP, flipR, msg);
  }

  lemma FlipsVerify(H: TaggedHash, x: int, kp: int, flipP: bool, flipR: bool, msg: Bytes32)
    requires GroupFacts() && IsPrime(ORDER) && 0 < x < ORDER && 0 < kp < ORDER
    ensures var e := Challenge(H, XOnly(kp), XOnly(x), msg);
            VerifySchnorr(H, XOnly(x), SignatureBytes(H, XOnly(x), XOnly(kp), Flipped(kp, flipR), Flipped(x, flipP),
                msg), msg)
            <==> Offset(EvenSecret(kp), e, EvenSecret(x), flipP, flipR) % ORDER == 0
  {
    hide *;
    var k, d, e := EvenSecret(kp), EvenSecret(x), Challenge(H, XOnly(kp), XOnly(x), msg);
    FlippedMeans(kp, flipR);
    FlippedMeans(x, flipP);
    XOnlyDecodes(x);
    XOnlyDecodes(kp);
    SignatureIff(H, XOnly(x), XOnly(kp), k, d, Flipped(kp, flipR), Flipped(x, flipP), msg);
    FlippedScalar(k, e, d, flipP, flipR, ORDER);
  }

  /** Every signature made without flips verifies under the x-only key of its secret. */
  lemma SchnorrComplete(H: TaggedHash, key: Bytes32, msg: Bytes32, aux: Bytes32, sig: Bytes)
    requires GroupFacts() && SignSchnorr(H, key, msg, aux, false, false) == Returned(Some(sig))
    ensures |sig| == 64 && ComputeXOnlyPubkey(key).Some?
    ensures VerifySchnorr(H, ComputeXOnlyPubkey(key).value.0, sig, msg)
  {
    hide *;
    SchnorrFlips(H, key, msg, aux, false, false, sig);
    var x := FromBE(key);
    var kp := NonceUsed(H, x, msg, aux, false);
    OffsetIs(EvenSecret(kp), Challenge(H, XOnly(kp), XOnly(x), msg), EvenSecret(x));
    ModSmall(0, ORDER);
  }

  lemma OffsetIs(k: int, e: int, d: int)
    ensures Offset(k, e, d, false, false) == 0 && Offset(k, e, d, false, true) == k
    ensures Offset(k, e, d, true, false) == e * d && Offset(k, e, d, true, true) == k + e * d
  {
  }

  /** A signature whose nonce was flipped, and not its key, never verifies. */
  lemma FlippedNonceRefused(H: TaggedHash, key: Bytes32, msg: Bytes32, aux: Bytes32, sig: Bytes)
    requires GroupFacts() && SignSchnorr(H, key, msg, aux, false, true) == Returned(Some(sig))
    ensures |sig| == 64 && ComputeXOnlyPubkey(key).Some?
    ensures !VerifySchnorr(H, ComputeXOnlyPubkey(key).value.0, sig, msg)
  {
    hide *;
    SchnorrFlips(H, key, msg, aux, false, true, sig);
    var x := FromBE(key);
    var kp := NonceUsed(H, x, msg, aux, false);
    OffsetIs(EvenSecret(kp), Challenge(H, XOnly(kp), XOnly(x), msg), EvenSecret(x));
    ValidSecret(EvenSecret(kp));
  }

  // ----- what the Schnorr verifier accepts, with the hash inputs written out -----

  /** BIP 340, "Verification", solved for s: k and d are the even secrets of nonce and key. */
  ghost predicate SchnorrSolves(H: TaggedHash, x: int, k: int, rb: Bytes32, s: int, msg: Bytes)
    requires GroupFacts() && 0 < x < ORDER && 0 < k < ORDER
  {
    && rb == XOnly(k)
    && s == (EvenSecret(k) + FromBE(H("BIP0340/challenge", rb + XOnly(x) + msg)) * EvenSecret(x)) % ORDER
  }

  lemma ReducedFactor(k: int, h: int, d: int, n: int)
    requires n > 0
    ensures (k + (h % n) * d) % n == (k + h * d) % n
  {
    hide *;
    CongRefl(k, n);
    CongRefl(d, n);
    CongMod(h, n);
    CongMul(h % n, h, d, d, n);
    CongAdd(k, k, (h % n) * d, h * d, n);
    CongSameMod(k + (h % n) * d, k + h * d, n);
  }

  lemma ChallengeIs(H: TaggedHash, r: Bytes, p: Bytes, msg: Bytes)
    ensures Challenge(H, r, p, msg) == FromBE(H("BIP0340/challenge", r + p + msg)) % ORDER
  {
    hide ORDER, FromBE;
  }

  lemma SolvesIff(H: TaggedHash, x: int, k: int, rb: Bytes32, s: int, msg: Bytes)
    requires GroupFacts() && 0 < x < ORDER && 0 < k < ORDER
    ensures SchnorrSolves(H, x, k, rb, s, msg)
       <==> rb == XOnly(k) && s == (EvenSecret(k) + Challenge(H, rb, XOnly(x), msg) * EvenSecret(x)) % ORDER
  {
    assert ORDER > 0;
    hide ORDER, GroupFacts, EvenSecret, XOnly, Challenge, FromBE;
    ChallengeIs(H, rb, XOnly(x), msg);
    ReducedFactor(EvenSecret(k), FromBE(H("BIP0340/challenge", rb + XOnly(x) + msg)), EvenSecret(x), ORDER);
  }

  lemma EquationIs(p: Point, r: int, s: int, e: int)
    ensures var q := WeightedSum([(s, G), (-e, p)]);
            SchnorrEquation(p, r, s, e) <==> q.Affine? && q.y % 2 == 0 && r == q.x
  {
    hide WeightedSum;
  }

  /** A nonce whose point the equation finds. */
  lemma NonceFound(s: int, e: int, d: int, rb: Bytes32)
    requires GroupFacts() && SchnorrEquation(Scale(d, G), FromBE(rb), s, e)
    ensures var k := (s - e * d) % ORDER; 0 < k < ORDER && rb == XOnly(k) && EvenSecret(k) == k
  {
    OrderPrime();
    hide *;
    var u := s - e * d;
    var k := u % ORDER;
    EquationIs(Scale(d, G), FromBE(rb), s, e);
    CombinedMultiple(s, e, d);
    ScaleOnCurve(u);
    ScaleFinite(u, G);
    CongMod(u, ORDER);
    SameMultiple(u, k);
    EvenNonce(k, rb);
  }

  lemma EvenNonce(k: int, rb: Bytes32)
    requires GroupFacts() && 0 < k < ORDER && Scale(k, G).Affine? && Scale(k, G).y % 2 == 0
             && FromBE(rb) == Scale(k, G).x
    ensures rb == XOnly(k) && EvenSecret(k) == k
  {
    ValidSecret(k);
    var q := PublicPoint(k);
    BEBytesRoundTrip(rb);
    hide FromBE, ToBE, Scale, ORDER, SIZE, OnCurve, GroupFacts, Pow;
  }

  /** A signature is accepted exactly when its first half is the x-only form of some nonce and its second half solves
      the equation of that nonce, the key and the hash of this message. */
  lemma SchnorrSound(H: TaggedHash, x: int, rb: Bytes32, sb: Bytes32, msg: Bytes32)
    requires GroupFacts() && 0 < x < ORDER
    ensures VerifySchnorr(H, XOnly(x), rb + sb, msg)
       <==> exists k :: 0 < k < ORDER && SchnorrSolves(H, x, k, rb, FromBE(sb), msg)
  {
    OrderPrime();
    hide *;
    var d, s, e := EvenSecret(x), FromBE(sb), Challenge(H, rb, XOnly(x), msg);
    XOnlyDecodes(x);
    VerifyHalves(H, XOnly(x), rb, sb, msg, Scale(d, G));
    if VerifySchnorr(H, XOnly(x), rb + sb, msg) {
      var k := (s - e * d) % ORDER;
      NonceFound(s, e, d, rb);
      NonceSolves(H, x, k, rb, s, msg);
      assert SchnorrSolves(H, x, k, rb, s, msg);
    }
    if k :| 0 < k < ORDER && SchnorrSolves(H, x, k, rb, s, msg) {
      NonceSolves(H, x, k, rb, s, msg);
    }
  }

  lemma VerifyHalves(H: TaggedHash, key: Bytes32, rb: Bytes32, sb: Bytes32, msg: Bytes32, p: Point)
    requires FromBytesXOnly(key) == Some(p)
    ensures VerifySchnorr(H, key, rb + sb, msg)
       <==> FromBE(rb) < SIZE && FromBE(sb) < ORDER
            && SchnorrEquation(p, FromBE(rb), FromBE(sb), Challenge(H, rb, key, msg))
  {
    assert (rb + sb)[0..32] == rb && (rb + sb)[32..64] == sb;
    hide SIZE, ORDER, FromBE, SchnorrEquation, Challenge, FromBytesXOnly;
  }

  /** For a nonce with these bytes, solving is satisfying the verifier's equation. */
  lemma NonceSolves(H: TaggedHash, x: int, k: int, rb: Bytes32, s: int, msg: Bytes)
    requires GroupFacts() && 0 < x < ORDER && 0 < k < ORDER && rb == XOnly(k) && 0 <= s
    ensures FromBE(rb) < SIZE
    ensures SchnorrSolves(H, x, k, rb, s, msg)
       <==> s < ORDER && SchnorrEquation(Scale(EvenSecret(x), G), FromBE(rb), s, Challenge(H, rb, XOnly(x), msg))
  {
    hide *;
    XOnlyDecodes(k);
    SolvesIff(H, x, k, rb, s, msg);
    EvenEquation(k, Challenge(H, rb, XOnly(x), msg), EvenSecret(x), s);
  }

  lemma EvenEquation(k: int, e: int, d: int, s: int)
    requires GroupFacts() && 0 < k < ORDER && 0 <= s
    ensures var q := Scale(EvenSecret(k), G);
            && q.Affine?
            && (s == (EvenSecret(k) + e * d) % ORDER <==> s < ORDER && SchnorrEquation(Scale(d, G), q.x, s, e))
  {
    OrderPrime();
    hide *;
    XOnlyDecodes(k);
    CongMod(EvenSecret(k) + e * d, ORDER);
    if s < ORDER { EquationIff(EvenSecret(k), e, d, s); }
  }

  /** With the nonce given: the one second half that is accepted. */
  lemma KnownNonce(H: TaggedHash, x: int, k: int, sb: Bytes32, msg: Bytes32)
    requires GroupFacts() && 0 < x < ORDER && 0 < k < ORDER
    ensures var h := FromBE(H("BIP0340/challenge", XOnly(k) + XOnly(x) + msg));
            VerifySchnorr(H, XOnly(x), XOnly(k) + sb, msg)
            <==> FromBE(sb) == (EvenSecret(k) + h * EvenSecret(x)) % ORDER
  {
    hide *;
    XOnlyDecodes(x);
    VerifyHalves(H, XOnly(x), XOnly(k), sb, msg, Scale(EvenSecret(x), G));
    NonceSolves(H, x, k, XOnly(k), FromBE(sb), msg);
    SolvesIs(H, x, k, XOnly(k), FromBE(sb), msg);
  }

  lemma SolvesIs(H: TaggedHash, x: int, k: int, rb: Bytes32, s: int, msg: Bytes)
    requires GroupFacts() && 0 < x < ORDER && 0 < k < ORDER
    ensures SchnorrSolves(H, x, k, rb, s, msg) ==> rb == XOnly(k)
    ensures rb == XOnly(k) ==>
              (SchnorrSolves(H, x, k, rb, s, msg) <==>
               s == (EvenSecret(k) + FromBE(H("BIP0340/challenge", rb + XOnly(x) + msg)) * EvenSecret(x)) % ORDER)
  {
    hide ORDER, GroupFacts, EvenSecret, XOnly, FromBE;
  }

  lemma SchnorrVerdict(H: TaggedHash, x: int, k: int, s: int, msg: Bytes32)
    requires GroupFacts() && 0 < x < ORDER && 0 < k < ORDER && 0 <= s < ORDER
    ensures s < Pow(256, 32)
    ensures VerifySchnorr(H, XOnly(x), XOnly(k) + ToBE(s, 32), msg)
       <==> s == (EvenSecret(k) + FromBE(H("BIP0340/challenge", XOnly(k) + XOnly(x) + msg)) * EvenSecret(x)) % ORDER
  {
    hide *;
    OrderFits();
    BERoundTrip(s, 32);
    KnownNonce(H, x, k, ToBE(s, 32), msg);
  }

  /** A signature accepted for one message is accepted for another exactly when the two hashes agree modulo the
      order. */
  lemma SchnorrBinds(H: TaggedHash, x: int, rb: Bytes32, sb: Bytes32, msg: Bytes32, other: Bytes32)
    requires GroupFacts() && 0 < x < ORDER && VerifySchnorr(H, XOnly(x), rb + sb, msg)
    ensures VerifySchnorr(H, XOnly(x), rb + sb, other)
       <==> Cong(FromBE(H("BIP0340/challenge", rb + XOnly(x) + msg)),
                 FromBE(H("BIP0340/challenge", rb + XOnly(x) + other)), ORDER)
  {
    hide *;
    var k := NonceOf(H, x, rb, sb, msg);
    ScalarIs(H, x, k, sb, msg);
    ScalarIs(H, x, k, sb, other);
    SameScalar(x, k, FromBE(H("BIP0340/challenge", rb + XOnly(x) + msg)),
               FromBE(H("BIP0340/challenge", rb + XOnly(x) + other)));
  }

  /** The second half that goes with a nonce and a hash. */
  function ScalarFor(x: int, k: int, h: int): int
    requires GroupFacts() && 0 < x < ORDER && 0 < k < ORDER
  {
    (EvenSecret(k) + h * EvenSecret(x)) % ORDER
  }

  lemma ScalarIs(H: TaggedHash, x: int, k: int, sb: Bytes32, msg: Bytes32)
    requires GroupFacts() && 0 < x < ORDER && 0 < k < ORDER
    ensures VerifySchnorr(H, XOnly(x), XOnly(k) + sb, msg)
       <==> FromBE(sb) == ScalarFor(x, k, FromBE(H("BIP0340/challenge", XOnly(k) + XOnly(x) + msg)))
  {
    KnownNonce(H, x, k, sb, msg);
    hide VerifySchnorr, EvenSecret, XOnly, GroupFacts, ORDER, FromBE;
  }

  lemma SameScalar(x: int, k: int, e: int, f: int)
    requires GroupFacts() && 0 < x < ORDER && 0 < k < ORDER
    ensures ScalarFor(x, k, e) == ScalarFor(x, k, f) <==> Cong(e, f, ORDER)
  {
    OrderPrime();
    ValidSecret(EvenSecret(x));
    hide EvenSecret, GroupFacts, ORDER, Cong;
    SameProduct(EvenSecret(k), e, f, EvenSecret(x), ORDER);
  }

  lemma NonceOf(H: TaggedHash, x: int, rb: Bytes32, sb: Bytes32, msg: Bytes32) returns (k: int)
    requires GroupFacts() && 0 < x < ORDER && VerifySchnorr(H, XOnly(x), rb + sb, msg)
    ensures 0 < k < ORDER && rb == XOnly(k)
  {
    hide *;
    SchnorrSound(H, x, rb, sb, msg);
    k :| 0 < k < ORDER && SchnorrSolves(H, x, k, rb, FromBE(sb), msg);
    SolvesIs(H, x, k, rb, FromBE(sb), msg);
  }

  lemma SameProduct(k: int, e: int, f: int, d: int, n: int)
    requires IsPrime(n) && n > 1 && d % n != 0
    ensures (k + e * d) % n == (k + f * d) % n <==> Cong(e, f, n)
  {
    hide *;
    CongSameMod(k + e * d, k + f * d, n);
    CongRefl(k, n);
    CongRefl(d, n);
    if Cong(e, f, n) {
      CongMul(e, f, d, d, n);
      CongAdd(k, k, e * d, f * d, n);
    }
    if Cong(k + e * d, k + f * d, n) {
      CongSub(k + e * d, k + f * d, k, k, n);
      assert k + e * d - k == e * d && k + f * d - k == f * d;
      CancelMul(e, f, d, n);
    }
  }

  /** The mask is an exclusive or of numbers. */
  lemma MaskedIs(sec: nat, mask: Bytes32)
    requires sec < ORDER
    ensures FromBE(Masked(sec, mask)) == Checksum.Xor(sec, FromBE(mask))
  {
    MaskFits(sec, mask);
    hide FromBE, Pow, ORDER, Checksum.Xor;
    BERoundTrip(Checksum.Xor(sec, FromBE(mask)), 32);
  }

  /** BIP 340, "Default Signing", with the flips: nonce and second half of what is returned, with every hash input
      written out. */
  lemma SchnorrSigned(H: TaggedHash, key: Bytes32, msg: Bytes32, aux: Bytes32, flipP: bool, flipR: bool, sig: Bytes)
    returns (d: int, kp: int, k: int, s: int)
    requires GroupFacts() && SignSchnorr(H, key, msg, aux, flipP, flipR) == Returned(Some(sig))
    ensures 0 < FromBE(key) < ORDER && 0 < d < ORDER && 0 < kp < ORDER && 0 <= s < ORDER && s < Pow(256, 32)
    ensures d == if flipP then ORDER - EvenSecret(FromBE(key)) else EvenSecret(FromBE(key))
    ensures kp == FromBE(H("BIP0340/nonce", Masked(d, H("BIP0340/aux", aux)) + XOnly(FromBE(key)) + msg)) % ORDER
    ensures k == if flipR then ORDER - EvenSecret(kp) else EvenSecret(kp)
    ensures s == (k + FromBE(H("BIP0340/challenge", XOnly(kp) + XOnly(FromBE(key)) + msg)) * d) % ORDER
    ensures sig == XOnly(kp) + ToBE(s, 32)
  {
    hide *;
    var x := FromBE(key);
    SignedBytes(H, key, msg, aux, flipP, flipR, sig);
    d, kp := Flipped(x, flipP), NonceUsed(H, x, msg, aux, flipP);
    k := Flipped(kp, flipR);
    FlippedMeans(x, flipP);
    FlippedMeans(kp, flipR);
    NonceIs(H, x, msg, aux, flipP);
    s := SignedScalarOf(H, XOnly(x), XOnly(kp), k, d, msg);
  }

  lemma SignedScalarOf(H: TaggedHash, pk: Bytes, rb: Bytes32, k: int, d: int, msg: Bytes) returns (s: int)
    ensures 0 <= s < ORDER && s < Pow(256, 32)
    ensures s == (k + FromBE(H("BIP0340/challenge", rb + pk + msg)) * d) % ORDER
    ensures SignatureBytes(H, pk, rb, k, d, msg) == rb + ToBE(s, 32)
  {
    SignatureIs(H, pk, rb, k, d, msg);
    ChallengeIs(H, rb, pk, msg);
    var h := FromBE(H("BIP0340/challenge", rb + pk + msg));
    hide *;
    ReducedFactor(k, h, d, ORDER);
    s := (k + h * d) % ORDER;
  }

  lemma NonceIs(H: TaggedHash, x: int, msg: Bytes, aux: Bytes, flipP: bool)
    requires GroupFacts() && 0 < x < ORDER
    ensures NonceUsed(H, x, msg, aux, flipP)
         == FromBE(H("BIP0340/nonce", Masked(Flipped(x, flipP), H("BIP0340/aux", aux)) + XOnly(x) + msg)) % ORDER
  {
    hide ORDER, GroupFacts, Flipped, XOnly, FromBE, Masked;
  }

  // ----- ECDSA -----

  /** The two numbers of the signature, for the nonce k. */
  function EcdsaR(k: int): int
    requires GroupFacts() && k % ORDER != 0
  {
    PublicPoint(k).x % ORDER
  }

  function EcdsaS(secret: int, z: int, k: int, lowS: bool): int
    requires GroupFacts() && k % ORDER != 0
  {
    var s := (Inverse(k, ORDER) * (z + secret * EcdsaR(k))) % ORDER;
    if lowS && s > ORDER_HALF then ORDER - s else s
  }

  /** sign_ecdsa with the nonce as a parameter; a nonce that is 0 modulo the order raises. */
  function SignEcdsa(secret: int, msg: Bytes, k: int, lowS: bool): Outcome<Bytes>
    requires GroupFacts() && 0 < secret < ORDER
  {
    if k % ORDER == 0 then Raised
    else
      var r, s := EcdsaR(k), EcdsaS(secret, FromBE(msg), k, lowS);
      ScalarLength(r);
      ScalarLength(s);
      Returned(Der.Encode(r, s))
  }

  function VerifyEcdsa(p: Point, sig: Bytes, msg: Bytes, lowS: bool): Outcome<bool> {
    match Der.Parse(sig)
    case Raised => Raised
    case Returned(None) => Returned(false)
    case Returned(Some((r, s))) =>
      if r < 1 || s < 1 || r >= ORDER || s >= ORDER then Returned(false)
      else if lowS && s >= ORDER_HALF then Returned(false)
      else
        var z, w := FromBE(msg), Inverse(s, ORDER);
        var q := WeightedSum([(z * w, G), (r * w, p)]);
        Returned(q.Affine? && q.x % ORDER == r)
  }

  lemma ScalarLength(n: nat)
    requires n < ORDER
    ensures Der.IntLength(n) <= 33
  {
    Two256();
    BitLengthBounds(n);
    if BitLength(n) > 256 { PowMonotone(2, 256, BitLength(n) - 1); }
  }

  /** w*(z + d*r) = w*k*s0, where s = s0 or s = -s0 and w is the inverse of s. */
  lemma RecoveredScalar(k: int, z: int, d: int, r: int, s0: int, s: int, n: int)
    requires IsPrime(n) && k % n != 0 && s % n != 0
    requires s0 == (Inverse(k, n) * (z + d * r)) % n
    requires s == s0 || s == n - s0
    ensures var w := Inverse(s, n);
            Cong(z * w + r * w * d, if s == s0 then k else -k, n)
  {
    assert n > 1;
    hide *;
    var w, i, y := Inverse(s, n), Inverse(k, n), z + d * r;
    PrimeInverse(k, n);
    PrimeInverse(s, n);
    ModSmall(1, n);
    CongSameMod(i * k, 1, n);
    CongSameMod(w * s, 1, n);
    CongMod(i * y, n);
    // k*s0 = k*i*y = y
    CongRefl(k, n);
    CongMul(k, k, s0, i * y, n);
    CongRefl(y, n);
    CongMul(i * k, 1, y, y, n);
    RecoveredTerms(k, i, w, z, d, r);
    CongTrans(k * s0, k * (i * y), y, n);
    CongSym(k * s0, y, n);
    CongRefl(w, n);
    CongMul(w, w, y, k * s0, n);
    SignedScalar(k, w, s0, s, n);
    CongTrans(w * y, w * (k * s0), if s == s0 then k else -k, n);
  }

  lemma RecoveredTerms(k: int, i: int, w: int, z: int, d: int, r: int)
    ensures k * (i * (z + d * r)) == i * k * (z + d * r)
    ensures w * (z + d * r) == z * w + r * w * d
  {
    var y := z + d * r;
    assert k * (i * y) == (k * i) * y;
    assert w * (d * r) == r * w * d by { assert d * r == r * d; }
  }

  lemma SignedScalar(k: int, w: int, s0: int, s: int, n: int)
    requires n > 0 && Cong(w * s, 1, n) && (s == s0 || s == n - s0)
    ensures Cong(w * (k * s0), if s == s0 then k else -k, n)
  {
    hide *;
    CongRefl(k, n);
    CongMul(k, k, w * s, 1, n);
    if s == s0 {
      assert w * (k * s0) == k * (w * s);
    } else {
      CongSub(0, 0, k * (w * s), k, n);
      SignedTerms(k, w, s0, n);
      CongIntro(w * (k * s0), -(k * (w * s)), w * k, n);
      CongTrans(w * (k * s0), -(k * (w * s)), -k, n);
    }
  }

  lemma SignedTerms(k: int, w: int, s0: int, n: int)
    ensures w * (k * s0) + k * (w * (n - s0)) == w * k * n
  {
    assert w * (k * s0) == w * k * s0;
    assert k * (w * (n - s0)) == w * k * (n - s0) by { assert k * (w * (n - s0)) == (k * w) * (n - s0); }
  }

  /** The verifier's point is the nonce point or its negation. */
  lemma RecoveredPoint(secret: int, z: int, k: int, lowS: bool)
    requires GroupFacts() && 0 < secret < ORDER && k % ORDER != 0 && EcdsaS(secret, z, k, lowS) % ORDER != 0
    ensures var w := Inverse(EcdsaS(secret, z, k, lowS), ORDER);
            var q := WeightedSum([(z * w, G), (EcdsaR(k) * w, Scale(secret, G))]);
            q.Affine? && q.x % ORDER == EcdsaR(k)
  {
    hide SIZE, ORDER;
    var r, s := EcdsaR(k), EcdsaS(secret, z, k, lowS);
    var w := Inverse(s, ORDER);
    var s0 := (Inverse(k, ORDER) * (z + secret * r)) % ORDER;
    RecoveredScalar(k, z, secret, r, s0, s, ORDER);
    CombinedPoint(z * w, r * w, secret, if s == s0 then k else -k);
    GeneratorOnCurve();
    ScaleNeg(k, G);
    var q := PublicPoint(k);
  }

  lemma CombinedPoint(a: int, b: int, d: int, c: int)
    requires GroupFacts() && Cong(a + b * d, c, ORDER)
    ensures WeightedSum([(a, G), (b, Scale(d, G))]) == Scale(c, G)
  {
    GeneratorOnCurve();
    ScaleMod(d, G);
    SumOfTwo(a, G, b, Scale(d, G));
    ScaleScale(b, d, G);
    ScaleAdd(a, b * d, G);
    ScaleCong(a + b * d, c, G);
  }

  lemma LowSRange(secret: int, z: int, k: int, lowS: bool)
    requires GroupFacts() && k % ORDER != 0
    ensures var s := EcdsaS(secret, z, k, lowS);
            0 <= s < ORDER && (lowS ==> s <= ORDER_HALF)
  {
    OrderFits();
  }

  /** The verifier accepts the signer's bytes exactly when r and s are nonzero and, under the low-s
      rule, s is below half the order.  A low-s signer may emit s equal to that half. */
  lemma EcdsaComplete(secret: int, msg: Bytes, k: int, lowSigner: bool, lowVerifier: bool, sig: Bytes)
    requires GroupFacts() && 0 < secret < ORDER
    requires SignEcdsa(secret, msg, k, lowSigner) == Returned(sig)
    ensures k % ORDER != 0
    ensures var r, s := EcdsaR(k), EcdsaS(secret, FromBE(msg), k, lowSigner);
            && (lowSigner ==> s <= ORDER_HALF)
            && VerifyEcdsa(Scale(secret, G), sig, msg, lowVerifier)
            == Returned(r != 0 && s != 0 && (lowVerifier ==> s < ORDER_HALF))
  {
    var r, z := EcdsaR(k), FromBE(msg);
    var s := EcdsaS(secret, z, k, lowSigner);
    LowSRange(secret, z, k, lowSigner);
    ScalarLength(r);
    ScalarLength(s);
    Der.ParseIffEncoded(sig, r, s);
    if s != 0 {
      ModSmall(s, ORDER);
      RecoveredPoint(secret, z, k, lowSigner);
    }
  }

  /** The boundary is reachable: for every key and nonce there is a message whose default signature
      has s equal to half the order, and the default verifier refuses it. */
  lemma HalfOrderRefused(secret: int, k: int) returns (msg: Bytes)
    requires GroupFacts() && 0 < secret < ORDER && k % ORDER != 0
    ensures EcdsaS(secret, FromBE(msg), k, true) == ORDER_HALF
    ensures SignEcdsa(secret, msg, k, true).Returned?
    ensures VerifyEcdsa(Scale(secret, G), SignEcdsa(secret, msg, k, true).value, msg, true) == Returned(false)
  {
    msg := HalfOrderMessage(secret, k);
    EcdsaComplete(secret, msg, k, true, true, SignEcdsa(secret, msg, k, true).value);
  }

  lemma HalfOrderMessage(secret: int, k: int) returns (msg: Bytes)
    requires GroupFacts() && k % ORDER != 0
    ensures EcdsaS(secret, FromBE(msg), k, true) == ORDER_HALF
  {
    hide ORDER;
    var y, c := k * ORDER_HALF, secret * EcdsaR(k);
    var z := (y - c) % ORDER;
    OrderFits();
    CongMod(y - c, ORDER);
    msg := ToBE(z, 32);
    BERoundTrip(z, 32);
    CongRefl(c, ORDER);
    CongAdd(z, y - c, c, c, ORDER);
    HalfScalar(k, Inverse(k, ORDER), z + c, ORDER_HALF, ORDER);
    ScalarIsHalf(secret, z, k);
  }

  lemma ScalarIsHalf(secret: int, z: int, k: int)
    requires GroupFacts() && k % ORDER != 0
    requires (Inverse(k, ORDER) * (z + secret * EcdsaR(k))) % ORDER == ORDER_HALF
    ensures EcdsaS(secret, z, k, true) == ORDER_HALF
  {
  }

  lemma HalfScalar(k: int, i: int, y: int, h: int, n: int)
    requires IsPrime(n) && k % n != 0 && i == Inverse(k, n) && 0 <= h < n && Cong(y, k * h, n)
    ensures (i * y) % n == h
  {
    PrimeInverse(k, n);
    ModSmall(1, n);
    CongSameMod(i * k, 1, n);
    CongRefl(i, n);
    CongRefl(h, n);
    CongMul(i, i, y, k * h, n);
    CongMul(i * k, 1, h, h, n);
    assert i * (k * h) == i * k * h;
    CongTrans(i * y, i * (k * h), h, n);
    CongSameMod(i * y, h, n);
    ModSmall(h, n);
  }

  // ----- what the ECDSA verifier accepts -----

  /** The ECDSA equation for a nonce k, without inverses: the nonce point has abscissa r, and s*k = z + d*r. */
  ghost predicate SignsWith(secret: int, z: int, r: int, s: int, k: int) {
    k % ORDER != 0 && Scale(k, G).Affine? && Scale(k, G).x % ORDER == r && Cong(s * k, z + secret * r, ORDER)
  }

  /** With w the inverse of s, s*k = y exactly when w*y = k. */
  lemma InverseSolves(s: int, w: int, k: int, y: int, n: int)
    requires n > 1 && Cong(w * s, 1, n)
    ensures Cong(s * k, y, n) <==> Cong(w * y, k, n)
  {
    hide *;
    CongRefl(k, n);
    CongRefl(y, n);
    CongRefl(w, n);
    CongRefl(s, n);
    if Cong(s * k, y, n) {
      CongMul(w, w, s * k, y, n);
      CongSym(w * (s * k), w * y, n);
      CongMul(w * s, 1, k, k, n);
      assert w * (s * k) == w * s * k;
      CongTrans(w * y, w * s * k, k, n);
    }
    if Cong(w * y, k, n) {
      CongMul(s, s, w * y, k, n);
      CongSym(s * (w * y), s * k, n);
      CongMul(w * s, 1, y, y, n);
      ThreeFactors(s, w, y);
      CongTrans(s * k, w * s * y, y, n);
    }
  }

  lemma ThreeFactors(s: int, w: int, y: int)
    ensures s * (w * y) == w * s * y
  {
    assert s * (w * y) == (s * w) * y;
  }

  /** What the verifier does with two numbers in range. */
  lemma VerifyNumbers(p: Point, r: nat, s: nat, msg: Bytes, lowS: bool)
    requires 1 <= r < ORDER && 1 <= s < ORDER
    ensures Der.IntLength(r) <= 33 && Der.IntLength(s) <= 33
    ensures var w := Inverse(s, ORDER);
            var q := WeightedSum([(FromBE(msg) * w, G), (r * w, p)]);
            VerifyEcdsa(p, Der.Encode(r, s), msg, lowS)
            == Returned((lowS ==> s < ORDER_HALF) && q.Affine? && q.x % ORDER == r)
  {
    ScalarLength(r);
    ScalarLength(s);
    Der.ParseIffEncoded(Der.Encode(r, s), r, s);
    hide ORDER, SIZE, WeightedSum, Inverse, Der.Parse, Der.Encode;
  }

  /** Two numbers in range are accepted exactly when some nonce solves the ECDSA equation with them, and the
      low-s rule allows s. */
  lemma EcdsaSound(secret: int, r: nat, s: nat, msg: Bytes, lowS: bool)
    requires GroupFacts() && 0 < secret < ORDER && 1 <= r < ORDER && 1 <= s < ORDER
    ensures Der.IntLength(r) <= 33 && Der.IntLength(s) <= 33
    ensures VerifyEcdsa(Scale(secret, G), Der.Encode(r, s), msg, lowS) == Returned(true)
       <==> (lowS ==> s < ORDER_HALF) && exists k :: SignsWith(secret, FromBE(msg), r, s, k)
  {
    hide *;
    var z, w := FromBE(msg), Inverse(s, ORDER);
    var u := z * w + r * w * secret;
    VerifyNumbers(Scale(secret, G), r, s, msg, lowS);
    RecoveredMultiple(z * w, r * w, secret);
    Solution(secret, z, r, s, u);
    SignsWithIs(secret, z, r, s, u);
    if k :| SignsWith(secret, z, r, s, k) {
      SignsWithIs(secret, z, r, s, k);
      Solution(secret, z, r, s, k);
      SameMultiple(u, k);
    }
  }

  lemma RecoveredMultiple(a: int, b: int, d: int)
    requires GroupFacts()
    ensures var q := WeightedSum([(a, G), (b, Scale(d, G))]);
            q == Scale(a + b * d, G) && (q.Affine? <==> (a + b * d) % ORDER != 0)
    ensures Cong(a + b * d, a + b * d, ORDER)
  {
    assert ORDER > 0;
    hide *;
    CongRefl(a + b * d, ORDER);
    CombinedPoint(a, b, d, a + b * d);
    ScaleOnCurve(a + b * d);
    ScaleFinite(a + b * d, G);
  }

  /** The equation without inverses has the verifier's scalar as its one solution. */
  lemma Solution(secret: int, z: int, r: int, s: int, k: int)
    requires GroupFacts() && 1 <= s < ORDER
    ensures var w := Inverse(s, ORDER); Cong(s * k, z + secret * r, ORDER) <==> Cong(z * w + r * w * secret, k, ORDER)
  {
    assert IsPrime(ORDER) && ORDER > 1;
    hide *;
    var w := Inverse(s, ORDER);
    ModSmall(s, ORDER);
    PrimeInverse(s, ORDER);
    ModSmall(1, ORDER);
    CongSameMod(w * s, 1, ORDER);
    RecoveredTerms(0, 0, w, z, secret, r);
    InverseSolves(s, w, k, z + secret * r, ORDER);
  }

  lemma SignsWithIs(secret: int, z: int, r: int, s: int, k: int)
    ensures SignsWith(secret, z, r, s, k)
       <==> k % ORDER != 0 && Scale(k, G).Affine? && Scale(k, G).x % ORDER == r && Cong(s * k, z + secret * r, ORDER)
  {
    hide Scale, ORDER, Cong;
  }

  /** Whatever is accepted, under whatever key, encodes two numbers in range. */
  lemma EcdsaRange(p: Point, sig: Bytes, msg: Bytes, lowS: bool) returns (r: nat, s: nat)
    requires VerifyEcdsa(p, sig, msg, lowS) == Returned(true)
    ensures 1 <= r < ORDER && 1 <= s < ORDER && Der.IntLength(r) <= 33 && Der.IntLength(s) <= 33
    ensures sig == Der.Encode(r, s) && (lowS ==> s < ORDER_HALF)
  {
    hide ORDER, SIZE, WeightedSum, Inverse, Der.Parse, Der.Encode;
    var t := Der.Parse(sig).value.value;
    r, s := t.0, t.1;
    ScalarLength(r);
    ScalarLength(s);
    Der.ParseIffEncoded(sig, r, s);
  }

  /** What the signer emits: the two numbers of the equation for its nonce, with s negated when it is high and
      low s is asked for. */
  lemma EcdsaSigned(secret: int, msg: Bytes, k: int, lowS: bool)
    requires GroupFacts() && 0 < secret < ORDER
    ensures SignEcdsa(secret, msg, k, lowS).Raised? <==> k % ORDER == 0
    ensures k % ORDER != 0 ==>
              var (r, s) := (EcdsaR(k), EcdsaS(secret, FromBE(msg), k, false));
              var low := if lowS && s > ORDER_HALF then ORDER - s else s;
              && 0 <= r < ORDER && 0 <= s < ORDER && 0 <= low
              && Der.IntLength(r) <= 33 && Der.IntLength(low) <= 33
              && SignEcdsa(secret, msg, k, lowS) == Returned(Der.Encode(r, low))
              && Scale(k, G).Affine? && r == Scale(k, G).x % ORDER
              && Cong(s * k, FromBE(msg) + secret * r, ORDER)
  {
    hide *;
    EmittedIs(secret, msg, k, lowS);
    if k % ORDER != 0 {
      LowSRange(secret, FromBE(msg), k, false);
      LowSRange(secret, FromBE(msg), k, lowS);
      HighOrLow(secret, FromBE(msg), k, lowS);
      SignerSolves(secret, FromBE(msg), k);
    }
  }

  lemma SignerSolves(secret: int, z: int, k: int)
    requires GroupFacts() && k % ORDER != 0
    ensures Cong(EcdsaS(secret, z, k, false) * k, z + secret * EcdsaR(k), ORDER)
  {
    OrderPrime();
    hide *;
    HighOrLow(secret, z, k, false);
    PrimeInverse(k, ORDER);
    SolvedScalar(k, Inverse(k, ORDER), z + secret * EcdsaR(k), EcdsaS(secret, z, k, false), ORDER);
  }

  lemma OrderPrime()
    requires GroupFacts()
    ensures IsPrime(ORDER) && ORDER > 1
  {
  }

  lemma EmittedIs(secret: int, msg: Bytes, k: int, lowS: bool)
    requires GroupFacts() && 0 < secret < ORDER
    ensures SignEcdsa(secret, msg, k, lowS).Raised? <==> k % ORDER == 0
    ensures k % ORDER != 0 ==>
              var (r, s) := (EcdsaR(k), EcdsaS(secret, FromBE(msg), k, lowS));
              && 0 <= r && 0 <= s && Der.IntLength(r) <= 33 && Der.IntLength(s) <= 33
              && SignEcdsa(secret, msg, k, lowS) == Returned(Der.Encode(r, s))
  {
    hide ORDER, SIZE, GroupFacts, EcdsaS, Der.Encode;
    if k % ORDER != 0 {
      LowSRange(secret, FromBE(msg), k, lowS);
      RRange(k);
      ScalarLength(EcdsaR(k));
      ScalarLength(EcdsaS(secret, FromBE(msg), k, lowS));
    }
  }

  lemma RRange(k: int)
    requires GroupFacts() && k % ORDER != 0
    ensures 0 <= EcdsaR(k) < ORDER && Scale(k, G).Affine? && EcdsaR(k) == Scale(k, G).x % ORDER
  {
    hide ORDER, Scale;
  }

  lemma HighOrLow(secret: int, z: int, k: int, lowS: bool)
    requires GroupFacts() && k % ORDER != 0
    ensures var s := EcdsaS(secret, z, k, false);
            && s == (Inverse(k, ORDER) * (z + secret * EcdsaR(k))) % ORDER
            && EcdsaS(secret, z, k, lowS) == (if lowS && s > ORDER_HALF then ORDER - s else s)
            && 0 <= EcdsaR(k) < ORDER && Scale(k, G).Affine? && EcdsaR(k) == Scale(k, G).x % ORDER
  {
    RRange(k);
    hide EcdsaR, ORDER;
  }

  lemma SolvedScalar(k: int, i: int, y: int, s: int, n: int)
    requires n > 1 && (i * k) % n == 1 && s == (i * y) % n
    ensures Cong(s * k, y, n)
  {
    hide *;
    ModSmall(1, n);
    CongSameMod(i * k, 1, n);
    CongMod(i * y, n);
    CongRefl(k, n);
    CongRefl(y, n);
    CongMul(s, i * y, k, k, n);
    CongMul(i * k, 1, y, y, n);
    ThreeFactors(k, i, y);
    assert i * y * k == k * (i * y) && i * k * y == k * (i * y);
    CongTrans(s * k, k * (i * y), y, n);
  }

  // ----- key objects -----

  class ECPubKey {
    var p: Option<Point>
    var compressed: bool

    ghost predicate Valid()
      reads this
    {
      p.Some? ==> OnCurve(p.value) && p.value.Affine?
    }

    constructor ()
      ensures Valid() && p == None
    {
      p := None;
    }

    /** Decode a serialized key; an exception leaves both fields alone. */
    method Set(data: Bytes) returns (raised: bool)
      requires IsPrime(SIZE) && Valid() && (|data| == 33 || |data| == 65)
      modifies this
      ensures Valid() && raised == FromBytes(data).Raised?
      ensures raised ==> p == old(p) && compressed == old(compressed)
      ensures !raised ==> FromBytes(data) == Returned(p) && compressed == (|data| == 33)
    {
      match FromBytes(data)
      case Raised => return true;
      case Returned(q) =>
        if q.Some? { DecodedOnCurve(data, q.value); }
        p := q;
        compressed := |data| == 33;
        return false;
    }

    /** The serialization, which Set reads back as the same point. */
    method GetBytes() returns (data: Bytes)
      requires IsPrime(SIZE) && Valid() && p.Some?
      ensures |data| == if compressed then 33 else 65
      ensures FromBytes(data) == Returned(p)
    {
      PointRoundTrip(p.value);
      data := if compressed then ToBytesCompressed(p.value) else ToBytesUncompressed(p.value);
    }
  }

  class ECKey {
    var valid: bool
    var secret: int
    var compressed: bool

    ghost predicate Valid()
      reads this
    {
      valid ==> 0 < secret < ORDER
    }

    constructor ()
      ensures Valid() && !valid
    {
      valid := false;
    }

    method Set(data: Bytes32, compress: bool)
      requires Valid()
      modifies this
      ensures Valid() && valid == (0 < FromBE(data) < ORDER)
      ensures valid ==> secret == FromBE(data) && compressed == compress
      ensures !valid ==> secret == old(secret) && compressed == old(compressed)
    {
      var s := FromBE(data);
      valid := 0 < s < ORDER;
      if valid {
        secret := s;
        compressed := compress;
      }
    }

    method GetPubkey() returns (ret: ECPubKey)
      requires GroupFacts() && Valid() && valid
      ensures fresh(ret) && ret.Valid() && ret.p == Some(Scale(secret, G)) && ret.compressed == compressed
    {
      ret := new ECPubKey();
      ValidSecret(secret);
      ret.p := Some(PublicPoint(secret));
      ret.compressed := compressed;
    }
  }
}
