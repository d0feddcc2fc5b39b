/** lift_x, the generator, and the byte encodings of curve points. */
module PointCodec {
  import opened NumberTheory
  import opened Bytes
  import opened Field
  import opened Curve

  /** A call that returns, or raises an exception. */
  datatype Outcome<+T> = Returned(value: T) | Raised

  function LiftX(x: int): Option<Point> {
    var s := FSqrt(Cube7(x));
    if !s.0 then None else Some(Affine(x, if s.1 % 2 == 0 then s.1 else FNeg(s.1)))
  }

  /** A field element has at most two square roots, and their parities differ. */
  lemma RootsOpposite(y: int, z: int, p: int)
    requires IsPrime(p) && p % 2 == 1 && 0 <= y < p && 0 <= z < p
    requires (y * y) % p == (z * z) % p && y % 2 == z % 2
    ensures y == z
  {
    assert p > 1;
    hide *;
    SquaresDiffer(y, z, p);
    PrimeDivides(y - z, y + z, p);
    CongZero(y, z, p);
    if (y - z) % p == 0 {
      CongUnique(y, z, p);
    } else {
      SumIsMultiple(y + z, p);
      OddSum(y, z, p);
    }
  }

  lemma OddSum(y: int, z: int, p: int)
    requires p % 2 == 1 && y % 2 == z % 2
    ensures y + z != p
  {
  }

  lemma SquaresDiffer(y: int, z: int, p: int)
    requires p > 0 && (y * y) % p == (z * z) % p
    ensures ((y - z) * (y + z)) % p == 0
  {
    hide *;
    CongSameMod(y * y, z * z, p);
    CongZero(y * y, z * z, p);
    FactorSquares(y, z);
  }

  lemma FactorSquares(y: int, z: int)
    ensures (y - z) * (y + z) == y * y - z * z
  {
  }

  lemma CongZero(a: int, b: int, m: int)
    requires m > 0
    ensures Cong(a, b, m) <==> (a - b) % m == 0
  {
  }

  lemma SumIsMultiple(s: int, p: int)
    requires p > 0 && 0 <= s < 2 * p && s % p == 0
    ensures s == 0 || s == p
  {
    if s >= p { QuotientUnique(s, p, 1, s - p); } else { ModSmall(s, p); }
  }

  /** A root of the right-hand side, of either parity, gives the even point. */
  lemma EvenRoot(x: int, y: int)
    requires IsPrime(SIZE) && 0 <= x < SIZE && 0 <= y < SIZE && FMul(y, y) == Cube7(x)
    ensures var e := if y % 2 == 0 then y else FNeg(y);
            e % 2 == 0 && OnCurve(Affine(x, e))
  {
    Squares(y);
    assert OnCurve(Affine(x, y));
    NegOnCurve(Affine(x, y));
    NegParity(y);
  }

  lemma EvenPointUnique(q: Point, r: Point)
    requires IsPrime(SIZE) && OnCurve(q) && OnCurve(r) && q.Affine? && r.Affine?
    requires q.x == r.x && q.y % 2 == r.y % 2
    ensures q == r
  {
    Squares(q.y);
    Squares(r.y);
    SizeIs();
    RootsOpposite(q.y, r.y, SIZE);
  }

  lemma LiftXFinds(x: int)
    requires IsPrime(SIZE) && 0 <= x < SIZE
    ensures LiftX(x).Some? <==> IsSquare(Cube7(x))
    ensures LiftX(x).Some? ==> var r := LiftX(x).value; OnCurve(r) && r.Affine? && r.x == x && r.y % 2 == 0
  {
    SqrtComplete(Cube7(x));
    if FSqrt(Cube7(x)).0 { EvenRoot(x, FSqrt(Cube7(x)).1); }
  }

  /** lift_x returns the one curve point with this abscissa and an even ordinate, if there is one. */
  lemma LiftXIs(x: int, q: Point)
    requires IsPrime(SIZE) && 0 <= x < SIZE
    ensures LiftX(x) == Some(q) <==> OnCurve(q) && q.Affine? && q.x == x && q.y % 2 == 0
  {
    LiftXFinds(x);
    if OnCurve(q) && q.Affine? && q.x == x && q.y % 2 == 0 {
      IsSquareIntro(q);
      EvenPointUnique(q, LiftX(x).value);
    }
  }

  lemma IsSquareIntro(q: Point)
    requires OnCurve(q) && q.Affine?
    ensures IsSquare(Cube7(q.x))
  {
    Squares(q.y);
    assert FMul(q.y, q.y) == Cube7(q.x);
  }

  /** The coordinates of the generator, most significant byte first. */
  const GX_BYTES: Bytes := [
    0x79, 0xBE, 0x66, 0x7E, 0xF9, 0xDC, 0xBB, 0xAC, 0x55, 0xA0, 0x62, 0x95, 0xCE, 0x87, 0x0B, 0x07,
    0x02, 0x9B, 0xFC, 0xDB, 0x2D, 0xCE, 0x28, 0xD9, 0x59, 0xF2, 0x81, 0x5B, 0x16, 0xF8, 0x17, 0x98]

  const GY_BYTES: Bytes := [
    0x48, 0x3A, 0xDA, 0x77, 0x26, 0xA3, 0xC4, 0x65, 0x5D, 0xA4, 0xFB, 0xFC, 0x0E, 0x11, 0x08, 0xA8,
    0xFD, 0x17, 0xB4, 0x48, 0xA6, 0x85, 0x54, 0x19, 0x9C, 0x47, 0xD0, 0x8F, 0xFB, 0x10, 0xD4, 0xB8]

  const GX: nat := FromBE(GX_BYTES)
  const GY: nat := FromBE(GY_BYTES)
  const G: Point := Affine(GX, GY)

  lemma FourBytes(b: Bytes)
    requires |b| == 4
    ensures FromBE(b) == b[0] as int * 0x100_0000 + b[1] as int * 0x1_0000 + b[2] as int * 0x100 + b[3]
  {
    var c := b[..3];
    var d := c[..2];
    assert c == b[..3] && d == b[..2] && d[..1] == b[..1] && b[..1][..0] == [];
    assert FromBE(b[..1]) == b[0];
    assert FromBE(d) == FromBE(b[..1]) * 256 + b[1];
    assert FromBE(c) == FromBE(d) * 256 + b[2];
  }

  lemma EightBytes(b: Bytes)
    requires |b| == 8
    ensures FromBE(b) == FromBE(b[..4]) * 0x1_0000_0000 + FromBE(b[4..])
  {
    hide FromBE;
    WordPowers();
    BEConcat(b[..4], b[4..]);
    assert b == b[..4] + b[4..];
  }

  lemma WordPowers()
    ensures Pow(256, 4) == 0x1_0000_0000 && Pow(256, 8) == 0x1_0000_0000_0000_0000
    ensures Pow(256, 16) == 0x1_0000_0000_0000_0000_0000_0000_0000_0000
  {
    assert Pow(256, 4) == 0x1_0000_0000;
    PowAdd(256, 4, 4);
    PowAdd(256, 8, 8);
  }

  lemma FourWords(b: Bytes)
    requires |b| == 32
    ensures FromBE(b) == (FromBE(b[..8]) * 0x1_0000_0000_0000_0000 + FromBE(b[8..16]))
            * 0x1_0000_0000_0000_0000_0000_0000_0000_0000
                         + FromBE(b[16..24]) * 0x1_0000_0000_0000_0000 + FromBE(b[24..])
  {
    hide FromBE, Pow;
    WordPowers();
    BEConcat(b[..16], b[16..]);
    BEConcat(b[..8], b[8..16]);
    BEConcat(b[16..24], b[24..]);
    assert b == b[..16] + b[16..] && b[..16] == b[..8] + b[8..16] && b[16..] == b[16..24] + b[24..];
  }

  /** Eight bytes from position i on, as one number. */
  lemma WordAt(b: Bytes, i: nat)
    requires i + 8 <= |b|
    ensures FromBE(b[i..i + 8])
         == (b[i] as int * 0x100_0000 + b[i + 1] as int * 0x1_0000 + b[i + 2] as int * 0x100 + b[i + 3]) * 0x1_0000_0000
            + (b[i + 4] as int * 0x100_0000 + b[i + 5] as int * 0x1_0000 + b[i + 6] as int * 0x100 + b[i + 7])
  {
    hide FromBE;
    var w := b[i..i + 8];
    EightBytes(w);
    FourBytes(w[..4]);
    FourBytes(w[4..]);
  }

  lemma Coordinate(b: Bytes)
    requires |b| == 32
    ensures FromBE(b) == (FromBE(b[0..8]) * 0x1_0000_0000_0000_0000 + FromBE(b[8..16]))
            * 0x1_0000_0000_0000_0000_0000_0000_0000_0000
                         + FromBE(b[16..24]) * 0x1_0000_0000_0000_0000 + FromBE(b[24..32])
  {
    hide FromBE;
    FourWords(b);
    assert b[0..8] == b[..8] && b[24..32] == b[24..];
  }

  lemma AbscissaIs()
    ensures GX == 0x79BE667EF9DCBBAC55A06295CE870B07029BFCDB2DCE28D959F2815B16F81798
  {
    hide FromBE;
    Coordinate(GX_BYTES);
    WordAt(GX_BYTES, 0);
    WordAt(GX_BYTES, 8);
    WordAt(GX_BYTES, 16);
    WordAt(GX_BYTES, 24);
  }

  lemma OrdinateIs()
    ensures GY == 0x483ADA7726A3C4655DA4FBFC0E1108A8FD17B448A68554199C47D08FFB10D4B8
  {
    hide FromBE;
    Coordinate(GY_BYTES);
    WordAt(GY_BYTES, 0);
    WordAt(GY_BYTES, 8);
    WordAt(GY_BYTES, 16);
    WordAt(GY_BYTES, 24);
  }

  lemma GeneratorOnCurve()
    ensures OnCurve(G)
  {
    assert G == Affine(GX, GY);
    hide *;
    SizeIs();
    AbscissaIs();
    OrdinateIs();
    GeneratorEquation();
    OnCurveIntro(GX, GY);
  }

  /** The curve equation at the generator, by computation. */
  lemma GeneratorEquation()
    ensures Pow(0x483ADA7726A3C4655DA4FBFC0E1108A8FD17B448A68554199C47D08FFB10D4B8, 2)
            % 0xFFFFFFFFFFFFFFFFFFFFFFFFFFFFFFFFFFFFFFFFFFFFFFFFFFFFFFFEFFFFFC2F
         == (Pow(0x79BE667EF9DCBBAC55A06295CE870B07029BFCDB2DCE28D959F2815B16F81798, 3)
             % 0xFFFFFFFFFFFFFFFFFFFFFFFFFFFFFFFFFFFFFFFFFFFFFFFFFFFFFFFEFFFFFC2F + 7)
            % 0xFFFFFFFFFFFFFFFFFFFFFFFFFFFFFFFFFFFFFFFFFFFFFFFFFFFFFFFEFFFFFC2F
  {
    hide *;
    OrdinateSquared();
    AbscissaCubed();
  }

  lemma OrdinateSquared()
    ensures Pow(0x483ADA7726A3C4655DA4FBFC0E1108A8FD17B448A68554199C47D08FFB10D4B8, 2)
            % 0xFFFFFFFFFFFFFFFFFFFFFFFFFFFFFFFFFFFFFFFFFFFFFFFFFFFFFFFEFFFFFC2F
         == 0x4866D6A5AB41AB2C6BCC57CCD3735DA5F16F80A548E5E20A44E4E9B8118C26F2
  {
    hide *;
    Squares(0x483ADA7726A3C4655DA4FBFC0E1108A8FD17B448A68554199C47D08FFB10D4B8);
  }

  lemma AbscissaCubed()
    ensures Pow(0x79BE667EF9DCBBAC55A06295CE870B07029BFCDB2DCE28D959F2815B16F81798, 3)
            % 0xFFFFFFFFFFFFFFFFFFFFFFFFFFFFFFFFFFFFFFFFFFFFFFFFFFFFFFFEFFFFFC2F
         == 0x4866D6A5AB41AB2C6BCC57CCD3735DA5F16F80A548E5E20A44E4E9B8118C26EB
  {
    hide *;
    Squares(0x79BE667EF9DCBBAC55A06295CE870B07029BFCDB2DCE28D959F2815B16F81798);
  }

  /** The generator of the program is lift_x of its abscissa. */
  lemma GeneratorIsLiftX()
    requires IsPrime(SIZE)
    ensures LiftX(GX) == Some(G)
  {
    GeneratorOnCurve();
    OrdinateIs();
    assert G == Affine(GX, GY) && GY % 2 == 0;
    hide *;
    LiftXIs(GX, G);
  }

  // ----- encodings -----

  function ToBytesXOnly(q: Point): Bytes32
    requires q.Affine? && 0 <= q.x < SIZE
  {
    Two256();
    ToBE(q.x, 32)
  }

  function ToBytesCompressed(q: Point): (b: Bytes)
    requires q.Affine? && 0 <= q.x < SIZE
  {
    [if q.y % 2 == 0 then 2 else 3] + ToBytesXOnly(q)
  }

  function ToBytesUncompressed(q: Point): (b: Bytes)
    requires q.Affine? && 0 <= q.x < SIZE && 0 <= q.y < SIZE
  {
    Two256();
    [4] + ToBytesXOnly(q) + ToBE(q.y, 32)
  }

  function FromBytesXOnly(b: Bytes32): Option<Point> {
    if FromBE(b) >= SIZE then None else LiftX(FromBE(b))
  }

  function FromBytes(b: Bytes): Outcome<Option<Point>>
    requires |b| == 33 || |b| == 65
  {
    if |b| == 33 then
      if b[0] != 2 && b[0] != 3 then Returned(None)
      else
        match FromBytesXOnly(b[1..])
        case None => Returned(None)
        case Some(r) => Returned(Some(if b[0] == 3 then NegPoint(r) else r))
    else if b[0] != 4 then Returned(None)
    else
      var x, y := FromBE(b[1..33]), FromBE(b[33..]);
      if x >= SIZE || y >= SIZE then Raised
      else if FPow(y, 2) != Cube7(x) then Returned(None)
      else Returned(Some(Affine(x, y)))
  }

  lemma XOnlyRoundTrip(q: Point)
    requires IsPrime(SIZE) && OnCurve(q) && q.Affine?
    ensures FromBE(ToBytesXOnly(q)) == q.x
    ensures FromBytesXOnly(ToBytesXOnly(q)) == Some(if q.y % 2 == 0 then q else NegPoint(q))
  {
    Two256();
    BERoundTrip(q.x, 32);
    NegOnCurve(q);
    NegParity(q.y);
    LiftXIs(q.x, if q.y % 2 == 0 then q else NegPoint(q));
  }

  /** Both encodings decode to the point they came from, the compressed one through lift_x. */
  lemma PointRoundTrip(q: Point)
    requires IsPrime(SIZE) && OnCurve(q) && q.Affine?
    ensures FromBytes(ToBytesCompressed(q)) == Returned(Some(q))
    ensures FromBytes(ToBytesUncompressed(q)) == Returned(Some(q))
  {
    XOnlyRoundTrip(q);
    NegOnCurve(q);
    var c, u := ToBytesCompressed(q), ToBytesUncompressed(q);
    assert c[1..] == ToBytesXOnly(q);
    Two256();
    BERoundTrip(q.x, 32);
    BERoundTrip(q.y, 32);
    assert u[1..33] == ToBE(q.x, 32) && u[33..] == ToBE(q.y, 32);
  }

  /** Whatever decodes is a finite point of the curve. */
  lemma DecodedOnCurve(b: Bytes, q: Point)
    requires IsPrime(SIZE) && (|b| == 33 || |b| == 65) && FromBytes(b) == Returned(Some(q))
    ensures OnCurve(q) && q.Affine?
  {
    if |b| == 33 {
      var x := FromBE(b[1..]);
      var r := LiftX(x).value;
      LiftXIs(x, r);
      NegOnCurve(r);
    }
  }
}
