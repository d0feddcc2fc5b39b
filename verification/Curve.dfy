/** Points of y^2 = x^3 + 7 over GF(SIZE): the addition law on values, and the proof that it stays on
    the curve and commutes. */
module Curve {
  import opened NumberTheory
  import opened Field

  datatype Point = Infinity | Affine(x: int, y: int)

  function Cube7(x: int): int { FAdd(FPow(x, 3), 7) }

  ghost predicate OnCurve(q: Point) {
    q.Affine? ==> 0 <= q.x < SIZE && 0 <= q.y < SIZE && FPow(q.y, 2) == Cube7(q.x)
  }

  function NegPoint(q: Point): Point {
    if q.Infinity? then q else Affine(q.x, FNeg(q.y))
  }

  /** The slope of the tangent, or of the line through two points. */
  function Slope(p: Point, q: Point): int
    requires p.Affine? && q.Affine?
  {
    if p.x == q.x then FDiv(FMul(3, FPow(p.x, 2)), FMul(2, p.y))
    else FDiv(FSub(p.y, q.y), FSub(p.x, q.x))
  }

  /** The addition law.  Opposite points, a point with y = 0 included, add up to infinity. */
  function AddPoints(p: Point, q: Point): Point {
    if p.Infinity? then q
    else if q.Infinity? then p
    else if p.x == q.x && (p.y != q.y || p.y == 0) then Infinity
    else
      var lam := Slope(p, q);
      var x := FSub(FPow(lam, 2), FAdd(p.x, q.x));
      Affine(x, FSub(FMul(lam, FSub(p.x, x)), p.y))
  }

  // ----- the curve equation as a congruence -----

  ghost predicate CurveEq(x: int, y: int, p: int)
    requires p > 0
  {
    Cong(y * y, x * x * x + 7, p)
  }

  lemma Squares(x: int)
    ensures Pow(x, 2) == x * x && Pow(x, 3) == x * x * x
  {
    assert Pow(x, 1) == x * Pow(x, 0);
    assert Pow(x, 2) == x * Pow(x, 1);
    assert Pow(x, 3) == x * Pow(x, 2);
  }

  lemma EquationCong(x: int, y: int, p: int)
    requires p > 0
    ensures Pow(y, 2) % p == (Pow(x, 3) % p + 7) % p <==> CurveEq(x, y, p)
  {
    Squares(x);
    Squares(y);
    CongMod(x * x * x, p);
    CongRefl(7, p);
    CongAdd((x * x * x) % p, x * x * x, 7, 7, p);
    CongSameMod((x * x * x) % p + 7, x * x * x + 7, p);
    CongSameMod(y * y, x * x * x + 7, p);
  }

  /** How far the point with abscissa x on the line through (x1, y1) of slope lam is from the curve. */
  function Residue(lam: int, x1: int, y1: int, x: int): int {
    x * x * x + 7 - (lam * (x - x1) + y1) * (lam * (x - x1) + y1)
  }

  /** Residue as a monic cubic in x. */
  function Cubic(s: int, t: int, u: int, x: int): int {
    x * x * x - s * (x * x) + t * x + u
  }

  lemma ResidueCubic(lam: int, x1: int, y1: int, x: int)
    ensures var m := lam * x1 - y1;
            Residue(lam, x1, y1, x) == Cubic(lam * lam, 2 * (lam * m), 7 - m * m, x)
  {
    var m := lam * x1 - y1;
    var l := lam * x;
    assert lam * (x - x1) + y1 == l - m;
    assert (l - m) * (l - m) == l * l - 2 * (l * m) + m * m;
    assert l * l == (lam * lam) * (x * x);
    assert l * m == (lam * m) * x;
    assert 2 * (lam * m) * x == 2 * ((lam * m) * x);
  }

  /** What is left of a monic cubic at a when its x^2 coefficient is that of (x-a)(x-b)(x-c). */
  lemma LinearAt(a: int, b: int, c: int, s: int, e2: int, e3: int, t: int, u: int)
    requires s == a + b + c && e2 == a * b + a * c + b * c && e3 == a * b * c
    ensures Cubic(s, t, u, a) == (t - e2) * a + (u + e3)
  {
    calc {
      s * (a * a);
      a * a * a + b * (a * a) + c * (a * a);
    }
    calc {
      e2 * a;
      a * b * a + a * c * a + b * c * a;
    }
    assert b * (a * a) == a * b * a && c * (a * a) == a * c * a && b * c * a == a * b * c;
    assert (t - e2) * a == t * a - e2 * a;
  }

  /** The third root of a cubic: a combination of the values at the other two. */
  lemma ThirdRoot(a: int, b: int, c: int, s: int, t: int, u: int)
    requires s == a + b + c
    ensures (a - b) * Cubic(s, t, u, c) == Cubic(s, t, u, a) * (c - b) - Cubic(s, t, u, b) * (c - a)
  {
    var e2, e3 := a * b + a * c + b * c, a * b * c;
    LinearAt(a, b, c, s, e2, e3, t, u);
    Products(a, b, c);
    LinearAt(b, a, c, s, e2, e3, t, u);
    LinearAt(c, a, b, s, e2, e3, t, u);
    LineThrough(a, b, c, t - e2, u + e3);
  }

  lemma Products(a: int, b: int, c: int)
    ensures a * b + a * c + b * c == b * a + b * c + a * c == c * a + c * b + a * b
    ensures a * b * c == b * a * c == c * a * b
  {
  }

  lemma LineThrough(a: int, b: int, c: int, k: int, l: int)
    ensures (a - b) * (k * c + l) == (k * a + l) * (c - b) - (k * b + l) * (c - a)
  {
    assert (k * a + l) * (c - b) == (k * a) * c - (k * a) * b + l * c - l * b;
    assert (k * b + l) * (c - a) == (k * b) * c - (k * b) * a + l * c - l * a;
    assert (k * a) * b == (k * b) * a;
    assert (a - b) * (k * c + l) == a * (k * c) - b * (k * c) + a * l - b * l;
    assert a * (k * c) == (k * a) * c && b * (k * c) == (k * b) * c;
  }

  /** With a double root at a: the value at c from the value and the derivative at a. */
  lemma DoubleRoot(a: int, c: int, s: int, t: int, u: int)
    requires s == a + a + c
    ensures Cubic(s, t, u, c) == (3 * (a * a) - 2 * (s * a) + t) * (c - a) + Cubic(s, t, u, a)
  {
    hide *;
    var e2, e3 := a * a + a * c + a * c, a * a * c;
    LinearAt(a, a, c, s, e2, e3, t, u);
    assert c * a + c * a + a * a == e2 && c * a * a == e3;
    LinearAt(c, a, a, s, e2, e3, t, u);
    assert s * a == a * a + a * a + c * a;
    assert 3 * (a * a) - 2 * (s * a) + t == t - e2;
    assert (t - e2) * c - (t - e2) * a == (t - e2) * (c - a);
  }

  // ----- the third intersection of a line with the curve, modulo a prime -----

  lemma ResidueAtPoint(lam: int, x1: int, y1: int, x: int, y: int, p: int)
    requires p > 0 && CurveEq(x, y, p) && Cong(lam * (x - x1) + y1, y, p)
    ensures Cong(Residue(lam, x1, y1, x), 0, p)
  {
    var z := lam * (x - x1) + y1;
    CongMul(z, y, z, y, p);
    CongTrans(z * z, y * y, x * x * x + 7, p);
    CongSym(z * z, x * x * x + 7, p);
  }

  lemma ChordThird(lam: int, x1: int, y1: int, x2: int, y2: int, p: int)
    requires IsPrime(p) && CurveEq(x1, y1, p) && CurveEq(x2, y2, p)
    requires (x1 - x2) % p != 0 && Cong(lam * (x1 - x2), y1 - y2, p)
    ensures var c := lam * lam - (x1 + x2);
            CurveEq(c, lam * (x1 - c) - y1, p)
  {
    var c := lam * lam - (x1 + x2);
    var m := lam * x1 - y1;
    var t, u := 2 * (lam * m), 7 - m * m;
    ResidueCubic(lam, x1, y1, x1);
    ResidueCubic(lam, x1, y1, x2);
    ResidueCubic(lam, x1, y1, c);
    ThirdRoot(x1, x2, c, lam * lam, t, u);
    var f1, f2, f3 := Residue(lam, x1, y1, x1), Residue(lam, x1, y1, x2), Residue(lam, x1, y1, c);
    CongRefl(y1, p);
    assert lam * (x1 - x1) == 0;
    ResidueAtPoint(lam, x1, y1, x1, y1, p);
    CongSub(y1, y1, lam * (x1 - x2), y1 - y2, p);
    assert y1 - lam * (x1 - x2) == lam * (x2 - x1) + y1;
    ResidueAtPoint(lam, x1, y1, x2, y2, p);
    CongRefl(c - x2, p);
    CongRefl(c - x1, p);
    CongMul(f1, 0, c - x2, c - x2, p);
    CongMul(f2, 0, c - x1, c - x1, p);
    CongSub(f1 * (c - x2), 0, f2 * (c - x1), 0, p);
    PrimeDivides(x1 - x2, f3, p);
    ThirdPoint(lam, x1, y1, c, p);
  }

  lemma Derivative(lam: int, x1: int, y1: int)
    ensures 3 * (x1 * x1) - 2 * (lam * lam * x1) + 2 * (lam * (lam * x1 - y1)) == 3 * (x1 * x1) - lam * (2 * y1)
  {
    assert lam * (lam * x1 - y1) == lam * lam * x1 - lam * y1;
  }

  lemma TangentThird(lam: int, x1: int, y1: int, p: int)
    requires IsPrime(p) && CurveEq(x1, y1, p) && Cong(lam * (2 * y1), 3 * (x1 * x1), p)
    ensures var c := lam * lam - (x1 + x1);
            CurveEq(c, lam * (x1 - c) - y1, p)
  {
    var c := lam * lam - (x1 + x1);
    var m := lam * x1 - y1;
    var t, u := 2 * (lam * m), 7 - m * m;
    ResidueCubic(lam, x1, y1, x1);
    ResidueCubic(lam, x1, y1, c);
    DoubleRoot(x1, c, lam * lam, t, u);
    var f1, f3 := Residue(lam, x1, y1, x1), Residue(lam, x1, y1, c);
    var d := 3 * (x1 * x1) - 2 * (lam * lam * x1) + t;
    Derivative(lam, x1, y1);
    CongRefl(y1, p);
    assert lam * (x1 - x1) == 0;
    ResidueAtPoint(lam, x1, y1, x1, y1, p);
    CongSym(lam * (2 * y1), 3 * (x1 * x1), p);
    CongRefl(c - x1, p);
    CongMul(d, 0, c - x1, c - x1, p);
    CongAdd(d * (c - x1), 0, f1, 0, p);
    assert f3 == d * (c - x1) + f1;
    ThirdPoint(lam, x1, y1, c, p);
  }

  lemma ThirdPoint(lam: int, x1: int, y1: int, c: int, p: int)
    requires p > 0 && Residue(lam, x1, y1, c) % p == 0
    ensures CurveEq(c, lam * (x1 - c) - y1, p)
  {
    var z, y := lam * (c - x1) + y1, lam * (x1 - c) - y1;
    assert y == -z;
    assert y * y == z * z;
    CongSym(c * c * c + 7, z * z, p);
  }

  // ----- the addition law -----

  /** Two curve points with the same abscissa are equal or opposite: the assertion in GE.__add__. */
  lemma SameAbscissa(p: Point, q: Point)
    requires IsPrime(SIZE) && OnCurve(p) && OnCurve(q) && p.Affine? && q.Affine? && p.x == q.x
    ensures p.y == q.y || FAdd(p.y, q.y) == 0
  {
    EquationCong(p.x, p.y, SIZE);
    EquationCong(q.x, q.y, SIZE);
    CongSym(q.y * q.y, q.x * q.x * q.x + 7, SIZE);
    CongTrans(p.y * p.y, p.x * p.x * p.x + 7, q.y * q.y, SIZE);
    assert (p.y - q.y) * (p.y + q.y) == p.y * p.y - q.y * q.y;
    PrimeDivides(p.y - q.y, p.y + q.y, SIZE);
    if (p.y - q.y) % SIZE == 0 { CongUnique(p.y, q.y, SIZE); }
  }

  ghost predicate Addable(p: Point, q: Point) {
    p.Affine? && q.Affine? && (p.x == q.x ==> p.y == q.y && p.y != 0)
  }

  lemma SlopeMeaning(p: Point, q: Point)
    requires IsPrime(SIZE) && OnCurve(p) && OnCurve(q) && Addable(p, q)
    ensures p.x == q.x ==> FMul(2, p.y) != 0 && Cong(Slope(p, q) * (2 * p.y), 3 * (p.x * p.x), SIZE)
    ensures p.x != q.x ==> FSub(p.x, q.x) != 0 && Cong(Slope(p, q) * (p.x - q.x), p.y - q.y, SIZE)
  {
    assert SIZE > 2;
    hide SIZE, IsPrime;
    if p.x == q.x {
      Squares(p.x);
      TangentSlope(p.x, p.y, SIZE);
    } else {
      if (p.x - q.x) % SIZE == 0 { CongUnique(p.x, q.x, SIZE); }
      ReducedQuotient(p.y - q.y, p.x - q.x, SIZE);
    }
  }

  lemma TangentSlope(x: int, y: int, p: int)
    requires IsPrime(p) && p > 2 && 0 < y < p
    ensures var n, d := 3 * ((x * x) % p), 2 * y;
            d % p != 0 && Cong(Ratio(n % p, d % p, p) * d, 3 * (x * x), p)
  {
    hide IsPrime;
    var n, d := 3 * ((x * x) % p), 2 * y;
    ModSmall(2, p);
    ModSmall(y, p);
    if d % p == 0 { PrimeDivides(2, y, p); }
    CongMod(x * x, p);
    CongRefl(3, p);
    CongMul(3, 3, (x * x) % p, x * x, p);
    ReducedQuotient(n, d, p);
    CongTrans(Ratio(n % p, d % p, p) * d, n, 3 * (x * x), p);
  }

  lemma ReducedQuotient(n: int, d: int, p: int)
    requires IsPrime(p) && d % p != 0
    ensures (d % p) % p != 0 && Cong(Ratio(n % p, d % p, p) * d, n, p)
  {
    ModSmall(d % p, p);
    RatioDenotes(n % p, d % p, p);
    var r := Ratio(n % p, d % p, p);
    CongMod(n, p);
    CongMod(d, p);
    CongRefl(r, p);
    CongMul(r, r, d, d % p, p);
    CongTrans(r * d, r * (d % p), n % p, p);
    CongTrans(r * d, n % p, n, p);
  }

  /** The reductions inside the addition formulas do not matter. */
  lemma SumCoordinates(lam: int, x1: int, y1: int, x2: int, p: int)
    requires p > 0
    ensures var c := lam * lam - (x1 + x2);
            var x := ((lam * lam) % p - (x1 + x2) % p) % p;
            Cong(x, c, p) && Cong(((lam * ((x1 - x) % p)) % p - y1) % p, lam * (x1 - c) - y1, p)
  {
    hide *;
    var c := lam * lam - (x1 + x2);
    var d := (lam * lam) % p - (x1 + x2) % p;
    var x := d % p;
    CongMod(lam * lam, p);
    CongMod(x1 + x2, p);
    CongSub((lam * lam) % p, lam * lam, (x1 + x2) % p, x1 + x2, p);
    CongMod(d, p);
    CongTrans(x, d, c, p);
    CongRefl(x1, p);
    CongRefl(lam, p);
    CongRefl(y1, p);
    CongSub(x1, x1, x, c, p);
    CongMod(x1 - x, p);
    CongTrans((x1 - x) % p, x1 - x, x1 - c, p);
    CongMul(lam, lam, (x1 - x) % p, x1 - c, p);
    var e := lam * ((x1 - x) % p);
    CongMod(e, p);
    CongTrans(e % p, e, lam * (x1 - c), p);
    CongSub(e % p, lam * (x1 - c), y1, y1, p);
    CongMod(e % p - y1, p);
    CongTrans((e % p - y1) % p, e % p - y1, lam * (x1 - c) - y1, p);
  }

  lemma CurveEqCong(x: int, y: int, x': int, y': int, p: int)
    requires p > 0 && CurveEq(x, y, p) && Cong(x', x, p) && Cong(y', y, p)
    ensures CurveEq(x', y', p)
  {
    CongMul(y', y, y', y, p);
    CongTrans(y' * y', y * y, x * x * x + 7, p);
    CongMul(x', x, x', x, p);
    CongMul(x' * x', x * x, x', x, p);
    CongRefl(7, p);
    CongAdd(x' * x' * x', x * x * x, 7, 7, p);
    CongSym(x' * x' * x' + 7, x * x * x + 7, p);
    CongTrans(y' * y', x * x * x + 7, x' * x' * x' + 7, p);
  }

  /** r has the coordinates of the addition formulas, up to reduction. */
  ghost predicate SumOf(lam: int, p: Point, q: Point, r: Point, m: int)
    requires p.Affine? && q.Affine? && m > 0
  {
    var c := lam * lam - (p.x + q.x);
    r.Affine? && 0 <= r.x < m && 0 <= r.y < m
    && Cong(r.x, c, m) && Cong(r.y, lam * (p.x - c) - p.y, m)
  }

  lemma AddFormula(p: Point, q: Point)
    requires Addable(p, q)
    ensures SumOf(Slope(p, q), p, q, AddPoints(p, q), SIZE)
  {
    hide SIZE;
    var lam := Slope(p, q);
    assert Pow(lam, 2) == lam * lam by { Squares(lam); }
    var x := FSub(FMul(lam, lam), FAdd(p.x, q.x));
    assert AddPoints(p, q) == Affine(x, FSub(FMul(lam, FSub(p.x, x)), p.y));
    SumCoordinates(lam, p.x, p.y, q.x, SIZE);
  }

  /** The geometry of the sum: reflected, it lies on the line through the first point with the slope of tangent or
      chord, and the three abscissas add up to the square of the slope. */
  lemma ThirdOnLine(p: Point, q: Point)
    requires IsPrime(SIZE) && OnCurve(p) && OnCurve(q) && Addable(p, q)
    ensures var r, lam := AddPoints(p, q), Slope(p, q);
            && r.Affine?
            && Cong(r.x + p.x + q.x, lam * lam, SIZE)
            && Cong(-r.y - p.y, lam * (r.x - p.x), SIZE)
  {
    AddFormula(p, q);
    assert p.Affine? && q.Affine?;
    hide *;
    LineThroughSum(Slope(p, q), p, q, AddPoints(p, q), SIZE);
  }

  lemma LineThroughSum(lam: int, p: Point, q: Point, r: Point, m: int)
    requires m > 0 && p.Affine? && q.Affine? && SumOf(lam, p, q, r, m)
    ensures r.Affine? && Cong(r.x + p.x + q.x, lam * lam, m) && Cong(-r.y - p.y, lam * (r.x - p.x), m)
  {
    var c := lam * lam - (p.x + q.x);
    var y := lam * (p.x - c) - p.y;
    assert r.Affine? && Cong(r.x, c, m) && Cong(r.y, y, m);
    hide *;
    CongRefl(p.x + q.x, m);
    CongAdd(r.x, c, p.x + q.x, p.x + q.x, m);
    CongRefl(p.x, m);
    CongRefl(p.y, m);
    CongRefl(lam, m);
    CongRefl(0, m);
    CongSub(0, 0, r.y, y, m);
    CongSub(-r.y, -y, p.y, p.y, m);
    CongSym(r.x, c, m);
    CongSub(c, r.x, p.x, p.x, m);
    CongMul(lam, lam, c - p.x, r.x - p.x, m);
    assert -y - p.y == lam * (c - p.x);
    CongTrans(-r.y - p.y, lam * (c - p.x), lam * (r.x - p.x), m);
  }

  lemma ThirdIntersection(lam: int, p: Point, q: Point)
    requires IsPrime(SIZE) && OnCurve(p) && OnCurve(q) && Addable(p, q) && lam == Slope(p, q)
    ensures var c := lam * lam - (p.x + q.x);
            CurveEq(c, lam * (p.x - c) - p.y, SIZE)
  {
    hide SIZE;
    SlopeMeaning(p, q);
    EquationCong(p.x, p.y, SIZE);
    EquationCong(q.x, q.y, SIZE);
    if p.x == q.x {
      TangentThird(lam, p.x, p.y, SIZE);
    } else {
      ChordThird(lam, p.x, p.y, q.x, q.y, SIZE);
    }
  }

  /** The sum of two curve points is a curve point, whichever branch computes it. */
  lemma AddOnCurve(p: Point, q: Point)
    requires IsPrime(SIZE) && OnCurve(p) && OnCurve(q)
    ensures OnCurve(AddPoints(p, q))
  {
    if Addable(p, q) {
      var r := AddPoints(p, q);
      assert p.Affine? && q.Affine?;
      hide *;
      AddFormula(p, q);
      ThirdIntersection(Slope(p, q), p, q);
      SumReduced(Slope(p, q), p, q, r, SIZE);
      OnCurveIntro(r.x, r.y);
    }
  }

  lemma SumReduced(lam: int, p: Point, q: Point, r: Point, m: int)
    requires p.Affine? && q.Affine? && m > 0 && SumOf(lam, p, q, r, m)
    requires var c := lam * lam - (p.x + q.x); CurveEq(c, lam * (p.x - c) - p.y, m)
    ensures r.Affine? && 0 <= r.x < m && 0 <= r.y < m && Pow(r.y, 2) % m == (Pow(r.x, 3) % m + 7) % m
  {
    hide CurveEq, Cong, Pow;
    var c := lam * lam - (p.x + q.x);
    CurveEqCong(c, lam * (p.x - c) - p.y, r.x, r.y, m);
    EquationCong(r.x, r.y, m);
  }

  lemma OnCurveIntro(x: int, y: int)
    requires 0 <= x < SIZE && 0 <= y < SIZE && Pow(y, 2) % SIZE == (Pow(x, 3) % SIZE + 7) % SIZE
    ensures OnCurve(Affine(x, y))
  {
    hide SIZE, Pow;
  }

  lemma AddCommutes(p: Point, q: Point)
    requires IsPrime(SIZE) && OnCurve(p) && OnCurve(q)
    ensures AddPoints(p, q) == AddPoints(q, p)
  {
    if Addable(p, q) && p.x != q.x {
      SlopeSymmetric(p, q);
      AddFormula(p, q);
      AddFormula(q, p);
      SlopeMeaning(p, q);
      SumsAgree(Slope(p, q), p, q, AddPoints(p, q), AddPoints(q, p));
    }
  }

  lemma SlopeSymmetric(p: Point, q: Point)
    requires IsPrime(SIZE) && OnCurve(p) && OnCurve(q) && Addable(p, q) && p.x != q.x
    ensures Slope(p, q) == Slope(q, p)
  {
    hide SIZE;
    SlopeMeaning(p, q);
    SlopeMeaning(q, p);
    SlopesAgree(Slope(p, q), Slope(q, p), p.x - q.x, p.y - q.y, SIZE);
  }

  lemma SlopesAgree(l: int, k: int, dx: int, dy: int, p: int)
    requires IsPrime(p) && dx % p != 0 && 0 <= l < p && 0 <= k < p
    requires Cong(l * dx, dy, p) && Cong(k * -dx, -dy, p)
    ensures l == k
  {
    CongSub(0, 0, k * -dx, -dy, p);
    assert 0 - k * -dx == k * dx;
    CongSym(k * dx, dy, p);
    CongTrans(l * dx, dy, k * dx, p);
    CancelMul(l, k, dx, p);
    CongUnique(l, k, p);
  }

  lemma SumsAgree(l: int, p: Point, q: Point, u: Point, v: Point)
    requires p.Affine? && q.Affine? && SumOf(l, p, q, u, SIZE) && SumOf(l, q, p, v, SIZE)
    requires Cong(l * (p.x - q.x), p.y - q.y, SIZE)
    ensures u == v
  {
    var c := l * l - (p.x + q.x);
    CongSym(v.x, c, SIZE);
    CongTrans(u.x, c, v.x, SIZE);
    CongUnique(u.x, v.x, SIZE);
    SameOrdinate(l, p.x, p.y, q.x, q.y, c, u.y, v.y, SIZE);
  }

  lemma SameOrdinate(l: int, x1: int, y1: int, x2: int, y2: int, c: int, u: int, v: int, p: int)
    requires p > 0 && 0 <= u < p && 0 <= v < p && Cong(l * (x1 - x2), y1 - y2, p)
    requires Cong(u, l * (x1 - c) - y1, p) && Cong(v, l * (x2 - c) - y2, p)
    ensures u == v
  {
    CongSub(u, l * (x1 - c) - y1, v, l * (x2 - c) - y2, p);
    assert l * (x1 - c) - y1 - (l * (x2 - c) - y2) == l * (x1 - x2) - (y1 - y2);
    CongTrans(u - v, l * (x1 - x2) - (y1 - y2), 0, p);
    CongUnique(u, v, p);
  }

  lemma NegOnCurve(p: Point)
    requires IsPrime(SIZE) && OnCurve(p)
    ensures OnCurve(NegPoint(p)) && AddPoints(p, NegPoint(p)) == Infinity
    ensures NegPoint(NegPoint(p)) == p
  {
    hide SIZE;
    if p.Affine? {
      EquationCong(p.x, p.y, SIZE);
      CongMod(-p.y, SIZE);
      NegCurveEq(p.x, p.y, FNeg(p.y), SIZE);
      EquationCong(p.x, FNeg(p.y), SIZE);
      NegParity(p.y);
      NegParity(FNeg(p.y));
    }
  }

  lemma NegCurveEq(x: int, y: int, z: int, p: int)
    requires p > 0 && CurveEq(x, y, p) && Cong(z, -y, p)
    ensures CurveEq(x, z, p)
  {
    CongRefl(x, p);
    assert (-y) * (-y) == y * y;
    CurveEqCong(x, -y, x, z, p);
  }

  /** Negation of a nonzero field element flips its parity, SIZE being odd. */
  lemma NegParity(y: int)
    requires 0 <= y < SIZE
    ensures y == 0 ==> FNeg(y) == 0
    ensures y > 0 ==> FNeg(y) == SIZE - y && FNeg(y) % 2 != y % 2
  {
    SizeIs();
    hide *;
    OddModulus(SIZE, y);
    NegIs(y);
  }

  lemma NegIs(y: int)
    requires 0 <= y < SIZE
    ensures FNeg(y) == if y == 0 then 0 else SIZE - y
  {
    hide SIZE;
    NegResidue(y, SIZE);
  }

  lemma OddModulus(p: int, y: int)
    requires p % 4 == 3
    ensures (p - y) % 2 != y % 2
  {
  }

  lemma NegResidue(y: int, p: int)
    requires 0 <= y < p
    ensures (-y) % p == if y == 0 then 0 else p - y
  {
    if y == 0 {
      ModSmall(0, p);
    } else {
      CongIntro(-y, p - y, -1, p);
      CongSameMod(-y, p - y, p);
      ModSmall(p - y, p);
    }
  }
}
