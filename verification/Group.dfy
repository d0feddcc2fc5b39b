/** Scalar multiples of curve points.  Four facts about secp256k1 are taken as the stated assumption
    GroupFacts; everything else is derived from them and from the proofs in Curve. */
module Group {
  import opened NumberTheory
  import opened Bytes
  import opened Field
  import opened Curve

  const ORDER: Modulus := (Two256(); Pow(2, 256) - 0x1_4551231950B75FC4402DA1732FC9BEBF)

  lemma OrderIs()
    ensures ORDER == 0xFFFFFFFFFFFFFFFFFFFFFFFFFFFFFFFEBAAEDCE6AF48A03BBFD25E8CD0364141 < Pow(256, 32)
    ensures ORDER % 2 == 1
  {
    Two256();
  }
  const ORDER_HALF: int := ORDER / 2

  /** n * q by repeated addition. */
  function Times(n: nat, q: Point): Point {
    if n == 0 then Infinity else AddPoints(Times(n - 1, q), q)
  }

  /** a * q for every integer a. */
  function Scale(a: int, q: Point): Point {
    if a >= 0 then Times(a, q) else NegPoint(Times(-a, q))
  }

  ghost predicate AssociativeAt(p: Point, q: Point, r: Point) {
    OnCurve(p) && OnCurve(q) && OnCurve(r) ==> AddPoints(AddPoints(p, q), r) == AddPoints(p, AddPoints(q, r))
  }

  ghost predicate AnnihilatedByOrder(q: Point) {
    OnCurve(q) ==> Times(ORDER, q) == Infinity
  }

  /** What is assumed of secp256k1: the field size and the group order are prime, point addition is
      associative, and the group order takes every point to infinity. */
  ghost predicate GroupFacts() {
    && IsPrime(SIZE)
    && IsPrime(ORDER)
    && (forall p, q, r :: AssociativeAt(p, q, r))
    && (forall q :: AnnihilatedByOrder(q))
  }

  // ----- consequences of the group laws -----

  lemma Assoc(p: Point, q: Point, r: Point)
    requires GroupFacts() && OnCurve(p) && OnCurve(q) && OnCurve(r)
    ensures AddPoints(AddPoints(p, q), r) == AddPoints(p, AddPoints(q, r))
  {
    assert AssociativeAt(p, q, r);
  }

  lemma Identity(p: Point)
    ensures AddPoints(Infinity, p) == p && AddPoints(p, Infinity) == p && OnCurve(Infinity)
  {
  }

  lemma Closed(p: Point, q: Point)
    requires GroupFacts() && OnCurve(p) && OnCurve(q)
    ensures OnCurve(AddPoints(p, q)) && AddPoints(p, q) == AddPoints(q, p)
  {
    AddOnCurve(p, q);
    AddCommutes(p, q);
  }

  lemma {:induction false} TimesOnCurve(n: nat, q: Point)
    requires GroupFacts() && OnCurve(q)
    ensures OnCurve(Times(n, q))
  {
    Identity(q);
    hide AddPoints, OnCurve, GroupFacts, SIZE, ORDER;
    if n > 0 {
      TimesOnCurve(n - 1, q);
      Closed(Times(n - 1, q), q);
    }
  }

  lemma {:induction false} TimesAdd(m: nat, n: nat, q: Point)
    requires GroupFacts() && OnCurve(q)
    ensures Times(m + n, q) == AddPoints(Times(m, q), Times(n, q))
  {
    hide AddPoints, OnCurve, GroupFacts, SIZE;
    if n == 0 {
      assert Times(n, q) == Infinity;
      hide *;
      Identity(Times(m, q));
    } else {
      assert Times(n, q) == AddPoints(Times(n - 1, q), q);
      assert Times(m + n, q) == AddPoints(Times(m + (n - 1), q), q);
      hide *;
      TimesAdd(m, n - 1, q);
      TimesOnCurve(m, q);
      TimesOnCurve(n - 1, q);
      Assoc(Times(m, q), Times(n - 1, q), q);
    }
  }

  lemma {:induction false} TimesInfinity(n: nat)
    ensures Times(n, Infinity) == Infinity
  {
    if n > 0 { TimesInfinity(n - 1); }
  }

  lemma {:induction false} TimesTimes(m: nat, n: nat, q: Point)
    requires GroupFacts() && OnCurve(q)
    ensures Times(m * n, q) == Times(m, Times(n, q))
  {
    Identity(Infinity);
    hide AddPoints, OnCurve, GroupFacts, SIZE, ORDER;
    if m == 0 {
      assert m * n == 0;
    } else {
      TimesTimes(m - 1, n, q);
      assert m * n == (m - 1) * n + n;
      TimesAdd((m - 1) * n, n, q);
    }
  }

  lemma DivMod(n: nat, m: int)
    requires m > 0
    ensures n / m >= 0 && n % m >= 0 && n == n / m * m + n % m && n / m * m >= 0
  {
    assert n == m * (n / m) + n % m;
  }

  /** A multiple depends on the scalar modulo the group order only. */
  lemma TimesMod(n: nat, q: Point)
    requires GroupFacts() && OnCurve(q)
    ensures Times(n, q) == Times(n % ORDER, q)
  {
    assert ORDER > 1;
    hide AddPoints, OnCurve, GroupFacts, SIZE, ORDER;
    var k := n / ORDER;
    DivMod(n, ORDER);
    TimesAdd(k * ORDER, n % ORDER, q);
    TimesTimes(k, ORDER, q);
    TimesOnCurve(n % ORDER, q);
    Identity(Times(n % ORDER, q));
    assert AnnihilatedByOrder(q);
    TimesInfinity(k);
  }

  lemma NegUnique(p: Point, q: Point)
    requires GroupFacts() && OnCurve(p) && OnCurve(q) && AddPoints(p, q) == Infinity
    ensures q == NegPoint(p)
  {
    NegOnCurve(p);
    Closed(p, NegPoint(p));
    Assoc(NegPoint(p), p, q);
  }

  lemma OppositeTimes(n: nat, m: nat, q: Point)
    requires GroupFacts() && OnCurve(q) && (n + m) % ORDER == 0
    ensures Times(m, q) == NegPoint(Times(n, q))
  {
    assert ORDER > 1;
    hide *;
    TimesOnCurve(n, q);
    TimesOnCurve(m, q);
    TimesAdd(n, m, q);
    TimesMod(n + m, q);
    NegUnique(Times(n, q), Times(m, q));
  }

  /** The same for every integer scalar, negative ones included. */
  lemma ScaleMod(a: int, q: Point)
    requires GroupFacts() && OnCurve(q)
    ensures Scale(a, q) == Times(a % ORDER, q) && OnCurve(Scale(a, q))
  {
    assert ORDER > 1;
    hide AddPoints, OnCurve, GroupFacts, SIZE, ORDER;
    CongMod(a, ORDER);
    TimesOnCurve(a % ORDER, q);
    if a >= 0 {
      TimesMod(a, q);
    } else {
      CongSameMod(a % ORDER - a, 0, ORDER);
      OppositeTimes(-a, a % ORDER, q);
    }
  }

  lemma ScaleAdd(a: int, b: int, q: Point)
    requires GroupFacts() && OnCurve(q)
    ensures AddPoints(Scale(a, q), Scale(b, q)) == Scale(a + b, q)
  {
    assert ORDER > 1;
    hide *;
    ScaleMod(a, q);
    ScaleMod(b, q);
    ScaleMod(a + b, q);
    SumTimes(a % ORDER, b % ORDER, (a + b) % ORDER, q) by { SumMod(a, b, ORDER); }
  }

  lemma SumTimes(r: nat, t: nat, u: nat, q: Point)
    requires GroupFacts() && OnCurve(q) && (r + t) % ORDER == u
    ensures AddPoints(Times(r, q), Times(t, q)) == Times(u, q)
  {
    hide *;
    TimesAdd(r, t, q);
    TimesMod(r + t, q);
  }

  lemma ScaleScale(a: int, b: int, q: Point)
    requires GroupFacts() && OnCurve(q)
    ensures Scale(a, Scale(b, q)) == Scale(a * b, q)
  {
    assert ORDER > 1;
    hide *;
    ScaleMod(b, q);
    ScaleMod(a, Scale(b, q));
    ScaleMod(a * b, q);
    ProductTimes(a % ORDER, b % ORDER, (a * b) % ORDER, q) by { ProductMod(a, b, ORDER); }
  }

  lemma ProductTimes(r: nat, t: nat, u: nat, q: Point)
    requires GroupFacts() && OnCurve(q) && (r * t) % ORDER == u
    ensures Times(r, Times(t, q)) == Times(u, q)
  {
    hide *;
    TimesTimes(r, t, q);
    TimesMod(r * t, q);
  }

  lemma ScaleCong(a: int, b: int, q: Point)
    requires GroupFacts() && OnCurve(q) && Cong(a, b, ORDER)
    ensures Scale(a, q) == Scale(b, q)
  {
    assert ORDER > 1;
    hide *;
    ScaleMod(a, q);
    ScaleMod(b, q);
    CongSameMod(a, b, ORDER);
  }

  lemma ScaleNeg(a: int, q: Point)
    requires GroupFacts() && OnCurve(q)
    ensures Scale(-a, q) == NegPoint(Scale(a, q))
  {
    assert ORDER > 1;
    hide *;
    ScaleMod(a, q);
    ScaleMod(-a, q);
    ScaleAdd(a, -a, q);
    NegUnique(Scale(a, q), Scale(-a, q));
  }

  /** ORDER being prime, no smaller multiple of a finite point is infinite. */
  lemma ScaleFinite(a: int, q: Point)
    requires GroupFacts() && OnCurve(q) && q.Affine?
    ensures Scale(a, q) == Infinity <==> a % ORDER == 0
  {
    assert Times(1, q) == AddPoints(Times(0, q), q);
    if a % ORDER == 0 {
      ScaleMod(a, q);
    } else if Scale(a, q) == Infinity {
      PrimeInverse(a, ORDER);
      var i := Inverse(a, ORDER);
      ScaleScale(i, a, q);
      TimesInfinity(i);
      ModSmall(1, ORDER);
      CongSameMod(i * a, 1, ORDER);
      ScaleCong(i * a, 1, q);
    }
  }

  /** The order being odd, the curve has no point with y = 0, so the tangent formula never divides by 0. */
  lemma NoOrderTwo(q: Point)
    requires GroupFacts() && OnCurve(q) && q.Affine?
    ensures q.y != 0
  {
    if q.y == 0 {
      assert Times(2, q) == AddPoints(Times(1, q), q);
      assert Times(1, q) == AddPoints(Times(0, q), q);
      ScaleFinite(2, q);
      ModSmall(2, ORDER);
    }
  }

  // ----- linear combinations, bit by bit -----

  /** a >> k. */
  function Shr(a: nat, k: nat): nat {
    PowMonotone(2, k, k);
    a / Pow(2, k)
  }

  function LowBit(n: nat, p: Point): Point {
    if n % 2 == 1 then p else Infinity
  }

  /** The sum of (a >> k) * p over the pairs (a, p). */
  function LinComb(s: seq<(nat, Point)>, k: nat): Point {
    if s == [] then Infinity
    else
      var (a, p) := s[|s| - 1];
      AddPoints(LinComb(s[..|s| - 1], k), Times(Shr(a, k), p))
  }

  /** The sum of the points whose scalar has bit k set. */
  function BitSum(s: seq<(nat, Point)>, k: nat): Point {
    if s == [] then Infinity
    else
      var (a, p) := s[|s| - 1];
      AddPoints(BitSum(s[..|s| - 1], k), LowBit(Shr(a, k), p))
  }

  ghost predicate AllOnCurve(s: seq<(nat, Point)>) {
    forall i :: 0 <= i < |s| ==> OnCurve(s[i].1)
  }

  lemma {:induction false} SumsOnCurve(s: seq<(nat, Point)>, k: nat)
    requires GroupFacts() && AllOnCurve(s)
    ensures OnCurve(LinComb(s, k)) && OnCurve(BitSum(s, k))
  {
    Identity(Infinity);
    hide AddPoints, OnCurve, GroupFacts, Shr, Times;
    if s != [] {
      var t := s[..|s| - 1];
      var (a, p) := s[|s| - 1];
      SumsOnCurve(t, k);
      TimesOnCurve(Shr(a, k), p);
      Closed(LinComb(t, k), Times(Shr(a, k), p));
      Closed(BitSum(t, k), LowBit(Shr(a, k), p));
    }
  }

  lemma ShrNext(a: nat, k: nat)
    ensures Shr(a, k + 1) == Shr(a, k) / 2
  {
    PowMonotone(2, k, k);
    HalfQuotient(a, Pow(2, k));
  }

  lemma HalfQuotient(a: nat, w: nat)
    requires w > 0
    ensures a / (2 * w) == a / w / 2
  {
    var q, r := a / w, a % w;
    var h, b := q / 2, q % 2;
    assert a == w * q + r;
    assert w * q == (2 * w) * h + w * b;
    if b == 1 { assert w * b == w; }
    QuotientUnique(a, 2 * w, h, w * b + r);
  }

  /** How one more pair extends both sums. */
  lemma LastPair(t: seq<(nat, Point)>, a: nat, p: Point, k: nat)
    ensures LinComb(t + [(a, p)], k) == AddPoints(LinComb(t, k), Times(Shr(a, k), p))
    ensures BitSum(t + [(a, p)], k) == AddPoints(BitSum(t, k), LowBit(Shr(a, k), p))
  {
    hide AddPoints, Shr, Times;
    var s := t + [(a, p)];
    assert s[..|s| - 1] == t && s[|s| - 1] == (a, p);
  }

  /** One turn of the double-and-add loop. */
  lemma {:induction false} LinCombStep(s: seq<(nat, Point)>, k: nat)
    requires GroupFacts() && AllOnCurve(s)
    ensures LinComb(s, k) == AddPoints(AddPoints(LinComb(s, k + 1), LinComb(s, k + 1)), BitSum(s, k))
  {
    if s == [] {
      Identity(Infinity);
    } else {
      var t := s[..|s| - 1];
      var (a, p) := s[|s| - 1];
      assert AllOnCurve(t) && OnCurve(p) && s == t + [(a, p)];
      hide *;
      LinCombStep(t, k);
      SumsOnCurve(t, k);
      SumsOnCurve(t, k + 1);
      LastPair(t, a, p, k);
      LastPair(t, a, p, k + 1);
      ShrNext(a, k);
      PairStep(LinComb(t, k), LinComb(t, k + 1), BitSum(t, k), Shr(a, k), p);
    }
  }

  lemma PairStep(x: Point, h: Point, b: Point, n: nat, p: Point)
    requires GroupFacts() && OnCurve(p) && OnCurve(h) && OnCurve(b)
    requires x == AddPoints(AddPoints(h, h), b)
    ensures var u := AddPoints(h, Times(n / 2, p));
            AddPoints(x, Times(n, p)) == AddPoints(AddPoints(u, u), AddPoints(b, LowBit(n, p)))
  {
    assert OnCurve(LowBit(n, p));
    hide *;
    TimesOnCurve(n / 2, p);
    TimesHalf(n, p);
    Combine(x, h, b, Times(n, p), Times(n / 2, p), LowBit(n, p));
  }

  lemma TimesHalf(n: nat, p: Point)
    requires GroupFacts() && OnCurve(p)
    ensures Times(n, p) == AddPoints(AddPoints(Times(n / 2, p), Times(n / 2, p)), LowBit(n, p))
  {
    hide AddPoints, GroupFacts, OnCurve;
    TimesAdd(n / 2, n / 2, p);
    if n % 2 == 1 {
      assert n - 1 == n / 2 + n / 2;
    } else {
      Identity(Times(n, p));
    }
  }

  lemma Combine(x: Point, h: Point, b: Point, n: Point, u: Point, c: Point)
    requires GroupFacts() && OnCurve(h) && OnCurve(b) && OnCurve(u) && OnCurve(c)
    requires x == AddPoints(AddPoints(h, h), b) && n == AddPoints(AddPoints(u, u), c)
    ensures AddPoints(x, n) == AddPoints(AddPoints(AddPoints(h, u), AddPoints(h, u)), AddPoints(b, c))
  {
    hide AddPoints, OnCurve, GroupFacts, SIZE, ORDER;
    Rearrange(h, b, u, c);
  }

  lemma Rearrange(x: Point, b: Point, u: Point, c: Point)
    requires GroupFacts() && OnCurve(x) && OnCurve(b) && OnCurve(u) && OnCurve(c)
    ensures AddPoints(AddPoints(AddPoints(x, x), b), AddPoints(AddPoints(u, u), c))
         == AddPoints(AddPoints(AddPoints(x, u), AddPoints(x, u)), AddPoints(b, c))
  {
    hide AddPoints, OnCurve, GroupFacts, SIZE, ORDER;
    Closed(x, x);
    Closed(u, u);
    Interchange(AddPoints(x, x), b, AddPoints(u, u), c);
    Interchange(x, x, u, u);
  }

  lemma Interchange(a: Point, b: Point, c: Point, d: Point)
    requires GroupFacts() && OnCurve(a) && OnCurve(b) && OnCurve(c) && OnCurve(d)
    ensures AddPoints(AddPoints(a, b), AddPoints(c, d)) == AddPoints(AddPoints(a, c), AddPoints(b, d))
  {
    hide AddPoints, OnCurve, GroupFacts, SIZE, ORDER;
    Closed(b, d);
    Closed(c, d);
    Assoc(a, b, AddPoints(c, d));
    Assoc(b, c, d);
    Closed(b, c);
    Assoc(c, b, d);
    Assoc(a, c, AddPoints(b, d));
  }

  lemma {:induction false} LinCombHigh(s: seq<(nat, Point)>, k: nat)
    requires forall i :: 0 <= i < |s| ==> s[i].0 < Pow(2, k)
    ensures LinComb(s, k) == Infinity
  {
    if s != [] {
      LinCombHigh(s[..|s| - 1], k);
      QuotientUnique(s[|s| - 1].0, Pow(2, k), 0, s[|s| - 1].0);
    }
  }

  /** a1*p1 + a2*p2 + ... for arbitrary integer scalars: what GE.mul is for. */
  function WeightedSum(s: seq<(int, Point)>): Point {
    if s == [] then Infinity
    else
      var (a, p) := s[|s| - 1];
      AddPoints(WeightedSum(s[..|s| - 1]), Scale(a, p))
  }

  /** The scalars reduced modulo the group order. */
  function Reduced(s: seq<(int, Point)>): (t: seq<(nat, Point)>) {
    if s == [] then [] else Reduced(s[..|s| - 1]) + [(s[|s| - 1].0 % ORDER, s[|s| - 1].1)]
  }

  lemma {:induction false} ReducedAt(s: seq<(int, Point)>)
    ensures |Reduced(s)| == |s|
    ensures forall i :: 0 <= i < |s| ==> Reduced(s)[i] == (s[i].0 % ORDER, s[i].1)
  {
    if s != [] { ReducedAt(s[..|s| - 1]); }
  }

  /** Double-and-add over the reduced scalars ends in the weighted sum. */
  lemma {:induction false} LinCombIsWeightedSum(s: seq<(int, Point)>)
    requires GroupFacts() && forall i :: 0 <= i < |s| ==> OnCurve(s[i].1)
    ensures LinComb(Reduced(s), 0) == WeightedSum(s)
  {
    assert ORDER > 1;
    hide AddPoints, OnCurve, GroupFacts, SIZE, ORDER;
    if s != [] {
      var t := s[..|s| - 1];
      var (a, p) := s[|s| - 1];
      LinCombIsWeightedSum(t);
      LastPair(Reduced(t), a % ORDER, p, 0);
      assert Shr(a % ORDER, 0) == a % ORDER by { assert Pow(2, 0) == 1; }
      ScaleMod(a, p);
    }
  }
}
