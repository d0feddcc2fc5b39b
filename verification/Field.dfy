/** The field GF(SIZE): its operations on values, and the numerator/denominator objects of
    secp256k1.py that delay inversions and cache the result of int(). */
module Field {
  import opened NumberTheory
  import opened Bytes

  type Modulus = x: int | x > 7 witness 8

  const SIZE: Modulus := (Two256(); Pow(2, 256) - 0x1_0000_0000 - 977)

  lemma SizeIs()
    ensures SIZE == 0xFFFFFFFFFFFFFFFFFFFFFFFFFFFFFFFFFFFFFFFFFFFFFFFFFFFFFFFEFFFFFC2F < Pow(256, 32)
    ensures SIZE % 4 == 3
  {
    Two256();
  }

  function FInt(n: int): int { n % SIZE }
  function FAdd(a: int, b: int): int { (a + b) % SIZE }
  function FSub(a: int, b: int): int { (a - b) % SIZE }
  function FMul(a: int, b: int): int { (a * b) % SIZE }
  function FNeg(a: int): int { (-a) % SIZE }
  function FDiv(a: int, b: int): int { Ratio(a, b, SIZE) }
  function FPow(a: int, e: nat): int { Pow(a, e) % SIZE }

  function Ratio(a: int, b: int, p: int): (v: int)
    requires p > 0
    ensures 0 <= v < p
  {
    (a * Inverse(b, p)) % p
  }

  // ----- fractions modulo a prime p -----

  /** The fraction n/d denotes the field element v. */
  ghost predicate Denotes(n: int, d: int, v: int, p: int)
    requires p > 0
  {
    d % p != 0 && Cong(v * d, n, p)
  }

  lemma RatioDenotes(n: int, d: int, p: int)
    requires IsPrime(p) && d % p != 0
    ensures Denotes(n, d, Ratio(n, d, p), p)
  {
    PrimeInverse(d, p);
    var i := Inverse(d, p);
    CongMod(n * i, p);
    CongRefl(d, p);
    CongMul((n * i) % p, n * i, d, d, p);
    ModSmall(1, p);
    CongSameMod(i * d, 1, p);
    CongRefl(n, p);
    CongMul(n, n, i * d, 1, p);
    assert n * i * d == n * (i * d);
    CongTrans(Ratio(n, d, p) * d, n * i * d, n, p);
  }

  /** A fraction denotes exactly one residue. */
  lemma DenotesUnique(n: int, d: int, v: int, p: int)
    requires IsPrime(p) && Denotes(n, d, v, p) && 0 <= v < p
    ensures v == Ratio(n, d, p)
  {
    RatioDenotes(n, d, p);
    var w := Ratio(n, d, p);
    CongSym(w * d, n, p);
    CongTrans(v * d, n, w * d, p);
    CancelMul(v, w, d, p);
    CongUnique(v, w, p);
  }

  lemma DenotesReduce(n: int, d: int, v: int, p: int)
    requires IsPrime(p) && Denotes(n, d, v, p)
    ensures Denotes(n % p, d % p, v % p, p)
  {
    CongMod(n, p);
    CongMod(d, p);
    CongMod(v, p);
    CongMul(v % p, v, d % p, d, p);
    CongTrans((v % p) * (d % p), v * d, n, p);
    CongTrans((v % p) * (d % p), n, n % p, p);
    ModSmall(d % p, p);
  }

  lemma DenotesSum(n: int, d: int, v: int, m: int, e: int, w: int, p: int)
    requires IsPrime(p) && Denotes(n, d, v, p) && Denotes(m, e, w, p)
    ensures Denotes(n * e + d * m, d * e, v + w, p)
    ensures Denotes(n * e - d * m, d * e, v - w, p)
    ensures Denotes(n * m, d * e, v * w, p)
  {
    if (d * e) % p == 0 { PrimeDivides(d, e, p); }
    CongRefl(d, p);
    CongRefl(e, p);
    CongMul(v * d, n, e, e, p);
    CongMul(w * e, m, d, d, p);
    CongAdd(v * d * e, n * e, w * e * d, m * d, p);
    CongSub(v * d * e, n * e, w * e * d, m * d, p);
    CongMul(v * d, n, w * e, m, p);
    SumTerms(v, w, d, e);
    assert m * d == d * m;
  }

  lemma SumTerms(v: int, w: int, d: int, e: int)
    ensures (v + w) * (d * e) == v * d * e + w * e * d
    ensures (v - w) * (d * e) == v * d * e - w * e * d
    ensures (v * w) * (d * e) == (v * d) * (w * e)
  {
    assert v * (d * e) == v * d * e;
    assert w * (d * e) == w * e * d;
    assert (v * w) * (d * e) == (v * d) * (w * e) by {
      assert (v * w) * (d * e) == v * (w * (d * e));
      assert w * (d * e) == d * (w * e);
    }
  }

  lemma DenotesQuotient(n: int, d: int, v: int, m: int, e: int, w: int, p: int)
    requires IsPrime(p) && Denotes(n, d, v, p) && Denotes(m, e, w, p) && w % p != 0
    ensures m % p != 0
    ensures Denotes(n * e, d * m, Ratio(v, w, p), p)
  {
    if m % p == 0 {
      CongSameMod(m, 0, p);
      CongTrans(w * e, m, 0, p);
      PrimeDivides(w, e, p);
    }
    if (d * m) % p == 0 { PrimeDivides(d, m, p); }
    RatioDenotes(v, w, p);
    QuotientTerms(n, d, v, m, e, w, Ratio(v, w, p), p);
  }

  lemma QuotientTerms(n: int, d: int, v: int, m: int, e: int, w: int, q: int, p: int)
    requires p > 0 && Cong(v * d, n, p) && Cong(w * e, m, p) && Cong(q * w, v, p)
    ensures Cong(q * (d * m), n * e, p)
  {
    // q*d*m = q*d*w*e = v*d*e = n*e
    CongRefl(q * d, p);
    CongRefl(d * e, p);
    CongRefl(e, p);
    CongSym(w * e, m, p);
    CongMul(q * d, q * d, m, w * e, p);
    CongMul(q * w, v, d * e, d * e, p);
    CongMul(v * d, n, e, e, p);
    QuotientRegroup(d, v, m, e, w, q);
    CongTrans(q * (d * m), q * w * (d * e), v * (d * e), p);
    CongTrans(q * (d * m), v * (d * e), n * e, p);
  }

  lemma QuotientRegroup(d: int, v: int, m: int, e: int, w: int, q: int)
    ensures q * (d * m) == q * d * m
    ensures q * d * (w * e) == q * w * (d * e)
    ensures v * (d * e) == v * d * e
  {
    calc {
      q * d * (w * e);
      q * (d * (w * e));
      { assert d * (w * e) == w * (d * e); }
      q * (w * (d * e));
      q * w * (d * e);
    }
  }

  lemma {:induction false} DenotesPower(n: int, d: int, v: int, k: nat, p: int)
    requires IsPrime(p) && Denotes(n, d, v, p)
    ensures Denotes(Pow(n, k), Pow(d, k), Pow(v, k), p)
  {
    PrimePow(d, k, p);
    PowDistributes(v, d, k);
    PowCong(v * d, n, k, p);
  }

  /** The inverses of the parts of a fraction denote the inverse of its value. */
  lemma DenotesInverse(n: int, d: int, v: int, p: int)
    requires IsPrime(p) && Denotes(n, d, v, p) && n % p != 0
    ensures var i, j := Inverse(n, p), Inverse(d, p); Denotes(i, j, Ratio(i, j, p), p) && (v * Ratio(i, j, p)) % p == 1
  {
    var i, j := Inverse(n, p), Inverse(d, p);
    PrimeInverse(n, p);
    PrimeInverse(d, p);
    assert p > 1;
    hide Inverse, IsPrime;
    if j % p == 0 { ZeroTimes(j, d, p); }
    RatioDenotes(i, j, p);
    DenotesSum(n, d, v, i, j, Ratio(i, j, p), p);
    DenotesReduce(n * i, d * j, v * Ratio(i, j, p), p);
    DenotesInt(1, p);
    ModSmall(1, p);
    DenotesUnique(1, 1, (v * Ratio(i, j, p)) % p, p);
  }

  lemma ZeroTimes(a: int, b: int, p: int)
    requires p > 1 && a % p == 0
    ensures (a * b) % p == 0
  {
    ProductMod(a, b, p);
    ModSmall(0, p);
  }

  lemma PowerOfInverse(v: int, w: int, k: nat, p: int)
    requires p > 1 && (v * w) % p == 1
    ensures ((Pow(v, k) % p) * (Pow(w, k) % p)) % p == 1
  {
    ProductMod(Pow(v, k), Pow(w, k), p);
    PowDistributes(v, w, k);
    ModSmall(1, p);
    CongSameMod(v * w, 1, p);
    PowCong(v * w, 1, k, p);
    OnePower(k);
    CongSameMod(Pow(v * w, k), 1, p);
  }

  lemma {:induction false} OnePower(k: nat)
    ensures Pow(1, k) == 1
  {
    if k > 0 { OnePower(k - 1); }
  }

  /** Cross multiplication decides equality of the denoted values. */
  lemma DenotesEqual(n: int, d: int, v: int, m: int, e: int, w: int, p: int)
    requires IsPrime(p) && Denotes(n, d, v, p) && Denotes(m, e, w, p)
    requires 0 <= v < p && 0 <= w < p
    ensures (n * e - d * m) % p == 0 <==> v == w
  {
    DenotesSum(n, d, v, m, e, w, p);
    var x, y := n * e - d * m, d * e;
    if x % p == 0 {
      CongSameMod(x, 0, p);
      CongTrans((v - w) * y, x, 0, p);
      PrimeDivides(v - w, y, p);
      CongUnique(v, w, p);
    }
    if v == w {
      assert (v - w) * y == 0;
      CongSym((v - w) * y, x, p);
    }
  }

  lemma DenotesInt(n: int, p: int)
    requires IsPrime(p)
    ensures Denotes(n, 1, n, p) && Denotes(n % p, 1, n % p, p)
    ensures Ratio(n, 1, p) == n % p
  {
    ModSmall(1, p);
    CongRefl(n, p);
    CongMod(n, p);
    CongRefl(n % p, p);
    CongTrans((n % p) * 1, n % p, n, p);
    DenotesUnique(n, 1, n % p, p);
  }

  // ----- square roots -----

  ghost predicate IsSquare(v: int) {
    exists w :: 0 <= w < SIZE && FMul(w, w) == v
  }

  /** With p % 4 == 3, raising a square to (p+1)/4 gives a root of it. */
  lemma RootOfSquare(w: int, v: int, p: int)
    requires IsPrime(p) && p % 4 == 3 && 0 <= w < p && v == (w * w) % p
    ensures var s := Pow(v, (p + 1) / 4) % p; (s * s) % p == v
  {
    var e := (p + 1) / 4;
    assert p > 1;
    hide *;
    var t := Pow(v, e);
    CongMod(t, p);
    CongMul(t % p, t, t % p, t, p);
    // t*t = v^(2e) = (w*w)^(2e) = w^(p+1) = w * w^p = w * w
    CongMod(w * w, p);
    PowAdd(v, e, e);
    PowCong(v, w * w, e + e, p);
    PowStep(w, 2);
    PowStep(w, 1);
    PowStep(w, 0);
    PowStep(w, p + 1);
    PowMul(w, 2, e + e);
    assert 2 * (e + e) == p + 1;
    FermatNat(w, p);
    CongRefl(w, p);
    CongMul(w, w, Pow(w, p), w, p);
    var s := t % p;
    CongTrans(s * s, t * t, Pow(w, p + 1), p);
    CongTrans(s * s, Pow(w, p + 1), w * w, p);
    CongTrans(s * s, w * w, v, p);
    CongSameMod(s * s, v, p);
    ModSmall(v, p);
  }

  /** The value level of FE.sqrt. */
  function FSqrt(v: int): (r: (bool, int))
  {
    var s := FPow(v, (SIZE + 1) / 4);
    if FMul(s, s) == v then (true, s) else (false, 0)
  }

  /** sqrt finds a root exactly when there is one. */
  lemma SqrtComplete(v: int)
    requires IsPrime(SIZE)
    ensures FSqrt(v).0 <==> IsSquare(v)
    ensures FSqrt(v).0 ==> 0 <= FSqrt(v).1 < SIZE && FMul(FSqrt(v).1, FSqrt(v).1) == v
  {
    SizeIs();
    hide SIZE, Pow, IsPrime;
    var s := FPow(v, (SIZE + 1) / 4);
    if IsSquare(v) {
      var w :| 0 <= w < SIZE && FMul(w, w) == v;
      RootOfSquare(w, v, SIZE);
    }
  }

  // ----- objects -----

  /** The operators of FE accept a field element or an int. */
  datatype Operand = Num(n: int) | Elem(fe: FE)
  {
    ghost predicate Valid()
      reads if Elem? then {fe} else {}
    {
      Elem? ==> fe.Valid()
    }

    ghost function Val(): (v: int)
      reads if Elem? then {fe} else {}
    {
      match this
      case Num(n) => FInt(n)
      case Elem(fe) => fe.Val()
    }
  }

  class FE {
    var num: int
    var den: int

    ghost predicate Valid()
      reads this
    {
      0 <= num < SIZE && 0 < den < SIZE && (num == 0 ==> den == 1)
    }

    /** The field element this object stands for. */
    ghost function Val(): (v: int)
      reads this
      ensures 0 <= v < SIZE
    {
      FDiv(num, den)
    }

    lemma Meaning()
      requires IsPrime(SIZE) && Valid()
      ensures Denotes(num, den, Val(), SIZE)
      ensures den == 1 ==> num == Val()
    {
      ModSmall(den, SIZE);
      RatioDenotes(num, den, SIZE);
      if den == 1 {
        DenotesInt(num, SIZE);
        ModSmall(num, SIZE);
      }
    }

    constructor (a: Operand, b: Operand := Num(1))
      requires IsPrime(SIZE) && a.Valid() && b.Valid()
      requires b.Val() != 0
      ensures Valid() && Val() == FDiv(a.Val(), b.Val())
      ensures b == Num(1) ==> Val() == a.Val()
    {
      OverOne(a.Val());
      NumMeans(1);
      hide SIZE, FDiv, FMul, FInt, IsPrime, Operand.Val, Operand.Valid;
      var n := if a.Num? then FInt(a.n) else a.fe.num;
      var d := if a.Num? then 1 else a.fe.den;
      InitLemma(a, b, n, d);
      if b.Elem? {
        d := FMul(d, b.fe.num);
        n := FMul(n, b.fe.den);
      } else {
        d := FMul(d, b.n);
      }
      if n == 0 {
        d := 1;
      }
      num := n;
      den := d;
    }

    static lemma NumMeans(n: int)
      requires 0 <= n < SIZE
      ensures Num(n).Valid() && Num(n).Val() == n
    {
      ModSmall(n, SIZE);
    }

    static lemma OverOne(v: int)
      requires IsPrime(SIZE) && 0 <= v < SIZE
      ensures FDiv(v, 1) == v
    {
      DenotesInt(v, SIZE);
      ModSmall(v, SIZE);
      ModSmall(1, SIZE);
    }

    static lemma InitLemma(a: Operand, b: Operand, n: int, d: int)
      requires IsPrime(SIZE) && a.Valid() && b.Valid() && b.Val() != 0
      requires n == if a.Num? then FInt(a.n) else a.fe.num
      requires d == if a.Num? then 1 else a.fe.den
      ensures var num := if b.Num? then n else FMul(n, b.fe.den);
              var den := FMul(d, if b.Num? then b.n else b.fe.num);
              0 <= num < SIZE && 0 < den < SIZE && FDiv(num, if num == 0 then 1 else den) == FDiv(a.Val(), b.Val())
    {
      hide SIZE;
      var m := if b.Num? then b.n else b.fe.num;
      var e := if b.Num? then 1 else b.fe.den;
      var v, w := a.Val(), b.Val();
      if a.Elem? { a.fe.Meaning(); } else { DenotesInt(a.n, SIZE); }
      if b.Elem? { b.fe.Meaning(); } else { DenotesInt(b.n, SIZE); OperandInt(b.n, SIZE); }
      ModSmall(n, SIZE);
      FractionInit(n, d, v, m, e, w, SIZE);
    }

    static lemma OperandInt(n: int, p: int)
      requires IsPrime(p)
      ensures Denotes(n, 1, n % p, p)
    {
      CongMod(n, p);
      ModSmall(1, p);
    }

    static lemma FractionInit(n: int, d: int, v: int, m: int, e: int, w: int, p: int)
      requires IsPrime(p) && Denotes(n, d, v, p) && Denotes(m, e, w, p) && 0 <= v < p && 0 < w < p
      ensures var num, den := (n * e) % p, (d * m) % p;
              0 < den < p && Ratio(num, if num == 0 then 1 else den, p) == Ratio(v, w, p)
    {
      ModSmall(w, p);
      DenotesQuotient(n, d, v, m, e, w, p);
      var q := Ratio(v, w, p);
      DenotesReduce(n * e, d * m, q, p);
      ModSmall(q, p);
      DenotesUnique((n * e) % p, (d * m) % p, q, p);
      if (n * e) % p == 0 {
        ZeroDenotes((d * m) % p, q, p);
        DenotesInt(0, p);
      }
    }

    static lemma ZeroDenotes(d: int, v: int, p: int)
      requires IsPrime(p) && Denotes(0, d, v, p) && 0 <= v < p
      ensures v == 0
    {
      PrimeDivides(v, d, p);
      ModSmall(v, p);
    }

    method Add(a: Operand) returns (r: FE)
      requires IsPrime(SIZE) && Valid() && a.Valid()
      ensures fresh(r) && r.Valid() && r.Val() == FAdd(Val(), a.Val())
    {
      hide SIZE;
      SumLemma(a);
      if a.Elem? {
        r := new FE(Num(num * a.fe.den + den * a.fe.num), Num(den * a.fe.den));
      } else {
        r := new FE(Num(num + den * a.n), Num(den));
      }
    }

    method Sub(a: Operand) returns (r: FE)
      requires IsPrime(SIZE) && Valid() && a.Valid()
      ensures fresh(r) && r.Valid() && r.Val() == FSub(Val(), a.Val())
    {
      hide SIZE;
      SumLemma(a);
      if a.Elem? {
        r := new FE(Num(num * a.fe.den - den * a.fe.num), Num(den * a.fe.den));
      } else {
        r := new FE(Num(num - den * a.n), Num(den));
      }
    }

    method Mul(a: Operand) returns (r: FE)
      requires IsPrime(SIZE) && Valid() && a.Valid()
      ensures fresh(r) && r.Valid() && r.Val() == FMul(Val(), a.Val())
    {
      SumLemma(a);
      if a.Elem? {
        r := new FE(Num(num * a.fe.num), Num(den * a.fe.den));
      } else {
        r := new FE(Num(num * a.n), Num(den));
      }
    }

    /** The numerators and denominators that Add, Sub and Mul build denote the right values. */
    lemma SumLemma(a: Operand)
      requires IsPrime(SIZE) && Valid() && a.Valid()
      ensures var m := if a.Num? then a.n else a.fe.num;
              var e := if a.Num? then 1 else a.fe.den;
              && (den * e) % SIZE != 0
              && Ratio((num * e + den * m) % SIZE, (den * e) % SIZE, SIZE) == FAdd(Val(), a.Val())
              && Ratio((num * e - den * m) % SIZE, (den * e) % SIZE, SIZE) == FSub(Val(), a.Val())
              && Ratio((num * m) % SIZE, (den * e) % SIZE, SIZE) == FMul(Val(), a.Val())
    {
      hide *;
      var m := if a.Num? then a.n else a.fe.num;
      var e := if a.Num? then 1 else a.fe.den;
      Meaning();
      OperandMeaning(a);
      FractionSum(num, den, Val(), m, e, a.Val(), SIZE);
      Operations(Val(), a.Val());
    }

    static lemma OperandMeaning(a: Operand)
      requires IsPrime(SIZE) && a.Valid()
      ensures Denotes(if a.Num? then a.n else a.fe.num, if a.Num? then 1 else a.fe.den, a.Val(), SIZE)
    {
      hide SIZE, Denotes;
      if a.Elem? { a.fe.Meaning(); } else { OperandInt(a.n, SIZE); }
    }

    static lemma Operations(v: int, w: int)
      ensures FAdd(v, w) == (v + w) % SIZE && FSub(v, w) == (v - w) % SIZE && FMul(v, w) == (v * w) % SIZE
    {
      hide SIZE;
    }

    static lemma FractionSum(n: int, d: int, v: int, m: int, e: int, w: int, p: int)
      requires IsPrime(p) && Denotes(n, d, v, p) && Denotes(m, e, w, p)
      ensures (d * e) % p != 0
      ensures Ratio((n * e + d * m) % p, (d * e) % p, p) == (v + w) % p
      ensures Ratio((n * e - d * m) % p, (d * e) % p, p) == (v - w) % p
      ensures Ratio((n * m) % p, (d * e) % p, p) == (v * w) % p
    {
      DenotesSum(n, d, v, m, e, w, p);
      ReducedRatio(n * e + d * m, d * e, v + w, p);
      ReducedRatio(n * e - d * m, d * e, v - w, p);
      ReducedRatio(n * m, d * e, v * w, p);
    }

    static lemma ReducedRatio(n: int, d: int, v: int, p: int)
      requires IsPrime(p) && Denotes(n, d, v, p)
      ensures Ratio(n % p, d % p, p) == v % p
    {
      DenotesReduce(n, d, v, p);
      DenotesUnique(n % p, d % p, v % p, p);
    }

    method TrueDiv(a: Operand) returns (r: FE)
      requires IsPrime(SIZE) && Valid() && a.Valid() && a.Val() != 0
      ensures fresh(r) && r.Valid() && r.Val() == FDiv(Val(), a.Val())
    {
      r := new FE(Elem(this), a);
    }

    /** Null where Python's pow raises: a negative power of zero. */
    method Pow(e: int) returns (r: FE?)
      requires IsPrime(SIZE) && Valid()
      ensures r == null <==> e < 0 && Val() == 0
      ensures r != null ==> fresh(r) && r.Valid()
      ensures r != null && e >= 0 ==> r.Val() == FPow(Val(), e)
      ensures r != null && e < 0 ==> FMul(FPow(Val(), -e), r.Val()) == 1
    {
      Meaning();
      hide SIZE, FPow, FMul, FDiv, Operand.Val;
      ZeroNumerator(num, den, Val(), SIZE);
      if e >= 0 {
        PowerParts(num, den, Val(), e);
        r := new FE(Num(FPow(num, e)), Num(FPow(den, e)));
      } else if num == 0 {
        r := null;
      } else {
        var n, d := Inverse(num, SIZE), Inverse(den, SIZE);
        ghost var w := FDiv(n, d);
        InverseParts(num, den, Val());
        PowerParts(n, d, w, -e);
        r := new FE(Num(FPow(n, -e)), Num(FPow(d, -e)));
        assert FMul(FPow(Val(), -e), FPow(w, -e)) == 1 by {
          FieldPower(Val(), w, -e);
        }
      }
    }

    static lemma ZeroNumerator(n: int, d: int, v: int, p: int)
      requires IsPrime(p) && Denotes(n, d, v, p) && 0 <= n < p && 0 <= v < p
      ensures n == 0 <==> v == 0
    {
      if n == 0 { ZeroDenotes(d, v, p); }
      if v == 0 { CongUnique(0, n, p); }
    }

    static lemma PowerParts(n: int, d: int, v: int, e: nat)
      requires IsPrime(SIZE) && Denotes(n, d, v, SIZE)
      ensures var a, b := Num(FPow(n, e)), Num(FPow(d, e));
              a.Valid() && b.Valid() && b.Val() != 0 && FDiv(a.Val(), b.Val()) == FPow(v, e)
    {
      hide SIZE;
      DenotesPower(n, d, v, e, SIZE);
      ReducedRatio(NumberTheory.Pow(n, e), NumberTheory.Pow(d, e), NumberTheory.Pow(v, e), SIZE);
      CongMod(NumberTheory.Pow(n, e), SIZE);
      CongMod(NumberTheory.Pow(d, e), SIZE);
      ModSmall(FPow(n, e), SIZE);
      ModSmall(FPow(d, e), SIZE);
    }

    static lemma InverseParts(n: int, d: int, v: int)
      requires IsPrime(SIZE) && Denotes(n, d, v, SIZE) && 0 < n < SIZE
      ensures var i, j := Inverse(n, SIZE), Inverse(d, SIZE);
              Denotes(i, j, FDiv(i, j), SIZE) && FMul(v, FDiv(i, j)) == 1
    {
      hide SIZE;
      ModSmall(n, SIZE);
      DenotesInverse(n, d, v, SIZE);
    }

    static lemma FieldPower(v: int, w: int, k: nat)
      requires FMul(v, w) == 1
      ensures FMul(FPow(v, k), FPow(w, k)) == 1
    {
      hide SIZE;
      PowerOfInverse(v, w, k, SIZE);
    }

    method Neg() returns (r: FE)
      requires IsPrime(SIZE) && Valid()
      ensures fresh(r) && r.Valid() && r.Val() == FNeg(Val())
    {
      hide SIZE;
      Meaning();
      OperandInt(0, SIZE);
      FractionSum(0, 1, 0, num, den, Val(), SIZE);
      ModSmall(den, SIZE);
      r := new FE(Num(-num), Num(den));
    }

    /** int(): the cached conversion changes the representation, never the value. */
    method ToInt() returns (n: int)
      requires IsPrime(SIZE) && Valid()
      modifies this
      ensures Valid() && Val() == old(Val()) && n == Val()
      ensures num == n && den == 1
    {
      Meaning();
      ghost var v := Val();
      if den != 1 {
        num := (num * Inverse(den, SIZE)) % SIZE;
        den := 1;
      }
      DenotesInt(v, SIZE);
      ModSmall(v, SIZE);
      return num;
    }

    static lemma SqrtParts(v: int)
      ensures var s := FPow(v, (SIZE + 1) / 4);
              0 <= s < SIZE && FSqrt(v) == if FMul(s, s) == v then (true, s) else (false, 0)
    {
      hide SIZE, NumberTheory.Pow, FMul;
    }

    method Sqrt() returns (r: FE?)
      requires IsPrime(SIZE) && Valid()
      modifies this
      ensures Valid() && Val() == old(Val())
      ensures (r == null) == !FSqrt(Val()).0
      ensures r != null ==> fresh(r) && r.Valid() && r.Val() == FSqrt(Val()).1
      ensures r != null <==> IsSquare(Val())
    {
      var v := ToInt();
      SqrtComplete(v);
      SqrtParts(v);
      NumMeans(1);
      hide *;
      var s := FPow(v, (SIZE + 1) / 4);
      if FMul(s, s) == v {
        NumMeans(s);
        r := new FE(Num(s));
      } else {
        r := null;
      }
    }

    method IsEven() returns (b: bool)
      requires IsPrime(SIZE) && Valid()
      modifies this
      ensures Valid() && Val() == old(Val()) && b == (Val() % 2 == 0)
    {
      var n := ToInt();
      b := n % 2 == 0;
    }

    /** ==: cross multiplication, hence independent of the representation. */
    method Eq(a: Operand) returns (b: bool)
      requires IsPrime(SIZE) && Valid() && a.Valid()
      ensures b == (Val() == a.Val())
    {
      Meaning();
      if a.Elem? {
        a.fe.Meaning();
        DenotesEqual(num, den, Val(), a.fe.num, a.fe.den, a.fe.Val(), SIZE);
        b := (num * a.fe.den - den * a.fe.num) % SIZE == 0;
      } else {
        OperandInt(a.n, SIZE);
        DenotesEqual(num, den, Val(), a.n, 1, a.n % SIZE, SIZE);
        b := (num - den * a.n) % SIZE == 0;
      }
    }

    method ToBytes() returns (b: Bytes32)
      requires IsPrime(SIZE) && Valid()
      modifies this
      ensures Valid() && Val() == old(Val()) && FromBE(b) == Val()
    {
      var n := ToInt();
      Two256();
      BERoundTrip(n, 32);
      b := ToBE(n, 32);
    }

    static method FromBytes(b: Bytes32) returns (r: FE?)
      requires IsPrime(SIZE)
      ensures r == null <==> FromBE(b) >= SIZE
      ensures r != null ==> fresh(r) && r.Valid() && r.Val() == FromBE(b)
    {
      var v := FromBE(b);
      if v >= SIZE {
        r := null;
      } else {
        ModSmall(v, SIZE);
        r := new FE(Num(v));
      }
    }
  }
}
