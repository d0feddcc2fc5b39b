/** Congruences, primes and inverses: the arithmetic that the field, the curve, the signatures and the
    set hash share.  Nothing here is specific to one modulus. */
module NumberTheory {

  /** a and b leave the same remainder modulo m. */
  ghost predicate Cong(a: int, b: int, m: int)
    requires m > 0
  {
    (a - b) % m == 0
  }

  ghost predicate Divisor(d: int, n: int) {
    d != 0 && n % d == 0
  }

  ghost predicate IsPrime(p: int) {
    p > 1 && forall d :: 1 < d < p ==> !Divisor(d, p)
  }

  function Pow(b: int, e: nat): int {
    if e == 0 then 1 else b * Pow(b, e - 1)
  }

  lemma PowStep(b: int, e: nat)
    ensures Pow(b, e) == if e == 0 then 1 else b * Pow(b, e - 1)
  {
  }

  lemma MulGap(k: int, m: int)
    requires m > 0
    ensures k >= 1 ==> k * m >= m
    ensures k <= -1 ==> k * m <= -m
  {
  }

  lemma MulMod(k: int, m: int)
    requires m > 0
    ensures (k * m) % m == 0
  {
    var q, r := (k * m) / m, (k * m) % m;
    assert k * m == m * q + r;
    assert (k - q) * m == r;
    MulGap(k - q, m);
  }

  lemma MulMod'(k: int, m: int)
    requires m > 0
    ensures (m * k) % m == 0
  {
    MulMod(k, m);
    assert m * k == k * m;
  }

  lemma QuotientUnique(a: int, m: int, q: int, r: int)
    requires m > 0 && a == m * q + r && 0 <= r < m
    ensures a / m == q && a % m == r
  {
    var d := a / m - q;
    assert m * (a / m) + a % m == m * q + r;
    assert m * d == r - a % m;
    MulGap(d, m);
  }

  /** The converse of CongWitness: a difference that is k*m makes a congruence. */
  lemma CongIntro(a: int, b: int, k: int, m: int)
    requires m > 0 && a - b == k * m
    ensures Cong(a, b, m)
  {
    MulMod(k, m);
  }

  lemma CongWitness(a: int, b: int, m: int) returns (k: int)
    requires m > 0 && Cong(a, b, m)
    ensures a - b == k * m
  {
    k := (a - b) / m;
  }

  lemma CongSym(a: int, b: int, m: int)
    requires m > 0 && Cong(a, b, m)
    ensures Cong(b, a, m)
  {
    var k := CongWitness(a, b, m);
    CongIntro(b, a, -k, m);
  }

  lemma CongTrans(a: int, b: int, c: int, m: int)
    requires m > 0 && Cong(a, b, m) && Cong(b, c, m)
    ensures Cong(a, c, m)
  {
    var k := CongWitness(a, b, m);
    var l := CongWitness(b, c, m);
    CongIntro(a, c, k + l, m);
  }

  lemma CongAdd(a: int, b: int, c: int, d: int, m: int)
    requires m > 0 && Cong(a, b, m) && Cong(c, d, m)
    ensures Cong(a + c, b + d, m)
  {
    var k := CongWitness(a, b, m);
    var l := CongWitness(c, d, m);
    CongIntro(a + c, b + d, k + l, m);
  }

  lemma CongSub(a: int, b: int, c: int, d: int, m: int)
    requires m > 0 && Cong(a, b, m) && Cong(c, d, m)
    ensures Cong(a - c, b - d, m)
  {
    var k := CongWitness(a, b, m);
    var l := CongWitness(c, d, m);
    CongIntro(a - c, b - d, k - l, m);
  }

  lemma CongMul(a: int, b: int, c: int, d: int, m: int)
    requires m > 0 && Cong(a, b, m) && Cong(c, d, m)
    ensures Cong(a * c, b * d, m)
  {
    var k := CongWitness(a, b, m);
    var l := CongWitness(c, d, m);
    calc {
      a * c - b * d;
      a * (c - d) + (a - b) * d;
      a * (l * m) + (k * m) * d;
      (a * l + k * d) * m;
    }
    CongIntro(a * c, b * d, a * l + k * d, m);
  }

  lemma CongMod(a: int, m: int)
    requires m > 0
    ensures 0 <= a % m < m && Cong(a, a % m, m) && Cong(a % m, a, m)
  {
    CongIntro(a, a % m, a / m, m);
    CongSym(a, a % m, m);
  }

  lemma CongUnique(a: int, b: int, m: int)
    requires m > 0 && 0 <= a < m && 0 <= b < m && Cong(a, b, m)
    ensures a == b
  {
    var k := CongWitness(a, b, m);
    MulGap(k, m);
  }

  lemma CongSameMod(a: int, b: int, m: int)
    requires m > 0
    ensures Cong(a, b, m) <==> a % m == b % m
  {
    CongMod(a, m);
    CongMod(b, m);
    if Cong(a, b, m) {
      CongTrans(a % m, a, b, m);
      CongTrans(a % m, b, b % m, m);
      CongUnique(a % m, b % m, m);
    } else if a % m == b % m {
      CongTrans(a, a % m, b, m);
    }
  }

  lemma CongRefl(a: int, m: int)
    requires m > 0
    ensures Cong(a, a, m)
  {
  }

  lemma SumMod(a: int, b: int, m: int)
    requires m > 0
    ensures (a % m + b % m) % m == (a + b) % m
  {
    hide *;
    CongMod(a, m);
    CongMod(b, m);
    CongAdd(a % m, a, b % m, b, m);
    CongSameMod(a % m + b % m, a + b, m);
  }

  lemma ProductMod(a: int, b: int, m: int)
    requires m > 0
    ensures ((a % m) * (b % m)) % m == (a * b) % m
  {
    hide *;
    CongMod(a, m);
    CongMod(b, m);
    CongMul(a % m, a, b % m, b, m);
    CongSameMod((a % m) * (b % m), a * b, m);
  }

  // ----- divisors and inverses -----

  /** Euclid's algorithm with the two Bezout coefficients. */
  function ExtendedGcd(a: nat, b: nat): (r: (int, int, int))
    requires a > 0 || b > 0
    ensures r.0 > 0 && a % r.0 == 0 && b % r.0 == 0
    ensures a * r.1 + b * r.2 == r.0
    decreases b
  {
    if b == 0 then MulMod(1, a); (a, 1, 0)
    else
      var t := ExtendedGcd(b, a % b);
      BezoutStep(a, b, t.0, t.1, t.2);
      (t.0, t.2, t.1 - (a / b) * t.2)
  }

  lemma BezoutStep(a: nat, b: nat, g: int, u: int, v: int)
    requires b > 0 && g > 0 && b % g == 0 && (a % b) % g == 0
    requires b * u + (a % b) * v == g
    ensures a % g == 0
    ensures a * v + b * (u - (a / b) * v) == g
  {
    DividesBack(a, b, a / b, a % b, g);
    Regroup(a, b, a / b, a % b, u, v);
  }

  lemma DividesBack(a: int, b: int, q: int, r: int, g: int)
    requires g > 0 && b % g == 0 && r % g == 0 && a == b * q + r
    ensures a % g == 0
  {
    var kb, kr := b / g, r / g;
    assert b == kb * g && r == kr * g;
    calc {
      a;
      (kb * g) * q + kr * g;
      (kb * q + kr) * g;
    }
    MulMod(kb * q + kr, g);
  }

  lemma Regroup(a: int, b: int, q: int, r: int, u: int, v: int)
    requires a == b * q + r
    ensures a * v + b * (u - q * v) == b * u + r * v
  {
    assert a * v == (b * q) * v + r * v;
    assert b * (u - q * v) == b * u - b * (q * v);
    assert (b * q) * v == b * (q * v);
  }

  /** Python's pow(d, -1, m); meaningful when d and m have no common divisor. */
  function Inverse(d: int, m: int): (x: int)
    requires m > 0
    ensures 0 <= x < m
  {
    ExtendedGcd(d % m, m).1 % m
  }

  /** d has an inverse modulo m. */
  predicate Unit(d: int, m: int)
    requires m > 0
  {
    ExtendedGcd(d % m, m).0 == 1
  }

  lemma BezoutUnit(r: int, u: int, m: int, v: int)
    requires r * u + m * v == 1
    ensures u * r - 1 == -v * m
  {
  }

  lemma UnitInverse(d: int, m: int)
    requires m > 1 && Unit(d, m)
    ensures (Inverse(d, m) * d) % m == 1
  {
    var t := ExtendedGcd(d % m, m);
    var u := t.1;
    assert t.0 == 1 && Inverse(d, m) == u % m;
    hide *;
    CongMod(u, m);
    CongMod(d, m);
    CongMul(u % m, u, d, d % m, m);
    BezoutUnit(d % m, u, m, t.2);
    CongIntro(u * (d % m), 1, -t.2, m);
    CongTrans(Inverse(d, m) * d, u * (d % m), 1, m);
    CongSameMod(Inverse(d, m) * d, 1, m);
    ModSmall(1, m);
  }

  /** A number that a prime does not divide has an inverse modulo it. */
  lemma PrimeInverse(d: int, p: int)
    requires IsPrime(p) && d % p != 0
    ensures Unit(d, p) && (Inverse(d, p) * d) % p == 1
  {
    var r := d % p;
    var g := ExtendedGcd(r, p).0;
    assert g <= r by {
      var k := r / g;
      assert r == k * g;
      MulGap(k, g);
    }
    assert Divisor(g, p);
    assert g == 1;
    UnitInverse(d, p);
  }

  lemma ModSmall(a: int, m: int)
    requires 0 <= a < m
    ensures a % m == a
  {
  }

  lemma CancelMul(x: int, y: int, d: int, p: int)
    requires IsPrime(p) && d % p != 0 && Cong(x * d, y * d, p)
    ensures Cong(x, y, p)
  {
    PrimeInverse(d, p);
    UnitCancel(x, y, d, Inverse(d, p), p);
  }

  /** Cancelling a factor that has an inverse, whatever the modulus. */
  lemma UnitCancel(x: int, y: int, d: int, i: int, m: int)
    requires m > 1 && (i * d) % m == 1 && Cong(x * d, y * d, m)
    ensures Cong(x, y, m)
  {
    UnitScale(x, d, i, m);
    UnitScale(y, d, i, m);
    CongMul(x * d, y * d, i, i, m);
    CongSym(x * d * i, x, m);
    CongTrans(x, x * d * i, y * d * i, m);
    CongTrans(x, y * d * i, y, m);
  }

  lemma UnitScale(x: int, d: int, i: int, m: int)
    requires m > 1 && (i * d) % m == 1
    ensures Cong(x * d * i, x, m)
  {
    ModSmall(1, m);
    CongSameMod(i * d, 1, m);
    CongMul(x, x, i * d, 1, m);
    assert x * d * i == x * (i * d);
  }

  /** Euclid's lemma. */
  lemma PrimeDivides(a: int, b: int, p: int)
    requires IsPrime(p) && (a * b) % p == 0
    ensures a % p == 0 || b % p == 0
  {
    if b % p != 0 {
      CancelMul(a, 0, b, p);
    }
  }

  // ----- powers -----

  lemma {:induction false} PowAdd(b: int, e: nat, f: nat)
    ensures Pow(b, e + f) == Pow(b, e) * Pow(b, f)
  {
    if e > 0 {
      PowAdd(b, e - 1, f);
      calc {
        Pow(b, e + f);
        b * Pow(b, e - 1 + f);
        b * (Pow(b, e - 1) * Pow(b, f));
        (b * Pow(b, e - 1)) * Pow(b, f);
      }
    }
  }

  lemma {:induction false} PowMul(b: int, e: nat, f: nat)
    ensures Pow(Pow(b, e), f) == Pow(b, e * f)
  {
    if f == 0 {
      assert e * f == 0;
    } else {
      PowMul(b, e, f - 1);
      assert e * f == e + e * (f - 1);
      PowAdd(b, e, e * (f - 1));
    }
  }

  lemma {:induction false} PowCong(a: int, b: int, e: nat, m: int)
    requires m > 0 && Cong(a, b, m)
    ensures Cong(Pow(a, e), Pow(b, e), m)
  {
    if e > 0 {
      PowCong(a, b, e - 1, m);
      CongMul(a, b, Pow(a, e - 1), Pow(b, e - 1), m);
    }
  }

  lemma {:induction false} PowDistributes(a: int, b: int, e: nat)
    ensures Pow(a * b, e) == Pow(a, e) * Pow(b, e)
  {
    if e > 0 {
      PowDistributes(a, b, e - 1);
      calc {
        Pow(a * b, e);
        (a * b) * (Pow(a, e - 1) * Pow(b, e - 1));
        (a * Pow(a, e - 1)) * (b * Pow(b, e - 1));
      }
    }
  }

  lemma {:induction false} PrimePow(d: int, e: nat, p: int)
    requires IsPrime(p) && d % p != 0
    ensures Pow(d, e) % p != 0
  {
    if e == 0 {
      ModSmall(1, p);
    } else {
      PrimePow(d, e - 1, p);
      if Pow(d, e) % p == 0 { PrimeDivides(d, Pow(d, e - 1), p); }
    }
  }

  // ----- Fermat's little theorem, through the binomial coefficients -----

  function Choose(n: nat, k: nat): nat {
    if k == 0 then 1
    else if n == 0 then 0
    else Choose(n - 1, k - 1) + Choose(n - 1, k)
  }

  lemma {:induction false} ChooseAbove(n: nat, k: nat)
    requires k > n
    ensures Choose(n, k) == 0
  {
    if n > 0 {
      ChooseAbove(n - 1, k - 1);
      ChooseAbove(n - 1, k);
    }
  }

  lemma {:induction false} ChooseSelf(n: nat)
    ensures Choose(n, n) == 1
  {
    if n > 0 {
      ChooseSelf(n - 1);
      ChooseAbove(n - 1, n);
    }
  }

  lemma {:induction false} Absorption(n: nat, k: nat)
    requires n > 0 && k > 0
    ensures k * Choose(n, k) == n * Choose(n - 1, k - 1)
  {
    if n == 1 {
      ChooseAbove(0, k);
      if k > 1 { ChooseAbove(0, k - 1); }
    } else if k == 1 {
      Absorption(n - 1, 1);
    } else {
      Absorption(n - 1, k - 1);
      Absorption(n - 1, k);
      AbsorptionStep(n, k, Choose(n - 1, k - 1), Choose(n - 1, k), Choose(n - 2, k - 2), Choose(n - 2, k - 1));
    }
  }

  lemma AbsorptionStep(n: int, k: int, f: int, e: int, c: int, d: int)
    requires f == c + d && (k - 1) * f == (n - 1) * c && k * e == (n - 1) * d
    ensures k * (f + e) == n * f
  {
    assert k * (f + e) == (k - 1) * f + f + k * e;
    assert (n - 1) * c + (n - 1) * d == (n - 1) * f;
  }

  lemma PrimeChoose(p: nat, k: nat)
    requires IsPrime(p) && 0 < k < p
    ensures Choose(p, k) % p == 0
  {
    hide *;
    Absorption(p, k);
    MulMod'(Choose(p - 1, k - 1), p);
    PrimeDivides(k, Choose(p, k), p);
    ModSmall(k, p);
  }

  /** Terms 0..k-1 of the binomial expansion of (x+1)^n. */
  function Binomial(n: nat, x: int, k: nat): int {
    if k == 0 then 0 else Binomial(n, x, k - 1) + Choose(n, k - 1) * Pow(x, k - 1)
  }

  lemma {:induction false} BinomialStep(n: nat, x: int, k: nat)
    requires n > 0 && k > 0
    ensures Binomial(n, x, k) == Binomial(n - 1, x, k) + x * Binomial(n - 1, x, k - 1)
  {
    if k == 1 {
      assert Binomial(n, x, 1) == Binomial(n, x, 0) + Choose(n, 0) * Pow(x, 0);
      assert Binomial(n - 1, x, 1) == Binomial(n - 1, x, 0) + Choose(n - 1, 0) * Pow(x, 0);
    } else {
      BinomialStep(n, x, k - 1);
      BinomialTerm(x, Choose(n - 1, k - 2), Choose(n - 1, k - 1), Pow(x, k - 2), Binomial(n - 1, x, k - 2));
    }
  }

  lemma BinomialTerm(x: int, a: int, b: int, w: int, s: int)
    ensures (a + b) * (x * w) + x * s == b * (x * w) + x * (s + a * w)
  {
  }

  lemma BinomialSum(x: int, b: int, c: int, w: int)
    requires c == 0
    ensures b + c * w + x * b == (x + 1) * b
  {
  }

  lemma {:induction false} BinomialTheorem(n: nat, x: int)
    ensures Binomial(n, x, n + 1) == Pow(x + 1, n)
  {
    if n == 0 {
      assert Binomial(0, x, 1) == Binomial(0, x, 0) + Choose(0, 0) * Pow(x, 0);
    } else {
      BinomialTheorem(n - 1, x);
      BinomialStep(n, x, n + 1);
      ChooseAbove(n - 1, n);
      assert Binomial(n - 1, x, n + 1) == Binomial(n - 1, x, n) + Choose(n - 1, n) * Pow(x, n);
      assert Pow(x + 1, n) == (x + 1) * Pow(x + 1, n - 1);
      BinomialSum(x, Binomial(n - 1, x, n), Choose(n - 1, n), Pow(x, n));
    }
  }

  /** Modulo a prime only the first term of the expansion survives, up to the last one. */
  lemma {:induction false} BinomialPrime(p: nat, x: int, k: nat)
    requires IsPrime(p) && 0 < k <= p
    ensures Cong(Binomial(p, x, k), 1, p)
  {
    if k == 1 {
      assert Binomial(p, x, 1) == Binomial(p, x, 0) + Choose(p, 0) * Pow(x, 0);
    } else {
      BinomialPrime(p, x, k - 1);
      PrimeChoose(p, k - 1);
      CongMul(Choose(p, k - 1), 0, Pow(x, k - 1), Pow(x, k - 1), p);
      CongAdd(Binomial(p, x, k - 1), 1, Choose(p, k - 1) * Pow(x, k - 1), 0, p);
    }
  }

  lemma {:induction false} FermatNat(a: nat, p: nat)
    requires IsPrime(p)
    ensures Cong(Pow(a, p), a, p)
  {
    if a == 0 {
      assert Pow(0, p) == 0 * Pow(0, p - 1);
    } else {
      FermatNat(a - 1, p);
      BinomialTheorem(p, a - 1);
      BinomialPrime(p, a - 1, p);
      ChooseSelf(p);
      assert Binomial(p, a - 1, p + 1) == Binomial(p, a - 1, p) + Choose(p, p) * Pow(a - 1, p);
      hide *;
      assert Pow(a, p) == Binomial(p, a - 1, p) + Pow(a - 1, p);
      CongAdd(Binomial(p, a - 1, p), 1, Pow(a - 1, p), a - 1, p);
    }
  }
}
