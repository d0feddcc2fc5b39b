/** The set hash of muhash.py: a fraction of products that stands for a multiset. */
module MuHash {
  import opened NumberTheory
  import opened Bytes

  /** data_to_num3072(sha256(data)): any function into the naturals. */
  type Number = Bytes -> nat

  datatype Op = Insert(data: Bytes) | Remove(data: Bytes)
  datatype State = State(numerator: int, denominator: int)

  function Modulus(): (m: int)
    ensures 1 < m < Pow(256, 384)
  {
    ModulusRange();
    Pow(2, 3072) - 1103717
  }

  lemma ModulusRange()
    ensures 1 < Pow(2, 3072) - 1103717 < Pow(256, 384)
  {
    Pow256(384);
    PowMonotone(2, 24, 3072);
    Pow256(3);
    assert Pow(256, 3) == 256 * Pow(256, 2) && Pow(256, 2) == 256 * Pow(256, 1) && Pow(256, 1) == 256 * Pow(256, 0);
  }

  /** The largest 3072-bit safe prime, by its distance from 2^3072. */
  lemma ModulusIs()
    ensures Modulus() + 1103717 == Pow(2, 3072)
  {
    ModulusRange();
  }

  function Step(num: Number, s: State, op: Op): State {
    match op
    case Insert(d) => s.(numerator := (s.numerator * num(d)) % Modulus())
    case Remove(d) => s.(denominator := (s.denominator * num(d)) % Modulus())
  }

  /** The state after any run of calls. */
  function Run(num: Number, ops: seq<Op>): State {
    if ops == [] then State(1, 1) else Step(num, Run(num, ops[..|ops| - 1]), ops[|ops| - 1])
  }

  /** The value fed to the final hash. */
  function Value(s: State): (v: Option<int>)
    ensures v.Some? ==> 0 <= v.value < Modulus()
  {
    if Unit(s.denominator, Modulus()) then Some((s.numerator * Inverse(s.denominator, Modulus())) % Modulus()) else None
  }

  function Inserted(ops: seq<Op>): seq<Bytes> {
    if ops == [] then []
    else
      var last := ops[|ops| - 1];
      if last.Insert? then Inserted(ops[..|ops| - 1]) + [last.data] else Inserted(ops[..|ops| - 1])
  }

  function Removed(ops: seq<Op>): seq<Bytes> {
    if ops == [] then []
    else
      var last := ops[|ops| - 1];
      if last.Remove? then Removed(ops[..|ops| - 1]) + [last.data] else Removed(ops[..|ops| - 1])
  }

  function Product(num: Number, xs: seq<Bytes>): int {
    if xs == [] then 1 else Product(num, xs[..|xs| - 1]) * num(xs[|xs| - 1])
  }

  lemma ProductSnoc(num: Number, xs: seq<Bytes>, x: Bytes)
    ensures Product(num, xs + [x]) == Product(num, xs) * num(x)
  {
    assert (xs + [x])[..|xs|] == xs;
  }

  lemma StepMod(p: int, n: int, m: int)
    requires m > 0
    ensures (p % m * n) % m == (p * n) % m
  {
    CongMod(p, m);
    CongRefl(n, m);
    CongMul(p % m, p, n, n, m);
    CongSameMod(p % m * n, p * n, m);
  }

  /** The two fields are the products of what was inserted and of what was removed. */
  lemma {:induction false} RunIsProducts(num: Number, ops: seq<Op>)
    ensures Run(num, ops) == State(Product(num, Inserted(ops)) % Modulus(), Product(num, Removed(ops)) % Modulus())
  {
    hide Modulus, Product;
    if ops == [] {
      assert Product(num, []) == 1 by { EmptyProduct(num); }
      ModSmall(1, Modulus());
    } else {
      var front, last := ops[..|ops| - 1], ops[|ops| - 1];
      RunIsProducts(num, front);
      var xs := if last.Insert? then Inserted(front) else Removed(front);
      ProductSnoc(num, xs, last.data);
      StepMod(Product(num, xs), num(last.data), Modulus());
    }
  }

  lemma EmptyProduct(num: Number)
    ensures Product(num, []) == 1
  {
  }

  // ----- units -----

  /** The converse of UnitInverse. */
  lemma UnitFromInverse(d: int, x: int, m: int)
    requires m > 1 && Cong(x * d, 1, m)
    ensures Unit(d, m)
  {
    var t := ExtendedGcd(d % m, m);
    var k := CongWitness(x * d, 1, m);
    var q := d / m;
    var a, b := (d % m) / t.0, m / t.0;
    assert d % m == a * t.0 && m == b * t.0;
    hide *;
    UnitArithmetic(t.0, x, d, d % m, q, m, k, a, b);
  }

  lemma UnitArithmetic(g: int, x: int, d: int, r: int, q: int, m: int, k: int, a: int, b: int)
    requires g > 0 && x * d - 1 == k * m && d == q * m + r && r == a * g && m == b * g
    ensures g == 1
  {
    var s := x * (q * b + a) - k * b;
    calc {
      1;
      x * d - k * m;
      x * (q * (b * g) + a * g) - k * (b * g);
      { assert q * (b * g) + a * g == (q * b + a) * g; }
      x * ((q * b + a) * g) - k * (b * g);
      { Factor(x, q * b + a, k, b, g); }
      s * g;
    }
    MulGap(s, g);
  }

  lemma Factor(x: int, c: int, k: int, b: int, g: int)
    ensures x * (c * g) - k * (b * g) == (x * c - k * b) * g
  {
  }

  lemma UnitOfMod(d: int, m: int)
    requires m > 1
    ensures Unit(d % m, m) <==> Unit(d, m)
  {
    CongMod(d, m);
    ModSmall(d % m, m);
  }

  lemma UnitProduct(a: int, b: int, m: int)
    requires m > 1
    ensures Unit(a * b, m) <==> Unit(a, m) && Unit(b, m)
  {
    hide Unit, Inverse;
    ModSmall(1, m);
    if Unit(a * b, m) {
      UnitInverse(a * b, m);
      var i := Inverse(a * b, m);
      CongSameMod(i * (a * b), 1, m);
      assert i * (a * b) == (i * b) * a == (i * a) * b;
      UnitFromInverse(a, i * b, m);
      UnitFromInverse(b, i * a, m);
    }
    if Unit(a, m) && Unit(b, m) {
      UnitInverse(a, m);
      UnitInverse(b, m);
      var i, j := Inverse(a, m), Inverse(b, m);
      CongSameMod(i * a, 1, m);
      CongSameMod(j * b, 1, m);
      CongMul(i * a, 1, j * b, 1, m);
      Interchange(i, a, j, b);
      UnitFromInverse(a * b, i * j, m);
    }
  }

  lemma Interchange(i: int, a: int, j: int, b: int)
    ensures (i * a) * (j * b) == (i * j) * (a * b)
  {
  }

  ghost predicate AllUnits(num: Number, xs: seq<Bytes>) {
    forall i :: 0 <= i < |xs| ==> Unit(num(xs[i]), Modulus())
  }

  lemma {:induction false} ProductUnit(num: Number, xs: seq<Bytes>)
    ensures Unit(Product(num, xs), Modulus()) <==> AllUnits(num, xs)
  {
    hide Modulus, Unit;
    if xs == [] {
      ModSmall(1, Modulus());
      CongRefl(1, Modulus());
      UnitFromInverse(1, 1, Modulus());
    } else {
      var front := xs[..|xs| - 1];
      ProductUnit(num, front);
      UnitProduct(Product(num, front), num(xs[|xs| - 1]), Modulus());
      assert AllUnits(num, xs) <==> AllUnits(num, front) && Unit(num(xs[|xs| - 1]), Modulus());
    }
  }

  /** The digest raises exactly when the number of some removed element has no inverse. */
  lemma DigestReturnsIff(num: Number, ops: seq<Op>)
    ensures Value(Run(num, ops)).Some? <==> AllUnits(num, Removed(ops))
  {
    hide Modulus, Unit, AllUnits, Run;
    RunIsProducts(num, ops);
    ProductUnit(num, Removed(ops));
    UnitOfMod(Product(num, Removed(ops)), Modulus());
  }

  // ----- the value is a fraction -----

  /** The value times the product of the removed elements is the product of the inserted ones. */
  lemma ValueTimesRemoved(num: Number, ops: seq<Op>)
    requires AllUnits(num, Removed(ops))
    ensures Value(Run(num, ops)).Some?
    ensures Cong(Value(Run(num, ops)).value * Product(num, Removed(ops)), Product(num, Inserted(ops)), Modulus())
  {
    DigestReturnsIff(num, ops);
    RunIsProducts(num, ops);
    var s, m := Run(num, ops), Modulus();
    var v := Value(s).value;
    assert Unit(s.denominator, m) && v == (s.numerator * Inverse(s.denominator, m)) % m;
    hide *;
    FractionTimes(v, s.numerator, s.denominator, Product(num, Inserted(ops)), Product(num, Removed(ops)), m);
  }

  lemma FractionTimes(v: int, n: int, d: int, p: int, r: int, m: int)
    requires m > 1 && Unit(d, m) && v == (n * Inverse(d, m)) % m && n == p % m && d == r % m
    ensures Cong(v * r, p, m)
  {
    hide *;
    var i := Inverse(d, m);
    UnitInverse(d, m);
    CongMod(n * i, m);
    CongMod(r, m);
    CongMod(p, m);
    CongMul(v, n * i, r, d, m);
    UnitScale(n, d, i, m);
    assert n * i * d == n * d * i;
    CongTrans(v * r, n * d * i, n, m);
    CongTrans(v * r, n, p, m);
  }

  function InverseProduct(num: Number, xs: seq<Bytes>): int {
    if xs == [] then 1 else InverseProduct(num, xs[..|xs| - 1]) * Inverse(num(xs[|xs| - 1]), Modulus())
  }

  lemma {:induction false} InverseProductIs(num: Number, xs: seq<Bytes>)
    requires AllUnits(num, xs)
    ensures Cong(InverseProduct(num, xs) * Product(num, xs), 1, Modulus())
  {
    hide Modulus, Unit, Inverse;
    var m := Modulus();
    ModSmall(1, m);
    if xs != [] {
      var front, n := xs[..|xs| - 1], num(xs[|xs| - 1]);
      var i := Inverse(n, m);
      assert Unit(n, m);
      InverseProductIs(num, front);
      UnitInverse(n, m);
      CongSameMod(i * n, 1, m);
      CongMul(InverseProduct(num, front) * Product(num, front), 1, i * n, 1, m);
      Interchange(InverseProduct(num, front), Product(num, front), i, n);
    } else {
      CongRefl(1, m);
    }
  }

  /** The value is the product of the inserted elements times the inverses of the removed ones. */
  lemma ValueIs(num: Number, ops: seq<Op>)
    requires AllUnits(num, Removed(ops))
    ensures Value(Run(num, ops)) == Some((Product(num, Inserted(ops)) * InverseProduct(num, Removed(ops))) % Modulus())
  {
    hide *;
    var m := Modulus();
    ValueTimesRemoved(num, ops);
    var v, p, r, i := Value(Run(num, ops)).value, Product(num, Inserted(ops)), Product(num, Removed(ops)),
        InverseProduct(num, Removed(ops));
    InverseProductIs(num, Removed(ops));
    ModSmall(1, m);
    CongSameMod(i * r, 1, m);
    UnitScale(v, r, i, m);
    CongRefl(i, m);
    CongMul(v * r, p, i, i, m);
    CongSym(v * r * i, v, m);
    CongTrans(v, v * r * i, p * i, m);
    CongSameMod(v, p * i, m);
    ModSmall(v, m);
  }

  // ----- agreement with a multiset -----

  lemma {:induction false} ProductConcat(num: Number, a: seq<Bytes>, b: seq<Bytes>)
    ensures Product(num, a + b) == Product(num, a) * Product(num, b)
  {
    if b == [] {
      assert a + b == a;
    } else {
      var c, x := b[..|b| - 1], b[|b| - 1];
      ProductConcat(num, a, c);
      assert a + b == (a + c) + [x];
      ProductSnoc(num, a + c, x);
      assert Product(num, a) * Product(num, c) * num(x) == Product(num, a) * (Product(num, c) * num(x));
    }
  }

  lemma ProductPull(num: Number, ys: seq<Bytes>, j: nat)
    requires j < |ys|
    ensures Product(num, ys) == Product(num, ys[..j] + ys[j + 1..]) * num(ys[j])
  {
    hide *;
    var a, b, x := ys[..j], ys[j + 1..], ys[j];
    assert ys == (a + [x]) + b;
    ProductConcat(num, a + [x], b);
    ProductSnoc(num, a, x);
    ProductConcat(num, a, b);
    Commute(Product(num, a), num(x), Product(num, b));
  }

  lemma Commute(a: int, x: int, b: int)
    ensures a * x * b == a * b * x
  {
  }

  /** A product depends only on the multiset of its factors. */
  lemma {:induction false} ProductOfMultiset(num: Number, xs: seq<Bytes>, ys: seq<Bytes>)
    requires multiset(xs) == multiset(ys)
    ensures Product(num, xs) == Product(num, ys)
    decreases |xs|
  {
    if xs == [] {
      assert |multiset(ys)| == 0;
    } else {
      var front, x := xs[..|xs| - 1], xs[|xs| - 1];
      var j := PulledMultiset(xs, ys);
      ProductOfMultiset(num, front, ys[..j] + ys[j + 1..]);
      ProductPull(num, ys, j);
    }
  }

  lemma PulledMultiset(xs: seq<Bytes>, ys: seq<Bytes>) returns (j: nat)
    requires xs != [] && multiset(xs) == multiset(ys)
    ensures j < |ys| && ys[j] == xs[|xs| - 1]
    ensures multiset(xs[..|xs| - 1]) == multiset(ys[..j] + ys[j + 1..])
  {
    var front, x := xs[..|xs| - 1], xs[|xs| - 1];
    assert xs == front + [x];
    assert x in multiset(ys);
    j :| 0 <= j < |ys| && ys[j] == x;
    assert ys == ys[..j] + [x] + ys[j + 1..];
    assert multiset(xs) == multiset(front) + multiset{x};
    assert multiset(ys) == multiset(ys[..j] + ys[j + 1..]) + multiset{x};
    assert multiset(front) == multiset(xs) - multiset{x};
  }

  /** Two runs stand for the same multiset, counting removals against insertions. */
  ghost predicate SameMultiset(a: seq<Op>, b: seq<Op>) {
    multiset(Inserted(a)) + multiset(Removed(b)) == multiset(Inserted(b)) + multiset(Removed(a))
  }

  lemma CrossProducts(num: Number, a: seq<Op>, b: seq<Op>)
    requires SameMultiset(a, b)
    ensures Product(num, Inserted(a)) * Product(num, Removed(b)) == Product(num, Inserted(b)) * Product(num, Removed(a))
  {
    hide Product, Inserted, Removed;
    assert multiset(Inserted(a) + Removed(b)) == multiset(Inserted(b) + Removed(a));
    ProductConcat(num, Inserted(a), Removed(b));
    ProductConcat(num, Inserted(b), Removed(a));
    ProductOfMultiset(num, Inserted(a) + Removed(b), Inserted(b) + Removed(a));
  }

  /** The digest depends on the multiset alone: neither on the order of the calls nor on pairs that cancel. */
  lemma AgreesWithMultiset(num: Number, a: seq<Op>, b: seq<Op>)
    requires AllUnits(num, Removed(a)) && AllUnits(num, Removed(b)) && SameMultiset(a, b)
    ensures Value(Run(num, a)).Some? && Value(Run(num, a)) == Value(Run(num, b))
  {
    hide *;
    ValueTimesRemoved(num, a);
    ValueTimesRemoved(num, b);
    ProductUnit(num, Removed(a));
    ProductUnit(num, Removed(b));
    CrossProducts(num, a, b);
    CrossMultiplied(Value(Run(num, a)).value, Value(Run(num, b)).value,
                    Product(num, Inserted(a)), Product(num, Inserted(b)),
                    Product(num, Removed(a)), Product(num, Removed(b)), Modulus());
  }

  lemma CrossMultiplied(v: int, w: int, p: int, q: int, r: int, s: int, m: int)
    requires m > 1 && 0 <= v < m && 0 <= w < m && Unit(r, m) && Unit(s, m)
    requires Cong(v * r, p, m) && Cong(w * s, q, m) && p * s == q * r
    ensures v == w
  {
    hide *;
    UnitProduct(r, s, m);
    UnitInverse(r * s, m);
    CongRefl(s, m);
    CongRefl(r, m);
    CongMul(v * r, p, s, s, m);
    CongMul(w * s, q, r, r, m);
    Commute(w, s, r);
    assert v * r * s == v * (r * s) && w * r * s == w * (r * s);
    CongSym(w * (r * s), q * r, m);
    CongTrans(v * (r * s), p * s, w * (r * s), m);
    UnitCancel(v, w, r * s, Inverse(r * s, m), m);
    CongUnique(v, w, m);
  }

  lemma {:induction false} RunsConcat(a: seq<Op>, b: seq<Op>)
    ensures Inserted(a + b) == Inserted(a) + Inserted(b) && Removed(a + b) == Removed(a) + Removed(b)
  {
    if b == [] {
      assert a + b == a;
    } else {
      var c := b[..|b| - 1];
      assert (a + b)[..|a + b| - 1] == a + c;
      RunsConcat(a, c);
    }
  }

  /** An element inserted and removed leaves no trace, wherever the two calls stand and in either order. */
  lemma PairCancels(num: Number, a: seq<Op>, b: seq<Op>, c: seq<Op>, x: Op, y: Op)
    requires (x.Insert? && y.Remove?) || (x.Remove? && y.Insert?)
    requires x.data == y.data
    requires AllUnits(num, Removed(a + [x] + b + [y] + c))
    ensures Value(Run(num, a + [x] + b + [y] + c)) == Value(Run(num, a + b + c))
  {
    hide *;
    PairParts(a, b, c, x, y);
    PairUnits(num, Removed(a), Removed([x]), Removed(b), Removed([y]), Removed(c));
    AgreesWithMultiset(num, a + [x] + b + [y] + c, a + b + c);
  }

  lemma PairUnits(num: Number, a: seq<Bytes>, x: seq<Bytes>, b: seq<Bytes>, y: seq<Bytes>, c: seq<Bytes>)
    requires AllUnits(num, a + x + b + y + c)
    ensures AllUnits(num, a + b + c)
  {
    hide Unit, Modulus;
    UnitsBoth(num, a + x + b + y, c);
    UnitsBoth(num, a + x + b, y);
    UnitsBoth(num, a + x, b);
    UnitsBoth(num, a, x);
    UnitsBoth(num, a, b);
    UnitsBoth(num, a + b, c);
  }

  lemma UnitsBoth(num: Number, a: seq<Bytes>, b: seq<Bytes>)
    ensures AllUnits(num, a + b) <==> AllUnits(num, a) && AllUnits(num, b)
  {
    hide Unit, Modulus;
    var ab := a + b;
    assert forall i :: 0 <= i < |a| ==> a[i] == ab[i];
    assert forall i :: 0 <= i < |b| ==> b[i] == ab[|a| + i];
  }

  lemma PairParts(a: seq<Op>, b: seq<Op>, c: seq<Op>, x: Op, y: Op)
    requires (x.Insert? && y.Remove?) || (x.Remove? && y.Insert?)
    requires x.data == y.data
    ensures var whole, short := a + [x] + b + [y] + c, a + b + c;
            && SameMultiset(whole, short) && Removed(short) == Removed(a) + Removed(b) + Removed(c)
            && Removed(whole) == Removed(a) + Removed([x]) + Removed(b) + Removed([y]) + Removed(c)
  {
    hide Inserted, Removed;
    RunsConcat(a + [x] + b + [y], c);
    RunsConcat(a + [x] + b, [y]);
    RunsConcat(a + [x], b);
    RunsConcat(a, [x]);
    RunsConcat(a + b, c);
    RunsConcat(a, b);
    OneOp(x);
    OneOp(y);
    Counted(Inserted(a), Inserted([x]), Inserted(b), Inserted([y]), Inserted(c));
    Counted(Removed(a), Removed([x]), Removed(b), Removed([y]), Removed(c));
  }

  lemma Counted(a: seq<Bytes>, x: seq<Bytes>, b: seq<Bytes>, y: seq<Bytes>, c: seq<Bytes>)
    ensures multiset(a + x + b + y + c) == multiset(a + b + c) + multiset(x + y)
  {
  }

  lemma OneOp(x: Op)
    ensures Inserted([x]) == (if x.Insert? then [x.data] else []) && Removed([x]) == if x.Remove? then [x.data] else []
  {
    assert [x][..0] == [];
    assert Inserted([]) == [] && Removed([]) == [];
  }

  // ----- the object -----

  class MuHash3072 {
    const num: Number
    const sha256: Bytes -> Bytes32
    var numerator: int
    var denominator: int
    /** The calls so far. */
    ghost var ops: seq<Op>

    ghost predicate Valid()
      reads this
    {
      State(numerator, denominator) == Run(num, ops)
    }

    constructor (num: Number, sha256: Bytes -> Bytes32)
      ensures Valid() && ops == [] && this.num == num && this.sha256 == sha256
    {
      this.num, this.sha256, ops := num, sha256, [];
      numerator, denominator := 1, 1;
    }

    method InsertData(data: Bytes)
      requires Valid()
      modifies this
      ensures Valid() && ops == old(ops) + [Insert(data)]
    {
      RunSnoc(num, ops, Insert(data));
      numerator := (numerator * num(data)) % Modulus();
      ops := ops + [Insert(data)];
    }

    method RemoveData(data: Bytes)
      requires Valid()
      modifies this
      ensures Valid() && ops == old(ops) + [Remove(data)]
    {
      RunSnoc(num, ops, Remove(data));
      denominator := (denominator * num(data)) % Modulus();
      ops := ops + [Remove(data)];
    }

    /** pow(denominator, -1, MODULUS) raises when there is no inverse: exactly when some removed element's
        number has none.  Otherwise the product of the inserted elements' numbers times the inverses of the removed
        ones' is hashed. */
    method Digest() returns (r: Option<Bytes32>)
      requires Valid()
      ensures r.Some? <==> AllUnits(num, Removed(ops))
      ensures r.Some? ==>
              var v := (Product(num, Inserted(ops)) * InverseProduct(num, Removed(ops))) % Modulus();
              0 <= v < Pow(256, 384) && r == Some(sha256(ToLE(v, 384)))
    {
      hide Modulus, Unit, Inverse, AllUnits, Product, InverseProduct, Run, Inserted, Removed;
      DigestReturnsIff(num, ops);
      if !Unit(denominator, Modulus()) { return None; }
      ValueIs(num, ops);
      var val := numerator * Inverse(denominator, Modulus());
      val := val % Modulus();
      var bytes384 := ToLE(val, 384);
      return Some(sha256(bytes384));
    }
  }

  lemma RunSnoc(num: Number, ops: seq<Op>, op: Op)
    ensures Run(num, ops + [op]) == Step(num, Run(num, ops), op)
  {
    assert (ops + [op])[..|ops|] == ops;
  }

  /** Two objects whose calls stand for the same multiset give the same digest. */
  method SameDigest(a: MuHash3072, b: MuHash3072) returns (d: Option<Bytes32>, e: Option<Bytes32>)
    requires a.Valid() && b.Valid() && a.num == b.num && a.sha256 == b.sha256 && SameMultiset(a.ops, b.ops)
    ensures AllUnits(a.num, Removed(a.ops)) && AllUnits(b.num, Removed(b.ops)) ==> d.Some? && d == e
  {
    hide *;
    d := a.Digest();
    e := b.Digest();
    if AllUnits(a.num, Removed(a.ops)) && AllUnits(b.num, Removed(b.ops)) {
      AgreesWithMultiset(a.num, a.ops, b.ops);
      ValueIs(a.num, a.ops);
      ValueIs(b.num, b.ops);
    }
  }
}
