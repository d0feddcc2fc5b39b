/** The algebra behind the shift registers: symbols are elements of GF(32), and one step multiplies the
    register, read as a polynomial, by x modulo the generator polynomial of the code. */
module Galois {
  import opened NumberTheory
  import opened Bytes
  import opened Checksum

  /** An element of GF(32), by its coefficients over the powers of a root of x^5 + x^3 + 1; addition is ^. */
  type Symbol = bv5

  /** Times the root: the bit that leaves comes back as x^3 + 1. */
  function Twice(c: Symbol): Symbol {
    (c << 1) ^ (c >> 4) ^ ((c >> 4) << 3)
  }

  function Mul(t: Symbol, c: Symbol): Symbol {
    var c1 := Twice(c);
    var c2 := Twice(c1);
    var c3 := Twice(c2);
    var c4 := Twice(c3);
    Plus(Plus(Plus(Plus(When(t & 1 != 0, c), When(t & 2 != 0, c1)), When(t & 4 != 0, c2)), When(t & 8 != 0, c3)),
         When(t & 16 != 0, c4))
  }

  function When(b: bool, c: Symbol): Symbol {
    if b then c else 0
  }

  function Plus(a: Symbol, b: Symbol): Symbol {
    a ^ b
  }

  function Half(a: Symbol): Symbol {
    a >> 1
  }

  /** The number a symbol is written as. */
  function Num(a: Symbol): (n: nat)
    ensures n < 32
  {
    a as int
  }

  lemma HalfOf(a: Symbol)
    ensures Num(Half(a)) == Num(a) / 2 && (Num(a) % 2 == 1 <==> a & 1 == 1)
    ensures Num(a) == 0 <==> a == 0
  {
  }

  lemma HalfOfSum(a: Symbol, b: Symbol)
    ensures Half(Plus(a, b)) == Plus(Half(a), Half(b))
    ensures Plus(a, b) & 1 == 1 <==> (a & 1 == 1) != (b & 1 == 1)
  {
  }

  lemma SumByHalves(a: Symbol, b: Symbol)
    ensures Num(Half(a)) == Num(a) / 2 && Num(Half(b)) == Num(b) / 2
    ensures Num(Plus(a, b)) == 2 * Num(Plus(Half(a), Half(b))) + Differ(Num(a), Num(b))
  {
    hide Num, Half, Plus;
    HalfOf(a);
    HalfOf(b);
    HalfOf(Plus(a, b));
    HalfOfSum(a, b);
  }

  lemma ZeroSum()
    ensures Num(0) == 0 && Plus(0, 0) == 0
  {
  }

  /** Exclusive or of symbols and of the numbers they stand for. */
  lemma {:induction false} AddIsXor(a: Symbol, b: Symbol)
    ensures Xor(Num(a), Num(b)) == Num(Plus(a, b))
    decreases Num(a) + Num(b)
  {
    hide Num, Half, Plus, Differ;
    ZeroSum();
    SumByHalves(a, b);
    if Num(a) == 0 && Num(b) == 0 {
      HalfOf(a);
      HalfOf(b);
      XorZero(0);
    } else {
      AddIsXor(Half(a), Half(b));
    }
  }

  // ----- registers as polynomials -----

  type Poly = seq<Symbol>

  function Ints(d: Poly): (s: seq<nat>)
    ensures |s| == |d| && Code.FiveBit(s)
  {
    seq(|d|, i requires 0 <= i < |d| => Num(d[i]))
  }

  function Value(d: Poly): nat {
    Code.Number(Ints(d))
  }

  function Sum(d: Poly, e: Poly): Poly
    requires |d| == |e|
  {
    seq(|d|, i requires 0 <= i < |d| => Plus(d[i], e[i]))
  }

  function Scale(t: Symbol, d: Poly): Poly {
    seq(|d|, i requires 0 <= i < |d| => Mul(t, d[i]))
  }

  /** d times x, plus v, modulo x^n + g. */
  function Advance(g: Poly, d: Poly, v: Symbol): Poly
    requires |g| == |d| > 0
  {
    Sum(d[1..] + [v], Scale(d[0], g))
  }

  lemma ValueEmpty()
    ensures Value([]) == 0
  {
  }

  lemma ValueSnoc(d: Poly, v: Symbol)
    ensures Value(d + [v]) == Value(d) * 32 + Num(v)
  {
    assert Ints(d + [v])[..|d|] == Ints(d);
  }

  lemma {:induction false} SumIsXor(d: Poly, e: Poly)
    requires |d| == |e|
    ensures Xor(Value(d), Value(e)) == Value(Sum(d, e))
  {
    hide Xor, Value, Plus, Num;
    if d == [] {
      ValueEmpty();
      XorZero(0);
    } else {
      var k := |d| - 1;
      SumIsXor(d[..k], e[..k]);
      assert d == d[..k] + [d[k]] && e == e[..k] + [e[k]] && Sum(d, e) == Sum(d[..k], e[..k]) + [Plus(d[k], e[k])];
      ValueSnoc(d[..k], d[k]);
      ValueSnoc(e[..k], e[k]);
      ValueSnoc(Sum(d[..k], e[..k]), Plus(d[k], e[k]));
      assert Pow(2, 5) == 32;
      XorParts(Value(d[..k]), Num(d[k]), Value(e[..k]), Num(e[k]), 5);
      AddIsXor(d[k], e[k]);
    }
  }

  lemma {:induction false} ValueHead(d: Poly)
    requires d != []
    ensures Value(d) == Num(d[0]) * Pow(2, 5 * (|d| - 1)) + Value(d[1..])
    ensures Value(d[1..]) < Pow(2, 5 * (|d| - 1))
  {
    Code.DigitsNumber(Ints(d[1..]));
    assert Value(d[1..]) < Pow(2, 5 * (|d| - 1));
    hide Value;
    var k := |d| - 1;
    ValueEmpty();
    if k == 0 {
      assert d == [] + [d[0]] && d[1..] == [];
      ValueSnoc([], d[0]);
    } else {
      ValueHead(d[..k]);
      assert d == d[..k] + [d[k]] && d[1..] == d[..k][1..] + [d[k]] && d[..k][0] == d[0];
      ValueSnoc(d[..k], d[k]);
      ValueSnoc(d[..k][1..], d[k]);
      PowAdd(2, 5 * (k - 1), 5);
      assert Pow(2, 5) == 32;
      HeadStep(Num(d[0]), Pow(2, 5 * (k - 1)), Value(d[..k][1..]), Num(d[k]), Pow(2, 5 * k));
    }
  }

  lemma HeadStep(a: nat, w: nat, m: nat, v: nat, u: nat)
    requires u == w * 32
    ensures (a * w + m) * 32 + v == a * u + (m * 32 + v)
  {
  }

  lemma {:induction false} ValueZeros(d: Poly)
    requires forall i :: 0 <= i < |d| ==> d[i] == 0
    ensures Value(d) == 0
  {
    hide Value;
    if d == [] {
      ValueEmpty();
    } else {
      var k := |d| - 1;
      ValueZeros(d[..k]);
      assert d == d[..k] + [d[k]];
      ValueSnoc(d[..k], d[k]);
    }
  }

  // ----- the feedback constants as multiples of the generator polynomial -----

  function Doubled(c: Symbol, k: nat): Symbol {
    if k == 0 then c else Twice(Doubled(c, k - 1))
  }

  function DoubledAll(g: Poly, k: nat): Poly {
    seq(|g|, i requires 0 <= i < |g| => Doubled(g[i], k))
  }

  /** The five constants of a code are the generator polynomial times the five basis elements. */
  ghost predicate Generates(g: Poly, code: Code) {
    && |code.generator| == 5 && code.n == |g| > 0
    && forall k :: 0 <= k < 5 ==> code.generator[k] == Value(DoubledAll(g, k))
  }

  function BitOf(t: Symbol, k: nat): bool
    requires k < 5
  {
    if k == 0 then t & 1 != 0 else if k == 1 then t & 2 != 0 else if k == 2 then t & 4 != 0
    else if k == 3 then t & 8 != 0 else t & 16 != 0
  }

  lemma BitIs(t: Symbol, k: nat)
    requires k < 5
    ensures Pow(2, k) > 0 && (BitOf(t, k) <==> (Num(t) / Pow(2, k)) % 2 == 1)
  {
    assert Pow(2, 0) == 1 && Pow(2, 1) == 2 && Pow(2, 2) == 4 && Pow(2, 3) == 8 && Pow(2, 4) == 16;
    Bits(t);
  }

  lemma Bits(t: Symbol)
    ensures t & 1 != 0 <==> Num(t) % 2 == 1
    ensures t & 2 != 0 <==> (Num(t) / 2) % 2 == 1
    ensures t & 4 != 0 <==> (Num(t) / 4) % 2 == 1
    ensures t & 8 != 0 <==> (Num(t) / 8) % 2 == 1
    ensures t & 16 != 0 <==> (Num(t) / 16) % 2 == 1
  {
  }

  function Selected(t: Symbol, g: Poly, k: nat): Poly
    requires k < 5
  {
    seq(|g|, i requires 0 <= i < |g| => When(BitOf(t, k), Doubled(g[i], k)))
  }

  lemma TapIs(code: Code, g: Poly, t: Symbol, k: nat)
    requires Generates(g, code) && k < 5
    ensures code.Tap(Num(t), k) == Value(Selected(t, g, k))
  {
    BitIs(t, k);
    hide Doubled, Pow, BitOf, Value;
    if BitOf(t, k) {
      assert Selected(t, g, k) == DoubledAll(g, k);
    } else {
      ValueZeros(Selected(t, g, k));
    }
  }

  /** The feedback of a top symbol is that multiple of the generator polynomial. */
  lemma FeedbackIs(code: Code, g: Poly, t: Symbol)
    requires Generates(g, code)
    ensures |code.generator| == 5 && code.Feedback(Num(t), 5) == Value(Scale(t, g))
  {
    hide Xor, Value, Scale, Code.Tap, Code.Feedback, Doubled, BitOf, Plus, Num, When;
    FeedbackSteps(code, Num(t));
    TapIs(code, g, t, 0);
    TapIs(code, g, t, 1);
    TapIs(code, g, t, 2);
    TapIs(code, g, t, 3);
    TapIs(code, g, t, 4);
    ScaleIs(t, g);
    var s0, s1, s2 := Selected(t, g, 0), Selected(t, g, 1), Selected(t, g, 2);
    var s3, s4 := Selected(t, g, 3), Selected(t, g, 4);
    SumIsXor(s0, s1);
    SumIsXor(Sum(s0, s1), s2);
    SumIsXor(Sum(Sum(s0, s1), s2), s3);
    SumIsXor(Sum(Sum(Sum(s0, s1), s2), s3), s4);
  }

  lemma FeedbackSteps(code: Code, t: nat)
    requires |code.generator| == 5
    ensures code.Feedback(t, 5)
         == Xor(Xor(Xor(Xor(code.Tap(t, 0), code.Tap(t, 1)), code.Tap(t, 2)), code.Tap(t, 3)), code.Tap(t, 4))
  {
    hide Xor;
    assert code.Feedback(t, 0) == 0;
    assert code.Feedback(t, 1) == Xor(code.Feedback(t, 0), code.Tap(t, 0));
    assert code.Feedback(t, 2) == Xor(code.Feedback(t, 1), code.Tap(t, 1));
    assert code.Feedback(t, 3) == Xor(code.Feedback(t, 2), code.Tap(t, 2));
    assert code.Feedback(t, 4) == Xor(code.Feedback(t, 3), code.Tap(t, 3));
    XorZero(code.Tap(t, 0));
  }

  lemma ScaleIs(t: Symbol, g: Poly)
    ensures forall k, l :: 0 <= k < 5 && 0 <= l < 5 ==> |Selected(t, g, k)| == |Selected(t, g, l)| == |g|
    ensures Scale(t, g) == AllSelected(t, g)
  {
    hide Twice, Plus;
    forall i | 0 <= i < |g| ensures Scale(t, g)[i] == AllSelected(t, g)[i] {
      DoubledIs(g[i]);
    }
  }

  function AllSelected(t: Symbol, g: Poly): (d: Poly)
    ensures |d| == |g|
  {
    Sum(Sum(Sum(Sum(Selected(t, g, 0), Selected(t, g, 1)), Selected(t, g, 2)), Selected(t, g, 3)), Selected(t, g, 4))
  }

  lemma DoubledIs(c: Symbol)
    ensures Doubled(c, 0) == c && Doubled(c, 1) == Twice(c) && Doubled(c, 2) == Twice(Twice(c))
    ensures Doubled(c, 3) == Twice(Twice(Twice(c))) && Doubled(c, 4) == Twice(Twice(Twice(Twice(c))))
  {
    hide Twice;
    assert Doubled(c, 0) == c;
    assert Doubled(c, 1) == Twice(Doubled(c, 0));
    assert Doubled(c, 2) == Twice(Doubled(c, 1));
    assert Doubled(c, 3) == Twice(Doubled(c, 2));
  }

  // ----- one step of the register -----

  /** The register after one more symbol is x times the register plus that symbol, modulo the generator polynomial. */
  lemma StepIsAdvance(code: Code, g: Poly, d: Poly, v: Symbol)
    requires Generates(g, code) && |d| == |g|
    ensures |code.generator| == 5 && code.n > 0
    ensures Xor(code.Shift(Value(d)), Num(v)) == Value(Advance(g, d, v))
  {
    hide *;
    GeneratesIs(g, code);
    ShiftOf(code, d);
    FeedbackIs(code, g, d[0]);
    AdvanceIs(g, d, v);
    SumIsXor(d[1..] + [v], Scale(d[0], g));
    ValueSnoc(d[1..], v);
    LowSymbol(Value(d[1..]), v, code.Feedback(Num(d[0]), 5));
  }

  lemma GeneratesIs(g: Poly, code: Code)
    requires Generates(g, code)
    ensures |code.generator| == 5 && code.n == |g| > 0
  {
  }

  lemma AdvanceIs(g: Poly, d: Poly, v: Symbol)
    requires |g| == |d| > 0
    ensures |d[1..] + [v]| == |Scale(d[0], g)| && Advance(g, d, v) == Sum(d[1..] + [v], Scale(d[0], g))
  {
    hide Sum, Mul;
  }

  lemma ShiftOf(code: Code, d: Poly)
    requires |code.generator| == 5 && code.n == |d| > 0
    ensures code.Shift(Value(d)) == Xor(Value(d[1..]) * 32, code.Feedback(Num(d[0]), 5))
  {
    hide *;
    ValueHead(d);
    code.ShiftIs(Value(d));
    HeadAndRest(Value(d), Pow(2, 5 * (code.n - 1)), Num(d[0]), Value(d[1..]));
  }

  lemma HeadAndRest(m: nat, w: nat, t: nat, low: nat)
    requires w > 0 && m == t * w + low && low < w
    ensures m / w == t && m % w == low
  {
    assert t * w == w * t;
    QuotientUnique(m, w, t, low);
  }

  lemma LowSymbol(m: nat, v: Symbol, f: nat)
    ensures Xor(Xor(m * 32, f), Num(v)) == Xor(m * 32 + Num(v), f)
  {
    var x := Num(v);
    hide *;
    XorLow(m, x);
    XorAssoc(m * 32, f, x);
    XorComm(f, x);
    XorAssoc(m * 32, x, f);
  }

  /** The string s takes the register from d to e. */
  ghost predicate Leads(code: Code, d: Poly, s: Poly, e: Poly) {
    |code.generator| == 5 && code.n > 0 && code.Run(Value(d), Ints(s)) == Value(e)
  }

  lemma LeadsNowhere(code: Code, d: Poly)
    requires |code.generator| == 5 && code.n > 0
    ensures Leads(code, d, [], d)
  {
    assert Ints([]) == [];
  }

  lemma LeadsOn(code: Code, d: Poly, s: Poly, e: Poly, t: Poly, f: Poly)
    requires Leads(code, d, s, e) && Leads(code, e, t, f)
    ensures Leads(code, d, s + t, f)
  {
    code.RunConcat(Value(d), Ints(s), Ints(t));
    assert Ints(s + t) == Ints(s) + Ints(t);
  }

  /** The register after a string, from a table of what it holds after each symbol. */
  lemma {:induction false} RunTable(code: Code, g: Poly, rows: seq<Poly>, s: Poly)
    requires Generates(g, code) && |rows| == |s| + 1 && forall i :: 0 <= i < |rows| ==> |rows[i]| == |g|
    requires forall i :: 0 <= i < |s| ==> rows[i + 1] == Advance(g, rows[i], s[i])
    ensures Leads(code, rows[0], s, rows[|s|])
  {
    hide Xor, Advance, Generates, Value;
    GeneratesIs(g, code);
    if s != [] {
      var k := |s| - 1;
      assert Ints(s)[..k] == Ints(s[..k]);
      RunTable(code, g, rows[..k + 1], s[..k]);
      StepIsAdvance(code, g, rows[k], s[k]);
    }
  }
}
