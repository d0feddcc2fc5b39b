/** Generator polynomials and published strings of BIP 173 and BIP 350: they pin the constants and the alphabet of the
    model. */
module TestStrings {
  import opened Bytes
  import opened Checksum
  import opened Galois
  import Bech32
  import Descriptors
  import Text

  // ----- the generator polynomials -----

  /** BIP 173, "Checksum": the generator polynomial below x^6. */
  const BECH32_POLY: Poly := [29, 22, 20, 21, 29, 18]

  lemma SnocAt(d: Poly, k: nat)
    requires k < |d|
    ensures Value(d[..k + 1]) == Value(d[..k]) * 32 + Num(d[k])
  {
    assert d[..k + 1] == d[..k] + [d[k]];
    ValueSnoc(d[..k], d[k]);
  }

  lemma SixValue(d: Poly)
    requires |d| == 6
    ensures Value(d)
         == ((((Num(d[0]) * 32 + Num(d[1])) * 32 + Num(d[2])) * 32 + Num(d[3])) * 32 + Num(d[4])) * 32 + Num(d[5])
  {
    hide Value, Num;
    ValueEmpty();
    SnocAt(d, 0);
    SnocAt(d, 1);
    SnocAt(d, 2);
    SnocAt(d, 3);
    SnocAt(d, 4);
    SnocAt(d, 5);
    assert d[..0] == [] && d[..6] == d;
  }

  lemma Bech32Multiple(k: nat)
    requires k < 5
    ensures Bech32.CODE.generator[k] == Value(DoubledAll(BECH32_POLY, k))
  {
    SixValue(DoubledAll(BECH32_POLY, k));
    DoubledIs(29);
    DoubledIs(22);
    DoubledIs(20);
    DoubledIs(21);
    DoubledIs(18);
  }

  /** The five constants of bech32_polymod are the multiples of the generator polynomial by the basis of GF(32). */
  lemma Bech32Generates()
    ensures Generates(BECH32_POLY, Bech32.CODE)
  {
    forall k | 0 <= k < 5 ensures Bech32.CODE.generator[k] == Value(DoubledAll(BECH32_POLY, k)) {
      Bech32Multiple(k);
    }
  }

  /** The generator polynomial of descriptor checksums below x^8. */
  const DESCRIPTOR_POLY: Poly := [30, 23, 15, 14, 10, 6, 12, 9]

  lemma EightValue(d: Poly)
    requires |d| == 8
    ensures Value(d) == ((((((Num(d[0]) * 32 + Num(d[1])) * 32 + Num(d[2])) * 32 + Num(d[3])) * 32
                          + Num(d[4])) * 32 + Num(d[5])) * 32 + Num(d[6])) * 32 + Num(d[7])
  {
    hide Value, Num;
    ValueEmpty();
    SnocAt(d, 0);
    SnocAt(d, 1);
    SnocAt(d, 2);
    SnocAt(d, 3);
    SnocAt(d, 4);
    SnocAt(d, 5);
    SnocAt(d, 6);
    SnocAt(d, 7);
    assert d[..0] == [] && d[..8] == d;
  }

  lemma DescriptorMultiple(k: nat)
    requires k < 5
    ensures Descriptors.CODE.generator[k] == Value(DoubledAll(DESCRIPTOR_POLY, k))
  {
    EightValue(DoubledAll(DESCRIPTOR_POLY, k));
    DoubledIs(30);
    DoubledIs(23);
    DoubledIs(15);
    DoubledIs(14);
    DoubledIs(10);
    DoubledIs(6);
    DoubledIs(12);
    DoubledIs(9);
  }

  /** So are the five constants of descsum_polymod, of another polynomial. */
  lemma DescriptorGenerates()
    ensures Generates(DESCRIPTOR_POLY, Descriptors.CODE)
  {
    forall k | 0 <= k < 5 ensures Descriptors.CODE.generator[k] == Value(DoubledAll(DESCRIPTOR_POLY, k)) {
      DescriptorMultiple(k);
    }
  }

  // ----- the register along a string -----

  /** One step of the code of Bech32, symbol by symbol. */
  function BechStep(d: Poly, v: Symbol): Poly
    requires |d| == 6
  {
    var t := d[0];
    [Plus(d[1], Mul(t, 29)), Plus(d[2], Mul(t, 22)), Plus(d[3], Mul(t, 20)),
     Plus(d[4], Mul(t, 21)), Plus(d[5], Mul(t, 29)), Plus(v, Mul(t, 18))]
  }

  lemma BechStepIs(d: Poly, v: Symbol)
    requires |d| == 6
    ensures BechStep(d, v) == Advance(BECH32_POLY, d, v)
  {
    hide Mul, Plus;
  }

  lemma OneStep(d: Poly, v: Symbol, e: Poly)
    requires |d| == |e| == 6 && e == BechStep(d, v)
    ensures Leads(Bech32.CODE, d, [v], e)
  {
    hide BechStep, Advance, Leads, Galois.Generates, Mul, Plus;
    Bech32Generates();
    BechStepIs(d, v);
    RunTable(Bech32.CODE, BECH32_POLY, [d, e], [v]);
  }

  lemma FourSteps(d: Poly, v: Symbol, e: Poly, w: Symbol, f: Poly, x: Symbol, g: Poly, y: Symbol, h: Poly)
    requires |d| == |e| == |f| == |g| == |h| == 6
    requires e == BechStep(d, v) && f == BechStep(e, w) && g == BechStep(f, x) && h == BechStep(g, y)
    ensures Leads(Bech32.CODE, d, [v, w, x, y], h)
  {
    hide BechStep, Advance, Leads, Galois.Generates, Mul, Plus;
    Bech32Generates();
    BechStepIs(d, v);
    BechStepIs(e, w);
    BechStepIs(f, x);
    BechStepIs(g, y);
    RunTable(Bech32.CODE, BECH32_POLY, [d, e, f, g, h], [v, w, x, y]);
  }

  lemma FreeStep(d: Poly, v: Symbol, e: Poly)
    requires |d| == 6 && d[0] == 0 && e == d[1..] + [v]
    ensures Leads(Bech32.CODE, d, [v], e)
  {
    hide Advance, Leads, Galois.Generates;
    Bech32Generates();
    NoFeedback(d, v);
    RunTable(Bech32.CODE, BECH32_POLY, [d, e], [v]);
  }

  lemma MulZero(c: Symbol)
    ensures Mul(0, c) == 0 && Plus(c, 0) == c
  {
    hide Twice;
  }

  /** A zero at the top is shifted out without a trace. */
  lemma NoFeedback(d: Poly, v: Symbol)
    requires |d| == 6 && d[0] == 0
    ensures Advance(BECH32_POLY, d, v) == d[1..] + [v]
  {
    hide Mul, Plus;
    forall c: Symbol ensures Mul(0, c) == 0 && Plus(c, 0) == c {
      MulZero(c);
    }
  }

  lemma LeadsFor(d: Poly, s: Poly, e: Poly, t: Poly, f: Poly, whole: Poly)
    requires Leads(Bech32.CODE, d, s, e) && Leads(Bech32.CODE, e, t, f) && whole == s + t
    ensures Leads(Bech32.CODE, d, whole, f)
  {
    LeadsOn(Bech32.CODE, d, s, e, t, f);
  }

  // ----- a whole alphabet: abcdef1qpzry9x8gf2tvdw0s3jn54khce6mua7lmqqqxw -----

  lemma PrefixHigh()
    ensures Leads(Bech32.CODE, [0, 0, 0, 0, 0, 1], [3, 3, 3, 3, 3, 3, 0], [2, 13, 25, 15, 6, 25])
  {
    hide Leads;
    var d: Poly := [0, 0, 0, 0, 0, 1];
    FreeStep([0, 0, 0, 0, 0, 1], 3, [0, 0, 0, 0, 1, 3]);
    FreeStep([0, 0, 0, 0, 1, 3], 3, [0, 0, 0, 1, 3, 3]);
    LeadsFor(d, [3], [0, 0, 0, 0, 1, 3], [3], [0, 0, 0, 1, 3, 3], [3, 3]);
    FreeStep([0, 0, 0, 1, 3, 3], 3, [0, 0, 1, 3, 3, 3]);
    LeadsFor(d, [3, 3], [0, 0, 0, 1, 3, 3], [3], [0, 0, 1, 3, 3, 3], [3, 3, 3]);
    FreeStep([0, 0, 1, 3, 3, 3], 3, [0, 1, 3, 3, 3, 3]);
    LeadsFor(d, [3, 3, 3], [0, 0, 1, 3, 3, 3], [3], [0, 1, 3, 3, 3, 3], [3, 3, 3, 3]);
    FreeStep([0, 1, 3, 3, 3, 3], 3, [1, 3, 3, 3, 3, 3]);
    LeadsFor(d, [3, 3, 3, 3], [0, 1, 3, 3, 3, 3], [3], [1, 3, 3, 3, 3, 3], [3, 3, 3, 3, 3]);
    OneStep([1, 3, 3, 3, 3, 3], 3, [30, 21, 23, 22, 30, 17]);
    LeadsFor(d, [3, 3, 3, 3, 3], [1, 3, 3, 3, 3, 3], [3], [30, 21, 23, 22, 30, 17], [3, 3, 3, 3, 3, 3]);
    OneStep([30, 21, 23, 22, 30, 17], 0, [2, 13, 25, 15, 6, 25]);
    LeadsFor(d, [3, 3, 3, 3, 3, 3], [30, 21, 23, 22, 30, 17], [0], [2, 13, 25, 15, 6, 25], [3, 3, 3, 3, 3, 3, 0]);
  }

  lemma PrefixLow()
    ensures Leads(Bech32.CODE, [2, 13, 25, 15, 6, 25], [1, 2, 3, 4, 5, 6], [29, 30, 16, 3, 19, 10])
  {
    hide Leads;
    var d: Poly := [2, 13, 25, 15, 6, 25];
    FourSteps([2, 13, 25, 15, 6, 25], 1, [30, 28, 14, 5, 10, 12], 2, [11, 20, 10, 27, 27, 27],
              3, [4, 13, 10, 1, 11, 1], 4, [2, 0, 3, 13, 14, 30]);
    OneStep([2, 0, 3, 13, 14, 30], 5, [19, 6, 12, 13, 13, 8]);
    LeadsFor(d, [1, 2, 3, 4], [2, 0, 3, 13, 14, 30], [5], [19, 6, 12, 13, 13, 8], [1, 2, 3, 4, 5]);
    OneStep([19, 6, 12, 13, 13, 8], 6, [29, 30, 16, 3, 19, 10]);
    LeadsFor(d, [1, 2, 3, 4, 5], [19, 6, 12, 13, 13, 8], [6], [29, 30, 16, 3, 19, 10], [1, 2, 3, 4, 5, 6]);
  }

  lemma Letters1()
    ensures Leads(Bech32.CODE, [29, 30, 16, 3, 19, 10], [0, 1, 2, 3, 4, 5, 6, 7], [8, 30, 17, 1, 19, 8])
  {
    hide Leads;
    var d: Poly := [29, 30, 16, 3, 19, 10];
    FourSteps([29, 30, 16, 3, 19, 10], 0, [7, 25, 25, 20, 19, 6], 1, [24, 0, 3, 3, 7, 4],
              2, [11, 22, 15, 19, 15, 12], 3, [6, 8, 2, 21, 28, 1]);
    FourSteps([6, 8, 2, 21, 28, 1], 4, [20, 13, 22, 25, 29, 19], 5, [23, 29, 19, 3, 9, 12],
              6, [9, 11, 28, 1, 24, 16], 7, [8, 30, 17, 1, 19, 8]);
    LeadsFor(d, [0, 1, 2, 3], [6, 8, 2, 21, 28, 1], [4, 5, 6, 7], [8, 30, 17, 1, 19, 8], [0, 1, 2, 3, 4, 5, 6, 7]);
  }

  lemma Letters2()
    ensures Leads(Bech32.CODE, [8, 30, 17, 1, 19, 8], [8, 9, 10, 11, 12, 13, 14, 15], [24, 18, 4, 15, 28, 10])
  {
    hide Leads;
    var d: Poly := [8, 30, 17, 1, 19, 8];
    OneStep([8, 30, 17, 1, 19, 8], 8, [0, 5, 5, 31, 22, 21]);
    FreeStep([0, 5, 5, 31, 22, 21], 9, [5, 5, 31, 22, 21, 9]);
    LeadsFor(d, [8], [0, 5, 5, 31, 22, 21], [9], [5, 5, 31, 22, 21, 9], [8, 9]);
    FourSteps([5, 5, 31, 22, 21, 9], 10, [23, 3, 0, 6, 27, 2], 11, [23, 24, 25, 19, 22, 29],
              12, [12, 1, 12, 30, 9, 26], 13, [16, 18, 24, 3, 11, 10]);
    LeadsFor(d, [8, 9], [5, 5, 31, 22, 21, 9], [10, 11, 12, 13], [16, 18, 24, 3, 11, 10], [8, 9, 10, 11, 12, 13]);
    OneStep([16, 18, 24, 3, 11, 10], 14, [7, 25, 11, 19, 31, 29]);
    LeadsFor(d, [8, 9, 10, 11, 12, 13], [16, 18, 24, 3, 11, 10], [14], [7, 25, 11, 19, 31, 29],
             [8, 9, 10, 11, 12, 13, 14]);
    OneStep([7, 25, 11, 19, 31, 29], 15, [24, 18, 4, 15, 28, 10]);
    LeadsFor(d, [8, 9, 10, 11, 12, 13, 14], [7, 25, 11, 19, 31, 29], [15], [24, 18, 4, 15, 28, 10],
             [8, 9, 10, 11, 12, 13, 14, 15]);
  }

  lemma Letters3()
    ensures Leads(Bech32.CODE, [24, 18, 4, 15, 28, 10], [16, 17, 18, 19, 20, 21, 22, 23], [20, 23, 24, 18, 7, 0])
  {
    hide Leads;
    var d: Poly := [24, 18, 4, 15, 28, 10];
    FourSteps([24, 18, 4, 15, 28, 10], 16, [25, 17, 3, 8, 1, 30], 17, [7, 0, 16, 0, 8, 13],
              18, [1, 9, 23, 24, 12, 23], 19, [20, 1, 12, 25, 10, 1]);
    FourSteps([20, 1, 12, 25, 10, 1], 20, [27, 7, 19, 20, 27, 29], 21, [2, 21, 13, 25, 24, 4],
              22, [6, 8, 24, 27, 23, 27], 23, [20, 23, 24, 18, 7, 0]);
    LeadsFor(d, [16, 17, 18, 19], [20, 1, 12, 25, 10, 1], [20, 21, 22, 23], [20, 23, 24, 18, 7, 0],
             [16, 17, 18, 19, 20, 21, 22, 23]);
  }

  lemma Letters4First()
    ensures Leads(Bech32.CODE, [20, 23, 24, 18, 7, 0], [24, 25, 26, 27], [31, 14, 20, 17, 9, 24])
  {
    hide Leads;
    FourSteps([20, 23, 24, 18, 7, 0], 24, [13, 19, 24, 25, 26, 17], 25, [31, 16, 11, 5, 29, 12],
              26, [26, 7, 30, 25, 6, 17], 27, [31, 14, 20, 17, 9, 24]);
  }

  lemma Letters4Last()
    ensures Leads(Bech32.CODE, [31, 14, 20, 17, 9, 24], [28, 29, 30, 31], [13, 0, 26, 13, 18, 22])
  {
    hide Leads;
    FourSteps([31, 14, 20, 17, 9, 24], 28, [4, 24, 10, 13, 18, 23], 29, [23, 0, 15, 20, 24, 7],
              30, [20, 23, 11, 16, 19, 8], 31, [13, 0, 26, 13, 18, 22]);
  }

  lemma Letters4()
    ensures Leads(Bech32.CODE, [20, 23, 24, 18, 7, 0], [24, 25, 26, 27, 28, 29, 30, 31], [13, 0, 26, 13, 18, 22])
  {
    hide *;
    var d: Poly := [20, 23, 24, 18, 7, 0];
    Letters4First();
    Letters4Last();
    LeadsFor(d, [24, 25, 26, 27], [31, 14, 20, 17, 9, 24], [28, 29, 30, 31], [13, 0, 26, 13, 18, 22],
             [24, 25, 26, 27, 28, 29, 30, 31]);
  }

  lemma LettersSum()
    ensures Leads(Bech32.CODE, [13, 0, 26, 13, 18, 22], [27, 0, 0, 0, 6, 14], [0, 0, 0, 0, 0, 1])
  {
    hide Leads;
    var d: Poly := [13, 0, 26, 13, 18, 22];
    FourSteps([13, 0, 26, 13, 18, 22], 27, [12, 18, 31, 13, 26, 14], 0, [3, 1, 11, 16, 31, 7],
              0, [15, 24, 5, 9, 9, 31], 0, [7, 8, 26, 21, 0, 24]);
    OneStep([7, 8, 26, 21, 0, 24], 6, [9, 3, 2, 16, 25, 3]);
    LeadsFor(d, [27, 0, 0, 0], [7, 8, 26, 21, 0, 24], [6], [9, 3, 2, 16, 25, 3], [27, 0, 0, 0, 6]);
    OneStep([9, 3, 2, 16, 25, 3], 14, [0, 0, 0, 0, 0, 1]);
    LeadsFor(d, [27, 0, 0, 0, 6], [9, 3, 2, 16, 25, 3], [14], [0, 0, 0, 0, 0, 1], [27, 0, 0, 0, 6, 14]);
  }

  /** The expanded prefix, the 32 symbols in order and the checksum bring the register back to 1. */
  lemma AlphabetRun()
    ensures Leads(Bech32.CODE, [0, 0, 0, 0, 0, 1],
                  [3, 3, 3, 3, 3, 3, 0] + [1, 2, 3, 4, 5, 6] + [0, 1, 2, 3, 4, 5, 6, 7]
                  + [8, 9, 10, 11, 12, 13, 14, 15] + [16, 17, 18, 19, 20, 21, 22, 23]
                  + [24, 25, 26, 27, 28, 29, 30, 31] + [27, 0, 0, 0, 6, 14], [0, 0, 0, 0, 0, 1])
  {
    hide *;
    var d: Poly, s: Poly := [0, 0, 0, 0, 0, 1], [3, 3, 3, 3, 3, 3, 0];
    PrefixHigh();
    PrefixLow();
    LeadsOn(Bech32.CODE, d, s, [2, 13, 25, 15, 6, 25], [1, 2, 3, 4, 5, 6], [29, 30, 16, 3, 19, 10]);
    s := s + [1, 2, 3, 4, 5, 6];
    Letters1();
    LeadsOn(Bech32.CODE, d, s, [29, 30, 16, 3, 19, 10], [0, 1, 2, 3, 4, 5, 6, 7], [8, 30, 17, 1, 19, 8]);
    s := s + [0, 1, 2, 3, 4, 5, 6, 7];
    Letters2();
    LeadsOn(Bech32.CODE, d, s, [8, 30, 17, 1, 19, 8], [8, 9, 10, 11, 12, 13, 14, 15], [24, 18, 4, 15, 28, 10]);
    s := s + [8, 9, 10, 11, 12, 13, 14, 15];
    Letters3();
    LeadsOn(Bech32.CODE, d, s, [24, 18, 4, 15, 28, 10], [16, 17, 18, 19, 20, 21, 22, 23], [20, 23, 24, 18, 7, 0]);
    s := s + [16, 17, 18, 19, 20, 21, 22, 23];
    Letters4();
    LeadsOn(Bech32.CODE, d, s, [20, 23, 24, 18, 7, 0], [24, 25, 26, 27, 28, 29, 30, 31], [13, 0, 26, 13, 18, 22]);
    s := s + [24, 25, 26, 27, 28, 29, 30, 31];
    LettersSum();
    LeadsOn(Bech32.CODE, d, s, [13, 0, 26, 13, 18, 22], [27, 0, 0, 0, 6, 14], [0, 0, 0, 0, 0, 1]);
    s := s + [27, 0, 0, 0, 6, 14];
  }

  // ----- an empty data part: a1lqfn3a -----

  lemma ShortPrefix()
    ensures Leads(Bech32.CODE, [0, 0, 0, 0, 0, 1], [3, 0, 1], [0, 0, 1, 3, 0, 1])
  {
    hide Leads;
    var d: Poly := [0, 0, 0, 0, 0, 1];
    FreeStep([0, 0, 0, 0, 0, 1], 3, [0, 0, 0, 0, 1, 3]);
    FreeStep([0, 0, 0, 0, 1, 3], 0, [0, 0, 0, 1, 3, 0]);
    LeadsFor(d, [3], [0, 0, 0, 0, 1, 3], [0], [0, 0, 0, 1, 3, 0], [3, 0]);
    FreeStep([0, 0, 0, 1, 3, 0], 1, [0, 0, 1, 3, 0, 1]);
    LeadsFor(d, [3, 0], [0, 0, 0, 1, 3, 0], [1], [0, 0, 1, 3, 0, 1], [3, 0, 1]);
  }

  lemma ShortSum()
    ensures Leads(Bech32.CODE, [0, 0, 1, 3, 0, 1], [31, 0, 9, 19, 17, 29], [21, 28, 16, 12, 5, 3])
  {
    hide Leads;
    var d: Poly := [0, 0, 1, 3, 0, 1];
    FreeStep([0, 0, 1, 3, 0, 1], 31, [0, 1, 3, 0, 1, 31]);
    FreeStep([0, 1, 3, 0, 1, 31], 0, [1, 3, 0, 1, 31, 0]);
    LeadsFor(d, [31], [0, 1, 3, 0, 1, 31], [0], [1, 3, 0, 1, 31, 0], [31, 0]);
    FourSteps([1, 3, 0, 1, 31, 0], 9, [30, 22, 21, 10, 29, 27], 19, [1, 15, 5, 12, 12, 10],
              17, [18, 19, 24, 25, 23, 3], 29, [21, 28, 16, 12, 5, 3]);
    LeadsFor(d, [31, 0], [1, 3, 0, 1, 31, 0], [9, 19, 17, 29], [21, 28, 16, 12, 5, 3], [31, 0, 9, 19, 17, 29]);
  }

  /** The expanded prefix and the checksum bring the register to the constant of Bech32m. */
  lemma ShortRun()
    ensures Leads(Bech32.CODE, [0, 0, 0, 0, 0, 1],
                  [3, 0, 1] + [31, 0, 9, 19, 17, 29], [21, 28, 16, 12, 5, 3])
  {
    hide *;
    var d: Poly, s: Poly := [0, 0, 0, 0, 0, 1], [3, 0, 1];
    ShortPrefix();
    ShortSum();
    LeadsOn(Bech32.CODE, d, s, [0, 0, 1, 3, 0, 1], [31, 0, 9, 19, 17, 29], [21, 28, 16, 12, 5, 3]);
    s := s + [31, 0, 9, 19, 17, 29];
  }

  // ----- the strings -----

  lemma IntsConcat(a: Poly, b: Poly)
    ensures Ints(a + b) == Ints(a) + Ints(b)
  {
  }

  lemma StartValue()
    ensures Value([0, 0, 0, 0, 0, 1]) == 1
  {
    SixValue([0, 0, 0, 0, 0, 1]);
  }

  /** The 32 symbols in order. */
  function Letters(): (d: seq<nat>)
    ensures |d| == 32 && forall i :: 0 <= i < 32 ==> d[i] == i
    ensures Code.FiveBit(d)
  {
    seq(32, i requires 0 <= i < 32 => i)
  }

  lemma LettersInts()
    ensures Ints([0, 1, 2, 3, 4, 5, 6, 7]) + Ints([8, 9, 10, 11, 12, 13, 14, 15])
            + Ints([16, 17, 18, 19, 20, 21, 22, 23]) + Ints([24, 25, 26, 27, 28, 29, 30, 31]) == Letters()
  {
    Counted([0, 1, 2, 3, 4, 5, 6, 7], 0);
    Counted([8, 9, 10, 11, 12, 13, 14, 15], 8);
    Counted([16, 17, 18, 19, 20, 21, 22, 23], 16);
    Counted([24, 25, 26, 27, 28, 29, 30, 31], 24);
    hide Ints;
    assert Count(0) + Count(8) + Count(16) + Count(24) == Letters();
  }

  function Count(k: nat): (d: seq<nat>)
    ensures |d| == 8 && forall i :: 0 <= i < 8 ==> d[i] == k + i
  {
    seq(8, i requires 0 <= i < 8 => k + i)
  }

  lemma Counted(d: Poly, k: nat)
    requires |d| == 8 && forall i :: 0 <= i < 8 ==> Num(d[i]) == k + i
    ensures Ints(d) == Count(k)
  {
    hide Num;
  }

  lemma PrefixInts()
    ensures Ints([3, 3, 3, 3, 3, 3, 0]) + Ints([1, 2, 3, 4, 5, 6]) == Bech32.HrpExpand("abcdef")
    ensures Ints([3, 0, 1]) == Bech32.HrpExpand("a")
  {
  }

  lemma SumInts()
    ensures Ints([27, 0, 0, 0, 6, 14]) == [27, 0, 0, 0, 6, 14] && Ints([31, 0, 9, 19, 17, 29]) == [31, 0, 9, 19, 17, 29]
  {
  }

  lemma AlphabetVerifies()
    ensures Bech32.VerifyChecksum("abcdef", Letters() + [27, 0, 0, 0, 6, 14]) == Some(Bech32.BECH32)
  {
    AlphabetRun();
    StartValue();
    var p: Poly, q: Poly := [3, 3, 3, 3, 3, 3, 0], [1, 2, 3, 4, 5, 6];
    var a: Poly, b: Poly := [0, 1, 2, 3, 4, 5, 6, 7], [8, 9, 10, 11, 12, 13, 14, 15];
    var c: Poly, d: Poly := [16, 17, 18, 19, 20, 21, 22, 23], [24, 25, 26, 27, 28, 29, 30, 31];
    var e: Poly := [27, 0, 0, 0, 6, 14];
    assert Bech32.CODE.Run(1, Ints(p + q + a + b + c + d + e)) == 1;
    hide *;
    IntsConcat(p, q);
    IntsConcat(p + q, a);
    IntsConcat(p + q + a, b);
    IntsConcat(p + q + a + b, c);
    IntsConcat(p + q + a + b + c, d);
    IntsConcat(p + q + a + b + c + d, e);
    PrefixInts();
    LettersInts();
    SumInts();
    Regrouped(Ints(p) + Ints(q), Ints(a), Ints(b), Ints(c), Ints(d), Ints(e));
    Bech32Constants();
    Bech32.VerifyIs(Bech32.BECH32, "abcdef", Letters() + [27, 0, 0, 0, 6, 14]);
  }

  lemma Bech32Constants()
    ensures Bech32.Const(Bech32.BECH32) == 1 && Bech32.Const(Bech32.BECH32M) == 0x2bc830a3
  {
  }

  lemma Regrouped(h: seq<nat>, a: seq<nat>, b: seq<nat>, c: seq<nat>, d: seq<nat>, e: seq<nat>)
    ensures h + a + b + c + d + e == h + (a + b + c + d + e)
  {
  }

  /** BIP 173, "Test vectors": the 32 symbols in order spell the alphabet, with this checksum, and are read back. */
  lemma WholeAlphabet()
    ensures var s := "abcdef" + "1" + ("qpzry9x8gf2tvdw0" + "s3jn54khce6mua7l" + "mqqqxw");
            && Bech32.Encode(Bech32.BECH32, "abcdef", Letters()) == s
            && Bech32.Decode(s) == Some((Bech32.BECH32, "abcdef", Letters()))
  {
    AlphabetCreated();
    LettersChars();
    GoodPrefixes();
    hide Bech32.ToChars, Bech32.CreateChecksum, Bech32.VerifyChecksum, Bech32.Decode, Letters, Bech32.GoodHrp;
    Bech32.DecodeEncoded(Bech32.BECH32, "abcdef", Letters());
  }

  lemma AlphabetCreated()
    ensures Bech32.CreateChecksum(Bech32.BECH32, "abcdef", Letters()) == [27, 0, 0, 0, 6, 14]
  {
    var c: seq<nat> := [27, 0, 0, 0, 6, 14];
    assert Code.FiveBit(c);
    hide *;
    AlphabetVerifies();
    SymbolsFit(Letters());
    Bech32.ChecksumIff(Bech32.BECH32, "abcdef", Letters(), c);
  }

  lemma SymbolsFit(d: seq<nat>)
    requires Code.FiveBit(d)
    ensures Bech32.CODE.Fits(d)
  {
    Bech32.CodeWidth();
  }

  lemma LettersChars()
    ensures Code.FiveBit(Letters() + [27, 0, 0, 0, 6, 14])
    ensures Bech32.ToChars(Letters() + [27, 0, 0, 0, 6, 14]) == "qpzry9x8gf2tvdw0" + "s3jn54khce6mua7l" + "mqqqxw"
  {
    var d := Letters() + [27, 0, 0, 0, 6, 14];
    var low, high := Bech32.CHARSET_LOW, Bech32.CHARSET_HIGH;
    forall i | 0 <= i < 38 ensures Bech32.CHARSET[d[i]] == (low + high + "mqqqxw")[i] {
      if i >= 32 { SumChars(); }
    }
  }

  lemma SumChars()
    ensures Bech32.CHARSET[27] == 'm' && Bech32.CHARSET[0] == 'q'
    ensures Bech32.CHARSET[6] == 'x' && Bech32.CHARSET[14] == 'w'
    ensures Bech32.CHARSET[31] == 'l' && Bech32.CHARSET[9] == 'f' && Bech32.CHARSET[19] == 'n'
    ensures Bech32.CHARSET[17] == '3' && Bech32.CHARSET[29] == 'a'
  {
  }

  lemma GoodPrefixes()
    ensures Bech32.GoodHrp("abcdef") && Bech32.GoodHrp("a")
  {
  }

  lemma ShortVerifies()
    ensures Bech32.VerifyChecksum("a", [] + [31, 0, 9, 19, 17, 29]) == Some(Bech32.BECH32M)
  {
    ShortRun();
    StartValue();
    SixValue([21, 28, 16, 12, 5, 3]);
    var p: Poly, e: Poly := [3, 0, 1], [31, 0, 9, 19, 17, 29];
    assert Bech32.CODE.Run(1, Ints(p + e)) == 0x2bc830a3;
    hide *;
    IntsConcat(p, e);
    PrefixInts();
    SumInts();
    Bech32Constants();
    var none: seq<nat> := [];
    assert none + [31, 0, 9, 19, 17, 29] == [31, 0, 9, 19, 17, 29];
    Bech32.VerifyIs(Bech32.BECH32M, "a", [31, 0, 9, 19, 17, 29]);
  }

  /** BIP 350, "Test vectors": no data at all. */
  lemma EmptyData()
    ensures Bech32.Encode(Bech32.BECH32M, "a", []) == "a1lqfn3a"
    ensures Bech32.Decode("a1lqfn3a") == Some((Bech32.BECH32M, "a", []))
  {
    ShortCreated();
    ShortChars();
    GoodPrefixes();
    hide Bech32.ToChars, Bech32.CreateChecksum, Bech32.VerifyChecksum, Bech32.Decode, Bech32.GoodHrp;
    Bech32.DecodeEncoded(Bech32.BECH32M, "a", []);
    assert "a" + "1" + "lqfn3a" == "a1lqfn3a";
  }

  lemma ShortCreated()
    ensures Bech32.CreateChecksum(Bech32.BECH32M, "a", []) == [31, 0, 9, 19, 17, 29]
  {
    var c: seq<nat> := [31, 0, 9, 19, 17, 29];
    assert Code.FiveBit(c);
    hide *;
    ShortVerifies();
    SymbolsFit([]);
    Bech32.ChecksumIff(Bech32.BECH32M, "a", [], c);
  }

  lemma ShortChars()
    ensures var none: seq<nat> := [];
            && Code.FiveBit(none + [31, 0, 9, 19, 17, 29])
            && Bech32.ToChars(none + [31, 0, 9, 19, 17, 29]) == "lqfn3a"
  {
    hide Bech32.CHARSET;
    SumChars();
    var none: seq<nat> := [];
    assert none + [31, 0, 9, 19, 17, 29] == [31, 0, 9, 19, 17, 29];
  }
}
