/** The shift-register checksum that Bech32, Bech32m and output descriptors share: n symbols of 5 bits
    and five feedback constants.  Registers and symbols are unbounded naturals, as in the program. */
module Checksum {
  import opened NumberTheory
  import opened Bytes

  // ----- exclusive or -----

  function Xor(a: nat, b: nat): nat {
    if a == 0 && b == 0 then 0 else 2 * Xor(a / 2, b / 2) + Differ(a, b)
  }

  lemma {:induction false} XorZero(a: nat)
    ensures Xor(a, 0) == a && Xor(0, a) == a
  {
    if a > 0 { XorZero(a / 2); }
  }

  lemma {:induction false} XorSelf(a: nat)
    ensures Xor(a, a) == 0
  {
    if a > 0 { XorSelf(a / 2); }
  }

  lemma XorHalf(a: nat, b: nat)
    ensures Xor(a, b) / 2 == Xor(a / 2, b / 2) && Xor(a, b) % 2 == Differ(a, b)
  {
  }

  function Differ(i: nat, j: nat): nat { if i % 2 == j % 2 then 0 else 1 }

  lemma {:induction false} XorAssoc(a: nat, b: nat, c: nat)
    ensures Xor(Xor(a, b), c) == Xor(a, Xor(b, c))
    decreases a + b + c
  {
    if a + b + c > 0 {
      XorAssoc(a / 2, b / 2, c / 2);
      var x, y := Xor(a, b), Xor(b, c);
      var u, v := Xor(x, c), Xor(a, y);
      XorHalf(a, b);
      XorHalf(b, c);
      XorHalf(x, c);
      XorHalf(a, y);
      hide Xor;
      assert u / 2 == v / 2;
      ParityAssoc(a, b, c, x, y, u, v);
    }
  }

  lemma ParityAssoc(a: nat, b: nat, c: nat, x: nat, y: nat, u: nat, v: nat)
    requires x % 2 == Differ(a, b) && u % 2 == Differ(x, c)
    requires y % 2 == Differ(b, c) && v % 2 == Differ(a, y)
    requires u / 2 == v / 2
    ensures u == v
  {
  }

  lemma {:induction false} XorComm(a: nat, b: nat)
    ensures Xor(a, b) == Xor(b, a)
    decreases a + b
  {
    if a + b > 0 { XorComm(a / 2, b / 2); }
  }

  lemma XorCancel(a: nat, b: nat, c: nat)
    requires Xor(a, b) == Xor(a, c)
    ensures b == c
  {
    XorAssoc(a, a, b);
    XorAssoc(a, a, c);
    XorSelf(a);
    XorZero(b);
    XorZero(c);
  }

  lemma XorInterchange(a: nat, b: nat, c: nat, d: nat)
    ensures Xor(Xor(a, b), Xor(c, d)) == Xor(Xor(a, c), Xor(b, d))
  {
    XorAssoc(a, b, Xor(c, d));
    XorAssoc(b, c, d);
    XorComm(b, c);
    XorAssoc(c, b, d);
    XorAssoc(a, c, Xor(b, d));
  }

  lemma {:induction false} XorBelow(a: nat, b: nat, k: nat)
    requires a < Pow(2, k) && b < Pow(2, k)
    ensures Xor(a, b) < Pow(2, k)
  {
    if k > 0 { XorBelow(a / 2, b / 2, k - 1); }
  }

  lemma XorStep(a: nat, i: nat, b: nat, j: nat)
    requires i < 2 && j < 2
    ensures Xor(2 * a + i, 2 * b + j) == 2 * Xor(a, b) + Differ(i, j)
  {
  }

  /** High and low parts do not meet. */
  lemma {:induction false} XorParts(a: nat, r: nat, b: nat, s: nat, k: nat)
    requires r < Pow(2, k) && s < Pow(2, k)
    ensures Xor(a * Pow(2, k) + r, b * Pow(2, k) + s) == Xor(a, b) * Pow(2, k) + Xor(r, s)
  {
    hide Xor;
    if k == 0 {
      XorZero(0);
      assert Pow(2, 0) == 1;
    } else {
      var w, v := Pow(2, k - 1), Pow(2, k);
      XorParts(a, r / 2, b, s / 2, k - 1);
      XorStep(r / 2, r % 2, s / 2, s % 2);
      PartsStep(a * w, r, b * w, s, Xor(a, b) * w);
      Doubled(a, w, v);
      Doubled(b, w, v);
      Doubled(Xor(a, b), w, v);
      assert Xor(a * v + r, b * v + s) == Xor(a, b) * v + Xor(r, s);
    }
  }

  lemma Doubled(a: nat, w: nat, v: nat)
    requires v == 2 * w
    ensures a * v == 2 * (a * w)
  {
  }

  lemma PartsStep(a: nat, r: nat, b: nat, s: nat, c: nat)
    requires Xor(a + r / 2, b + s / 2) == c + Xor(r / 2, s / 2)
    requires Xor(r, s) == 2 * Xor(r / 2, s / 2) + Differ(r, s)
    ensures Xor(2 * a + r, 2 * b + s) == 2 * c + Xor(r, s)
  {
    hide Xor;
    assert 2 * a + r == 2 * (a + r / 2) + r % 2;
    assert 2 * b + s == 2 * (b + s / 2) + s % 2;
    XorStep(a + r / 2, r % 2, b + s / 2, s % 2);
  }

  /** The two uses of XorParts with five low bits. */
  lemma XorLow(m: nat, v: nat)
    requires v < 32
    ensures Xor(m * 32, v) == m * 32 + v
  {
    assert Pow(2, 5) == 32;
    XorParts(m, 0, 0, v, 5);
    XorZero(m);
    XorZero(v);
  }

  lemma XorHigh(a: nat, b: nat)
    ensures Xor(a * 32, b * 32) == Xor(a, b) * 32
  {
    assert Pow(2, 5) == 32;
    XorParts(a, 0, b, 0, 5);
    XorZero(0);
  }

  /** Quotient and remainder by a power of two go through exclusive or. */
  lemma XorSplit(a: nat, b: nat, k: nat)
    ensures Pow(2, k) > 0
    ensures Xor(a, b) / Pow(2, k) == Xor(a / Pow(2, k), b / Pow(2, k))
    ensures Xor(a, b) % Pow(2, k) == Xor(a % Pow(2, k), b % Pow(2, k))
  {
    PowMonotone(2, k, k);
    SplitAt(a, b, k, Pow(2, k));
  }

  lemma SplitAt(a: nat, b: nat, k: nat, w: nat)
    requires w == Pow(2, k) && w > 0
    ensures Xor(a, b) / w == Xor(a / w, b / w)
    ensures Xor(a, b) % w == Xor(a % w, b % w)
  {
    hide *;
    var qa, ra, qb, rb := a / w, a % w, b / w, b % w;
    XorParts(qa, ra, qb, rb, k);
    XorBelow(ra, rb, k);
    DivideBack(a, w);
    DivideBack(b, w);
    assert Xor(a, b) == w * Xor(qa, qb) + Xor(ra, rb) by { MulComm(Xor(qa, qb), w); }
    QuotientUnique(Xor(a, b), w, Xor(qa, qb), Xor(ra, rb));
  }

  lemma DivideBack(a: nat, w: nat)
    requires w > 0
    ensures a == (a / w) * w + a % w
  {
  }

  lemma MulComm(a: int, b: int)
    ensures a * b == b * a
  {
  }

  // ----- the register -----

  /** A code with n checksum symbols: its five feedback constants. */
  datatype Code = Code(n: nat, generator: seq<nat>)
  {
    ghost predicate Valid() {
      && n > 0 && |generator| == 5
      && (forall i :: 0 <= i < 5 ==> generator[i] < Pow(2, 5 * n))
      && forall top :: 0 < top < 32 ==> Feedback(top, 5) % 32 != 0
    }

    function Tap(top: nat, i: nat): nat
      requires i < |generator|
    {
      PowMonotone(2, i, i);
      Select(top / Pow(2, i), generator[i])
    }

    /** The first i feedback constants selected by the bits of top. */
    function Feedback(top: nat, i: nat): nat
      requires i <= |generator|
    {
      if i == 0 then 0 else Xor(Feedback(top, i - 1), Tap(top, i - 1))
    }

    /** One step of the register before the symbol comes in. */
    function Shift(chk: nat): nat
      requires n > 0 && |generator| == 5
    {
      PowMonotone(2, 5 * (n - 1), 5 * (n - 1));
      Xor((chk % Pow(2, 5 * (n - 1))) * 32, Feedback(chk / Pow(2, 5 * (n - 1)), 5))
    }

    /** The register after the symbols s, started at chk. */
    function Run(chk: nat, s: seq<nat>): nat
      requires n > 0 && |generator| == 5
    {
      if s == [] then chk else Xor(Shift(Run(chk, s[..|s| - 1])), s[|s| - 1])
    }

    method Polymod(values: seq<nat>) returns (chk: nat)
      requires Valid()
      ensures chk == Run(1, values)
    {
      hide Xor;
      chk := 1;
      for k := 0 to |values|
        invariant chk == Run(1, values[..k])
      {
        assert values[..k + 1][..k] == values[..k];
        ghost var x := chk;
        PowMonotone(2, 5 * (n - 1), 5 * (n - 1));
        hide Pow;
        var top := chk / Pow(2, 5 * (n - 1));
        chk := Xor((chk % Pow(2, 5 * (n - 1))) * 32, values[k]);
        ghost var c := chk;
        XorZero(c);
        for i := 0 to 5
          invariant chk == Xor(c, Feedback(top, i))
        {
          PowMonotone(2, i, i);
          XorAssoc(c, Feedback(top, i), Tap(top, i));
          chk := Xor(chk, if (top / Pow(2, i)) % 2 == 1 then generator[i] else 0);
        }
        StepOrder((x % Pow(2, 5 * (n - 1))) * 32, values[k], Feedback(top, 5));
        assert chk == Xor(Shift(x), values[k]);
      }
      assert values[..|values|] == values;
    }

    static lemma StepOrder(a: nat, v: nat, f: nat)
      ensures Xor(Xor(a, v), f) == Xor(Xor(a, f), v)
    {
      XorAssoc(a, v, f);
      XorComm(v, f);
      XorAssoc(a, f, v);
    }

    // ----- the kernel condition, bit by bit -----

    static predicate BitAt(v: nat, k: nat) {
      PowMonotone(2, k, k);
      (v / Pow(2, k)) % 2 == 1
    }

    /** Bit k of the first i selected constants. */
    predicate Parity(top: nat, k: nat, i: nat)
      requires i <= |generator|
    {
      if i == 0 then false
      else Parity(top, k, i - 1) != (BitAt(top, i - 1) && BitAt(generator[i - 1], k))
    }

    lemma {:induction false} FeedbackBit(top: nat, k: nat, i: nat)
      requires i <= |generator|
      ensures BitAt(Feedback(top, i), k) == Parity(top, k, i)
    {
      BitZero(k);
      if i > 0 {
        FeedbackBit(top, k, i - 1);
        assert Feedback(top, i) == Xor(Feedback(top, i - 1), Tap(top, i - 1));
        assert Tap(top, i - 1) == if BitAt(top, i - 1) then generator[i - 1] else 0;
        hide Xor, Pow, BitAt;
        BitXor(Feedback(top, i - 1), Tap(top, i - 1), k);
      }
    }

    static lemma BitZero(k: nat)
      ensures !BitAt(0, k)
    {
      PowMonotone(2, k, k);
      QuotientUnique(0, Pow(2, k), 0, 0);
    }

    static lemma BitXor(a: nat, b: nat, k: nat)
      ensures BitAt(Xor(a, b), k) == (BitAt(a, k) != BitAt(b, k))
    {
      hide Xor, Pow, BitAt;
      XorSplit(a, b, k);
      XorHalf(a / Pow(2, k), b / Pow(2, k));
      BitIs(a, k);
      BitIs(b, k);
      BitIs(Xor(a, b), k);
    }

    static lemma BitIs(v: nat, k: nat)
      requires Pow(2, k) > 0
      ensures BitAt(v, k) <==> (v / Pow(2, k)) % 2 == 1
    {
      hide Pow;
    }

    /** Bit k of each of the five constants. */
    ghost predicate LowBits(k: nat, b0: bool, b1: bool, b2: bool, b3: bool, b4: bool)
      requires |generator| == 5
    {
      && BitAt(generator[0], k) == b0 && BitAt(generator[1], k) == b1 && BitAt(generator[2], k) == b2
      && BitAt(generator[3], k) == b3 && BitAt(generator[4], k) == b4
    }

    /** One equation of the linear system that a top with no low feedback bits satisfies. */
    lemma ParityRow(top: nat, k: nat, b0: bool, b1: bool, b2: bool, b3: bool, b4: bool)
      requires |generator| == 5 && LowBits(k, b0, b1, b2, b3, b4)
      requires Feedback(top, 5) % 32 == 0 && k < 5
      ensures (((((BitAt(top, 0) && b0) != (BitAt(top, 1) && b1)) != (BitAt(top, 2) && b2))
               != (BitAt(top, 3) && b3)) != (BitAt(top, 4) && b4)) == false
    {
      FeedbackBit(top, k, 5);
      MultipleBit(Feedback(top, 5), k);
      hide Feedback, BitAt;
      assert Parity(top, k, 1) == (BitAt(top, 0) && b0);
      assert Parity(top, k, 3) == (Parity(top, k, 2) != (BitAt(top, 2) && b2));
      assert Parity(top, k, 4) == (Parity(top, k, 3) != (BitAt(top, 3) && b3));
    }

    static lemma MultipleBit(v: nat, k: nat)
      requires v % 32 == 0 && k < 5
      ensures !BitAt(v, k)
    {
      var w, q := Pow(2, k), v / 32;
      assert Pow(2, 0) == 1 && Pow(2, 1) == 2 && Pow(2, 2) == 4 && Pow(2, 3) == 8 && Pow(2, 4) == 16;
      hide Pow;
      if k == 0 {
        QuotientUnique(v, w, 32 * q, 0);
      } else if k == 1 {
        QuotientUnique(v, w, 16 * q, 0);
      } else if k == 2 {
        QuotientUnique(v, w, 8 * q, 0);
      } else if k == 3 {
        QuotientUnique(v, w, 4 * q, 0);
      } else {
        QuotientUnique(v, w, 2 * q, 0);
      }
    }

    static lemma ZeroBits(top: nat)
      requires top < 32 && !BitAt(top, 0) && !BitAt(top, 1) && !BitAt(top, 2) && !BitAt(top, 3) && !BitAt(top, 4)
      ensures top == 0
    {
      assert Pow(2, 0) == 1 && Pow(2, 1) == 2 && Pow(2, 2) == 4 && Pow(2, 3) == 8 && Pow(2, 4) == 16;
      hide Pow;
    }

    // ----- linearity and injectivity -----

    lemma TapLinear(a: nat, b: nat, i: nat)
      requires i < |generator|
      ensures Tap(Xor(a, b), i) == Xor(Tap(a, i), Tap(b, i))
    {
      hide Xor;
      hide Select;
      XorSplit(a, b, i);
      SelectLinear(a / Pow(2, i), b / Pow(2, i), generator[i]);
    }

    static function Select(x: nat, g: nat): nat {
      if x % 2 == 1 then g else 0
    }

    static lemma SelectLinear(x: nat, y: nat, g: nat)
      ensures Select(Xor(x, y), g) == Xor(Select(x, g), Select(y, g))
    {
      XorHalf(x, y);
      XorZero(g);
      XorZero(0);
      XorSelf(g);
      hide Xor;
    }

    lemma {:induction false} FeedbackLinear(a: nat, b: nat, i: nat)
      requires i <= |generator|
      ensures Feedback(Xor(a, b), i) == Xor(Feedback(a, i), Feedback(b, i))
    {
      hide Tap, Pow;
      if i == 0 {
        XorZero(0);
      } else {
        hide Xor;
        FeedbackLinear(a, b, i - 1);
        TapLinear(a, b, i - 1);
        XorInterchange(Feedback(a, i - 1), Feedback(b, i - 1), Tap(a, i - 1), Tap(b, i - 1));
      }
    }

    lemma ShiftLinear(a: nat, b: nat)
      requires n > 0 && |generator| == 5
      ensures Shift(Xor(a, b)) == Xor(Shift(a), Shift(b))
    {
      hide *;
      XorSplit(a, b, 5 * (n - 1));
      ShiftIs(a);
      ShiftIs(b);
      ShiftIs(Xor(a, b));
      var w := Pow(2, 5 * (n - 1));
      ShiftParts(a % w, a / w, b % w, b / w);
    }

    lemma ShiftIs(c: nat)
      requires n > 0 && |generator| == 5
      ensures var w := Pow(2, 5 * (n - 1)); w > 0 && Shift(c) == Xor((c % w) * 32, Feedback(c / w, 5))
    {
      PowMonotone(2, 5 * (n - 1), 5 * (n - 1));
      hide Xor, Feedback, Pow;
    }

    lemma ShiftParts(la: nat, ta: nat, lb: nat, tb: nat)
      requires |generator| == 5
      ensures Xor(Xor(la, lb) * 32, Feedback(Xor(ta, tb), 5))
           == Xor(Xor(la * 32, Feedback(ta, 5)), Xor(lb * 32, Feedback(tb, 5)))
    {
      hide *;
      FeedbackLinear(ta, tb, 5);
      XorHigh(la, lb);
      XorInterchange(la * 32, Feedback(ta, 5), lb * 32, Feedback(tb, 5));
    }

    lemma {:induction false} FeedbackBound(top: nat, i: nat)
      requires Valid() && i <= 5
      ensures Feedback(top, i) < Pow(2, 5 * n)
    {
      PowMonotone(2, 5 * n, 5 * n);
      if i > 0 {
        FeedbackBound(top, i - 1);
        XorBelow(Feedback(top, i - 1), Tap(top, i - 1), 5 * n);
      }
    }

    lemma ShiftBound(chk: nat)
      requires Valid()
      ensures Shift(chk) < Pow(2, 5 * n)
    {
      var k := 5 * (n - 1);
      PowMonotone(2, k, k);
      PowAdd(2, k, 5);
      assert Pow(2, 5) == 32;
      FeedbackBound(chk / Pow(2, k), 5);
      XorBelow((chk % Pow(2, k)) * 32, Feedback(chk / Pow(2, k), 5), 5 * n);
    }

    /** Nothing in range but 0 is shifted to 0. */
    lemma ShiftKernel(c: nat)
      requires Valid() && c < Pow(2, 5 * n) && Shift(c) == 0
      ensures c == 0
    {
      assert n > 0 && |generator| == 5;
      var w := TopWeight();
      var top, low := c / w, c % w;
      assert Shift(c) == Xor(low * 32, Feedback(top, 5));
      hide *;
      Divided(c, w);
      KernelParts(top, low);
    }

    lemma TopWeight() returns (w: nat)
      requires n > 0
      ensures w == Pow(2, 5 * (n - 1)) > 0 && Pow(2, 5 * n) == w * 32
    {
      var k := 5 * (n - 1);
      PowMonotone(2, k, k);
      PowAdd(2, k, 5);
      assert Pow(2, 5) == 32;
      w := Pow(2, k);
    }

    static lemma Divided(c: nat, w: nat)
      requires w > 0 && c < w * 32
      ensures 0 <= c / w < 32 && 0 <= c % w && (c / w == 0 && c % w == 0 ==> c == 0)
    {
      assert c == w * (c / w) + c % w;
      TopBelow(w, c / w, c % w);
      assert w * 0 == 0;
    }

    /** A register whose two parts cancel has both equal to 0. */
    lemma KernelParts(top: nat, low: nat)
      requires Valid() && top < 32 && Xor(low * 32, Feedback(top, 5)) == 0
      ensures top == 0 && low == 0
    {
      hide Feedback, Xor, Pow;
      XorSelf(low * 32);
      XorCancel(low * 32, Feedback(top, 5), low * 32);
      MulMod(low, 32);
      FeedbackZero(5);
    }

    static lemma TopBelow(w: nat, top: nat, low: nat)
      requires w > 0 && w * top + low < w * 32
      ensures top < 32
    {
    }

    lemma {:induction false} FeedbackZero(i: nat)
      requires i <= |generator|
      ensures Feedback(0, i) == 0
    {
      if i > 0 {
        FeedbackZero(i - 1);
        PowMonotone(2, i - 1, i - 1);
        assert 0 / Pow(2, i - 1) == 0 by { QuotientUnique(0, Pow(2, i - 1), 0, 0); }
      }
    }

    lemma ShiftInjective(a: nat, b: nat)
      requires Valid() && a < Pow(2, 5 * n) && b < Pow(2, 5 * n) && Shift(a) == Shift(b)
      ensures a == b
    {
      ShiftLinear(a, b);
      XorSelf(Shift(a));
      XorBelow(a, b, 5 * n);
      ShiftKernel(Xor(a, b));
      XorSelf(a);
      XorCancel(a, b, a);
    }

    /** All symbols fit in the register. */
    ghost predicate Fits(s: seq<nat>) {
      forall i :: 0 <= i < |s| ==> s[i] < Pow(2, 5 * n)
    }

    lemma {:induction false} RunBound(chk: nat, s: seq<nat>)
      requires Valid() && chk < Pow(2, 5 * n) && Fits(s)
      ensures Run(chk, s) < Pow(2, 5 * n)
    {
      if s != [] {
        var t := s[..|s| - 1];
        RunBound(chk, t);
        ShiftBound(Run(chk, t));
        XorBelow(Shift(Run(chk, t)), s[|s| - 1], 5 * n);
      }
    }

    lemma {:induction false} RunInjective(a: nat, b: nat, s: seq<nat>)
      requires Valid() && a < Pow(2, 5 * n) && b < Pow(2, 5 * n) && Fits(s) && Run(a, s) == Run(b, s)
      ensures a == b
    {
      if s != [] {
        var t := s[..|s| - 1];
        RunBound(a, t);
        RunBound(b, t);
        var v := s[|s| - 1];
        XorComm(Shift(Run(a, t)), v);
        XorComm(Shift(Run(b, t)), v);
        XorCancel(v, Shift(Run(a, t)), Shift(Run(b, t)));
        ShiftInjective(Run(a, t), Run(b, t));
        RunInjective(a, b, t);
      }
    }

    lemma {:induction false} RunConcat(chk: nat, s: seq<nat>, t: seq<nat>)
      requires n > 0 && |generator| == 5
      ensures Run(chk, s + t) == Run(Run(chk, s), t)
    {
      if t == [] {
        assert s + t == s;
      } else {
        assert (s + t)[..|s + t| - 1] == s + t[..|t| - 1];
        RunConcat(chk, s, t[..|t| - 1]);
      }
    }

    /** Replacing one symbol, anywhere in a string of any length, changes the register. */
    lemma SingleError(chk: nat, s: seq<nat>, i: nat, v: nat)
      requires Valid() && chk < Pow(2, 5 * n) && Fits(s) && i < |s| && v < Pow(2, 5 * n) && v != s[i]
      ensures Run(chk, s[i := v]) != Run(chk, s)
    {
      var p, q := s[..i], s[i + 1..];
      var a, b := p + [s[i]], p + [v];
      assert s == a + q && s[i := v] == b + q;
      RunConcat(chk, a, q);
      RunConcat(chk, b, q);
      assert a[..i] == p && b[..i] == p;
      RunBound(chk, a);
      RunBound(chk, b);
      if Run(chk, a) == Run(chk, b) { XorCancel(Shift(Run(chk, p)), s[i], v); }
      if Run(chk, s[i := v]) == Run(chk, s) { RunInjective(Run(chk, b), Run(chk, a), q); }
    }

    // ----- checksum symbols -----

    /** A string of 5-bit symbols as a number, most significant first. */
    static function Number(d: seq<nat>): nat {
      if d == [] then 0 else Number(d[..|d| - 1]) * 32 + d[|d| - 1]
    }

    static ghost predicate FiveBit(d: seq<nat>) {
      forall i :: 0 <= i < |d| ==> d[i] < 32
    }

    /** The k least significant base-32 digits of v: (v >> 5*(k-1-i)) & 31 for i in 0..k-1. */
    static function Digits(v: nat, k: nat): (d: seq<nat>)
      ensures |d| == k
      ensures FiveBit(d)
    {
      if k == 0 then [] else Digits(v / 32, k - 1) + [v % 32]
    }

    static lemma {:induction false} NumberDigits(v: nat, k: nat)
      requires v < Pow(2, 5 * k)
      ensures Number(Digits(v, k)) == v
    {
      if k > 0 {
        PowAdd(2, 5 * (k - 1), 5);
        assert Pow(2, 5) == 32;
        NumberDigits(v / 32, k - 1);
        assert Digits(v, k)[..k - 1] == Digits(v / 32, k - 1);
      }
    }

    static lemma {:induction false} DigitsNumber(d: seq<nat>)
      requires FiveBit(d)
      ensures Number(d) < Pow(2, 5 * |d|) && Digits(Number(d), |d|) == d
    {
      if d != [] {
        var c, x := d[..|d| - 1], d[|d| - 1];
        DigitsNumber(c);
        PowAdd(2, 5 * |c|, 5);
        assert Pow(2, 5) == 32;
        hide Pow, FiveBit;
        LastDigit(Number(c), x, Pow(2, 5 * |c|));
        assert d == c + [x];
      }
    }

    static lemma LastDigit(m: nat, x: nat, w: nat)
      requires x < 32 && m < w
      ensures (m * 32 + x) / 32 == m && (m * 32 + x) % 32 == x && m * 32 + x < w * 32
    {
    }

    static function Zeros(k: nat): (z: seq<nat>)
      ensures |z| == k && FiveBit(z)
    {
      if k == 0 then [] else Zeros(k - 1) + [0]
    }

    /** Up to n symbols enter the register without being shifted out: they add their number. */
    lemma {:induction false} RunSymbols(chk: nat, d: seq<nat>)
      requires Valid() && |d| <= n && FiveBit(d)
      ensures Run(chk, d) == Xor(Run(chk, Zeros(|d|)), Number(d))
    {
      hide Xor, Shift, Pow;
      if d == [] {
        XorZero(chk);
      } else {
        var c, v := d[..|d| - 1], d[|d| - 1];
        RunSymbols(chk, c);
        DigitsNumber(c);
        assert Zeros(|d|)[..|c|] == Zeros(|c|);
        SymbolStep(Run(chk, Zeros(|c|)), Number(c), v, |c|);
      }
    }

    lemma SymbolStep(z: nat, m: nat, v: nat, k: nat)
      requires Valid() && k < n && m < Pow(2, 5 * k) && v < 32
      ensures Xor(Shift(Xor(z, m)), v) == Xor(Xor(Shift(z), 0), m * 32 + v)
    {
      assert n > 0 && |generator| == 5;
      hide *;
      ShiftLinear(z, m);
      ShiftSmall(m, k);
      XorLow(m, v);
      XorAssoc(Shift(z), m * 32, v);
      XorZero(Shift(z));
    }

    lemma ShiftSmall(m: nat, k: nat)
      requires Valid() && k < n && m < Pow(2, 5 * k)
      ensures Shift(m) == m * 32
    {
      var w := Pow(2, 5 * (n - 1));
      PowMonotone(2, 5 * k, 5 * (n - 1));
      QuotientUnique(m, w, 0, m);
      FeedbackZero(5);
      XorZero(m * 32);
    }

    /** Any change confined to n adjacent symbols, anywhere in a string of any length, changes the register. */
    lemma BurstError(chk: nat, p: seq<nat>, a: seq<nat>, b: seq<nat>, q: seq<nat>)
      requires Valid() && chk < Pow(2, 5 * n) && Fits(p) && Fits(q)
      requires |a| == |b| <= n && FiveBit(a) && FiveBit(b) && a != b
      ensures Run(chk, p + a + q) != Run(chk, p + b + q)
    {
      assert n > 0 && |generator| == 5;
      SymbolsFit(a);
      SymbolsFit(b);
      hide *;
      RunConcat(chk, p + a, q);
      RunConcat(chk, p + b, q);
      RunConcat(chk, p, a);
      RunConcat(chk, p, b);
      var c := Run(chk, p);
      RunBound(chk, p);
      RunBound(c, a);
      RunBound(c, b);
      RunSymbols(c, a);
      RunSymbols(c, b);
      DigitsNumber(a);
      DigitsNumber(b);
      if Run(c, a) == Run(c, b) { XorCancel(Run(c, Zeros(|a|)), Number(a), Number(b)); }
      if Run(chk, p + a + q) == Run(chk, p + b + q) { RunInjective(Run(c, a), Run(c, b), q); }
    }

    lemma SymbolsFit(d: seq<nat>)
      requires n > 0 && FiveBit(d)
      ensures Fits(d)
    {
      assert Pow(2, 5) == 32;
      PowMonotone(2, 5, 5 * n);
    }

    /** The checksum symbols of the program: the digits of the register after n zero symbols, exclusive
        or the constant. */
    function Create(values: seq<nat>, target: nat): (d: seq<nat>)
      requires n > 0 && |generator| == 5
      ensures |d| == n && FiveBit(d)
    {
      Digits(Xor(Run(1, values + Zeros(n)), target), n)
    }

    lemma CreateFrom(chk: nat, target: nat, d: seq<nat>)
      requires Valid() && chk < Pow(2, 5 * n) && target < Pow(2, 5 * n) && |d| == n && FiveBit(d)
      ensures Run(chk, d) == target <==> d == Digits(Xor(Run(chk, Zeros(n)), target), n)
    {
      assert Pow(2, 5) == 32;
      PowMonotone(2, 5, 5 * n);
      var z := Run(chk, Zeros(n));
      assert Fits(Zeros(n));
      hide Xor, Run, Pow, Digits, Number, Zeros;
      RunBound(chk, Zeros(n));
      XorBelow(z, target, 5 * n);
      RunSymbols(chk, d);
      DigitsNumber(d);
      NumberDigits(Xor(z, target), n);
      XorAssoc(z, z, target);
      XorAssoc(z, z, Number(d));
      XorSelf(z);
      XorZero(target);
      XorZero(Number(d));
    }

    /** Created symbols bring the register to the target, and they are the only ones that do. */
    lemma CreateIff(values: seq<nat>, target: nat, d: seq<nat>)
      requires Valid() && Fits(values) && target < Pow(2, 5 * n) && |d| == n && FiveBit(d)
      ensures Run(1, values + d) == target <==> d == Create(values, target)
    {
      PowMonotone(2, 1, 5 * n);
      assert Pow(2, 1) == 2;
      hide Xor, Run, Pow, Digits, Number, Zeros;
      RunBound(1, values);
      RunConcat(1, values, d);
      RunConcat(1, values, Zeros(n));
      CreateFrom(Run(1, values), target, d);
    }
  }
}
