/** The point objects of secp256k1.py: addition on FE coordinates, batch multiplication by
    double-and-add, and the table of doublings.  Each method computes the function of Curve or Group
    that its contract names. */
module GroupElement {
  import opened NumberTheory
  import opened Bytes
  import opened Field
  import opened Curve
  import opened Group
  import opened PointCodec

  class GE {
    var infinity: bool
    var x: FE?
    var y: FE?

    ghost predicate Valid()
      reads this, x, y
    {
      !infinity ==> x != null && y != null && x.Valid() && y.Valid() && OnCurve(Affine(x.Val(), y.Val()))
    }

    ghost function Point(): Point
      requires Valid()
      reads this, x, y
    {
      if infinity then Infinity else Affine(x.Val(), y.Val())
    }

    constructor Infinite()
      ensures Valid() && Point() == Infinity
    {
      infinity := true;
      x, y := null, null;
    }

    /** GE(x, y) asserts the curve equation. */
    constructor (x: FE, y: FE)
      requires IsPrime(SIZE) && x.Valid() && y.Valid() && OnCurve(Affine(x.Val(), y.Val()))
      ensures Valid() && Point() == Affine(x.Val(), y.Val())
      ensures fresh(this.x) && fresh(this.y)
    {
      var fx := new FE(Elem(x));
      var fy := new FE(Elem(y));
      infinity := false;
      this.x, this.y := fx, fy;
    }

    /** The slope of the tangent. */
    method Tangent() returns (lam: FE)
      requires IsPrime(SIZE) && Valid() && !infinity && FMul(2, y.Val()) != 0
      ensures fresh(lam) && lam.Valid() && lam.Val() == FDiv(FMul(3, FPow(x.Val(), 2)), FMul(2, y.Val()))
    {
      ModSmall(3, SIZE);
      ModSmall(2, SIZE);
      hide FDiv, FMul, FPow, OnCurve, IsPrime, SIZE, FE.Val, FE.Valid;
      var three := new FE(Num(3));
      var x2 := x.Pow(2);
      var n := three.Mul(Elem(x2));
      var two := new FE(Num(2));
      var d := two.Mul(Elem(y));
      lam := n.TrueDiv(Elem(d));
    }

    /** The slope of the line through two points. */
    method Chord(a: GE) returns (lam: FE)
      requires IsPrime(SIZE) && Valid() && !infinity && a.Valid() && !a.infinity
      requires FSub(x.Val(), a.x.Val()) != 0
      ensures fresh(lam) && lam.Valid() && lam.Val() == FDiv(FSub(y.Val(), a.y.Val()), FSub(x.Val(), a.x.Val()))
    {
      hide FDiv, FSub, OnCurve, IsPrime, SIZE;
      var n := y.Sub(Elem(a.y));
      var d := x.Sub(Elem(a.x));
      lam := n.TrueDiv(Elem(d));
    }

    /** The point opposite to the third intersection of the line with the curve. */
    method Opposite(a: GE, lam: FE) returns (r: GE)
      requires GroupFacts() && Valid() && a.Valid() && Addable(Point(), a.Point())
      requires lam.Valid() && lam.Val() == Slope(Point(), a.Point())
      ensures r.Valid() && r.Point() == AddPoints(Point(), a.Point())
    {
      AddOnCurve(Point(), a.Point());
      ghost var lv, p, q := lam.Val(), Point(), a.Point();
      assert AddPoints(p, q) == Opposed(lv, p, q);
      hide FDiv, FMul, FSub, FPow, FAdd, OnCurve, IsPrime, SIZE, AddPoints, Slope;
      var l2 := lam.Pow(2);
      var sx := x.Add(Elem(a.x));
      var rx := l2.Sub(Elem(sx));
      var dx := x.Sub(Elem(rx));
      var ly := lam.Mul(Elem(dx));
      var ry := ly.Sub(Elem(y));
      assert Affine(rx.Val(), ry.Val()) == Opposed(lv, p, q);
      r := new GE(rx, ry);
    }

    /** The coordinates that the addition formulas give for the slope lam. */
    static function Opposed(lam: int, p: Point, q: Point): Point
      requires p.Affine? && q.Affine?
    {
      var rx := FSub(FPow(lam, 2), FAdd(p.x, q.x));
      Affine(rx, FSub(FMul(lam, FSub(p.x, rx)), p.y))
    }

    method Add(a: GE) returns (r: GE)
      requires GroupFacts() && Valid() && a.Valid()
      ensures r.Valid() && r.Point() == AddPoints(Point(), a.Point())
    {
      if infinity { return a; }
      if a.infinity { return this; }
      ghost var p, q := Point(), a.Point();
      NoOrderTwo(p);
      hide FDiv, FMul, FSub, FPow, OnCurve, IsPrime, SIZE, AddPoints;
      var lam: FE;
      var sameX := x.Eq(Elem(a.x));
      if sameX {
        var sameY := y.Eq(Elem(a.y));
        if !sameY {
          SameAbscissa(p, q);
          var z := y.Add(Elem(a.y));
          assert z.Val() == 0;
          OppositeSum(p, q);
          r := new GE.Infinite();
          return;
        }
        SlopeMeaning(p, q);
        lam := Tangent();
      } else {
        SlopeMeaning(p, q);
        lam := Chord(a);
      }
      r := Opposite(a, lam);
    }

    static lemma OppositeSum(p: Point, q: Point)
      requires p.Affine? && q.Affine? && p.x == q.x && p.y != q.y
      ensures AddPoints(p, q) == Infinity
    {
    }

    method Neg() returns (r: GE)
      requires GroupFacts() && Valid()
      ensures r.Valid() && r.Point() == NegPoint(Point())
    {
      if infinity { return this; }
      NegOnCurve(Point());
      var ny := y.Neg();
      r := new GE(x, ny);
    }

    static method LiftX(x: FE) returns (r: GE?)
      requires IsPrime(SIZE) && x.Valid()
      ensures (r == null) == PointCodec.LiftX(x.Val()).None?
      ensures r != null ==> fresh(r) && r.Valid() && PointCodec.LiftX(x.Val()) == Some(r.Point())
    {
      var fx := new FE(Elem(x));
      var x3 := fx.Pow(3);
      var c := x3.Add(Num(7));
      ModSmall(7, SIZE);
      var root := c.Sqrt();
      if root == null { return null; }
      var y: FE := root;
      var even := y.IsEven();
      if !even {
        y := y.Neg();
      }
      LiftXIs(x.Val(), Affine(x.Val(), y.Val()));
      r := new GE(x, y);
    }

    /** The scalars with the points that ps says the objects stand for. */
    static ghost function Paired(aps: seq<(int, GE)>, ps: seq<Point>): (s: seq<(int, Point)>)
      requires |ps| == |aps|
    {
      seq(|aps|, i requires 0 <= i < |aps| => (aps[i].0, ps[i]))
    }

    /** The list naps of the program: the scalars reduced modulo the order. */
    static function Naps(aps: seq<(int, GE)>): (naps: seq<(nat, GE)>)
      ensures |naps| == |aps|
      ensures forall i :: 0 <= i < |aps| ==> naps[i] == (aps[i].0 % ORDER, aps[i].1)
    {
      seq(|aps|, i requires 0 <= i < |aps| => (aps[i].0 % ORDER, aps[i].1))
    }

    /** GE.mul; the ghost parameter names the points. */
    static method Mul(aps: seq<(int, GE)>, ghost ps: seq<Point>) returns (r: GE)
      requires GroupFacts() && |ps| == |aps|
      requires forall i :: 0 <= i < |aps| ==> aps[i].1.Valid() && aps[i].1.Point() == ps[i]
      ensures r.Valid() && r.Point() == WeightedSum(Paired(aps, ps))
    {
      ghost var s := Reduced(Paired(aps, ps));
      MulSetup(aps, ps);
      assert ORDER > 0;
      hide *;
      var naps := Naps(aps);
      assert forall j :: 0 <= j < |aps| ==> naps[j].1.Valid() && s[j] == (naps[j].0, naps[j].1.Point());
      r := Turns(naps, s);
    }

    /** The loop of Mul over the bits, from the highest down. */
    static method Turns(naps: seq<(nat, GE)>, ghost s: seq<(nat, Point)>) returns (r: GE)
      requires GroupFacts() && |s| == |naps| && AllOnCurve(s) && LinComb(s, 256) == Infinity
      requires forall j :: 0 <= j < |naps| ==> naps[j].1.Valid() && s[j] == (naps[j].0, naps[j].1.Point())
      ensures r.Valid() && r.Point() == LinComb(s, 0)
    {
      hide *;
      r := new GE.Infinite();
      for i := 256 downto 0
        invariant r.Valid() && r.Point() == LinComb(s, i)
      {
        r := Turn(r, naps, s, i);
      }
    }

    /** One turn of the loop of Mul: double, then add the points whose scalar has bit i set. */
    static method Turn(r0: GE, naps: seq<(nat, GE)>, ghost s: seq<(nat, Point)>, i: nat) returns (r: GE)
      requires GroupFacts() && |s| == |naps| && AllOnCurve(s) && r0.Valid() && r0.Point() == LinComb(s, i + 1)
      requires forall j :: 0 <= j < |naps| ==> naps[j].1.Valid() && s[j] == (naps[j].0, naps[j].1.Point())
      ensures r.Valid() && r.Point() == LinComb(s, i)
    {
      hide *;
      ghost var d := AddPoints(r0.Point(), r0.Point());
      r := r0.Add(r0);
      r := AddBits(r, naps, s, i, d);
      LinCombStep(s, i);
    }

    static lemma MulSetup(aps: seq<(int, GE)>, ps: seq<Point>)
      requires GroupFacts() && |ps| == |aps|
      requires forall i :: 0 <= i < |aps| ==> aps[i].1.Valid() && aps[i].1.Point() == ps[i]
      ensures var s := Reduced(Paired(aps, ps));
              && |s| == |aps| && AllOnCurve(s) && LinComb(s, 256) == Infinity
              && LinComb(s, 0) == WeightedSum(Paired(aps, ps))
              && forall j :: 0 <= j < |aps| ==> s[j] == (aps[j].0 % ORDER, aps[j].1.Point())
    {
      assert forall i :: 0 <= i < |aps| ==> OnCurve(ps[i]);
      hide OnCurve, GroupFacts, LinComb, WeightedSum, Reduced;
      ReducedAt(Paired(aps, ps));
      Two256();
      LinCombHigh(Reduced(Paired(aps, ps)), 256);
      LinCombIsWeightedSum(Paired(aps, ps));
    }

    /** The inner loop of Mul: add the points whose scalar has bit i set. */
    static method AddBits(d: GE, naps: seq<(nat, GE)>, ghost s: seq<(nat, Point)>, i: nat, ghost dp: Point)
        returns (r: GE)
      requires GroupFacts() && |s| == |naps| && d.Valid() && d.Point() == dp && AllOnCurve(s)
      requires forall j :: 0 <= j < |naps| ==> naps[j].1.Valid() && s[j] == (naps[j].0, naps[j].1.Point())
      ensures r.Valid() && r.Point() == AddPoints(dp, BitSum(s, i))
    {
      r := d;
      Identity(dp);
      for j := 0 to |naps|
        invariant r.Valid() && r.Point() == AddPoints(dp, BitSum(s[..j], i))
      {
        var (a, p) := naps[j];
        BitSumStep(s, j, i, dp);
        if Shr(a, i) % 2 == 1 {
          r := r.Add(p);
        }
      }
      assert s[..|naps|] == s;
    }

    static lemma BitSumStep(s: seq<(nat, Point)>, j: nat, k: nat, dp: Point)
      requires GroupFacts() && j < |s| && AllOnCurve(s) && OnCurve(dp)
      ensures AddPoints(dp, BitSum(s[..j + 1], k))
           == if Shr(s[j].0, k) % 2 == 1 then AddPoints(AddPoints(dp, BitSum(s[..j], k)), s[j].1)
              else AddPoints(dp, BitSum(s[..j], k))
    {
      var t, p, bit := s[..j], s[j].1, LowBit(Shr(s[j].0, k), s[j].1);
      assert s[..j + 1] == t + [s[j]];
      LastPair(t, s[j].0, p, k);
      SumsOnCurve(t, k);
      Identity(BitSum(t, k));
      Assoc(dp, BitSum(t, k), p);
    }
  }

  /** The table of doublings p, 2p, 4p, ... and the multiplication that walks the bits of the scalar. */
  class FastGEMul {
    var table: seq<GE>
    ghost var Repr: set<object?>

    ghost predicate Valid(p: Point)
      reads this, Repr
    {
      && |table| == 256 && OnCurve(p)
      && forall i :: 0 <= i < |table| ==>
           && table[i] in Repr && table[i].x in Repr && table[i].y in Repr
           && table[i].Valid() && table[i].Point() == Times(Pow2(i), p)
    }

    static function Pow2(i: nat): (w: nat)
      ensures w > 0
    {
      PowMonotone(2, i, i);
      Pow(2, i)
    }

    static lemma TimesOne(p: Point)
      ensures Times(Pow2(0), p) == p
    {
      assert Pow(2, 0) == 1;
      assert Times(1, p) == AddPoints(Times(0, p), p);
    }

    static lemma Doubling(i: nat, p: Point)
      requires GroupFacts() && OnCurve(p)
      ensures Times(Pow2(i + 1), p) == AddPoints(Times(Pow2(i), p), Times(Pow2(i), p))
    {
      TimesAdd(Pow2(i), Pow2(i), p);
    }

    constructor (p: GE)
      requires GroupFacts() && p.Valid()
      ensures Valid(p.Point())
    {
      ghost var p0 := p.Point();
      TimesOne(p0);
      hide AddPoints, GroupFacts, Times, Pow2, OnCurve, FDiv, SIZE, GE.Point, FE.Val, FE.Valid;
      var q := p;
      var t := [p];
      ghost var repr: set<object?> := {p, p.x, p.y};
      for k := 1 to 256
        invariant |t| == k && q == t[k - 1]
        invariant forall i :: 0 <= i < k ==>
          t[i] in repr && t[i].x in repr && t[i].y in repr && t[i].Valid() && t[i].Point() == Times(Pow2(i), p0)
      {
        Doubling(k - 1, p0);
        q := q.Add(q);
        t := t + [q];
        repr := repr + {q, q.x, q.y};
      }
      table := t;
      Repr := repr;
    }

    method Mul(a: int, ghost p: Point) returns (r: GE)
      requires GroupFacts() && Valid(p)
      ensures r.Valid() && r.Point() == Scale(a, p)
    {
      r := new GE.Infinite();
      var n := a % ORDER;
      var len := BitLength(n);
      TableLength(n);
      MaskedEnds(n);
      assert OnCurve(p) && Times(0, p) == Infinity;
      ScaleMod(a, p);
      hide AddPoints, Times, Scale, Shr, GroupFacts, OnCurve, SIZE, ORDER, Pow2, Masked, BitLength, FDiv, GE.Valid,
          GE.Point;
      for bit := 0 to len
        invariant r.Valid() && r.Point() == Times(Masked(n, bit), p)
      {
        LowBits(n, bit, p);
        if Shr(n, bit) % 2 == 1 {
          r := r.Add(table[bit]);
        }
      }
    }

    /** The lowest k bits. */
    static function Masked(n: nat, k: nat): nat {
      n % Pow2(k)
    }

    static lemma MaskedEnds(n: nat)
      ensures Masked(n, 0) == 0 && Masked(n, BitLength(n)) == n
    {
      BitLengthBounds(n);
      assert Pow2(0) == 1;
      ModSmall(n, Pow2(BitLength(n)));
    }

    /** A reduced scalar has at most 256 bits, so the table is never indexed out of range. */
    static lemma TableLength(n: nat)
      requires n < ORDER
      ensures BitLength(n) <= 256
    {
      Two256();
      BitLengthBounds(n);
      if BitLength(n) > 256 { PowMonotone(2, 256, BitLength(n) - 1); }
    }

    static lemma LowBits(n: nat, k: nat, p: Point)
      requires GroupFacts() && OnCurve(p)
      ensures Times(Masked(n, k + 1), p)
           == if Shr(n, k) % 2 == 1 then AddPoints(Times(Masked(n, k), p), Times(Pow2(k), p))
              else Times(Masked(n, k), p)
    {
      var w := Pow2(k);
      assert Pow2(k + 1) == 2 * w && Shr(n, k) == n / w;
      assert Masked(n, k + 1) == n % (2 * w) && Masked(n, k) == n % w;
      hide *;
      NextBit(n, w);
      if (n / w) % 2 == 1 { TimesAdd(n % w, w, p); }
    }

    static lemma NextBit(n: nat, w: nat)
      requires w > 0
      ensures n % (2 * w) == n % w + if (n / w) % 2 == 1 then w else 0
    {
      var q, r := n / w, n % w;
      var h, b := q / 2, q % 2;
      assert n == w * q + r;
      assert w * q == (2 * w) * h + w * b;
      if b == 1 { assert w * b == w; }
      QuotientUnique(n, 2 * w, h, w * b + r);
    }
  }
}
