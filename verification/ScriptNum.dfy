/** Numbers in scripts: CScriptNum, bn2vch, and the elements a CScript is built from (script.py). */
module ScriptNum {
  import opened NumberTheory
  import opened Bytes
  import opened Script

  function Abs(v: int): nat {
    if v < 0 then -v else v
  }

  /** Little-endian digits, without leading zeros. */
  function Digits(n: nat): (b: Bytes)
    ensures n > 0 ==> b != []
  {
    if n == 0 then [] else [n % 256] + Digits(n / 256)
  }

  /** Magnitude with the sign in the top bit; an extra byte when the top bit is taken. */
  function Signed(m: Bytes, negative: bool): (b: Bytes)
    requires m != []
  {
    var c := m[|m| - 1];
    if c >= 0x80 then m + [if negative then 0x80 else 0]
    else if negative then m[..|m| - 1] + [c + 0x80]
    else m
  }

  function Payload(v: int): Bytes {
    if v == 0 then [] else Signed(Digits(Abs(v)), v < 0)
  }

  /** CScriptNum.encode; bytes([len(r)]) raises for more than 255 bytes. */
  function Encoded(v: int): Option<Bytes> {
    if v == 0 then Some([])
    else if |Payload(v)| > 0xff then None
    else Some([|Payload(v)|] + Payload(v))
  }

  lemma Grouped(a: Bytes, c: byte, b: Bytes)
    ensures a + ([c] + b) == a + [c] + b
  {
  }

  method Encode(v: int) returns (b: Option<Bytes>)
    ensures b == Encoded(v)
  {
    hide Digits, Signed, Payload, Encoded;
    var r: Bytes := [];
    EncodedIs(v);
    if v == 0 { return Some([]); }
    var neg := v < 0;
    var absvalue := if neg then -v else v;
    assert r + Digits(absvalue) == Digits(absvalue);
    while absvalue > 0
      invariant absvalue >= 0 && Digits(Abs(v)) == r + Digits(absvalue)
    {
      DigitStep(absvalue);
      Grouped(r, absvalue % 256, Digits(absvalue / 256));
      r := r + [absvalue % 256];
      absvalue := absvalue / 256;
    }
    NoDigits(r);
    ghost var m := r;
    PayloadIs(v);
    var top := r[|r| - 1];
    if top >= 0x80 {
      r := r + [if neg then 0x80 else 0];
    } else if neg {
      r := r[|r| - 1 := top + 0x80];
    }
    SignedIs(m, neg);
    EncodedIs(v);
    if |r| > 0xff { return None; }
    return Some([|r|] + r);
  }

  lemma NoDigits(r: Bytes)
    ensures r + Digits(0) == r && r + [] == r
  {
  }

  lemma PayloadIs(v: int)
    requires v != 0
    ensures Digits(Abs(v)) != [] && Payload(v) == Signed(Digits(Abs(v)), v < 0)
  {
    hide Digits, Signed;
  }

  lemma EncodedIs(v: int)
    ensures Encoded(v)
         == if v == 0 then Some([]) else if |Payload(v)| > 0xff then None else Some([|Payload(v)|] + Payload(v))
  {
    hide Payload;
  }

  /** The last byte rewritten in place. */
  lemma SignedIs(m: Bytes, negative: bool)
    requires m != []
    ensures var top := m[|m| - 1];
            && (top >= 0x80 ==> Signed(m, negative) == m + [if negative then 0x80 else 0])
            && (top < 0x80 && negative ==> Signed(m, negative) == m[|m| - 1 := top + 0x80])
            && (top < 0x80 && !negative ==> Signed(m, negative) == m)
  {
    hide Digits, Pow, FromLE;
    if m[|m| - 1] < 0x80 && negative {
      assert m[..|m| - 1] + [m[|m| - 1] + 0x80] == m[|m| - 1 := m[|m| - 1] + 0x80];
    }
  }

  lemma DigitStep(n: nat)
    ensures n > 0 ==> Digits(n) == [n % 256] + Digits(n / 256)
  {
  }

  function Place(k: nat): (p: nat)
    ensures p > 0
  {
    PowMonotone(256, 0, k);
    Pow(256, k)
  }

  /** The weight of the sign bit of a k-byte payload. */
  function Half(k: nat): (h: nat)
    requires k > 0
    ensures h > 0
  {
    128 * Place(k - 1)
  }

  lemma HalfIsPower(k: nat)
    requires k > 0
    ensures Half(k) == Pow(2, 8 * k - 1) && Pow(2, 8 * k) == 2 * Half(k) == Pow(256, k)
  {
    Pow256(k - 1);
    Pow256(k);
    PowStep(256, k);
    PowStep(2, 8 * k);
    hide Pow;
  }

  /** The number a payload stands for: the low bits, negated when the top bit is set. */
  function Denoted(value: Bytes): int {
    if value == [] then 0
    else if value[|value| - 1] >= 0x80 then -(FromLE(value) % Half(|value|))
    else FromLE(value)
  }

  method Decode(vch: Bytes) returns (result: int)
    ensures result == Denoted(if vch == [] then [] else vch[1..])
  {
    result := 0;
    var value := if vch == [] then [] else vch[1..];
    if |value| == 0 { return; }
    for i := 0 to |value|
      invariant result == FromLE(value[..i])
    {
      LEAppend(value[..i], value[i]);
      assert value[..i + 1] == value[..i] + [value[i]];
      result := result + value[i] * Pow(256, i);
    }
    assert value[..|value|] == value;
    if value[|value| - 1] >= 0x80 {
      var num_mask := (Pow(2, 8 * |value|) - 1) / 2;
      HalfIsPower(|value|);
      // keeping the bits of a mask 2^k - 1
      result := result % (num_mask + 1);
      result := result * -1;
    }
  }

  // ----- values of digit strings -----

  lemma {:induction false} LEAppend(a: Bytes, c: byte)
    ensures FromLE(a + [c]) == FromLE(a) + c * Pow(256, |a|)
  {
    if a == [] {
      assert FromLE([c]) == c + 256 * FromLE([]);
    } else {
      LEAppend(a[1..], c);
      assert (a + [c])[1..] == a[1..] + [c];
      Distribute(256, FromLE(a[1..]), c, Pow(256, |a| - 1));
    }
  }

  lemma Distribute(b: int, x: int, c: int, p: int)
    ensures b * (x + c * p) == b * x + c * (b * p)
  {
  }

  lemma {:induction false} DigitsValue(n: nat)
    ensures FromLE(Digits(n)) == n
    ensures n > 0 ==> Digits(n)[|Digits(n)| - 1] != 0
  {
    if n > 0 {
      DigitsValue(n / 256);
      assert Digits(n)[1..] == Digits(n / 256);
    }
  }

  lemma {:induction false} DigitsOf(b: Bytes)
    requires b != [] ==> b[|b| - 1] != 0
    ensures Digits(FromLE(b)) == b && (b != [] ==> FromLE(b) > 0)
  {
    if b != [] {
      DigitsOf(b[1..]);
      assert FromLE(b) / 256 == FromLE(b[1..]) && FromLE(b) % 256 == b[0];
      assert b == [b[0]] + b[1..];
    }
  }

  lemma Below(low: nat, d: nat, e: nat, p: nat)
    requires low < p && d < e
    ensures low + d * p < e * p
  {
    assert (d + 1) * p <= e * p;
  }

  lemma AtLeast(d: nat, e: nat, low: nat, p: nat)
    requires d <= e
    ensures d * p <= low + e * p
  {
  }

  lemma DropSign(low: nat, c: nat, p: nat)
    requires low < p && c < 128
    ensures low + c * p < 128 * p && low + (c + 128) * p == low + c * p + 128 * p
    ensures (low + (c + 128) * p) % (128 * p) == low + c * p
  {
    Below(low, c, 128, p);
    assert (c + 128) * p == c * p + 128 * p;
    QuotientUnique(low + (c + 128) * p, 128 * p, 1, low + c * p);
  }

  lemma AtPlace(a: Bytes, c: byte)
    ensures FromLE(a) < Place(|a|) && FromLE(a + [c]) == FromLE(a) + c * Place(|a|)
  {
    LEAppend(a, c);
    LEBound(a);
  }

  lemma DenotedIs(a: Bytes, c: byte)
    ensures Half(|a| + 1) == 128 * Place(|a|)
    ensures Denoted(a + [c]) == if c >= 128 then 0 - FromLE(a + [c]) % Half(|a| + 1) else FromLE(a + [c])
  {
    hide FromLE, Place;
  }

  /** A payload without its sign bit, and with it. */
  lemma SignAndMagnitude(a: Bytes, c: byte)
    requires c < 128
    ensures FromLE(a + [c]) < Half(|a| + 1) && Denoted(a + [c]) == FromLE(a + [c])
    ensures Denoted(a + [c + 128]) == 0 - FromLE(a + [c])
    ensures FromLE(a + [c + 128]) == FromLE(a + [c]) + Half(|a| + 1)
  {
    hide *;
    DenotedIs(a, c);
    DenotedIs(a, c + 128);
    AtPlace(a, c);
    AtPlace(a, c + 128);
    DropSign(FromLE(a), c, Place(|a|));
  }

  lemma {:induction false} TrailingZero(a: Bytes)
    ensures FromLE(a + [0]) == FromLE(a)
  {
    LEAppend(a, 0);
  }

  lemma LastByte(b: Bytes)
    requires b != []
    ensures b == b[..|b| - 1] + [b[|b| - 1]]
  {
  }

  /** A digit string without leading zeros is at least as large as its length says. */
  lemma Lower(a: Bytes, c: byte)
    requires c != 0
    ensures c >= 128 ==> 128 * Place(|a|) <= FromLE(a + [c])
    ensures |a| > 0 ==> 128 * Place(|a| - 1) <= FromLE(a + [c])
  {
    LEAppend(a, c);
    assert |a| > 0 ==> Place(|a|) == 256 * Place(|a| - 1);
    hide Place, FromLE;
    AtLeast(1, c, FromLE(a), Place(|a|));
    if c >= 128 { AtLeast(128, c, FromLE(a), Place(|a|)); }
  }

  lemma SignedShape(v: int)
    requires v != 0
    ensures var m := Digits(Abs(v)); var a, c := m[..|m| - 1], m[|m| - 1];
            Payload(v) == if c >= 0x80 then m + [if v < 0 then 0x80 else 0] else a + [if v < 0 then c + 0x80 else c]
  {
    hide Digits;
    LastByte(Digits(Abs(v)));
  }

  /** The payload of a number denotes it, and its little-endian value is the magnitude plus the sign bit. */
  lemma PayloadDenotes(v: int)
    requires v != 0
    ensures Payload(v) != [] && Denoted(Payload(v)) == v
    ensures FromLE(Payload(v)) == Abs(v) + if v < 0 then Half(|Payload(v)|) else 0
    ensures Abs(v) < Half(|Payload(v)|) && (|Payload(v)| > 1 ==> Half(|Payload(v)| - 1) <= Abs(v))
  {
    hide Denoted, FromLE, Place, Digits, Payload;
    var m := Digits(Abs(v));
    DigitsValue(Abs(v));
    SignedShape(v);
    LastByte(m);
    var a, c := m[..|m| - 1], m[|m| - 1];
    Lower(a, c);
    if c >= 128 {
      SignAndMagnitude(m, 0);
      TrailingZero(m);
    } else {
      SignAndMagnitude(a, c);
    }
  }

  /** Decoding undoes encoding for every integer whose payload fits one length byte. */
  lemma NumberRoundTrip(v: int)
    ensures Encoded(v).Some? <==> v == 0 || |Payload(v)| <= 0xff
    ensures Encoded(v).Some? ==>
            var vch := Encoded(v).value; Denoted(if vch == [] then [] else vch[1..]) == v
  {
    if v != 0 { PayloadDenotes(v); }
    if v != 0 && |Payload(v)| <= 0xff { assert Encoded(v).value[1..] == Payload(v); }
  }

  // ----- minimal payloads -----

  /** No byte of b is there only to hold a sign that the one before could have held. */
  predicate Minimal(b: Bytes) {
    b == [] || b[|b| - 1] !in {0, 128} || (|b| > 1 && b[|b| - 2] >= 128)
  }

  lemma PayloadMinimal(v: int)
    ensures Minimal(Payload(v))
  {
    if v != 0 { DigitsValue(Abs(v)); }
  }

  /** The digits of a magnitude, when the payload has no sign bit set beside them. */
  lemma MinimalWritten(a: Bytes, d: byte, negative: bool)
    requires d < 128 && Minimal(a + [d])
    ensures Payload(Denoted(a + [if negative then d + 128 else d])) == a + [if negative then d + 128 else d]
  {
    hide Denoted, FromLE, Place, Half, Digits, Payload;
    SignAndMagnitude(a, d);
    TrailingZero(a);
    var m := if d != 0 then a + [d] else a;
    DigitsOf(m);
    SignedShape(if negative then 0 - FromLE(m) else FromLE(m));
  }

  /** The minimal payloads are exactly those written. */
  lemma MinimalIffWritten(b: Bytes)
    ensures Payload(Denoted(b)) == b <==> Minimal(b)
  {
    hide Denoted, Payload;
    PayloadMinimal(Denoted(b));
    if b == [] {
      DenotedNothing();
      PayloadOfZero();
    } else if Minimal(b) {
      LastByte(b);
      var a, c := b[..|b| - 1], b[|b| - 1];
      MinimalWritten(a, if c < 128 then c else c - 128, c >= 128);
    }
  }

  lemma DenotedNothing()
    ensures Denoted([]) == 0
  {
  }

  /** Nothing shorter denotes the same number. */
  lemma PayloadShortest(v: int, b: Bytes)
    requires Denoted(b) == v
    ensures |Payload(v)| <= |b|
  {
    if v != 0 {
      assert b != [];
      PayloadDenotes(v);
      LastByte(b);
      SignAndMagnitude(b[..|b| - 1], if b[|b| - 1] < 128 then b[|b| - 1] else b[|b| - 1] - 128);
      PlacesGrow(|b| - 1, |Payload(v)| - 2);
    }
  }

  lemma PlacesGrow(i: nat, k: int)
    ensures i <= k ==> Place(i) <= Place(k)
  {
    if i <= k { PowMonotone(256, i, k); }
  }

  // ----- bn2vch -----

  function Bn2vchSize(v: int): nat {
    (BitLength(Abs(v)) + (if v != 0 then 1 else 0) + 7) / 8
  }

  /** The number bn2vch writes: the magnitude with the sign bit above it. */
  function Bn2vchNumber(v: int): nat {
    if v == 0 then 0 else Abs(v) + if v < 0 && Bn2vchSize(v) > 0 then Pow2(Bn2vchSize(v) * 8 - 1) else 0
  }

  function Pow2(k: nat): nat {
    PowMonotone(2, 0, k);
    Pow(2, k)
  }

  /** bn2vch goes by the bit length; the result is the payload. */
  function Bn2vch(v: int): (b: Bytes)
    ensures b == Payload(v)
  {
    Bn2vchBytes(v);
    ToLE(Bn2vchNumber(v), Bn2vchSize(v))
  }

  lemma Bn2vchBytes(v: int)
    ensures Bn2vchSize(v) == |Payload(v)| && (v != 0 ==> Bn2vchSize(v) > 0)
    ensures Bn2vchNumber(v) < Pow(256, Bn2vchSize(v)) && ToLE(Bn2vchNumber(v), Bn2vchSize(v)) == Payload(v)
  {
    if v != 0 {
      hide FromLE, ToLE, Payload, Pow, BitLength, Half;
      var p := Payload(v);
      PayloadDenotes(v);
      LEBytesRoundTrip(p);
      BytesOfBits(Abs(v), |p|);
      HalfIsPower(|p|);
    } else {
      assert BitLength(0) == 0;
    }
  }

  lemma BytesOfBits(m: nat, k: nat)
    requires m > 0 && k > 0 && m < Half(k) && (k > 1 ==> Half(k - 1) <= m)
    ensures (BitLength(m) + 8) / 8 == k
  {
    hide Pow, BitLength, Half;
    BitLengthBounds(m);
    HalfIsPower(k);
    if k > 1 { HalfIsPower(k - 1); }
    var n := BitLength(m);
    if n > 8 * k - 1 { PowMonotone(2, 8 * k - 1, n - 1); }
    if k > 1 && n < 8 * k - 8 { PowMonotone(2, n, 8 * k - 9); }
  }

  // ----- the elements of a script -----

  datatype Element = Op(opcode: byte) | Num(value: int) | Int(value: int) | Data(data: Bytes)

  function EncodeOpN(n: nat): byte
    requires n <= 16
  {
    if n == 0 then 0x00 else 0x51 + n - 1
  }

  function PushBytes(d: Bytes): Option<Bytes> {
    match Push(d)
    case None => None
    case Some(x) => PushWellFormed(d); Some(Raw(x))
  }

  /** CScript.__coerce_instance: the bytes an element contributes, or None where it raises. */
  function Coerced(e: Element): Option<Bytes> {
    match e
    case Op(o) => Some([o])
    case Num(v) => if v == 0 then Some([0x00]) else Encoded(v)
    case Int(v) =>
      if 0 <= v <= 16 then Some([EncodeOpN(v)])
      else if v == -1 then Some([0x4f])
      else PushBytes(Bn2vch(v))
    case Data(d) => PushBytes(d)
  }

  /** CScript.__new__ on an iterable of elements. */
  function Build(es: seq<Element>): Option<Bytes> {
    if es == [] then Some([])
    else
      match Coerced(es[0])
      case None => None
      case Some(b) =>
        match Build(es[1..])
        case None => None
        case Some(r) => Some(b + r)
  }

  /** The instruction an element is meant to be. */
  function Meant(e: Element): Instr {
    match e
    case Op(o) => if o == 0 then Instr(0, Some([])) else Instr(o, None)
    case Num(v) => Instr(if |Payload(v)| < OP_PUSHDATA1 then |Payload(v)| else OP_PUSHDATA1, Some(Payload(v)))
    case Int(v) =>
      if v == 0 then Instr(0, Some([]))
      else if 1 <= v <= 16 then Instr(0x50 + v, None)
      else if v == -1 then Instr(0x4f, None)
      else Pushed(Payload(v))
    case Data(d) => Pushed(d)
  }

  function Pushed(d: Bytes): Instr {
    match Push(d)
    case Some(x) => x
    case None => Instr(OP_PUSHDATA4, Some(d))
  }

  /** An element that stands alone: no bare push opcode, no payload too long for its length byte. */
  predicate Alone(e: Element) {
    match e
    case Op(o) => o == 0 || o > OP_PUSHDATA4
    case Num(v) => |Payload(v)| < OP_PUSHDATA1
    case Int(v) => |Payload(v)| <= 0xffffffff
    case Data(d) => |d| <= 0xffffffff
  }

  lemma PayloadOfZero()
    ensures Payload(0) == []
  {
  }

  lemma CoercedMeans(e: Element)
    requires Alone(e)
    ensures WellFormed(Meant(e)) && Coerced(e) == Some(Raw(Meant(e)))
  {
    hide Payload;
    PayloadOfZero();
    RawShort([]);
    assert [0 as byte] + [] == [0];
    match e {
      case Op(_) =>
      case Num(v) =>
        RawShort(Payload(v));
      case Int(v) => PushWellFormed(Payload(v));
      case Data(d) => PushWellFormed(d);
    }
  }

  lemma RawShort(p: Bytes)
    requires |p| < OP_PUSHDATA1
    ensures Raw(Instr(|p|, Some(p))) == [|p|] + p
  {
    assert ToLE(0, 0) == [];
  }

  lemma NotReadBack(t: Bytes, p: Bytes, rest: Bytes)
    requires OP_PUSHDATA1 <= |p| <= 0xff && t == [|p|] + p + rest
    ensures First(t) != Some((Instr(|p|, Some(p)), rest))
  {
    hide First;
    var k := LengthBytes(t[0]);
    FirstIs(t);
  }

  /** A number element is read back as a push of its payload exactly when the payload is shorter than
      OP_PUSHDATA1; from there on its length byte is taken for another opcode. */
  lemma NumReadBack(v: int, rest: Bytes)
    requires v != 0 && |Payload(v)| <= 0xff
    ensures First(Coerced(Num(v)).value + rest) == Some((Instr(|Payload(v)|, Some(Payload(v))), rest))
       <==> |Payload(v)| < OP_PUSHDATA1
  {
    hide Payload, First;
    var p := Payload(v);
    PayloadDenotes(v);
    var t := [|p|] + p + rest;
    assert Coerced(Num(v)).value + rest == t;
    if |p| < OP_PUSHDATA1 {
      RawFirst(Instr(|p|, Some(p)), rest);
      RawShort(p);
    } else {
      NotReadBack(t, p, rest);
    }
  }

  /** Such a number exists: 256^75 has a payload of 76 bytes. */
  lemma NumWitness(rest: Bytes) returns (v: int)
    ensures v != 0 && |Payload(v)| == OP_PUSHDATA1
    ensures First(Coerced(Num(v)).value + rest) != Some((Instr(|Payload(v)|, Some(Payload(v))), rest))
  {
    var m: Bytes := seq(75, _ => 0) + [1];
    v := FromLE(m);
    DigitsOf(m);
    hide Digits, FromLE, First;
    PayloadIs(v);
    SignedIs(m, false);
    NumReadBack(v, rest);
  }

  function Meanings(es: seq<Element>): (xs: seq<Instr>)
    ensures |xs| == |es|
  {
    if es == [] then [] else [Meant(es[0])] + Meanings(es[1..])
  }

  /** A script built from such elements iterates as them, at their offsets. */
  lemma {:induction false} BuildIterates(es: seq<Element>)
    requires forall i :: 0 <= i < |es| ==> Alone(es[i])
    ensures AllWellFormed(Meanings(es)) && Build(es) == Some(Flatten(Meanings(es)))
    ensures Items(Build(es).value, 0) == (Laid(Meanings(es), 0), true)
  {
    hide Alone, Meant, Coerced, Items, WellFormed, Raw, Laid;
    if es != [] {
      CoercedMeans(es[0]);
      BuildIterates(es[1..]);
      assert Meanings(es)[1..] == Meanings(es[1..]);
    }
    IterateBuilt(Meanings(es), 0);
  }
}
