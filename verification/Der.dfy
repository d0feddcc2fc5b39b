/** The DER form of an ECDSA signature: the writer of ECKey.sign_ecdsa and the strict parser of
    ECPubKey.verify_ecdsa. */
module Der {
  import opened NumberTheory
  import opened Bytes
  import opened PointCodec

  /** The number of bytes the writer uses: one spare bit for the sign. */
  function IntLength(n: nat): nat { (BitLength(n) + 8) / 8 }

  function IntBytes(n: nat): (b: Bytes)
    ensures |b| == IntLength(n)
  {
    IntFits(n);
    ToBE(n, IntLength(n))
  }

  lemma IntFits(n: nat)
    ensures n < Pow(256, IntLength(n))
  {
    BitLengthBounds(n);
    Pow256(IntLength(n));
    PowMonotone(2, BitLength(n), 8 * IntLength(n));
  }

  function Encode(r: nat, s: nat): (sig: Bytes)
    requires IntLength(r) <= 33 && IntLength(s) <= 33
  {
    Frame(IntBytes(r), IntBytes(s))
  }

  /** The checks of verify_ecdsa in its order; indexing past the end raises. */
  function Parse(sig: Bytes): Outcome<Option<(nat, nat)>> {
    if |sig| < 2 then Raised
    else if sig[1] as int + 2 != |sig| then Returned(None)
    else if |sig| < 4 then Returned(None)
    else if sig[0] != 0x30 then Returned(None)
    else if sig[2] != 0x02 then Returned(None)
    else
      var rlen: int := sig[3];
      if |sig| < 6 + rlen then Returned(None)
      else if rlen < 1 || rlen > 33 then Returned(None)
      else if sig[4] >= 0x80 then Returned(None)
      else if rlen > 1 && sig[4] == 0 && sig[5] < 0x80 then Returned(None)
      else if sig[4 + rlen] != 0x02 then Returned(None)
      else
        var slen: int := sig[5 + rlen];
        if slen < 1 || slen > 33 then Returned(None)
        else if |sig| != 6 + rlen + slen then Returned(None)
        else if sig[6 + rlen] >= 0x80 then Returned(None)
        else if slen > 1 && sig[6 + rlen] == 0 && sig[7 + rlen] < 0x80 then Returned(None)
        else Returned(Some((FromBE(sig[4..4 + rlen]), FromBE(sig[6 + rlen..6 + rlen + slen]))))
  }

  /** A nonnegative integer without a superfluous leading byte. */
  predicate Minimal(b: Bytes) {
    && |b| > 0 && b[0] < 0x80
    && (|b| > 1 && b[0] == 0 ==> b[1] >= 0x80)
  }

  lemma {:induction false} LeadingByte(b: Bytes)
    requires |b| > 0
    ensures FromBE(b) == b[0] * Pow(256, |b| - 1) + FromBE(b[1..])
  {
    assert b == b[..1] + b[1..];
    BEConcat(b[..1], b[1..]);
    assert b[..1][..0] == [];
    assert FromBE(b[..1]) == FromBE(b[..1][..0]) * 256 + b[0];
  }

  /** Minimal byte strings are exactly the ones the writer produces. */
  lemma MinimalIffWritten(b: Bytes)
    ensures Minimal(b) <==> b == IntBytes(FromBE(b))
  {
    var n := FromBE(b);
    BEBytesRoundTrip(b);
    if Minimal(b) {
      MinimalLength(b);
    }
    if b == IntBytes(n) {
      WrittenMinimal(b);
    }
  }

  /** The leading byte fixes the value up to the weight of the rest. */
  lemma TopByte(b: Bytes)
    requires |b| > 0
    ensures b[0] * Pow(2, 8 * (|b| - 1)) <= FromBE(b) < (b[0] + 1) * Pow(2, 8 * (|b| - 1))
  {
    LeadingByte(b);
    BEBytesRoundTrip(b[1..]);
    Pow256(|b| - 1);
    assert (b[0] + 1) * Pow(2, 8 * (|b| - 1)) == b[0] * Pow(2, 8 * (|b| - 1)) + Pow(2, 8 * (|b| - 1));
  }

  lemma ByteBound(a: int, b: int, w: nat)
    requires a <= b
    ensures a * w <= b * w
  {
  }

  lemma Weights(k: nat)
    ensures Pow(2, 8 * k) > 0 && Pow(2, 8 * k + 7) == 128 * Pow(2, 8 * k)
  {
    PowMonotone(2, 8 * k, 8 * k);
    PowAdd(2, 7, 8 * k);
    assert Pow(2, 7) == 128;
  }

  /** The values of minimal strings of k+1 bytes: below 2^(8k+7), and not below 2^(8k-1) when k > 0. */
  lemma MinimalRange(b: Bytes)
    requires |b| > 0
    ensures var n, k := FromBE(b), |b| - 1;
            Minimal(b) <==> n < Pow(2, 8 * k + 7) && (k > 0 ==> n >= Pow(2, 8 * k - 1))
  {
    var k := |b| - 1;
    TopByte(b);
    Weights(k);
    var w := Pow(2, 8 * k);
    if b[0] >= 128 { ByteBound(128, b[0], w); } else { ByteBound(b[0] + 1, 128, w); }
    if k > 0 {
      Weights(k - 1);
      var v := Pow(2, 8 * k - 8);
      assert w == 2 * Pow(2, 8 * k - 1);
      assert Pow(2, 8 * k - 1) == 128 * v;
      if b[0] == 0 {
        SecondByte(b);
        if b[1] >= 128 { ByteBound(128, b[1], v); } else { ByteBound(b[1] + 1, 128, v); }
      } else {
        ByteBound(1, b[0], w);
      }
    }
  }

  lemma SecondByte(b: Bytes)
    requires |b| > 1 && b[0] == 0
    ensures b[1] * Pow(2, 8 * (|b| - 2)) <= FromBE(b) < (b[1] + 1) * Pow(2, 8 * (|b| - 2))
  {
    LeadingByte(b);
    TopByte(b[1..]);
  }

  lemma MinimalLength(b: Bytes)
    requires Minimal(b)
    ensures |b| == IntLength(FromBE(b))
  {
    var n, k := FromBE(b), |b| - 1;
    MinimalRange(b);
    BitLengthBounds(n);
    var e := BitLength(n);
    if e > 8 * k + 7 { PowMonotone(2, 8 * k + 7, e - 1); }
    if k > 0 && e < 8 * k { PowMonotone(2, e, 8 * k - 1); }
  }

  lemma WrittenMinimal(b: Bytes)
    requires |b| == IntLength(FromBE(b))
    ensures Minimal(b)
  {
    var n, k := FromBE(b), |b| - 1;
    MinimalRange(b);
    BitLengthBounds(n);
    var e := BitLength(n);
    PowMonotone(2, e, 8 * k + 7);
    if k > 0 { PowMonotone(2, 8 * k - 1, e - 1); }
  }

  /** Where the fields of a signature with integer fields rb and sb lie. */
  lemma Layout(rb: Bytes, sb: Bytes)
    requires |rb| <= 33 && |sb| <= 33
    ensures var sig := Frame(rb, sb);
            && |sig| == 6 + |rb| + |sb|
            && sig[0] == 0x30 && sig[1] == 4 + |rb| + |sb| && sig[2] == 2 && sig[3] == |rb|
            && sig[4..4 + |rb|] == rb && sig[4 + |rb|] == 2 && sig[5 + |rb|] == |sb|
            && sig[6 + |rb|..] == sb
  {
  }

  lemma LayoutUnique(sig: Bytes, rb: Bytes, sb: Bytes)
    requires |rb| <= 33 && |sb| <= 33 && |sig| == 6 + |rb| + |sb|
    requires sig[0] == 0x30 && sig[1] == 4 + |rb| + |sb| && sig[2] == 2 && sig[3] == |rb|
    requires sig[4..4 + |rb|] == rb && sig[4 + |rb|] == 2 && sig[5 + |rb|] == |sb| && sig[6 + |rb|..] == sb
    ensures sig == Frame(rb, sb)
  {
    assert sig == sig[..4] + sig[4..4 + |rb|] + sig[4 + |rb|..6 + |rb|] + sig[6 + |rb|..];
    assert sig[..4] == [0x30] + [4 + |rb| + |sb|, 2, |rb|];
    assert sig[4 + |rb|..6 + |rb|] == [2, |sb|];
  }

  lemma ParseFields(sig: Bytes, rb: Bytes, sb: Bytes)
    requires |rb| <= 33 && |sb| <= 33 && Minimal(rb) && Minimal(sb)
    requires |sig| == 6 + |rb| + |sb|
    requires sig[0] == 0x30 && sig[1] == 4 + |rb| + |sb| && sig[2] == 2 && sig[3] == |rb|
    requires sig[4..4 + |rb|] == rb && sig[4 + |rb|] == 2 && sig[5 + |rb|] == |sb| && sig[6 + |rb|..] == sb
    ensures Parse(sig) == Returned(Some((FromBE(rb), FromBE(sb))))
  {
    assert sig[4] == rb[0] && sig[6 + |rb|] == sb[0];
    assert |rb| > 1 ==> sig[5] == rb[1];
    assert |sb| > 1 ==> sig[7 + |rb|] == sb[1];
    assert sig[6 + |rb|..6 + |rb| + |sb|] == sb;
  }

  function Frame(rb: Bytes, sb: Bytes): (sig: Bytes)
    requires |rb| <= 33 && |sb| <= 33
  {
    [0x30] + [4 + |rb| + |sb|, 2, |rb|] + rb + [2, |sb|] + sb
  }

  lemma ParseWritten(rb: Bytes, sb: Bytes)
    requires |rb| <= 33 && |sb| <= 33 && Minimal(rb) && Minimal(sb)
    ensures Parse(Frame(rb, sb)) == Returned(Some((FromBE(rb), FromBE(sb))))
  {
    Layout(rb, sb);
    hide FromBE, Minimal, Parse;
    ParseFields(Frame(rb, sb), rb, sb);
  }

  lemma IntBytesMeaning(n: nat)
    ensures FromBE(IntBytes(n)) == n && Minimal(IntBytes(n))
  {
    IntFits(n);
    BERoundTrip(n, IntLength(n));
    MinimalIffWritten(IntBytes(n));
  }

  lemma ParseEncoded(r: nat, s: nat)
    requires IntLength(r) <= 33 && IntLength(s) <= 33
    ensures Parse(Encode(r, s)) == Returned(Some((r, s)))
  {
    var rb, sb := IntBytes(r), IntBytes(s);
    IntBytesMeaning(r);
    IntBytesMeaning(s);
    ParseWritten(rb, sb);
  }

  lemma ParsedEncoded(sig: Bytes, r: nat, s: nat)
    requires Parse(sig) == Returned(Some((r, s)))
    ensures IntLength(r) <= 33 && IntLength(s) <= 33 && sig == Encode(r, s)
  {
    var rb, sb := sig[4..4 + sig[3] as int], sig[6 + sig[3] as int..];
    assert sb == sig[6 + sig[3] as int..6 + sig[3] as int + |sb|];
    assert Minimal(rb) && Minimal(sb) && r == FromBE(rb) && s == FromBE(sb);
    LayoutUnique(sig, rb, sb);
    hide FromBE, Minimal, ToBE, Parse;
    MinimalIffWritten(rb);
    MinimalIffWritten(sb);
  }

  /** Strictness in both directions: the parser accepts exactly what the writer produces. */
  lemma ParseIffEncoded(sig: Bytes, r: nat, s: nat)
    ensures Parse(sig) == Returned(Some((r, s))) <==>
            IntLength(r) <= 33 && IntLength(s) <= 33 && sig == Encode(r, s)
  {
    if IntLength(r) <= 33 && IntLength(s) <= 33 && sig == Encode(r, s) {
      ParseEncoded(r, s);
    }
    if Parse(sig) == Returned(Some((r, s))) {
      ParsedEncoded(sig, r, s);
    }
  }
}
