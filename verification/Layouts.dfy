/** Byte layouts spelled out on small values: what reader and writer of a format share is pinned here. */
module Layouts {
  import opened NumberTheory
  import opened Bytes
  import opened Messages
  import Curve
  import Der
  import Field
  import P2P
  import PointCodec
  import Psbt
  import Script
  import ScriptNum
  import Wallet

  // ----- numbers -----

  /** Byte i of a little-endian number has the weight 256^i, of a big-endian one of k bytes 256^(k-1-i). */
  lemma {:induction false} BytePlaces(n: nat, k: nat, i: nat)
    requires n < Pow(256, k) && i < k
    ensures Pow(256, i) > 0
    ensures ToLE(n, k)[i] == (n / Pow(256, i)) % 256 && ToBE(n, k)[k - 1 - i] == (n / Pow(256, i)) % 256
  {
    PowMonotone(256, i, i);
    DigitSteps(n, k);
    if i == 0 {
      assert Pow(256, 0) == 1;
    } else {
      PowMonotone(256, i - 1, i - 1);
      assert Pow(256, i) == 256 * Pow(256, i - 1);
      hide Pow, ToLE, ToBE;
      BytePlaces(n / 256, k - 1, i - 1);
      DivideTwice(n, Pow(256, i - 1));
    }
  }

  lemma DigitSteps(n: nat, k: nat)
    requires n < Pow(256, k) && k > 0
    ensures n / 256 < Pow(256, k - 1)
    ensures ToLE(n, k) == [n % 256] + ToLE(n / 256, k - 1) && ToBE(n, k) == ToBE(n / 256, k - 1) + [n % 256]
  {
  }

  lemma DivideTwice(n: nat, w: nat)
    requires w > 0
    ensures (n / 256) / w == n / (256 * w)
  {
    var q, r := n / 256, n % 256;
    var a, b := q / w, q % w;
    assert n == 256 * (w * a + b) + r && w * a + b == q;
    assert 256 * (w * a + b) == (256 * w) * a + 256 * b;
    QuotientUnique(n, 256 * w, a, 256 * b + r);
  }

  lemma OneLE(b: Bytes)
    requires b != []
    ensures FromLE(b) == b[0] + 256 * FromLE(b[1..])
  {
  }

  /** Four and eight bytes, least significant first. */
  lemma FourLE(a: byte, b: byte, c: byte, d: byte)
    ensures var n := a + 256 * (b + 256 * (c + 256 * d)); n < U32 && PackU32(n) == [a, b, c, d]
  {
    var s: Bytes := [a, b, c, d];
    OneLE(s);
    OneLE(s[1..]);
    OneLE(s[2..]);
    OneLE(s[3..]);
    assert s[1..][1..] == s[2..] && s[2..][1..] == s[3..] && s[3..][1..] == [] && FromLE([]) == 0;
    LEBytesRoundTrip(s);
    Places();
    hide FromLE, ToLE, Pow;
  }

  lemma EightLE(lo: u32, hi: u32)
    ensures lo + U32 * hi < U64 && PackU64(lo + U32 * hi) == PackU32(lo) + PackU32(hi)
  {
    var a, b := PackU32(lo), PackU32(hi);
    Places();
    LERoundTrip(lo, 4);
    LERoundTrip(hi, 4);
    LEConcat(a, b);
    LEBytesRoundTrip(a + b);
    hide FromLE, ToLE, Pow;
  }

  lemma {:induction false} LEConcat(a: Bytes, b: Bytes)
    ensures FromLE(a + b) == FromLE(a) + Pow(256, |a|) * FromLE(b)
  {
    if a == [] {
      assert a + b == b;
    } else {
      LEConcat(a[1..], b);
      assert (a + b)[1..] == a[1..] + b;
      assert 256 * (Pow(256, |a| - 1) * FromLE(b)) == Pow(256, |a|) * FromLE(b);
    }
  }

  /** Two's complement for negative numbers. */
  lemma NegativePacked()
    ensures PackI32(-2) == [0xfe, 0xff, 0xff, 0xff]
    ensures PackI64(-2) == [0xfe, 0xff, 0xff, 0xff, 0xff, 0xff, 0xff, 0xff]
  {
    FourLE(0xfe, 0xff, 0xff, 0xff);
    FourLE(0xff, 0xff, 0xff, 0xff);
    EightLE(0xfffffffe, 0xffffffff);
    hide PackU32, PackU64;
  }

  /** The smallest number of each class of compact size. */
  lemma CompactSizes()
    ensures SerCompactSize(0) == [0] && SerCompactSize(252) == [252]
    ensures SerCompactSize(253) == [253, 253, 0]
    ensures SerCompactSize(0x1_0000) == [254, 0, 0, 1, 0]
    ensures SerCompactSize(U32) == [255, 0, 0, 0, 0, 1, 0, 0, 0]
  {
    hide *;
    SmallSizes();
    LongSizes();
  }

  lemma SmallSizes()
    ensures SerCompactSize(0) == [0] && SerCompactSize(252) == [252]
    ensures SerCompactSize(253) == [253, 253, 0]
  {
    hide SerCompactSize;
    SerShape(0);
    SerShape(252);
    SerShape(253);
    Places();
    assert ToLE(253, 2) == [253] + ToLE(0, 1) && ToLE(0, 1) == [0] + ToLE(0, 0);
  }

  lemma LongSizes()
    ensures SerCompactSize(0x1_0000) == [254, 0, 0, 1, 0]
    ensures SerCompactSize(U32) == [255, 0, 0, 0, 0, 1, 0, 0, 0]
  {
    hide ToLE, Pow, SerCompactSize;
    SerShape(0x1_0000);
    SerShape(U32);
    FourLE(0, 0, 1, 0);
    FourLE(0, 0, 0, 0);
    FourLE(1, 0, 0, 0);
    EightLE(0, 1);
    Places();
    assert ToLE(0x1_0000, 4) == PackU32(0x1_0000) && ToLE(U32, 8) == PackU64(U32);
  }

  // ----- transactions -----

  /** One input, one output and one witness item, with a different value in every field. */
  const SAMPLE: Tx :=
    Tx(2, [TxIn(OutPoint(1, 3), [0x51], 0xfffffffd)], [TxOut(5_000_000_000, [0x6a])], [[[7]]], 0x01020304)

  lemma {:induction false} ZeroLE(k: nat)
    ensures Pow(256, k) > 0 && ToLE(0, k) == seq(k, _ => 0)
  {
    if k > 0 {
      ZeroLE(k - 1);
      assert [0 as byte] + seq(k - 1, _ => 0) == seq(k, _ => 0);
    } else {
      assert ToLE(0, 0) == [];
    }
  }

  lemma OneU256()
    ensures PackU256(1) == [1] + seq(31, _ => 0)
  {
    Two256();
    ZeroLE(31);
    assert ToLE(1, 32) == [1 % 256] + ToLE(1 / 256, 31);
    hide ToLE, Pow;
  }

  lemma OneElement<T>(x: T, ser: T -> Bytes)
    ensures SerVector([x], ser) == [1] + ser(x)
  {
    SerShape(1);
    hide SerCompactSize;
    assert [x][1..] == [] && SerEach([], ser) == [] && ser(x) + [] == ser(x);
    assert SerEach([x], ser) == ser(x);
  }

  lemma ShortStrings()
    ensures SerString([0x51]) == [1, 0x51] && SerString([0x6a]) == [1, 0x6a] && SerString([7]) == [1, 7]
  {
    SerShape(1);
    hide SerCompactSize;
  }

  lemma SampleParts()
    ensures PackI32(2) == [2, 0, 0, 0] && PackU32(3) == [3, 0, 0, 0]
    ensures PackU32(0xfffffffd) == [0xfd, 0xff, 0xff, 0xff] && PackU32(0x01020304) == [4, 3, 2, 1]
    ensures PackI64(5_000_000_000) == [0x00, 0xf2, 0x05, 0x2a, 0x01, 0, 0, 0]
  {
    FourLE(2, 0, 0, 0);
    FourLE(3, 0, 0, 0);
    FourLE(0xfd, 0xff, 0xff, 0xff);
    FourLE(4, 3, 2, 1);
    FourLE(0x00, 0xf2, 0x05, 0x2a);
    FourLE(1, 0, 0, 0);
    EightLE(0x2a05f200, 1);
    hide PackU32, PackU64;
  }

  /** What the transaction without its witness is made of, in order. */
  function SampleBody(): Bytes {
    [1] + [1] + seq(31, _ => 0) + [3, 0, 0, 0] + [1, 0x51] + [0xfd, 0xff, 0xff, 0xff]
    + [1] + [0x00, 0xf2, 0x05, 0x2a, 0x01, 0, 0, 0] + [1, 0x6a]
  }

  lemma SampleVectors()
    ensures SerVector(SAMPLE.vin, SerTxIn) + SerVector(SAMPLE.vout, SerTxOut) == SampleBody()
  {
    hide PackU256, PackU32, PackI64, SerString, SerVector;
    OneU256();
    ShortStrings();
    SampleParts();
    OneElement(SAMPLE.vin[0], SerTxIn);
    OneElement(SAMPLE.vout[0], SerTxOut);
  }

  /** BIP 144, "Serialization": the bytes of that transaction without and with its witness. */
  lemma SampleLayout()
    ensures WithoutWitness(SAMPLE) == [2, 0, 0, 0] + SampleBody() + [4, 3, 2, 1]
    ensures WithWitness(SAMPLE) == [2, 0, 0, 0] + [0, 1] + SampleBody() + [1, 1, 7] + [4, 3, 2, 1]
  {
    hide *;
    SampleVectors();
    SampleParts();
    SampleWitness();
    SampleFields();
    TxParts(SAMPLE);
    Between(PackI32(2), SerVector(SAMPLE.vin, SerTxIn), SerVector(SAMPLE.vout, SerTxOut), PackU32(0x01020304), []);
    Between(PackI32(2) + [0, 1], SerVector(SAMPLE.vin, SerTxIn), SerVector(SAMPLE.vout, SerTxOut),
            [4, 3, 2, 1], [1, 1, 7]);
  }

  lemma SampleFields()
    ensures SAMPLE.nVersion == 2 && SAMPLE.nLockTime == 0x01020304 && !Null(SAMPLE.wit)
  {
    assert SAMPLE.wit[0] != [];
  }

  /** The two serializations by their fields. */
  lemma TxParts(tx: Tx)
    ensures WithoutWitness(tx)
         == PackI32(tx.nVersion) + SerVector(tx.vin, SerTxIn) + SerVector(tx.vout, SerTxOut) + PackU32(tx.nLockTime)
    ensures var w := SerEach(Resized(tx.wit, |tx.vin|), SerStack);
            Null(tx.wit) || WithWitness(tx)
            == PackI32(tx.nVersion) + [0, 1] + SerVector(tx.vin, SerTxIn) + SerVector(tx.vout, SerTxOut) + w
               + PackU32(tx.nLockTime)
  {
    hide PackI32, PackU32, SerVector, SerEach, Resized, Null;
  }

  lemma Between(head: Bytes, a: Bytes, b: Bytes, tail: Bytes, w: Bytes)
    ensures head + a + b + tail == head + (a + b) + tail
    ensures head + a + b + w + tail == head + (a + b) + w + tail
  {
  }

  lemma SampleWitness()
    ensures SerEach(Resized(SAMPLE.wit, |SAMPLE.vin|), SerStack) == [1, 1, 7]
  {
    ShortStrings();
    var item: Str := [7];
    var stack: Stack := [item];
    OneElement(item, SerString);
    assert Resized(SAMPLE.wit, 1) == [stack];
    hide SerVector, SerString, Resized;
    var none: seq<Stack> := [];
    assert [stack][1..] == none && SerEach(none, SerStack) == [] && SerStack(stack) == [1, 1, 7];
    assert SerEach([stack], SerStack) == SerStack(stack) + SerEach(none, SerStack);
  }

  // ----- maps and messages -----

  /** BIP 174, "Specification": an entry is key and value, each after its length; a zero ends the map. */
  lemma EntryLayout(k: byte, v: Str)
    requires |v| < 253
    ensures Psbt.SerMap([Psbt.Entry(Psbt.KInt(k), v)]) == Some([1, k, |v|] + v + [0])
  {
    var m := [Psbt.Entry(Psbt.KInt(k), v)];
    SerShape(1);
    SerShape(|v|);
    hide SerCompactSize;
    assert m[1..] == [] && Psbt.SerEntries([]) == Some([]);
    assert SerString([k]) == [1, k] && SerString(v) == [|v|] + v;
    assert [1, k] + ([|v|] + v) + [] == [1, k, |v|] + v;
  }

  /** The magic bytes, the global map, then inputs before outputs. */
  lemma PsbtLayout(p: Psbt.Value)
    requires |p.i| == 1 && |p.o| == 1 && Psbt.SerPsbt(p).Some?
    ensures Psbt.Has(p.g, Psbt.KInt(0))
    ensures Psbt.SerMap(p.g).Some? && Psbt.SerMap(p.i[0]).Some? && Psbt.SerMap(p.o[0]).Some?
    ensures Psbt.SerPsbt(p).value == [0x70, 0x73, 0x62, 0x74, 0xff]
              + (Psbt.SerMap(p.g).value + (Psbt.SerMap(p.i[0]).value + Psbt.SerMap(p.o[0]).value))
  {
    hide *;
    PsbtParts(p);
    var l := [p.g] + p.i + p.o;
    assert l == [p.g, p.i[0], p.o[0]];
    MapsStep(l);
    MapsStep(l[1..]);
    MapsStep(l[1..][1..]);
    MapsStep(l[1..][1..][1..]);
    assert l[1..][0] == p.i[0] && l[1..][1..][0] == p.o[0] && l[1..][1..][1..] == [];
    assert Psbt.SerMap(p.o[0]).value + [] == Psbt.SerMap(p.o[0]).value;
  }

  lemma PsbtParts(p: Psbt.Value)
    requires Psbt.SerPsbt(p).Some?
    ensures Psbt.Has(p.g, Psbt.KInt(0)) && Psbt.SerMaps([p.g] + p.i + p.o).Some?
    ensures Psbt.SerPsbt(p).value == [0x70, 0x73, 0x62, 0x74, 0xff] + Psbt.SerMaps([p.g] + p.i + p.o).value
  {
    hide Psbt.SerMaps, Psbt.Has;
  }

  lemma MapsStep(l: seq<Psbt.Map>)
    ensures l == [] ==> Psbt.SerMaps(l) == Some([])
    ensures l != [] && Psbt.SerMaps(l).Some? ==>
              && Psbt.SerMap(l[0]).Some? && Psbt.SerMaps(l[1..]).Some?
              && Psbt.SerMaps(l).value == Psbt.SerMap(l[0]).value + Psbt.SerMaps(l[1..]).value
  {
    hide Psbt.SerMap;
  }

  /** A verack on a regression test network, with the first four bytes of the double SHA-256 of nothing. */
  lemma VerackFrame(cfg: P2P.Config)
    requires cfg.magic == [0xfa, 0xbf, 0xb5, 0xda] && cfg.hash([]) == [0x5d, 0xf6, 0xe0, 0xe2]
    ensures P2P.Build(cfg, P2P.Msg([0x76, 0x65, 0x72, 0x61, 0x63, 0x6b], []))
         == [0xfa, 0xbf, 0xb5, 0xda, 0x76, 0x65, 0x72, 0x61, 0x63, 0x6b, 0, 0, 0, 0, 0, 0,
             0, 0, 0, 0, 0x5d, 0xf6, 0xe0, 0xe2]
  {
    FourLE(0, 0, 0, 0);
    hide PackU32;
  }

  // ----- scripts -----

  /** The four forms of a data push. */
  lemma PushLayout(d: Bytes)
    requires |d| <= 0xffffffff
    ensures Script.Push(d).Some? && Script.WellFormed(Script.Push(d).value)
    ensures var b, n := Script.Raw(Script.Push(d).value), |d|;
            && (n < 0x4c ==> b == [n] + d)
            && (0x4c <= n <= 0xff ==> b == [0x4c, n] + d)
            && (0xff < n <= 0xffff ==> b == [0x4d, n % 256, n / 256] + d)
            && (0xffff < n ==> b == [0x4e] + PackU32(n) + d)
  {
    Script.Widths();
    Places();
    var n := |d|;
    if 0x4c <= n <= 0xff { assert ToLE(n, 1) == [n % 256] + ToLE(n / 256, 0); }
    if 0xff < n <= 0xffff {
      assert ToLE(n, 2) == [n % 256] + ToLE(n / 256, 1);
      assert ToLE(n / 256, 1) == [n / 256 % 256] + ToLE(n / 256 / 256, 0);
    }
  }

  /** Script numbers: magnitude first, the sign in the top bit of the last byte, an extra byte where it is taken. */
  lemma ScriptNumbers()
    ensures ScriptNum.Encoded(0) == Some([])
    ensures ScriptNum.Encoded(1) == Some([1, 0x01]) && ScriptNum.Encoded(-1) == Some([1, 0x81])
    ensures ScriptNum.Encoded(127) == Some([1, 0x7f]) && ScriptNum.Encoded(128) == Some([2, 0x80, 0x00])
    ensures ScriptNum.Encoded(-255) == Some([2, 0xff, 0x80]) && ScriptNum.Encoded(256) == Some([2, 0x00, 0x01])
  {
    OneDigit(1);
    OneDigit(127);
    OneDigit(128);
    OneDigit(255);
    assert ScriptNum.Digits(256) == [256 % 256] + ScriptNum.Digits(256 / 256) == [0, 1];
    hide ScriptNum.Digits, ScriptNum.Encoded;
    EncodedAs(1, [1], [1, 0x01]);
    EncodedAs(-1, [1], [1, 0x81]);
    EncodedAs(127, [127], [1, 0x7f]);
    EncodedAs(128, [128], [2, 0x80, 0x00]);
    EncodedAs(-255, [255], [2, 0xff, 0x80]);
    EncodedAs(256, [0, 1], [2, 0x00, 0x01]);
    ZeroEncoded();
  }

  lemma EncodedAs(v: int, m: Bytes, e: Bytes)
    requires v != 0 && 0 < |m| < 255 && ScriptNum.Digits(if v < 0 then -v else v) == m
    requires var b := ScriptNum.Signed(m, v < 0); e == [|b|] + b
    ensures ScriptNum.Encoded(v) == Some(e)
  {
    hide ScriptNum.Digits;
  }

  lemma ZeroEncoded()
    ensures ScriptNum.Encoded(0) == Some([])
  {
  }

  lemma OneDigit(n: byte)
    requires n > 0
    ensures ScriptNum.Digits(n) == [n]
  {
    assert ScriptNum.Digits(0) == [];
    assert ScriptNum.Digits(n) == [n % 256] + ScriptNum.Digits(n / 256);
  }

  /** The padding of MiniWallet is an OP_RETURN and one push of its bytes: unspendable and of no other effect. */
  lemma PaddingReads(d: int)
    requires d <= 0xffffffff
    ensures Wallet.PadScript(d).Some? && Script.Push(Wallet.Padding(d)).Some?
    ensures Script.Items(Wallet.PadScript(d).value, 0)
         == ([Script.Item(Script.Instr(0x6a, None), 0), Script.Item(Script.Push(Wallet.Padding(d)).value, 1)], true)
    ensures forall i :: 0 <= i < |Wallet.Padding(d)| ==> Wallet.Padding(d)[i] == 0x61
  {
    assert forall i :: 0 <= i < |Wallet.Padding(d)| ==> Wallet.Padding(d)[i] == 0x61;
    var data := Wallet.Padding(d);
    Script.PushWellFormed(data);
    var x, y := Script.Instr(0x6a, None), Script.Push(data).value;
    hide Wallet.Padding, Script.Items, Script.Push, Script.Raw;
    Script.IterateBuilt([x, y], 0);
    assert [x, y][1..] == [y] && [y][1..] == [] && |Script.Raw(x)| == 1 by { SingleByte(); }
    assert Script.Laid([y], 1) == [Script.Item(y, 1)] + Script.Laid([], 1 + |Script.Raw(y)|);
    assert Script.Laid([x, y], 0) == [Script.Item(x, 0)] + Script.Laid([y], 1);
    assert Script.Flatten([y]) == Script.Raw(y) + Script.Flatten([]);
    assert Script.Flatten([x, y]) == Script.Raw(x) + Script.Flatten([y]);
    SingleByte();
    assert Script.Raw(y) + [] == Script.Raw(y) && Script.Flatten([]) == [];
    assert Wallet.PadScript(d) == Some([0x6a] + Script.Raw(y));
    assert Script.Laid([], 1 + |Script.Raw(y)|) == [];
    assert [Script.Item(x, 0)] + ([Script.Item(y, 1)] + []) == [Script.Item(x, 0), Script.Item(y, 1)];
    assert Script.Flatten([x, y]) == [0x6a] + Script.Raw(y);
  }

  lemma SingleByte()
    ensures Script.WellFormed(Script.Instr(0x6a, None)) && Script.Raw(Script.Instr(0x6a, None)) == [0x6a]
  {
  }

  // ----- signatures and keys -----

  lemma OneByteInt(n: byte)
    requires n > 0
    ensures n < 0x80 ==> Der.IntBytes(n) == [n]
    ensures n >= 0x80 ==> Der.IntBytes(n) == [0, n]
  {
    Der.MinimalIffWritten([n]);
    Der.MinimalIffWritten([0, n]);
    assert FromBE([n]) == n && FromBE([0, n]) == n by {
      assert [n][..0] == [] && [0, n][..1] == [0 as byte] && [0 as byte][..0] == [];
      assert FromBE([]) == 0 && FromBE([0]) == 0;
    }
  }

  /** The smallest signature, and one whose second number needs a leading zero. */
  lemma SmallSignatures()
    ensures Der.IntLength(1) <= 33 && Der.IntLength(0x80) <= 33
    ensures Der.Encode(1, 1) == [0x30, 6, 2, 1, 1, 2, 1, 1]
    ensures Der.Encode(1, 0x80) == [0x30, 7, 2, 1, 1, 2, 2, 0, 0x80]
  {
    OneByteInt(1);
    OneByteInt(0x80);
    hide Der.IntBytes;
  }

  /** SEC 1, "Elliptic-Curve-Point-to-Octet-String Conversion": the keys of the secrets 1 and -1. */
  lemma KnownKeys()
    ensures PointCodec.G.Affine? && 0 <= PointCodec.G.x < Field.SIZE && 0 <= PointCodec.G.y < Field.SIZE
    ensures PointCodec.ToBytesCompressed(PointCodec.G) == [0x02] + PointCodec.GX_BYTES
    ensures PointCodec.ToBytesUncompressed(PointCodec.G) == [0x04] + PointCodec.GX_BYTES + PointCodec.GY_BYTES
    ensures Curve.NegPoint(PointCodec.G).Affine?
    ensures PointCodec.ToBytesCompressed(Curve.NegPoint(PointCodec.G)) == [0x03] + PointCodec.GX_BYTES
  {
    PointCodec.GeneratorOnCurve();
    PointCodec.OrdinateIs();
    assert PointCodec.G == Curve.Affine(PointCodec.GX, PointCodec.GY) && PointCodec.GY % 2 == 0 && PointCodec.GY > 0;
    BEBytesRoundTrip(PointCodec.GX_BYTES);
    BEBytesRoundTrip(PointCodec.GY_BYTES);
    Curve.NegParity(PointCodec.GY);
    hide Field.SIZE, Curve.OnCurve, PointCodec.GX, PointCodec.GY, FromBE, ToBE, Pow;
  }
}
