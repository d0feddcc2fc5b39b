/** Base58Check: byte_to_base58 and base58_to_byte of address.py.  The double hash is a parameter. */
module Base58 {
  import opened NumberTheory
  import opened Bytes
  import opened Text

  const DIGITS: string := "123456789"
  const UPPER1: string := "ABCDEFGH"
  const UPPER2: string := "JKLMN"
  const UPPER3: string := "PQRSTUVWXYZ"
  const LOWER1: string := "abcdefghijk"
  const LOWER2: string := "mnopqrstuvwxyz"
  const B58CHARS: string := DIGITS + UPPER1 + UPPER2 + UPPER3 + LOWER1 + LOWER2

  type Hash256 = Bytes -> Bytes32

  // ----- the alphabet -----

  /** Strictly increasing characters between two bounds. */
  predicate Increasing(s: string, lo: char, hi: char) {
    && (forall i :: 0 <= i < |s| ==> lo <= s[i] <= hi)
    && forall i, j :: 0 <= i < j < |s| ==> s[i] < s[j]
  }

  lemma SegmentsLow()
    ensures Increasing(DIGITS, '1', '9') && Increasing(UPPER1, 'A', 'H') && Increasing(UPPER2, 'J', 'N')
  {
  }

  lemma SegmentsMiddle()
    ensures Increasing(UPPER3, 'P', 'Z')
  {
  }

  lemma SegmentsNext()
    ensures Increasing(LOWER1, 'a', 'k')
  {
  }

  lemma SegmentsHigh()
    ensures Increasing(LOWER2, 'm', 'z')
  {
  }

  lemma Join(s: string, a: char, b: char, t: string, c: char, d: char)
    requires Increasing(s, a, b) && Increasing(t, c, d) && a <= b < c <= d
    ensures Increasing(s + t, a, d)
  {
  }

  lemma AlphabetIncreasing()
    ensures Increasing(B58CHARS, '1', 'z')
  {
    var s2 := DIGITS + UPPER1;
    var s3 := s2 + UPPER2;
    var s4 := s3 + UPPER3;
    var s5 := s4 + LOWER1;
    assert B58CHARS == s5 + LOWER2;
    hide DIGITS, UPPER1, UPPER2, UPPER3, LOWER1, LOWER2, Increasing;
    SegmentsLow();
    SegmentsMiddle();
    SegmentsNext();
    SegmentsHigh();
    Join(DIGITS, '1', '9', UPPER1, 'A', 'H');
    Join(s2, '1', 'H', UPPER2, 'J', 'N');
    Join(s3, '1', 'N', UPPER3, 'P', 'Z');
    Join(s4, '1', 'Z', LOWER1, 'a', 'k');
    Join(s5, '1', 'k', LOWER2, 'm', 'z');
  }

  lemma Alphabet()
    ensures |B58CHARS| == 58 && Distinct(B58CHARS) && B58CHARS[0] == '1'
  {
    assert |B58CHARS| == 58 && B58CHARS[0] == '1';
    hide B58CHARS;
    AlphabetIncreasing();
  }

  lemma IndexOf(d: nat)
    requires d < 58
    ensures |B58CHARS| == 58 && Find(B58CHARS, B58CHARS[d]) == d && (B58CHARS[d] == '1' <==> d == 0)
  {
    Alphabet();
    hide B58CHARS;
    FindAt(B58CHARS, d);
    FindAt(B58CHARS, 0);
  }

  // ----- numbers in base 58 -----

  function Numeral(n: nat): string {
    if n == 0 then "" else Alphabet(); Numeral(n / 58) + [B58CHARS[n % 58]]
  }

  predicate InAlphabet(s: string) {
    forall c :: c in s ==> c in B58CHARS
  }

  function Number(s: string): nat
    requires InAlphabet(s)
  {
    if s == "" then 0
    else
      assert s[|s| - 1] in s;
      Number(s[..|s| - 1]) * 58 + Find(B58CHARS, s[|s| - 1])
  }

  lemma {:induction false} NumeralNumber(n: nat)
    ensures InAlphabet(Numeral(n)) && Number(Numeral(n)) == n
    ensures n > 0 ==> Numeral(n) != "" && Numeral(n)[0] != '1'
  {
    if n > 0 {
      Alphabet();
      IndexOf(n % 58);
      hide B58CHARS;
      NumeralNumber(n / 58);
      assert Numeral(n)[..|Numeral(n)| - 1] == Numeral(n / 58);
    }
  }

  /** A string of digits that does not start with the zero digit is the numeral of its number. */
  lemma {:induction false} NumberNumeral(s: string)
    requires InAlphabet(s) && (s == "" || s[0] != '1')
    ensures Numeral(Number(s)) == s && (s != "" ==> Number(s) > 0)
  {
    if s != "" {
      var t, c := s[..|s| - 1], s[|s| - 1];
      assert c in s;
      Alphabet();
      hide B58CHARS;
      NumberNumeral(t);
      assert s == t + [c];
      var d := Find(B58CHARS, c);
      assert Number(s) / 58 == Number(t) && Number(s) % 58 == d;
      if t == "" { assert d != 0; }
    }
  }

  function Ones(z: nat): (s: string)
    ensures |s| == z && forall i :: 0 <= i < z ==> s[i] == '1'
  {
    seq(z, _ => '1')
  }

  lemma {:induction false} OnesNumber(z: nat)
    ensures InAlphabet(Ones(z)) && Number(Ones(z)) == 0
  {
    IndexOf(0);
    Alphabet();
    hide B58CHARS;
    if z > 0 {
      OnesNumber(z - 1);
      assert Ones(z)[..z - 1] == Ones(z - 1);
    }
  }

  lemma {:induction false} NumberOnes(z: nat, s: string)
    requires InAlphabet(s)
    ensures InAlphabet(Ones(z) + s) && Number(Ones(z) + s) == Number(s)
  {
    OnesNumber(z);
    hide B58CHARS, Ones;
    var u := Ones(z) + s;
    assert InAlphabet(u);
    if s == "" {
      assert u == Ones(z);
    } else {
      var t := s[..|s| - 1];
      assert InAlphabet(t) by { assert forall c :: c in t ==> c in s; }
      NumberOnes(z, t);
      assert u[..|u| - 1] == Ones(z) + t && u[|u| - 1] == s[|s| - 1];
    }
  }

  // ----- leading zeros -----

  function LeadingZeros(b: Bytes): (z: nat)
    ensures z <= |b| && (forall i :: 0 <= i < z ==> b[i] == 0) && (z < |b| ==> b[z] != 0)
  {
    if b == [] || b[0] != 0 then 0 else 1 + LeadingZeros(b[1..])
  }

  function LeadingOnes(s: string): (z: nat)
    ensures z <= |s| && (forall i :: 0 <= i < z ==> s[i] == '1') && (z < |s| ==> s[z] != '1')
  {
    if s == "" || s[0] != '1' then 0 else 1 + LeadingOnes(s[1..])
  }

  function Zeros(z: nat): (b: Bytes)
    ensures |b| == z && forall i :: 0 <= i < z ==> b[i] == 0
  {
    seq(z, _ => 0)
  }

  /** (n.bit_length() + 7) // 8. */
  function ByteLength(n: nat): nat { (BitLength(n) + 7) / 8 }

  function MinimalBytes(n: nat): (b: Bytes)
    ensures |b| == ByteLength(n)
  {
    ByteFits(n);
    ToBE(n, ByteLength(n))
  }

  lemma ByteFits(n: nat)
    ensures n < Pow(256, ByteLength(n))
  {
    BitLengthBounds(n);
    Pow256(ByteLength(n));
    hide Pow, BitLength;
    PowMonotone(2, BitLength(n), 8 * ByteLength(n));
  }

  lemma {:induction false} FirstByte(b: Bytes)
    requires b != [] && b[0] != 0
    ensures FromBE(b) >= Pow(256, |b| - 1)
  {
    if |b| > 1 {
      FirstByte(b[..|b| - 1]);
    } else {
      assert FromBE(b) == FromBE(b[..0]) * 256 + b[0];
      assert Pow(256, 0) == 1;
    }
  }

  /** Bytes that do not start with 0 are the minimal bytes of their number. */
  lemma MinimalIs(b: Bytes)
    requires b == [] || b[0] != 0
    ensures MinimalBytes(FromBE(b)) == b && (b != [] ==> FromBE(b) > 0)
  {
    var n, k := FromBE(b), |b|;
    BEBytesRoundTrip(b);
    if k == 0 {
      assert n == 0 && BitLength(0) == 0;
    } else {
      FirstByte(b);
      ByteLengthIs(n, k);
    }
  }

  lemma ByteLengthIs(n: nat, k: nat)
    requires k > 0 && Pow(256, k - 1) <= n < Pow(256, k)
    ensures n > 0 && ByteLength(n) == k
  {
    hide FromBE, ToBE, BitLength, Pow;
    BitLengthBounds(n);
    Pow256(k);
    Pow256(k - 1);
    PowMonotone(256, k - 1, k - 1);
    var e := BitLength(n);
    if e > 8 * k { PowMonotone(2, 8 * k, e - 1); }
    if e <= 8 * (k - 1) { PowMonotone(2, e, 8 * (k - 1)); }
  }

  lemma MinimalNumber(n: nat)
    ensures FromBE(MinimalBytes(n)) == n
    ensures n > 0 ==> MinimalBytes(n) != [] && MinimalBytes(n)[0] != 0
  {
    var b := MinimalBytes(n);
    ByteFits(n);
    BERoundTrip(n, ByteLength(n));
    hide FromBE, ToBE, ByteLength;
    var z := LeadingZeros(b);
    var c := b[z..];
    assert b == Zeros(z) + c;
    ZerosValue(z, c);
    MinimalIs(c);
  }

  lemma {:induction false} ZerosValue(z: nat, b: Bytes)
    ensures FromBE(Zeros(z) + b) == FromBE(b)
  {
    BEConcat(Zeros(z), b);
    ZeroBytes(z);
  }

  lemma {:induction false} ZeroBytes(z: nat)
    ensures FromBE(Zeros(z)) == 0
  {
    if z > 0 {
      ZeroBytes(z - 1);
      assert Zeros(z)[..z - 1] == Zeros(z - 1);
    }
  }

  // ----- encoding -----

  /** Base 58 of a byte string; only zero bytes make the program index past the end. */
  function EncodeBytes(b: Bytes): Option<string> {
    var z := LeadingZeros(b);
    if z == |b| then None else Some(Ones(z) + Numeral(FromBE(b)))
  }

  function Payload(H: Hash256, b: Bytes, version: byte): Bytes {
    var p := [version] + b;
    p + H(p)[..4]
  }

  method ByteToBase58(H: Hash256, b: Bytes, version: byte) returns (r: Option<string>)
    ensures r == EncodeBytes(Payload(H, b, version))
  {
    Alphabet();
    NumeralEnds();
    hide *;
    PayloadIs(H, b, version);
    var result := "";
    var p := [version] + b;
    p := p + H(p)[..4];
    ghost var full := p;
    var value := FromBE(p);
    while value > 0
      invariant Numeral(value) + result == Numeral(FromBE(full))
    {
      NumeralStep(value, result);
      result := [B58CHARS[value % 58]] + result;
      value := value / 58;
    }
    assert "" + result == result && Ones(0) + result == result;
    ghost var digits := result;
    ghost var z := 0;
    while p != [] && p[0] == 0
      invariant z <= |full| && p == full[z..] && (forall i :: 0 <= i < z ==> full[i] == 0)
      invariant result == Ones(z) + digits
      decreases |p|
    {
      OnesStep(z, digits);
      result := [B58CHARS[0]] + result;
      p := p[1..];
      z := z + 1;
    }
    LeadingIs(full, z);
    EncodeIs(full);
    return if p == [] then None else Some(result);
  }

  lemma NumeralEnds()
    ensures Numeral(0) == ""
  {
  }

  lemma OnesStep(z: nat, s: string)
    ensures "1" + (Ones(z) + s) == Ones(z + 1) + s
  {
  }

  lemma EncodeIs(b: Bytes)
    ensures EncodeBytes(b) == if LeadingZeros(b) == |b| then None else Some(Ones(LeadingZeros(b)) + Numeral(FromBE(b)))
  {
  }

  lemma PayloadIs(H: Hash256, b: Bytes, version: byte)
    ensures Payload(H, b, version) == [version] + b + H([version] + b)[..4]
  {
  }

  lemma NumeralStep(n: nat, s: string)
    requires n > 0 && |B58CHARS| == 58
    ensures Numeral(n) + s == Numeral(n / 58) + ([B58CHARS[n % 58]] + s)
  {
    hide B58CHARS;
  }

  lemma {:induction false} LeadingIs(b: Bytes, z: nat)
    requires z <= |b| && (forall i :: 0 <= i < z ==> b[i] == 0) && (z < |b| ==> b[z] != 0)
    ensures LeadingZeros(b) == z
  {
  }

  // ----- decoding -----

  datatype Decoded = Empty | Raised | Address(payload: Bytes, version: byte)

  function DecodeBytes(s: string): Bytes
    requires InAlphabet(s)
  {
    Zeros(LeadingOnes(s)) + MinimalBytes(Number(s))
  }

  /** The checksum test and the final slices, on the decoded bytes. */
  function Checked(H: Hash256, res: Bytes): Decoded {
    if |res| < 4 || H(res[..|res| - 4])[..4] != res[|res| - 4..] then Raised
    else Address(if |res| == 4 then [] else res[1..|res| - 4], res[0])
  }

  method Base58ToByte(H: Hash256, s: string) returns (r: Decoded)
    ensures s == "" ==> r == Empty
    ensures s != "" && !InAlphabet(s) ==> r == Raised
    ensures s != "" && InAlphabet(s) ==> r == Checked(H, DecodeBytes(s))
  {
    if s == "" { return Empty; }
    hide B58CHARS;
    var n: nat := 0;
    for k := 0 to |s|
      invariant InAlphabet(s[..k]) && n == Number(s[..k])
    {
      assert s[..k + 1][..k] == s[..k];
      if s[k] !in B58CHARS {
        assert s[k] in s;
        return Raised;
      }
      n := n * 58;
      n := n + Find(B58CHARS, s[k]);
    }
    assert s[..|s|] == s;
    var res := MinimalBytes(n);
    var pad := 0;
    for k := 0 to |s|
      invariant pad == k && forall i :: 0 <= i < k ==> s[i] == '1'
    {
      if s[k] == '1' {
        pad := pad + 1;
      } else {
        break;
      }
    }
    OnesAre(s, pad);
    res := Zeros(pad) + res;
    return Checked(H, res);
  }

  lemma {:induction false} OnesAre(s: string, z: nat)
    requires z <= |s| && (forall i :: 0 <= i < z ==> s[i] == '1') && (z < |s| ==> s[z] != '1')
    ensures LeadingOnes(s) == z
  {
  }

  // ----- round trips -----

  /** Encoding and decoding of byte strings that are not all zero are inverse to each other. */
  lemma BytesRoundTrip(b: Bytes)
    requires EncodeBytes(b).Some?
    ensures var s := EncodeBytes(b).value;
            s != "" && InAlphabet(s) && DecodeBytes(s) == b
  {
    var z := LeadingZeros(b);
    var c := b[z..];
    assert b == Zeros(z) + c;
    ZerosValue(z, c);
    MinimalIs(c);
    NumeralNumber(FromBE(b));
    NumberOnes(z, Numeral(FromBE(b)));
    hide B58CHARS;
    OnesAre(Ones(z) + Numeral(FromBE(b)), z);
  }

  lemma StringRoundTrip(s: string)
    requires InAlphabet(s)
    ensures var b := DecodeBytes(s);
            if LeadingOnes(s) == |s| then EncodeBytes(b) == None else EncodeBytes(b) == Some(s)
  {
    hide B58CHARS, InAlphabet, Number, MinimalBytes, EncodeBytes;
    var z := LeadingOnes(s);
    var t := s[z..];
    assert s == Ones(z) + t;
    SuffixAlphabet(s, z);
    NumberOnes(z, t);
    DecodedSplit(z, t);
  }

  lemma SuffixAlphabet(s: string, z: nat)
    requires InAlphabet(s) && z <= |s|
    ensures InAlphabet(s[z..])
  {
    hide B58CHARS;
    assert forall c :: c in s[z..] ==> c in s;
  }

  lemma DecodedSplit(z: nat, t: string)
    requires InAlphabet(t) && (t == "" || t[0] != '1')
    ensures EncodeBytes(Zeros(z) + MinimalBytes(Number(t))) == if t == "" then None else Some(Ones(z) + t)
  {
    hide B58CHARS, Ones, Number, Numeral, Zeros, MinimalBytes, FromBE, InAlphabet;
    NumberNumeral(t);
    var m := MinimalBytes(Number(t));
    MinimalNumber(Number(t));
    ZerosValue(z, m);
    if t == "" { EmptyNumber(t); }
    LeadingIs(Zeros(z) + m, z);
  }

  lemma EmptyNumber(t: string)
    requires t == "" && InAlphabet(t)
    ensures MinimalBytes(Number(t)) == []
  {
    assert Number(t) == 0 && BitLength(0) == 0;
  }

  /** base58_to_byte gives back payload and version of everything that byte_to_base58 encodes, and
      byte_to_base58 fails only when version, payload and checksum are all zero bytes. */
  lemma AddressRoundTrip(H: Hash256, b: Bytes, version: byte)
    ensures var p := Payload(H, b, version);
            var r := EncodeBytes(p);
            && (r.None? <==> forall i :: 0 <= i < |p| ==> p[i] == 0)
            && (r.Some? ==>
                && r.value != "" && InAlphabet(r.value)
                && Checked(H, DecodeBytes(r.value)) == Address(b, version))
  {
    var p := Payload(H, b, version);
    assert p[..|p| - 4] == [version] + b && p[|p| - 4..] == H([version] + b)[..4] && p[1..|p| - 4] == b;
    if EncodeBytes(p).Some? { BytesRoundTrip(p); }
  }

  /** An accepted string is the encoding of its contents exactly when it decodes to more than the four
      checksum bytes and has a character other than '1'. */
  lemma AddressCanonical(H: Hash256, s: string, b: Bytes, version: byte)
    requires InAlphabet(s) && Checked(H, DecodeBytes(s)) == Address(b, version)
    ensures EncodeBytes(Payload(H, b, version)) == Some(s) <==> LeadingOnes(s) < |s| && |DecodeBytes(s)| > 4
  {
    var p := Payload(H, b, version);
    hide EncodeBytes, DecodeBytes, InAlphabet, LeadingOnes;
    StringRoundTrip(s);
    if |DecodeBytes(s)| > 4 { Rejoin(H, DecodeBytes(s), b, version); }
    if EncodeBytes(p) == Some(s) { BytesRoundTrip(p); }
  }

  /** The empty payload's own checksum, encoded, is accepted without a version byte before it: of the four
      bytes the first is returned as the version, and encoding that gives another string. */
  lemma BareChecksumAccepted(H: Hash256)
    requires EncodeBytes(H([])[..4]).Some?
    ensures var c := H([])[..4];
            var s := EncodeBytes(c).value;
            && InAlphabet(s) && Checked(H, DecodeBytes(s)) == Address([], c[0])
            && EncodeBytes(Payload(H, [], c[0])) != Some(s)
  {
    var c := H([])[..4];
    BytesRoundTrip(c);
    hide EncodeBytes, DecodeBytes, InAlphabet;
    assert c[..0] == [] && c[0..] == c;
    AddressCanonical(H, EncodeBytes(c).value, [], c[0]);
  }

  /** The double SHA-256 of nothing starts with these four bytes. */
  const EMPTY_CHECKSUM: Bytes := [0x5d, 0xf6, 0xe0, 0xe2]

  lemma NextDigit(n: nat, t: string, d: nat)
    requires n > 0 && n % 58 == d && Numeral(n / 58) == t
    ensures |B58CHARS| == 58 && Numeral(n) == t + [B58CHARS[d]]
  {
    Alphabet();
    hide B58CHARS;
  }

  lemma DigitsUsed()
    ensures |B58CHARS| == 58 && B58CHARS[2] == '3' && B58CHARS[23] == 'Q' && B58CHARS[17] == 'J'
    ensures B58CHARS[44] == 'm' && B58CHARS[45] == 'n' && B58CHARS[40] == 'h'
  {
    Alphabet();
  }

  lemma EmptyChecksumNumeral()
    ensures Numeral(1576460514) == "3QJmnh"
  {
    DigitsUsed();
    hide B58CHARS;
    assert Numeral(0) == "";
    NextDigit(2, "", 2);
    NextDigit(139, "3", 23);
    NextDigit(8079, "3Q", 17);
    NextDigit(468626, "3QJ", 44);
    NextDigit(27180353, "3QJm", 45);
    NextDigit(1576460514, "3QJmn", 40);
  }

  lemma EmptyChecksumValue()
    ensures FromBE(EMPTY_CHECKSUM) == 1576460514
  {
    var c := EMPTY_CHECKSUM;
    assert c[..3] == [0x5d, 0xf6, 0xe0] && c[..3][..2] == [0x5d, 0xf6] && c[..3][..2][..1] == [0x5d];
    assert FromBE([0x5d]) == 0x5d by { assert [0x5d as byte][..0] == []; }
    assert FromBE(c[..3][..2]) == 0x5df6;
    assert FromBE(c[..3]) == 0x5df6e0;
  }

  /** With the real hash that string is "3QJmnh". */
  lemma BareChecksumOfSha256(H: Hash256)
    requires H([])[..4] == EMPTY_CHECKSUM
    ensures InAlphabet("3QJmnh") && Checked(H, DecodeBytes("3QJmnh")) == Address([], 0x5d)
    ensures EncodeBytes(Payload(H, [], 0x5d)) != Some("3QJmnh")
  {
    EmptyChecksumValue();
    EmptyChecksumNumeral();
    assert LeadingZeros(EMPTY_CHECKSUM) == 0 && Ones(0) + "3QJmnh" == "3QJmnh";
    hide B58CHARS, InAlphabet, DecodeBytes, Numeral, Ones;
    assert EncodeBytes(EMPTY_CHECKSUM) == Some("3QJmnh");
    BareChecksumAccepted(H);
  }

  /** A checked string of more than four bytes is version, payload and the start of their hash, in this order. */
  lemma CheckedIff(H: Hash256, res: Bytes, b: Bytes, version: byte)
    requires |res| > 4
    ensures Checked(H, res) == Address(b, version) <==> res == [version] + b + H([version] + b)[..4]
  {
    if Checked(H, res) == Address(b, version) { Rejoin(H, res, b, version); }
    if res == [version] + b + H([version] + b)[..4] {
      var p := [version] + b;
      assert res[..|res| - 4] == p && res[|res| - 4..] == H(p)[..4] && res[1..|res| - 4] == b;
    }
  }

  // ----- which characters there are -----

  /** A strictly increasing string as long as its range has every character of it. */
  lemma {:induction false} FullRange(s: string, lo: char, hi: char, c: char)
    requires Increasing(s, lo, hi) && |s| == hi as int - lo as int + 1 && lo <= c <= hi
    ensures c in s
  {
    var k := c as int - lo as int;
    Dense(s, lo, hi, k);
    assert s[k] == c;
  }

  lemma Dense(s: string, lo: char, hi: char, k: nat)
    requires Increasing(s, lo, hi) && |s| == hi as int - lo as int + 1 && k < |s|
    ensures s[k] as int == lo as int + k
  {
    AtLeast(s, lo, hi, k);
    AtMost(s, lo, hi, k);
  }

  lemma {:induction false} AtLeast(s: string, lo: char, hi: char, k: nat)
    requires Increasing(s, lo, hi) && k < |s|
    ensures s[k] as int >= lo as int + k
  {
    if k > 0 { AtLeast(s, lo, hi, k - 1); }
  }

  lemma {:induction false} AtMost(s: string, lo: char, hi: char, k: nat)
    requires Increasing(s, lo, hi) && k < |s|
    ensures s[k] as int <= hi as int - (|s| - 1 - k)
    decreases |s| - k
  {
    if k < |s| - 1 { AtMost(s, lo, hi, k + 1); }
  }

  lemma InSegments(c: char)
    ensures c in B58CHARS <==> c in DIGITS || c in UPPER1 || c in UPPER2 || c in UPPER3 || c in LOWER1 || c in LOWER2
  {
    hide DIGITS, UPPER1, UPPER2, UPPER3, LOWER1, LOWER2;
  }

  lemma SegmentIff(s: string, lo: char, hi: char, c: char)
    requires Increasing(s, lo, hi) && |s| == hi as int - lo as int + 1
    ensures c in s <==> lo <= c <= hi
  {
    if lo <= c <= hi { FullRange(s, lo, hi, c); }
  }

  /** The alphabet is the digits and letters without 0, O, I and l, in their own order. */
  lemma AlphabetIs(c: char)
    ensures c in B58CHARS <==>
              ('0' <= c <= '9' || 'A' <= c <= 'Z' || 'a' <= c <= 'z') && c != '0' && c != 'O' && c != 'I' && c != 'l'
    ensures forall i, j :: 0 <= i < j < |B58CHARS| ==> B58CHARS[i] < B58CHARS[j]
  {
    AlphabetIncreasing();
    SegmentsLow();
    SegmentsMiddle();
    SegmentsNext();
    SegmentsHigh();
    SegmentLengths();
    InSegments(c);
    hide B58CHARS, DIGITS, UPPER1, UPPER2, UPPER3, LOWER1, LOWER2;
    SegmentIff(DIGITS, '1', '9', c);
    SegmentIff(UPPER1, 'A', 'H', c);
    SegmentIff(UPPER2, 'J', 'N', c);
    SegmentIff(UPPER3, 'P', 'Z', c);
    SegmentIff(LOWER1, 'a', 'k', c);
    SegmentIff(LOWER2, 'm', 'z', c);
  }

  lemma SegmentLengths()
    ensures |DIGITS| == 9 && |UPPER1| == 8 && |UPPER2| == 5 && |UPPER3| == 11 && |LOWER1| == 11 && |LOWER2| == 14
  {
  }

  lemma Rejoin(H: Hash256, res: Bytes, b: Bytes, version: byte)
    requires |res| > 4 && Checked(H, res) == Address(b, version)
    ensures Payload(H, b, version) == res
  {
    var p := res[..|res| - 4];
    assert p == [version] + b;
    assert res == p + res[|res| - 4..];
  }
}
