/** Bech32 and Bech32m strings: segwit_addr.py. */
module Bech32 {
  import opened NumberTheory
  import opened Bytes
  import opened Checksum
  import opened Text

  const CHARSET_LOW: string := "qpzry9x8gf2tvdw0"
  const CHARSET_HIGH: string := "s3jn54khce6mua7l"
  const CHARSET: string := CHARSET_LOW + CHARSET_HIGH
  const BECH32_CONST: nat := 1
  const BECH32M_CONST: nat := 0x2bc830a3
  const CODE: Code := Code(6, [0x3b6a57b2, 0x26508e6d, 0x1ea119fa, 0x3d4233dd, 0x2a1462b3])

  datatype Encoding = BECH32 | BECH32M

  function Const(e: Encoding): nat {
    match e
    case BECH32 => BECH32_CONST
    case BECH32M => BECH32M_CONST
  }

  lemma RegisterWidth()
    ensures Pow(2, 30) == 0x40000000
  {
    assert Pow(2, 10) == 1024;
    PowAdd(2, 10, 10);
    PowAdd(2, 10, 20);
  }

  lemma CodeWidth()
    ensures CODE.n == 6 && Pow(2, 5 * CODE.n) == 0x40000000
  {
    RegisterWidth();
  }

  lemma CodeValid()
    ensures CODE.Valid()
  {
    RegisterWidth();
    forall top | 0 < top < 32
      ensures CODE.Feedback(top, 5) % 32 != 0
    {
      if CODE.Feedback(top, 5) % 32 == 0 { Kernel(top); }
    }
  }

  /** The five feedback constants are independent in their low five bits. */
  lemma Kernel(top: nat)
    requires top < 32 && CODE.Feedback(top, 5) % 32 == 0
    ensures top == 0
  {
    Rows();
    assert |CODE.generator| == 5;
    hide *;
    CODE.ParityRow(top, 0, false, true, false, true, true);
    CODE.ParityRow(top, 1, true, false, true, false, true);
    CODE.ParityRow(top, 2, false, true, false, true, false);
    CODE.ParityRow(top, 3, false, true, true, true, false);
    CODE.ParityRow(top, 4, true, false, true, true, true);
    Code.ZeroBits(top);
  }

  lemma Rows()
    ensures CODE.LowBits(0, false, true, false, true, true)
    ensures CODE.LowBits(1, true, false, true, false, true)
    ensures CODE.LowBits(2, false, true, false, true, false)
    ensures CODE.LowBits(3, false, true, true, true, false)
    ensures CODE.LowBits(4, true, false, true, true, true)
  {
    assert Pow(2, 0) == 1 && Pow(2, 1) == 2 && Pow(2, 2) == 4 && Pow(2, 3) == 8 && Pow(2, 4) == 16;
  }

  // ----- checksums -----

  function HrpExpand(hrp: string): (v: seq<nat>)
    ensures |v| == 2 * |hrp| + 1
  {
    seq(|hrp|, i requires 0 <= i < |hrp| => hrp[i] as int / 32)
    + [0] + seq(|hrp|, i requires 0 <= i < |hrp| => hrp[i] as int % 32)
  }

  function VerifyChecksum(hrp: string, data: seq<nat>): Option<Encoding> {
    var check := CODE.Run(1, HrpExpand(hrp) + data);
    if check == BECH32_CONST then Some(BECH32)
    else if check == BECH32M_CONST then Some(BECH32M)
    else None
  }

  function CreateChecksum(e: Encoding, hrp: string, data: seq<nat>): (c: seq<nat>)
    ensures |c| == 6 && Code.FiveBit(c)
  {
    CODE.Create(HrpExpand(hrp) + data, Const(e))
  }

  lemma ValuesFit(hrp: string, data: seq<nat>)
    requires CODE.Fits(data)
    ensures CODE.Fits(HrpExpand(hrp) + data)
  {
    RegisterWidth();
  }

  lemma VerifyIs(e: Encoding, hrp: string, data: seq<nat>)
    ensures VerifyChecksum(hrp, data) == Some(e) <==> CODE.Run(1, HrpExpand(hrp) + data) == Const(e)
  {
  }

  lemma VerifyConcat(e: Encoding, hrp: string, data: seq<nat>, c: seq<nat>)
    ensures VerifyChecksum(hrp, data + c) == Some(e) <==> CODE.Run(1, HrpExpand(hrp) + data + c) == Const(e)
  {
    VerifyIs(e, hrp, data + c);
    hide *;
    assert HrpExpand(hrp) + (data + c) == HrpExpand(hrp) + data + c;
  }

  lemma CreateIs(e: Encoding, hrp: string, data: seq<nat>)
    ensures CreateChecksum(e, hrp, data) == CODE.Create(HrpExpand(hrp) + data, Const(e))
  {
  }

  /** The created symbols verify as the encoding they were made for, and no other six symbols do. */
  lemma ChecksumIff(e: Encoding, hrp: string, data: seq<nat>, c: seq<nat>)
    requires CODE.Fits(data) && |c| == 6 && Code.FiveBit(c)
    ensures VerifyChecksum(hrp, data + c) == Some(e) <==> c == CreateChecksum(e, hrp, data)
  {
    RegisterWidth();
    assert Const(e) < Pow(2, 30) && CODE.n == 6;
    hide *;
    CodeValid();
    ValuesFit(hrp, data);
    CODE.CreateIff(HrpExpand(hrp) + data, Const(e), c);
    VerifyConcat(e, hrp, data, c);
    CreateIs(e, hrp, data);
  }

  lemma UpdatedTail(h: seq<nat>, data: seq<nat>, i: nat, v: nat)
    requires i < |data|
    ensures (h + data)[|h| + i := v] == h + data[i := v] && (h + data)[|h| + i] == data[i]
  {
  }

  lemma ChangedRun(h: seq<nat>, data: seq<nat>, i: nat, v: nat)
    requires CODE.Fits(h + data) && i < |data| && v < Pow(2, 5 * CODE.n) && v != data[i]
    ensures CODE.Run(1, h + data[i := v]) != CODE.Run(1, h + data)
  {
    hide *;
    CodeWidth();
    UpdatedTail(h, data, i, v);
    CodeValid();
    CODE.SingleError(1, h + data, |h| + i, v);
  }

  /** One wrong symbol, anywhere, in data of any length: never accepted as the same encoding. */
  lemma OneSymbolDetected(hrp: string, data: seq<nat>, i: nat, v: nat)
    requires CODE.Fits(data) && i < |data| && v < 32 && v != data[i] && VerifyChecksum(hrp, data).Some?
    ensures VerifyChecksum(hrp, data[i := v]) != VerifyChecksum(hrp, data)
  {
    hide *;
    CodeWidth();
    var e := VerifyChecksum(hrp, data).value;
    VerifyIs(e, hrp, data);
    VerifyIs(e, hrp, data[i := v]);
    ValuesFit(hrp, data);
    ChangedRun(HrpExpand(hrp), data, i, v);
  }

  /** Up to six adjacent symbols wrong, anywhere, in data of any length: never accepted as the same encoding. */
  lemma BurstDetected(hrp: string, p: seq<nat>, a: seq<nat>, b: seq<nat>, q: seq<nat>)
    requires CODE.Fits(p) && CODE.Fits(q) && |a| == |b| <= 6 && Code.FiveBit(a) && Code.FiveBit(b) && a != b
    requires VerifyChecksum(hrp, p + a + q).Some?
    ensures VerifyChecksum(hrp, p + b + q) != VerifyChecksum(hrp, p + a + q)
  {
    hide *;
    CodeWidth();
    var h, e := HrpExpand(hrp), VerifyChecksum(hrp, p + a + q).value;
    assert h + (p + a + q) == h + p + a + q && h + (p + b + q) == h + p + b + q;
    CodeValid();
    VerifyIs(e, hrp, p + a + q);
    VerifyIs(e, hrp, p + b + q);
    ValuesFit(hrp, p);
    CODE.BurstError(1, h + p, a, b, q);
  }

  predicate Ascii(s: string) {
    forall i :: 0 <= i < |s| ==> s[i] as int < 128
  }

  lemma ExpandFiveBit(h: string)
    requires Ascii(h)
    ensures Code.FiveBit(HrpExpand(h))
  {
  }

  /** The expansions of two prefixes that differ in [i, j) only differ in [i, |h| + 1 + j) only, and they do differ. */
  lemma ExpandWindow(h: string, k: string, i: nat, j: nat)
    requires |h| == |k| && i <= j <= |h| && h[..i] == k[..i] && h[j..] == k[j..] && h != k
    ensures var a, b, n := HrpExpand(h), HrpExpand(k), |h| + 1 + j;
            a[..i] == b[..i] && a[n..] == b[n..] && a[i..n] != b[i..n]
  {
    var a, b, n := HrpExpand(h), HrpExpand(k), |h| + 1 + j;
    forall x | 0 <= x < |h| && (x < i || j <= x) ensures h[x] == k[x] {
      if x < i { assert h[..i][x] == k[..i][x]; } else { assert h[j..][x - j] == k[j..][x - j]; }
    }
    hide *;
    forall x | 0 <= x < |a| && (x < i || n <= x) ensures a[x] == b[x] {
      ExpandAt(h, x);
      ExpandAt(k, x);
    }
    var x :| 0 <= x < |h| && h[x] != k[x];
    if h[x] as int / 32 == k[x] as int / 32 && h[x] as int % 32 == k[x] as int % 32 { SameParts(h[x], k[x]); }
    var y := if h[x] as int / 32 != k[x] as int / 32 then x else |h| + 1 + x;
    ExpandAt(h, y);
    ExpandAt(k, y);
    assert a[i..n][y - i] != b[i..n][y - i];
  }

  lemma ExpandAt(h: string, x: nat)
    requires x < |HrpExpand(h)|
    ensures HrpExpand(h)[x] == if x < |h| then h[x] as int / 32 else if x == |h| then 0 else h[x - |h| - 1] as int % 32
  {
  }

  lemma SameParts(c: char, d: char)
    requires c as int / 32 == d as int / 32 && c as int % 32 == d as int % 32
    ensures c == d
  {
  }

  lemma Cut(a: seq<nat>, data: seq<nat>, i: nat, n: nat)
    requires i <= n <= |a|
    ensures a + data == a[..i] + a[i..n] + (a[n..] + data)
  {
  }

  lemma PartsFiveBit(a: seq<nat>, i: nat, n: nat)
    requires Code.FiveBit(a) && i <= n <= |a|
    ensures Code.FiveBit(a[..i]) && Code.FiveBit(a[i..n]) && Code.FiveBit(a[n..])
  {
  }

  lemma FitsConcat(a: seq<nat>, data: seq<nat>)
    requires Code.FiveBit(a) && CODE.Fits(data)
    ensures CODE.Fits(a + data)
  {
    RegisterWidth();
  }

  /** A wrong human-readable part, of the same length and with its wrong characters so close together that both
      halves of the expansion lie within six symbols, never goes with the data of the right one. */
  lemma HrpDetected(h: string, k: string, i: nat, j: nat, data: seq<nat>)
    requires Ascii(h) && Ascii(k) && |h| == |k| && h != k && CODE.Fits(data)
    requires i <= j <= |h| && h[..i] == k[..i] && h[j..] == k[j..] && |h| + 1 + (j - i) <= 6
    requires VerifyChecksum(h, data).Some?
    ensures VerifyChecksum(k, data) != VerifyChecksum(h, data)
  {
    var e, a, b, n := VerifyChecksum(h, data).value, HrpExpand(h), HrpExpand(k), |h| + 1 + j;
    hide *;
    CodeWidth();
    CodeValid();
    ExpandFiveBit(h);
    ExpandFiveBit(k);
    ExpandWindow(h, k, i, j);
    PartsFiveBit(a, i, n);
    PartsFiveBit(b, i, n);
    Cut(a, data, i, n);
    Cut(b, data, i, n);
    FitsConcat(a[n..], data);
    CODE.SymbolsFit(a[..i]);
    CODE.BurstError(1, a[..i], a[i..n], b[i..n], a[n..] + data);
    VerifyIs(e, h, data);
    VerifyIs(e, k, data);
  }

  /** So the prefixes of two networks, "bc" and "tb" say, never share a checksum under one encoding ... */
  lemma ShortHrpDetected(h: string, k: string, data: seq<nat>)
    requires Ascii(h) && Ascii(k) && |h| == |k| <= 2 && h != k && CODE.Fits(data) && VerifyChecksum(h, data).Some?
    ensures VerifyChecksum(k, data) != VerifyChecksum(h, data)
  {
    hide *;
    assert h[..0] == k[..0] && h[|h|..] == k[|k|..];
    HrpDetected(h, k, 0, |h|, data);
  }

  /** ... and one wrong character is found in a prefix of up to four, "bcrt" say. */
  lemma HrpCharacterDetected(h: string, i: nat, c: char, data: seq<nat>)
    requires Ascii(h) && c as int < 128 && i < |h| <= 4 && c != h[i] && CODE.Fits(data) && VerifyChecksum(h, data).Some?
    ensures VerifyChecksum(h[i := c], data) != VerifyChecksum(h, data)
  {
    var k := h[i := c];
    assert h[..i] == k[..i] && h[i + 1..] == k[i + 1..] && k[i] != h[i] && Ascii(k);
    hide *;
    HrpDetected(h, k, i, i + 1, data);
  }

  // ----- strings -----

  lemma CharsetDistinct()
    ensures Distinct(CHARSET)
  {
    LowRanks();
    HighRanks();
    hide CHARSET_LOW, CHARSET_HIGH, Rank;
    assert forall i :: 0 <= i < 32 ==> CHARSET[i] == if i < 16 then CHARSET_LOW[i] else CHARSET_HIGH[i - 16];
    assert forall i :: 0 <= i < 32 ==> Rank(CHARSET[i]) == i;
  }

  /** The place of a character in the alphabet. */
  function Rank(c: char): int {
    match c
    case 'q' => 0 case 'p' => 1 case 'z' => 2 case 'r' => 3
    case 'y' => 4 case '9' => 5 case 'x' => 6 case '8' => 7
    case 'g' => 8 case 'f' => 9 case '2' => 10 case 't' => 11
    case 'v' => 12 case 'd' => 13 case 'w' => 14 case '0' => 15
    case 's' => 16 case '3' => 17 case 'j' => 18 case 'n' => 19
    case '5' => 20 case '4' => 21 case 'k' => 22 case 'h' => 23
    case 'c' => 24 case 'e' => 25 case '6' => 26 case 'm' => 27
    case 'u' => 28 case 'a' => 29 case '7' => 30 case 'l' => 31
    case _ => -1
  }

  lemma LowRanks()
    ensures |CHARSET_LOW| == 16 && forall i :: 0 <= i < 16 ==> Rank(CHARSET_LOW[i]) == i
  {
  }

  lemma HighRanks()
    ensures |CHARSET_HIGH| == 16 && forall i :: 0 <= i < 16 ==> Rank(CHARSET_HIGH[i]) == i + 16
  {
  }

  function ToChars(d: seq<nat>): (s: string)
    requires Code.FiveBit(d)
    ensures |s| == |d|
  {
    seq(|d|, i requires 0 <= i < |d| => CHARSET[d[i]])
  }

  function FromChars(s: string): (d: seq<nat>)
    requires forall c :: c in s ==> c in CHARSET
    ensures |d| == |s| && Code.FiveBit(d)
  {
    seq(|s|, i requires 0 <= i < |s| => assert s[i] in s; Find(CHARSET, s[i]))
  }

  lemma CharsInverse(d: seq<nat>, s: string)
    requires Code.FiveBit(d) && forall c :: c in s ==> c in CHARSET
    ensures forall c :: c in ToChars(d) ==> c in CHARSET
    ensures FromChars(ToChars(d)) == d
    ensures ToChars(FromChars(s)) == s
  {
    CharsetDistinct();
    forall i | 0 <= i < |d|
      ensures Find(CHARSET, CHARSET[d[i]]) == d[i]
    {
      FindAt(CHARSET, d[i]);
    }
    forall i | 0 <= i < |s|
      ensures s[i] in CHARSET
    {
      assert s[i] in s;
    }
  }

  function Encode(e: Encoding, hrp: string, data: seq<nat>): string
    requires Code.FiveBit(data)
  {
    hrp + "1" + ToChars(data + CreateChecksum(e, hrp, data))
  }

  predicate Printable(s: string) {
    forall i :: 0 <= i < |s| ==> 33 <= s[i] as int <= 126
  }

  function Decode(bech: string): Option<(Encoding, string, seq<nat>)> {
    if !Printable(bech) || (Lower(bech) != bech && Upper(bech) != bech) then None
    else
      var b := Lower(bech);
      var pos := RFind(b, '1');
      if pos < 1 || pos + 7 > |b| || |b| > 90 then None
      else if !forall c :: c in b[pos + 1..] ==> c in CHARSET then None
      else
        Checked(b[..pos], FromChars(b[pos + 1..]))
  }

  /** The end of bech32_decode: check and remove the checksum. */
  function Checked(hrp: string, data: seq<nat>): Option<(Encoding, string, seq<nat>)>
    requires |data| >= 6
  {
    match VerifyChecksum(hrp, data)
    case None => None
    case Some(e) => Some((e, hrp, data[..|data| - 6]))
  }

  /** What a human-readable part must be for its own encodings to decode. */
  predicate GoodHrp(hrp: string) {
    |hrp| > 0 && Printable(hrp) && Lower(hrp) == hrp
  }

  /** Printable, not upper case, and not the separator. */
  predicate Plain(c: char) {
    33 <= c as int <= 126 && !('A' <= c <= 'Z') && c != '1'
  }

  lemma CharsetPlain()
    ensures forall i :: 0 <= i < 16 ==> Plain(CHARSET_LOW[i]) && Plain(CHARSET_HIGH[i])
  {
  }

  lemma CharsetChar(t: string, i: nat)
    requires i < |t| && t[i] in CHARSET
    ensures 33 <= t[i] as int <= 126 && LowerChar(t[i]) == t[i] && t[i] != '1'
  {
    CharsetPlain();
    var j :| 0 <= j < |CHARSET| && CHARSET[j] == t[i];
    assert CHARSET[j] == if j < 16 then CHARSET_LOW[j] else CHARSET_HIGH[j - 16];
  }

  lemma EncodedShape(hrp: string, t: string)
    requires forall c :: c in t ==> c in CHARSET
    ensures var s := hrp + "1" + t;
            && s[..|hrp|] == hrp && s[|hrp| + 1..] == t
            && (GoodHrp(hrp) ==> Printable(s) && Lower(s) == s && RFind(s, '1') == |hrp|)
  {
    var s := hrp + "1" + t;
    forall i | 0 <= i < |t|
      ensures 33 <= t[i] as int <= 126 && LowerChar(t[i]) == t[i] && t[i] != '1'
    {
      assert t[i] in t;
      CharsetChar(t, i);
    }
    assert forall i :: |hrp| < i < |s| ==> s[i] == t[i - |hrp| - 1];
    if GoodHrp(hrp) {
      forall i | 0 <= i < |s| ensures LowerChar(s[i]) == s[i] {
        if i < |hrp| { assert Lower(hrp)[i] == hrp[i]; }
      }
      assert s[|hrp|] == '1';
    }
  }

  /** The parsing part of Decode for a string split at the separator. */
  lemma DecodeSplit(hrp: string, t: string)
    requires GoodHrp(hrp) && |t| >= 6 && forall c :: c in t ==> c in CHARSET
    ensures Decode(hrp + "1" + t)
         == if |hrp| + 1 + |t| > 90 then None
            else Checked(hrp, FromChars(t))
  {
    EncodedShape(hrp, t);
    hide Checked, Printable, Lower, RFind, Upper, GoodHrp, FromChars, CHARSET;
  }

  /** An encoding decodes to what it was made from when the human-readable part is nonempty, printable
      and lower case and the string is at most 90 characters long; otherwise that part never comes back. */
  lemma DecodeEncoded(e: Encoding, hrp: string, data: seq<nat>)
    requires Code.FiveBit(data)
    ensures var r, good := Decode(Encode(e, hrp, data)), GoodHrp(hrp) && |hrp| + |data| + 7 <= 90;
            if good then r == Some((e, hrp, data)) else r.None? || r.value.1 != hrp
  {
    var c := CreateChecksum(e, hrp, data);
    var t := ToChars(data + c);
    var s := hrp + "1" + t;
    assert s == Encode(e, hrp, data);
    RegisterWidth();
    assert CODE.Fits(data);
    assert (data + c)[..|data|] == data;
    CharsInverse(data + c, "");
    ChecksumIff(e, hrp, data, c);
    hide CreateChecksum, ToChars, FromChars, VerifyChecksum, GoodHrp, Decode, Encode;
    if GoodHrp(hrp) { DecodeSplit(hrp, t); }
    if Decode(s).Some? && Decode(s).value.1 == hrp { DecodedHrp(s, Decode(s).value.0, hrp, Decode(s).value.2); }
  }

  lemma CaseChars(c: char)
    ensures LowerChar(LowerChar(c)) == LowerChar(c) && LowerChar(UpperChar(c)) == LowerChar(c)
    ensures UpperChar(UpperChar(c)) == UpperChar(c) && UpperChar(LowerChar(c)) == UpperChar(c)
    ensures 33 <= c as int <= 126 ==> 33 <= LowerChar(c) as int <= 126 && 33 <= UpperChar(c) as int <= 126
    ensures 33 <= LowerChar(c) as int <= 126 ==> 33 <= c as int <= 126
  {
  }

  lemma CaseStrings(s: string)
    ensures Lower(Lower(s)) == Lower(s) && Lower(Upper(s)) == Lower(s)
    ensures Upper(Upper(s)) == Upper(s) && Upper(Lower(s)) == Upper(s)
    ensures Printable(Lower(s)) <==> Printable(s)
    ensures Printable(Lower(s)) <==> Printable(Upper(s))
  {
    forall i | 0 <= i < |s|
      ensures LowerChar(LowerChar(s[i])) == LowerChar(s[i]) && LowerChar(UpperChar(s[i])) == LowerChar(s[i])
      ensures UpperChar(UpperChar(s[i])) == UpperChar(s[i]) && UpperChar(LowerChar(s[i])) == UpperChar(s[i])
      ensures 33 <= LowerChar(s[i]) as int <= 126 <==> 33 <= s[i] as int <= 126
      ensures 33 <= UpperChar(s[i]) as int <= 126 <==> 33 <= s[i] as int <= 126
    {
      CaseChars(s[i]);
      CaseChars(UpperChar(s[i]));
    }
    hide LowerChar, UpperChar;
  }

  /** A string of one case is read as its lower-case form; one of mixed case is not read. */
  lemma DecodeCase(s: string)
    ensures Decode(s) == if s == Lower(s) || s == Upper(s) then Decode(Lower(s)) else None
  {
    CaseStrings(s);
    hide Lower, Upper, Printable, RFind, FromChars, CHARSET, Checked;
  }

  /** What decodes, exactly: the lower-case and upper-case spellings of the encodings with a good human-readable part
      and at most 90 characters. */
  lemma DecodeIff(s: string, e: Encoding, hrp: string, data: seq<nat>)
    requires Code.FiveBit(data)
    ensures Decode(s) == Some((e, hrp, data))
       <==> (GoodHrp(hrp) && |hrp| + |data| + 7 <= 90
             && (s == Encode(e, hrp, data) || s == Upper(Encode(e, hrp, data))))
  {
    var t := Encode(e, hrp, data);
    hide *;
    DecodeCase(s);
    DecodeEncoded(e, hrp, data);
    CaseStrings(s);
    if Decode(s) == Some((e, hrp, data)) {
      DecodeCanonical(s, e, hrp, data);
      DecodedHrp(s, e, hrp, data);
    }
    CaseStrings(t);
    DecodeCase(Upper(t));
    if Decode(t) == Some((e, hrp, data)) { DecodeCanonical(t, e, hrp, data); }
  }

  lemma DecodedHrp(s: string, e: Encoding, hrp: string, data: seq<nat>)
    requires Decode(s) == Some((e, hrp, data))
    ensures GoodHrp(hrp) && |s| == |hrp| + |data| + 7 && |s| <= 90
  {
    var b := Lower(s);
    var pos := RFind(b, '1');
    assert hrp == b[..pos] && |data| == |b[pos + 1..]| - 6;
    hide VerifyChecksum, FromChars, RFind, CHARSET;
    assert forall i :: 0 <= i < |b| ==> LowerChar(b[i]) == b[i] && 33 <= b[i] as int <= 126;
    assert forall i :: 0 <= i < |hrp| ==> hrp[i] == b[i];
  }

  lemma DecodedParts(s: string, e: Encoding, hrp: string, data: seq<nat>) returns (t: string)
    requires Decode(s) == Some((e, hrp, data))
    ensures |t| >= 6 && (forall c :: c in t ==> c in CHARSET) && Lower(s) == hrp + "1" + t
    ensures data == FromChars(t)[..|t| - 6] && VerifyChecksum(hrp, FromChars(t)) == Some(e)
  {
    hide Lower, Upper, Printable, VerifyChecksum, FromChars;
    var b := Lower(s);
    var pos := RFind(b, '1');
    t := b[pos + 1..];
    assert b == b[..pos] + [b[pos]] + t;
  }

  /** Only one lower-case string decodes to given parts. */
  lemma DecodeCanonical(s: string, e: Encoding, hrp: string, data: seq<nat>)
    requires Decode(s) == Some((e, hrp, data))
    ensures Code.FiveBit(data) && Lower(s) == Encode(e, hrp, data)
  {
    var t := DecodedParts(s, e, hrp, data);
    var all := FromChars(t);
    var c := all[|t| - 6..];
    assert all == data + c;
    RegisterWidth();
    assert CODE.Fits(data);
    hide CreateChecksum, ToChars, FromChars, VerifyChecksum, Decode, Lower;
    ChecksumIff(e, hrp, data, c);
    CharsInverse(all, t);
  }
}
