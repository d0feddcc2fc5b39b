/** Descriptor checksums: descriptors.py. */
module Descriptors {
  import opened NumberTheory
  import opened Bytes
  import opened Checksum
  import opened Text
  import Bech32

  /** Three groups of 32 characters, the last one character short. */
  const GROUP0: string := "0123456789()[],'" + "/*abcdefgh@:$%{}"
  const GROUP1: string := "IJKLMNOPQRSTUVWX" + "YZ&+-.;<=>?!^_|~"
  const GROUP2: string := "ijklmnopqrstuvwx" + "yzABCDEFGH`#\"\\ "
  const INPUT_CHARSET: string := GROUP0 + GROUP1 + GROUP2
  const CODE: Code := Code(8, [0xf5dee51989, 0xa9fdca3312, 0x1bab10e32d, 0x3706b1677a, 0x644d626ffd])

  lemma RegisterWidth()
    ensures Pow(2, 40) == 0x10000000000
  {
    assert Pow(2, 10) == 1024;
    PowAdd(2, 10, 10);
    PowAdd(2, 20, 20);
  }

  lemma CodeWidth()
    ensures CODE.n == 8 && Pow(2, 5 * CODE.n) == 0x10000000000
  {
    RegisterWidth();
  }

  lemma CodeValid()
    ensures CODE.Valid()
  {
    RegisterWidth();
    forall top | 0 < top < 32
      ensures CODE.Feedback(top, 5) % 32 != 0
    {
      if CODE.Feedback(top, 5) % 32 == 0 { Kernel(top); }
    }
  }

  lemma Kernel(top: nat)
    requires top < 32 && CODE.Feedback(top, 5) % 32 == 0
    ensures top == 0
  {
    Rows();
    assert |CODE.generator| == 5;
    hide *;
    CODE.ParityRow(top, 0, true, false, true, false, true);
    CODE.ParityRow(top, 1, false, true, false, true, false);
    CODE.ParityRow(top, 2, false, false, true, false, true);
    CODE.ParityRow(top, 3, true, false, true, true, true);
    CODE.ParityRow(top, 4, false, true, false, true, true);
    Code.ZeroBits(top);
  }

  lemma Rows()
    ensures CODE.LowBits(0, true, false, true, false, true)
    ensures CODE.LowBits(1, false, true, false, true, false)
    ensures CODE.LowBits(2, false, false, true, false, true)
    ensures CODE.LowBits(3, true, false, true, true, true)
    ensures CODE.LowBits(4, false, true, false, true, true)
  {
    assert Pow(2, 0) == 1 && Pow(2, 1) == 2 && Pow(2, 2) == 4 && Pow(2, 3) == 8 && Pow(2, 4) == 16;
  }

  // ----- expansion -----

  /** A letter and its other case stand at the same place of two groups, so that a wrong case changes the group only. */
  lemma CasePairs(i: nat)
    ensures i < 8 ==> GROUP0[18 + i] as int == 'a' as int + i && GROUP2[18 + i] as int == 'A' as int + i
    ensures i < 18 ==> GROUP2[i] as int == 'i' as int + i && GROUP1[i] as int == 'I' as int + i
  {
    hide *;
    if i < 8 {
      EarlyLetters(i);
      EarlyCapitals(i);
    }
    if i < 18 {
      LateLetters(i);
      LateCapitals(i);
    }
  }

  lemma EarlyLetters(i: nat)
    requires i < 8
    ensures GROUP0[18 + i] as int == 'a' as int + i
  {
  }

  lemma EarlyCapitals(i: nat)
    requires i < 8
    ensures GROUP2[18 + i] as int == 'A' as int + i
  {
  }

  lemma LateLetters(i: nat)
    requires i < 18
    ensures GROUP2[i] as int == 'i' as int + i
  {
  }

  lemma LateCapitals(i: nat)
    requires i < 18
    ensures GROUP1[i] as int == 'I' as int + i
  {
  }

  predicate InCharset(s: string) {
    forall c :: c in s ==> c in INPUT_CHARSET
  }

  /** The symbols so far, and the group numbers not yet combined into one. */
  function Expanding(s: string): (r: (seq<nat>, seq<nat>))
    requires InCharset(s)
    ensures |r.1| < 3
  {
    if s == [] then ([], [])
    else
      var (symbols, groups) := Expanding(s[..|s| - 1]);
      Step(symbols, groups, Find(INPUT_CHARSET, s[|s| - 1]))
  }

  /** One character with index v in the charset. */
  function Step(symbols: seq<nat>, groups: seq<nat>, v: nat): (r: (seq<nat>, seq<nat>))
    requires |groups| < 3
    ensures |r.1| < 3
  {
    var g := groups + [v / 32];
    if |g| == 3 then (symbols + [v % 32, g[0] * 9 + g[1] * 3 + g[2]], []) else (symbols + [v % 32], g)
  }

  lemma CharsetSize()
    ensures |INPUT_CHARSET| == 95
  {
  }

  /** Group numbers stay below 3, so that three of them fit in one symbol. */
  lemma {:induction false} ExpandingBounds(s: string)
    requires InCharset(s)
    ensures var (symbols, groups) := Expanding(s);
            Code.FiveBit(symbols) && forall i :: 0 <= i < |groups| ==> groups[i] < 3
  {
    if s != [] {
      CharsetSize();
      hide INPUT_CHARSET, Step;
      ExpandingBounds(s[..|s| - 1]);
      assert s[|s| - 1] in s;
      var (symbols, groups) := Expanding(s[..|s| - 1]);
      StepBounds(symbols, groups, Find(INPUT_CHARSET, s[|s| - 1]));
    }
  }

  lemma StepBounds(symbols: seq<nat>, groups: seq<nat>, v: nat)
    requires Code.FiveBit(symbols) && |groups| < 3 && v < 96 && forall i :: 0 <= i < |groups| ==> groups[i] < 3
    ensures var r := Step(symbols, groups, v);
            Code.FiveBit(r.0) && forall i :: 0 <= i < |r.1| ==> r.1[i] < 3
  {
    var g := groups + [v / 32];
    assert v / 32 < 3;
    if |g| == 3 { assert g[0] < 3 && g[1] < 3 && g[2] < 3; }
  }

  lemma ExpandingStep(s: string, k: nat)
    requires k < |s| && InCharset(s[..k]) && s[k] in INPUT_CHARSET
    ensures InCharset(s[..k + 1])
    ensures var (symbols, groups) := Expanding(s[..k]);
            Expanding(s[..k + 1]) == Step(symbols, groups, Find(INPUT_CHARSET, s[k]))
  {
    hide INPUT_CHARSET;
    assert s[..k + 1] == s[..k] + [s[k]];
    assert s[..k + 1][..k] == s[..k];
  }

  function Finish(symbols: seq<nat>, groups: seq<nat>): (r: seq<nat>)
    requires |groups| < 3
  {
    if |groups| == 1 then symbols + [groups[0]]
    else if |groups| == 2 then symbols + [groups[0] * 3 + groups[1]]
    else symbols
  }

  function Expand(s: string): (r: Option<seq<nat>>)
    ensures r.Some? ==> Code.FiveBit(r.value)
  {
    if !InCharset(s) then None
    else
      FinishFive(s);
      var (symbols, groups) := Expanding(s);
      Some(Finish(symbols, groups))
  }

  lemma FinishFive(s: string)
    requires InCharset(s)
    ensures Code.FiveBit(Finish(Expanding(s).0, Expanding(s).1))
  {
    hide InCharset, INPUT_CHARSET, Expanding;
    ExpandingBounds(s);
  }

  lemma ExpandingEmpty(s: string)
    requires s == []
    ensures Expanding(s) == ([], [])
  {
  }

  method ExpandLoop(s: string) returns (r: Option<seq<nat>>)
    ensures r == Expand(s)
  {
    var groups: seq<nat>, symbols: seq<nat> := [], [];
    hide INPUT_CHARSET, Expanding;
    assert Expanding(s[..0]) == (symbols, groups) by { ExpandingEmpty(s[..0]); }
    for k := 0 to |s|
      invariant InCharset(s[..k]) && Expanding(s[..k]) == (symbols, groups)
    {
      if s[k] !in INPUT_CHARSET {
        assert s[k] in s;
        return None;
      }
      ExpandingStep(s, k);
      var v := Find(INPUT_CHARSET, s[k]);
      ghost var before := symbols;
      symbols := symbols + [v % 32];
      groups := groups + [v / 32];
      if |groups| == 3 {
        symbols := symbols + [groups[0] * 9 + groups[1] * 3 + groups[2]];
        assert symbols == before + [v % 32, groups[0] * 9 + groups[1] * 3 + groups[2]];
        groups := [];
      }
    }
    assert s[..|s|] == s;
    if |groups| == 1 {
      symbols := symbols + [groups[0]];
    } else if |groups| == 2 {
      symbols := symbols + [groups[0] * 3 + groups[1]];
    }
    return Some(symbols);
  }

  // ----- create and check -----

  /** The string with its checksum; a character outside the charset raises. */
  function Create(s: string): Option<string> {
    match Expand(s)
    case None => None
    case Some(symbols) => Some(s + "#" + Bech32.ToChars(CODE.Create(symbols, 1)))
  }

  datatype Verdict = Accepted | Rejected | Raised

  function Check(s: string, require: bool): Verdict {
    if '#' !in s then if require then Rejected else Accepted
    else if |s| < 9 then Raised
    else
      var body, sum := s[..|s| - 9], s[|s| - 8..];
      if s[|s| - 9] != '#' then Rejected
      else if !forall c :: c in sum ==> c in Bech32.CHARSET then Rejected
      else CheckParts(body, Bech32.FromChars(sum))
  }

  function CheckParts(body: string, sum: seq<nat>): Verdict {
    match Expand(body)
    case None => Raised
    case Some(symbols) => if CODE.Run(1, symbols + sum) == 1 then Accepted else Rejected
  }

  lemma CheckSplit(s: string, sum: string, require: bool)
    requires |sum| == 8 && forall c :: c in sum ==> c in Bech32.CHARSET
    ensures Check(s + "#" + sum, require) == CheckParts(s, Bech32.FromChars(sum))
  {
    hide Bech32.CHARSET, Bech32.FromChars, CheckParts;
    var t := s + "#" + sum;
    assert t[..|t| - 9] == s && t[|t| - 8..] == sum && t[|t| - 9] == '#';
    assert '#' in t;
  }

  /** Of all the strings that extend s by '#' and eight checksum characters, Check accepts exactly the
      one that Create makes. */
  lemma CheckIffCreated(s: string, sum: string, require: bool)
    requires InCharset(s) && |sum| == 8 && forall c :: c in sum ==> c in Bech32.CHARSET
    ensures Create(s).Some?
    ensures Check(s + "#" + sum, require) == Accepted <==> Create(s) == Some(s + "#" + sum)
  {
    CheckSplit(s, sum, require);
    hide Bech32.ToChars, Bech32.FromChars, Bech32.CHARSET, InCharset, INPUT_CHARSET;
    var symbols := Expand(s).value;
    var d := CODE.Create(symbols, 1);
    assert (s + "#" + Bech32.ToChars(d))[|s| + 1..] == Bech32.ToChars(d);
    assert (s + "#" + sum)[|s| + 1..] == sum;
    RegisterWidth();
    assert CODE.Fits(symbols) && 1 < Pow(2, 40) && CODE.n == 8;
    hide Expand, CODE, Check;
    Bech32.CharsInverse(d, sum);
    CodeValid();
    CODE.CreateIff(symbols, 1, Bech32.FromChars(sum));
  }

  /** What checks, exactly: what is created, and without a requirement strings without a separator. */
  lemma CheckIff(s: string, require: bool)
    ensures Check(s, require) == Accepted <==> ('#' !in s && !require) || exists body :: Create(body) == Some(s)
  {
    hide Bech32.CHARSET, INPUT_CHARSET, Expand;
    if Check(s, require) == Accepted && '#' in s {
      var body, sum := s[..|s| - 9], s[|s| - 8..];
      assert s == body + "#" + sum;
      ExpandedInCharset(body);
      CheckIffCreated(body, sum, require);
      assert Create(body) == Some(s);
    }
    if body :| Create(body) == Some(s) {
      ExpandedInCharset(body);
      CreatedChecks(body, require);
    }
  }

  lemma ExpandedInCharset(s: string)
    ensures Expand(s).Some? <==> InCharset(s)
  {
  }

  /** Every created checksum checks. */
  lemma CreatedChecks(s: string, require: bool)
    requires InCharset(s)
    ensures Create(s).Some? && Check(Create(s).value, require) == Accepted
  {
    var d := CODE.Create(Expand(s).value, 1);
    Bech32.CharsInverse(d, "");
    CheckIffCreated(s, Bech32.ToChars(d), require);
  }

  // ----- detected changes -----

  lemma StepAppends(before: seq<nat>, symbols: seq<nat>, groups: seq<nat>, v: nat)
    requires |groups| < 3
    ensures Step(before + symbols, groups, v) == (before + Step(symbols, groups, v).0, Step(symbols, groups, v).1)
  {
    var g := groups + [v / 32];
    var add := if |g| == 3 then [v % 32, g[0] * 9 + g[1] * 3 + g[2]] else [v % 32];
    assert before + symbols + add == before + (symbols + add);
  }

  lemma {:induction false} GroupCount(s: string)
    requires InCharset(s)
    ensures |Expanding(s).1| == |s| % 3
  {
    hide INPUT_CHARSET;
    if s != [] { GroupCount(s[..|s| - 1]); }
  }

  /** After a multiple of three characters the expansion starts afresh. */
  lemma {:induction false} ExpandingConcat(p: string, r: string)
    requires InCharset(p) && InCharset(r) && |p| % 3 == 0
    ensures InCharset(p + r)
    ensures Expanding(p + r) == (Expanding(p).0 + Expanding(r).0, Expanding(r).1)
  {
    hide INPUT_CHARSET, Step;
    GroupCount(p);
    if r == [] {
      ExpandingEmpty(r);
      assert p + r == p && Expanding(p).0 + [] == Expanding(p).0;
    } else {
      var t := r[..|r| - 1];
      assert (p + r)[..|p + r| - 1] == p + t;
      ExpandingConcat(p, t);
      StepAppends(Expanding(p).0, Expanding(t).0, Expanding(t).1, Find(INPUT_CHARSET, r[|r| - 1]));
    }
  }

  lemma ExpandConcat(p: string, r: string)
    requires InCharset(p) && InCharset(r) && |p| % 3 == 0
    ensures Expand(p).Some? && Expand(r).Some? && Expand(p + r) == Some(Expand(p).value + Expand(r).value)
  {
    hide INPUT_CHARSET, Expanding;
    GroupCount(p);
    ExpandingConcat(p, r);
    FinishAppends(Expanding(p).0, Expanding(r).0, Expanding(r).1);
  }

  lemma FinishAppends(before: seq<nat>, symbols: seq<nat>, groups: seq<nat>)
    requires |groups| < 3
    ensures Finish(before + symbols, groups) == before + Finish(symbols, groups)
  {
    if |groups| > 0 {
      var g := if |groups| == 1 then groups[0] else groups[0] * 3 + groups[1];
      assert before + symbols + [g] == before + (symbols + [g]);
    }
  }

  /** The index of a character in the charset. */
  function At(s: string, i: nat): (v: nat)
    requires InCharset(s) && i < |s|
    ensures v < 96
  {
    CharsetSize();
    assert s[i] in s;
    Find(INPUT_CHARSET, s[i])
  }

  lemma AtUnique(s: string, t: string, i: nat)
    requires InCharset(s) && InCharset(t) && i < |s| && i < |t| && At(s, i) == At(t, i)
    ensures s[i] == t[i]
  {
  }

  lemma ExpandSmall(s: string)
    requires InCharset(s) && 1 <= |s| <= 3
    ensures Expand(s).Some?
    ensures |s| == 1 ==> Expand(s).value == [At(s, 0) % 32, At(s, 0) / 32]
    ensures |s| == 2 ==> Expand(s).value == [At(s, 0) % 32, At(s, 1) % 32, At(s, 0) / 32 * 3 + At(s, 1) / 32]
    ensures |s| == 3 ==>
            Expand(s).value
            == [At(s, 0) % 32, At(s, 1) % 32, At(s, 2) % 32, At(s, 0) / 32 * 9 + At(s, 1) / 32 * 3 + At(s, 2) / 32]
  {
    hide INPUT_CHARSET, Expanding, Step, Finish;
    ExpandingEmpty(s[..0]);
    Prefixes(s);
    ExpandingStep(s, 0);
    if |s| > 1 { ExpandingStep(s, 1); }
    if |s| > 2 { ExpandingStep(s, 2); }
    assert s[..|s|] == s;
    Steps(At(s, 0), if |s| > 1 then At(s, 1) else 0, if |s| > 2 then At(s, 2) else 0);
  }

  /** The first three steps, and what finishing after each gives. */
  lemma Steps(a: nat, b: nat, c: nat)
    ensures var one := Step([], [], a);
            && Finish(one.0, one.1) == [a % 32, a / 32]
            && var two := Step(one.0, one.1, b);
               && Finish(two.0, two.1) == [a % 32, b % 32, a / 32 * 3 + b / 32]
               && var three := Step(two.0, two.1, c);
                  Finish(three.0, three.1) == [a % 32, b % 32, c % 32, a / 32 * 9 + b / 32 * 3 + c / 32]
  {
    assert [a / 32] + [b / 32] == [a / 32, b / 32] && [a / 32, b / 32] + [c / 32] == [a / 32, b / 32, c / 32];
  }

  lemma Prefixes(s: string)
    requires InCharset(s)
    ensures forall i :: 0 <= i < |s| ==> InCharset(s[..i]) && s[i] in INPUT_CHARSET
  {
    hide INPUT_CHARSET;
    forall i | 0 <= i < |s| ensures s[i] in INPUT_CHARSET { assert s[i] in s; }
  }

  lemma HighUnique(a: nat, b: nat, c: nat, d: nat, e: nat, f: nat)
    requires a < 3 && b < 3 && c < 3 && d < 3 && e < 3 && f < 3 && a * 9 + b * 3 + c == d * 9 + e * 3 + f
    ensures a == d && b == e && c == f
  {
  }

  /** The group number of the character at i, and its low five bits. */
  function High(s: string, i: nat): (g: nat)
    requires InCharset(s) && i < |s|
    ensures g < 3
  {
    At(s, i) / 32
  }

  function Low(s: string, i: nat): nat
    requires InCharset(s) && i < |s|
  {
    At(s, i) % 32
  }

  lemma CharacterUnique(s: string, t: string, i: nat)
    requires InCharset(s) && InCharset(t) && i < |s| && i < |t| && High(s, i) == High(t, i) && Low(s, i) == Low(t, i)
    ensures s[i] == t[i]
  {
    hide INPUT_CHARSET, At;
    var a, b := At(s, i), At(t, i);
    assert a == 32 * (a / 32) + a % 32 && b == 32 * (b / 32) + b % 32;
    AtUnique(s, t, i);
  }

  lemma SmallSymbols(s: string, n: nat)
    requires InCharset(s) && |s| == n && 1 <= n <= 3
    ensures Expand(s).Some?
    ensures n == 1 ==> Expand(s).value == [Low(s, 0), High(s, 0)]
    ensures n == 2 ==> Expand(s).value == [Low(s, 0), Low(s, 1), High(s, 0) * 3 + High(s, 1)]
    ensures n == 3 ==>
              Expand(s).value == [Low(s, 0), Low(s, 1), Low(s, 2), High(s, 0) * 9 + High(s, 1) * 3 + High(s, 2)]
  {
    hide INPUT_CHARSET, Expand, At, InCharset;
    ExpandSmall(s);
  }

  lemma SmallInjective(s: string, t: string)
    requires InCharset(s) && InCharset(t) && |s| == |t| <= 3 && Expand(s) == Expand(t)
    ensures s == t
  {
    hide *;
    var n := |s|;
    if n > 0 {
      SmallSymbols(s, n);
      SmallSymbols(t, n);
      var x, y := Expand(s).value, Expand(t).value;
      assert forall i :: 0 <= i <= n ==> x[i] == y[i];
      if n == 1 {
        HighUnique(0, 0, High(s, 0), 0, 0, High(t, 0));
      } else if n == 2 {
        HighUnique(0, High(s, 0), High(s, 1), 0, High(t, 0), High(t, 1));
      } else {
        HighUnique(High(s, 0), High(s, 1), High(s, 2), High(t, 0), High(t, 1), High(t, 2));
      }
      forall i | 0 <= i < n ensures s[i] == t[i] { CharacterUnique(s, t, i); }
    }
  }

  lemma ExpandNothing(s: string)
    requires s == []
    ensures Expand(s) == Some([])
  {
    ExpandingEmpty(s);
  }

  lemma ExpandLength(s: string)
    requires InCharset(s)
    ensures Expand(s).Some? && |Expand(s).value| == |s| + (|s| + 2) / 3
    decreases |s|
  {
    hide *;
    if s == [] {
      ExpandNothing(s);
    } else if |s| <= 3 {
      SmallSymbols(s, |s|);
    } else {
      Cut(s, 3);
      ExpandConcat(s[..3], s[3..]);
      ExpandLength(s[..3]);
      ExpandLength(s[3..]);
    }
  }

  lemma Cut(s: string, k: nat)
    requires InCharset(s) && k <= |s|
    ensures InCharset(s[..k]) && InCharset(s[k..]) && s == s[..k] + s[k..]
  {
    hide INPUT_CHARSET;
    forall c | c in s[..k] ensures c in s {}
    forall c | c in s[k..] ensures c in s {}
  }

  /** Strings of one length have different expansions. */
  lemma {:induction false} ExpandInjective(s: string, t: string)
    requires InCharset(s) && InCharset(t) && |s| == |t| && Expand(s) == Expand(t)
    ensures s == t
    decreases |s|
  {
    hide INPUT_CHARSET, Expand, InCharset;
    if |s| <= 3 {
      SmallInjective(s, t);
    } else {
      Cut(s, 3);
      Cut(t, 3);
      ExpandConcat(s[..3], s[3..]);
      ExpandConcat(t[..3], t[3..]);
      ExpandLength(s[..3]);
      ExpandLength(t[..3]);
      SplitEqual(Expand(s[..3]).value, Expand(s[3..]).value, Expand(t[..3]).value, Expand(t[3..]).value);
      ExpandInjective(s[..3], t[..3]);
      ExpandInjective(s[3..], t[3..]);
    }
  }

  lemma SplitEqual(a: seq<nat>, b: seq<nat>, c: seq<nat>, d: seq<nat>)
    requires a + b == c + d && |a| == |c|
    ensures a == c && b == d
  {
    assert (a + b)[..|a|] == a && (c + d)[..|c|] == c && (a + b)[|a|..] == b && (c + d)[|c|..] == d;
  }

  /** A change within two groups of three characters leaves no valid checksum valid. */
  lemma WindowDetected(p: string, a: string, b: string, q: string, sum: string)
    requires InCharset(p) && InCharset(a) && InCharset(b) && InCharset(q) && |p| % 3 == 0
    requires |a| == |b| <= 6 && a != b && (|a| % 3 == 0 || q == "")
    requires |sum| == 8 && forall c :: c in sum ==> c in Bech32.CHARSET
    ensures CheckParts(p + (a + q), Bech32.FromChars(sum)) == Accepted ==>
            CheckParts(p + (b + q), Bech32.FromChars(sum)) == Rejected
  {
    hide INPUT_CHARSET, Expand, InCharset, Bech32.CHARSET, Bech32.FromChars, CODE;
    var d := Bech32.FromChars(sum);
    WindowExpands(p, a, q);
    WindowExpands(p, b, q);
    ExpandLength(a);
    ExpandLength(b);
    if Expand(a).value == Expand(b).value { ExpandInjective(a, b); }
    SymbolsDetected(Expand(p).value, Expand(a).value, Expand(b).value, Expand(q).value, d);
  }

  lemma WindowExpands(p: string, a: string, q: string)
    requires InCharset(p) && InCharset(a) && InCharset(q) && |p| % 3 == 0 && (|a| % 3 == 0 || q == "")
    ensures Expand(p).Some? && Expand(a).Some? && Expand(q).Some?
    ensures Expand(p + (a + q)) == Some(Expand(p).value + (Expand(a).value + Expand(q).value))
  {
    hide INPUT_CHARSET, Expand, InCharset;
    if q == "" {
      assert a + q == a;
      ExpandLength(q);
      ExpandLength(a);
      assert Expand(a).value + Expand(q).value == Expand(a).value;
    } else {
      ExpandConcat(a, q);
      ConcatInCharset(a, q);
    }
    ExpandConcat(p, a + q);
  }

  lemma ConcatInCharset(a: string, q: string)
    requires InCharset(a) && InCharset(q)
    ensures InCharset(a + q)
  {
    hide INPUT_CHARSET;
  }

  lemma SymbolsDetected(p: seq<nat>, a: seq<nat>, b: seq<nat>, q: seq<nat>, d: seq<nat>)
    requires |a| == |b| <= 8 && a != b && Code.FiveBit(a) && Code.FiveBit(b)
    requires Code.FiveBit(p) && Code.FiveBit(q) && Code.FiveBit(d)
    ensures CODE.Run(1, p + (a + q) + d) != CODE.Run(1, p + (b + q) + d)
  {
    hide *;
    CodeWidth();
    CodeValid();
    Reassociated(p, a, q, d);
    Reassociated(p, b, q, d);
    BothFiveBit(q, d);
    CODE.SymbolsFit(p);
    CODE.SymbolsFit(q + d);
    CODE.BurstError(1, p, a, b, q + d);
  }

  lemma Reassociated(p: seq<nat>, a: seq<nat>, q: seq<nat>, d: seq<nat>)
    ensures p + (a + q) + d == p + a + (q + d)
  {
  }

  lemma BothFiveBit(q: seq<nat>, d: seq<nat>)
    requires Code.FiveBit(q) && Code.FiveBit(d)
    ensures Code.FiveBit(q + d)
  {
  }

  lemma Difference(s: string, t: string) returns (j: nat)
    requires |s| == |t| && s != t
    ensures j < |s| && s[j] != t[j]
  {
    j :| 0 <= j < |s| && s[j] != t[j];
  }

  lemma Windows(s: string, g: nat, e: nat)
    requires InCharset(s) && g <= e <= |s|
    ensures InCharset(s[..g]) && InCharset(s[g..e]) && InCharset(s[e..]) && s == s[..g] + (s[g..e] + s[e..])
  {
    Cut(s, g);
    Cut(s[g..], e - g);
    assert s[g..][..e - g] == s[g..e] && s[g..][e - g..] == s[e..];
  }

  lemma SameOutside(s: string, t: string, g: nat, e: nat)
    requires |s| == |t| && g <= e <= |s| && forall j :: 0 <= j < |s| && (j < g || e <= j) ==> s[j] == t[j]
    ensures s[..g] == t[..g] && s[e..] == t[e..]
  {
  }

  /** Two descriptors of one length that differ within four adjacent characters only never share a checksum. */
  lemma FourCharactersDetected(s: string, t: string, i: nat, sum: string, require: bool)
    requires InCharset(s) && InCharset(t) && |s| == |t| && s != t
    requires forall j :: 0 <= j < |s| && (j < i || i + 4 <= j) ==> s[j] == t[j]
    requires |sum| == 8 && forall c :: c in sum ==> c in Bech32.CHARSET
    ensures Check(s + "#" + sum, require) == Accepted ==> Check(t + "#" + sum, require) == Rejected
  {
    hide *;
    var j := Difference(s, t);
    var g := i / 3 * 3;
    var e := if g + 6 <= |s| then g + 6 else |s|;
    var p, a, b, q := s[..g], s[g..e], t[g..e], s[e..];
    Windows(s, g, e);
    Windows(t, g, e);
    SameOutside(s, t, g, e);
    CheckSplit(s, sum, require);
    CheckSplit(t, sum, require);
    WindowDetected(p, a, b, q, sum);
  }
}
