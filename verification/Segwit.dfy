/** Bit regrouping and segwit addresses: convertbits, encode_segwit_address, decode_segwit_address. */
module Segwit {
  import opened NumberTheory
  import opened Bytes
  import opened Checksum
  import opened Text
  import opened Bech32

  // ----- values as bit strings, most significant bit first -----

  function Bits(v: nat, w: nat): (b: seq<bool>)
    ensures |b| == w
  {
    if w == 0 then [] else Bits(v / 2, w - 1) + [v % 2 == 1]
  }

  function Value(b: seq<bool>): nat {
    if b == [] then 0 else 2 * Value(b[..|b| - 1]) + if b[|b| - 1] then 1 else 0
  }

  function AllBits(data: seq<nat>, w: nat): (b: seq<bool>) {
    if data == [] then [] else AllBits(data[..|data| - 1], w) + Bits(data[|data| - 1], w)
  }

  lemma {:induction false} AllBitsLength(data: seq<nat>, w: nat)
    requires w > 0
    ensures |AllBits(data, w)| == |data| * w && |AllBits(data, w)| % w == 0
  {
    if data != [] {
      AllBitsLength(data[..|data| - 1], w);
      assert (|data| - 1) * w + w == |data| * w;
    }
    MulMod(|data|, w);
  }

  /** Cut a bit string into groups of w bits; an incomplete last group is dropped. */
  function Groups(b: seq<bool>, w: nat): (data: seq<nat>)
    requires w > 0
    decreases |b|
  {
    if |b| < w then [] else [Value(b[..w])] + Groups(b[w..], w)
  }

  function ZeroBits(k: nat): (b: seq<bool>)
    ensures |b| == k && forall i :: 0 <= i < k ==> !b[i]
  {
    seq(k, _ => false)
  }

  predicate InRange(data: seq<int>, w: nat) {
    forall i :: 0 <= i < |data| ==> 0 <= data[i] < Pow(2, w)
  }

  /** What regrouping means: the same bits, in groups of another width.  Padding completes the last
      group with zeros; without it the bits left over must be fewer than a source group, and zero. */
  function Regroup(data: seq<int>, frombits: nat, tobits: nat, pad: bool): Option<seq<nat>>
    requires frombits > 0 && tobits > 0
  {
    if !InRange(data, frombits) then None
    else
      var b := AllBits(data, frombits);
      var left := |b| % tobits;
      if pad then Some(Groups(if left == 0 then b else b + ZeroBits(tobits - left), tobits))
      else if left >= frombits || b[|b| - left..] != ZeroBits(left) then None
      else Some(Groups(b, tobits))
  }

  lemma {:induction false} BitsValue(v: nat, w: nat)
    requires v < Pow(2, w)
    ensures Value(Bits(v, w)) == v
  {
    if w > 0 {
      BitsValue(v / 2, w - 1);
      assert Bits(v, w)[..w - 1] == Bits(v / 2, w - 1);
    }
  }

  lemma {:induction false} ValueBits(b: seq<bool>)
    ensures Value(b) < Pow(2, |b|) && Bits(Value(b), |b|) == b
  {
    if b != [] {
      var c := b[..|b| - 1];
      ValueBits(c);
      assert b == c + [b[|b| - 1]];
    }
  }

  lemma {:induction false} ValueConcat(a: seq<bool>, b: seq<bool>)
    ensures Value(a + b) == Value(a) * Pow(2, |b|) + Value(b)
  {
    if b == [] {
      assert a + b == a;
    } else {
      var c := b[..|b| - 1];
      ValueConcat(a, c);
      assert (a + b)[..|a + b| - 1] == a + c;
      ConcatStep(Value(a), Pow(2, |c|), Pow(2, |b|));
    }
  }

  lemma ConcatStep(v: int, w: int, u: int)
    requires u == 2 * w
    ensures v * u == 2 * (v * w)
  {
  }

  // ----- grouping and ungrouping -----

  lemma {:induction false} GroupsAppend(b: seq<bool>, g: seq<bool>, w: nat)
    requires w > 0 && |b| % w == 0
    ensures |g| == w ==> Groups(b + g, w) == Groups(b, w) + [Value(g)]
    ensures |g| < w ==> Groups(b + g, w) == Groups(b, w)
    decreases |b|
  {
    if |b| < w {
      ModSmall(|b|, w);
      assert b + g == g;
      if |g| == w { assert g[..w] == g && g[w..] == []; }
    } else {
      CutMultiple(|b|, w);
      GroupsAppend(b[w..], g, w);
      assert (b + g)[..w] == b[..w] && (b + g)[w..] == b[w..] + g;
    }
  }

  lemma CutMultiple(n: nat, w: nat)
    requires w > 0 && n % w == 0 && n >= w
    ensures (n - w) % w == 0
  {
    QuotientUnique(n - w, w, n / w - 1, 0);
  }

  lemma NoGroups(w: nat)
    requires w > 0
    ensures Groups(AllBits([], w), w) == []
  {
  }

  lemma LastGroup(data: seq<nat>, w: nat)
    requires InRange(data, w) && data != []
    ensures var c, v := data[..|data| - 1], data[|data| - 1];
            && data == c + [v] && InRange(c, w) && v < Pow(2, w)
            && AllBits(data, w) == AllBits(c, w) + Bits(v, w)
  {
  }

  /** Ungrouping undoes grouping ... */
  lemma {:induction false} GroupsAllBits(data: seq<nat>, w: nat)
    requires w > 0 && InRange(data, w)
    ensures Groups(AllBits(data, w), w) == data
  {
    hide *;
    if data != [] {
      var c, v := data[..|data| - 1], data[|data| - 1];
      LastGroup(data, w);
      GroupsAllBits(c, w);
      AllBitsLength(c, w);
      BitsValue(v, w);
      GroupsAppend(AllBits(c, w), Bits(v, w), w);
    } else {
      NoGroups(w);
    }
  }

  lemma {:induction false} AllBitsFirst(v: nat, data: seq<nat>, w: nat)
    ensures AllBits([v] + data, w) == Bits(v, w) + AllBits(data, w)
  {
    hide Bits;
    if data == [] {
      assert AllBits([v][..0], w) == [];
    } else {
      AllBitsFirst(v, data[..|data| - 1], w);
      assert ([v] + data)[..|data|] == [v] + data[..|data| - 1];
    }
  }

  /** ... and grouping undoes ungrouping, when no bit is left over. */
  lemma {:induction false} AllBitsGroups(b: seq<bool>, w: nat)
    requires w > 0 && |b| % w == 0
    ensures InRange(Groups(b, w), w) && AllBits(Groups(b, w), w) == b
    decreases |b|
  {
    hide Value, Bits, Pow;
    if |b| < w {
      ModSmall(|b|, w);
    } else {
      hide AllBits;
      assert Groups(b, w) == [Value(b[..w])] + Groups(b[w..], w);
      hide Groups;
      CutMultiple(|b|, w);
      AllBitsGroups(b[w..], w);
      ValueBits(b[..w]);
      AllBitsFirst(Value(b[..w]), Groups(b[w..], w), w);
      assert b == b[..w] + b[w..];
    }
  }

  // ----- the loop -----

  /** The register acc after one more source value. */
  lemma ShiftIn(acc: nat, value: nat, b: nat, f: nat, m: nat)
    requires value < Pow(2, f) && b + f <= m && Pow(2, b) > 0
    ensures Pow(2, m) > 0 && Pow(2, b + f) > 0
    ensures ((acc * Pow(2, f) + value) % Pow(2, m)) % Pow(2, b + f) == (acc % Pow(2, b)) * Pow(2, f) + value
  {
    PowMonotone(2, b + f, m);
    PowAdd(2, b, f);
    PowAdd(2, b + f, m - b - f);
    var x := acc * Pow(2, f) + value;
    ModOfMod(x, Pow(2, b + f), Pow(2, m - b - f), Pow(2, m));
    ShiftInTerms(acc, value, Pow(2, b), Pow(2, f), Pow(2, b + f));
  }

  lemma ModOfMod(x: nat, d: nat, k: nat, m: nat)
    requires d > 0 && m > 0 && m == d * k
    ensures (x % m) % d == x % d
  {
    CongMod(x, m);
    var c := CongWitness(x, x % m, m);
    assert c * m == (c * k) * d;
    CongIntro(x, x % m, c * k, d);
    CongSameMod(x, x % m, d);
  }

  lemma ShiftInTerms(acc: nat, value: nat, w: nat, v: nat, u: nat)
    requires w > 0 && u == w * v && value < v
    ensures u > 0 && (acc * v + value) % u == (acc % w) * v + value
  {
    var q, r := acc / w, acc % w;
    Scaled(acc, w, q, r, v);
    RoomBelow(r, w, v, value);
    QuotientUnique(acc * v + value, u, q, r * v + value);
  }

  lemma Scaled(acc: int, w: int, q: int, r: int, v: int)
    requires acc == w * q + r
    ensures acc * v == (w * v) * q + r * v
  {
    assert (w * q) * v == (w * v) * q;
  }

  lemma RoomBelow(r: nat, w: nat, v: nat, value: nat)
    requires r < w && value < v
    ensures 0 <= r * v + value < w * v
  {
    assert (r + 1) * v <= w * v;
  }

  /** Taking the top group out of the pending bits. */
  lemma ShiftOut(acc: nat, hi: nat, lo: nat, b: nat, t: nat)
    requires Pow(2, b + t) > 0 && Pow(2, b) > 0 && Pow(2, t) > 0
    requires acc % Pow(2, b + t) == hi * Pow(2, b) + lo && hi < Pow(2, t) && lo < Pow(2, b)
    ensures (acc / Pow(2, b)) % Pow(2, t) == hi && acc % Pow(2, b) == lo
  {
    PowAdd(2, b, t);
    ShiftOutTerms(acc, hi, lo, Pow(2, b), Pow(2, t), Pow(2, b + t));
  }

  lemma ShiftOutTerms(acc: nat, hi: nat, lo: nat, w: nat, v: nat, u: nat)
    requires w > 0 && v > 0 && u == w * v && acc % u == hi * w + lo && hi < v && lo < w
    ensures (acc / w) % v == hi && acc % w == lo
  {
    var q := acc / u;
    assert acc == w * (v * q + hi) + lo by { assert acc == u * q + (hi * w + lo); assert u * q == w * (v * q); }
    QuotientUnique(acc, w, v * q + hi, lo);
    QuotientUnique(v * q + hi, v, q, hi);
  }

  /** The bits that are still in the register: the last `bits` of all. */
  ghost predicate Pending(all: seq<bool>, ret: seq<nat>, acc: nat, bits: nat, t: nat)
    requires t > 0
  {
    && bits <= |all| && (|all| - bits) % t == 0
    && ret == Groups(all[..|all| - bits], t)
    && Pow(2, bits) > 0 && Value(all[|all| - bits..]) == acc % Pow(2, bits)
  }

  lemma PendingIn(all: seq<bool>, ret: seq<nat>, acc: nat, bits: nat, f: nat, t: nat, value: nat)
    requires t > 0 && Pending(all, ret, acc, bits, t) && value < Pow(2, f) && bits < t
    ensures Pow(2, f + t - 1) > 0
    ensures Pending(all + Bits(value, f), ret, (acc * Pow(2, f) + value) % Pow(2, f + t - 1), bits + f, t)
  {
    hide Value, Groups, Pow, Bits;
    ShiftIn(acc, value, bits, f, f + t - 1);
    BitsValue(value, f);
    var last, new_ := all[|all| - bits..], all + Bits(value, f);
    ValueConcat(last, Bits(value, f));
    assert new_[|new_| - bits - f..] == last + Bits(value, f);
    assert new_[..|new_| - bits - f] == all[..|all| - bits];
  }

  lemma PendingOut(all: seq<bool>, ret: seq<nat>, acc: nat, bits: nat, t: nat)
    requires t > 0 && Pending(all, ret, acc, bits, t) && bits >= t
    ensures Pow(2, bits - t) > 0 && Pow(2, t) > 0
    ensures Pending(all, ret + [(acc / Pow(2, bits - t)) % Pow(2, t)], acc, bits - t, t)
  {
    hide Value, Groups, Pow, Bits;
    var b := bits - t;
    PowMonotone(2, b, b);
    PowMonotone(2, t, t);
    var first, last := all[..|all| - bits], all[|all| - bits..];
    var g, r := last[..t], last[t..];
    assert last == g + r;
    ValueConcat(g, r);
    ValueBits(g);
    ValueBits(r);
    ShiftOut(acc, Value(g), Value(r), b, t);
    assert all[|all| - b..] == r;
    assert all[..|all| - b] == first + g;
    GroupsAppend(first, g, t);
    NextMultiple(|first|, t);
  }

  lemma NextMultiple(n: nat, t: nat)
    requires t > 0 && n % t == 0
    ensures (n + t) % t == 0
  {
    QuotientUnique(n + t, t, n / t + 1, 0);
  }

  lemma Leftover(n: nat, bits: nat, t: nat)
    requires t > 0 && n % t == 0 && bits < t
    ensures (n + bits) % t == bits
  {
    QuotientUnique(n + bits, t, n / t, bits);
  }

  lemma {:induction false} ZeroValue(b: seq<bool>)
    ensures Value(b) == 0 <==> b == ZeroBits(|b|)
  {
    if b != [] {
      var c := b[..|b| - 1];
      ZeroValue(c);
      assert ZeroBits(|b|)[..|c|] == ZeroBits(|c|);
      assert b == c + [b[|b| - 1]];
      if b == ZeroBits(|b|) { assert c == ZeroBits(|c|) && !b[|b| - 1]; }
    }
  }

  /** The register shifted left by t - bits and masked: the last group, completed with zeros. */
  lemma PendingPad(all: seq<bool>, ret: seq<nat>, acc: nat, bits: nat, t: nat)
    requires t > 0 && Pending(all, ret, acc, bits, t) && bits < t
    ensures Pow(2, t) > 0 && bits == |all| % t
    ensures var last, x := all[|all| - bits..], (acc * Pow(2, t - bits)) % Pow(2, t);
            && (x == 0 <==> last == ZeroBits(bits))
            && Groups(all, t) == ret
            && Groups(all + ZeroBits(t - bits), t) == ret + [x]
  {
    hide Value, Groups, Pow, Bits;
    var k := t - bits;
    var last, first, z := all[|all| - bits..], all[..|all| - bits], ZeroBits(k);
    assert all == first + last;
    PowMonotone(2, k, k);
    ShiftIn(acc, 0, bits, k, t);
    ModSmall((acc * Pow(2, k)) % Pow(2, t), Pow(2, t));
    ZeroValue(last);
    ZeroValue(z);
    ValueConcat(last, z);
    GroupsAppend(first, last, t);
    GroupsAppend(first, last + z, t);
    assert all + z == first + (last + z);
    Leftover(|first|, bits, t);
  }

  /** all is the bit string of the first k values, each of which is in range. */
  ghost predicate Consumed(data: seq<int>, k: nat, f: nat, all: seq<bool>) {
    k <= |data| && InRange(data[..k], f) && all == AllBits(data[..k], f)
  }

  lemma Consume(data: seq<int>, k: nat, f: nat, all: seq<bool>)
    requires Consumed(data, k, f, all) && k < |data| && 0 <= data[k] < Pow(2, f)
    ensures Consumed(data, k + 1, f, all + Bits(data[k], f))
  {
    hide Pow, Bits;
    assert data[..k + 1][..k] == data[..k];
  }

  lemma OutOfRange(data: seq<int>, k: nat, f: nat, t: nat, pad: bool)
    requires f > 0 && t > 0 && k < |data| && !(0 <= data[k] < Pow(2, f))
    ensures Regroup(data, f, t, pad) == None
  {
    hide Pow;
  }

  lemma Finished(data: seq<int>, f: nat, t: nat, all: seq<bool>, ret: seq<nat>, acc: nat, bits: nat)
    requires f > 0 && t > 0 && Consumed(data, |data|, f, all) && Pending(all, ret, acc, bits, t) && bits < t
    ensures Pow(2, t) > 0
    ensures var x := (acc * Pow(2, t - bits)) % Pow(2, t);
            && Regroup(data, f, t, true) == Some(if bits == 0 then ret else ret + [x])
            && Regroup(data, f, t, false) == if bits >= f || x != 0 then None else Some(ret)
  {
    hide Pow, Bits, Groups, AllBits, InRange, Pending;
    assert data[..|data|] == data;
    PendingPad(all, ret, acc, bits, t);
  }

  method ConvertBits(data: seq<int>, frombits: nat, tobits: nat, pad: bool) returns (r: Option<seq<nat>>)
    requires frombits > 0 && tobits > 0
    ensures r == Regroup(data, frombits, tobits, pad)
  {
    hide *;
    var acc: nat, bits: nat, ret: seq<nat> := 0, 0, [];
    PowMonotone(2, tobits, tobits);
    PowMonotone(2, frombits + tobits - 1, frombits + tobits - 1);
    var modulus := Pow(2, tobits);
    var accModulus := Pow(2, frombits + tobits - 1);
    ghost var all: seq<bool> := [];
    PendingStart(tobits);
    NothingConsumed(data, frombits);
    for k := 0 to |data|
      invariant Consumed(data, k, frombits, all)
      invariant bits < tobits && Pending(all, ret, acc, bits, tobits)
    {
      var value := data[k];
      if value < 0 || value >= Pow(2, frombits) {
        OutOfRange(data, k, frombits, tobits, pad);
        return None;
      }
      Consume(data, k, frombits, all);
      PendingIn(all, ret, acc, bits, frombits, tobits, value);
      acc := (acc * Pow(2, frombits) + value) % accModulus;
      bits := bits + frombits;
      all := all + Bits(value, frombits);
      while bits >= tobits
        invariant Pending(all, ret, acc, bits, tobits)
      {
        PendingOut(all, ret, acc, bits, tobits);
        bits := bits - tobits;
        ret := ret + [(acc / Pow(2, bits)) % modulus];
      }
    }
    Finished(data, frombits, tobits, all, ret, acc, bits);
    if pad {
      if bits != 0 {
        ret := ret + [(acc * Pow(2, tobits - bits)) % modulus];
      }
    } else if bits >= frombits || (acc * Pow(2, tobits - bits)) % modulus != 0 {
      return None;
    }
    return Some(ret);
  }

  lemma NothingConsumed(data: seq<int>, f: nat)
    ensures Consumed(data, 0, f, [])
  {
  }

  lemma PendingStart(t: nat)
    requires t > 0
    ensures Pending([], [], 0, 0, t)
  {
    assert Pow(2, 0) == 1;
    ModSmall(0, t);
  }

  // ----- round trips of the regrouping -----

  /** The zeros that padding adds. */
  function PadLength(n: nat, frombits: nat, tobits: nat): (p: nat)
    requires tobits > 0
    ensures p < tobits
  {
    var left := (n * frombits) % tobits;
    if left == 0 then 0 else tobits - left
  }

  lemma Padded(n: nat, f: nat, t: nat)
    requires t > 0
    ensures (n * f + PadLength(n, f, t)) % t == 0
  {
    PadsUp(n * f, t);
  }

  lemma PadsUp(m: nat, t: nat)
    requires t > 0
    ensures (m + if m % t == 0 then 0 else t - m % t) % t == 0
  {
    var q, r := m / t, m % t;
    assert m == t * q + r;
    if r != 0 {
      assert t * (q + 1) == t * q + t;
      hide *;
      QuotientUnique(m + (t - r), t, q + 1, 0);
    }
  }

  lemma RegroupPadded(data: seq<int>, f: nat, t: nat)
    requires f > 0 && t > 0 && InRange(data, f)
    ensures var r := Regroup(data, f, t, true);
            && r.Some? && InRange(r.value, t)
            && AllBits(r.value, t) == AllBits(data, f) + ZeroBits(PadLength(|data|, f, t))
  {
    var b, z := AllBits(data, f), ZeroBits(PadLength(|data|, f, t));
    hide Groups, AllBits, InRange;
    AllBitsLength(data, f);
    Padded(|data|, f, t);
    assert b + ZeroBits(0) == b;
    AllBitsGroups(b + z, t);
  }

  /** Regrouping with padding is undone by regrouping back without it exactly when fewer zeros were
      added than a source group holds. */
  lemma RegroupRoundTrip(data: seq<int>, f: nat, t: nat)
    requires f > 0 && t > 0 && InRange(data, f)
    ensures var r := Regroup(data, f, t, true);
            && r.Some? && |r.value| * t == |data| * f + PadLength(|data|, f, t)
            && (Regroup(r.value, t, f, false) == Some(data) <==> PadLength(|data|, f, t) < f)
  {
    hide Regroup, Groups, AllBits, PadLength, Pow;
    RegroupPadded(data, f, t);
    var r, p := Regroup(data, f, t, true).value, PadLength(|data|, f, t);
    var b := AllBits(data, f);
    AllBitsLength(data, f);
    AllBitsLength(r, t);
    GroupsAllBits(data, f);
    BackTo(r, b, p, f, t);
  }

  lemma BackTo(r: seq<nat>, b: seq<bool>, p: nat, f: nat, t: nat)
    requires f > 0 && t > 0 && InRange(r, t) && AllBits(r, t) == b + ZeroBits(p) && |b| % f == 0 && p < t
    ensures Regroup(r, t, f, false) == Some(Groups(b, f)) <==> p < f
  {
    hide Groups, AllBits, InRange, Pow;
    var z := ZeroBits(p);
    if p < f {
      Leftover(|b|, p, f);
      assert (b + z)[|b + z| - p..] == z;
      GroupsAppend(b, z, f);
    } else {
      LongGroups(b, z, f);
    }
  }

  lemma LongGroups(b: seq<bool>, z: seq<bool>, f: nat)
    requires f > 0 && |b| % f == 0 && |z| >= f
    ensures Groups(b + z, f) != Groups(b, f)
  {
    GroupsLength(b, f);
    GroupsLength(b + z, f);
    QuotientGap(|b|, |b + z|, f);
  }

  lemma {:induction false} GroupsLength(b: seq<bool>, w: nat)
    requires w > 0
    ensures |Groups(b, w)| == |b| / w
    decreases |b|
  {
    if |b| < w {
      QuotientUnique(|b|, w, 0, |b|);
    } else {
      GroupsLength(b[w..], w);
      QuotientUnique(|b|, w, (|b| - w) / w + 1, (|b| - w) % w);
    }
  }

  lemma QuotientGap(m: nat, n: nat, w: nat)
    requires w > 0 && m % w == 0 && n >= m + w
    ensures n / w > m / w
  {
    var q := n / w - m / w;
    assert n == w * (n / w) + n % w && m == w * (m / w);
    assert q * w == n - n % w - m;
    MulGap(q, w);
  }

  /** The other way round: what regroups without padding came from padding. */
  lemma RegroupBack(r: seq<nat>, data: seq<nat>, t: nat, f: nat)
    requires f > 0 && t > 0 && InRange(r, t) && Regroup(r, t, f, false) == Some(data)
    ensures InRange(data, f) && Regroup(data, f, t, true) == Some(r)
  {
    hide AllBits, Groups, InRange, ZeroBits;
    var c := AllBits(r, t);
    DropRemainder(|c|, f);
    var left := |c| % f;
    var b := c[..|c| - left];
    assert c[|c| - left..] == ZeroBits(left) && data == Groups(c, f) && left < t;
    AllBitsLength(r, t);
    hide *;
    assert c == b + ZeroBits(left);
    BackFrom(r, b, left, data, t, f);
  }

  lemma DropRemainder(n: nat, f: nat)
    requires f > 0
    ensures n % f <= n && n % f < f && (n - n % f) % f == 0
  {
    QuotientUnique(n - n % f, f, n / f, 0);
  }

  lemma BackFrom(r: seq<nat>, b: seq<bool>, left: nat, data: seq<nat>, t: nat, f: nat)
    requires f > 0 && t > 0 && InRange(r, t) && AllBits(r, t) == b + ZeroBits(left)
             && data == Groups(b + ZeroBits(left), f)
    requires |b| % f == 0 && left < f && left < t && (|b| + left) % t == 0
    ensures InRange(data, f) && Regroup(data, f, t, true) == Some(r)
  {
    hide *;
    GroupsAppend(b, ZeroBits(left), f);
    AllBitsGroups(b, f);
    GroupsAllBits(r, t);
    LeftoverComplement(|b|, left, t);
    PadWith(data, b, left, f, t);
  }

  lemma PadWith(data: seq<nat>, b: seq<bool>, left: nat, f: nat, t: nat)
    requires f > 0 && t > 0 && InRange(data, f) && AllBits(data, f) == b
    requires left == if |b| % t == 0 then 0 else t - |b| % t
    ensures Regroup(data, f, t, true) == Some(Groups(b + ZeroBits(left), t))
  {
    hide Groups, AllBits, InRange;
    assert b + ZeroBits(0) == b;
  }

  lemma LeftoverComplement(n: nat, left: nat, t: nat)
    requires t > 0 && left < t && (n + left) % t == 0
    ensures left == if n % t == 0 then 0 else t - n % t
  {
    var r := n % t;
    SumMod(n, left, t);
    ModSmall(left, t);
    if r + left < t {
      ModSmall(r + left, t);
    } else {
      QuotientUnique(r + left, t, 1, r + left - t);
    }
  }

  // ----- addresses -----

  function DecodeAddress(hrp: string, addr: string): Option<(nat, seq<nat>)> {
    match Decode(addr)
    case None => None
    case Some((encoding, hrpgot, data)) =>
      if hrpgot != hrp then None
      else
        match Regroup(if data == [] then [] else data[1..], 5, 8, false)
        case None => None
        case Some(decoded) =>
          if |decoded| < 2 || |decoded| > 40 then None
          else if data == [] then None
          else if data[0] > 16 then None
          else if data[0] == 0 && |decoded| != 20 && |decoded| != 32 then None
          else if (data[0] == 0) != (encoding == BECH32) then None
          else Some((data[0], decoded))
  }

  /** Encode, then check by decoding.  A program that is not made of bytes, or a version without a
      symbol, raises. */
  function EncodeAddress(hrp: string, witver: nat, witprog: seq<int>): Option<Option<string>> {
    match Regroup(witprog, 8, 5, true)
    case None => None
    case Some(r) =>
      if witver >= 32 then None
      else
        RegroupFive(witprog);
        var ret := Encode(if witver == 0 then BECH32 else BECH32M, hrp, [witver] + r);
        Some(if DecodeAddress(hrp, ret).None? then None else Some(ret))
  }

  lemma RegroupFive(witprog: seq<int>)
    ensures Regroup(witprog, 8, 5, true).Some? ==> Code.FiveBit(Regroup(witprog, 8, 5, true).value)
  {
    if InRange(witprog, 8) { RegroupPadded(witprog, 8, 5); }
    assert Pow(2, 5) == 32;
  }

  /** The witness programs that have an address. */
  predicate ValidProgram(witver: nat, n: nat) {
    witver <= 16 && 2 <= n <= 40 && (witver == 0 ==> n == 20 || n == 32)
  }

  /** The length of the address: separator, version, groups of the program, checksum. */
  function AddressLength(hrp: string, n: nat): nat {
    |hrp| + 8 + (n * 8 + PadLength(n, 8, 5)) / 5
  }

  lemma DecodeOwn(hrp: string, witver: nat, witprog: seq<int>)
    requires InRange(witprog, 8) && witver < 32
    ensures var r := Regroup(witprog, 8, 5, true);
            && r.Some? && Code.FiveBit([witver] + r.value)
            && var addr := Encode(if witver == 0 then BECH32 else BECH32M, hrp, [witver] + r.value);
               var good := GoodHrp(hrp) && ValidProgram(witver, |witprog|) && AddressLength(hrp, |witprog|) <= 90;
               && (good ==> DecodeAddress(hrp, addr) == Some((witver, witprog)))
               && (!good ==> DecodeAddress(hrp, addr) == None)
  {
    hide InRange, Regroup, Encode, Decode, GoodHrp, PadLength;
    RegroupFive(witprog);
    RegroupRoundTrip(witprog, 8, 5);
    var r := Regroup(witprog, 8, 5, true).value;
    var e := if witver == 0 then BECH32 else BECH32M;
    QuotientUnique(|r| * 5, 5, |r|, 0);
    DecodeEncoded(e, hrp, [witver] + r);
    assert ([witver] + r)[1..] == r;
  }

  lemma RegroupedIff(witprog: seq<int>)
    ensures Regroup(witprog, 8, 5, true).Some? <==> InRange(witprog, 8)
  {
  }

  /** encode_segwit_address raises exactly for versions without a symbol and programs that are not bytes;
      otherwise it returns an address exactly for a good human-readable part and a valid program within 90
      characters, and decode_segwit_address gives the program back. */
  lemma AddressRoundTrip(hrp: string, witver: nat, witprog: seq<int>)
    ensures var r := EncodeAddress(hrp, witver, witprog);
            && (r.Some? <==> witver < 32 && InRange(witprog, 8))
            && (r.Some? ==>
                && (r.value.Some? <==>
                    GoodHrp(hrp) && ValidProgram(witver, |witprog|) && AddressLength(hrp, |witprog|) <= 90)
                && (r.value.Some? ==> DecodeAddress(hrp, r.value.value) == Some((witver, witprog))))
  {
    hide DecodeAddress, Encode, GoodHrp, ValidProgram, AddressLength, Regroup, InRange;
    RegroupedIff(witprog);
    if witver < 32 && InRange(witprog, 8) { DecodeOwn(hrp, witver, witprog); }
  }

  /** A string that decodes is, up to case, the one address of its program. */
  lemma AddressCanonical(hrp: string, addr: string, witver: nat, witprog: seq<nat>)
    requires DecodeAddress(hrp, addr) == Some((witver, witprog))
    ensures EncodeAddress(hrp, witver, witprog) == Some(Some(Lower(addr)))
  {
    hide DecodeAddress, Regroup, Encode, Decode, GoodHrp, PadLength, Lower, InRange;
    var e, data := Decoded(hrp, addr, witver, witprog);
    var r := data[1..];
    DecodeCanonical(addr, e, hrp, data);
    FiveBitInRange(r);
    RegroupBack(r, witprog, 5, 8);
    RegroupRoundTrip(witprog, 8, 5);
    QuotientUnique(|r| * 5, 5, |r|, 0);
    DecodedHrp(addr, e, hrp, data);
    DecodeOwn(hrp, witver, witprog);
  }

  /** What decodes, exactly: the lower-case and the upper-case spelling of the address of a program. */
  lemma AddressIff(hrp: string, addr: string, witver: nat, witprog: seq<nat>)
    ensures DecodeAddress(hrp, addr) == Some((witver, witprog))
       <==> exists a :: EncodeAddress(hrp, witver, witprog) == Some(Some(a)) && (addr == a || addr == Upper(a))
  {
    hide *;
    if DecodeAddress(hrp, addr) == Some((witver, witprog)) {
      AddressCanonical(hrp, addr, witver, witprog);
      OneCase(hrp, addr, witver, witprog);
    }
    if a :| EncodeAddress(hrp, witver, witprog) == Some(Some(a)) && (addr == a || addr == Upper(a)) {
      AddressRoundTrip(hrp, witver, witprog);
      UpperSame(hrp, a, witver, witprog);
    }
  }

  lemma OneCase(hrp: string, addr: string, witver: nat, witprog: seq<nat>)
    requires DecodeAddress(hrp, addr) == Some((witver, witprog))
    ensures addr == Lower(addr) || addr == Upper(Lower(addr))
  {
    hide Regroup, Decode, Lower, Upper;
    DecodeCase(addr);
    CaseStrings(addr);
  }

  lemma UpperSame(hrp: string, a: string, witver: nat, witprog: seq<nat>)
    requires DecodeAddress(hrp, a) == Some((witver, witprog))
    ensures DecodeAddress(hrp, Upper(a)) == Some((witver, witprog))
  {
    hide Regroup, Decode, Lower, Upper;
    DecodeCase(a);
    DecodeCase(Upper(a));
    CaseStrings(a);
  }

  lemma FiveBitInRange(r: seq<nat>)
    requires Code.FiveBit(r)
    ensures InRange(r, 5)
  {
    assert Pow(2, 5) == 32;
  }

  lemma Decoded(hrp: string, addr: string, witver: nat, witprog: seq<nat>) returns (e: Encoding, data: seq<nat>)
    requires DecodeAddress(hrp, addr) == Some((witver, witprog))
    ensures Decode(addr) == Some((e, hrp, data)) && data != [] && data == [witver] + data[1..]
    ensures Regroup(data[1..], 5, 8, false) == Some(witprog)
    ensures ValidProgram(witver, |witprog|) && e == if witver == 0 then BECH32 else BECH32M
  {
    hide Regroup, Decode;
    var t := Decode(addr).value;
    e, data := t.0, t.2;
  }
}
