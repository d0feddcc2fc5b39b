/** Byte strings and Python's int.from_bytes / int.to_bytes in both byte orders. */
module Bytes {
  import opened NumberTheory

  type byte = x: int | 0 <= x < 256
  type Bytes = seq<byte>
  type Bytes32 = b: Bytes | |b| == 32 witness seq(32, _ => 0)

  datatype Option<+T> = None | Some(value: T)

  // ----- most significant byte first -----

  function FromBE(b: Bytes): nat {
    if b == [] then 0 else FromBE(b[..|b| - 1]) * 256 + b[|b| - 1]
  }

  function ToBE(n: nat, len: nat): (b: Bytes)
    requires n < Pow(256, len)
    ensures |b| == len
  {
    if len == 0 then [] else ToBE(n / 256, len - 1) + [n % 256]
  }

  lemma {:induction false} BERoundTrip(n: nat, len: nat)
    requires n < Pow(256, len)
    ensures FromBE(ToBE(n, len)) == n
  {
    if len > 0 {
      BERoundTrip(n / 256, len - 1);
      assert ToBE(n, len)[..len - 1] == ToBE(n / 256, len - 1);
    }
  }

  lemma {:induction false} BEBytesRoundTrip(b: Bytes)
    ensures FromBE(b) < Pow(256, |b|)
    ensures ToBE(FromBE(b), |b|) == b
  {
    if b != [] {
      var c := b[..|b| - 1];
      BEBytesRoundTrip(c);
      assert FromBE(b) / 256 == FromBE(c) && FromBE(b) % 256 == b[|b| - 1];
      assert b == c + [b[|b| - 1]];
    }
  }

  lemma {:induction false} BEConcat(a: Bytes, b: Bytes)
    ensures FromBE(a + b) == FromBE(a) * Pow(256, |b|) + FromBE(b)
  {
    if b == [] {
      assert a + b == a;
    } else {
      var c := b[..|b| - 1];
      BEConcat(a, c);
      assert (a + b)[..|a + b| - 1] == a + c;
      assert Pow(256, |b|) == 256 * Pow(256, |c|);
      assert (FromBE(a) * Pow(256, |c|) + FromBE(c)) * 256 == FromBE(a) * (256 * Pow(256, |c|)) + FromBE(c) * 256;
    }
  }

  // ----- least significant byte first -----

  function FromLE(b: Bytes): nat {
    if b == [] then 0 else b[0] + 256 * FromLE(b[1..])
  }

  function ToLE(n: nat, len: nat): (b: Bytes)
    requires n < Pow(256, len)
    ensures |b| == len
  {
    if len == 0 then [] else [n % 256] + ToLE(n / 256, len - 1)
  }

  lemma {:induction false} LERoundTrip(n: nat, len: nat)
    requires n < Pow(256, len)
    ensures FromLE(ToLE(n, len)) == n
  {
    if len > 0 {
      LERoundTrip(n / 256, len - 1);
      assert ToLE(n, len)[1..] == ToLE(n / 256, len - 1);
    }
  }

  lemma {:induction false} LEBound(b: Bytes)
    ensures FromLE(b) < Pow(256, |b|)
  {
    if b != [] { LEBound(b[1..]); }
  }

  lemma {:induction false} LEBytesRoundTrip(b: Bytes)
    ensures FromLE(b) < Pow(256, |b|)
    ensures ToLE(FromLE(b), |b|) == b
  {
    LEBound(b);
    if b != [] {
      LEBytesRoundTrip(b[1..]);
      assert FromLE(b) / 256 == FromLE(b[1..]) && FromLE(b) % 256 == b[0];
      assert b == [b[0]] + b[1..];
    }
  }

  // ----- sizes -----

  lemma {:induction false} PowMonotone(base: nat, a: nat, b: nat)
    requires base > 0 && a <= b
    ensures 0 < Pow(base, a) <= Pow(base, b)
    decreases b
  {
    if a < b {
      PowMonotone(base, a, b - 1);
      assert base * Pow(base, b - 1) >= Pow(base, b - 1);
    } else if a > 0 {
      PowMonotone(base, a - 1, a - 1);
    }
  }

  /** int.bit_length for naturals. */
  function BitLength(n: nat): (k: nat) {
    if n == 0 then 0 else 1 + BitLength(n / 2)
  }

  lemma {:induction false} BitLengthBounds(n: nat)
    ensures n < Pow(2, BitLength(n))
    ensures n > 0 ==> BitLength(n) > 0 && Pow(2, BitLength(n) - 1) <= n
  {
    if n > 0 { BitLengthBounds(n / 2); }
  }

  lemma {:induction false} Pow256(k: nat)
    ensures Pow(256, k) == Pow(2, 8 * k)
  {
    if k > 0 {
      Pow256(k - 1);
      PowAdd(2, 8, 8 * (k - 1));
      assert Pow(2, 8) == 256;
    }
  }

  lemma Two256()
    ensures Pow(256, 32) == 0x1_0000000000000000000000000000000000000000000000000000000000000000
    ensures Pow(2, 256) == Pow(256, 32)
  {
    Pow256(32);
    assert Pow(256, 4) == 0x1_00000000;
    PowAdd(256, 4, 4);
    PowAdd(256, 8, 8);
    PowAdd(256, 16, 16);
  }
}
