/** Wire formats of messages.py: compact sizes, strings, vectors and transactions. */
module Messages {
  import opened NumberTheory
  import opened Bytes

  const U32 := 0x1_0000_0000
  const U64 := 0x1_0000_0000_0000_0000
  const I63 := 0x8000_0000_0000_0000

  // The ranges struct.pack and to_bytes accept; other values make them raise.
  type u32 = x: int | 0 <= x < U32
  type i32 = x: int | -0x8000_0000 <= x < 0x8000_0000
  type u64 = x: int | 0 <= x < U64
  type i64 = x: int | -0x8000_0000_0000_0000 <= x < 0x8000_0000_0000_0000
  type u256 = x: int | 0 <= x < 0x1_0000000000000000000000000000000000000000000000000000000000000000
  /** The lengths a bytes object can have. */
  type Str = b: Bytes | |b| < I63
  type Vec<T> = s: seq<T> | |s| < U64

  datatype OutPoint = OutPoint(hash: u256, n: u32)
  datatype TxIn = TxIn(prevout: OutPoint, scriptSig: Str, nSequence: u32)
  datatype TxOut = TxOut(nValue: i64, scriptPubKey: Str)
  type Stack = Vec<Str>
  datatype Tx = Tx(nVersion: i32, vin: Vec<TxIn>, vout: Vec<TxOut>, wit: seq<Stack>, nLockTime: u32)

  // ----- fixed-width fields -----

  lemma Places()
    ensures Pow(256, 1) == 0x100 && Pow(256, 2) == 0x1_0000 && Pow(256, 4) == U32 && Pow(256, 8) == U64
  {
    assert Pow(256, 1) == 256 * Pow(256, 0);
    PowAdd(256, 1, 1);
    PowAdd(256, 2, 2);
    PowAdd(256, 4, 4);
  }

  function PackU32(n: u32): (b: Bytes)
    ensures |b| == 4
  {
    Places();
    ToLE(n, 4)
  }

  function PackI32(n: i32): (b: Bytes)
    ensures |b| == 4
  {
    PackU32(if n < 0 then n + U32 else n)
  }

  function PackU64(n: u64): (b: Bytes)
    ensures |b| == 8
  {
    Places();
    ToLE(n, 8)
  }

  function PackI64(n: i64): (b: Bytes)
    ensures |b| == 8
  {
    PackU64(if n < 0 then n + U64 else n)
  }

  function PackU256(n: u256): (b: Bytes)
    ensures |b| == 32
  {
    Two256();
    ToLE(n, 32)
  }

  /** A value read from the front of a stream and what is left of it; None where reading raises. */
  type Parsed<+T> = Option<(T, Bytes)>

  /** The bytes f.read(n) returns: fewer than n at the end of the stream, without an error. */
  function Taken(t: Bytes, n: nat): nat {
    if n <= |t| then n else |t|
  }

  /** struct.unpack of f.read(k) as an unsigned number; it raises on a short read. */
  function Unpack(t: Bytes, k: nat): (r: Parsed<nat>)
  {
    if |t| < k then None else Some((FromLE(t[..k]), t[k..]))
  }

  function UnpackU32(t: Bytes): Parsed<u32> {
    match Unpack(t, 4)
    case None => None
    case Some((n, r)) => UnpackBound(t, 4); Some((n, r))
  }

  function UnpackI32(t: Bytes): Parsed<i32> {
    match UnpackU32(t)
    case None => None
    case Some((n, r)) => Some((if n >= 0x8000_0000 then n - U32 else n, r))
  }

  function UnpackI64(t: Bytes): Parsed<i64> {
    match Unpack(t, 8)
    case None => None
    case Some((n, r)) => UnpackBound(t, 8); Some((if n >= 0x8000_0000_0000_0000 then n - U64 else n, r))
  }

  /** deser_uint256: int.from_bytes of f.read(32), which takes a short read as it is. */
  function UnpackU256(t: Bytes): Parsed<u256> {
    var k := Taken(t, 32);
    LEBound(t[..k]);
    PowMonotone(256, k, 32);
    Two256();
    Some((FromLE(t[..k]), t[k..]))
  }

  lemma UnpackBound(t: Bytes, k: nat)
    requires Unpack(t, k).Some?
    ensures Unpack(t, k).value.0 < Pow(256, k)
    ensures Pow(256, 4) == U32 && Pow(256, 8) == U64
  {
    LEBound(t[..k]);
    Places();
  }

  lemma Split(a: Bytes, rest: Bytes)
    ensures (a + rest)[..|a|] == a && (a + rest)[|a|..] == rest
  {
  }

  lemma UnpackPacked(n: nat, k: nat, rest: Bytes)
    requires n < Pow(256, k)
    ensures Unpack(ToLE(n, k) + rest, k) == Some((n, rest))
  {
    hide FromLE, ToLE, Pow;
    LERoundTrip(n, k);
    Split(ToLE(n, k), rest);
  }

  lemma U32Trip(n: u32, rest: Bytes)
    ensures UnpackU32(PackU32(n) + rest) == Some((n, rest))
  {
    hide FromLE, ToLE, Pow, Unpack;
    Places();
    UnpackPacked(n, 4, rest);
  }

  lemma I32Trip(n: i32, rest: Bytes)
    ensures UnpackI32(PackI32(n) + rest) == Some((n, rest))
  {
    hide UnpackU32, PackU32;
    U32Trip(if n < 0 then n + U32 else n, rest);
  }

  lemma I64Trip(n: i64, rest: Bytes)
    ensures UnpackI64(PackI64(n) + rest) == Some((n, rest))
  {
    hide FromLE, ToLE, Pow, Unpack;
    Places();
    UnpackPacked(if n < 0 then n + U64 else n, 8, rest);
  }

  lemma U256Trip(n: u256, rest: Bytes)
    ensures UnpackU256(PackU256(n) + rest) == Some((n, rest))
  {
    hide FromLE, ToLE, Pow;
    Two256();
    LERoundTrip(n, 32);
    Split(ToLE(n, 32), rest);
  }

  // ----- compact sizes -----

  function SerCompactSize(l: u64): (b: Bytes)
    ensures b != []
  {
    Places();
    if l < 253 then [l]
    else if l < 0x1_0000 then [253] + ToLE(l, 2)
    else if l < U32 then [254] + ToLE(l, 4)
    else [255] + ToLE(l, 8)
  }

  /** Bytes after the first one. */
  function SizeBytes(first: byte): nat {
    if first == 253 then 2 else if first == 254 then 4 else if first == 255 then 8 else 0
  }

  function DeserCompactSize(t: Bytes): Parsed<u64> {
    if t == [] then None
    else if t[0] < 253 then Some((t[0], t[1..]))
    else
      match Unpack(t[1..], SizeBytes(t[0]))
      case None => None
      case Some((n, r)) => SizeBound(t[1..], SizeBytes(t[0])); Some((n, r))
  }

  lemma SizeBound(t: Bytes, k: nat)
    requires k <= 8 && Unpack(t, k).Some?
    ensures Unpack(t, k).value.0 < U64
  {
    LEBound(t[..k]);
    PowMonotone(256, k, 8);
    Places();
  }

  /** The length class of a compact size. */
  function Width(l: u64): nat {
    if l < 253 then 0 else if l < 0x1_0000 then 2 else if l < U32 then 4 else 8
  }

  function Marker(k: nat): byte {
    if k == 2 then 253 else if k == 4 then 254 else 255
  }

  lemma SerShape(l: u64)
    ensures |SerCompactSize(l)| == 1 + Width(l)
    ensures l < 253 ==> SerCompactSize(l) == [l]
    ensures l >= 253 ==> l < Pow(256, Width(l)) && SerCompactSize(l) == [Marker(Width(l))] + ToLE(l, Width(l))
  {
    hide ToLE, Pow;
    Places();
  }

  lemma CompactSizeTrip(l: u64, rest: Bytes)
    ensures DeserCompactSize(SerCompactSize(l) + rest) == Some((l, rest))
  {
    hide FromLE, ToLE, Pow, Unpack, SerCompactSize;
    SerShape(l);
    var t := SerCompactSize(l) + rest;
    if l < 253 {
      assert t[1..] == rest;
    } else {
      assert t[1..] == ToLE(l, Width(l)) + rest;
      UnpackPacked(l, Width(l), rest);
    }
  }

  /** A compact size takes at least the bytes ser_compact_size would write. */
  lemma CompactSizeShortest(t: Bytes)
    requires DeserCompactSize(t).Some?
    ensures var (l, rest) := DeserCompactSize(t).value; |t| - |rest| >= |SerCompactSize(l)|
  {
    hide FromLE, ToLE, Pow;
    var (l, rest) := DeserCompactSize(t).value;
    SerShape(l);
    Places();
    var k := SizeBytes(t[0]);
    if k > 0 { LEBound(t[1..][..k]); }
  }

  // ----- strings -----

  function SerString(s: Str): Bytes {
    SerCompactSize(|s|) + s
  }

  /** f.read raises for a length that is not a signed 64-bit number, before reading anything. */
  function DeserString(t: Bytes): Parsed<Str> {
    match DeserCompactSize(t)
    case None => None
    case Some((nit, r)) => if nit >= I63 then None else Some((r[..Taken(r, nit)], r[Taken(r, nit)..]))
  }

  lemma StringTrip(s: Str, rest: Bytes)
    ensures DeserString(SerString(s) + rest) == Some((s, rest))
  {
    hide SerCompactSize, DeserCompactSize;
    assert SerString(s) + rest == SerCompactSize(|s|) + (s + rest);
    CompactSizeTrip(|s|, s + rest);
    Split(s, rest);
  }

  /** A string cut off by the end of the stream is returned without an error, unless a length of 2^63
      or more is announced: otherwise the announced length is met exactly when the stream still holds that
      many bytes. */
  lemma ShortString(t: Bytes)
    ensures DeserString(t).Some? <==> DeserCompactSize(t).Some? && DeserCompactSize(t).value.0 < I63
    ensures DeserString(t).Some? ==>
            var (nit, r) := DeserCompactSize(t).value;
            && (|DeserString(t).value.0| == nit <==> nit <= |r|)
            && (nit > |r| ==> DeserString(t) == Some((r, [])))
  {
    hide DeserCompactSize;
    if DeserString(t).Some? {
      var r := DeserCompactSize(t).value.1;
      assert r[..|r|] == r && r[|r|..] == [];
    }
  }

  /** Both kinds of length exist: one byte announcing a byte that is missing, and nine bytes of 0xff. */
  lemma LengthWitnesses()
    ensures DeserString([1]) == Some(([], []))
    ensures DeserString([255, 255, 255, 255, 255, 255, 255, 255, 255]) == None
  {
    hide *;
    OneMissing();
    var u: Bytes := [255, 255, 255, 255, 255, 255, 255, 255];
    assert [255] + u == [255, 255, 255, 255, 255, 255, 255, 255, 255];
    EightOnes(u);
  }

  lemma EightOnes(u: Bytes)
    requires |u| == 8 && forall i :: 0 <= i < 8 ==> u[i] == 255
    ensures DeserString([255] + u) == None
  {
    hide Pow, FromLE, Unpack, DeserCompactSize;
    AllOnes(u, 8);
    Places();
    AnnouncedBy(u);
  }

  lemma AnnouncedBy(u: Bytes)
    requires |u| == 8
    ensures DeserCompactSize([255] + u).Some? && DeserCompactSize([255] + u).value.0 == FromLE(u)
  {
    hide Pow, FromLE;
    var v := [255 as byte] + u;
    assert v[1..] == u && u[..8] == u;
  }

  lemma OneMissing()
    ensures DeserString([1]) == Some(([], []))
  {
    var t: Bytes := [1];
    assert t[1..] == [];
  }

  lemma {:induction false} AllOnes(b: Bytes, k: nat)
    requires |b| == k && forall i :: 0 <= i < k ==> b[i] == 255
    ensures FromLE(b) == Pow(256, k) - 1
  {
    if k > 0 { AllOnes(b[1..], k - 1); }
  }

  lemma StringShortest(t: Bytes)
    requires DeserString(t).Some?
    ensures var (s, rest) := DeserString(t).value; |t| - |rest| >= |SerString(s)|
  {
    hide DeserCompactSize, SerCompactSize;
    var (nit, r) := DeserCompactSize(t).value;
    CompactSizeShortest(t);
    var s := DeserString(t).value.0;
    SerShape(nit);
    SerShape(|s|);
  }

  // ----- vectors -----

  function SerEach<T>(l: seq<T>, ser: T -> Bytes): Bytes {
    if l == [] then [] else ser(l[0]) + SerEach(l[1..], ser)
  }

  function SerVector<T>(l: Vec<T>, ser: T -> Bytes): Bytes {
    SerCompactSize(|l|) + SerEach(l, ser)
  }

  function DeserEach<T>(n: nat, deser: Bytes -> Parsed<T>, t: Bytes): (r: Parsed<seq<T>>)
    ensures r.Some? ==> |r.value.0| == n
  {
    if n == 0 then Some(([], t))
    else
      match deser(t)
      case None => None
      case Some((x, r)) =>
        match DeserEach(n - 1, deser, r)
        case None => None
        case Some((l, r')) => Some(([x] + l, r'))
  }

  function DeserVector<T>(deser: Bytes -> Parsed<T>, t: Bytes): Parsed<Vec<T>> {
    match DeserCompactSize(t)
    case None => None
    case Some((n, r)) =>
      match DeserEach(n, deser, r)
      case None => None
      case Some((l, r')) => Some((l, r'))
  }

  /** deser reads back what ser writes, whatever follows. */
  ghost predicate Reads<T(!new)>(ser: T -> Bytes, deser: Bytes -> Parsed<T>) {
    forall x: T, rest: Bytes :: deser(ser(x) + rest) == Some((x, rest))
  }

  lemma {:induction false} EachTrip<T(!new)>(l: seq<T>, ser: T -> Bytes, deser: Bytes -> Parsed<T>, rest: Bytes)
    requires Reads(ser, deser)
    ensures DeserEach(|l|, deser, SerEach(l, ser) + rest) == Some((l, rest))
  {
    if l == [] {
      assert SerEach(l, ser) + rest == rest;
    } else {
      var tail := SerEach(l[1..], ser);
      assert SerEach(l, ser) + rest == ser(l[0]) + (tail + rest);
      assert deser(ser(l[0]) + (tail + rest)) == Some((l[0], tail + rest));
      EachTrip(l[1..], ser, deser, rest);
      assert [l[0]] + l[1..] == l;
    }
  }

  lemma VectorTrip<T(!new)>(l: Vec<T>, ser: T -> Bytes, deser: Bytes -> Parsed<T>, rest: Bytes)
    requires Reads(ser, deser)
    ensures DeserVector(deser, SerVector(l, ser) + rest) == Some((l, rest))
  {
    hide SerCompactSize, DeserCompactSize, Reads;
    var tail := SerEach(l, ser) + rest;
    assert SerVector(l, ser) + rest == SerCompactSize(|l|) + tail;
    CompactSizeTrip(|l|, tail);
    EachTrip(l, ser, deser, rest);
  }

  /** Reading takes at least the bytes writing would produce. */
  ghost predicate Shortest<T(!new)>(ser: T -> Bytes, deser: Bytes -> Parsed<T>) {
    forall t: Bytes :: deser(t).Some? ==> |t| - |deser(t).value.1| >= |ser(deser(t).value.0)|
  }

  lemma {:induction false} EachShortest<T(!new)>(n: nat, ser: T -> Bytes, deser: Bytes -> Parsed<T>, t: Bytes)
    requires Shortest(ser, deser) && DeserEach(n, deser, t).Some?
    ensures var (l, rest) := DeserEach(n, deser, t).value; |t| - |rest| >= |SerEach(l, ser)|
  {
    if n > 0 {
      var (x, r) := deser(t).value;
      EachShortest(n - 1, ser, deser, r);
      var (l, rest) := DeserEach(n - 1, deser, r).value;
      assert ([x] + l)[1..] == l;
    }
  }

  lemma VectorShortest<T(!new)>(ser: T -> Bytes, deser: Bytes -> Parsed<T>, t: Bytes)
    requires Shortest(ser, deser) && DeserVector(deser, t).Some?
    ensures var (l, rest) := DeserVector(deser, t).value; |t| - |rest| >= |SerVector(l, ser)|
  {
    hide SerCompactSize, DeserCompactSize, Shortest;
    var (n, r) := DeserCompactSize(t).value;
    CompactSizeShortest(t);
    EachShortest(n, ser, deser, r);
  }

  // ----- inputs, outputs and witnesses -----

  function SerTxIn(x: TxIn): Bytes {
    PackU256(x.prevout.hash) + PackU32(x.prevout.n) + SerString(x.scriptSig) + PackU32(x.nSequence)
  }

  function DeserOutPoint(t: Bytes): Parsed<OutPoint> {
    match UnpackU256(t)
    case None => None
    case Some((hash, r)) =>
      match UnpackU32(r)
      case None => None
      case Some((n, r')) => Some((OutPoint(hash, n), r'))
  }

  function DeserTxIn(t: Bytes): Parsed<TxIn> {
    match DeserOutPoint(t)
    case None => None
    case Some((prevout, r)) =>
      match DeserString(r)
      case None => None
      case Some((scriptSig, r')) =>
        match UnpackU32(r')
        case None => None
        case Some((nSequence, r'')) => Some((TxIn(prevout, scriptSig, nSequence), r''))
  }

  function SerTxOut(x: TxOut): Bytes {
    PackI64(x.nValue) + SerString(x.scriptPubKey)
  }

  function DeserTxOut(t: Bytes): Parsed<TxOut> {
    match UnpackI64(t)
    case None => None
    case Some((nValue, r)) =>
      match DeserString(r)
      case None => None
      case Some((scriptPubKey, r')) => Some((TxOut(nValue, scriptPubKey), r'))
  }

  function SerStack(s: Stack): Bytes {
    SerVector(s, SerString)
  }

  function DeserStack(t: Bytes): Parsed<Stack> {
    DeserVector(DeserString, t)
  }

  lemma TxInTrip(x: TxIn, rest: Bytes)
    ensures DeserTxIn(SerTxIn(x) + rest) == Some((x, rest))
  {
    hide PackU256, PackU32, SerString, DeserString, UnpackU256, UnpackU32;
    var r3 := PackU32(x.nSequence) + rest;
    var r2 := SerString(x.scriptSig) + r3;
    var r1 := PackU32(x.prevout.n) + r2;
    assert SerTxIn(x) + rest == PackU256(x.prevout.hash) + r1;
    U256Trip(x.prevout.hash, r1);
    U32Trip(x.prevout.n, r2);
    StringTrip(x.scriptSig, r3);
    U32Trip(x.nSequence, rest);
  }

  lemma TxOutTrip(x: TxOut, rest: Bytes)
    ensures DeserTxOut(SerTxOut(x) + rest) == Some((x, rest))
  {
    hide PackI64, SerString, DeserString, UnpackI64;
    var r1 := SerString(x.scriptPubKey) + rest;
    assert SerTxOut(x) + rest == PackI64(x.nValue) + r1;
    I64Trip(x.nValue, r1);
    StringTrip(x.scriptPubKey, rest);
  }

  lemma TxOutShortest(t: Bytes)
    requires DeserTxOut(t).Some?
    ensures var (x, rest) := DeserTxOut(t).value; |t| - |rest| >= |SerTxOut(x)|
  {
    hide SerString, DeserString;
    var (_, r) := UnpackI64(t).value;
    StringShortest(r);
  }

  lemma StackTrip(s: Stack, rest: Bytes)
    ensures DeserStack(SerStack(s) + rest) == Some((s, rest))
  {
    forall x: Str, r: Bytes { StringTrip(x, r); }
    VectorTrip(s, SerString, DeserString, rest);
  }

  // ----- transactions -----

  /** CTxWitness.is_null. */
  predicate Null(wit: seq<Stack>) {
    forall i :: 0 <= i < |wit| ==> wit[i] == []
  }

  /** wit.vtxinwit cut or filled up to the number of inputs. */
  function Resized(wit: seq<Stack>, n: nat): (w: seq<Stack>)
    ensures |w| == n
  {
    if n <= |wit| then wit[..n] else wit + seq(n - |wit|, _ => [])
  }

  function WithoutWitness(tx: Tx): Bytes {
    PackI32(tx.nVersion) + SerVector(tx.vin, SerTxIn) + SerVector(tx.vout, SerTxOut) + PackU32(tx.nLockTime)
  }

  /** serialize_with_witness; marker and flag only when some witness is not empty. */
  function WithWitness(tx: Tx): Bytes {
    if Null(tx.wit) then WithoutWitness(tx)
    else
      PackI32(tx.nVersion) + [0, 1] + SerVector(tx.vin, SerTxIn) + SerVector(tx.vout, SerTxOut)
      + SerEach(Resized(tx.wit, |tx.vin|), SerStack) + PackU32(tx.nLockTime)
  }

  /** CTransaction.deserialize into an object whose outputs were kept before: with no inputs and a
      zero flag the outputs are not assigned. */
  function DeserTx(t: Bytes, kept: Vec<TxOut>): Parsed<Tx> {
    match UnpackI32(t)
    case None => None
    case Some((nVersion, r)) =>
      match DeserVector(DeserTxIn, r)
      case None => None
      case Some((vin, r)) =>
        if vin == [] then
          match Unpack(r, 1)
          case None => None
          case Some((flags, r)) =>
            if flags != 0 then
              match DeserVector(DeserTxIn, r)
              case None => None
              case Some((vin, r)) => DeserOutputs(r, nVersion, vin, true)
            else DeserTail(r, nVersion, vin, kept, false)
        else DeserOutputs(r, nVersion, vin, false)
  }

  function DeserOutputs(t: Bytes, nVersion: i32, vin: Vec<TxIn>, flagged: bool): Parsed<Tx> {
    match DeserVector(DeserTxOut, t)
    case None => None
    case Some((vout, r)) => DeserTail(r, nVersion, vin, vout, flagged)
  }

  function DeserTail(t: Bytes, nVersion: i32, vin: Vec<TxIn>, vout: Vec<TxOut>, flagged: bool): Parsed<Tx> {
    match DeserEach(if flagged then |vin| else 0, DeserStack, t)
    case None => None
    case Some((wit, r)) =>
      match UnpackU32(r)
      case None => None
      case Some((nLockTime, r')) => Some((Tx(nVersion, vin, vout, wit, nLockTime), r'))
  }

  lemma Readers()
    ensures Reads(SerTxIn, DeserTxIn) && Reads(SerTxOut, DeserTxOut) && Reads(SerStack, DeserStack)
    ensures Shortest(SerTxOut, DeserTxOut)
  {
    hide SerTxIn, DeserTxIn, SerTxOut, DeserTxOut, SerStack, DeserStack;
    forall x: TxIn, r: Bytes { TxInTrip(x, r); }
    forall x: TxOut, r: Bytes { TxOutTrip(x, r); }
    forall x: Stack, r: Bytes { StackTrip(x, r); }
    forall t: Bytes | DeserTxOut(t).Some? { TxOutShortest(t); }
  }

  lemma TailTrip(tx: Tx, wit: seq<Stack>, flagged: bool, rest: Bytes)
    requires |wit| == if flagged then |tx.vin| else 0
    ensures DeserTail(SerEach(wit, SerStack) + PackU32(tx.nLockTime) + rest, tx.nVersion, tx.vin, tx.vout, flagged)
         == Some((tx.(wit := wit), rest))
  {
    hide PackU32, UnpackU32, SerStack, DeserStack;
    Readers();
    var r := PackU32(tx.nLockTime) + rest;
    assert SerEach(wit, SerStack) + PackU32(tx.nLockTime) + rest == SerEach(wit, SerStack) + r;
    EachTrip(wit, SerStack, DeserStack, r);
    U32Trip(tx.nLockTime, rest);
  }

  lemma OutputsTrip(tx: Tx, wit: seq<Stack>, flagged: bool, rest: Bytes)
    requires |wit| == if flagged then |tx.vin| else 0
    ensures DeserOutputs(SerVector(tx.vout, SerTxOut) + SerEach(wit, SerStack) + PackU32(tx.nLockTime) + rest,
                         tx.nVersion, tx.vin, flagged)
         == Some((tx.(wit := wit), rest))
  {
    hide PackU32, SerVector, DeserVector, SerEach, DeserTail, Reads, Shortest;
    Readers();
    TailTrip(tx, wit, flagged, rest);
    var r := SerEach(wit, SerStack) + PackU32(tx.nLockTime) + rest;
    assert SerVector(tx.vout, SerTxOut) + SerEach(wit, SerStack) + PackU32(tx.nLockTime) + rest
        == SerVector(tx.vout, SerTxOut) + r;
    VectorTrip(tx.vout, SerTxOut, DeserTxOut, r);
  }

  /** What deserialize gives for the bytes of tx. */
  function Normal(tx: Tx): Tx {
    tx.(wit := if Null(tx.wit) then [] else Resized(tx.wit, |tx.vin|))
  }

  lemma EmptyVector<T(!new)>(ser: T -> Bytes)
    ensures SerVector([], ser) == [0]
  {
    SerShape(0);
  }

  lemma VectorIs<T(!new)>(l: Vec<T>, ser: T -> Bytes)
    ensures SerVector(l, ser) == SerCompactSize(|l|) + SerEach(l, ser)
  {
  }

  lemma FlagByte(b: byte, rest: Bytes)
    ensures Unpack([b] + rest, 1) == Some((b, rest))
  {
    assert ([b] + rest)[..1] == [b] && ([b] + rest)[1..] == rest;
    assert FromLE([b]) == b + 256 * FromLE([b][1..]);
  }

  /** With a marker and flag. */
  lemma FlaggedTrip(tx: Tx, rest: Bytes, kept: Vec<TxOut>)
    requires !Null(tx.wit)
    ensures DeserTx(WithWitness(tx) + rest, kept) == Some((Normal(tx), rest))
  {
    hide PackU32, PackI32, UnpackI32, SerVector, DeserVector, SerEach, DeserOutputs, DeserTail, Unpack, Null, Resized,
        Reads, Shortest;
    Readers();
    var wit := Resized(tx.wit, |tx.vin|);
    var r3 := SerVector(tx.vout, SerTxOut) + SerEach(wit, SerStack) + PackU32(tx.nLockTime) + rest;
    var r2 := SerVector(tx.vin, SerTxIn) + r3;
    var r1 := [1] + r2;
    assert WithWitness(tx) + rest == PackI32(tx.nVersion) + ([0] + r1);
    I32Trip(tx.nVersion, [0] + r1);
    EmptyVector(SerTxIn);
    VectorTrip([], SerTxIn, DeserTxIn, r1);
    FlagByte(1, r2);
    VectorTrip(tx.vin, SerTxIn, DeserTxIn, r3);
    OutputsTrip(tx, wit, true, rest);
  }

  /** Without them, and with at least one input. */
  lemma PlainTrip(tx: Tx, rest: Bytes, kept: Vec<TxOut>)
    requires tx.vin != []
    ensures DeserTx(WithoutWitness(tx) + rest, kept) == Some((tx.(wit := []), rest))
  {
    hide PackU32, PackI32, UnpackI32, SerVector, DeserVector, DeserOutputs, DeserTail, Unpack, Reads, Shortest;
    Readers();
    var wit: seq<Stack> := [];
    var r2 := SerVector(tx.vout, SerTxOut) + SerEach(wit, SerStack) + PackU32(tx.nLockTime) + rest;
    var r1 := SerVector(tx.vin, SerTxIn) + r2;
    assert SerEach(wit, SerStack) == [];
    assert WithoutWitness(tx) + rest == PackI32(tx.nVersion) + r1;
    I32Trip(tx.nVersion, r1);
    VectorTrip(tx.vin, SerTxIn, DeserTxIn, r2);
    OutputsTrip(tx, wit, false, rest);
  }

  /** Without inputs and outputs the output count is read as a zero flag, and the outputs stay as they were. */
  lemma EmptyTrip(tx: Tx, rest: Bytes, kept: Vec<TxOut>)
    requires tx.vin == [] && tx.vout == []
    ensures DeserTx(WithoutWitness(tx) + rest, kept) == Some((tx.(wit := [], vout := kept), rest))
  {
    hide PackU32, PackI32, UnpackI32, SerVector, DeserVector, DeserOutputs, DeserTail, Unpack, Reads, Shortest;
    Readers();
    var wit: seq<Stack> := [];
    var r2 := SerEach(wit, SerStack) + PackU32(tx.nLockTime) + rest;
    var r1 := [0] + r2;
    EmptyVector(SerTxIn);
    EmptyVector(SerTxOut);
    assert SerEach(wit, SerStack) == [];
    assert WithoutWitness(tx) + rest == PackI32(tx.nVersion) + ([0] + r1);
    I32Trip(tx.nVersion, [0] + r1);
    VectorTrip([], SerTxIn, DeserTxIn, r1);
    FlagByte(0, r2);
    TailTrip(tx.(vout := kept), wit, false, rest);
  }

  /** Without inputs but with outputs the output count is taken for a flag: the bytes never come back
      as the transaction with the same bytes left over. */
  lemma NoInputsFail(tx: Tx, rest: Bytes, kept: Vec<TxOut>)
    requires tx.vin == [] && tx.vout != []
    ensures DeserTx(WithoutWitness(tx) + rest, kept) != Some((tx.(wit := []), rest))
  {
    hide PackU32, PackI32, UnpackI32, SerVector, DeserVector, DeserEach, DeserStack, SerCompactSize, Reads, Shortest;
    hide WithoutWitness, SerTxOut, SerEach, DeserTxOut;
    Readers();
    EmptyVector(SerTxIn);
    var body := SerVector(tx.vout, SerTxOut) + PackU32(tx.nLockTime) + rest;
    NoInputsBytes(tx, rest, body);
    I32Trip(tx.nVersion, [0] + body);
    VectorTrip([], SerTxIn, DeserTxIn, body);
    FlagByte(body[0], body[1..]);
    FlaggedTooLong(tx, body[1..], rest);
  }

  lemma NoInputsBytes(tx: Tx, rest: Bytes, body: Bytes)
    requires tx.vin == [] && tx.vout != [] && body == SerVector(tx.vout, SerTxOut) + PackU32(tx.nLockTime) + rest
    ensures WithoutWitness(tx) + rest == PackI32(tx.nVersion) + ([0] + body)
    ensures body != [] && body[0] != 0 && body == [body[0]] + body[1..]
  {
    hide PackU32, PackI32, SerVector, SerTxOut, SerEach;
    EmptyVector(SerTxIn);
    SerShape(|tx.vout|);
    VectorIs(tx.vout, SerTxOut);
  }

  /** Every flag but zero is read like the flag 1 of BIP 144. */
  lemma FlagsAlike(nVersion: i32, flag: byte, t: Bytes, kept: Vec<TxOut>)
    requires flag != 0
    ensures DeserTx(PackI32(nVersion) + [0, flag] + t, kept) == DeserTx(PackI32(nVersion) + [0, 1] + t, kept)
  {
    FlaggedRead(nVersion, flag, t, kept);
    FlaggedRead(nVersion, 1, t, kept);
  }

  lemma FlaggedRead(nVersion: i32, flag: byte, t: Bytes, kept: Vec<TxOut>)
    requires flag != 0
    ensures DeserTx(PackI32(nVersion) + [0, flag] + t, kept)
         == match DeserVector(DeserTxIn, t)
            case None => None
            case Some((vin, r)) => DeserOutputs(r, nVersion, vin, true)
  {
    hide PackI32, UnpackI32, SerVector, DeserVector, DeserOutputs, DeserTail, SerTxIn, DeserTxIn, Reads;
    Readers();
    EmptyVector(SerTxIn);
    var body := [flag] + t;
    assert PackI32(nVersion) + [0, flag] + t == PackI32(nVersion) + ([0] + body);
    I32Trip(nVersion, [0] + body);
    VectorTrip([], SerTxIn, DeserTxIn, body);
    FlagByte(flag, t);
  }

  /** Reading the outputs of tx after one more count takes more bytes than there are. */
  lemma FlaggedTooLong(tx: Tx, t: Bytes, rest: Bytes)
    requires |t| < |SerVector(tx.vout, SerTxOut)| + 4 + |rest|
    ensures DeserVector(DeserTxIn, t).Some? ==>
            DeserOutputs(DeserVector(DeserTxIn, t).value.1, tx.nVersion, DeserVector(DeserTxIn, t).value.0, true)
            != Some((tx.(wit := []), rest)) || tx.vin != []
  {
    if DeserVector(DeserTxIn, t).Some? && tx.vin == [] {
      hide SerVector, DeserVector, DeserTxIn, DeserTxOut, SerTxOut, DeserTail, Reads, Shortest;
      var (vin, r) := DeserVector(DeserTxIn, t).value;
      Readers();
      if vin == [] && DeserVector(DeserTxOut, r).Some? {
        VectorConsumes(t);
        VectorShortest(SerTxOut, DeserTxOut, r);
        var (vout, r') := DeserVector(DeserTxOut, r).value;
        TailTakes(r', tx.nVersion, vin, vout);
      }
      TailKeeps(r, tx.nVersion, vin);
    }
  }

  lemma TailTakes(t: Bytes, nVersion: i32, vin: Vec<TxIn>, vout: Vec<TxOut>)
    requires vin == []
    ensures DeserTail(t, nVersion, vin, vout, true).Some? ==>
            var (tx, rest) := DeserTail(t, nVersion, vin, vout, true).value; tx.vout == vout && |t| == |rest| + 4
  {
    hide DeserStack;
  }

  lemma TailKeeps(t: Bytes, nVersion: i32, vin: Vec<TxIn>)
    ensures DeserOutputs(t, nVersion, vin, true).Some? ==> DeserOutputs(t, nVersion, vin, true).value.0.vin == vin
  {
    hide DeserVector, DeserEach;
  }

  lemma VectorConsumes(t: Bytes)
    requires DeserVector(DeserTxIn, t).Some? && DeserVector(DeserTxIn, t).value.0 == []
    ensures |DeserVector(DeserTxIn, t).value.1| < |t|
  {
    hide DeserTxIn;
    CompactSizeShortest(t);
  }

  /** Reading back a serialized transaction: exact for every transaction, whatever follows, unless it has
      outputs but neither inputs nor a witness (or the object read into already held outputs). */
  lemma TxRoundTrip(tx: Tx, rest: Bytes, kept: Vec<TxOut>)
    ensures DeserTx(WithWitness(tx) + rest, kept) == Some((Normal(tx), rest))
       <==> tx.vin != [] || !Null(tx.wit) || (tx.vout == [] && kept == [])
  {
    hide *;
    NullNormal(tx);
    if !Null(tx.wit) {
      FlaggedTrip(tx, rest, kept);
    } else if tx.vin != [] {
      PlainTrip(tx, rest, kept);
    } else if tx.vout == [] {
      EmptyTrip(tx, rest, kept);
    } else {
      NoInputsFail(tx, rest, kept);
    }
  }

  lemma NullNormal(tx: Tx)
    ensures Null(tx.wit) ==> WithWitness(tx) == WithoutWitness(tx) && Normal(tx) == tx.(wit := [])
  {
  }
}
