/** PSBT maps and transactions of psbt.py. */
module Psbt {
  import opened Bytes
  import opened Messages
  import opened Transaction

  const PSBT_GLOBAL_UNSIGNED_TX := KInt(0)
  const MAGIC: Bytes := [0x70, 0x73, 0x62, 0x74, 0xff]

  datatype Key = KInt(n: int) | KBytes(b: Str)
  datatype Entry = Entry(key: Key, value: Str)

  /** A dict by its items in insertion order. */
  type Map = seq<Entry>

  predicate Has(m: Map, k: Key) {
    exists i :: 0 <= i < |m| && m[i].key == k
  }

  predicate Dict(m: Map) {
    forall i, j :: 0 <= i < j < |m| ==> m[i].key != m[j].key
  }

  function Lookup(m: Map, k: Key): (v: Option<Str>)
    ensures v.Some? <==> Has(m, k)
  {
    if m == [] then None
    else if m[0].key == k then Some(m[0].value)
    else
      var v := Lookup(m[1..], k);
      assert Has(m[1..], k) ==> Has(m, k) by { LaterHas(m, k); }
      assert Has(m, k) ==> Has(m[1..], k) by { LaterHas(m, k); }
      v
  }

  lemma LaterHas(m: Map, k: Key)
    requires m != [] && m[0].key != k
    ensures Has(m, k) <==> Has(m[1..], k)
  {
    forall i | 0 <= i < |m| && m[i].key == k ensures Has(m[1..], k) {
      assert m[1..][i - 1].key == k;
    }
    forall i | 0 <= i < |m[1..]| && m[1..][i].key == k ensures Has(m, k) {
      assert m[i + 1].key == k;
    }
  }

  // ----- one map -----

  /** The bytes of a key; an int outside a byte has no length and raises. */
  function KeyBytes(k: Key): Option<Str> {
    match k
    case KInt(n) => if 0 <= n <= 255 then Some([n]) else None
    case KBytes(b) => Some(b)
  }

  function SerEntries(m: Map): Option<Bytes> {
    if m == [] then Some([])
    else
      match KeyBytes(m[0].key)
      case None => None
      case Some(k) =>
        match SerEntries(m[1..])
        case None => None
        case Some(r) => Some(SerString(k) + SerString(m[0].value) + r)
  }

  function SerMap(m: Map): Option<Bytes> {
    match SerEntries(m)
    case None => None
    case Some(b) => Some(b + [0])
  }

  function KeyOf(k: Str): Key {
    if |k| == 1 then KInt(k[0]) else KBytes(k)
  }

  /** The loop of PSBTMap.deserialize; it raises at the end of the stream and on a repeated key. */
  function DeserEntries(t: Bytes, seen: Map): Parsed<Map>
    decreases |t|
  {
    match DeserString(t)
    case None => None
    case Some((k, r)) =>
      if k == [] then Some((seen, r))
      else
        match DeserString(r)
        case None => None
        case Some((v, r')) =>
          StringTakes(t);
          StringTakes(r);
          if Has(seen, KeyOf(k)) then None else DeserEntries(r', seen + [Entry(KeyOf(k), v)])
  }

  function DeserMap(t: Bytes): Parsed<Map> {
    DeserEntries(t, [])
  }

  lemma StringTakes(t: Bytes)
    ensures DeserString(t).Some? ==> |DeserString(t).value.1| < |t|
  {
    if DeserString(t).Some? {
      StringShortest(t);
      SerShape(|DeserString(t).value.0|);
    }
  }

  /** A key the reader tells apart from the end marker and from an int key. */
  predicate Canonical(k: Key) {
    match k
    case KInt(n) => 0 <= n <= 255
    case KBytes(b) => |b| >= 2
  }

  predicate AllCanonical(m: Map) {
    forall i :: 0 <= i < |m| ==> Canonical(m[i].key)
  }

  lemma {:induction false} CanonicalSerializes(m: Map)
    requires AllCanonical(m)
    ensures SerEntries(m).Some?
  {
    if m != [] { CanonicalSerializes(m[1..]); }
  }

  lemma {:induction false} EntriesTrip(seen: Map, m: Map, rest: Bytes)
    requires Dict(seen + m) && AllCanonical(m) && SerEntries(m).Some?
    ensures DeserEntries(SerEntries(m).value + [0] + rest, seen) == Some((seen + m, rest))
    decreases |m|
  {
    hide SerString, DeserString, Dict, Has;
    if m == [] {
      EmptyString(rest);
      assert SerEntries(m).value + [0] + rest == SerString([]) + rest && seen + m == seen;
      StringTrip([], rest);
    } else {
      var k, v, tail := KeyBytes(m[0].key).value, m[0].value, SerEntries(m[1..]).value + [0] + rest;
      assert SerEntries(m).value + [0] + rest == SerString(k) + (SerString(v) + tail);
      StringTrip(k, SerString(v) + tail);
      StringTrip(v, tail);
      assert KeyOf(k) == m[0].key;
      NotYet(seen, m);
      assert seen + [m[0]] + m[1..] == seen + m;
      EntriesTrip(seen + [m[0]], m[1..], rest);
    }
  }

  lemma EmptyString(rest: Bytes)
    ensures SerString([]) == [0]
  {
    SerShape(0);
  }

  lemma NotYet(seen: Map, m: Map)
    requires m != [] && Dict(seen + m)
    ensures !Has(seen, m[0].key)
  {
    var all := seen + m;
    assert forall i :: 0 <= i < |seen| ==> all[i] == seen[i];
    assert all[|seen|] == m[0];
  }

  lemma {:induction false} DeserializedCanonical(t: Bytes, seen: Map)
    requires Dict(seen) && AllCanonical(seen) && DeserEntries(t, seen).Some?
    ensures Dict(DeserEntries(t, seen).value.0) && AllCanonical(DeserEntries(t, seen).value.0)
    decreases |t|
  {
    hide DeserString;
    var (k, r) := DeserString(t).value;
    if k != [] {
      var (v, r') := DeserString(r).value;
      StringTakes(t);
      StringTakes(r);
      DeserializedCanonical(r', seen + [Entry(KeyOf(k), v)]);
    }
  }

  /** A written map is read back, whatever follows, exactly when no bytes key is shorter than two bytes. */
  lemma MapRoundTrip(m: Map, rest: Bytes)
    requires Dict(m) && SerMap(m).Some?
    ensures DeserMap(SerMap(m).value + rest) == Some((m, rest)) <==> AllCanonical(m)
  {
    hide DeserEntries, SerEntries;
    if AllCanonical(m) {
      assert [] + m == m;
      EntriesTrip([], m, rest);
    }
    if DeserMap(SerMap(m).value + rest).Some? {
      MapCanonical(SerMap(m).value + rest);
    }
  }

  /** A bytes key of one byte comes back as an int key. */
  lemma ShortKeyWitness(k: byte, v: Str, rest: Bytes)
    ensures var m, n := [Entry(KBytes([k]), v)], [Entry(KInt(k), v)];
            && Dict(m) && SerMap(m).Some?
            && DeserMap(SerMap(m).value + rest) == Some((n, rest)) && m != n
  {
    hide SerString, DeserMap;
    var m, n := [Entry(KBytes([k]), v)], [Entry(KInt(k), v)];
    var b := SerString([k]) + SerString(v) + [];
    assert SerEntries(m[1..]) == Some([]) && SerEntries(n[1..]) == Some([]);
    assert SerEntries(m) == Some(b) && SerEntries(n) == Some(b);
    assert n[0].key == KInt(k);
    MapRoundTrip(n, rest);
  }

  // ----- a whole PSBT -----

  datatype Value = Value(g: Map, i: seq<Map>, o: seq<Map>)

  predicate Dicts(p: Value) {
    Dict(p.g) && (forall k :: 0 <= k < |p.i| ==> Dict(p.i[k])) && (forall k :: 0 <= k < |p.o| ==> Dict(p.o[k]))
  }

  predicate CanonicalValue(p: Value) {
    AllCanonical(p.g) && (forall k :: 0 <= k < |p.i| ==> AllCanonical(p.i[k]))
    && (forall k :: 0 <= k < |p.o| ==> AllCanonical(p.o[k]))
  }

  /** from_binary(CTransaction, ...) of the value under PSBT_GLOBAL_UNSIGNED_TX, with nothing after it. */
  function UnsignedTx(g: Map): Option<Tx> {
    match Lookup(g, PSBT_GLOBAL_UNSIGNED_TX)
    case None => None
    case Some(b) =>
      match DeserTx(b, [])
      case None => None
      case Some((tx, r)) => if r == [] then Some(tx) else None
  }

  function SerMaps(l: seq<Map>): Option<Bytes> {
    if l == [] then Some([])
    else
      match SerMap(l[0])
      case None => None
      case Some(b) =>
        match SerMaps(l[1..])
        case None => None
        case Some(r) => Some(b + r)
  }

  /** PSBT.serialize with its assertions; None where one fails or something raises. */
  function SerPsbt(p: Value): Option<Bytes> {
    match UnsignedTx(p.g)
    case None => None
    case Some(tx) =>
      if |tx.vin| != |p.i| || |tx.vout| != |p.o| then None
      else
        match SerMaps([p.g] + p.i + p.o)
        case None => None
        case Some(b) => Some(MAGIC + b)
  }

  function DeserPsbt(t: Bytes): Parsed<(Value, Tx)> {
    if t[..Taken(t, 5)] != MAGIC then None
    else
      match DeserMap(t[5..])
      case None => None
      case Some((g, r)) =>
        match UnsignedTx(g)
        case None => None
        case Some(tx) =>
          match DeserEach(|tx.vin|, DeserMap, r)
          case None => None
          case Some((i, r)) =>
            match DeserEach(|tx.vout|, DeserMap, r)
            case None => None
            case Some((o, r)) => Some(((Value(g, i, o), tx), r))
  }

  /** What is read starts with the magic bytes and holds its transaction, with one map for every input and output. */
  lemma DeserPsbtHolds(t: Bytes)
    requires DeserPsbt(t).Some?
    ensures MAGIC <= t
    ensures var (p, tx) := DeserPsbt(t).value.0;
            UnsignedTx(p.g) == Some(tx) && |p.i| == |tx.vin| && |p.o| == |tx.vout|
  {
    hide DeserMap, UnsignedTx;
    assert |t[..Taken(t, 5)]| == |MAGIC| ==> t[..5] == MAGIC;
  }

  lemma {:induction false} MapsTrip(l: seq<Map>, rest: Bytes)
    requires SerMaps(l).Some?
    requires forall k :: 0 <= k < |l| ==> Dict(l[k]) && AllCanonical(l[k])
    ensures DeserEach(|l|, DeserMap, SerMaps(l).value + rest) == Some((l, rest))
  {
    hide DeserMap, SerMap, Dict, AllCanonical;
    if l == [] {
      assert SerMaps(l).value + rest == rest;
    } else {
      var b, tail := SerMap(l[0]).value, SerMaps(l[1..]).value + rest;
      assert SerMaps(l).value + rest == b + tail;
      MapRoundTrip(l[0], tail);
      MapsTrip(l[1..], rest);
      assert [l[0]] + l[1..] == l;
    }
  }

  lemma {:induction false} MapsSplit(a: seq<Map>, b: seq<Map>)
    ensures SerMaps(a + b).Some? <==> SerMaps(a).Some? && SerMaps(b).Some?
    ensures SerMaps(a + b).Some? ==> SerMaps(a + b).value == SerMaps(a).value + SerMaps(b).value
  {
    hide SerMap;
    if a == [] {
      assert a + b == b;
    } else {
      assert (a + b)[1..] == a[1..] + b;
      MapsSplit(a[1..], b);
    }
  }

  lemma {:induction false} ReadCanonical(n: nat, t: Bytes)
    requires DeserEach(n, DeserMap, t).Some?
    ensures forall k :: 0 <= k < n ==> AllCanonical(DeserEach(n, DeserMap, t).value.0[k])
  {
    hide *;
    if n > 0 {
      StepEach(n, DeserMap, t);
      MapCanonical(t);
      ReadCanonical(n - 1, DeserMap(t).value.1);
    }
  }

  lemma MapCanonical(t: Bytes)
    requires DeserMap(t).Some?
    ensures AllCanonical(DeserMap(t).value.0)
  {
    hide DeserEntries;
    Nothing();
    DeserializedCanonical(t, []);
  }

  lemma Nothing()
    ensures Dict([]) && AllCanonical([])
  {
  }

  /** What is read has canonical keys only. */
  lemma DeserPsbtCanonical(t: Bytes)
    requires DeserPsbt(t).Some?
    ensures CanonicalValue(DeserPsbt(t).value.0.0)
  {
    hide AllCanonical, DeserMap, UnsignedTx;
    var (p, tx) := DeserPsbt(t).value.0;
    var r := DeserMap(t[5..]).value.1;
    MapCanonical(t[5..]);
    ReadCanonical(|tx.vin|, r);
    ReadCanonical(|tx.vout|, DeserEach(|tx.vin|, DeserMap, r).value.1);
  }

  /** The bytes of a PSBT in the order they are read. */
  lemma SerPsbtParts(p: Value, rest: Bytes)
    requires SerPsbt(p).Some?
    ensures SerMap(p.g).Some? && SerMaps(p.i).Some? && SerMaps(p.o).Some?
    ensures SerPsbt(p).value + rest
         == MAGIC + (SerMap(p.g).value + (SerMaps(p.i).value + (SerMaps(p.o).value + rest)))
  {
    hide SerMap, UnsignedTx, MAGIC;
    MapsSplit([p.g] + p.i, p.o);
    MapsSplit([p.g], p.i);
    assert SerMaps([p.g][1..]) == Some([]);
    assert SerMap(p.g).value + [] == SerMap(p.g).value;
  }

  /** A written PSBT is read back with its transaction, whatever follows, exactly when no bytes key in
      any map is shorter than two bytes. */
  lemma PsbtRoundTrip(p: Value, rest: Bytes)
    requires Dicts(p) && SerPsbt(p).Some?
    ensures DeserPsbt(SerPsbt(p).value + rest) == Some(((p, UnsignedTx(p.g).value), rest)) <==> CanonicalValue(p)
  {
    var t := SerPsbt(p).value + rest;
    if CanonicalValue(p) {
      hide SerMap, DeserMap, UnsignedTx, SerMaps, DeserEach, Dict, AllCanonical;
      SerPsbtParts(p, rest);
      var r2 := SerMaps(p.o).value + rest;
      var r1 := SerMaps(p.i).value + r2;
      assert t == MAGIC + (SerMap(p.g).value + r1);
      assert t[..5] == MAGIC && t[5..] == SerMap(p.g).value + r1;
      MapRoundTrip(p.g, r1);
      MapsTrip(p.i, r2);
      MapsTrip(p.o, rest);
    }
    if DeserPsbt(t).Some? { DeserPsbtCanonical(t); }
  }

  /** make_blank. */
  function Blank(p: Value): Value
    requires Lookup(p.g, PSBT_GLOBAL_UNSIGNED_TX).Some?
  {
    Value([Entry(PSBT_GLOBAL_UNSIGNED_TX, Lookup(p.g, PSBT_GLOBAL_UNSIGNED_TX).value)],
          seq(|p.i|, _ => []), seq(|p.o|, _ => []))
  }

  lemma {:induction false} EmptyMaps(l: seq<Map>)
    requires forall k :: 0 <= k < |l| ==> l[k] == []
    ensures SerMaps(l).Some?
  {
    if l != [] { EmptyMaps(l[1..]); }
  }

  /** Blanking a PSBT that can be written keeps its transaction and always gives one that is read back. */
  lemma BlankRoundTrip(p: Value, rest: Bytes)
    requires SerPsbt(p).Some?
    ensures SerPsbt(Blank(p)).Some? && UnsignedTx(Blank(p).g) == UnsignedTx(p.g)
    ensures DeserPsbt(SerPsbt(Blank(p)).value + rest) == Some(((Blank(p), UnsignedTx(p.g).value), rest))
  {
    hide DeserPsbt, DeserTx;
    var q := Blank(p);
    assert SerEntries(q.g[1..]) == Some([]);
    EmptyMaps(q.i);
    EmptyMaps(q.o);
    MapsSplit([q.g] + q.i, q.o);
    MapsSplit([q.g], q.i);
    assert SerMaps([q.g][1..]) == Some([]);
    PsbtRoundTrip(q, rest);
  }

  // ----- the classes -----

  class PSBTMap {
    var map_: Map

    constructor (m: Map)
      ensures map_ == m
    {
      map_ := m;
    }

    method Deserialize(f: Stream) returns (ok: bool)
      requires f as object != this
      modifies this, f
      ensures ok <==> DeserMap(old(f.unread)).Some?
      ensures ok ==> DeserMap(old(f.unread)) == Some((map_, f.unread))
      ensures !ok ==> map_ == old(map_)
    {
      hide DeserString, Has;
      ghost var t := f.unread;
      var m: Map := [];
      while true
        invariant DeserMap(t) == DeserEntries(f.unread, m) && map_ == old(map_)
        decreases |f.unread|
      {
        StringTakes(f.unread);
        var more, k := f.TakeString();
        if !more { return false; }
        if |k| == 0 { break; }
        StringTakes(f.unread);
        var v;
        more, v := f.TakeString();
        if !more { return false; }
        var key := KeyOf(k);
        if Has(m, key) { return false; }
        m := m + [Entry(key, v)];
      }
      map_ := m;
      return true;
    }

    method Serialize() returns (r: Option<Bytes>)
      ensures r == SerMap(map_)
    {
      hide SerString;
      var m: Bytes := [];
      for i := 0 to |map_|
        invariant SerEntries(map_).Some? <==> SerEntries(map_[i..]).Some?
        invariant SerEntries(map_).Some? ==> SerEntries(map_).value == m + SerEntries(map_[i..]).value
      {
        assert map_[i..][1..] == map_[i + 1..];
        var k := KeyBytes(map_[i].key);
        if k.None? { return None; }
        ghost var tail := SerEntries(map_[i + 1..]);
        if tail.Some? { Grouped(m, SerString(k.value), SerString(map_[i].value), tail.value); }
        m := m + (SerString(k.value) + SerString(map_[i].value));
      }
      assert map_[|map_|..] == [] && m + [] == m;
      return Some(m + [0]);
    }
  }

  class PSBT {
    var g: Map
    var i: seq<Map>
    var o: seq<Map>
    var tx: Option<Tx>

    constructor (p: Value)
      ensures Maps() == p && tx == None
    {
      g, i, o, tx := p.g, p.i, p.o, None;
    }

    function Maps(): Value
      reads this
    {
      Value(g, i, o)
    }

    method Deserialize(f: Stream) returns (ok: bool)
      modifies this, f
      ensures ok <==> DeserPsbt(old(f.unread)).Some?
      ensures ok ==> tx.Some? && DeserPsbt(old(f.unread)) == Some(((Maps(), tx.value), f.unread))
    {
      hide DeserMap, UnsignedTx, DeserEach;
      var magic := f.Read(5);
      if magic != MAGIC { return false; }
      var more;
      more, g := f.Take(DeserMap);
      if !more { return false; }
      tx := UnsignedTx(g);
      if tx.None? { return false; }
      more, i := f.TakeEach(|tx.value.vin|, DeserMap);
      if !more { return false; }
      ok, o := f.TakeEach(|tx.value.vout|, DeserMap);
    }

    method Serialize() returns (r: Option<Bytes>)
      ensures r == SerPsbt(Maps())
    {
      hide SerMap, UnsignedTx;
      var t := UnsignedTx(g);
      if t.None? || |t.value.vin| != |i| || |t.value.vout| != |o| { return None; }
      var maps := [g] + i + o;
      var psbt: Bytes := [];
      for k := 0 to |maps|
        invariant SerMaps(maps).Some? <==> SerMaps(maps[k..]).Some?
        invariant SerMaps(maps).Some? ==> SerMaps(maps).value == psbt + SerMaps(maps[k..]).value
      {
        assert maps[k..][1..] == maps[k + 1..];
        var b := SerMap(maps[k]);
        if b.None? { return None; }
        psbt := psbt + b.value;
      }
      assert maps[|maps|..] == [] && psbt + [] == psbt;
      return Some(MAGIC + psbt);
    }
  }

  lemma Grouped(a: Bytes, b: Bytes, c: Bytes, d: Bytes)
    ensures a + (b + c + d) == a + (b + c) + d
  {
  }
}
