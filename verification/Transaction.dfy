/** CTransaction of messages.py: fields filled from a stream, and written back. */
module Transaction {
  import opened Bytes
  import opened Messages

  /** A BytesIO, by the bytes still unread. */
  class Stream {
    var unread: Bytes

    constructor (data: Bytes)
      ensures unread == data
    {
      unread := data;
    }

    /** f.read(n): fewer than n bytes at the end, without an error; from 2^63 on it raises. */
    method Read(n: nat) returns (b: Bytes)
      requires n < I63
      modifies this
      ensures old(unread) == b + unread && |b| <= n && (|b| < n ==> unread == [])
    {
      var k := Taken(unread, n);
      b, unread := unread[..k], unread[k..];
    }

    /** One item by its reader; false where reading raises. */
    method Take<T(0)>(reader: Bytes -> Parsed<T>) returns (ok: bool, x: T)
      modifies this
      ensures ok <==> reader(old(unread)).Some?
      ensures ok ==> reader(old(unread)) == Some((x, unread))
    {
      var p := reader(unread);
      ok := p.Some?;
      if ok {
        x := p.value.0;
        unread := p.value.1;
      } else {
        x := *;
      }
    }

    /** deser_string: the announced length, then whatever read returns. */
    method TakeString() returns (ok: bool, s: Str)
      modifies this
      ensures ok <==> DeserString(old(unread)).Some?
      ensures ok ==> DeserString(old(unread)) == Some((s, unread))
    {
      hide DeserCompactSize;
      var more, nit := Take(DeserCompactSize);
      if !more || nit >= I63 { return false, []; }
      var b := Read(nit);
      return true, b;
    }

    /** deser_vector. */
    method TakeVector<T(0)>(reader: Bytes -> Parsed<T>) returns (ok: bool, r: Vec<T>)
      modifies this
      ensures ok <==> DeserVector(reader, old(unread)).Some?
      ensures ok ==> DeserVector(reader, old(unread)) == Some((r, unread))
    {
      hide DeserCompactSize;
      ghost var t := unread;
      r := [];
      var more, nit := Take(DeserCompactSize);
      if !more { return false, []; }
      var l;
      ok, l := TakeEach(nit, reader);
      if ok { r := l; }
    }

    method TakeEach<T(0)>(nit: nat, reader: Bytes -> Parsed<T>) returns (ok: bool, r: seq<T>)
      modifies this
      ensures ok <==> DeserEach(nit, reader, old(unread)).Some?
      ensures ok ==> DeserEach(nit, reader, old(unread)) == Some((r, unread))
    {
      hide DeserEach;
      ghost var t := unread;
      r := [];
      EachNone(reader, t);
      for i := 0 to nit
        invariant DeserEach(nit, reader, t).Some? <==> DeserEach(nit - i, reader, unread).Some?
        invariant DeserEach(nit, reader, t).Some? ==>
          && DeserEach(nit, reader, t).value.0 == r + DeserEach(nit - i, reader, unread).value.0
          && DeserEach(nit, reader, t).value.1 == DeserEach(nit - i, reader, unread).value.1
      {
        ghost var left := unread;
        var more, x := Take(reader);
        StepEach(nit - i, reader, left);
        if !more { return false, r; }
        ghost var rest := DeserEach(nit - i - 1, reader, unread);
        if rest.Some? { assert r + ([x] + rest.value.0) == r + [x] + rest.value.0; }
        r := r + [x];
      }
      EachNone(reader, unread);
      assert r + [] == r;
      return true, r;
    }
  }

  lemma EachNone<T>(reader: Bytes -> Parsed<T>, t: Bytes)
    ensures DeserEach(0, reader, t) == Some(([], t))
  {
  }

  lemma StepEach<T>(n: nat, reader: Bytes -> Parsed<T>, t: Bytes)
    requires n > 0
    ensures reader(t).None? ==> DeserEach(n, reader, t).None?
    ensures reader(t).Some? ==>
            var (x, r) := reader(t).value;
            && (DeserEach(n, reader, t).Some? <==> DeserEach(n - 1, reader, r).Some?)
            && (DeserEach(n, reader, t).Some? ==>
                  DeserEach(n, reader, t).value
                  == ([x] + DeserEach(n - 1, reader, r).value.0, DeserEach(n - 1, reader, r).value.1))
  {
  }

  /** ser_vector. */
  method WriteVector<T>(l: Vec<T>, ser: T -> Bytes) returns (r: Bytes)
    ensures r == SerVector(l, ser)
  {
    hide SerCompactSize;
    var body := WriteEach(l, ser);
    r := SerCompactSize(|l|) + body;
  }

  method WriteEach<T>(l: seq<T>, ser: T -> Bytes) returns (r: Bytes)
    ensures r == SerEach(l, ser)
  {
    r := [];
    for i := 0 to |l|
      invariant SerEach(l, ser) == r + SerEach(l[i..], ser)
    {
      assert l[i..][1..] == l[i + 1..];
      r := r + ser(l[i]);
    }
  }

  class CTransaction {
    var nVersion: i32
    var vin: Vec<TxIn>
    var vout: Vec<TxOut>
    var vtxinwit: seq<Stack>
    var nLockTime: u32

    function Value(): Tx
      reads this
    {
      Tx(nVersion, vin, vout, vtxinwit, nLockTime)
    }

    constructor ()
      ensures Value() == Tx(2, [], [], [], 0)
    {
      nVersion, vin, vout, vtxinwit, nLockTime := 2, [], [], [], 0;
    }

    method Deserialize(f: Stream) returns (ok: bool)
      modifies this, f
      ensures ok <==> DeserTx(old(f.unread), old(vout)).Some?
      ensures ok ==> DeserTx(old(f.unread), old(vout)) == Some((Value(), f.unread))
    {
      hide DeserVector, DeserTxIn, DeserTxOut, DeserEach, UnpackI32, UnpackU32, Unpack;
      var more;
      more, nVersion := f.Take(UnpackI32);
      if !more { return false; }
      more, vin := f.TakeVector(DeserTxIn);
      if !more { return false; }
      var flags := 0;
      if |vin| == 0 {
        more, flags := f.Take(t => Unpack(t, 1));
        if !more { return false; }
        if flags != 0 {
          more, vin := f.TakeVector(DeserTxIn);
          if !more { return false; }
          more, vout := f.TakeVector(DeserTxOut);
          if !more { return false; }
        }
      } else {
        more, vout := f.TakeVector(DeserTxOut);
        if !more { return false; }
      }
      ok := TakeTail(f, flags != 0);
    }

    method TakeTail(f: Stream, flagged: bool) returns (ok: bool)
      modifies this`vtxinwit, this`nLockTime, f
      ensures ok <==> DeserTail(old(f.unread), nVersion, vin, vout, flagged).Some?
      ensures ok ==> DeserTail(old(f.unread), nVersion, vin, vout, flagged) == Some((Value(), f.unread))
    {
      hide DeserEach, UnpackU32;
      var more;
      more, vtxinwit := f.TakeEach(if flagged then |vin| else 0, DeserStack);
      if !more { return false; }
      ok, nLockTime := f.Take(UnpackU32);
    }

    method SerializeWithoutWitness() returns (r: Bytes)
      ensures r == WithoutWitness(Value())
    {
      hide SerVector, PackI32, PackU32;
      r := PackI32(nVersion);
      var b := WriteVector(vin, SerTxIn);
      r := r + b;
      b := WriteVector(vout, SerTxOut);
      r := r + b + PackU32(nLockTime);
    }

    /** The witness vector is cut or filled up to the inputs as a side effect, when some witness is not empty. */
    method SerializeWithWitness() returns (r: Bytes)
      modifies this`vtxinwit
      ensures r == WithWitness(old(Value()))
      ensures Value() == After(old(Value()))
    {
      hide SerVector, SerEach, PackI32, PackU32, Null;
      var flags := if Null(vtxinwit) then 0 else 1;
      r := PackI32(nVersion);
      if flags != 0 {
        EmptyVector(SerTxIn);
        r := r + [0] + [1];
      }
      var b := WriteVector(vin, SerTxIn);
      r := r + b;
      b := WriteVector(vout, SerTxOut);
      r := r + b;
      if flags != 0 {
        if |vtxinwit| != |vin| {
          Resize();
        } else {
          assert Resized(vtxinwit, |vin|) == vtxinwit;
        }
        b := WriteEach(vtxinwit, SerStack);
        r := r + b;
      }
      r := r + PackU32(nLockTime);
    }

    method Resize()
      modifies this`vtxinwit
      ensures vtxinwit == Resized(old(vtxinwit), |vin|)
    {
      ghost var wit := vtxinwit;
      vtxinwit := vtxinwit[..if |vin| <= |vtxinwit| then |vin| else |vtxinwit|];
      for i := |vtxinwit| to |vin|
        invariant |vtxinwit| == i && nVersion == old(nVersion)
        invariant vtxinwit == Resized(wit, i)
      {
        vtxinwit := vtxinwit + [[]];
      }
    }

    method GetWeight() returns (w: nat)
      modifies this`vtxinwit
      ensures w == Weight(old(Value())) && Value() == After(old(Value()))
    {
      hide WithWitness, WithoutWitness;
      var withWitness := SerializeWithWitness();
      var without := SerializeWithoutWitness();
      WithoutSame(old(Value()));
      w := (4 - 1) * |without| + |withWitness|;
    }
  }

  /** The transaction after serialize_with_witness. */
  function After(tx: Tx): Tx {
    if Null(tx.wit) then tx else tx.(wit := Resized(tx.wit, |tx.vin|))
  }

  function Weight(tx: Tx): nat {
    3 * |WithoutWitness(tx)| + |WithWitness(tx)|
  }

  lemma WithoutSame(tx: Tx)
    ensures WithoutWitness(After(tx)) == WithoutWitness(tx)
  {
    hide SerVector, PackI32, PackU32, Null, Resized;
  }

  /** Serializing again gives the same bytes exactly when cutting the witness vector to the inputs does
      not drop every non-empty witness. */
  lemma SerializeTwice(tx: Tx)
    ensures WithWitness(After(tx)) == WithWitness(tx) <==> Null(tx.wit) || !Null(Resized(tx.wit, |tx.vin|))
  {
    hide SerVector, SerEach, PackI32, PackU32, Null;
    var n := |tx.vin|;
    assert Resized(Resized(tx.wit, n), n) == Resized(tx.wit, n);
    WithoutSame(tx);
  }

  /** Such a cut exists: one input, and the only non-empty witness is the second one. */
  lemma SerializeTwiceWitness(tx: Tx)
    requires |tx.vin| == 1 && tx.wit == [[], [[7]]]
    ensures WithWitness(After(tx)) != WithWitness(tx)
  {
    hide WithWitness, After;
    assert tx.wit[1] != [];
    assert Resized(tx.wit, 1) == [[]];
    SerializeTwice(tx);
  }

  /** The cut leaves no witness exactly when those at the positions of inputs are empty. */
  lemma DroppedBeyondInputs(tx: Tx)
    ensures Null(Resized(tx.wit, |tx.vin|)) <==> forall i :: 0 <= i < |tx.wit| && i < |tx.vin| ==> tx.wit[i] == []
  {
    var r := Resized(tx.wit, |tx.vin|);
    assert forall i :: 0 <= i < |tx.wit| && i < |tx.vin| ==> r[i] == tx.wit[i];
  }

  /** Through the objects: what one transaction writes, a new one reads back, and the stream is left at
      what followed. */
  method Resend(tx: CTransaction, rest: Bytes) returns (ok: bool, copy: CTransaction, f: Stream)
    modifies tx`vtxinwit
    ensures fresh(copy) && fresh(f)
    ensures old(tx.vin != [] || !Null(tx.vtxinwit) || tx.vout == []) ==>
            ok && copy.Value() == Normal(old(tx.Value())) && f.unread == rest
  {
    hide WithWitness, DeserTx, Normal, Null, After;
    var b := tx.SerializeWithWitness();
    copy := new CTransaction();
    f := new Stream(b + rest);
    ok := copy.Deserialize(f);
    TxRoundTrip(old(tx.Value()), rest, []);
  }
}
