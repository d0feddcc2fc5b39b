/** MiniWallet._bulk_tx of wallet.py: padding a transaction to a target weight. */
module Wallet {
  import opened Bytes
  import opened Messages
  import opened Script
  import opened Transaction

  const OP_RETURN: byte := 0x6a

  /** CScript([OP_RETURN, b'a']). */
  const PLACEHOLDER: Str := [OP_RETURN, 1, 0x61]

  /** b'a' * d, empty for a negative d. */
  function Padding(d: int): (b: Bytes)
    ensures |b| == if d < 0 then 0 else d
  {
    seq(if d < 0 then 0 else d, _ => 0x61)
  }

  /** CScript([OP_RETURN, b'a' * d]); pushing more than 0xffffffff bytes raises. */
  function PadScript(d: int): Option<Bytes> {
    match Push(Padding(d))
    case None => None
    case Some(x) => PushWellFormed(Padding(d)); Some([OP_RETURN] + Raw(x))
  }

  /** The length of the padding script. */
  function PadLength(d: int): nat {
    if d <= 0 then 2
    else if d < 0x4c then 2 + d
    else if d <= 0xff then 3 + d
    else if d <= 0xffff then 4 + d
    else 6 + d
  }

  lemma PadScriptLength(d: int)
    ensures PadScript(d).Some? <==> d <= 0xffffffff
    ensures PadScript(d).Some? ==> |PadScript(d).value| == PadLength(d) < I63
  {
  }

  function Padded(tx: Tx, script: Str): Tx
    requires |tx.vout| < U64 - 1
  {
    tx.(vout := tx.vout + [TxOut(0, script)])
  }

  /** What the compact size and the script of an output take. */
  function OutputSize(length: nat): int
    requires length < U64
  {
    1 + Width(length) + length
  }

  lemma {:induction false} EachSnoc<T>(l: seq<T>, x: T, ser: T -> Bytes)
    ensures SerEach(l + [x], ser) == SerEach(l, ser) + ser(x)
  {
    if l == [] {
      assert l + [x] == [x] && [x][1..] == [];
    } else {
      assert (l + [x])[1..] == l[1..] + [x];
      EachSnoc(l[1..], x, ser);
    }
  }

  lemma OutputBytes(l: Vec<TxOut>, script: Str)
    requires |l| < U64 - 1
    ensures |SerVector(l + [TxOut(0, script)], SerTxOut)|
         == |SerCompactSize(|l| + 1)| + |SerEach(l, SerTxOut)| + 8 + OutputSize(|script|)
  {
    hide SerCompactSize, SerEach, PackI64;
    EachSnoc(l, TxOut(0, script), SerTxOut);
    SerShape(|script|);
  }

  lemma WeightOf(tx: Tx)
    ensures Weight(tx) == 4 * |WithoutWitness(tx)|
                          + if Null(tx.wit) then 0 else 2 + |SerEach(Resized(tx.wit, |tx.vin|), SerStack)|
    ensures |WithoutWitness(tx)| == 8 + |SerVector(tx.vin, SerTxIn)| + |SerVector(tx.vout, SerTxOut)|
  {
    hide SerVector, SerEach, Null, Resized, PackI32, PackU32;
  }

  /** Replacing the script of the last output changes the weight by four for every byte. */
  lemma WeightOfPadding(tx: Tx, a: Str, b: Str)
    requires |tx.vout| < U64 - 1
    ensures Weight(Padded(tx, b)) - Weight(Padded(tx, a)) == 4 * (OutputSize(|b|) - OutputSize(|a|))
  {
    hide SerVector, SerEach, Null, Resized, OutputSize, Weight, WithoutWitness;
    WeightOf(Padded(tx, a));
    WeightOf(Padded(tx, b));
    OutputBytes(tx.vout, a);
    OutputBytes(tx.vout, b);
  }

  /** The number of padding bytes for a target when the placeholder output brings the weight to w. */
  function Dummy(target: int, w: int): int {
    (target - w + 3) / 4
  }

  /** Where the final weight lies from the target. */
  lemma Excess(target: int, w: int)
    ensures var d := Dummy(target, w);
            d <= 0xffffffff ==>
              var final := w + 4 * (OutputSize(PadLength(d)) - OutputSize(3));
              target <= final <= target + 15 <==> 76 <= d <= 65531 || -4 <= d <= -1
  {
  }

  /** The weight of the transaction with its placeholder does not change by serializing it once: no
      non-empty witness lies beyond the inputs only. */
  predicate Stable(tx: Tx) {
    Null(tx.wit) || !Null(Resized(tx.wit, |tx.vin|))
  }

  lemma StableWeight(tx: Tx)
    requires Stable(tx)
    ensures Weight(After(tx)) == Weight(tx) && Stable(After(tx)) && After(After(tx)) == After(tx)
  {
    hide SerVector, SerEach, WithoutWitness, WithWitness;
    SerializeTwice(tx);
    WithoutSame(tx);
    assert Resized(Resized(tx.wit, |tx.vin|), |tx.vin|) == Resized(tx.wit, |tx.vin|);
  }

  /** What a first serialization hides when every non-empty witness lies beyond the inputs. */
  lemma {:induction false} DroppedWeight(tx: Tx)
    requires !Stable(tx)
    ensures Weight(After(tx)) == Weight(tx) - 2 - |tx.vin|
  {
    hide SerVector, WithoutWitness, WithWitness, Weight;
    WeightOf(tx);
    WeightOf(After(tx));
    WithoutSame(tx);
    EmptyStacks(Resized(tx.wit, |tx.vin|));
  }

  lemma {:induction false} EmptyStacks(w: seq<Stack>)
    requires Null(w)
    ensures |SerEach(w, SerStack)| == |w|
  {
    if w != [] {
      EmptyVector(SerString);
      assert w[0] == [];
      EmptyStacks(w[1..]);
    }
  }

  /** The weight that the first serialization hides. */
  function Dropped(tx: Tx): nat {
    if Stable(tx) then 0 else 2 + |tx.vin|
  }

  /** After one serialization the weight no longer changes. */
  lemma ShownWeight(tx: Tx)
    ensures Weight(After(tx)) == Weight(tx) - Dropped(tx)
    ensures Stable(After(tx)) && After(After(tx)) == After(tx)
  {
    hide Weight;
    if Stable(tx) { StableWeight(tx); } else { DroppedWeight(tx); }
  }

  /** _bulk_tx: false where pushing the padding raises or one of the two bounds is missed.  It succeeds
      exactly when the weight less what the first serialization hides, plus four for every byte the padding adds to
      the placeholder, is within the bounds; when nothing is hidden, exactly for these numbers of bytes. */
  method BulkTx(tx: CTransaction, target: int) returns (ok: bool)
    requires |tx.vout| < U64 - 1
    modifies tx`vout, tx`vtxinwit
    ensures var first := Padded(old(tx.Value()), PLACEHOLDER);
            var w := Weight(first);
            var d := Dummy(target, w);
            && (ok <==>
                && d <= 0xffffffff
                && target <= w - Dropped(first) + 4 * (OutputSize(PadLength(d)) - 4) <= target + 15)
            && (Stable(first) ==> (ok <==> 76 <= d <= 65531 || -4 <= d <= -1))
            && (ok ==> PadScript(d).Some?
                       && tx.Value() == After(Padded(After(old(tx.Value())), PadScript(d).value))
                       && target <= Weight(tx.Value()) <= target + 15)
  {
    hide Weight, PadScript, PadLength, OutputSize, WithWitness, WithoutWitness, After, Stable, Dropped;
    ghost var was := tx.Value();
    ghost var first := Padded(was, PLACEHOLDER);
    tx.vout := tx.vout + [TxOut(0, PLACEHOLDER)];
    assert tx.Value() == first;
    PadScriptLength(Dummy(target, Weight(first)));
    Excess(target, Weight(first));
    Undropped(first);
    AfterPadded(was);
    var w := tx.GetWeight();
    var d := Dummy(target, w);
    var script := PadScript(d);
    if script.None? { return false; }
    tx.vout := tx.vout[..|tx.vout| - 1] + [tx.vout[|tx.vout| - 1].(scriptPubKey := script.value)];
    ghost var padded := Padded(After(was), script.value);
    assert tx.vout == was.vout + [TxOut(0, script.value)];
    assert tx.Value() == padded;
    w := tx.GetWeight();
    FinalWeight(was, script.value);
    if w < target { return false; }
    w := tx.GetWeight();
    return w <= target + 15;
  }

  lemma Undropped(tx: Tx)
    ensures Stable(tx) ==> Dropped(tx) == 0
    ensures OutputSize(3) == 4
  {
    hide Stable;
  }

  lemma AfterPadded(tx: Tx)
    requires |tx.vout| < U64 - 1
    ensures After(Padded(tx, PLACEHOLDER)) == Padded(After(tx), PLACEHOLDER)
    ensures After(tx).vout == tx.vout
  {
  }

  lemma FinalWeight(tx: Tx, script: Str)
    requires |tx.vout| < U64 - 1
    ensures var first, padded := Padded(tx, PLACEHOLDER), Padded(After(tx), script);
            && Weight(padded) == Weight(first) - Dropped(first) + 4 * (OutputSize(|script|) - OutputSize(3))
            && Weight(After(padded)) == Weight(padded) && After(After(padded)) == After(padded)
  {
    hide Weight, OutputSize, Dropped;
    var first, padded := Padded(tx, PLACEHOLDER), Padded(After(tx), script);
    ShownWeight(first);
    AfterPadded(tx);
    WeightOfPadding(After(tx), PLACEHOLDER, script);
    assert Stable(padded);
    StableWeight(padded);
  }
}
