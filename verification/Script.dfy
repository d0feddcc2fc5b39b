/** Scripts as byte strings: building, raw iteration and FindAndDelete of script.py. */
module Script {
  import opened NumberTheory
  import opened Bytes

  const OP_PUSHDATA1: byte := 0x4c
  const OP_PUSHDATA2: byte := 0x4d
  const OP_PUSHDATA4: byte := 0x4e

  /** One instruction: an opcode above OP_PUSHDATA4, or a push with its data. */
  datatype Instr = Instr(opcode: byte, data: Option<Bytes>)

  predicate WellFormed(x: Instr) {
    if x.opcode > OP_PUSHDATA4 then x.data.None?
    else
      && x.data.Some?
      && var n := |x.data.value|;
         if x.opcode < OP_PUSHDATA1 then n == x.opcode
         else if x.opcode == OP_PUSHDATA1 then n < 0x100
         else if x.opcode == OP_PUSHDATA2 then n < 0x1_0000
         else n < 0x1_0000_0000
  }

  lemma Widths()
    ensures Pow(256, 1) == 0x100 && Pow(256, 2) == 0x1_0000 && Pow(256, 4) == 0x1_0000_0000
  {
    assert Pow(256, 1) == 256 * Pow(256, 0);
    PowAdd(256, 1, 1);
    PowAdd(256, 2, 2);
  }

  /** The number of length bytes after the opcode. */
  function LengthBytes(opcode: byte): nat {
    if opcode < OP_PUSHDATA1 || opcode > OP_PUSHDATA4 then 0
    else if opcode == OP_PUSHDATA1 then 1
    else if opcode == OP_PUSHDATA2 then 2
    else 4
  }

  /** The bytes of an instruction. */
  function Raw(x: Instr): (b: Bytes)
    requires WellFormed(x)
    ensures |b| > 0
  {
    Widths();
    if x.data.None? then [x.opcode]
    else
      var k := LengthBytes(x.opcode);
      [x.opcode] + ToLE(if k == 0 then 0 else |x.data.value|, k) + x.data.value
  }

  /** encode_op_pushdata: the shortest length class; longer data raises. */
  function Push(d: Bytes): Option<Instr> {
    if |d| < 0x4c then Some(Instr(|d|, Some(d)))
    else if |d| <= 0xff then Some(Instr(OP_PUSHDATA1, Some(d)))
    else if |d| <= 0xffff then Some(Instr(OP_PUSHDATA2, Some(d)))
    else if |d| <= 0xffffffff then Some(Instr(OP_PUSHDATA4, Some(d)))
    else None
  }

  /** The first instruction of t and what follows it, or None where raw_iter raises. */
  function First(t: Bytes): (r: Option<(Instr, Bytes)>)
    requires t != []
    ensures r.Some? ==> |r.value.1| < |t|
  {
    var opcode, k := t[0], LengthBytes(t[0]);
    if opcode > OP_PUSHDATA4 then Some((Instr(opcode, None), t[1..]))
    else if |t| < 1 + k then None
    else
      var size := if k == 0 then opcode else FromLE(t[1..1 + k]);
      if |t| < 1 + k + size then None
      else Some((Instr(opcode, Some(t[1 + k..1 + k + size])), t[1 + k + size..]))
  }

  /** An element of the iteration: the instruction and where it starts. */
  datatype Item = Item(instr: Instr, at: nat)

  /** raw_iter from position at on: the items yielded, and whether it ends without an exception. */
  function Items(t: Bytes, at: nat): (r: (seq<Item>, bool))
    decreases |t|
  {
    if t == [] then ([], true)
    else
      match First(t)
      case None => ([], false)
      case Some((x, rest)) =>
        var (items, ok) := Items(rest, at + |t| - |rest|);
        ([Item(x, at)] + items, ok)
  }

  lemma ItemsStep(t: Bytes, at: nat)
    ensures t == [] ==> Items(t, at) == ([], true)
    ensures t != [] && First(t) == None ==> Items(t, at) == ([], false)
    ensures t != [] && First(t).Some? ==>
            var (x, rest) := First(t).value;
            var (items, ok) := Items(rest, at + |t| - |rest|);
            Items(t, at) == ([Item(x, at)] + items, ok)
  {
    hide First;
  }

  /** The size announced after the opcode, with the bytes in the order the loop adds them up. */
  function Announced(t: Bytes): nat
    requires t != [] && 1 + LengthBytes(t[0]) <= |t|
  {
    var k := LengthBytes(t[0]);
    if t[0] < OP_PUSHDATA1 then t[0]
    else if k == 1 then t[1]
    else if k == 2 then t[1] as int + t[2] as int * 0x100
    else if k == 4 then t[1] as int + t[2] as int * 0x100 + t[3] as int * 0x1_0000 + t[4] as int * 0x100_0000
    else 0
  }

  lemma AnnouncedSize(t: Bytes)
    requires t != [] && t[0] <= OP_PUSHDATA4 && 1 + LengthBytes(t[0]) <= |t|
    ensures LengthBytes(t[0]) > 0 ==> FromLE(t[1..1 + LengthBytes(t[0])]) == Announced(t)
  {
    hide FromLE;
    var k := LengthBytes(t[0]);
    if k == 1 { OneByte(t[1..2]); }
    if k == 2 { TwoBytes(t[1..3]); }
    if k == 4 { FourBytes(t[1..5]); }
  }

  lemma FirstIs(t: Bytes)
    requires t != []
    ensures t[0] > OP_PUSHDATA4 ==> First(t) == Some((Instr(t[0], None), t[1..]))
    ensures t[0] <= OP_PUSHDATA4 ==>
            var k := 1 + LengthBytes(t[0]);
            && (|t| < k ==> First(t) == None)
            && (|t| >= k ==>
                  var size := Announced(t);
                  First(t) == if |t| < k + size then None else Some((Instr(t[0], Some(t[k..k + size])), t[k + size..])))
  {
    hide FromLE;
    if t[0] <= OP_PUSHDATA4 && |t| >= 1 + LengthBytes(t[0]) { AnnouncedSize(t); }
  }

  lemma Slices(s: Bytes, i: nat, a: nat, b: nat)
    requires a <= b && i + b <= |s|
    ensures s[i..][a..b] == s[i + a..i + b] && s[i..][b..] == s[i + b..]
  {
  }

  /** One turn of raw_iter at position i0. */
  method ReadOne(s: Bytes, i0: nat) returns (ok: bool, x: Instr, i: nat)
    requires i0 < |s|
    ensures ok ==> i0 < i <= |s| && First(s[i0..]) == Some((x, s[i..]))
    ensures !ok ==> First(s[i0..]) == None
  {
    hide First, FromLE;
    ghost var t := s[i0..];
    FirstIs(t);
    i := i0;
    var opcode := s[i];
    x := Instr(opcode, None);
    i := i + 1;
    if opcode > OP_PUSHDATA4 {
      return true, x, i;
    }
    var datasize: int;
    if opcode < OP_PUSHDATA1 {
      datasize := opcode;
    } else if opcode == OP_PUSHDATA1 {
      if i >= |s| { return false, x, i; }
      datasize := s[i];
      i := i + 1;
    } else if opcode == OP_PUSHDATA2 {
      if i + 1 >= |s| { return false, x, i; }
      datasize := s[i] as int + s[i + 1] as int * 0x100;
      i := i + 2;
    } else {
      if i + 3 >= |s| { return false, x, i; }
      datasize := s[i] as int + s[i + 1] as int * 0x100 + s[i + 2] as int * 0x1_0000 + s[i + 3] as int * 0x100_0000;
      i := i + 4;
    }
    assert datasize == Announced(t) && i == i0 + 1 + LengthBytes(t[0]);
    if |s| - i < datasize { return false, x, i; }
    var data := s[i..i + datasize];
    Slices(s, i0, i - i0, i - i0 + datasize);
    return true, Instr(opcode, Some(data)), i + datasize;
  }

  method RawIter(s: Bytes) returns (items: seq<Item>, ok: bool)
    ensures (items, ok) == Items(s, 0)
  {
    hide First, Items;
    items, ok := [], true;
    var i := 0;
    assert s[0..] == s && items + Items(s, 0).0 == Items(s, 0).0;
    while i < |s|
      invariant i <= |s|
      invariant Items(s, 0) == (items + Items(s[i..], i).0, Items(s[i..], i).1)
    {
      var more, x, next := ReadOne(s, i);
      ItemsStep(s[i..], i);
      if !more {
        assert items + [] == items;
        return items, false;
      }
      assert i + |s[i..]| - |s[next..]| == next;
      ghost var tail := Items(s[next..], next).0;
      assert items + ([Item(x, i)] + tail) == items + [Item(x, i)] + tail;
      items := items + [Item(x, i)];
      i := next;
    }
    ItemsStep([], i);
    assert s[i..] == [] && items + [] == items;
  }

  lemma OneByte(b: Bytes)
    requires |b| == 1
    ensures FromLE(b) == b[0]
  {
    assert FromLE(b[1..]) == 0;
  }

  lemma TwoBytes(b: Bytes)
    requires |b| == 2
    ensures FromLE(b) == b[0] as int + b[1] as int * 0x100
  {
    assert FromLE(b[1..]) == b[1] + 256 * FromLE(b[1..][1..]);
  }

  lemma FourBytes(b: Bytes)
    requires |b| == 4
    ensures FromLE(b) == b[0] as int + b[1] as int * 0x100 + b[2] as int * 0x1_0000 + b[3] as int * 0x100_0000
  {
    TwoBytes(b[2..]);
    assert b[1..][1..] == b[2..];
    assert FromLE(b[1..]) == b[1] + 256 * FromLE(b[2..]);
  }

  // ----- instructions and their bytes -----

  /** What is read is well formed, and its bytes are the ones read. */
  lemma FirstRaw(t: Bytes)
    requires t != [] && First(t).Some?
    ensures var (x, rest) := First(t).value;
            WellFormed(x) && t == Raw(x) + rest
  {
    Widths();
    var k := LengthBytes(t[0]);
    var (x, rest) := First(t).value;
    if x.data.Some? {
      var len := t[1..1 + k];
      LEBytesRoundTrip(len);
      if k == 0 { assert len == []; }
      Tiled(t, 1 + k, |t| - |rest|);
    }
  }

  lemma Tiled(t: Bytes, i: nat, j: nat)
    requires 1 <= i <= j <= |t|
    ensures t == [t[0]] + t[1..i] + t[i..j] + t[j..]
  {
  }

  /** Reading an instruction from its bytes followed by anything gives the instruction back. */
  lemma RawFirst(x: Instr, rest: Bytes)
    requires WellFormed(x)
    ensures First(Raw(x) + rest) == Some((x, rest))
  {
    Widths();
    var t := Raw(x) + rest;
    if x.data.Some? {
      var k := LengthBytes(x.opcode);
      var d := x.data.value;
      var len := ToLE(if k == 0 then 0 else |d|, k);
      if k > 0 { LERoundTrip(|d|, k); }
      assert t == [x.opcode] + len + d + rest;
      assert t[1..1 + k] == len;
      assert t[1 + k..1 + k + |d|] == d && t[1 + k + |d|..] == rest;
    } else {
      assert t[1..] == rest;
    }
  }

  ghost predicate AllWellFormed(xs: seq<Instr>) {
    forall i :: 0 <= i < |xs| ==> WellFormed(xs[i])
  }

  /** CScript.__new__: the concatenation of the instructions. */
  function Flatten(xs: seq<Instr>): Bytes
    requires AllWellFormed(xs)
  {
    if xs == [] then [] else Raw(xs[0]) + Flatten(xs[1..])
  }

  /** The items of a list of instructions laid end to end from position at on. */
  function Laid(xs: seq<Instr>, at: nat): (items: seq<Item>)
    requires AllWellFormed(xs)
  {
    if xs == [] then [] else [Item(xs[0], at)] + Laid(xs[1..], at + |Raw(xs[0])|)
  }

  /** A script built from instructions iterates as exactly these, at their exact offsets. */
  lemma {:induction false} IterateBuilt(xs: seq<Instr>, at: nat)
    requires AllWellFormed(xs)
    ensures Items(Flatten(xs), at) == (Laid(xs, at), true)
  {
    hide First, Raw, WellFormed;
    if xs != [] {
      RawFirst(xs[0], Flatten(xs[1..]));
      IterateBuilt(xs[1..], at + |Raw(xs[0])|);
    }
  }

  function Instrs(items: seq<Item>): (xs: seq<Instr>)
    ensures |xs| == |items| && forall i :: 0 <= i < |xs| ==> xs[i] == items[i].instr
  {
    seq(|items|, i requires 0 <= i < |items| => items[i].instr)
  }

  /** The instructions yielded tile the script from its start; all of it when nothing raises. */
  lemma {:induction false} Tiling(t: Bytes, at: nat)
    ensures var (items, ok) := Items(t, at);
            && AllWellFormed(Instrs(items)) && Laid(Instrs(items), at) == items
            && Flatten(Instrs(items)) <= t && (ok ==> Flatten(Instrs(items)) == t)
    decreases |t|
  {
    hide First, Raw, WellFormed;
    if t != [] && First(t).Some? {
      var (x, rest) := First(t).value;
      FirstRaw(t);
      Tiling(rest, at + |t| - |rest|);
      var tail := Items(rest, at + |t| - |rest|).0;
      var items := Items(t, at).0;
      assert Instrs(items)[0] == x && Instrs(items)[1..] == Instrs(tail);
    }
  }

  /** Every data push of the program is well formed, in the shortest length class. */
  lemma PushWellFormed(d: Bytes)
    requires |d| <= 0xffffffff
    ensures Push(d).Some? && WellFormed(Push(d).value) && Push(d).value.data == Some(d)
    ensures forall y: Instr :: WellFormed(y) && y.data == Some(d) ==> |Raw(Push(d).value)| <= |Raw(y)|
  {
  }

  // ----- FindAndDelete -----

  /** t[:len(sig)] == sig, with Python's slicing. */
  predicate StartsWith(t: Bytes, sig: Bytes) {
    sig <= t
  }

  /** The bytes of the instructions at whose start sig does not occur. */
  function Kept(t: Bytes, sig: Bytes): Option<Bytes>
    decreases |t|
  {
    if t == [] then Some([])
    else
      match First(t)
      case None => None
      case Some((x, rest)) =>
        match Kept(rest, sig)
        case None => None
        case Some(r) => Some(if StartsWith(t, sig) then r else t[..|t| - |rest|] + r)
  }

  lemma KeptStep(t: Bytes, sig: Bytes)
    ensures t == [] ==> Kept(t, sig) == Some([])
    ensures t != [] && First(t).Some? ==>
            var rest := First(t).value.1;
            && (Kept(t, sig).Some? ==> Kept(rest, sig).Some?)
            && (Kept(t, sig).Some? ==>
                  Kept(t, sig).value == (if StartsWith(t, sig) then [] else t[..|t| - |rest|]) + Kept(rest, sig).value)
  {
    hide First, StartsWith;
  }

  lemma Finished(script: Bytes, pos: nat)
    requires pos <= |script|
    ensures Items(script[pos..], pos) == ([], true) ==> pos == |script|
  {
    hide *;
    ItemsStep(script[pos..], pos);
  }

  lemma Regrouped(a: Bytes, b: Bytes, c: Bytes)
    ensures a + (b + c) == a + b + c
  {
  }

  /** What one turn of FindAndDelete's loop has to account for. */
  lemma Turn(script: Bytes, sig: Bytes, pos: nat, it: Item, tail: seq<Item>) returns (next: nat)
    requires pos <= |script| && Items(script[pos..], pos) == ([it] + tail, true)
    requires Kept(script[pos..], sig).Some?
    ensures it.at == pos < next <= |script|
    ensures Items(script[next..], next) == (tail, true)
    ensures Kept(script[next..], sig).Some?
    ensures Kept(script[pos..], sig).value
         == (if StartsWith(script[pos..], sig) then [] else script[pos..next]) + Kept(script[next..], sig).value
  {
    hide *;
    var t := script[pos..];
    ItemsStep(t, pos);
    KeptStep(t, sig);
    FirstSuffix(t);
    var rest := First(t).value.1;
    next := pos + |t| - |rest|;
    assert ([it] + tail)[1..] == tail;
    assert script[next..] == rest && script[pos..next] == t[..|t| - |rest|];
  }

  method FindAndDelete(script: Bytes, sig: Bytes) returns (res: Option<Bytes>)
    ensures res == Kept(script, sig)
  {
    hide *;
    var items, ok := RawIter(script);
    KeptFails(script, sig, 0);
    if !ok {
      assert Kept(script, sig) == None;
      return None;
    }
    var r: Bytes, last: nat, skip := [], 0, true;
    ghost var pos, pending, todo, all := 0, [], Kept(script, sig).value, Kept(script, sig).value;
    assert script[0..] == script && items[0..] == items && r + pending + all == all;
    for k := 0 to |items|
      invariant last <= pos <= |script|
      invariant pending == if skip then [] else script[last..pos]
      invariant Items(script[pos..], pos) == (items[k..], true)
      invariant Kept(script[pos..], sig) == Some(todo) && all == r + pending + todo
    {
      assert items[k..] == [items[k]] + items[k + 1..];
      ghost var next := Turn(script, sig, pos, items[k], items[k + 1..]);
      var sop := items[k].at;
      ghost var was, rest := r + pending, Kept(script[next..], sig).value;
      if !skip {
        r := r + script[last..sop];
      }
      last := sop;
      var n := if sop + |sig| <= |script| then sop + |sig| else |script|;
      skip := script[sop..n] == sig;
      StartsAt(script, sig, sop, n);
      pos := next;
      pending := if skip then [] else script[last..pos];
      Regrouped(was, pending, rest);
      todo := rest;
    }
    Finished(script, pos);
    assert items[|items|..] == [];
    KeptStep(script[pos..], sig);
    if !skip {
      assert script[last..pos] == script[last..];
      r := r + script[last..];
    }
    assert all == r;
    return Some(r);
  }

  lemma StartsAt(s: Bytes, sig: Bytes, i: nat, n: nat)
    requires i <= |s| && n == if i + |sig| <= |s| then i + |sig| else |s|
    ensures s[i..n] == sig <==> StartsWith(s[i..], sig)
  {
    var t := s[i..];
    assert s[i..n] == t[..n - i];
  }

  lemma FirstSuffix(t: Bytes)
    requires t != [] && First(t).Some?
    ensures var rest := First(t).value.1; rest == t[|t| - |rest|..]
  {
  }

  lemma {:induction false} KeptFails(t: Bytes, sig: Bytes, at: nat)
    ensures Kept(t, sig).Some? <==> Items(t, at).1
    decreases |t|
  {
    if t != [] && First(t).Some? {
      var rest := First(t).value.1;
      KeptFails(rest, sig, at + |t| - |rest|);
    }
  }

  /** The instructions that are not to be dropped. */
  function Filter(xs: seq<Instr>, drop: Instr -> bool): seq<Instr> {
    if xs == [] then []
    else if drop(xs[0]) then Filter(xs[1..], drop)
    else [xs[0]] + Filter(xs[1..], drop)
  }

  lemma {:induction false} FilterWellFormed(xs: seq<Instr>, drop: Instr -> bool)
    requires AllWellFormed(xs)
    ensures AllWellFormed(Filter(xs, drop))
  {
    hide WellFormed;
    if xs != [] { FilterWellFormed(xs[1..], drop); }
  }

  function Is(y: Instr): Instr -> bool {
    (x: Instr) => x == y
  }

  function HasOpcode(opcode: byte): Instr -> bool {
    (x: Instr) => x.opcode == opcode
  }

  /** sig occurs at the start of an instruction exactly when the instruction is to be dropped. */
  ghost predicate Selects(sig: Bytes, drop: Instr -> bool) {
    forall t: Bytes :: t != [] && First(t).Some? ==> (StartsWith(t, sig) <==> drop(First(t).value.0))
  }

  lemma {:induction false} KeptIsFiltered(t: Bytes, sig: Bytes, drop: Instr -> bool, at: nat)
    requires Items(t, at).1 && Selects(sig, drop)
    ensures var xs := Instrs(Items(t, at).0);
            && AllWellFormed(xs) && AllWellFormed(Filter(xs, drop))
            && Kept(t, sig) == Some(Flatten(Filter(xs, drop)))
    decreases |t|
  {
    hide First, Raw, WellFormed, StartsWith, Instrs;
    Tiling(t, at);
    var xs := Instrs(Items(t, at).0);
    FilterWellFormed(xs, drop);
    ItemsStep(t, at);
    if t == [] {
      NoInstrs();
    } else {
      var (x, rest) := First(t).value;
      FirstRaw(t);
      var tail := Items(rest, at + |t| - |rest|).0;
      KeptIsFiltered(rest, sig, drop, at + |t| - |rest|);
      InstrsStep(x, at, tail);
      KeptStep(t, sig);
      KeptFails(t, sig, at);
      assert t[..|t| - |rest|] == Raw(x);
      FlattenStep(x, Filter(Instrs(tail), drop));
    }
  }

  lemma NoInstrs()
    ensures Instrs([]) == []
  {
  }

  lemma InstrsStep(x: Instr, at: nat, tail: seq<Item>)
    ensures Instrs([Item(x, at)] + tail) == [x] + Instrs(tail)
    ensures ([x] + Instrs(tail))[1..] == Instrs(tail)
  {
  }

  lemma FlattenStep(x: Instr, xs: seq<Instr>)
    requires WellFormed(x) && AllWellFormed(xs)
    ensures AllWellFormed([x] + xs) && Flatten([x] + xs) == Raw(x) + Flatten(xs)
  {
    assert ([x] + xs)[1..] == xs;
  }

  /** Deleting what a pattern selects: the result parses as the original without those instructions, and no byte
      inside a push is touched.  It fails exactly when the script does not parse. */
  lemma DeleteSelected(script: Bytes, sig: Bytes, drop: Instr -> bool)
    requires Selects(sig, drop)
    ensures Kept(script, sig).Some? <==> Items(script, 0).1
    ensures Items(script, 0).1 ==>
            var xs := Filter(Instrs(Items(script, 0).0), drop);
            AllWellFormed(xs) && Items(Kept(script, sig).value, 0) == (Laid(xs, 0), true)
  {
    hide *;
    KeptFails(script, sig, 0);
    if Items(script, 0).1 {
      KeptIsFiltered(script, sig, drop, 0);
      IterateBuilt(Filter(Instrs(Items(script, 0).0), drop), 0);
    }
  }

  /** The bytes of an instruction occur at the start of that instruction only. */
  lemma RawSelects(y: Instr)
    requires WellFormed(y)
    ensures Selects(Raw(y), Is(y))
  {
    hide First, Raw, WellFormed;
    forall t: Bytes | t != [] && First(t).Some? ensures StartsWith(t, Raw(y)) <==> First(t).value.0 == y {
      FirstRaw(t);
      if Raw(y) <= t {
        var u := t[|Raw(y)|..];
        assert t == Raw(y) + u;
        RawFirst(y, u);
      }
    }
  }

  /** Deleting the bytes of an instruction, a pushed signature say, removes exactly the instructions equal to it. */
  lemma DeleteInstr(script: Bytes, y: Instr)
    requires WellFormed(y)
    ensures Kept(script, Raw(y)).Some? <==> Items(script, 0).1
    ensures Items(script, 0).1 ==>
            var xs := Filter(Instrs(Items(script, 0).0), Is(y));
            AllWellFormed(xs) && Items(Kept(script, Raw(y)).value, 0) == (Laid(xs, 0), true)
  {
    hide *;
    RawSelects(y);
    DeleteSelected(script, Raw(y), Is(y));
  }

  lemma OpcodeSelects(opcode: byte)
    ensures Selects([opcode], HasOpcode(opcode))
  {
    forall t: Bytes | t != [] && First(t).Some? ensures StartsWith(t, [opcode]) <==> First(t).value.0.opcode == opcode {
      assert t[0] == First(t).value.0.opcode;
      assert [t[0]] <= t;
    }
  }

  /** Deleting one opcode byte, a code separator say, removes exactly the instructions with that opcode. */
  lemma DeleteOpcode(script: Bytes, opcode: byte)
    ensures Kept(script, [opcode]).Some? <==> Items(script, 0).1
    ensures Items(script, 0).1 ==>
            var xs := Filter(Instrs(Items(script, 0).0), HasOpcode(opcode));
            AllWellFormed(xs) && Items(Kept(script, [opcode]).value, 0) == (Laid(xs, 0), true)
  {
    hide *;
    OpcodeSelects(opcode);
    DeleteSelected(script, [opcode], HasOpcode(opcode));
  }
}
