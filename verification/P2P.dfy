/** The receive buffer of P2PConnection and the messages framed for it (p2p.py). */
module P2P {
  import opened Bytes
  import opened Messages

  type Bytes4 = b: Bytes | |b| == 4 witness [0, 0, 0, 0]

  datatype Msg = Msg(msgtype: Bytes, payload: Bytes)

  /** The magic bytes, the first four bytes of the double hash, the keys of MESSAGEMAP, and which messages
      deserialize and pass the on_message callback without an exception. */
  datatype Config = Config(magic: Bytes4, hash: Bytes -> Bytes4, known: set<Bytes>, parses: Msg -> bool,
      handles: Msg -> bool)

  datatype Error = BadMagic | BadChecksum | UnknownType | BadPayload | CallbackRaised

  /** One turn of the loop: return, raise with the buffer as it then is, deliver, or deliver to a
      callback that raises. */
  datatype Turn = Wait | Bad(error: Error, buf: Bytes) | Deliver(msg: Msg, rest: Bytes) | Refused(msg: Msg, rest: Bytes)

  /** How the loop ends; Forever when a delivery leaves the buffer as it was. */
  datatype End = Waiting | Raised(error: Error) | Forever

  // ----- Python slices -----

  function Index(i: int, n: nat): (k: nat)
    ensures k <= n
  {
    if i < 0 then (if i + n < 0 then 0 else i + n) else if i < n then i else n
  }

  function Slice(b: Bytes, i: int, j: int): Bytes {
    var lo, hi := Index(i, |b|), Index(j, |b|);
    if lo <= hi then b[lo..hi] else []
  }

  /** b.split(b"\x00", 1)[0]. */
  function UntilZero(b: Bytes): (r: Bytes)
    ensures r <= b
  {
    if b == [] || b[0] == 0 then [] else [b[0]] + UntilZero(b[1..])
  }

  /** The length field, signed as struct.unpack("<i") reads it. */
  function MsgLen(buf: Bytes): i32
    requires |buf| >= 24
  {
    UnpackI32(buf[16..20]).value.0
  }

  function Step(cfg: Config, buf: Bytes): Turn {
    if |buf| < 4 then Wait
    else if buf[..4] != cfg.magic then Bad(BadMagic, buf)
    else if |buf| < 24 then Wait
    else
      var msglen := MsgLen(buf);
      if |buf| < 24 + msglen then Wait
      else
        var msg := Slice(buf, 24, 24 + msglen);
        if buf[20..24] != cfg.hash(msg) then Bad(BadChecksum, buf)
        else
          var rest := Slice(buf, 24 + msglen, |buf|);
          var msgtype := UntilZero(buf[4..16]);
          if msgtype !in cfg.known then Bad(UnknownType, rest)
          else if !cfg.parses(Msg(msgtype, msg)) then Bad(BadPayload, rest)
          else if !cfg.handles(Msg(msgtype, msg)) then Refused(Msg(msgtype, msg), rest)
          else Deliver(Msg(msgtype, msg), rest)
  }

  /** A delivery shortens the buffer, or leaves it unchanged for good: then the announced length is
      -24, or so negative that Python's slice starts before the buffer. */
  lemma DeliveryShrinks(cfg: Config, buf: Bytes)
    requires Step(cfg, buf).Deliver?
    ensures var rest := Step(cfg, buf).rest;
            && |buf| >= 24
            && (|rest| >= |buf| <==> rest == buf)
            && (rest == buf <==> MsgLen(buf) == -24 || MsgLen(buf) <= -24 - |buf|)
  {
    hide MsgLen, UntilZero;
    RestOf(buf, 24 + MsgLen(buf));
  }

  lemma RestOf(buf: Bytes, i: int)
    requires i <= |buf|
    ensures var rest := Slice(buf, i, |buf|);
            && |rest| <= |buf| && (|rest| == |buf| <==> rest == buf)
            && (rest == buf <==> i == 0 || i <= -|buf| || buf == [])
  {
    assert buf[0..|buf|] == buf;
  }

  /** The whole loop: what is delivered, how it ends, and the buffer then. */
  function Drain(cfg: Config, buf: Bytes): (r: (seq<Msg>, End, Bytes))
    decreases |buf|
  {
    match Step(cfg, buf)
    case Wait => ([], Waiting, buf)
    case Bad(e, b) => ([], Raised(e), b)
    case Refused(m, rest) => ([m], Raised(CallbackRaised), rest)
    case Deliver(m, rest) =>
      if |rest| >= |buf| then ([m], Forever, buf)
      else
        var (ms, end, b) := Drain(cfg, rest);
        ([m] + ms, end, b)
  }

  class P2PConnection {
    const cfg: Config
    var recvbuf: Bytes
    var delivered: seq<Msg>

    constructor (cfg: Config)
      ensures this.cfg == cfg && recvbuf == [] && delivered == []
    {
      this.cfg := cfg;
      recvbuf, delivered := [], [];
    }

    method DataReceived(t: Bytes) returns (end: End)
      modifies this
      ensures var (ms, e, b) := Drain(cfg, old(recvbuf) + t);
              t != [] ==> delivered == old(delivered) + ms && end == e && recvbuf == b
      ensures t == [] ==> delivered == old(delivered) && recvbuf == old(recvbuf) && end == Waiting
    {
      if |t| > 0 {
        recvbuf := recvbuf + t;
        end := OnData();
      } else {
        end := Waiting;
      }
    }

    method OnData() returns (end: End)
      modifies this
      ensures var (ms, e, b) := Drain(cfg, old(recvbuf));
              delivered == old(delivered) + ms && end == e && recvbuf == b
    {
      hide Step;
      ghost var all := Drain(cfg, recvbuf);
      assert delivered + all.0 == old(delivered) + all.0;
      while true
        invariant var (ms, e, b) := Drain(cfg, recvbuf);
                  old(delivered) + all.0 == delivered + ms && e == all.1 && b == all.2
        decreases |recvbuf|
      {
        ghost var ms := Drain(cfg, recvbuf).0;
        match Step(cfg, recvbuf) {
          case Wait =>
            assert delivered + [] == delivered;
            return Waiting;
          case Bad(e, b) =>
            assert delivered + [] == delivered;
            recvbuf := b;
            return Raised(e);
          case Refused(m, rest) =>
            recvbuf := rest;
            delivered := delivered + [m];
            return Raised(CallbackRaised);
          case Deliver(m, rest) =>
            delivered := delivered + [m];
            if |rest| >= |recvbuf| { return Forever; }
            ghost var later := Drain(cfg, rest).0;
            assert old(delivered) + all.0 == delivered + later by {
              assert ms == [m] + later;
            }
            recvbuf := rest;
        }
      }
    }
  }

  // ----- framing -----

  function Zeros(n: nat): (b: Bytes)
    ensures |b| == n
  {
    seq(n, _ => 0)
  }

  /** A message that the reader accepts once it is framed: a known type of at most twelve bytes without
      a zero, and a payload that deserializes and is handled. */
  predicate Acceptable(cfg: Config, m: Msg) {
    |m.msgtype| <= 12 && 0 !in m.msgtype && m.msgtype in cfg.known && cfg.parses(m) && cfg.handles(m)
  }

  /** An acceptable message with a payload below 2^31 bytes. */
  predicate Framable(cfg: Config, m: Msg) {
    Acceptable(cfg, m) && |m.payload| < 0x8000_0000
  }

  /** build_message. */
  function Build(cfg: Config, m: Msg): (b: Bytes)
    requires |m.msgtype| <= 12 && |m.payload| < U32
    ensures |b| == 24 + |m.payload|
  {
    cfg.magic + (m.msgtype + Zeros(12 - |m.msgtype|)) + PackU32(|m.payload|) + cfg.hash(m.payload) + m.payload
  }

  lemma {:induction false} UntilZeroPadded(t: Bytes, n: nat)
    requires 0 !in t
    ensures UntilZero(t + Zeros(n)) == t
  {
    if t == [] {
      assert t + Zeros(n) == Zeros(n);
    } else {
      assert (t + Zeros(n))[1..] == t[1..] + Zeros(n);
      UntilZeroPadded(t[1..], n);
    }
  }

  /** The fields of a frame, wherever its bytes are followed by more. */
  lemma Fields(cfg: Config, m: Msg, buf: Bytes)
    requires Framable(cfg, m)
    requires buf <= Build(cfg, m) || Build(cfg, m) <= buf
    ensures |buf| >= 4 ==> buf[..4] == cfg.magic
    ensures |buf| >= 24 ==> buf[4..16] == m.msgtype + Zeros(12 - |m.msgtype|)
                            && buf[16..20] == PackU32(|m.payload|) && buf[20..24] == cfg.hash(m.payload)
    ensures |buf| >= 24 + |m.payload| ==> buf[24..24 + |m.payload|] == m.payload
  {
    hide PackU32;
    var whole := if |buf| < |Build(cfg, m)| then Build(cfg, m) else buf;
    assert buf <= whole && Build(cfg, m) <= whole;
    assert whole[4..16] == Build(cfg, m)[4..16] == m.msgtype + Zeros(12 - |m.msgtype|);
    assert whole[16..20] == Build(cfg, m)[16..20] == PackU32(|m.payload|);
    assert whole[20..24] == Build(cfg, m)[20..24] == cfg.hash(m.payload);
  }

  lemma MsgLenOf(n: nat)
    requires n < 0x8000_0000
    ensures UnpackI32(PackU32(n)).value.0 == n && UnpackI32(PackU32(n)).Some?
  {
    hide UnpackI32, PackU32;
    I32Trip(n, []);
    assert PackI32(n) == PackU32(n) && PackU32(n) + [] == PackU32(n);
  }

  /** Part of a frame: nothing is delivered and nothing raised. */
  lemma PartWaits(cfg: Config, m: Msg, buf: Bytes)
    requires Framable(cfg, m) && buf <= Build(cfg, m) && |buf| < |Build(cfg, m)|
    ensures Step(cfg, buf) == Wait
  {
    hide Build, UnpackI32, PackU32;
    Fields(cfg, m, buf);
    MsgLenOf(|m.payload|);
  }

  /** A whole frame: its message, and what follows stays. */
  lemma FrameDelivers(cfg: Config, m: Msg, rest: Bytes)
    requires Framable(cfg, m)
    ensures Step(cfg, Build(cfg, m) + rest) == Deliver(m, rest)
  {
    hide Build, UnpackI32, PackU32;
    var buf := Build(cfg, m) + rest;
    Fields(cfg, m, buf);
    MsgLenOf(|m.payload|);
    UntilZeroPadded(m.msgtype, 12 - |m.msgtype|);
    assert buf[24 + |m.payload|..|buf|] == rest;
  }

  // ----- what is delivered, and from which bytes -----

  /** A frame with the twelve bytes of the type field as they are. */
  function Frame(cfg: Config, field: Bytes, payload: Bytes): (b: Bytes)
    requires |field| == 12 && |payload| < U32
    ensures |b| == 24 + |payload|
  {
    cfg.magic + field + PackU32(|payload|) + cfg.hash(payload) + payload
  }

  lemma LengthBytes(b: Bytes)
    requires |b| == 4 && UnpackI32(b).value.0 >= 0
    ensures 0 <= UnpackI32(b).value.0 < 0x8000_0000 && PackU32(UnpackI32(b).value.0) == b
  {
    LEBytesRoundTrip(b);
    assert b[..4] == b;
  }

  /** Unless the announced length is negative, a message is delivered exactly from a frame with the magic bytes, a type
      field that starts with its type, its length and the checksum of its payload, whatever follows; built messages
      are the frames whose field is filled up with zeros. */
  lemma DeliversIff(cfg: Config, buf: Bytes, m: Msg, rest: Bytes)
    requires |buf| >= 24 ==> MsgLen(buf) >= 0
    ensures Step(cfg, buf) == Deliver(m, rest)
       <==> (&& m.msgtype in cfg.known && cfg.parses(m) && cfg.handles(m) && |m.payload| < 0x8000_0000
             && exists field: Bytes ::
                  |field| == 12 && UntilZero(field) == m.msgtype && buf == Frame(cfg, field, m.payload) + rest)
  {
    hide UntilZero;
    if Step(cfg, buf) == Deliver(m, rest) {
      DeliveredFrame(cfg, buf, m, rest);
      assert UntilZero(buf[4..16]) == m.msgtype && buf == Frame(cfg, buf[4..16], m.payload) + rest;
    }
    if |m.payload| < 0x8000_0000 {
      forall field: Bytes | |field| == 12 && UntilZero(field) == m.msgtype && buf == Frame(cfg, field, m.payload) + rest
        ensures m.msgtype in cfg.known && cfg.parses(m) && cfg.handles(m) ==> Step(cfg, buf) == Deliver(m, rest)
      {
        FrameStep(cfg, field, m, rest);
      }
    }
  }

  lemma DeliveredFrame(cfg: Config, buf: Bytes, m: Msg, rest: Bytes)
    requires |buf| >= 24 ==> MsgLen(buf) >= 0
    requires Step(cfg, buf) == Deliver(m, rest)
    ensures |buf| >= 24 && |m.payload| < 0x8000_0000 && UntilZero(buf[4..16]) == m.msgtype
    ensures buf == Frame(cfg, buf[4..16], m.payload) + rest
  {
    hide UntilZero, UnpackI32, PackU32;
    LengthBytes(buf[16..20]);
    var n := MsgLen(buf);
    assert m.payload == buf[24..24 + n] && rest == buf[24 + n..];
    assert buf == buf[..4] + buf[4..16] + buf[16..20] + buf[20..24] + buf[24..24 + n] + buf[24 + n..];
  }

  lemma FrameStep(cfg: Config, field: Bytes, m: Msg, rest: Bytes)
    requires |field| == 12 && UntilZero(field) == m.msgtype && |m.payload| < 0x8000_0000
    ensures m.msgtype in cfg.known && cfg.parses(m) && cfg.handles(m) ==>
              Step(cfg, Frame(cfg, field, m.payload) + rest) == Deliver(m, rest)
  {
    hide UntilZero, UnpackI32, PackU32;
    var n := |m.payload|;
    var buf := Frame(cfg, field, m.payload) + rest;
    MsgLenOf(n);
    FrameFields(cfg, field, m.payload, rest);
    assert buf[24 + n..|buf|] == rest;
  }

  lemma FrameFields(cfg: Config, field: Bytes, payload: Bytes, rest: Bytes)
    requires |field| == 12 && |payload| < U32
    ensures var buf := Frame(cfg, field, payload) + rest;
            && buf[..4] == cfg.magic && buf[4..16] == field && buf[16..20] == PackU32(|payload|)
            && buf[20..24] == cfg.hash(payload) && buf[24..24 + |payload|] == payload && buf[24 + |payload|..] == rest
  {
    hide PackU32;
  }

  /** The errors: any other magic bytes, a checksum that is not the payload's, an unknown type, a payload that does not
      deserialize; and a callback that raises after its message.  The first two keep the buffer. */
  lemma ErrorCases(cfg: Config, magic: Bytes4, field: Bytes, payload: Bytes, sum: Bytes4, rest: Bytes)
    requires |field| == 12 && |payload| < 0x8000_0000
    ensures var buf := magic + field + PackU32(|payload|) + sum + payload + rest;
            var m := Msg(UntilZero(field), payload);
            Step(cfg, buf)
            == if magic != cfg.magic then Bad(BadMagic, buf)
               else if sum != cfg.hash(payload) then Bad(BadChecksum, buf)
               else if m.msgtype !in cfg.known then Bad(UnknownType, rest)
               else if !cfg.parses(m) then Bad(BadPayload, rest)
               else if !cfg.handles(m) then Refused(m, rest)
               else Deliver(m, rest)
  {
    hide UntilZero, UnpackI32, PackU32;
    MsgLenOf(|payload|);
    SixParts(magic, field, PackU32(|payload|), sum, payload, rest);
  }

  lemma SixParts(magic: Bytes4, field: Bytes, length: Bytes, sum: Bytes4, payload: Bytes, rest: Bytes)
    requires |field| == 12 && |length| == 4
    ensures var buf, n := magic + field + length + sum + payload + rest, |payload|;
            && |buf| >= 24 + n && buf[..4] == magic && buf[4..16] == field && buf[16..20] == length
            && buf[20..24] == sum && buf[24..24 + n] == payload && buf[24 + n..|buf|] == rest
  {
  }

  /** After any number of good frames an error stops the loop: what came before is delivered, nothing after it. */
  lemma {:induction false} StopsAtError(cfg: Config, ms: seq<Msg>, tail: Bytes)
    requires AllFramable(cfg, ms)
    ensures match Step(cfg, tail)
            case Bad(e, b) => Drain(cfg, Stream(cfg, ms) + tail) == (ms, Raised(e), b)
            case Refused(m, rest) => Drain(cfg, Stream(cfg, ms) + tail) == (ms + [m], Raised(CallbackRaised), rest)
            case Wait => Drain(cfg, Stream(cfg, ms) + tail) == (ms, Waiting, tail)
            case Deliver(_, _) => true
  {
    hide Build, Step;
    if ms == [] {
      assert Stream(cfg, ms) + tail == tail;
      if Step(cfg, tail).Refused? { assert ms + [Step(cfg, tail).msg] == [Step(cfg, tail).msg]; }
    } else {
      var frame, later := Build(cfg, ms[0]), Stream(cfg, ms[1..]) + tail;
      assert Stream(cfg, ms) + tail == frame + later;
      FrameDelivers(cfg, ms[0], later);
      StopsAtError(cfg, ms[1..], tail);
      DrainStep(cfg, ms[0], frame + later, later);
      assert [ms[0]] + ms[1..] == ms;
      if Step(cfg, tail).Refused? { assert [ms[0]] + (ms[1..] + [Step(cfg, tail).msg]) == ms + [Step(cfg, tail).msg]; }
    }
  }

  lemma BuildIsFrame(cfg: Config, m: Msg)
    requires |m.msgtype| <= 12 && |m.payload| < U32
    ensures Build(cfg, m) == Frame(cfg, m.msgtype + Zeros(12 - |m.msgtype|), m.payload)
  {
    hide PackU32;
  }

  /** What is built is the frame, and the reader of an acceptable message of fewer than 2^31 bytes delivers it
      and nothing else. */
  method BuildMessage(cfg: Config, msgtype: Bytes, data: Bytes) returns (tmsg: Bytes)
    requires |msgtype| <= 12 && |data| < U32
    ensures tmsg == Build(cfg, Msg(msgtype, data))
    ensures Framable(cfg, Msg(msgtype, data)) ==> Drain(cfg, tmsg) == ([Msg(msgtype, data)], Waiting, [])
  {
    tmsg := cfg.magic;
    tmsg := tmsg + msgtype;
    tmsg := tmsg + Zeros(12 - |msgtype|);
    tmsg := tmsg + PackU32(|data|);
    tmsg := tmsg + cfg.hash(data);
    tmsg := tmsg + data;
    assert cfg.magic + msgtype + Zeros(12 - |msgtype|) == cfg.magic + (msgtype + Zeros(12 - |msgtype|));
    if Framable(cfg, Msg(msgtype, data)) { FrameAlone(cfg, Msg(msgtype, data)); }
  }

  lemma FrameAlone(cfg: Config, m: Msg)
    requires Framable(cfg, m)
    ensures Drain(cfg, Build(cfg, m)) == ([m], Waiting, [])
  {
    hide Build, Step;
    FrameDelivers(cfg, m, []);
    Nothing(cfg);
    assert Build(cfg, m) + [] == Build(cfg, m);
    assert Drain(cfg, []) == ([], Waiting, []);
    assert [m] + [] == [m];
  }


  /** Such lengths exist: a header that announces -24 bytes, with the checksum of nothing, is delivered as an
      empty message over and over. */
  lemma ForeverWitness(cfg: Config, t: Bytes)
    requires Acceptable(cfg, Msg(t, []))
    ensures var buf := cfg.magic + (t + Zeros(12 - |t|)) + PackI32(-24) + cfg.hash([]);
            && MsgLen(buf) == -24
            && Step(cfg, buf) == Deliver(Msg(t, []), buf)
            && Drain(cfg, buf) == ([Msg(t, [])], Forever, buf)
  {
    hide PackI32, UnpackI32;
    var buf := cfg.magic + (t + Zeros(12 - |t|)) + PackI32(-24) + cfg.hash([]);
    I32Trip(-24, []);
    assert PackI32(-24) + [] == PackI32(-24);
    assert buf[..4] == cfg.magic && buf[4..16] == t + Zeros(12 - |t|);
    assert buf[16..20] == PackI32(-24) && buf[20..24] == cfg.hash([]);
    UntilZeroPadded(t, 12 - |t|);
    assert Slice(buf, 24, 0) == [] && Slice(buf, 0, |buf|) == buf;
  }

  // ----- streams of frames -----

  ghost predicate AllFramable(cfg: Config, ms: seq<Msg>) {
    forall i :: 0 <= i < |ms| ==> Framable(cfg, ms[i])
  }

  function Stream(cfg: Config, ms: seq<Msg>): Bytes
    requires AllFramable(cfg, ms)
  {
    if ms == [] then [] else Build(cfg, ms[0]) + Stream(cfg, ms[1..])
  }

  /** How many frames lie wholly within the first n bytes of the stream. */
  function Complete(ms: seq<Msg>, n: nat): (k: nat)
    ensures k <= |ms|
  {
    if ms == [] || n < 24 + |ms[0].payload| then 0 else 1 + Complete(ms[1..], n - 24 - |ms[0].payload|)
  }

  lemma {:induction false} StreamSplit(cfg: Config, ms: seq<Msg>, k: nat)
    requires AllFramable(cfg, ms) && k <= |ms|
    ensures Stream(cfg, ms) == Stream(cfg, ms[..k]) + Stream(cfg, ms[k..])
  {
    hide Build;
    if k > 0 {
      StreamSplit(cfg, ms[1..], k - 1);
      assert ms[..k][1..] == ms[1..][..k - 1] && ms[1..][k - 1..] == ms[k..];
      Assoc(Build(cfg, ms[0]), Stream(cfg, ms[1..][..k - 1]), Stream(cfg, ms[k..]));
    } else {
      assert ms[..0] == [] && ms[0..] == ms;
    }
  }

  lemma Assoc(a: Bytes, b: Bytes, c: Bytes)
    ensures a + (b + c) == a + b + c
  {
  }

  /** Draining any prefix of a stream delivers exactly the messages complete in it and keeps the rest. */
  lemma {:induction false} DrainPrefix(cfg: Config, ms: seq<Msg>, buf: Bytes)
    requires AllFramable(cfg, ms) && buf <= Stream(cfg, ms)
    ensures var k := Complete(ms, |buf|);
            && Stream(cfg, ms[..k]) <= buf
            && Drain(cfg, buf) == (ms[..k], Waiting, buf[|Stream(cfg, ms[..k])|..])
    decreases |ms|
  {
    hide Build, Step;
    if ms == [] {
      assert Step(cfg, []) == Wait by { Nothing(cfg); }
    } else {
      var frame := Build(cfg, ms[0]);
      if |buf| < |frame| {
        assert buf <= frame;
        PartWaits(cfg, ms[0], buf);
        assert ms[..0] == [] && buf[0..] == buf;
      } else {
        var rest := buf[|frame|..];
        assert buf == frame + rest;
        FrameDelivers(cfg, ms[0], rest);
        DrainPrefix(cfg, ms[1..], rest);
        DrainStep(cfg, ms[0], buf, rest);
        OneFrameMore(cfg, ms, buf, rest);
      }
    }
  }

  /** What is complete in a frame followed by rest. */
  lemma OneFrameMore(cfg: Config, ms: seq<Msg>, buf: Bytes, rest: Bytes)
    requires AllFramable(cfg, ms) && ms != [] && buf == Build(cfg, ms[0]) + rest
    ensures var k := Complete(ms[1..], |rest|);
            && Complete(ms, |buf|) == k + 1 && ms[..k + 1] == [ms[0]] + ms[1..][..k]
            && (Stream(cfg, ms[1..][..k]) <= rest ==>
                && Stream(cfg, ms[..k + 1]) <= buf
                && buf[|Stream(cfg, ms[..k + 1])|..] == rest[|Stream(cfg, ms[1..][..k])|..])
  {
    hide Build;
    var k := Complete(ms[1..], |rest|);
    var head := ms[..k + 1];
    assert head[0] == ms[0] && head[1..] == ms[1..][..k];
    if Stream(cfg, ms[1..][..k]) <= rest { RestAfter(Build(cfg, ms[0]), rest, |Stream(cfg, ms[1..][..k])|); }
  }

  lemma DrainStep(cfg: Config, m: Msg, buf: Bytes, rest: Bytes)
    requires Step(cfg, buf) == Deliver(m, rest) && |rest| < |buf|
    ensures var (ms, end, b) := Drain(cfg, rest); Drain(cfg, buf) == ([m] + ms, end, b)
  {
    hide Step;
  }

  lemma RestAfter(frame: Bytes, rest: Bytes, n: nat)
    requires n <= |rest|
    ensures (frame + rest)[|frame| + n..] == rest[n..]
  {
  }

  lemma Nothing(cfg: Config)
    ensures Step(cfg, []) == Wait
  {
  }

  lemma {:induction false} CompleteSplit(cfg: Config, ms: seq<Msg>, k: nat, n: nat)
    requires AllFramable(cfg, ms) && k <= |ms| && n >= |Stream(cfg, ms[..k])|
    ensures Complete(ms, n) == k + Complete(ms[k..], n - |Stream(cfg, ms[..k])|)
  {
    hide Build;
    if k > 0 {
      assert ms[..k][0] == ms[0] && ms[..k][1..] == ms[1..][..k - 1] && ms[1..][k - 1..] == ms[k..];
      CompleteSplit(cfg, ms[1..], k - 1, n - 24 - |ms[0].payload|);
    } else {
      assert ms[..0] == [] && ms[0..] == ms;
    }
  }

  // ----- any cutting of the stream -----

  datatype State = State(delivered: seq<Msg>, recvbuf: Bytes, end: End)

  function Receive(cfg: Config, s: State, t: Bytes): State {
    if t == [] then s.(end := Waiting)
    else
      var (ms, e, b) := Drain(cfg, s.recvbuf + t);
      State(s.delivered + ms, b, e)
  }

  /** A connection after a sequence of data_received calls. */
  function Run(cfg: Config, chunks: seq<Bytes>): State {
    if chunks == [] then State([], [], Waiting)
    else Receive(cfg, Run(cfg, chunks[..|chunks| - 1]), chunks[|chunks| - 1])
  }

  function Joined(chunks: seq<Bytes>): Bytes {
    if chunks == [] then [] else Joined(chunks[..|chunks| - 1]) + chunks[|chunks| - 1]
  }

  /** The state the first n bytes of a stream lead to. */
  ghost predicate Reassembled(cfg: Config, ms: seq<Msg>, got: Bytes, s: State)
    requires AllFramable(cfg, ms)
  {
    var k := Complete(ms, |got|);
    s.delivered == ms[..k] && got == Stream(cfg, ms[..k]) + s.recvbuf && s.end == Waiting
  }

  /** However the stream is cut: each message is delivered once, in order, as soon as its last byte is
      there and not before; the buffer is what is not delivered yet; nothing raises and every loop ends. */
  lemma {:induction false} Reassembly(cfg: Config, ms: seq<Msg>, chunks: seq<Bytes>)
    requires AllFramable(cfg, ms) && Joined(chunks) <= Stream(cfg, ms)
    ensures Reassembled(cfg, ms, Joined(chunks), Run(cfg, chunks))
  {
    if chunks == [] {
      hide Drain;
    } else {
      var front, t := chunks[..|chunks| - 1], chunks[|chunks| - 1];
      assert Joined(chunks) == Joined(front) + t;
      Reassembly(cfg, ms, front);
      hide *;
      OneMore(cfg, ms, Joined(front), Run(cfg, front), t);
      RunStep(cfg, chunks);
    }
  }

  lemma RunStep(cfg: Config, chunks: seq<Bytes>)
    requires chunks != []
    ensures Run(cfg, chunks) == Receive(cfg, Run(cfg, chunks[..|chunks| - 1]), chunks[|chunks| - 1])
  {
    hide Receive;
  }

  lemma OneMore(cfg: Config, ms: seq<Msg>, got: Bytes, s: State, t: Bytes)
    requires AllFramable(cfg, ms) && got + t <= Stream(cfg, ms) && Reassembled(cfg, ms, got, s)
    ensures Reassembled(cfg, ms, got + t, Receive(cfg, s, t))
  {
    hide Stream, Drain, Complete;
    if t == [] {
      assert got + t == got;
    } else {
      var k := Complete(ms, |got|);
      var head, buf := Stream(cfg, ms[..k]), s.recvbuf + t;
      StreamSplit(cfg, ms, k);
      Assoc(head, s.recvbuf, t);
      SuffixOf(head, buf, Stream(cfg, ms[k..]));
      DrainPrefix(cfg, ms[k..], buf);
      CompleteSplit(cfg, ms, k, |got + t|);
      var l := Complete(ms[k..], |buf|);
      StreamSplit(cfg, ms[..k + l], k);
      assert ms[..k + l][..k] == ms[..k] && ms[..k + l][k..] == ms[k..][..l];
      assert ms[..k + l] == ms[..k] + ms[k..][..l];
      var mid := Stream(cfg, ms[k..][..l]);
      assert buf == mid + buf[|mid|..];
      Assoc(head, mid, buf[|mid|..]);
    }
  }

  lemma SuffixOf(head: Bytes, buf: Bytes, tail: Bytes)
    requires head + buf <= head + tail
    ensures buf <= tail
  {
    assert (head + buf)[|head|..] == buf && (head + tail)[|head|..] == tail;
    assert forall i :: 0 <= i < |buf| ==> buf[i] == (head + buf)[|head| + i] == (head + tail)[|head| + i];
  }

  /** The whole stream: all messages, and an empty buffer. */
  lemma WholeStream(cfg: Config, ms: seq<Msg>, chunks: seq<Bytes>)
    requires AllFramable(cfg, ms) && Joined(chunks) == Stream(cfg, ms)
    ensures Run(cfg, chunks) == State(ms, [], Waiting)
  {
    hide Run, Joined, Stream, Complete;
    Reassembly(cfg, ms, chunks);
    AllComplete(cfg, ms);
    assert ms[..|ms|] == ms;
  }

  lemma {:induction false} AllComplete(cfg: Config, ms: seq<Msg>)
    requires AllFramable(cfg, ms)
    ensures Complete(ms, |Stream(cfg, ms)|) == |ms|
  {
    hide Build;
    if ms != [] { AllComplete(cfg, ms[1..]); }
  }

  // ----- payloads the signed length field cannot hold -----

  lemma LongFields(cfg: Config, m: Msg, rest: Bytes)
    requires |m.msgtype| <= 12 && 0 !in m.msgtype && 0x8000_0000 <= |m.payload| < U32
    ensures var buf := Build(cfg, m) + rest;
            && MsgLen(buf) == |m.payload| - U32 && buf[..4] == cfg.magic && UntilZero(buf[4..16]) == m.msgtype
            && buf[20..24] == cfg.hash(m.payload) && buf[24..24 + |m.payload|] == m.payload
            && buf[24 + |m.payload|..] == rest
  {
    hide PackU32;
    var buf, whole := Build(cfg, m) + rest, Build(cfg, m);
    assert buf[4..16] == whole[4..16] == m.msgtype + Zeros(12 - |m.msgtype|);
    assert buf[16..20] == whole[16..20] == PackU32(|m.payload|);
    UntilZeroPadded(m.msgtype, 12 - |m.msgtype|);
    LongLength(|m.payload|);
  }

  lemma LongLength(n: nat)
    requires 0x8000_0000 <= n < U32
    ensures UnpackI32(PackU32(n)).Some? && UnpackI32(PackU32(n)).value.0 == n - U32
  {
    hide UnpackI32, PackU32;
    I32Trip(n - U32, []);
    assert PackI32(n - U32) == PackU32(n) && PackU32(n) + [] == PackU32(n);
  }

  lemma LongStep(cfg: Config, m: Msg, buf: Bytes, n: nat)
    requires |buf| >= 24 + n && n >= 0x8000_0000 && MsgLen(buf) == n - U32 && n == |m.payload|
    requires buf[..4] == cfg.magic && UntilZero(buf[4..16]) == m.msgtype && Acceptable(cfg, m)
    requires buf[20..24] == cfg.hash(m.payload) && buf[24..24 + n] == m.payload
    ensures Step(cfg, buf) == Deliver(m, buf[24 + n..]) <==> |buf| > 24 + n && |buf| == U32
  {
    hide MsgLen, UntilZero;
    var end := 24 + n - U32;
    if |buf| == U32 && end < 0 {
      assert Slice(buf, 24, end) == m.payload && Slice(buf, end, |buf|) == buf[24 + n..];
    }
    assert Slice(buf, 24, end) == m.payload ==> |Slice(buf, 24, end)| == n;
  }

  /** Whether a frame of any size is delivered with what follows left over: always below 2^31 bytes of
      payload; from there on the length reads as negative, and only when the buffer happens to hold 2^32
      bytes does the slice counted from its end come out right. */
  lemma FrameDeliversIff(cfg: Config, m: Msg, rest: Bytes)
    requires Acceptable(cfg, m) && |m.payload| < U32
    ensures Step(cfg, Build(cfg, m) + rest) == Deliver(m, rest)
       <==> |m.payload| < 0x8000_0000 || (rest != [] && 24 + |m.payload| + |rest| == U32)
  {
    hide Build, Step, UntilZero, MsgLen;
    if |m.payload| < 0x8000_0000 {
      FrameDelivers(cfg, m, rest);
    } else {
      LongFields(cfg, m, rest);
      LongStep(cfg, m, Build(cfg, m) + rest, |m.payload|);
    }
  }
}
