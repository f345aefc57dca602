/** De-fragmentation (`ReadMessage`) and the read loop: sections 5.4 and 5.5 of RFC 6455. */
module Messages {
  import opened Basics
  import opened Bytes
  import opened Frames

  const OP_CONTINUATION: byte := 0x0
  const OP_TEXT: byte := 0x1
  const OP_BINARY: byte := 0x2
  const OP_CLOSE: byte := 0x8
  const OP_PING: byte := 0x9
  const OP_PONG: byte := 0xA

  datatype Message = Message(opcode: byte, data: seq<byte>)

  /** What one `ReadMessage` call returns, leaves unread, and writes back. */
  datatype Outcome = Outcome(read: Read<Message>, written: seq<byte>)

  function Pong(payload: seq<byte>): seq<byte> {
    EncodeFrame(true, OP_PONG, payload)
  }

  /** `ReadMessage` resumed on the stream s with `msg` accumulated so far. */
  function ReadOn(s: seq<byte>, msgOp: byte, msg: seq<byte>): (r: Outcome)
    ensures r.read.Done? ==> |r.read.rest| < |s|
    decreases |s|
  {
    var p := ParseFrame(s);
    if p.Failed? then Outcome(Failed(p.error, p.rest), [])
    else
      var f := p.value;
      if f.opcode == OP_PING then
        var r := ReadOn(p.rest, msgOp, msg);
        Outcome(r.read, Pong(f.payload) + r.written)
      else if f.opcode == OP_PONG then ReadOn(p.rest, msgOp, msg)
      else if f.opcode == OP_CLOSE then
        Outcome(Failed(ConnectionClosed, p.rest), EncodeFrame(true, OP_CLOSE, []))
      else if f.opcode !in {OP_CONTINUATION, OP_TEXT, OP_BINARY} then
        Outcome(Failed(UnknownOpcode(f.opcode), p.rest), [])
      else
        var op := if f.opcode == OP_CONTINUATION then msgOp else f.opcode;
        var m := msg + f.payload;
        if |m| > MAX_MESSAGE_BYTES then Outcome(Failed(MessageTooLarge, p.rest), [])
        else if f.fin then Outcome(Done(Message(op, m), p.rest), [])
        else ReadOn(p.rest, op, m)
  }

  function Prefixed(written: seq<byte>, r: Outcome): Outcome {
    Outcome(r.read, written + r.written)
  }

  /** One turn of the loop: `ReadOn` unfolded once, with `w` already written. */
  lemma ReadOnStep(s: seq<byte>, msgOp: byte, msg: seq<byte>, w: seq<byte>)
    ensures Prefixed(w, ReadOn(s, msgOp, msg)) ==
      var p := ParseFrame(s);
      if p.Failed? then Outcome(Failed(p.error, p.rest), w)
      else
        var f := p.value;
        if f.opcode == OP_PING then Prefixed(w + Pong(f.payload), ReadOn(p.rest, msgOp, msg))
        else if f.opcode == OP_PONG then Prefixed(w, ReadOn(p.rest, msgOp, msg))
        else if f.opcode == OP_CLOSE then
          Outcome(Failed(ConnectionClosed, p.rest), w + EncodeFrame(true, OP_CLOSE, []))
        else if f.opcode !in {OP_CONTINUATION, OP_TEXT, OP_BINARY} then
          Outcome(Failed(UnknownOpcode(f.opcode), p.rest), w)
        else
          var op := if f.opcode == OP_CONTINUATION then msgOp else f.opcode;
          var m := msg + f.payload;
          if |m| > MAX_MESSAGE_BYTES then Outcome(Failed(MessageTooLarge, p.rest), w)
          else if f.fin then Outcome(Done(Message(op, m), p.rest), w)
          else Prefixed(w, ReadOn(p.rest, op, m))
  {
    var p := ParseFrame(s);
    assert w + [] == w;
    if p.Done? && p.value.opcode == OP_PING {
      var more := ReadOn(p.rest, msgOp, msg).written;
      assert w + (Pong(p.value.payload) + more) == w + Pong(p.value.payload) + more;
    }
  }

  /** One connection, seen as the octets still to arrive and the octets sent back. */
  class Conn {
    const br: ByteStream
    const bw: ByteSink

    constructor (incoming: seq<byte>)
      ensures fresh(br) && fresh(bw) && br.rest == incoming && bw.out == []
    {
      br := new ByteStream(incoming);
      bw := new ByteSink();
    }

    method WriteControl(opcode: byte, payload: seq<byte>)
      modifies bw
      ensures bw.out == old(bw.out) + EncodeFrame(true, opcode, payload)
    {
      WriteFrame(bw, true, opcode, payload);
    }

    method ReadMessage() returns (r: Read<Message>)
      modifies br, bw
      ensures var spec := ReadOn(old(br.rest), 0, []);
        r == spec.read && br.rest == r.rest && bw.out == old(bw.out) + spec.written
    {
      hide ParseFrame, ReadOn, EncodeFrame;
      var msgOp: byte := 0;
      var msg: seq<byte> := [];
      ghost var pongs: seq<byte> := [];
      while true
        invariant bw.out == old(bw.out) + pongs
        invariant ReadOn(old(br.rest), 0, []) == Prefixed(pongs, ReadOn(br.rest, msgOp, msg))
        decreases |br.rest|
      {
        ghost var s, op0, msg0 := br.rest, msgOp, msg;
        ReadOnStep(s, op0, msg0, pongs);
        var p := ReadFrame(br);
        if p.Failed? { return Failed(p.error, br.rest); }
        var f := p.value;
        if f.opcode == OP_PING {
          WriteControl(OP_PONG, f.payload);
          pongs := pongs + Pong(f.payload);
          continue;
        } else if f.opcode == OP_PONG {
          continue;
        } else if f.opcode == OP_CLOSE {
          WriteControl(OP_CLOSE, []);
          return Failed(ConnectionClosed, br.rest);
        } else if f.opcode == OP_TEXT || f.opcode == OP_BINARY {
          msgOp := f.opcode;
          msg := msg + f.payload;
        } else if f.opcode == OP_CONTINUATION {
          msg := msg + f.payload;
        } else {
          return Failed(UnknownOpcode(f.opcode), br.rest);
        }
        if |msg| > MAX_MESSAGE_BYTES { return Failed(MessageTooLarge, br.rest); }
        if f.fin { return Done(Message(msgOp, msg), br.rest); }
      }
    }

    /** The client read loop: every non-empty message goes to the handler, until an error. */
    method ReadPump() returns (delivered: seq<seq<byte>>, error: ReadError)
      modifies br, bw
      ensures var spec := Pump(old(br.rest));
        delivered == spec.delivered && error == spec.error && bw.out == old(bw.out) + spec.written
    {
      hide ReadOn, Pump;
      delivered := [];
      ghost var w: seq<byte> := [];
      while true
        invariant bw.out == old(bw.out) + w
        invariant Pump(old(br.rest)) == After(delivered, w, Pump(br.rest))
        decreases |br.rest|
      {
        ghost var s, d0, w0 := br.rest, delivered, w;
        PumpStep(s, d0, w0);
        var r := ReadMessage();
        w := w + ReadOn(s, 0, []).written;
        if r.Failed? { return delivered, r.error; }
        if |r.value.data| > 0 {
          delivered := delivered + [r.value.data];
        }
      }
    }
  }

  datatype Session = Session(delivered: seq<seq<byte>>, error: ReadError, written: seq<byte>)

  function Pump(s: seq<byte>): Session
    decreases |s|
  {
    var r := ReadOn(s, 0, []);
    if r.read.Failed? then Session([], r.read.error, r.written)
    else
      var data := r.read.value.data;
      var more := Pump(r.read.rest);
      Session(NonEmpty(data) + more.delivered, more.error, r.written + more.written)
  }

  function After(delivered: seq<seq<byte>>, written: seq<byte>, r: Session): Session {
    Session(delivered + r.delivered, r.error, written + r.written)
  }

  function NonEmpty(data: seq<byte>): seq<seq<byte>> {
    if |data| > 0 then [data] else []
  }

  lemma PumpStep(s: seq<byte>, d: seq<seq<byte>>, w: seq<byte>)
    ensures var r := ReadOn(s, 0, []);
      After(d, w, Pump(s)) ==
        if r.read.Failed? then Session(d, r.read.error, w + r.written)
        else After(d + NonEmpty(r.read.value.data), w + r.written, Pump(r.read.rest))
  {
    hide ReadOn;
    var r := ReadOn(s, 0, []);
    if r.read.Done? {
      var more := Pump(r.read.rest);
      var x := NonEmpty(r.read.value.data);
      assert d + (x + more.delivered) == d + x + more.delivered;
      assert w + (r.written + more.written) == w + r.written + more.written;
    }
  }

  // ----- Well-formed message streams, as sections 5.4 and 5.5 describe them -----

  datatype FrameWithLayout = Sent(frame: Frame, layout: Layout)

  /** A frame a peer may send: it has a 4-bit opcode, fits the limit and its layout. */
  type Sent = x: FrameWithLayout |
    x.frame.opcode < 16 && |x.frame.payload| <= MAX_MESSAGE_BYTES && LegalLayout(x.layout, |x.frame.payload|)
    witness Sent(Frame(true, 0, []), Layout(0, Seven, []))

  predicate IsPingPong(f: Frame) {
    f.opcode == OP_PING || f.opcode == OP_PONG
  }

  /** A control frame is not fragmented and has a payload of at most 125 octets. */
  predicate IsControl(f: Frame) {
    f.fin && |f.payload| <= 125
  }

  /** One fragmented message with pings and pongs anywhere before its last fragment:
      the first fragment carries the type, the others continue it, only the last has FIN. */
  ghost predicate FragmentedMessage(xs: seq<Sent>, started: bool) {
    xs != [] &&
    var f := xs[0].frame;
    if IsPingPong(f) then IsControl(f) && FragmentedMessage(xs[1..], started)
    else
      && (if started then f.opcode == OP_CONTINUATION else f.opcode == OP_TEXT || f.opcode == OP_BINARY)
      && (if f.fin then |xs| == 1 else FragmentedMessage(xs[1..], true))
  }

  ghost function WireAll(xs: seq<Sent>): seq<byte>
  {
    if xs == [] then [] else Wire(xs[0].frame, xs[0].layout) + WireAll(xs[1..])
  }

  ghost function PayloadOf(xs: seq<Sent>): seq<byte> {
    if xs == [] then []
    else (if IsPingPong(xs[0].frame) then [] else xs[0].frame.payload) + PayloadOf(xs[1..])
  }

  /** The type of the message: the opcode of its first data frame. */
  ghost function TypeOf(xs: seq<Sent>): byte {
    if xs == [] then 0
    else if IsPingPong(xs[0].frame) then TypeOf(xs[1..]) else xs[0].frame.opcode
  }

  function PongFor(f: Frame): seq<byte> {
    if f.opcode == OP_PING then Pong(f.payload) else []
  }

  /** One pong per ping, in order, echoing its payload. */
  ghost function PongsFor(xs: seq<Sent>): seq<byte> {
    if xs == [] then []
    else PongFor(xs[0].frame) + PongsFor(xs[1..])
  }

  /** Returned whole with its pongs when it fits in 1 MiB, refused as too large when not. */
  predicate ReadsAs(r: Outcome, op: byte, data: seq<byte>, tail: seq<byte>, pongs: seq<byte>) {
    if |data| <= MAX_MESSAGE_BYTES then r == Outcome(Done(Message(op, data), tail), pongs)
    else r.read.Failed? && r.read.error == MessageTooLarge
  }

  lemma ReadsPingPong(x: Sent, after: seq<byte>, msgOp: byte, msg: seq<byte>)
    requires IsPingPong(x.frame)
    ensures ReadOn(Wire(x.frame, x.layout) + after, msgOp, msg)
         == Prefixed(PongFor(x.frame), ReadOn(after, msgOp, msg))
  {
    hide ParseFrame, Wire, Pong;
    ParseWire(x.frame, x.layout, after);
  }

  lemma ReadsFragment(x: Sent, after: seq<byte>, msgOp: byte, msg: seq<byte>)
    requires x.frame.opcode in {OP_CONTINUATION, OP_TEXT, OP_BINARY}
    ensures var op := if x.frame.opcode == OP_CONTINUATION then msgOp else x.frame.opcode;
      var m := msg + x.frame.payload;
      ReadOn(Wire(x.frame, x.layout) + after, msgOp, msg)
      == if |m| > MAX_MESSAGE_BYTES then Outcome(Failed(MessageTooLarge, after), [])
         else if x.frame.fin then Outcome(Done(Message(op, m), after), [])
         else ReadOn(after, op, m)
  {
    hide ParseFrame, Wire;
    ParseWire(x.frame, x.layout, after);
  }

  // ----- What the reader accepts -----

  /** What the reader really checks: known opcodes, and FIN on the last data frame only.
      Where a message may start or change type (section 5.4) is not checked. */
  ghost predicate AcceptedFrames(xs: seq<Sent>) {
    xs != [] &&
    var f := xs[0].frame;
    if IsPingPong(f) then AcceptedFrames(xs[1..])
    else
      && f.opcode in {OP_CONTINUATION, OP_TEXT, OP_BINARY}
      && (if f.fin then |xs| == 1 else AcceptedFrames(xs[1..]))
  }

  /** The type reported: that of the last text or binary frame, else whatever came in. */
  ghost function LastType(xs: seq<Sent>, msgOp: byte): byte {
    if xs == [] then msgOp
    else LastType(xs[1..], if xs[0].frame.opcode in {OP_TEXT, OP_BINARY} then xs[0].frame.opcode else msgOp)
  }

  /** The opcodes of the data frames. */
  ghost function DataOps(xs: seq<Sent>): seq<byte> {
    if xs == [] then [] else (if IsPingPong(xs[0].frame) then [] else [xs[0].frame.opcode]) + DataOps(xs[1..])
  }

  /** A continuation continues something: the first data frame starts the message, unless one
      has been started before, and every later one continues it. */
  ghost predicate Continues(ops: seq<byte>, started: bool) {
    forall i :: 0 <= i < |ops| ==> (ops[i] == OP_CONTINUATION <==> started || i > 0)
  }

  /** Every ping and pong is a control frame as section 5.5 wants it. */
  ghost predicate ControlsOk(xs: seq<Sent>) {
    forall i :: 0 <= i < |xs| && IsPingPong(xs[i].frame) ==> IsControl(xs[i].frame)
  }

  /** A well-formed message is what the reader accepts, if each continuation continues something
      and each ping and pong is short and in one piece. */
  lemma {:induction false} WellFormedExactly(xs: seq<Sent>, started: bool)
    ensures FragmentedMessage(xs, started) <==>
      AcceptedFrames(xs) && Continues(DataOps(xs), started) && ControlsOk(xs)
    ensures FragmentedMessage(xs, started) ==>
      forall msgOp: byte :: LastType(xs, msgOp) == if started then msgOp else TypeOf(xs)
  {
    if xs != [] {
      var f, more := xs[0].frame, xs[1..];
      if IsPingPong(f) {
        WellFormedExactly(more, started);
        assert DataOps(xs) == DataOps(more);
        ControlsOn(xs);
      } else {
        WellFormedExactly(more, true);
        ControlsOn(xs);
        ContinuesOn(f.opcode, DataOps(more), started);
        if more == [] { assert DataOps(more) == []; }
      }
    }
  }

  lemma ControlsOn(xs: seq<Sent>)
    requires xs != []
    ensures ControlsOk(xs) <==> (IsPingPong(xs[0].frame) ==> IsControl(xs[0].frame)) && ControlsOk(xs[1..])
  {
    assert forall i :: 0 <= i < |xs| - 1 ==> xs[1..][i] == xs[i + 1];
    if ControlsOk(xs[1..]) {
      forall i | 0 < i < |xs| && IsPingPong(xs[i].frame) ensures IsControl(xs[i].frame) {
        assert xs[i] == xs[1..][i - 1];
      }
    }
  }

  lemma ContinuesOn(op: byte, ops: seq<byte>, started: bool)
    ensures Continues([op] + ops, started) <==> (op == OP_CONTINUATION <==> started) && Continues(ops, true)
  {
    var all := [op] + ops;
    assert all[0] == op && forall i :: 0 <= i < |ops| ==> ops[i] == all[i + 1];
    if Continues(all, started) {
      forall i | 0 <= i < |ops| ensures ops[i] == OP_CONTINUATION <==> true || i > 0 {
        assert all[i + 1] == OP_CONTINUATION;
      }
    }
  }

  /** The reader, resumed in the middle of a message, finishes with the accepted frames. */
  lemma {:induction false} AcceptedReadFrom(xs: seq<Sent>, msgOp: byte, msg: seq<byte>, tail: seq<byte>)
    requires AcceptedFrames(xs) && |msg| <= MAX_MESSAGE_BYTES
    ensures ReadsAs(ReadOn(WireAll(xs) + tail, msgOp, msg),
                    LastType(xs, msgOp), msg + PayloadOf(xs), tail, PongsFor(xs))
  {
    hide ReadOn, Wire, Pong, WireAll, PayloadOf, PongsFor, LastType;
    var x, more := xs[0], xs[1..];
    var f := x.frame;
    var after := WireAll(more) + tail;
    assert xs == [x] + more;
    Joined(x, more, tail);
    TypeGoesOn(xs, msgOp);
    if IsPingPong(f) {
      ReadsPingPong(x, after, msgOp, msg);
      AcceptedReadFrom(more, msgOp, msg, tail);
    } else {
      ReadsFragment(x, after, msgOp, msg);
      var op, m := if f.opcode == OP_CONTINUATION then msgOp else f.opcode, msg + f.payload;
      Associative(msg, f.payload, PayloadOf(more));
      if |m| <= MAX_MESSAGE_BYTES {
        if f.fin {
          NothingMore(more, op, m, tail);
        } else {
          AcceptedReadFrom(more, op, m, tail);
        }
      }
    }
  }

  lemma TypeGoesOn(xs: seq<Sent>, msgOp: byte)
    requires xs != []
    ensures var op := xs[0].frame.opcode;
      LastType(xs, msgOp) == LastType(xs[1..], if op in {OP_TEXT, OP_BINARY} then op else msgOp)
  {}

  lemma NothingMore(more: seq<Sent>, op: byte, m: seq<byte>, tail: seq<byte>)
    requires more == []
    ensures WireAll(more) + tail == tail && m + PayloadOf(more) == m && PongsFor(more) == [] && LastType(more, op) == op
  {}

  /** Any accepted frames, well-formed or not, are returned as one message, of the type of the
      last frame that has one. */
  lemma AcceptedRead(xs: seq<Sent>, tail: seq<byte>)
    requires AcceptedFrames(xs)
    ensures ReadsAs(ReadOn(WireAll(xs) + tail, 0, []), LastType(xs, 0), PayloadOf(xs), tail, PongsFor(xs))
  {
    AcceptedReadFrom(xs, 0, [], tail);
    assert [] + PayloadOf(xs) == PayloadOf(xs);
  }

  /** `ReadMessage` returns a well-formed message whole, and answers each of its pings once,
      if and only if the message is at most 1 MiB; a larger one is refused as too large. */
  lemma Reassembles(xs: seq<Sent>, tail: seq<byte>)
    requires FragmentedMessage(xs, false)
    ensures ReadsAs(ReadOn(WireAll(xs) + tail, 0, []), TypeOf(xs), PayloadOf(xs), tail, PongsFor(xs))
  {
    hide ReadOn;
    WellFormedExactly(xs, false);
    AcceptedRead(xs, tail);
  }

  /** The outcome r is the accepted frames xs at the front of s, and nothing else. */
  ghost predicate ComesFrom(r: Outcome, xs: seq<Sent>, s: seq<byte>, msgOp: byte, msg: seq<byte>) {
    && r.read.Done? && AcceptedFrames(xs)
    && s == WireAll(xs) + r.read.rest
    && r.read.value == Message(LastType(xs, msgOp), msg + PayloadOf(xs))
    && r.written == PongsFor(xs)
    && |msg + PayloadOf(xs)| <= MAX_MESSAGE_BYTES
  }

  /** Any message returned, from any octets at all, is the payload of some accepted frames
      at the front of the stream; nothing is skipped, repeated or invented. */
  lemma {:induction false} MessageComesFromFrames(s: seq<byte>, msgOp: byte, msg: seq<byte>) returns (xs: seq<Sent>)
    requires ReadOn(s, msgOp, msg).read.Done?
    ensures ComesFrom(ReadOn(s, msgOp, msg), xs, s, msgOp, msg)
    decreases |s|
  {
    hide ReadOn, Wire, ParseFrame, Pong, ComesFrom;
    var f, rest := FirstFrameRead(s, msgOp, msg);
    var layout := ParsedIsWire(s);
    var x: Sent := Sent(f, layout);
    if IsPingPong(f) {
      ReadsPingPong(x, rest, msgOp, msg);
      var more := MessageComesFromFrames(rest, msgOp, msg);
      PingPongFirst(x, more, rest, msgOp, msg, ReadOn(rest, msgOp, msg));
      xs := [x] + more;
    } else {
      ReadsFragment(x, rest, msgOp, msg);
      var op, m := if f.opcode == OP_CONTINUATION then msgOp else f.opcode, msg + f.payload;
      if f.fin {
        LastFragment(x, rest, msgOp, msg);
        xs := [x];
      } else {
        var more := MessageComesFromFrames(rest, op, m);
        FragmentFirst(x, more, rest, msgOp, msg, ReadOn(rest, op, m));
        xs := [x] + more;
      }
    }
  }

  lemma PingPongFirst(x: Sent, more: seq<Sent>, rest: seq<byte>, msgOp: byte, msg: seq<byte>, r: Outcome)
    requires IsPingPong(x.frame) && ComesFrom(r, more, rest, msgOp, msg)
    ensures ComesFrom(Prefixed(PongFor(x.frame), r), [x] + more, Wire(x.frame, x.layout) + rest, msgOp, msg)
  {
    hide Wire, Pong;
    Joined(x, more, r.read.rest);
  }

  lemma FragmentFirst(x: Sent, more: seq<Sent>, rest: seq<byte>, msgOp: byte, msg: seq<byte>, r: Outcome)
    requires x.frame.opcode in {OP_CONTINUATION, OP_TEXT, OP_BINARY} && !x.frame.fin
    requires ComesFrom(r, more, rest, if x.frame.opcode == OP_CONTINUATION then msgOp else x.frame.opcode,
                       msg + x.frame.payload)
    ensures ComesFrom(r, [x] + more, Wire(x.frame, x.layout) + rest, msgOp, msg)
  {
    hide Wire, Pong;
    Joined(x, more, r.read.rest);
    assert msg + x.frame.payload + PayloadOf(more) == msg + (x.frame.payload + PayloadOf(more));
  }

  lemma LastFragment(x: Sent, rest: seq<byte>, msgOp: byte, msg: seq<byte>)
    requires x.frame.opcode in {OP_CONTINUATION, OP_TEXT, OP_BINARY} && x.frame.fin
    requires |msg + x.frame.payload| <= MAX_MESSAGE_BYTES
    ensures var op := if x.frame.opcode == OP_CONTINUATION then msgOp else x.frame.opcode;
      ComesFrom(Outcome(Done(Message(op, msg + x.frame.payload), rest), []), [x],
                Wire(x.frame, x.layout) + rest, msgOp, msg)
  {
    hide Wire, Pong;
    Joined(x, [], rest);
    assert [x] + [] == [x] && [x][1..] == [] && WireAll([]) + rest == rest;
    assert PayloadOf([x]) == x.frame.payload + [] == x.frame.payload;
    assert PongsFor([x]) == [] + [];
    var op := if x.frame.opcode == OP_CONTINUATION then msgOp else x.frame.opcode;
    assert AcceptedFrames([x]);
    assert LastType([x], msgOp) == LastType([], op);
    assert Wire(x.frame, x.layout) + rest == WireAll([x]) + rest;
  }

  lemma FirstFrameRead(s: seq<byte>, msgOp: byte, msg: seq<byte>) returns (f: Frame, rest: seq<byte>)
    requires ReadOn(s, msgOp, msg).read.Done?
    ensures ParseFrame(s) == Done(f, rest)
    ensures IsPingPong(f) || f.opcode in {OP_CONTINUATION, OP_TEXT, OP_BINARY}
  {
    f, rest := ParseFrame(s).value, ParseFrame(s).rest;
  }

  lemma Joined(x: Sent, more: seq<Sent>, rest: seq<byte>)
    ensures var xs := [x] + more;
      && xs[0] == x && xs[1..] == more
      && WireAll(xs) + rest == Wire(x.frame, x.layout) + (WireAll(more) + rest)
      && PayloadOf(xs) == (if IsPingPong(x.frame) then [] else x.frame.payload) + PayloadOf(more)
      && PongsFor(xs) == PongFor(x.frame) + PongsFor(more)
      && (IsPingPong(x.frame) ==> PayloadOf(xs) == PayloadOf(more))
      && (!IsPingPong(x.frame) ==> PongsFor(xs) == PongsFor(more))
  {
    assert ([x] + more)[1..] == more;
  }

  /** Not continuing anything is no error: a lone continuation frame, which starts no message,
      is returned as a message whose type is the continuation opcode. */
  lemma OrphanContinuationIsReturned(tail: seq<byte>)
    ensures ReadOn([128, 1, 65] + tail, 0, []).read == Done(Message(OP_CONTINUATION, [65]), tail)
    ensures !FragmentedMessage([Sent(Frame(true, OP_CONTINUATION, [65]), ServerLayout(1))], false)
  {
    var f := Frame(true, OP_CONTINUATION, [65]);
    FrameRoundTrip(f, tail);
    assert EncodeFrame(true, OP_CONTINUATION, [65]) == [128, 1, 65];
    assert [] + f.payload == [65];
  }

  /** Nor is starting again: a second text or binary frame in mid-message is taken for more of
      it, and changes its type. */
  lemma SecondStartIsReturned(first: Sent, second: Sent, tail: seq<byte>)
    requires first.frame.opcode in {OP_TEXT, OP_BINARY} && !first.frame.fin
    requires second.frame.opcode in {OP_TEXT, OP_BINARY} && second.frame.fin
    ensures var data := first.frame.payload + second.frame.payload;
      ReadsAs(ReadOn(WireAll([first, second]) + tail, 0, []), second.frame.opcode, data, tail, [])
    ensures !FragmentedMessage([first, second], false)
  {
    hide ReadOn, Wire;
    var xs := [first, second];
    assert xs[1..] == [second] && [second][1..] == [];
    assert PayloadOf([second]) == second.frame.payload + [] == second.frame.payload;
    assert PongsFor([second]) == [];
    assert PongsFor(xs) == [];
    assert LastType([second], first.frame.opcode) == LastType([], second.frame.opcode);
    AcceptedRead(xs, tail);
  }

  /** Nor is a ping that is fragmented or too long: it is answered, and the message is returned.
      The answer to one that is too long is itself a frame no peer may send. */
  lemma BadPingIsAnswered(ping: Sent, data: Sent, tail: seq<byte>)
    requires ping.frame.opcode == OP_PING && !IsControl(ping.frame)
    requires data.frame.opcode in {OP_TEXT, OP_BINARY} && data.frame.fin
    ensures !FragmentedMessage([ping, data], false) && Continues(DataOps([ping, data]), false)
    ensures ReadsAs(ReadOn(WireAll([ping, data]) + tail, 0, []), data.frame.opcode, data.frame.payload, tail,
                    Pong(ping.frame.payload))
    ensures var answer := Frame(true, OP_PONG, ping.frame.payload);
      && ParseFrame(Pong(ping.frame.payload) + tail) == Done(answer, tail)
      && (IsControl(answer) <==> |ping.frame.payload| <= 125)
  {
    hide ReadOn, Wire, Pong, ParseFrame;
    var xs := [ping, data];
    assert xs[1..] == [data] && [data][1..] == [];
    assert PayloadOf([data]) == data.frame.payload + [] == data.frame.payload;
    assert PayloadOf(xs) == [] + data.frame.payload == data.frame.payload;
    assert PongsFor([data]) == [];
    assert PongsFor(xs) == Pong(ping.frame.payload) + [] == Pong(ping.frame.payload);
    assert LastType([data], 0) == LastType([], data.frame.opcode);
    assert DataOps(xs) == DataOps([data]) == [data.frame.opcode] + [];
    AcceptedRead(xs, tail);
    PongReadsBack(ping.frame.payload, tail);
  }

  lemma PongReadsBack(payload: seq<byte>, tail: seq<byte>)
    requires |payload| <= MAX_MESSAGE_BYTES
    ensures ParseFrame(Pong(payload) + tail) == Done(Frame(true, OP_PONG, payload), tail)
  {
    FrameRoundTrip(Frame(true, OP_PONG, payload), tail);
  }

  // ----- What ends a read -----

  /** One frame by the number of its opcode, as section 5.2 assigns them: 0 continues, 1 is
      text, 2 binary, 8 close, 9 ping, 10 pong; the others are refused. */
  lemma ReadsByOpcode(s: seq<byte>, msgOp: byte, msg: seq<byte>)
    requires ParseFrame(s).Done?
    ensures var f, rest := ParseFrame(s).value, ParseFrame(s).rest;
      ReadOn(s, msgOp, msg) ==
        if f.opcode == 9 then Prefixed(EncodeFrame(true, 10, f.payload), ReadOn(rest, msgOp, msg))
        else if f.opcode == 10 then ReadOn(rest, msgOp, msg)
        else if f.opcode == 8 then Outcome(Failed(ConnectionClosed, rest), [0x88, 0x00])
        else if f.opcode > 2 then Outcome(Failed(UnknownOpcode(f.opcode), rest), [])
        else
          var op, m := if f.opcode == 0 then msgOp else f.opcode, msg + f.payload;
          if |m| > 0x10_0000 then Outcome(Failed(MessageTooLarge, rest), [])
          else if f.fin then Outcome(Done(Message(op, m), rest), [])
          else ReadOn(rest, op, m)
  {
    hide ParseFrame;
    WritesOctets(true, 8, []);
    assert EncodeFrame(true, 8, []) == [0x88, 0x00];
  }

  /** Frames in mid-message: pings and pongs, and fragments of at most 1 MiB none of which is
      the last. */
  ghost predicate Unfinished(xs: seq<Sent>) {
    && (forall x <- xs :: if IsPingPong(x.frame) then true else x.frame.opcode <= 2 && !x.frame.fin)
    && |PayloadOf(xs)| <= 0x10_0000
  }

  lemma {:induction false} ReadsUnfinished(xs: seq<Sent>, after: seq<byte>, msgOp: byte, msg: seq<byte>)
    requires Unfinished(xs) && |msg + PayloadOf(xs)| <= 0x10_0000
    ensures ReadOn(WireAll(xs) + after, msgOp, msg)
         == Prefixed(PongsFor(xs), ReadOn(after, LastType(xs, msgOp), msg + PayloadOf(xs)))
  {
    hide ReadOn, Wire, Pong;
    if xs == [] {
      assert WireAll(xs) + after == after && msg + PayloadOf(xs) == msg;
      var r := ReadOn(after, msgOp, msg);
      assert [] + r.written == r.written;
    } else {
      var x, more := xs[0], xs[1..];
      assert xs == [x] + more;
      Joined(x, more, after);
      if IsPingPong(x.frame) {
        ReadsPingPong(x, WireAll(more) + after, msgOp, msg);
        ReadsUnfinished(more, after, msgOp, msg);
      } else {
        ReadsFragment(x, WireAll(more) + after, msgOp, msg);
        Associative(msg, x.frame.payload, PayloadOf(more));
        ReadsUnfinished(more, after, if x.frame.opcode == 0 then msgOp else x.frame.opcode, msg + x.frame.payload);
      }
      var r := ReadOn(after, LastType(xs, msgOp), msg + PayloadOf(xs));
      Associative(PongFor(x.frame), PongsFor(more), r.written);
    }
  }

  /** A close frame in mid-message, fragmented or not and whatever it carries: the read ends
      with the connection closed, nothing of the message is returned, the pings before it have
      been answered, and the answer to it is one empty close frame. */
  lemma ClosedByPeer(xs: seq<Sent>, close: Sent, tail: seq<byte>)
    requires Unfinished(xs) && close.frame.opcode == 8
    ensures ReadOn(WireAll(xs) + (Wire(close.frame, close.layout) + tail), 0, [])
         == Outcome(Failed(ConnectionClosed, tail), PongsFor(xs) + [0x88, 0x00])
  {
    hide ReadOn, Wire, ParseFrame, Pong;
    assert [] + PayloadOf(xs) == PayloadOf(xs);
    ReadsUnfinished(xs, Wire(close.frame, close.layout) + tail, 0, []);
    ParseWire(close.frame, close.layout, tail);
    ReadsByOpcode(Wire(close.frame, close.layout) + tail, LastType(xs, 0), PayloadOf(xs));
  }

  /** An opcode no version of the protocol defines ends it with that error and no answer. */
  lemma UnknownIsRefused(xs: seq<Sent>, other: Sent, tail: seq<byte>)
    requires Unfinished(xs) && (3 <= other.frame.opcode <= 7 || 11 <= other.frame.opcode)
    ensures ReadOn(WireAll(xs) + (Wire(other.frame, other.layout) + tail), 0, [])
         == Outcome(Failed(UnknownOpcode(other.frame.opcode), tail), PongsFor(xs))
  {
    hide ReadOn, Wire, ParseFrame, Pong;
    assert [] + PayloadOf(xs) == PayloadOf(xs) && PongsFor(xs) + [] == PongsFor(xs);
    ReadsUnfinished(xs, Wire(other.frame, other.layout) + tail, 0, []);
    ParseWire(other.frame, other.layout, tail);
    ReadsByOpcode(Wire(other.frame, other.layout) + tail, LastType(xs, 0), PayloadOf(xs));
  }

  /** So does a frame that cannot be read: too large, or cut off. */
  lemma BadFrameEndsRead(xs: seq<Sent>, after: seq<byte>)
    requires Unfinished(xs) && ParseFrame(after).Failed?
    ensures ReadOn(WireAll(xs) + after, 0, [])
         == Outcome(Failed(ParseFrame(after).error, ParseFrame(after).rest), PongsFor(xs))
  {
    hide Wire, ParseFrame, Pong;
    assert [] + PayloadOf(xs) == PayloadOf(xs) && PongsFor(xs) + [] == PongsFor(xs);
    ReadsUnfinished(xs, after, 0, []);
  }

  /** The pump hands on nothing empty, and stops at the first read that fails. */
  lemma {:induction false} PumpStops(s: seq<byte>)
    ensures forall d <- Pump(s).delivered :: d != []
    ensures var first := ReadOn(s, 0, []);
            first.read.Failed? ==> Pump(s) == Session([], first.read.error, first.written)
    decreases |s|
  {
    hide ReadOn;
    if ReadOn(s, 0, []).read.Done? { PumpStops(ReadOn(s, 0, []).read.rest); }
  }

  // ----- Whole connections -----

  /** Messages the reader accepts, all well-formed ones of at most 1 MiB among them. */
  ghost predicate Conversation(ms: seq<seq<Sent>>) {
    forall xs <- ms :: AcceptedFrames(xs) && |PayloadOf(xs)| <= MAX_MESSAGE_BYTES
  }

  ghost function WireConversation(ms: seq<seq<Sent>>): seq<byte>
    requires Conversation(ms)
  {
    if ms == [] then []
    else WireAll(ms[0]) + WireConversation(ms[1..])
  }

  ghost function PayloadsOf(ms: seq<seq<Sent>>): seq<seq<byte>> {
    if ms == [] then []
    else (if PayloadOf(ms[0]) == [] then [] else [PayloadOf(ms[0])]) + PayloadsOf(ms[1..])
  }

  ghost function AllPongs(ms: seq<seq<Sent>>): seq<byte> {
    if ms == [] then [] else PongsFor(ms[0]) + AllPongs(ms[1..])
  }

  /** Over a whole connection: the handler gets every non-empty message, in order and intact,
      the peer gets exactly one pong per ping, and what follows is read as if it came first. */
  lemma {:induction false} PumpDelivers(ms: seq<seq<Sent>>, tail: seq<byte>)
    requires Conversation(ms)
    ensures Pump(WireConversation(ms) + tail) == After(PayloadsOf(ms), AllPongs(ms), Pump(tail))
  {
    hide ReadOn, Pump, PayloadOf, PongsFor, WireAll, AcceptedFrames;
    if ms == [] {
      assert WireConversation(ms) + tail == tail;
    } else {
      var after := WireConversation(ms[1..]) + tail;
      assert WireConversation(ms) + tail == WireAll(ms[0]) + after;
      AcceptedRead(ms[0], after);
      PumpDelivers(ms[1..], tail);
      PumpStep(WireAll(ms[0]) + after, [], []);
      var first, pongs := NonEmpty(PayloadOf(ms[0])), PongsFor(ms[0]);
      assert [] + first == first && [] + pongs == pongs;
      Associative(first, PayloadsOf(ms[1..]), Pump(tail).delivered);
      Associative(pongs, AllPongs(ms[1..]), Pump(tail).written);
    }
  }
}
