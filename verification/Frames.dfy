/** The frame codec of internal/ws/websocket.go: sections 5.2 and 5.3 of RFC 6455. */
module Frames {
  import opened Basics
  import opened Bytes

  const MAX_MESSAGE_BYTES: nat := 0x10_0000

  datatype Frame = Frame(fin: bool, opcode: byte, payload: seq<byte>)

  datatype ReadError =
    | Eof
    | UnexpectedEof
    | FrameTooLarge(length: nat)
    | ConnectionClosed
    | UnknownOpcode(opcode: byte)
    | MessageTooLarge

  /** The outcome of reading from a byte stream, with what is left of the stream. */
  datatype Read<+T> = Done(value: T, rest: seq<byte>) | Failed(error: ReadError, rest: seq<byte>) {
    predicate IsFailure() { Failed? }
    function PropagateFailure<U>(): Read<U> requires Failed? { Failed(error, rest) }
    function Extract(): (T, seq<byte>) requires Done? { (value, rest) }
  }

  // ----- Reading -----

  /** io.ReadFull: exactly n octets, or an error that distinguishes "none" from "some". */
  function TakeFull(s: seq<byte>, n: nat): Read<seq<byte>> {
    if |s| >= n then Done(s[..n], s[n..])
    else Failed(if s == [] then Eof else UnexpectedEof, [])
  }

  function TakeLength(len7: byte, s: seq<byte>): Read<nat> {
    if len7 == 126 then
      var (ext, rest) :- TakeFull(s, 2);
      Done(BigEndian(ext), rest)
    else if len7 == 127 then
      var (ext, rest) :- TakeFull(s, 8);
      Done(BigEndian(ext), rest)
    else Done(len7, s)
  }

  function TakeKey(masked: bool, s: seq<byte>): (r: Read<seq<byte>>)
    ensures r.Done? ==> |r.value| == 4
  {
    if masked then TakeFull(s, 4) else Done([0, 0, 0, 0], s)
  }

  function Mask(payload: seq<byte>, key: seq<byte>): (r: seq<byte>)
    requires |key| == 4
  {
    seq(|payload|, i requires 0 <= i < |payload| => Xor(payload[i], key[i % 4]))
  }

  function TakeBody(masked: bool, length: nat, s: seq<byte>): (r: Read<seq<byte>>)
    ensures r.Done? ==> |r.value| == length
  {
    var (key, s1) :- TakeKey(masked, s);
    var (payload, s2) :- TakeFull(s1, length);
    Done(if masked then Mask(payload, key) else payload, s2)
  }

  /** What `readFrame` returns on the stream s, and what it leaves unread. */
  function ParseFrame(s: seq<byte>): (r: Read<Frame>)
    ensures r.Done? ==> |r.rest| < |s| && |r.value.payload| <= MAX_MESSAGE_BYTES && r.value.opcode < 16
  {
    var (hdr, s1) :- TakeFull(s, 2);
    var (length, s2) :- TakeLength(hdr[1] % 128, s1);
    if length > MAX_MESSAGE_BYTES then Failed(FrameTooLarge(length), s2)
    else
      var (payload, s3) :- TakeBody(hdr[1] >= 128, length, s2);
      Done(Frame(hdr[0] >= 128, hdr[0] % 16, payload), s3)
  }

  /** A buffered reader over the octets a peer sends. */
  class ByteStream {
    var rest: seq<byte>

    constructor (s: seq<byte>)
      ensures rest == s
    {
      rest := s;
    }

    method ReadFull(n: nat) returns (r: Read<seq<byte>>)
      modifies this
      ensures r == TakeFull(old(rest), n) && rest == r.rest
    {
      r := TakeFull(rest, n);
      rest := r.rest;
    }
  }

  method ReadLength(r: ByteStream, len7: byte) returns (res: Read<nat>)
    modifies r
    ensures res == TakeLength(len7, old(r.rest)) && r.rest == res.rest
  {
    if len7 == 126 {
      var ext := r.ReadFull(2);
      if ext.Failed? { return Failed(ext.error, r.rest); }
      return Done(BigEndian(ext.value), r.rest);
    } else if len7 == 127 {
      var ext := r.ReadFull(8);
      if ext.Failed? { return Failed(ext.error, r.rest); }
      return Done(BigEndian(ext.value), r.rest);
    }
    return Done(len7, r.rest);
  }

  /** Exclusive-or the masking key into a payload buffer, in place. */
  method UnmaskInPlace(payload: array<byte>, key: seq<byte>)
    requires |key| == 4
    modifies payload
    ensures payload[..] == Mask(old(payload[..]), key)
  {
    for i := 0 to payload.Length
      invariant forall k :: 0 <= k < i ==> payload[k] == Xor(old(payload[k]), key[k % 4])
      invariant forall k :: i <= k < payload.Length ==> payload[k] == old(payload[k])
    {
      payload[i] := Xor(payload[i], key[i % 4]);
    }
  }

  method ReadBody(r: ByteStream, masked: bool, length: nat) returns (res: Read<seq<byte>>)
    modifies r
    ensures res == TakeBody(masked, length, old(r.rest)) && r.rest == res.rest
  {
    var key := Done([0, 0, 0, 0], r.rest);
    if masked {
      key := r.ReadFull(4);
      if key.Failed? { return Failed(key.error, r.rest); }
    }
    var body := r.ReadFull(length);
    if body.Failed? { return Failed(body.error, r.rest); }
    var payload := new byte[length](i requires 0 <= i < |body.value| => body.value[i]);
    assert payload[..] == body.value;
    if masked {
      UnmaskInPlace(payload, key.value);
    }
    return Done(payload[..], r.rest);
  }

  /** `readFrame`. */
  method ReadFrame(r: ByteStream) returns (res: Read<Frame>)
    modifies r
    ensures res == ParseFrame(old(r.rest)) && r.rest == res.rest
  {
    var hdr := r.ReadFull(2);
    if hdr.Failed? { return Failed(hdr.error, r.rest); }
    var length := ReadLength(r, hdr.value[1] % 128);
    if length.Failed? { return Failed(length.error, r.rest); }
    if length.value > MAX_MESSAGE_BYTES { return Failed(FrameTooLarge(length.value), r.rest); }
    var payload := ReadBody(r, hdr.value[1] >= 128, length.value);
    if payload.Failed? { return Failed(payload.error, r.rest); }
    return Done(Frame(hdr.value[0] >= 128, hdr.value[0] % 16, payload.value), r.rest);
  }

  // ----- Writing -----

  /** The octets `writeFrame` puts on the wire: server frames are never masked. */
  function EncodeFrame(fin: bool, opcode: byte, payload: seq<byte>): seq<byte> {
    [if fin && opcode < 128 then opcode + 128 else opcode] + EncodeLength(|payload|) + payload
  }

  function EncodeLength(n: nat): seq<byte> {
    if n < 126 then [n]
    else if n < 0x1_0000 then [126] + ToBigEndian(n, 2)
    else [127] + ToBigEndian(n, 8)
  }

  /** A buffered writer; `out` is everything flushed to the peer. */
  class ByteSink {
    var out: seq<byte>

    constructor ()
      ensures out == []
    {
      out := [];
    }

    method Write(s: seq<byte>)
      modifies this
      ensures out == old(out) + s
    {
      out := out + s;
    }
  }

  method WriteFrame(w: ByteSink, fin: bool, opcode: byte, payload: seq<byte>)
    modifies w
    ensures w.out == old(w.out) + EncodeFrame(fin, opcode, payload)
  {
    var b0 := opcode;
    if fin && b0 < 128 {
      b0 := b0 + 128;
    }
    var hdr: seq<byte> := [b0];
    var n := |payload|;
    if n < 126 {
      hdr := hdr + [n];
    } else if n < 0x1_0000 {
      TwoOctets(n);
      hdr := hdr + [126, n / 256 % 256, n % 256];
    } else {
      hdr := hdr + [127];
      hdr := hdr + ToBigEndian(n, 8);
    }
    assert hdr == [b0] + EncodeLength(n);
    Associative(w.out, hdr, payload);
    hide EncodeLength, ToBigEndian;
    w.Write(hdr);
    w.Write(payload);
  }

  lemma TwoOctets(n: nat)
    ensures ToBigEndian(n, 2) == [n / 256 % 256, n % 256]
  {
    assert ToBigEndian(n / 256, 1) == ToBigEndian(n / 256 / 256, 0) + [n / 256 % 256];
  }

  // ----- The wire format of section 5.2, stated independently of the reader -----

  /** The three ways to write a payload length. */
  datatype LengthForm = Seven | Sixteen | SixtyFour

  predicate Fits(form: LengthForm, n: nat) {
    match form
    case Seven => n < 126
    case Sixteen => n < 0x1_0000
    case SixtyFour => n < 0x1_0000_0000_0000_0000
  }

  /** How a sender chose to lay a frame out: reserved bits, length form, masking key. */
  datatype Layout = Layout(rsv: nat, form: LengthForm, key: seq<byte>)

  predicate LegalLayout(l: Layout, n: nat) {
    l.rsv < 8 && Fits(l.form, n) && (l.key == [] || |l.key| == 4)
  }

  /** The octets of the extended length. */
  function Extension(form: LengthForm, n: nat): seq<byte> {
    match form case Seven => [] case Sixteen => ToBigEndian(n, 2) case SixtyFour => ToBigEndian(n, 8)
  }

  function Length7(form: LengthForm, n: nat): (b: byte)
    requires Fits(form, n)
    ensures b < 128
  {
    match form case Seven => n case Sixteen => 126 case SixtyFour => 127
  }

  function Body(payload: seq<byte>, key: seq<byte>): (s: seq<byte>)
    requires key == [] || |key| == 4
    ensures |s| == |payload|
  {
    if key == [] then payload else Mask(payload, key)
  }

  function Header(f: Frame, l: Layout): (s: seq<byte>)
    requires f.opcode < 16 && LegalLayout(l, |f.payload|)
    ensures |s| == 2
  {
    [(if f.fin then 128 else 0) + l.rsv * 16 + f.opcode,
     (if l.key == [] then 0 else 128) + Length7(l.form, |f.payload|)]
  }

  /** The frame f laid out as l; an empty key means the frame is not masked. */
  function Wire(f: Frame, l: Layout): seq<byte>
    requires f.opcode < 16 && LegalLayout(l, |f.payload|)
  {
    Header(f, l) + Extension(l.form, |f.payload|) + l.key + Body(f.payload, l.key)
  }

  // ----- Round trips -----

  lemma MaskCancels(payload: seq<byte>, key: seq<byte>)
    requires |key| == 4
    ensures Mask(Mask(payload, key), key) == payload
  {
    forall i | 0 <= i < |payload| ensures Mask(Mask(payload, key), key)[i] == payload[i] {
      XorCancels(payload[i], key[i % 4]);
    }
  }

  lemma TakePrefix(a: seq<byte>, tail: seq<byte>)
    ensures TakeFull(a + tail, |a|) == Done(a, tail)
  {
    assert (a + tail)[..|a|] == a && (a + tail)[|a|..] == tail;
  }

  lemma TakeLengthOfExtension(form: LengthForm, n: nat, tail: seq<byte>)
    requires Fits(form, n)
    ensures TakeLength(Length7(form, n), Extension(form, n) + tail) == Done(n, tail)
  {
    var ext := Extension(form, n);
    match form
    case Seven => assert ext + tail == tail;
    case Sixteen => BigEndianRoundTrip(n, 2); TakePrefix(ext, tail);
    case SixtyFour => BigEndianRoundTrip(n, 8); TakePrefix(ext, tail);
  }

  lemma TakeBodyOfWire(payload: seq<byte>, key: seq<byte>, tail: seq<byte>)
    requires key == [] || |key| == 4
    ensures TakeBody(key != [], |payload|, key + (Body(payload, key) + tail)) == Done(payload, tail)
  {
    var body := Body(payload, key);
    TakePrefix(key, body + tail);
    TakePrefix(body, tail);
    if key == [] {
      assert key + (body + tail) == body + tail;
    } else {
      MaskCancels(payload, key);
    }
  }

  lemma WireSplits(f: Frame, l: Layout, tail: seq<byte>)
    requires f.opcode < 16 && LegalLayout(l, |f.payload|)
    ensures Wire(f, l) + tail
         == Header(f, l) + (Extension(l.form, |f.payload|) + (l.key + (Body(f.payload, l.key) + tail)))
  {}

  lemma HeaderBits(f: Frame, l: Layout)
    requires f.opcode < 16 && LegalLayout(l, |f.payload|)
    ensures var h := Header(f, l);
      && (h[0] >= 128) == f.fin && h[0] % 16 == f.opcode
      && (h[1] >= 128) == (l.key != []) && h[1] % 128 == Length7(l.form, |f.payload|)
  {}

  lemma HeaderFromBits(h: seq<byte>, f: Frame, l: Layout)
    requires |h| == 2 && f.opcode < 16 && LegalLayout(l, |f.payload|)
    requires f.fin == (h[0] >= 128) && f.opcode == h[0] % 16 && l.rsv == h[0] / 16 % 8
    requires (l.key != []) == (h[1] >= 128) && Length7(l.form, |f.payload|) == h[1] % 128
    ensures h == Header(f, l)
  {}

  /** Whatever layout a peer picks, the reader returns the frame and stops right after it. */
  lemma ParseWire(f: Frame, l: Layout, tail: seq<byte>)
    requires f.opcode < 16 && |f.payload| <= MAX_MESSAGE_BYTES && LegalLayout(l, |f.payload|)
    ensures ParseFrame(Wire(f, l) + tail) == Done(f, tail)
  {
    var n := |f.payload|;
    var hdr := Header(f, l);
    var ext := Extension(l.form, n);
    var s2 := l.key + (Body(f.payload, l.key) + tail);
    WireSplits(f, l, tail);
    TakePrefix(hdr, ext + s2);
    HeaderBits(f, l);
    TakeLengthOfExtension(l.form, n, s2);
    TakeBodyOfWire(f.payload, l.key, tail);
  }

  /** The layout `writeFrame` always picks. */
  function ServerLayout(n: nat): Layout {
    Layout(0, if n < 126 then Seven else if n < 0x1_0000 then Sixteen else SixtyFour, [])
  }

  lemma EncodeIsWire(f: Frame)
    requires f.opcode < 16 && |f.payload| < 0x1_0000_0000_0000_0000
    ensures EncodeFrame(f.fin, f.opcode, f.payload) == Wire(f, ServerLayout(|f.payload|))
  {}

  /** `readFrame` undoes `writeFrame`, whatever follows on the stream. */
  lemma FrameRoundTrip(f: Frame, tail: seq<byte>)
    requires f.opcode < 16 && |f.payload| <= MAX_MESSAGE_BYTES
    ensures ParseFrame(EncodeFrame(f.fin, f.opcode, f.payload) + tail) == Done(f, tail)
  {
    EncodeIsWire(f);
    ParseWire(f, ServerLayout(|f.payload|), tail);
  }

  lemma ExtensionOfTakeLength(len7: byte, s: seq<byte>) returns (form: LengthForm)
    requires len7 < 128 && TakeLength(len7, s).Done?
    ensures var n := TakeLength(len7, s).value;
      Fits(form, n) && Length7(form, n) == len7 && s == Extension(form, n) + TakeLength(len7, s).rest
  {
    form := if len7 == 126 then Sixteen else if len7 == 127 then SixtyFour else Seven;
    var k := match form case Seven => 0 case Sixteen => 2 case SixtyFour => 8;
    if k > 0 {
      ToBigEndianOfBigEndian(s[..k]);
      assert s == s[..k] + s[k..];
    }
  }

  lemma WireOfTakeBody(masked: bool, n: nat, s: seq<byte>) returns (key: seq<byte>)
    requires TakeBody(masked, n, s).Done?
    ensures key == [] || |key| == 4
    ensures masked == (key != [])
    ensures var r := TakeBody(masked, n, s); s == key + (Body(r.value, key) + r.rest)
  {
    key := if masked then s[..4] else [];
    var s1 := s[|key|..];
    assert TakeKey(masked, s).rest == s1;
    assert s == key + s1 && s1 == s1[..n] + s1[n..];
    if masked {
      MaskCancels(s1[..n], key);
    }
  }

  /** The converse: the reader accepts nothing but laid-out frames of at most 1 MiB. */
  lemma ParsedIsWire(s: seq<byte>) returns (l: Layout)
    requires ParseFrame(s).Done?
    ensures var f := ParseFrame(s).value;
      LegalLayout(l, |f.payload|) && s == Wire(f, l) + ParseFrame(s).rest
  {
    var f, rest := ParseFrame(s).value, ParseFrame(s).rest;
    var form := ExtensionOfTakeLength(s[1] % 128, s[2..]);
    var s2 := TakeLength(s[1] % 128, s[2..]).rest;
    var key := WireOfTakeBody(s[1] >= 128, |f.payload|, s2);
    l := Layout(s[0] / 16 % 8, form, key);
    HeaderFromBits(s[..2], f, l);
    WireSplits(f, l, rest);
    assert s == s[..2] + s[2..];
  }

  // ----- The same in octets -----

  /** The payload length announced by the low seven bits of the second octet and what follows. */
  function Announced(len7: nat, ext: seq<byte>): nat {
    if |ext| == 2 then 0x100 * ext[0] as int + ext[1] as int
    else if |ext| == 8 then
      0x100_0000_0000_0000 * ext[0] as int + 0x1_0000_0000_0000 * ext[1] as int
      + 0x100_0000_0000 * ext[2] as int + 0x1_0000_0000 * ext[3] as int
      + 0x100_0000 * ext[4] as int + 0x1_0000 * ext[5] as int + 0x100 * ext[6] as int + ext[7] as int
    else len7
  }

  predicate ExtensionFits(len7: nat, ext: seq<byte>) {
    if len7 == 126 then |ext| == 2 else if len7 == 127 then |ext| == 8 else ext == []
  }

  lemma TakeAnnounced(len7: byte, ext: seq<byte>, tail: seq<byte>)
    requires len7 < 128 && ExtensionFits(len7, ext)
    ensures TakeLength(len7, ext + tail) == Done(Announced(len7, ext), tail)
  {
    hide BigEndian;
    if |ext| == 2 { TwoOctetValue(ext); }
    if |ext| == 8 { EightOctetValue(ext); }
    TakePrefix(ext, tail);
    if ext == [] { assert ext + tail == tail; }
  }

  /** One frame, octet by octet: final or not, an opcode, a length, and a payload that is as
      sent without a mask, and with one has each bit flipped that is set in the key. */
  lemma ReadsOctets(b0: byte, b1: byte, ext: seq<byte>, key: seq<byte>, body: seq<byte>, tail: seq<byte>)
    requires ExtensionFits(b1 % 128, ext) && |key| == (if b1 >= 128 then 4 else 0)
    requires |body| == Announced(b1 % 128, ext) <= 0x10_0000
    ensures var r := ParseFrame([b0, b1] + (ext + (key + (body + tail))));
      && r.Done? && r.rest == tail
      && r.value.fin == (b0 >= 128) && r.value.opcode == b0 % 16 && |r.value.payload| == |body|
      && (key == [] ==> r.value.payload == body)
      && (key != [] ==> forall i, k :: 0 <= i < |body| && 0 <= k < 8 ==>
            (Bit(r.value.payload[i], k) == 1 <==> Bit(body[i], k) != Bit(key[i % 4], k)))
  {
    hide Bit, Announced;
    TakePrefix([b0, b1], ext + (key + (body + tail)));
    TakeAnnounced(b1 % 128, ext, key + (body + tail));
    TakePrefix(key, body + tail);
    TakePrefix(body, tail);
    if key == [] {
      assert key + (body + tail) == body + tail;
    } else {
      forall i, k | 0 <= i < |body| && 0 <= k < 8
        ensures Bit(Mask(body, key)[i], k) == 1 <==> Bit(body[i], k) != Bit(key[i % 4], k)
      {
        XorBit(body[i], key[i % 4], k);
      }
    }
  }

  /** A longer frame is refused before any of its key or payload is read. */
  lemma RefusesLong(b0: byte, b1: byte, ext: seq<byte>, rest: seq<byte>)
    requires ExtensionFits(b1 % 128, ext) && Announced(b1 % 128, ext) > 0x10_0000
    ensures ParseFrame([b0, b1] + (ext + rest)) == Failed(FrameTooLarge(Announced(b1 % 128, ext)), rest)
  {
    hide Announced;
    TakePrefix([b0, b1], ext + rest);
    TakeAnnounced(b1 % 128, ext, rest);
  }

  lemma TakeCut(a: seq<byte>, m: nat)
    requires m < |a|
    ensures TakeFull(a[..m], |a|) == Failed(if m == 0 then Eof else UnexpectedEof, [])
  {}

  /** A frame that is cut short: the stream ends where a part would begin, or inside one. */
  lemma CutShort(b0: byte, b1: byte, ext: seq<byte>, key: seq<byte>, body: seq<byte>, m: nat)
    requires ExtensionFits(b1 % 128, ext) && |key| == (if b1 >= 128 then 4 else 0)
    requires |body| == Announced(b1 % 128, ext) <= 0x10_0000
    requires m < 2 + |ext| + |key| + |body|
    ensures ParseFrame(([b0, b1] + (ext + (key + body)))[..m])
         == Failed(if m in {0, 2, 2 + |ext|, 2 + |ext| + |key|} then Eof else UnexpectedEof, [])
  {
    hide Announced, BigEndian;
    var hdr := [b0, b1];
    var s := (hdr + (ext + (key + body)))[..m];
    if m < 2 {
      assert s == hdr[..m];
      TakeCut(hdr, m);
    } else {
      var s1 := (ext + (key + body))[..m - 2];
      assert s == hdr + s1;
      TakePrefix(hdr, s1);
      if m < 2 + |ext| {
        assert s1 == ext[..m - 2];
        TakeCut(ext, m - 2);
      } else {
        var m2 := m - 2 - |ext|;
        var s2 := (key + body)[..m2];
        assert s1 == ext + s2;
        TakeAnnounced(b1 % 128, ext, s2);
        BodyCut(key, body, m2);
      }
    }
  }

  lemma BodyCut(key: seq<byte>, body: seq<byte>, m: nat)
    requires (key == [] || |key| == 4) && m < |key| + |body|
    ensures TakeBody(key != [], |body|, (key + body)[..m])
         == Failed(if m == 0 || m == |key| then Eof else UnexpectedEof, [])
  {
    var s := (key + body)[..m];
    if m < |key| {
      assert s == key[..m];
      TakeCut(key, m);
    } else {
      assert s == key + body[..m - |key|];
      TakePrefix(key, body[..m - |key|]);
      TakeCut(body, m - |key|);
      if key == [] { assert s == body[..m]; }
    }
  }

  /** The octets written for one frame. */
  lemma WritesOctets(fin: bool, opcode: byte, payload: seq<byte>)
    requires opcode < 16
    ensures var n := |payload|;
      EncodeFrame(fin, opcode, payload) ==
        [if fin then 0x80 + opcode else opcode]
        + (if n < 126 then [n]
           else if n < 0x1_0000 then [126, n / 0x100 % 0x100, n % 0x100]
           else [127, n / 0x100_0000_0000_0000 % 0x100, n / 0x1_0000_0000_0000 % 0x100,
                 n / 0x100_0000_0000 % 0x100, n / 0x1_0000_0000 % 0x100,
                 n / 0x100_0000 % 0x100, n / 0x1_0000 % 0x100, n / 0x100 % 0x100, n % 0x100])
        + payload
  {
    var n := |payload|;
    if n < 126 {
    } else if n < 0x1_0000 {
      TwoOctets(n);
    } else {
      EightOctets(n);
    }
  }

  lemma EightOctets(n: nat)
    ensures ToBigEndian(n, 8) ==
      [n / 0x100_0000_0000_0000 % 0x100, n / 0x1_0000_0000_0000 % 0x100,
       n / 0x100_0000_0000 % 0x100, n / 0x1_0000_0000 % 0x100,
       n / 0x100_0000 % 0x100, n / 0x1_0000 % 0x100, n / 0x100 % 0x100, n % 0x100]
  {
    hide ToBigEndian;
    var h := n / 0x1_0000_0000;
    var low: seq<byte> := [n / 0x100_0000 % 0x100, n / 0x1_0000 % 0x100, n / 0x100 % 0x100, n % 0x100];
    FourOctets(n, 4);
    FourOctets(h, 0);
    NoOctets(h / 0x1_0000_0000);
    assert ToBigEndian(h, 4)
        == [h / 0x100_0000 % 0x100, h / 0x1_0000 % 0x100, h / 0x100 % 0x100, h % 0x100];
  }

  lemma NoOctets(n: nat)
    ensures ToBigEndian(n, 0) == []
  {}

  lemma FourOctets(n: nat, more: nat)
    ensures ToBigEndian(n, more + 4) == ToBigEndian(n / 0x1_0000_0000, more)
         + [n / 0x100_0000 % 0x100, n / 0x1_0000 % 0x100, n / 0x100 % 0x100, n % 0x100]
  {
    var a := n / 0x100;
    var b := a / 0x100;
    var c := b / 0x100;
    assert b == n / 0x1_0000 && c == n / 0x100_0000 && c / 0x100 == n / 0x1_0000_0000;
    assert ToBigEndian(n, more + 4) == ToBigEndian(a, more + 3) + [n % 0x100];
    assert ToBigEndian(a, more + 3) == ToBigEndian(b, more + 2) + [a % 0x100];
    assert ToBigEndian(b, more + 2) == ToBigEndian(c, more + 1) + [b % 0x100];
    assert ToBigEndian(c, more + 1) == ToBigEndian(c / 0x100, more) + [c % 0x100];
  }
}
