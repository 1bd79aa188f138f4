/**
  The incremental parser of src/main.c as it is written: `parser_state_t`,
  `protocol_parser_t`, `init_parser` and `parse_byte`, and runs of `parse_byte`
  over byte sequences.

  Two details of `parse_byte` shape everything below. In STATE_READ_PAYLOAD the
  payload byte is read but never stored (only `payload_index` moves), and the
  case has no `break`, so it falls through into STATE_VERIFY_CHECKSUM: the first
  byte after the length byte is always taken as the checksum.
 */
module Parsing {
  import opened Bytes
  import opened Checksum
  import Frames

  /** `parser_state_t`. */
  datatype State = WaitStart | ReadHeader | ReadPayload | VerifyChecksum

  /** `protocol_parser_t`. */
  datatype Parser = Parser(
    state: State,
    frame: Frames.Frame,
    bytesReceived: byte,
    payloadIndex: byte)

  /** Return codes of `parse_byte`. */
  const Incomplete: int := 0
  const Valid: int := 1
  const Corrupted: int := -1

  /** The parser after one byte, and the value `parse_byte` returned. */
  datatype Step = Step(parser: Parser, code: int)

  /** The parser after a run of bytes, and the value returned for each byte. */
  datatype Trace = Trace(parser: Parser, codes: seq<int>)

  /** `++` on a `uint8_t` counter: wraps from 255 to 0. */
  function Inc(x: byte): (y: byte)
    ensures x < 255 ==> y == x + 1
    ensures x == 255 ==> y == 0
  {
    (x + 1) % 256
  }

  /** A frame of zero bytes, as `memset(&current_frame, 0, ...)` leaves it. */
  function EmptyFrame(): (f: Frames.Frame)
    ensures f.startByte == 0 && f.messageId == 0 && f.length == 0 && f.checksum == 0
    ensures AllZero(f.payload)
  {
    Frames.Frame(0, 0, 0, Frames.ZeroPayload(), 0)
  }

  /** `init_parser`. */
  function InitParser(): (p: Parser)
    ensures p.state == WaitStart && p.bytesReceived == 0 && p.payloadIndex == 0
    ensures p.frame == EmptyFrame()
  {
    Parser(WaitStart, EmptyFrame(), 0, 0)
  }

  /**
    The invariant of every parser reachable from `init_parser`: the VERIFY_CHECKSUM
    state is never entered at rest, the header counter is 1 or 2 while reading the
    header, and the payload index never exceeds 1.
   */
  predicate Consistent(p: Parser)
  {
    && p.state != VerifyChecksum
    && p.payloadIndex <= 1
    && (p.state == ReadHeader ==> p.bytesReceived == 1 || p.bytesReceived == 2)
    && (p.state == ReadPayload ==> p.payloadIndex == 0)
  }

  /**
    STATE_VERIFY_CHECKSUM (and the tail of STATE_READ_PAYLOAD that falls into it):
    store the byte as the checksum, verify, and go back to waiting for a start byte.
   */
  function Finish(p: Parser, b: byte): (r: Step)
    ensures r.parser.state == WaitStart
    ensures r.parser.frame == p.frame.(checksum := b)
    ensures r.code == (if Frames.VerifyChecksum(p.frame.(checksum := b)) then Valid else Corrupted)
  {
    var q := p.(frame := p.frame.(checksum := b));
    if Frames.VerifyChecksum(q.frame) then
      Step(q.(state := WaitStart), Valid)
    else
      Step(q.(state := WaitStart), Corrupted)
  }

  /** STATE_WAIT_START: only the start byte opens a frame. */
  function WaitStartStep(p: Parser, b: byte): (r: Step)
    requires p.state == WaitStart
    ensures r.code == Incomplete
    ensures r.parser.state == ReadHeader <==> b == Frames.StartByte
    ensures b != Frames.StartByte ==> r.parser == p
    ensures b == Frames.StartByte ==>
              r.parser.bytesReceived == 1 && r.parser.frame == p.frame.(startByte := Frames.StartByte)
  {
    if b == Frames.StartByte then
      Step(p.(frame := p.frame.(startByte := b), state := ReadHeader, bytesReceived := 1), Incomplete)
    else
      Step(p, Incomplete)
  }

  /**
    STATE_READ_HEADER: the first header byte is the id, the second the length, after
    which the parser moves to `afterLength` with the payload index reset.
   */
  function HeaderStep(p: Parser, b: byte, afterLength: State): (r: Step)
    requires p.state == ReadHeader
    ensures r.code == Incomplete
    ensures r.parser.frame.payload == p.frame.payload
    ensures p.bytesReceived == 1 ==>
              r.parser == p.(frame := p.frame.(messageId := b), bytesReceived := 2)
    ensures p.bytesReceived == 2 ==>
              r.parser == p.(frame := p.frame.(length := b), payloadIndex := 0,
                             state := afterLength, bytesReceived := 3)
    ensures p.bytesReceived != 1 && p.bytesReceived != 2 ==> r.parser == p
  {
    if p.bytesReceived == 1 then
      Step(p.(frame := p.frame.(messageId := b), bytesReceived := Inc(p.bytesReceived)), Incomplete)
    else if p.bytesReceived == 2 then
      Step(p.(frame := p.frame.(length := b), payloadIndex := 0, state := afterLength,
              bytesReceived := Inc(p.bytesReceived)), Incomplete)
    else
      Step(p, Incomplete)
  }

  /** `parse_byte`, as written. */
  function ParseByte(p: Parser, b: byte): (r: Step)
    ensures r.code == Incomplete || r.code == Valid || r.code == Corrupted
    ensures r.code != Incomplete ==> r.parser.state == WaitStart
    ensures r.code != Incomplete <==> p.state == ReadPayload || p.state == VerifyChecksum
    ensures r.code == Valid <==>
            (p.state == ReadPayload || p.state == VerifyChecksum) &&
            Frames.VerifyChecksum(p.frame.(checksum := b))
    ensures r.parser.frame.payload == p.frame.payload
    ensures Consistent(p) ==> Consistent(r.parser)
  {
    match p.state
    case WaitStart => WaitStartStep(p, b)
    case ReadHeader => HeaderStep(p, b, ReadPayload)
    case ReadPayload =>
      // payload[payload_index] is read and discarded; only the index advances.
      var q := p.(payloadIndex := Inc(p.payloadIndex));
      // The state chosen here is overwritten by the fall-through into Finish.
      var q' := if q.payloadIndex >= q.frame.length then q.(state := VerifyChecksum) else q;
      Finish(q', b)
    case VerifyChecksum =>
      Finish(p, b)
  }

  /** `init_parser` yields a parser in the reachable-state invariant. */
  lemma InitConsistent()
    ensures Consistent(InitParser())
    ensures AllZero(InitParser().frame.payload)
  {
  }

  /** Feeding `parse_byte` a sequence of bytes, front to back. */
  function Run(p: Parser, bytes: seq<byte>): (t: Trace)
    ensures |t.codes| == |bytes|
    ensures forall i :: 0 <= i < |t.codes| ==> t.codes[i] in {Incomplete, Valid, Corrupted}
    ensures t.parser.frame.payload == p.frame.payload
    ensures Consistent(p) ==> Consistent(t.parser)
    decreases |bytes|
  {
    if |bytes| == 0 then
      Trace(p, [])
    else
      var s := ParseByte(p, bytes[0]);
      var t := Run(s.parser, bytes[1..]);
      Trace(t.parser, [s.code] + t.codes)
  }

  /** Every parser reachable from `init_parser` keeps the invariant and an all-zero payload. */
  lemma RunFromInit(bytes: seq<byte>)
    ensures var t := Run(InitParser(), bytes);
            && Consistent(t.parser)
            && t.parser.payloadIndex <= 1
            && AllZero(t.parser.frame.payload)
  {
    InitConsistent();
  }

  /** A run over `a + b` is the run over `a` followed by the run over `b`. */
  lemma {:induction false} RunAppend(p: Parser, a: seq<byte>, b: seq<byte>)
    ensures var ta := Run(p, a);
            var tb := Run(ta.parser, b);
            Run(p, a + b) == Trace(tb.parser, ta.codes + tb.codes)
    decreases |a|
  {
    if |a| > 0 {
      var s := ParseByte(p, a[0]);
      assert (a + b)[0] == a[0];
      assert (a + b)[1..] == a[1..] + b;
      RunAppend(s.parser, a[1..], b);
      var ta := Run(s.parser, a[1..]);
      var tb := Run(ta.parser, b);
      assert [s.code] + (ta.codes + tb.codes) == ([s.code] + ta.codes) + tb.codes;
    } else {
      assert a + b == b;
      assert Run(p, a).codes + Run(p, b).codes == Run(p, b).codes;
    }
  }

  /** While waiting for a start byte, every other byte is ignored and reported incomplete. */
  lemma {:induction false} SkipsNoise(p: Parser, bytes: seq<byte>)
    requires p.state == WaitStart
    requires forall i :: 0 <= i < |bytes| ==> bytes[i] != Frames.StartByte
    ensures Run(p, bytes) == Trace(p, seq(|bytes|, _ => Incomplete))
    decreases |bytes|
  {
    if |bytes| > 0 {
      SkipsNoise(p, bytes[1..]);
      assert [Incomplete] + seq(|bytes| - 1, _ => Incomplete) == seq(|bytes|, _ => Incomplete);
    }
  }

  /** The checksum a frame with an all-zero payload array needs is id ^ length. */
  lemma ZeroPayloadVerdict(f: Frames.Frame)
    requires AllZero(f.payload)
    ensures Frames.VerifyChecksum(f) <==> f.checksum == Xor(f.messageId, f.length)
  {
    assert AllZero(Frames.Window(f));
    FoldZeros(Frames.Window(f));
    Frames.CoveredFold(f);
    XorZero(Xor(f.messageId, f.length));
  }

  /**
    As written, a start byte, an id and a length are followed by exactly one more
    byte, the checksum, whatever the length says. On an all-zero payload array the
    frame is accepted exactly when that byte is id ^ length.
   */
  lemma FourByteFrame(p: Parser, id: byte, n: byte, c: byte)
    requires p.state == WaitStart && AllZero(p.frame.payload)
    ensures var t := Run(p, [Frames.StartByte, id, n, c]);
            && t.codes == [Incomplete, Incomplete, Incomplete, if c == Xor(id, n) then Valid else Corrupted]
            && t.parser.state == WaitStart
            && t.parser.frame == p.frame.(startByte := Frames.StartByte, messageId := id, length := n, checksum := c)
  {
    var s1 := ParseByte(p, Frames.StartByte);
    var s2 := ParseByte(s1.parser, id);
    var s3 := ParseByte(s2.parser, n);
    var s4 := ParseByte(s3.parser, c);
    assert s3.parser.state == ReadPayload;
    assert s3.parser.frame.messageId == id && s3.parser.frame.length == n;
    ZeroPayloadVerdict(s3.parser.frame.(checksum := c));
    assert Run(s3.parser, [c]) == Trace(s4.parser, [s4.code]);
    assert [n, c][1..] == [c];
    assert Run(s2.parser, [n, c]) == Trace(s4.parser, [s3.code, s4.code]);
    assert [id, n, c][1..] == [n, c];
    assert Run(s1.parser, [id, n, c]) == Trace(s4.parser, [s2.code, s3.code, s4.code]);
    assert [Frames.StartByte, id, n, c][1..] == [id, n, c];
  }

  /** From a fresh parser, the zero-length frame [0x55, id, 0, id ^ 0] is accepted. */
  lemma FreshZeroLengthFrame(id: byte)
    ensures Run(InitParser(), [Frames.StartByte, id, 0, Xor(id, 0)]).codes
            == [Incomplete, Incomplete, Incomplete, Valid]
  {
    FourByteFrame(InitParser(), id, 0, Xor(id, 0));
  }

  /**
    As written, the verdict on a serialized frame of nonzero length depends only on
    its id, its length and its first payload byte, which is taken as the checksum.
   */
  lemma FirstPayloadByteTakenAsChecksum(p: Parser, f: Frames.Frame)
    requires p.state == WaitStart && AllZero(p.frame.payload)
    requires f.startByte == Frames.StartByte && f.length >= 1
    ensures Run(p, Frames.Serialize(f)).codes[3]
            == if f.payload[0] == Xor(f.messageId, f.length) then Valid else Corrupted
  {
    var bytes := Frames.Serialize(f);
    assert bytes[..4] == [Frames.StartByte, f.messageId, f.length, f.payload[0]];
    assert bytes == bytes[..4] + bytes[4..];
    RunAppend(p, bytes[..4], bytes[4..]);
    FourByteFrame(p, f.messageId, f.length, f.payload[0]);
  }

  /**
    The bytes 55 01 01 05 (start, id 1, length 1, payload byte 5) isolate the
    missing store: the fourth byte is checked against a payload that
    still holds 0 and is rejected, although the parsed frame would verify had that
    byte been stored at payload[0].
   */
  lemma PayloadByteDropped()
    ensures var t := Run(InitParser(), [Frames.StartByte, 1, 1, 5]);
            && t.codes == [Incomplete, Incomplete, Incomplete, Corrupted]
            && t.parser.frame.payload == Frames.ZeroPayload()
            && !Frames.VerifyChecksum(t.parser.frame)
            && Frames.VerifyChecksum(t.parser.frame.(payload := t.parser.frame.payload[0 := 5]))
  {
    var p := InitParser();
    FourByteFrame(p, 1, 1, 5);
    XorSelf(1);
    var f := Run(p, [Frames.StartByte, 1, 1, 5]).parser.frame;
    var g := f.(payload := f.payload[0 := 5]);
    assert Frames.Window(f) == [0];
    assert Frames.Window(g) == [5];
    FoldSingle(0);
    FoldSingle(5);
    XorZero(5);
  }

  /** The parser as written on the six wire bytes of the "Hi" frame. */
  lemma HiBytesAsWritten()
    ensures Run(InitParser(), [0x55, 7, 2, 0x48, 0x69, 0x24]).codes
            == [Incomplete, Incomplete, Incomplete, Corrupted, Incomplete, Incomplete]
  {
    var head, rest: seq<byte> := [0x55, 7, 2, 0x48], [0x69, 0x24];
    assert [0x55, 7, 2, 0x48, 0x69, 0x24] == head + rest;
    RunAppend(InitParser(), head, rest);
    assert Xor(7, 2) == 5 by {
      assert XorNat(3, 1) == 2;
    }
    FourByteFrame(InitParser(), 7, 2, 0x48);
    var q := Run(InitParser(), head).parser;
    SkipsNoise(q, rest);
    assert Run(q, rest).codes == [Incomplete, Incomplete];
  }

  /**
    The "Hi" frame built by `mount_frame` passes `verify_checksum`, yet the parser
    as written reports it corrupted and then ignores its last two bytes.
   */
  lemma HiFrameRejected(stale: Frames.Payload)
    ensures var f := Frames.MountFrame([0x48, 0x69], 7, 2, stale);
            && Frames.VerifyChecksum(f)
            && Run(InitParser(), Frames.Serialize(f)).codes
               == [Incomplete, Incomplete, Incomplete, Corrupted, Incomplete, Incomplete]
  {
    Frames.HiFrame(stale);
    HiBytesAsWritten();
  }

  /**
    Noise, then a one-byte frame carrying 'X' (0x58) with its correct checksum. As
    written the payload byte 'X' is taken as the checksum, so the frame is accepted
    only when id ^ 1 happens to be 'X', and its real checksum byte then returns 0.
   */
  lemma ResyncAsWritten(id: byte)
    ensures Run(InitParser(), [0xAB, 0xCD, Frames.StartByte, id, 1, 0x58, Xor(Xor(id, 1), 0x58)]).codes
            == [Incomplete, Incomplete, Incomplete, Incomplete, Incomplete,
                if Xor(id, 1) == 0x58 then Valid else Corrupted, Incomplete]
  {
    var p := InitParser();
    var c := Xor(Xor(id, 1), 0x58);
    var noise, frame, tail := [0xAB, 0xCD], [Frames.StartByte, id, 1, 0x58], [c];
    assert [0xAB, 0xCD, Frames.StartByte, id, 1, 0x58, c] == noise + (frame + tail);
    RunAppend(p, noise, frame + tail);
    SkipsNoise(p, noise);
    RunAppend(p, frame, tail);
    FourByteFrame(p, id, 1, 0x58);
    var q := Run(p, frame).parser;
    assert Run(q, tail) == Trace(ParseByte(q, c).parser, [ParseByte(q, c).code]);
  }
}
