/**
  The parser `parse_byte` was evidently meant to be: STATE_READ_PAYLOAD stores each
  payload byte and ends with a `break`, and a zero length goes straight to
  STATE_VERIFY_CHECKSUM. This is a corrected definition, not a model of the code
  in src/main.c; it shares the states, records and the WAIT_START, header and
  checksum steps of the as-written parser.
 */
module IntendedParsing {
  import opened Bytes
  import opened Checksum
  import Frames
  import opened Parsing

  /**
    While a payload is being read the index stays inside the announced length, so
    the one-byte index never wraps.
   */
  predicate IntendedConsistent(p: Parser)
  {
    && (p.state == ReadHeader ==> p.bytesReceived == 1 || p.bytesReceived == 2)
    && (p.state == ReadPayload ==> p.payloadIndex < p.frame.length)
  }

  /** The corrected step function. */
  function ParseByteIntended(p: Parser, b: byte): (r: Step)
    ensures r.code == Incomplete || r.code == Valid || r.code == Corrupted
    ensures r.code != Incomplete <==> p.state == VerifyChecksum
    ensures r.code == Valid <==>
            p.state == VerifyChecksum && Frames.VerifyChecksum(p.frame.(checksum := b))
    ensures r.code != Incomplete ==> r.parser.state == WaitStart
    ensures IntendedConsistent(p) ==> IntendedConsistent(r.parser)
  {
    match p.state
    case WaitStart => WaitStartStep(p, b)
    case ReadHeader => HeaderStep(p, b, if b == 0 then VerifyChecksum else ReadPayload)
    case ReadPayload =>
      var q := p.(frame := p.frame.(payload := p.frame.payload[p.payloadIndex := b]),
                  payloadIndex := Inc(p.payloadIndex));
      if q.payloadIndex >= q.frame.length then
        Step(q.(state := VerifyChecksum), Incomplete)
      else
        Step(q, Incomplete)
    case VerifyChecksum => Finish(p, b)
  }

  /** Feeding the corrected step function a sequence of bytes, front to back. */
  function RunIntended(p: Parser, bytes: seq<byte>): (t: Trace)
    ensures |t.codes| == |bytes|
    ensures forall i :: 0 <= i < |t.codes| ==> t.codes[i] in {Incomplete, Valid, Corrupted}
    ensures IntendedConsistent(p) ==> IntendedConsistent(t.parser)
    decreases |bytes|
  {
    if |bytes| == 0 then
      Trace(p, [])
    else
      var s := ParseByteIntended(p, bytes[0]);
      var t := RunIntended(s.parser, bytes[1..]);
      Trace(t.parser, [s.code] + t.codes)
  }

  /** A run over `a + b` is the run over `a` followed by the run over `b`. */
  lemma {:induction false} RunIntendedAppend(p: Parser, a: seq<byte>, b: seq<byte>)
    ensures var ta := RunIntended(p, a);
            var tb := RunIntended(ta.parser, b);
            RunIntended(p, a + b) == Trace(tb.parser, ta.codes + tb.codes)
    decreases |a|
  {
    if |a| > 0 {
      var s := ParseByteIntended(p, a[0]);
      assert (a + b)[0] == a[0];
      assert (a + b)[1..] == a[1..] + b;
      RunIntendedAppend(s.parser, a[1..], b);
      var ta := RunIntended(s.parser, a[1..]);
      var tb := RunIntended(ta.parser, b);
      assert [s.code] + (ta.codes + tb.codes) == ([s.code] + ta.codes) + tb.codes;
    } else {
      assert a + b == b;
      assert RunIntended(p, a).codes + RunIntended(p, b).codes == RunIntended(p, b).codes;
    }
  }

  /** `n` results of "frame incomplete". */
  function Zeros(n: nat): (s: seq<int>)
    ensures |s| == n
    ensures forall i :: 0 <= i < n ==> s[i] == Incomplete
  {
    seq(n, _ => Incomplete)
  }

  /** Start byte, id and length: the header lands in the frame and the payload index is reset. */
  lemma Header(p: Parser, id: byte, n: byte)
    requires p.state == WaitStart
    ensures var t := RunIntended(p, [Frames.StartByte, id, n]);
            && t.codes == Zeros(3)
            && t.parser.state == (if n == 0 then VerifyChecksum else ReadPayload)
            && t.parser.payloadIndex == 0
            && t.parser.frame.messageId == id && t.parser.frame.length == n
  {
    var s1 := ParseByteIntended(p, Frames.StartByte);
    var s2 := ParseByteIntended(s1.parser, id);
    var s3 := ParseByteIntended(s2.parser, n);
    assert RunIntended(s2.parser, [n]) == Trace(s3.parser, [s3.code]);
    assert [id, n][1..] == [n];
    assert RunIntended(s1.parser, [id, n]) == Trace(s3.parser, [s2.code, s3.code]);
    assert [Frames.StartByte, id, n][1..] == [id, n];
  }

  /**
    Reading the payload: from index `k`, the bytes w[k..] are stored in order, every
    byte reports "incomplete", and the parser ends waiting for the checksum.
   */
  lemma {:induction false} PayloadLoop(q: Parser, w: seq<byte>, k: nat)
    requires q.state == ReadPayload && q.payloadIndex == k
    requires k < |w| == q.frame.length
    requires q.frame.payload[..k] == w[..k]
    ensures var t := RunIntended(q, w[k..]);
            && t.codes == Zeros(|w| - k)
            && t.parser.state == VerifyChecksum
            && t.parser.frame.payload[..|w|] == w
            && t.parser.frame.messageId == q.frame.messageId
            && t.parser.frame.length == q.frame.length
    decreases |w| - k
  {
    var s := ParseByteIntended(q, w[k]);
    var q' := s.parser;
    assert q'.frame.payload == q.frame.payload[k := w[k]];
    assert q'.payloadIndex == k + 1;
    assert q'.frame.payload[..k + 1] == w[..k + 1];
    if k + 1 == |w| {
      assert w[k..] == [w[k]];
      assert RunIntended(q, w[k..]) == Trace(q', [s.code]);
      assert w[..|w|] == w;
    } else {
      PayloadLoop(q', w, k + 1);
      assert w[k..] == [w[k]] + w[k + 1..];
      assert w[k..][1..] == w[k + 1..];
      assert [Incomplete] + Zeros(|w| - (k + 1)) == Zeros(|w| - k);
    }
  }

  /**
    Round trip: from any parser waiting for a start byte, the serialized frame
    reports "incomplete" on every byte but the last, which reports exactly what
    `verify_checksum` says about the frame; the parsed frame agrees with the sent
    one on every field the checksum covers.
   */
  lemma RoundTrip(p: Parser, f: Frames.Frame)
    requires p.state == WaitStart
    requires f.startByte == Frames.StartByte
    ensures var t := RunIntended(p, Frames.Serialize(f));
            && t.codes == Zeros(3 + f.length) + [if Frames.VerifyChecksum(f) then Valid else Corrupted]
            && t.parser.state == WaitStart
            && t.parser.frame.messageId == f.messageId
            && t.parser.frame.length == f.length
            && Frames.Window(t.parser.frame) == Frames.Window(f)
            && t.parser.frame.checksum == f.checksum
  {
    var head := [Frames.StartByte, f.messageId, f.length];
    var w := Frames.Window(f);
    var bytes := Frames.Serialize(f);
    assert bytes == head + w + [f.checksum];
    RunIntendedAppend(p, head + w, [f.checksum]);
    RunIntendedAppend(p, head, w);
    Header(p, f.messageId, f.length);
    var t3 := RunIntended(p, head);
    var t4 := RunIntended(t3.parser, w);
    if f.length == 0 {
      assert w == [];
      assert t4 == Trace(t3.parser, []);
    } else {
      PayloadLoop(t3.parser, w, 0);
      assert w[0..] == w;
    }
    assert Zeros(3) + Zeros(f.length) == Zeros(3 + f.length);
    var g := t4.parser.frame;
    assert Frames.Window(g) == w;
    Frames.VerifyIgnoresStartAndTail(g.(checksum := f.checksum), f);
    var t5 := RunIntended(t4.parser, [f.checksum]);
    assert t5 == Trace(ParseByteIntended(t4.parser, f.checksum).parser,
                       [ParseByteIntended(t4.parser, f.checksum).code]);
  }

  /**
    The "Hi" frame that the as-written parser rejects is accepted by the corrected
    one, which reproduces id 7, length 2 and payload "Hi".
   */
  lemma HiFrameAccepted(stale: Frames.Payload)
    ensures var t := RunIntended(InitParser(), Frames.Serialize(Frames.MountFrame([0x48, 0x69], 7, 2, stale)));
            && t.codes == [Incomplete, Incomplete, Incomplete, Incomplete, Incomplete, Valid]
            && t.parser.frame.messageId == 7
            && t.parser.frame.length == 2
            && Frames.Window(t.parser.frame) == [0x48, 0x69]
  {
    var f := Frames.MountFrame([0x48, 0x69], 7, 2, stale);
    Frames.MountThenVerify([0x48, 0x69], 7, 2, stale);
    RoundTrip(InitParser(), f);
    assert [0x48, 0x69][..2] == [0x48 as byte, 0x69];
    assert Zeros(5) + [Valid] == [Incomplete, Incomplete, Incomplete, Incomplete, Incomplete, Valid];
  }

  /** On zero-length frames, where the fall-through does no harm, both parsers agree. */
  lemma ZeroLengthAgrees(p: Parser, f: Frames.Frame)
    requires p.state == WaitStart
    requires f.startByte == Frames.StartByte && f.length == 0
    ensures Run(p, Frames.Serialize(f)).codes == RunIntended(p, Frames.Serialize(f)).codes
  {
    RoundTrip(p, f);
    var bytes := [Frames.StartByte, f.messageId, 0, f.checksum];
    assert Frames.Serialize(f) == bytes;
    var s1 := ParseByte(p, Frames.StartByte);
    var s2 := ParseByte(s1.parser, f.messageId);
    var s3 := ParseByte(s2.parser, 0);
    var s4 := ParseByte(s3.parser, f.checksum);
    var g := s3.parser.frame.(checksum := f.checksum);
    assert Frames.Window(g) == Frames.Window(f);
    Frames.VerifyIgnoresStartAndTail(g, f);
    assert Run(s3.parser, [f.checksum]) == Trace(s4.parser, [s4.code]);
    assert [0, f.checksum][1..] == [f.checksum];
    assert Run(s2.parser, [0, f.checksum]) == Trace(s4.parser, [s3.code, s4.code]);
    assert [f.messageId, 0, f.checksum][1..] == [0, f.checksum];
    assert Run(s1.parser, [f.messageId, 0, f.checksum]) == Trace(s4.parser, [s2.code, s3.code, s4.code]);
    assert bytes[1..] == [f.messageId, 0, f.checksum];
    assert Zeros(3) + [if Frames.VerifyChecksum(f) then Valid else Corrupted]
           == [Incomplete, Incomplete, Incomplete, if Frames.VerifyChecksum(f) then Valid else Corrupted];
  }

  /**
    Noise, then a one-byte frame carrying 'X' (0x58) with its correct checksum: the
    noise is skipped and the frame is accepted, whatever its id.
   */
  lemma ResyncIntended(id: byte)
    ensures RunIntended(InitParser(), [0xAB, 0xCD, Frames.StartByte, id, 1, 0x58, Xor(Xor(id, 1), 0x58)]).codes
            == [Incomplete, Incomplete, Incomplete, Incomplete, Incomplete, Incomplete, Valid]
  {
    var p := InitParser();
    var c := Xor(Xor(id, 1), 0x58);
    var f := Frames.Frame(Frames.StartByte, id, 1, Frames.ZeroPayload()[0 := 0x58], c);
    assert Frames.Window(f) == [0x58];
    Frames.CoveredFold(f);
    FoldSingle(0x58);
    var noise := [0xAB, 0xCD];
    assert Frames.Serialize(f) == [Frames.StartByte, id, 1, 0x58, c];
    assert [0xAB, 0xCD, Frames.StartByte, id, 1, 0x58, c] == noise + Frames.Serialize(f);
    RunIntendedAppend(p, noise, Frames.Serialize(f));
    var s1 := ParseByteIntended(p, 0xAB);
    var s2 := ParseByteIntended(s1.parser, 0xCD);
    assert RunIntended(s1.parser, [0xCD]) == Trace(s2.parser, [s2.code]);
    assert [0xAB, 0xCD][1..] == [0xCD];
    RoundTrip(p, f);
    assert Zeros(2) + (Zeros(4) + [Valid])
           == [Incomplete, Incomplete, Incomplete, Incomplete, Incomplete, Incomplete, Valid];
  }
}
