/**
  The frame codec of src/main.c: the `protocol_frame_t` record, `mount_frame`,
  `verify_checksum`, and the wire order in which a frame is written out.
 */
module Frames {
  import opened Bytes
  import opened Checksum

  /** Sentinel that opens every frame on the wire (START_BYTE). */
  const StartByte: byte := 0x55

  /** Capacity of the payload buffer (MAX_PAYLOAD_SIZE). */
  const MaxPayloadSize: nat := 256

  /** The fixed 256-byte payload array of a frame. */
  type Payload = s: seq<byte> | |s| == MaxPayloadSize witness seq(256, _ => 0)

  /** `protocol_frame_t`: only the first `length` payload bytes are meaningful. */
  datatype Frame = Frame(
    startByte: byte,
    messageId: byte,
    length: byte,
    payload: Payload,
    checksum: byte)

  /** A payload array of zero bytes, as `memset` leaves it. */
  function ZeroPayload(): (p: Payload)
    ensures AllZero(p)
  {
    seq(MaxPayloadSize, _ => 0)
  }

  /** The meaningful part of the payload: payload[0..length). */
  function Window(f: Frame): (w: seq<byte>)
    ensures |w| == f.length
  {
    f.payload[..f.length]
  }

  /**
    The bytes the checksum covers, in the order `mount_frame` and `verify_checksum`
    lay them out in `checksum_data`: id, length, payload[0..length). They always fit
    that buffer of 2 + MAX_PAYLOAD_SIZE bytes.
   */
  function Covered(f: Frame): (s: seq<byte>)
    ensures |s| == 2 + f.length <= 2 + MaxPayloadSize
  {
    [f.messageId, f.length] + Window(f)
  }

  /**
    `verify_checksum`: the checksum recomputed over the covered bytes equals the
    stored one, that is, the stored checksum is id ^ length ^ (XOR of the window).
   */
  function VerifyChecksum(f: Frame): (ok: bool)
    ensures ok <==> f.checksum == Xor(Xor(f.messageId, f.length), Fold(Window(f)))
  {
    CoveredFold(f);
    Fold(Covered(f)) == f.checksum
  }

  /** The covered checksum is id ^ length ^ (XOR of the payload window). */
  lemma CoveredFold(f: Frame)
    ensures Fold(Covered(f)) == Xor(Xor(f.messageId, f.length), Fold(Window(f)))
  {
    FoldConcat([f.messageId, f.length], Window(f));
    FoldPair(f.messageId, f.length);
  }

  /**
    `mount_frame`. The C frame is an uninitialised local, so the payload bytes past
    `msgLength` are whatever was there before: the parameter `stale`.
   */
  function MountFrame(message: seq<byte>, id: byte, msgLength: byte, stale: Payload): (f: Frame)
    requires msgLength <= |message|
    ensures f.startByte == StartByte
    ensures f.messageId == id && f.length == msgLength
    ensures Window(f) == message[..msgLength]
    ensures f.payload[msgLength..] == stale[msgLength..]
    ensures f.checksum == Xor(Xor(id, msgLength), Fold(message[..msgLength]))
  {
    var payload: Payload := message[..msgLength] + stale[msgLength..];
    assert payload[..msgLength] == message[..msgLength];
    var f := Frame(StartByte, id, msgLength, payload, Fold([id, msgLength] + payload[..msgLength]));
    CoveredFold(f);
    f
  }

  /** Round trip: every frame `mount_frame` builds passes `verify_checksum`. */
  lemma MountThenVerify(message: seq<byte>, id: byte, msgLength: byte, stale: Payload)
    requires msgLength <= |message|
    ensures VerifyChecksum(MountFrame(message, id, msgLength, stale))
  {
    CoveredFold(MountFrame(message, id, msgLength, stale));
  }

  /** The clamp in `mount_frame` never fires: a one-byte length never exceeds the capacity. */
  lemma ClampNeverFires(msgLength: byte)
    ensures !(msgLength > MaxPayloadSize)
  {
  }

  /** The verdict depends on id, length, payload[0..length) and checksum only. */
  lemma VerifyIgnoresStartAndTail(f: Frame, g: Frame)
    requires f.messageId == g.messageId && f.length == g.length && f.checksum == g.checksum
    requires Window(f) == Window(g)
    ensures VerifyChecksum(f) <==> VerifyChecksum(g)
  {
  }

  /** In particular the start byte and the payload past the window may be anything. */
  lemma VerifyIgnoresTail(f: Frame, start: byte, tail: seq<byte>)
    requires |tail| == MaxPayloadSize - f.length
    ensures VerifyChecksum(f) <==>
            VerifyChecksum(f.(startByte := start, payload := Window(f) + tail))
  {
    var g := f.(startByte := start, payload := Window(f) + tail);
    assert Window(g) == Window(f);
    VerifyIgnoresStartAndTail(f, g);
  }

  /** Changing only the message id of a valid frame makes it invalid. */
  lemma IdChangeDetected(f: Frame, g: Frame)
    requires VerifyChecksum(f)
    requires g.length == f.length && g.payload == f.payload && g.checksum == f.checksum
    requires g.messageId != f.messageId
    ensures !VerifyChecksum(g)
  {
    CoveredFold(f);
    CoveredFold(g);
    var w := Fold(Window(f));
    XorAssoc(f.messageId, f.length, w);
    XorAssoc(g.messageId, f.length, w);
    XorSolve(Xor(f.length, w), f.checksum, f.messageId);
    XorSolve(Xor(f.length, w), f.checksum, g.messageId);
    XorComm(f.messageId, Xor(f.length, w));
    XorComm(g.messageId, Xor(f.length, w));
  }

  /** Replacing payload byte `i` inside the window shifts the covered checksum by old ^ new. */
  lemma CoveredUpdate(f: Frame, g: Frame, i: int, v: byte)
    requires 0 <= i < f.length
    requires g.messageId == f.messageId && g.length == f.length
    requires g.payload == f.payload[i := v]
    ensures Fold(Covered(g)) == Xor(Xor(Fold(Covered(f)), f.payload[i]), v)
  {
    assert Covered(g) == Covered(f)[2 + i := v];
    FoldUpdate(Covered(f), 2 + i, v);
  }

  /** Changing only one payload byte inside the window makes a valid frame invalid. */
  lemma PayloadChangeDetected(f: Frame, g: Frame, i: int, v: byte)
    requires VerifyChecksum(f)
    requires 0 <= i < f.length
    requires g.messageId == f.messageId && g.length == f.length && g.checksum == f.checksum
    requires g.payload == f.payload[i := v]
    requires v != f.payload[i]
    ensures !VerifyChecksum(g)
  {
    CoveredUpdate(f, g, i, v);
    var c, x := f.checksum, f.payload[i];
    XorSolve(Xor(c, x), c, v);
    XorComm(c, x);
    XorCancel(x, c);
  }

  /** The payload bytes between two window lengths, in either order. */
  function Between(p: Payload, a: byte, b: byte): (s: seq<byte>)
  {
    if a <= b then p[a..b] else p[b..a]
  }

  /** The two windows of one payload differ by the bytes between their lengths. */
  lemma WindowDifference(f: Frame, g: Frame)
    requires g.payload == f.payload
    ensures Xor(Fold(Window(f)), Fold(Window(g))) == Fold(Between(f.payload, f.length, g.length))
  {
    var p := f.payload;
    var wf, wg := Fold(Window(f)), Fold(Window(g));
    var d := Fold(Between(p, f.length, g.length));
    if f.length <= g.length {
      assert Window(g) == Window(f) + p[f.length..g.length];
      FoldConcat(Window(f), p[f.length..g.length]);
      XorAssoc(wf, wf, d);
      XorSelf(wf);
      XorZero(d);
    } else {
      assert Window(f) == Window(g) + p[g.length..f.length];
      FoldConcat(Window(g), p[g.length..f.length]);
      XorComm(wg, d);
      XorAssoc(d, wg, wg);
      XorSelf(wg);
      XorZero(d);
    }
  }

  /**
    Changing only the length of a valid frame keeps it valid exactly when the bytes
    that enter or leave the payload window XOR to old length ^ new length. So a
    length change is not always detected.
   */
  lemma LengthChangeVerdict(f: Frame, g: Frame)
    requires VerifyChecksum(f)
    requires g.messageId == f.messageId && g.payload == f.payload && g.checksum == f.checksum
    ensures VerifyChecksum(g) <==> Fold(Between(f.payload, f.length, g.length)) == Xor(f.length, g.length)
  {
    CoveredFold(f);
    CoveredFold(g);
    WindowDifference(f, g);
    XorShift(f.messageId, f.length, g.length, Fold(Window(f)), Fold(Window(g)));
  }

  /** With an all-zero payload (as after `memset`), every change of the length is detected. */
  lemma LengthChangeDetectedOnZeroPayload(f: Frame, g: Frame)
    requires VerifyChecksum(f)
    requires g.messageId == f.messageId && g.payload == f.payload && g.checksum == f.checksum
    requires g.length != f.length
    requires AllZero(f.payload)
    ensures !VerifyChecksum(g)
  {
    var between := Between(f.payload, f.length, g.length);
    assert AllZero(between);
    FoldZeros(between);
    LengthChangeVerdict(f, g);
    XorZeroIff(f.length, g.length);
  }

  /** A concrete valid frame whose length can be changed without the checksum noticing. */
  lemma LengthChangeCanGoUnnoticed()
    ensures var f := Frame(StartByte, 0, 0, ZeroPayload()[0 := 1], 0);
            VerifyChecksum(f) && VerifyChecksum(f.(length := 1))
  {
    var f := Frame(StartByte, 0, 0, ZeroPayload()[0 := 1], 0);
    assert Covered(f) == [0, 0];
    FoldPair(0, 0);
    LengthChangeVerdict(f, f.(length := 1));
    assert Between(f.payload, 0, 1) == [1];
    FoldSingle(1);
  }

  /** Two window bytes altered by the same bit pattern cancel out: the frame still verifies. */
  lemma TwoEqualFlipsCancel(f: Frame, g: Frame, i: int, j: int, d: byte)
    requires VerifyChecksum(f)
    requires 0 <= i < f.length && 0 <= j < f.length && i != j
    requires g.messageId == f.messageId && g.length == f.length && g.checksum == f.checksum
    requires g.payload == f.payload[i := Xor(f.payload[i], d)][j := Xor(f.payload[j], d)]
    ensures VerifyChecksum(g)
  {
    var c := f.checksum;
    var h := f.(payload := f.payload[i := Xor(f.payload[i], d)]);
    CoveredUpdate(f, h, i, Xor(f.payload[i], d));
    XorReplace(c, f.payload[i], d);
    CoveredUpdate(h, g, j, Xor(f.payload[j], d));
    XorReplace(Xor(c, d), f.payload[j], d);
    XorCancel(c, d);
  }

  /** Wire order of a frame: start, id, length, payload[0..length), checksum. */
  function Serialize(f: Frame): (bytes: seq<byte>)
    ensures |bytes| == 4 + f.length
    ensures bytes[0] == f.startByte
    ensures bytes[1..|bytes| - 1] == Covered(f)
    ensures bytes[|bytes| - 1] == f.checksum
  {
    [f.startByte] + Covered(f) + [f.checksum]
  }

  /** The byte arithmetic of the "Hi" frame: 7 ^ 2 ^ 'H' ^ 'i' == 0x24. */
  lemma HiChecksumBytes()
    ensures Xor(Xor(7, 2), Xor(0x48, 0x69)) == 0x24
  {
    assert XorNat(7, 2) == 5 by {
      assert XorNat(3, 1) == 2;
    }
    assert XorNat(0x48, 0x69) == 0x21 by {
      assert XorNat(2, 3) == 1;
      assert XorNat(4, 6) == 2;
      assert XorNat(9, 13) == 4;
      assert XorNat(18, 26) == 8;
      assert XorNat(36, 52) == 16;
    }
    assert XorNat(5, 0x21) == 0x24 by {
      assert XorNat(1, 8) == 9;
      assert XorNat(2, 16) == 18;
    }
  }

  /** The frame for message "Hi" with id 7: its checksum, its size, and one corruption. */
  lemma HiFrame(stale: Payload)
    ensures var f := MountFrame([0x48, 0x69], 7, 2, stale);
            && f.checksum == 0x24
            && VerifyChecksum(f)
            && Serialize(f) == [0x55, 7, 2, 0x48, 0x69, 0x24]
            && !VerifyChecksum(f.(payload := f.payload[0 := 0x49]))
  {
    var f := MountFrame([0x48, 0x69], 7, 2, stale);
    assert [0x48, 0x69][..2] == [0x48 as byte, 0x69];
    FoldPair(0x48, 0x69);
    HiChecksumBytes();
    MountThenVerify([0x48, 0x69], 7, 2, stale);
    PayloadChangeDetected(f, f.(payload := f.payload[0 := 0x49]), 0, 0x49);
  }
}
