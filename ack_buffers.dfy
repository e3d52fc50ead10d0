/**
 * The ACK coding buffers of slay2_buffer.cpp: Slay2AckEncodingBuffer, which turns bytes into
 * the 6-bits-per-wire-byte ACK stream, and Slay2AckDecodingBuffer, which turns the stream back
 * into bytes. They are built like the DATA buffers (DataBuffers): each operation is a function
 * from one Coder value to the next, the encoder class's methods are proved to perform exactly
 * that step, the decoder is the field value of a Slay2 endpoint that AckDecPush updates,
 * and the encoder's and decoder's images are tied to EncodeAck and DecodeAckStream of AckCodec.
 * The scheduler builds an ACK frame of one sequence number in a SLAY2_ACK_BUFFER of 16 bytes.
 */
module AckBuffers {
  import opened Wire
  import opened Crc32
  import opened AckCodec
  import opened Coding

  // ---------------------------------------------------------------------------------------
  // Encoder steps, as functions on the buffer's fields
  // ---------------------------------------------------------------------------------------

  /** What every ACK encoding buffer keeps: step inside a group of three, count in bounds. */
  predicate AckEncoderShape(e: Coder)
  {
    Counted(e) && e.step < 3 && (e.step != 0 ==> e.count < |e.buffer|)
  }

  /** pushAck's ++count, and one more after the third byte of a group. */
  function AckNextCount(count: nat, step: nat): nat
  {
    if step == 2 then count + 2 else count + 1
  }

  /** pushAck's ++step, back to 0 once it reaches 3. */
  function AckNextStep(step: nat): nat
  {
    if step == 2 then 0 else step + 1
  }

  /** The wire byte pushAck ORs into: cleared at a group start, the previous byte's seed otherwise. */
  function AckSeed(b: seq<bv8>, count: nat, step: nat): bv8
    requires count < |b|
  {
    if step == 0 then 0 else b[count]
  }

  /** pushAck's effect when there is room: two writes, the counters advanced, c in the CRC. */
  function AckPushed(e: Coder, c: bv8): Coder
    requires AckEncoderShape(e) && e.count < |e.buffer| - 1
  {
    Coder(e.buffer[e.count := AckSeed(e.buffer, e.count, e.step) | AckLow(c, e.step)]
                  [e.count + 1 := AckHigh(c, e.step)],
          AckNextCount(e.count, e.step), AckNextStep(e.step), CrcStep(e.crc, c))
  }

  /** Slay2AckEncodingBuffer::pushAck: the new fields, and whether there was room. */
  function AckPush(e: Coder, c: bv8): (r: (Coder, bool))
    requires AckEncoderShape(e)
    ensures AckEncoderShape(r.0) && |r.0.buffer| == |e.buffer|
    ensures r.1 <==> e.count < |e.buffer| - 1
    ensures !r.1 ==> r.0 == e
  {
    if e.count < |e.buffer| - 1 then (AckPushed(e, c), true) else (e, false)
  }

  /** AckPush with room, spelled out over the seed byte it ORs into. */
  lemma AckPushedIs(e: Coder, c: bv8, seed: bv8)
    requires AckEncoderShape(e) && e.count < |e.buffer| - 1
    requires seed == AckSeed(e.buffer, e.count, e.step)
    ensures AckPush(e, c) == (Coder(e.buffer[e.count := seed | AckLow(c, e.step)][e.count + 1 := AckHigh(c, e.step)],
                                     AckNextCount(e.count, e.step), AckNextStep(e.step), CrcStep(e.crc, c)), true)
  {
  }

  /** The bytes s pushed one after another; the flag says that every push found room. */
  function AckPushAll(e: Coder, s: seq<bv8>): (r: (Coder, bool))
    requires AckEncoderShape(e)
    ensures AckEncoderShape(r.0) && |r.0.buffer| == |e.buffer|
    decreases |s|
  {
    if s == [] then (e, true)
    else
      var before := AckPushAll(e, s[..|s| - 1]);
      var after := AckPush(before.0, s[|s| - 1]);
      (after.0, before.1 && after.1)
  }

  /** Slay2AckEncodingBuffer::pushAckBig32: four pushes, most significant byte first, flags ANDed. */
  function AckPushBig32(e: Coder, v: bv32): (r: (Coder, bool))
    requires AckEncoderShape(e)
    ensures AckEncoderShape(r.0) && |r.0.buffer| == |e.buffer|
  {
    var b := Big32(v);
    var p3 := AckPush(e, b[0]);
    var p2 := AckPush(p3.0, b[1]);
    var p1 := AckPush(p2.0, b[2]);
    var p0 := AckPush(p1.0, b[3]);
    (p0.0, p3.1 && p2.1 && p1.1 && p0.1)
  }

  /** Slay2AckEncodingBuffer::pushEndOfAck: round up to a whole wire byte and terminate. */
  function AckPushEnd(e: Coder): (r: (Coder, bool))
    requires AckEncoderShape(e)
    ensures AckEncoderShape(r.0) && |r.0.buffer| == |e.buffer|
    ensures r.1 <==> WrittenEnd(e.count, e.step) < |e.buffer|
    ensures !r.1 ==> r.0 == e
  {
    var cnt := WrittenEnd(e.count, e.step);
    if cnt < |e.buffer| then (Coder(e.buffer[cnt := END_OF_ACK], cnt + 1, 0, e.crc), true)
    else (e, false)
  }

  /**
   * The ACK frame scheduleAck builds in an encoding buffer: flush, the sequence number, its
   * CRC-32 (the buffer's own running CRC) most significant byte first, and the terminator.
   */
  function AckFrame(e: Coder, seqNr: bv8): (r: (Coder, bool))
    requires |e.buffer| >= 1
    ensures AckEncoderShape(r.0) && |r.0.buffer| == |e.buffer|
  {
    var body := AckPushAll(Flushed(e), [seqNr]);  // pushAck(seqNr)
    var sum := AckPushAll(body.0, Big32(body.0.crc));  // pushAckBig32: AckPushBig32IsPushAll
    var end := AckPushEnd(sum.0);
    (end.0, body.1 && sum.1 && end.1)
  }

  // ---------------------------------------------------------------------------------------
  // What the encoder steps keep
  // ---------------------------------------------------------------------------------------

  /**
   * The encoder's invariant: b[1..] holds the terminated frames done, then the encoding of the
   * bytes pushed since; step is the position in the current group of three; crc is the CRC-32
   * of every byte pushed since the last flush.
   */
  ghost predicate AckEncoderInv(b: seq<bv8>, count: nat, step: nat, crc: bv32,
                                done: seq<bv8>, pushed: seq<bv8>, crcInput: seq<bv8>)
  {
    step == |pushed| % 3 &&
    WrittenEnd(count, step) == 1 + |done| + |EncodeAck(pushed)| &&
    WrittenEnd(count, step) <= |b| &&
    b[1..WrittenEnd(count, step)] == done + EncodeAck(pushed) &&
    crc == CrcFold(CRC_INIT, crcInput)
  }

  /** The invariant's buffers have the encoder's shape. */
  lemma AckEncoderInvShape(e: Coder, done: seq<bv8>, pushed: seq<bv8>, crcInput: seq<bv8>)
    requires AckEncoderInv(e.buffer, e.count, e.step, e.crc, done, pushed, crcInput)
    ensures AckEncoderShape(e)
  {
  }

  /** Whatever pushAck does to the step, the written image grows by exactly two wire bytes... */
  lemma AckWrittenAfterPush(count: nat, step: nat)
    requires step < 3
    ensures WrittenEnd(AckNextCount(count, step), AckNextStep(step)) == count + 2
  {
  }

  /** ...and the step stays the number of bytes pushed, modulo 3. */
  lemma AckStepAfterPush(n: nat)
    ensures AckNextStep(n % 3) == (n + 1) % 3
  {
  }

  /** pushAck at a group start: c takes two fresh wire bytes after the image. */
  lemma AckEncoderPushFresh(b: seq<bv8>, count: nat, done: seq<bv8>, pushed: seq<bv8>, c: bv8)
    requires |pushed| % 3 == 0 && count == 1 + |done| + |EncodeAck(pushed)| && count + 1 < |b|
    requires b[1..count] == done + EncodeAck(pushed)
    ensures count + 2 == 1 + |done| + |EncodeAck(pushed + [c])|
    ensures b[count := 0 | AckLow(c, 0)][count + 1 := AckHigh(c, 0)][1..count + 2]
         == done + EncodeAck(pushed + [c])
  {
    EncodeAckPushStart(pushed, c);
    WriteTwoFresh(b, count, 0 | AckLow(c, 0), AckHigh(c, 0));
  }

  /** pushAck inside a group: c completes the seed byte and seeds the next wire byte. */
  lemma AckEncoderPushOver(b: seq<bv8>, count: nat, done: seq<bv8>, pushed: seq<bv8>, c: bv8, st: nat)
    requires st == |pushed| % 3 && st != 0
    requires count + 1 == 1 + |done| + |EncodeAck(pushed)| && count + 1 < |b|
    requires b[1..count + 1] == done + EncodeAck(pushed)
    ensures count + 2 == 1 + |done| + |EncodeAck(pushed + [c])|
    ensures b[count := b[count] | AckLow(c, st)][count + 1 := AckHigh(c, st)][1..count + 2]
         == done + EncodeAck(pushed + [c])
  {
    EncodeAckPushMid(pushed, c);
    WriteOverLast(b, count, done, EncodeAck(pushed), AckLow(c, st), AckHigh(c, st));
  }

  /**
   * pushAck's two writes and counter updates keep the encoder's invariant, with c pushed and
   * folded into the CRC.
   */
  lemma AckEncoderPushKeeps(b: seq<bv8>, count: nat, step: nat, crc: bv32,
                            done: seq<bv8>, pushed: seq<bv8>, crcInput: seq<bv8>, c: bv8)
    requires AckEncoderInv(b, count, step, crc, done, pushed, crcInput) && count < |b| - 1
    ensures AckEncoderInv(b[count := AckSeed(b, count, step) | AckLow(c, step)][count + 1 := AckHigh(c, step)],
                       AckNextCount(count, step), AckNextStep(step), CrcStep(crc, c),
                       done, pushed + [c], crcInput + [c])
  {
    AckStepAfterPush(|pushed|);
    AckWrittenAfterPush(count, step);
    CrcFoldPush(CRC_INIT, crcInput, c);
    if step == 0 {
      AckEncoderPushFresh(b, count, done, pushed, c);
    } else {
      AckEncoderPushOver(b, count, done, pushed, c, step);
    }
  }

  /** pushAck keeps the encoder's invariant, with c appended to the bytes pushed and to the CRC. */
  lemma AckPushKeeps(e: Coder, done: seq<bv8>, pushed: seq<bv8>, crcInput: seq<bv8>, c: bv8)
    requires AckEncoderInv(e.buffer, e.count, e.step, e.crc, done, pushed, crcInput)
    requires e.count < |e.buffer| - 1
    ensures AckEncoderShape(e)
    ensures var r := AckPushed(e, c);
      AckEncoderInv(r.buffer, r.count, r.step, r.crc, done, pushed + [c], crcInput + [c])
  {
    AckEncoderInvShape(e, done, pushed, crcInput);
    AckEncoderPushKeeps(e.buffer, e.count, e.step, e.crc, done, pushed, crcInput, c);
  }

  /** The written image is 1 + |done| + n + ceil(n/3) long, so the next push needs count + 2 of it. */
  lemma AckRoomForNext(count: nat, step: nat, d: nat, n: nat)
    requires step == n % 3 && WrittenEnd(count, step) == 1 + d + n + (n + 2) / 3
    ensures count + 2 == 1 + d + (n + 1) + (n + 3) / 3
  {
  }

  /**
   * Pushing the bytes s one by one keeps the invariant, and every push finds room as long as
   * the final encoding fits the buffer.
   */
  lemma {:induction false} AckPushAllKeeps(e: Coder, done: seq<bv8>, pushed: seq<bv8>,
                                           crcInput: seq<bv8>, s: seq<bv8>)
    requires AckEncoderShape(e) && AckEncoderInv(e.buffer, e.count, e.step, e.crc, done, pushed, crcInput)
    requires 1 + |done| + |EncodeAck(pushed + s)| <= |e.buffer|
    ensures AckPushAll(e, s).1
    ensures var r := AckPushAll(e, s).0;
      AckEncoderInv(r.buffer, r.count, r.step, r.crc, done, pushed + s, crcInput + s)
    decreases |s|
  {
    if s == [] {
      assert pushed + s == pushed && crcInput + s == crcInput;
    } else {
      var s', c := s[..|s| - 1], s[|s| - 1];
      assert s' + [c] == s;
      assert pushed + s == (pushed + s') + [c] && crcInput + s == (crcInput + s') + [c];
      EncodeAckLength(pushed + s');
      EncodeAckLength(pushed + s);
      AckPushAllKeeps(e, done, pushed, crcInput, s');
      var mid := AckPushAll(e, s').0;
      AckRoomForNext(mid.count, mid.step, |done|, |pushed + s'|);
      AckPushKeeps(mid, done, pushed + s', crcInput + s', c);
    }
  }

  /** Pushing s + [c] is pushing s, then c. */
  lemma AckPushAllSnoc(e: Coder, s: seq<bv8>, c: bv8)
    requires AckEncoderShape(e)
    ensures AckPushAll(e, s + [c]).0 == AckPush(AckPushAll(e, s).0, c).0
    ensures AckPushAll(e, s + [c]).1 == (AckPushAll(e, s).1 && AckPush(AckPushAll(e, s).0, c).1)
  {
    assert (s + [c])[..|s|] == s;
  }

  /** pushAckBig32 is pushAck of the four bytes Big32 lists. */
  lemma AckPushBig32IsPushAll(e: Coder, v: bv32)
    requires AckEncoderShape(e)
    ensures AckPushBig32(e, v) == AckPushAll(e, Big32(v))
  {
    var b := Big32(v);
    assert [] + [b[0]] == b[..1] && b[..1] + [b[1]] == b[..2];
    assert b[..2] + [b[2]] == b[..3] && b[..3] + [b[3]] == b;
    AckPushAllSnoc(e, [], b[0]);
    AckPushAllSnoc(e, b[..1], b[1]);
    AckPushAllSnoc(e, b[..2], b[2]);
    AckPushAllSnoc(e, b[..3], b[3]);
  }

  /** pushEndOfAck keeps the invariant: the pushed bytes' encoding and END_OF_ACK become done. */
  lemma AckPushEndKeeps(e: Coder, done: seq<bv8>, pushed: seq<bv8>, crcInput: seq<bv8>)
    requires AckEncoderShape(e) && AckEncoderInv(e.buffer, e.count, e.step, e.crc, done, pushed, crcInput)
    requires WrittenEnd(e.count, e.step) < |e.buffer|
    ensures AckPushEnd(e).1
    ensures var r := AckPushEnd(e).0;
      AckEncoderInv(r.buffer, r.count, r.step, r.crc, done + EncodeAck(pushed) + [END_OF_ACK], [], crcInput)
  {
    var w := WrittenEnd(e.count, e.step);
    assert e.buffer[w := END_OF_ACK][1..w + 1] == e.buffer[1..w] + [END_OF_ACK];
  }

  /** A flushed encoder holds no frames and no bytes. */
  lemma AckFlushedInv(e: Coder)
    requires |e.buffer| >= 1
    ensures var f := Flushed(e); AckEncoderInv(f.buffer, f.count, f.step, f.crc, [], [], [])
  {
    assert EncodeAck([]) == [];
  }

  /** After flush, the bytes s: their encoding is in the buffer, and their CRC in the register. */
  lemma AckFrameBytes(e: Coder, s: seq<bv8>)
    requires |e.buffer| == ACK_BUFFER && |s| <= 6
    ensures var body := AckPushAll(Flushed(e), s);
      body.1 && AckEncoderInv(body.0.buffer, body.0.count, body.0.step, body.0.crc, [], s, s)
  {
    AckFlushedInv(e);
    EncodeAckLength(s);
    assert [] + s == s;
    AckPushAllKeeps(Flushed(e), [], [], [], s);
  }

  /** Then the CRC-32, most significant byte first: the encoding of both is in the buffer. */
  lemma AckFrameChecksum(body: Coder, s: seq<bv8>)
    requires |body.buffer| == ACK_BUFFER && |s| <= 6 && AckEncoderShape(body)
    requires AckEncoderInv(body.buffer, body.count, body.step, body.crc, [], s, s)
    ensures var sum := AckPushAll(body, Big32(body.crc)); var x := Big32(CrcFold(CRC_INIT, s));
      sum.1 && AckEncoderInv(sum.0.buffer, sum.0.count, sum.0.step, sum.0.crc, [], s + x, s + x)
  {
    var x := Big32(CrcFold(CRC_INIT, s));
    EncodeAckLength(s + x);
    AckPushAllKeeps(body, [], s, s, x);
  }

  /** Then the terminator: the buffer holds the whole encoded frame. */
  lemma AckFrameTail(body: Coder, s: seq<bv8>)
    requires |body.buffer| == ACK_BUFFER && |s| <= 6 && AckEncoderShape(body)
    requires AckEncoderInv(body.buffer, body.count, body.step, body.crc, [], s, s)
    ensures var sum := AckPushAll(body, Big32(body.crc)); var end := AckPushEnd(sum.0);
      sum.1 && end.1 && Counted(end.0) && Written(end.0) == EncodedAckFrame(s)
  {
    AckFrameChecksum(body, s);
    var x := Big32(CrcFold(CRC_INIT, s));
    var sum := AckPushAll(body, x).0;
    EncodeAckLength(s + x);
    AckPushEndKeeps(sum, [], s + x, s + x);
    NothingBefore(EncodeAck(s + x));
    AckEncoderInvWritten(AckPushEnd(sum).0, EncodeAck(s + x) + [END_OF_ACK], s + x);
  }

  /** With no bytes pending, the written image is exactly the terminated frames. */
  lemma AckEncoderInvWritten(e: Coder, done: seq<bv8>, crcInput: seq<bv8>)
    requires AckEncoderInv(e.buffer, e.count, e.step, e.crc, done, [], crcInput)
    ensures Counted(e) && Written(e) == done
  {
    assert EncodeAck([]) == [];
  }

  /**
   * An ACK frame fits the SLAY2_ACK_BUFFER: no push fails, and the buffer then holds exactly
   * EncodedAckFrame([seqNr]), with the CRC over the sequence number.
   */
  lemma AckFrameEncodes(e: Coder, seqNr: bv8)
    requires |e.buffer| == ACK_BUFFER
    ensures AckFrame(e, seqNr).1
    ensures Counted(AckFrame(e, seqNr).0) && Written(AckFrame(e, seqNr).0) == EncodedAckFrame([seqNr])
  {
    AckFrameBytes(e, [seqNr]);
    AckFrameTail(AckPushAll(Flushed(e), [seqNr]).0, [seqNr]);
  }

  // ---------------------------------------------------------------------------------------
  // Decoder steps, as functions on the buffer's fields
  // ---------------------------------------------------------------------------------------

  /** What every ACK decoding buffer keeps: count inside the array and step inside a group of 4. */
  predicate AckDecoderShape(d: Coder)
  {
    1 <= d.count < |d.buffer| && d.step < 4
  }

  /** The decoder's `buffer[cnt-1] |= c << left`: the six payload bits of c above partial byte p. */
  function AckDecLow(p: bv8, c: bv8, st: nat): bv8
    requires st < 4
  {
    p | Shl(c & 0x3F, 8 - 2 * st)
  }

  /** The decoder's `buffer[cnt] = c >> right`: the payload bits of c left for the next byte. */
  function AckDecHigh(c: bv8, st: nat): bv8
  {
    Shr(c & 0x3F, 2 * st)
  }

  /** At a group start, `c << 8` leaves the previous byte as it was. */
  lemma AckDecLowAtStart(p: bv8, c: bv8)
    ensures AckDecLow(p, c, 0) == p
  {
  }

  /**
   * Slay2AckDecodingBuffer::pushAck when there is room: the six payload bits of c complete
   * buffer[cnt-1] (`c << left`, nothing at a group start) and start buffer[cnt] (`c >> right`).
   */
  function AckDecPushed(d: Coder, c: bv8): Coder
    requires AckDecoderShape(d) && d.count < |d.buffer| - 1
  {
    var cnt := DecoderCount(d.count, d.step);
    var lo := AckDecLow(d.buffer[cnt - 1], c, d.step);
    Coder(d.buffer[cnt - 1 := lo][cnt := AckDecHigh(c, d.step)], cnt, (d.step + 1) % 4,
          DecoderCrc(d.crc, d.step, lo))
  }

  /** AckDecPush with room, spelled out over the step's own intermediate values. */
  lemma AckDecPushedIs(d: Coder, c: bv8, cnt: nat, lo: bv8, hi: bv8)
    requires AckDecoderShape(d) && d.count < |d.buffer| - 1
    requires cnt == DecoderCount(d.count, d.step)
    requires lo == AckDecLow(d.buffer[cnt - 1], c, d.step) && hi == AckDecHigh(c, d.step)
    ensures AckDecPush(d, c) == (Coder(d.buffer[cnt - 1 := lo][cnt := hi], cnt, (d.step + 1) % 4,
                                        DecoderCrc(d.crc, d.step, lo)), true)
  {
  }

  /** Slay2AckDecodingBuffer::pushAck: the new fields, and whether there was room. */
  function AckDecPush(d: Coder, c: bv8): (r: (Coder, bool))
    requires AckDecoderShape(d)
    ensures AckDecoderShape(r.0) && |r.0.buffer| == |d.buffer|
    ensures r.1 <==> d.count < |d.buffer| - 1
    ensures !r.1 ==> r.0 == d
  {
    if d.count < |d.buffer| - 1 then (AckDecPushed(d, c), true) else (d, false)
  }

  /** The wire bytes w pushed one after another; the flag says that every push found room. */
  function AckDecPushAll(d: Coder, w: seq<bv8>): (r: (Coder, bool))
    requires AckDecoderShape(d)
    ensures AckDecoderShape(r.0) && |r.0.buffer| == |d.buffer|
    decreases |w|
  {
    if w == [] then (d, true)
    else
      var before := AckDecPushAll(d, w[..|w| - 1]);
      var after := AckDecPush(before.0, w[|w| - 1]);
      (after.0, before.1 && after.1)
  }

  // ---------------------------------------------------------------------------------------
  // What the decoder steps keep
  // ---------------------------------------------------------------------------------------

  /**
   * The decoder's invariant: buffer[1..count] holds the bytes completed from the wire bytes,
   * buffer[count] the partially assembled one, and crc the CRC-32 of the completed bytes.
   */
  ghost predicate AckDecoderInv(b: seq<bv8>, count: nat, step: nat, crc: bv32, wire: seq<bv8>)
  {
    step == |wire| % 4 &&
    count == 1 + AckDecodedLength(|wire|) &&
    count < |b| &&
    b[1..count] == DecodeAckStream(wire) &&
    (step != 0 ==> b[count] == AckPartial(wire)) &&
    crc == CrcFold(CRC_INIT, DecodeAckStream(wire))
  }

  /** The invariant's buffers have the decoder's shape. */
  lemma AckDecoderInvShape(d: Coder, wire: seq<bv8>)
    requires AckDecoderInv(d.buffer, d.count, d.step, d.crc, wire)
    ensures AckDecoderShape(d)
  {
  }

  /** A wire byte at a group start completes nothing: it only starts the partial byte. */
  lemma AckDecoderPushStart(b: seq<bv8>, count: nat, crc: bv32, wire: seq<bv8>, c: bv8)
    requires AckDecoderInv(b, count, 0, crc, wire) && count < |b| - 1
    ensures AckDecoderInv(b[count - 1 := AckDecLow(b[count - 1], c, 0)][count := AckDecHigh(c, 0)],
                       count, 1, crc, wire + [c])
  {
    AckStartsPartial(wire, c);
    AckDecLowAtStart(b[count - 1], c);
    var b' := b[count - 1 := AckDecLow(b[count - 1], c, 0)];
    assert b' == b;
    assert b[count := AckDecHigh(c, 0)][1..count] == b[1..count];
  }

  /** A wire byte at a group start decodes to nothing yet and is the whole partial byte. */
  lemma AckStartsPartial(wire: seq<bv8>, c: bv8)
    requires |wire| % 4 == 0
    ensures |wire + [c]| % 4 == 1 && AckPartial(wire + [c]) == AckDecHigh(c, 0)
    ensures AckDecodedLength(|wire + [c]|) == AckDecodedLength(|wire|)
    ensures DecodeAckStream(wire + [c]) == DecodeAckStream(wire)
  {
    var w := wire + [c];
    AckStreamPush(wire, c);
    AckNoCompletion(|wire|);
    AckDecoderStepAfterPush(|wire|, 0);
    assert |w| == |wire| + 1 && w[|w| - 1] == c;
  }

  /** Inside a group, the byte c >> 2 step is the new partial byte, unless c ends the group. */
  lemma AckDecoderNewPartial(wire: seq<bv8>, c: bv8, st: nat, hi: bv8)
    requires st == |wire| % 4 && 1 <= st && hi == AckDecHigh(c, st)
    ensures |wire + [c]| % 4 == (st + 1) % 4
    ensures (st + 1) % 4 != 0 ==> AckPartial(wire + [c]) == hi
  {
    AckDecoderStepAfterPush(|wire|, st);
    if st < 3 {
      assert |wire + [c]| % 4 == st + 1;
      assert (wire + [c])[|wire + [c]| - 1] == c;
    }
  }

  /** pushAck's `step = (step + 1) & 3` keeps the step the number of wire bytes modulo 4. */
  lemma AckDecoderStepAfterPush(n: nat, st: nat)
    requires st == n % 4
    ensures (st + 1) % 4 == (n + 1) % 4
  {
  }

  /** The completed byte lo extends the decoded bytes and their CRC. */
  lemma AckDecoderCompletes(b: seq<bv8>, count: nat, st: nat, crc: bv32, wire: seq<bv8>, c: bv8, lo: bv8)
    requires AckDecoderInv(b, count, st, crc, wire) && st != 0
    requires lo == AckDecLow(b[count], c, st)
    ensures DecodeAckStream(wire + [c]) == DecodeAckStream(wire) + [lo]
    ensures CrcStep(crc, lo) == CrcFold(CRC_INIT, DecodeAckStream(wire + [c]))
    ensures count + 1 == 1 + AckDecodedLength(|wire + [c]|)
  {
    assert lo == AckFill(AckPartial(wire), c, st);
    AckStreamPush(wire, c);
    AckNextOffset(|wire|);
    CrcFoldPush(CRC_INIT, DecodeAckStream(wire), lo);
  }

  /** A wire byte inside a group completes the partial byte lo and starts the next one, hi... */
  lemma AckDecoderMidFacts(b: seq<bv8>, count: nat, st: nat, crc: bv32, wire: seq<bv8>, c: bv8, lo: bv8, hi: bv8)
    requires AckDecoderInv(b, count, st, crc, wire) && count < |b| - 1 && st != 0
    requires lo == AckDecLow(b[count], c, st) && hi == AckDecHigh(c, st)
    ensures |wire + [c]| % 4 == (st + 1) % 4
    ensures count + 1 == 1 + AckDecodedLength(|wire| + 1)
    ensures b[count := lo][count + 1 := hi][1..count + 1] == DecodeAckStream(wire + [c])
    ensures (st + 1) % 4 != 0 ==> AckPartial(wire + [c]) == hi
    ensures CrcStep(crc, lo) == CrcFold(CRC_INIT, DecodeAckStream(wire + [c]))
  {
    AckDecoderNewPartial(wire, c, st, hi);
    AckDecoderCompletes(b, count, st, crc, wire, c, lo);
    DecoderImageGrows(b, count, lo, hi);
  }

  /** ...which is the decoder's invariant for the wire bytes with c appended. */
  lemma AckDecoderPushMid(b: seq<bv8>, count: nat, st: nat, crc: bv32, wire: seq<bv8>, c: bv8, lo: bv8, hi: bv8)
    requires AckDecoderInv(b, count, st, crc, wire) && count < |b| - 1 && st != 0
    requires lo == AckDecLow(b[count], c, st) && hi == AckDecHigh(c, st)
    ensures AckDecoderInv(b[count := lo][count + 1 := hi], count + 1, (st + 1) % 4, CrcStep(crc, lo), wire + [c])
  {
    AckDecoderMidFacts(b, count, st, crc, wire, c, lo, hi);
    var b' := b[count := lo][count + 1 := hi];
    assert (st + 1) % 4 != 0 ==> b'[count + 1] == AckPartial(wire + [c]);
  }

  /** At a group start, AckDecPushed is AckDecoderPushStart's step. */
  lemma AckDecPushKeepsStart(d: Coder, wire: seq<bv8>, c: bv8)
    requires AckDecoderInv(d.buffer, d.count, d.step, d.crc, wire) && d.count < |d.buffer| - 1
    requires d.step == 0 && AckDecoderShape(d)
    ensures var r := AckDecPushed(d, c); AckDecoderInv(r.buffer, r.count, r.step, r.crc, wire + [c])
  {
    var b, count := d.buffer, d.count;
    AckDecoderPushStart(b, count, d.crc, wire, c);
    var r := AckDecPushed(d, c);
    assert r.buffer == b[count - 1 := AckDecLow(b[count - 1], c, 0)][count := AckDecHigh(c, 0)];
    assert r.count == count && r.step == 1 && r.crc == d.crc;
  }

  /** Inside a group, AckDecPushed is AckDecoderPushMid's step. */
  lemma AckDecPushKeepsMid(d: Coder, wire: seq<bv8>, c: bv8)
    requires AckDecoderInv(d.buffer, d.count, d.step, d.crc, wire) && d.count < |d.buffer| - 1
    requires d.step != 0 && AckDecoderShape(d)
    ensures var r := AckDecPushed(d, c); AckDecoderInv(r.buffer, r.count, r.step, r.crc, wire + [c])
  {
    var b, count, st := d.buffer, d.count, d.step;
    var lo, hi := AckDecLow(b[count], c, st), AckDecHigh(c, st);
    AckDecoderPushMid(b, count, st, d.crc, wire, c, lo, hi);
    var r := AckDecPushed(d, c);
    assert r.buffer == b[count := lo][count + 1 := hi];
    assert r.count == count + 1 && r.step == (st + 1) % 4 && r.crc == CrcStep(d.crc, lo);
  }

  /** pushAck of the ACK decoder keeps the invariant, with c appended to the wire bytes. */
  lemma AckDecPushKeeps(d: Coder, wire: seq<bv8>, c: bv8)
    requires AckDecoderInv(d.buffer, d.count, d.step, d.crc, wire) && d.count < |d.buffer| - 1
    ensures AckDecoderShape(d)
    ensures var r := AckDecPushed(d, c); AckDecoderInv(r.buffer, r.count, r.step, r.crc, wire + [c])
  {
    AckDecoderInvShape(d, wire);
    if d.step == 0 {
      AckDecPushKeepsStart(d, wire, c);
    } else {
      AckDecPushKeepsMid(d, wire, c);
    }
  }

  /** AckDecodedLength never decreases as wire bytes arrive. */
  lemma AckDecodedMonotone(m: nat, n: nat)
    requires m <= n
    ensures AckDecodedLength(m) <= AckDecodedLength(n)
  {
  }

  /**
   * Pushing the wire bytes w one by one keeps the invariant, and every push finds room as long
   * as the bytes completed before the last one leave two places in the buffer.
   */
  lemma {:induction false} AckDecPushAllKeeps(d: Coder, wire: seq<bv8>, w: seq<bv8>)
    requires AckDecoderShape(d) && AckDecoderInv(d.buffer, d.count, d.step, d.crc, wire)
    requires w != [] ==> AckDecodedLength(|wire| + |w| - 1) + 2 < |d.buffer|
    ensures var r := AckDecPushAll(d, w).0; AckDecoderInv(r.buffer, r.count, r.step, r.crc, wire + w)
    decreases |w|
  {
    if w == [] {
      assert wire + w == wire;
    } else {
      var w', c := w[..|w| - 1], w[|w| - 1];
      assert w' + [c] == w;
      assert wire + w == (wire + w') + [c];
      if w' != [] {
        AckDecodedMonotone(|wire| + |w'| - 1, |wire| + |w| - 1);
      }
      AckDecPushAllKeeps(d, wire, w');
      var mid := AckDecPushAll(d, w').0;
      assert mid.count < |mid.buffer| - 1;
      AckDecPushKeeps(mid, wire + w', c);
    }
  }

  /** Under the same bound, every one of those pushes finds room. */
  lemma {:induction false} AckDecPushAllFits(d: Coder, wire: seq<bv8>, w: seq<bv8>)
    requires AckDecoderShape(d) && AckDecoderInv(d.buffer, d.count, d.step, d.crc, wire)
    requires w != [] ==> AckDecodedLength(|wire| + |w| - 1) + 2 < |d.buffer|
    ensures AckDecPushAll(d, w).1
    decreases |w|
  {
    if w != [] {
      var w' := w[..|w| - 1];
      if w' != [] {
        AckDecodedMonotone(|wire| + |w'| - 1, |wire| + |w| - 1);
      }
      AckDecPushAllFits(d, wire, w');
      AckDecPushAllKeeps(d, wire, w');
    }
  }

  /** The last wire byte of an encoding completes the last byte: one fewer is complete before it. */
  lemma AckEncodedLengthBefore(n: nat)
    requires n >= 1
    ensures AckDecodedLength(n + (n + 2) / 3 - 1) == n - 1
  {
  }

  /**
   * A flushed SLAY2_ACK_BUFFER decoder fed the encoding of up to 14 bytes (an ACK frame is 5:
   * the sequence number and its CRC) never overflows and ends up holding exactly those bytes,
   * with their CRC-32.
   */
  lemma AckDecodesEncoded(d: Coder, s: seq<bv8>)
    requires |d.buffer| == ACK_BUFFER && |s| + 2 <= ACK_BUFFER
    ensures AckDecPushAll(Flushed(d), EncodeAck(s)).1
    ensures Counted(AckDecPushAll(Flushed(d), EncodeAck(s)).0)
    ensures Written(AckDecPushAll(Flushed(d), EncodeAck(s)).0) == s
    ensures AckDecPushAll(Flushed(d), EncodeAck(s)).0.crc == CrcFold(CRC_INIT, s)
  {
    var f := Flushed(d);
    assert AckDecoderInv(f.buffer, f.count, f.step, f.crc, []);
    EncodeAckLength(s);
    if s != [] {
      AckEncodedLengthBefore(|s|);
    }
    AckDecPushAllKeeps(f, [], EncodeAck(s));
    AckDecPushAllFits(f, [], EncodeAck(s));
    assert [] + EncodeAck(s) == EncodeAck(s);
    AckRoundTrip(s);
  }

  // ---------------------------------------------------------------------------------------
  // The encoder class
  // ---------------------------------------------------------------------------------------

  /** Slay2AckEncodingBuffer, with its SLAY2_ACK_BUFFER bytes. */
  class AckEncoder {
    var buffer: seq<bv8>
    var count: nat
    var step: nat
    var crc: bv32

    function State(): Coder
      reads this
    {
      Coder(buffer, count, step, crc)
    }

    predicate Valid()
      reads this
    {
      |buffer| == ACK_BUFFER && AckEncoderShape(State())
    }

    /** The buffer starts flushed; its bytes are whatever the array held. */
    constructor (init: seq<bv8>)
      requires |init| == ACK_BUFFER
      ensures Valid() && State() == Flushed(Coder(init, 0, 0, 0))
    {
      buffer, count, step, crc := init, 1, 0, CRC_INIT;
    }

    /** Slay2Buffer::flush. */
    method Flush()
      requires Valid()
      modifies this
      ensures Valid() && State() == Flushed(old(State()))
    {
      count, step, crc := 1, 0, CRC_INIT;
    }

    /** getBuffer() read up to getCount(). */
    function Bytes(): (r: seq<bv8>)
      requires Valid()
      reads this
      ensures r == Written(State())
    {
      buffer[1..count]
    }

    /** Slay2AckEncodingBuffer::pushAck. */
    method Push(c: bv8) returns (ok: bool)
      requires Valid()
      modifies this
      ensures Valid() && (State(), ok) == AckPush(old(State()), c)
    {
      if count < |buffer| - 1 {
        // addToCrc(c); the byte at count is cleared at a group start, then ORed with the low
        // bits; the next byte takes the high bits; ++count, ++step, and after three bytes
        // step = 0 with one more ++count.
        var seed := if step == 0 then 0 else buffer[count];
        AckPushedIs(State(), c, seed);
        buffer, count, step, crc :=
          buffer[count := seed | AckLow(c, step)][count + 1 := AckHigh(c, step)],
          AckNextCount(count, step), AckNextStep(step), CrcStep(crc, c);
        ok := true;
      } else {
        ok := false;
      }
    }

    /** Slay2AckEncodingBuffer::pushAckBig32: all four pushes are made, their flags ANDed. */
    method PushBig32(v: bv32) returns (ok: bool)
      requires Valid()
      modifies this
      ensures Valid() && (State(), ok) == AckPushBig32(old(State()), v)
    {
      ghost var b := Big32(v);
      ghost var p3 := AckPush(State(), b[0]);
      ok := Push((v >> 24) as bv8);
      assert State() == p3.0;
      ghost var p2 := AckPush(p3.0, b[1]);
      var ok2 := Push(((v >> 16) & 0xFF) as bv8);
      assert State() == p2.0;
      ghost var p1 := AckPush(p2.0, b[2]);
      var ok1 := Push(((v >> 8) & 0xFF) as bv8);
      assert State() == p1.0;
      var ok0 := Push((v & 0xFF) as bv8);
      ok := ok && ok2 && ok1 && ok0;
    }

    /** Slay2AckEncodingBuffer::pushEndOfAck. */
    method PushEnd() returns (ok: bool)
      requires Valid()
      modifies this
      ensures Valid() && (State(), ok) == AckPushEnd(old(State()))
    {
      var cnt := count + (if step != 0 then 1 else 0);
      if cnt < |buffer| {
        buffer := buffer[cnt := END_OF_ACK];
        count, step := cnt + 1, 0;
        ok := true;
      } else {
        ok := false;
      }
    }
  }
}
