/**
 * The DATA coding buffers of slay2_buffer.cpp: Slay2DataEncodingBuffer, which turns bytes into
 * the 7-bits-per-wire-byte DATA stream, and Slay2DataDecodingBuffer, which turns the stream back
 * into bytes. Both keep the running CRC-32 of the original bytes; data begins at buffer[1].
 *
 * Each operation is a function from one Coder value to the next, and the encoder class's
 * methods are proved to perform exactly that step on its fields; the decoder is the field
 * value of a Slay2 endpoint that DataDecPush updates. What the steps achieve is proved about
 * the functions: the encoder's buffer holds EncodeData of the bytes pushed, the decoder's
 * buffer holds DecodeDataStream of the wire bytes pushed, and DataCodec proves the two inverse.
 * The C++ array member embedded in each object is a fixed-length sequence field that each
 * push reassigns.
 */
module DataBuffers {
  import opened Wire
  import opened Crc32
  import opened DataCodec
  import opened Coding

  // ---------------------------------------------------------------------------------------
  // Encoder steps, as functions on the buffer's fields
  // ---------------------------------------------------------------------------------------

  /** What every DATA encoding buffer keeps: step inside a group of seven, count in bounds. */
  predicate DataEncoderShape(e: Coder)
  {
    Counted(e) && e.step < 7 && (e.step != 0 ==> e.count < |e.buffer|)
  }

  /** pushData's ++count, and one more after the seventh byte of a group. */
  function DataNextCount(count: nat, step: nat): nat
  {
    if step == 6 then count + 2 else count + 1
  }

  /** pushData's ++step, back to 0 once it reaches 7. */
  function DataNextStep(step: nat): nat
  {
    if step == 6 then 0 else step + 1
  }

  /** The wire byte pushData ORs into: cleared at a group start, the previous byte's seed otherwise. */
  function DataSeed(b: seq<bv8>, count: nat, step: nat): bv8
    requires count < |b|
  {
    if step == 0 then 0 else b[count]
  }

  /** pushData's effect when there is room: two writes, the counters advanced, c in the CRC. */
  function DataPushed(e: Coder, c: bv8): Coder
    requires DataEncoderShape(e) && e.count < |e.buffer| - 1
  {
    Coder(e.buffer[e.count := DataSeed(e.buffer, e.count, e.step) | DataLow(c, e.step)]
                  [e.count + 1 := DataHigh(c, e.step)],
          DataNextCount(e.count, e.step), DataNextStep(e.step), CrcStep(e.crc, c))
  }

  /** Slay2DataEncodingBuffer::pushData: the new fields, and whether there was room. */
  function DataPush(e: Coder, c: bv8): (r: (Coder, bool))
    requires DataEncoderShape(e)
    ensures DataEncoderShape(r.0) && |r.0.buffer| == |e.buffer|
    ensures r.1 <==> e.count < |e.buffer| - 1
    ensures !r.1 ==> r.0 == e
  {
    if e.count < |e.buffer| - 1 then (DataPushed(e, c), true) else (e, false)
  }

  /** DataPush with room, spelled out over the seed byte it ORs into. */
  lemma DataPushedIs(e: Coder, c: bv8, seed: bv8)
    requires DataEncoderShape(e) && e.count < |e.buffer| - 1
    requires seed == DataSeed(e.buffer, e.count, e.step)
    ensures DataPush(e, c) == (Coder(e.buffer[e.count := seed | DataLow(c, e.step)][e.count + 1 := DataHigh(c, e.step)],
                                     DataNextCount(e.count, e.step), DataNextStep(e.step), CrcStep(e.crc, c)), true)
  {
  }

  /** The bytes s pushed one after another; the flag says that every push found room. */
  function DataPushAll(e: Coder, s: seq<bv8>): (r: (Coder, bool))
    requires DataEncoderShape(e)
    ensures DataEncoderShape(r.0) && |r.0.buffer| == |e.buffer|
    decreases |s|
  {
    if s == [] then (e, true)
    else
      var before := DataPushAll(e, s[..|s| - 1]);
      var after := DataPush(before.0, s[|s| - 1]);
      (after.0, before.1 && after.1)
  }

  /** Slay2DataEncodingBuffer::pushDataBig32: four pushes, most significant byte first, flags ANDed. */
  function DataPushBig32(e: Coder, v: bv32): (r: (Coder, bool))
    requires DataEncoderShape(e)
    ensures DataEncoderShape(r.0) && |r.0.buffer| == |e.buffer|
  {
    var b := Big32(v);
    var p3 := DataPush(e, b[0]);
    var p2 := DataPush(p3.0, b[1]);
    var p1 := DataPush(p2.0, b[2]);
    var p0 := DataPush(p1.0, b[3]);
    (p0.0, p3.1 && p2.1 && p1.1 && p0.1)
  }

  /** Slay2DataEncodingBuffer::pushEndOfData: round up to a whole wire byte and terminate. */
  function DataPushEnd(e: Coder): (r: (Coder, bool))
    requires DataEncoderShape(e)
    ensures DataEncoderShape(r.0) && |r.0.buffer| == |e.buffer|
    ensures r.1 <==> WrittenEnd(e.count, e.step) < |e.buffer|
    ensures !r.1 ==> r.0 == e
  {
    var cnt := WrittenEnd(e.count, e.step);
    if cnt < |e.buffer| then (Coder(e.buffer[cnt := END_OF_DATA], cnt + 1, 0, e.crc), true)
    else (e, false)
  }

  /**
   * The DATA frame the scheduler builds in an encoding buffer: flush, the bytes s, their CRC-32
   * (the buffer's own running CRC) most significant byte first, and the terminator.
   */
  function DataFrame(e: Coder, s: seq<bv8>): (r: (Coder, bool))
    requires |e.buffer| >= 1
    ensures DataEncoderShape(r.0) && |r.0.buffer| == |e.buffer|
  {
    var body := DataPushAll(Flushed(e), s);
    var sum := DataPushAll(body.0, Big32(body.0.crc));  // pushDataBig32: DataPushBig32IsPushAll
    var end := DataPushEnd(sum.0);
    (end.0, body.1 && sum.1 && end.1)
  }

  // ---------------------------------------------------------------------------------------
  // What the encoder steps keep
  // ---------------------------------------------------------------------------------------

  /**
   * The encoder's invariant: b[1..] holds the terminated frames done, then the encoding of the
   * bytes pushed since; step is the position in the current group of seven; crc is the CRC-32
   * of every byte pushed since the last flush.
   */
  ghost predicate EncoderInv(b: seq<bv8>, count: nat, step: nat, crc: bv32,
                             done: seq<bv8>, pushed: seq<bv8>, crcInput: seq<bv8>)
  {
    step == |pushed| % 7 &&
    WrittenEnd(count, step) == 1 + |done| + |EncodeData(pushed)| &&
    WrittenEnd(count, step) <= |b| &&
    b[1..WrittenEnd(count, step)] == done + EncodeData(pushed) &&
    crc == CrcFold(CRC_INIT, crcInput)
  }

  /** The invariant's buffers have the encoder's shape. */
  lemma EncoderInvShape(e: Coder, done: seq<bv8>, pushed: seq<bv8>, crcInput: seq<bv8>)
    requires EncoderInv(e.buffer, e.count, e.step, e.crc, done, pushed, crcInput)
    ensures DataEncoderShape(e)
  {
  }

  /** Whatever pushData does to the step, the written image grows by exactly two wire bytes... */
  lemma DataWrittenAfterPush(count: nat, step: nat)
    requires step < 7
    ensures WrittenEnd(DataNextCount(count, step), DataNextStep(step)) == count + 2
  {
  }

  /** ...and the step stays the number of bytes pushed, modulo 7. */
  lemma DataStepAfterPush(n: nat)
    ensures DataNextStep(n % 7) == (n + 1) % 7
  {
  }

  /** pushData at a group start: c takes two fresh wire bytes after the image. */
  lemma EncoderPushFresh(b: seq<bv8>, count: nat, done: seq<bv8>, pushed: seq<bv8>, c: bv8)
    requires |pushed| % 7 == 0 && count == 1 + |done| + |EncodeData(pushed)| && count + 1 < |b|
    requires b[1..count] == done + EncodeData(pushed)
    ensures count + 2 == 1 + |done| + |EncodeData(pushed + [c])|
    ensures b[count := 0 | DataLow(c, 0)][count + 1 := DataHigh(c, 0)][1..count + 2]
         == done + EncodeData(pushed + [c])
  {
    EncodeDataPushStart(pushed, c);
    WriteTwoFresh(b, count, 0 | DataLow(c, 0), DataHigh(c, 0));
  }

  /** pushData inside a group: c completes the seed byte and seeds the next wire byte. */
  lemma EncoderPushOver(b: seq<bv8>, count: nat, done: seq<bv8>, pushed: seq<bv8>, c: bv8, st: nat)
    requires st == |pushed| % 7 && st != 0
    requires count + 1 == 1 + |done| + |EncodeData(pushed)| && count + 1 < |b|
    requires b[1..count + 1] == done + EncodeData(pushed)
    ensures count + 2 == 1 + |done| + |EncodeData(pushed + [c])|
    ensures b[count := b[count] | DataLow(c, st)][count + 1 := DataHigh(c, st)][1..count + 2]
         == done + EncodeData(pushed + [c])
  {
    EncodeDataPushMid(pushed, c);
    WriteOverLast(b, count, done, EncodeData(pushed), DataLow(c, st), DataHigh(c, st));
  }

  /**
   * pushData's two writes and counter updates keep the encoder's invariant, with c pushed and
   * folded into the CRC.
   */
  lemma EncoderPushKeeps(b: seq<bv8>, count: nat, step: nat, crc: bv32,
                         done: seq<bv8>, pushed: seq<bv8>, crcInput: seq<bv8>, c: bv8)
    requires EncoderInv(b, count, step, crc, done, pushed, crcInput) && count < |b| - 1
    ensures EncoderInv(b[count := DataSeed(b, count, step) | DataLow(c, step)][count + 1 := DataHigh(c, step)],
                       DataNextCount(count, step), DataNextStep(step), CrcStep(crc, c),
                       done, pushed + [c], crcInput + [c])
  {
    DataStepAfterPush(|pushed|);
    DataWrittenAfterPush(count, step);
    CrcFoldPush(CRC_INIT, crcInput, c);
    if step == 0 {
      EncoderPushFresh(b, count, done, pushed, c);
    } else {
      EncoderPushOver(b, count, done, pushed, c, step);
    }
  }

  /** pushData keeps the encoder's invariant, with c appended to the bytes pushed and to the CRC. */
  lemma DataPushKeeps(e: Coder, done: seq<bv8>, pushed: seq<bv8>, crcInput: seq<bv8>, c: bv8)
    requires EncoderInv(e.buffer, e.count, e.step, e.crc, done, pushed, crcInput)
    requires e.count < |e.buffer| - 1
    ensures DataEncoderShape(e)
    ensures var r := DataPushed(e, c);
      EncoderInv(r.buffer, r.count, r.step, r.crc, done, pushed + [c], crcInput + [c])
  {
    EncoderInvShape(e, done, pushed, crcInput);
    EncoderPushKeeps(e.buffer, e.count, e.step, e.crc, done, pushed, crcInput, c);
  }

  /** The written image is 1 + |done| + n + ceil(n/7) long, so the next push needs count + 2 of it. */
  lemma DataRoomForNext(count: nat, step: nat, d: nat, n: nat)
    requires step == n % 7 && WrittenEnd(count, step) == 1 + d + n + (n + 6) / 7
    ensures count + 2 == 1 + d + (n + 1) + (n + 7) / 7
  {
  }

  /**
   * Pushing the bytes s one by one keeps the invariant, and every push finds room as long as
   * the final encoding fits the buffer.
   */
  lemma {:induction false} DataPushAllKeeps(e: Coder, done: seq<bv8>, pushed: seq<bv8>,
                                            crcInput: seq<bv8>, s: seq<bv8>)
    requires DataEncoderShape(e) && EncoderInv(e.buffer, e.count, e.step, e.crc, done, pushed, crcInput)
    requires 1 + |done| + |EncodeData(pushed + s)| <= |e.buffer|
    ensures DataPushAll(e, s).1
    ensures var r := DataPushAll(e, s).0;
      EncoderInv(r.buffer, r.count, r.step, r.crc, done, pushed + s, crcInput + s)
    decreases |s|
  {
    if s == [] {
      assert pushed + s == pushed && crcInput + s == crcInput;
    } else {
      var s', c := s[..|s| - 1], s[|s| - 1];
      assert s' + [c] == s;
      assert pushed + s == (pushed + s') + [c] && crcInput + s == (crcInput + s') + [c];
      EncodeDataLength(pushed + s');
      EncodeDataLength(pushed + s);
      DataPushAllKeeps(e, done, pushed, crcInput, s');
      var mid := DataPushAll(e, s').0;
      DataRoomForNext(mid.count, mid.step, |done|, |pushed + s'|);
      DataPushKeeps(mid, done, pushed + s', crcInput + s', c);
    }
  }

  /** Pushing s + [c] is pushing s, then c. */
  lemma DataPushAllSnoc(e: Coder, s: seq<bv8>, c: bv8)
    requires DataEncoderShape(e)
    ensures DataPushAll(e, s + [c]).0 == DataPush(DataPushAll(e, s).0, c).0
    ensures DataPushAll(e, s + [c]).1 == (DataPushAll(e, s).1 && DataPush(DataPushAll(e, s).0, c).1)
  {
    assert (s + [c])[..|s|] == s;
  }

  /** pushDataBig32 is pushData of the four bytes Big32 lists. */
  lemma DataPushBig32IsPushAll(e: Coder, v: bv32)
    requires DataEncoderShape(e)
    ensures DataPushBig32(e, v) == DataPushAll(e, Big32(v))
  {
    var b := Big32(v);
    assert [] + [b[0]] == b[..1] && b[..1] + [b[1]] == b[..2];
    assert b[..2] + [b[2]] == b[..3] && b[..3] + [b[3]] == b;
    DataPushAllSnoc(e, [], b[0]);
    DataPushAllSnoc(e, b[..1], b[1]);
    DataPushAllSnoc(e, b[..2], b[2]);
    DataPushAllSnoc(e, b[..3], b[3]);
  }

  /** pushEndOfData keeps the invariant: the pushed bytes' encoding and END_OF_DATA become done. */
  lemma DataPushEndKeeps(e: Coder, done: seq<bv8>, pushed: seq<bv8>, crcInput: seq<bv8>)
    requires DataEncoderShape(e) && EncoderInv(e.buffer, e.count, e.step, e.crc, done, pushed, crcInput)
    requires WrittenEnd(e.count, e.step) < |e.buffer|
    ensures DataPushEnd(e).1
    ensures var r := DataPushEnd(e).0;
      EncoderInv(r.buffer, r.count, r.step, r.crc, done + EncodeData(pushed) + [END_OF_DATA], [], crcInput)
  {
    var w := WrittenEnd(e.count, e.step);
    assert e.buffer[w := END_OF_DATA][1..w + 1] == e.buffer[1..w] + [END_OF_DATA];
  }

  /** A flushed encoder holds no frames and no bytes. */
  lemma DataFlushedInv(e: Coder)
    requires |e.buffer| >= 1
    ensures var f := Flushed(e); EncoderInv(f.buffer, f.count, f.step, f.crc, [], [], [])
  {
    assert EncodeData([]) == [];
  }

  /** After flush, the bytes s: their encoding is in the buffer, and their CRC in the register. */
  lemma DataFrameBytes(e: Coder, s: seq<bv8>)
    requires |e.buffer| == TX_BUFFER && |s| <= 2 + FRAME_PAYLOAD
    ensures var body := DataPushAll(Flushed(e), s);
      body.1 && EncoderInv(body.0.buffer, body.0.count, body.0.step, body.0.crc, [], s, s)
  {
    DataFlushedInv(e);
    EncodeDataLength(s);
    assert [] + s == s;
    DataPushAllKeeps(Flushed(e), [], [], [], s);
  }

  /** Then the CRC-32, most significant byte first: the encoding of both is in the buffer. */
  lemma DataFrameChecksum(body: Coder, s: seq<bv8>)
    requires |body.buffer| == TX_BUFFER && |s| <= 2 + FRAME_PAYLOAD && DataEncoderShape(body)
    requires EncoderInv(body.buffer, body.count, body.step, body.crc, [], s, s)
    ensures var sum := DataPushAll(body, Big32(body.crc)); var x := Big32(CrcFold(CRC_INIT, s));
      sum.1 && EncoderInv(sum.0.buffer, sum.0.count, sum.0.step, sum.0.crc, [], s + x, s + x)
  {
    var x := Big32(CrcFold(CRC_INIT, s));
    EncodeDataLength(s + x);
    DataPushAllKeeps(body, [], s, s, x);
  }

  /** Then the terminator: the buffer holds the whole encoded frame. */
  lemma DataFrameTail(body: Coder, s: seq<bv8>)
    requires |body.buffer| == TX_BUFFER && |s| <= 2 + FRAME_PAYLOAD && DataEncoderShape(body)
    requires EncoderInv(body.buffer, body.count, body.step, body.crc, [], s, s)
    ensures var sum := DataPushAll(body, Big32(body.crc)); var end := DataPushEnd(sum.0);
      sum.1 && end.1 && Counted(end.0) && Written(end.0) == EncodedDataFrame(s)
  {
    DataFrameChecksum(body, s);
    var x := Big32(CrcFold(CRC_INIT, s));
    var sum := DataPushAll(body, x).0;
    EncodeDataLength(s + x);
    DataPushEndKeeps(sum, [], s + x, s + x);
    NothingBefore(EncodeData(s + x));
    EncoderInvWritten(DataPushEnd(sum).0, EncodeData(s + x) + [END_OF_DATA], s + x);
  }

  /** With no bytes pending, the written image is exactly the terminated frames. */
  lemma EncoderInvWritten(e: Coder, done: seq<bv8>, crcInput: seq<bv8>)
    requires EncoderInv(e.buffer, e.count, e.step, e.crc, done, [], crcInput)
    ensures Counted(e) && Written(e) == done
  {
    assert EncodeData([]) == [];
  }

  /**
   * Every frame of up to 258 bytes (sequence number, channel, 256 payload bytes) fits the
   * SLAY2_TX_BUFFER: no push fails, and the buffer then holds exactly EncodedDataFrame(s),
   * with the CRC over s.
   */
  lemma DataFrameEncodes(e: Coder, s: seq<bv8>)
    requires |e.buffer| == TX_BUFFER && |s| <= 2 + FRAME_PAYLOAD
    ensures DataFrame(e, s).1
    ensures Counted(DataFrame(e, s).0) && Written(DataFrame(e, s).0) == EncodedDataFrame(s)
  {
    DataFrameBytes(e, s);
    DataFrameTail(DataPushAll(Flushed(e), s).0, s);
  }

  // ---------------------------------------------------------------------------------------
  // Decoder steps, as functions on the buffer's fields
  // ---------------------------------------------------------------------------------------

  /** What every DATA decoding buffer keeps: count inside the array and step inside a group of 8. */
  predicate DataDecoderShape(d: Coder)
  {
    1 <= d.count < |d.buffer| && d.step < 8
  }

  /**
   * Slay2DataDecodingBuffer::pushData when there is room: the seven payload bits of c complete
   * buffer[cnt-1] (`c << left`, nothing at a group start) and start buffer[cnt] (`c >> right`).
   */
  function DataDecPushed(d: Coder, c: bv8): Coder
    requires DataDecoderShape(d) && d.count < |d.buffer| - 1
  {
    var cnt := DecoderCount(d.count, d.step);
    var lo := d.buffer[cnt - 1] | Shl(c & 0x7F, 8 - d.step);
    Coder(d.buffer[cnt - 1 := lo][cnt := Shr(c & 0x7F, d.step)], cnt, (d.step + 1) % 8,
          DecoderCrc(d.crc, d.step, lo))
  }

  /** DataDecPush with room, spelled out over the step's own intermediate values. */
  lemma DataDecPushedIs(d: Coder, c: bv8, cnt: nat, lo: bv8, hi: bv8)
    requires DataDecoderShape(d) && d.count < |d.buffer| - 1
    requires cnt == DecoderCount(d.count, d.step)
    requires lo == d.buffer[cnt - 1] | Shl(c & 0x7F, 8 - d.step) && hi == Shr(c & 0x7F, d.step)
    ensures DataDecPush(d, c) == (Coder(d.buffer[cnt - 1 := lo][cnt := hi], cnt, (d.step + 1) % 8,
                                        DecoderCrc(d.crc, d.step, lo)), true)
  {
  }

  /** Slay2DataDecodingBuffer::pushData: the new fields, and whether there was room. */
  function DataDecPush(d: Coder, c: bv8): (r: (Coder, bool))
    requires DataDecoderShape(d)
    ensures DataDecoderShape(r.0) && |r.0.buffer| == |d.buffer|
    ensures r.1 <==> d.count < |d.buffer| - 1
    ensures !r.1 ==> r.0 == d
  {
    if d.count < |d.buffer| - 1 then (DataDecPushed(d, c), true) else (d, false)
  }

  /** The wire bytes w pushed one after another; the flag says that every push found room. */
  function DataDecPushAll(d: Coder, w: seq<bv8>): (r: (Coder, bool))
    requires DataDecoderShape(d)
    ensures DataDecoderShape(r.0) && |r.0.buffer| == |d.buffer|
    decreases |w|
  {
    if w == [] then (d, true)
    else
      var before := DataDecPushAll(d, w[..|w| - 1]);
      var after := DataDecPush(before.0, w[|w| - 1]);
      (after.0, before.1 && after.1)
  }

  // ---------------------------------------------------------------------------------------
  // What the decoder steps keep
  // ---------------------------------------------------------------------------------------

  /**
   * The decoder's invariant: buffer[1..count] holds the bytes completed from the wire bytes,
   * buffer[count] the partially assembled one, and crc the CRC-32 of the completed bytes.
   */
  ghost predicate DecoderInv(b: seq<bv8>, count: nat, step: nat, crc: bv32, wire: seq<bv8>)
  {
    step == |wire| % 8 &&
    count == 1 + DataDecodedLength(|wire|) &&
    count < |b| &&
    b[1..count] == DecodeDataStream(wire) &&
    (step != 0 ==> b[count] == DataPartial(wire)) &&
    crc == CrcFold(CRC_INIT, DecodeDataStream(wire))
  }

  /** The invariant's buffers have the decoder's shape. */
  lemma DecoderInvShape(d: Coder, wire: seq<bv8>)
    requires DecoderInv(d.buffer, d.count, d.step, d.crc, wire)
    ensures DataDecoderShape(d)
  {
  }

  /**
   * A wire byte at a group start completes nothing: it only starts the partial byte, its
   * seven payload bits (`c << 8` adds nothing to the byte before, `c >> 0` is all of them).
   */
  lemma DecoderPushStart(b: seq<bv8>, count: nat, crc: bv32, wire: seq<bv8>, c: bv8)
    requires DecoderInv(b, count, 0, crc, wire) && count < |b| - 1
    ensures DecoderInv(b[count := c & 0x7F], count, 1, crc, wire + [c])
  {
    var w := wire + [c];
    DataStreamPush(wire, c);
    DataNoCompletion(|wire|);
    DecoderStepAfterPush(|wire|, 0);
    assert |w| == |wire| + 1 && w[|w| - 1] == c;
    assert DataPartial(w) == c & 0x7F;
    assert b[count := c & 0x7F][1..count] == b[1..count];
  }

  /** Inside a group, the byte c >> step is the new partial byte, unless c ends the group. */
  lemma DecoderNewPartial(wire: seq<bv8>, c: bv8, st: nat, hi: bv8)
    requires st == |wire| % 8 && 1 <= st && hi == Shr(c & 0x7F, st)
    ensures |wire + [c]| % 8 == (st + 1) % 8
    ensures (st + 1) % 8 != 0 ==> DataPartial(wire + [c]) == hi
  {
    DecoderStepAfterPush(|wire|, st);
    if st < 7 {
      assert |wire + [c]| % 8 == st + 1;
      assert (wire + [c])[|wire + [c]| - 1] == c;
    }
  }

  /** pushData's `step = (step + 1) & 7` keeps the step the number of wire bytes modulo 8. */
  lemma DecoderStepAfterPush(n: nat, st: nat)
    requires st == n % 8
    ensures (st + 1) % 8 == (n + 1) % 8
  {
  }

  /** The completed byte lo extends the decoded bytes and their CRC. */
  lemma DecoderCompletes(b: seq<bv8>, count: nat, st: nat, crc: bv32, wire: seq<bv8>, c: bv8, lo: bv8)
    requires DecoderInv(b, count, st, crc, wire) && st != 0
    requires lo == b[count] | Shl(c & 0x7F, 8 - st)
    ensures DecodeDataStream(wire + [c]) == DecodeDataStream(wire) + [lo]
    ensures CrcStep(crc, lo) == CrcFold(CRC_INIT, DecodeDataStream(wire + [c]))
    ensures count + 1 == 1 + DataDecodedLength(|wire + [c]|)
  {
    assert lo == DataFill(DataPartial(wire), c, st);
    DataStreamPush(wire, c);
    DataNextOffset(|wire|);
    CrcFoldPush(CRC_INIT, DecodeDataStream(wire), lo);
  }

  /** A wire byte inside a group completes the partial byte lo and starts the next one, hi... */
  lemma DecoderMidFacts(b: seq<bv8>, count: nat, st: nat, crc: bv32, wire: seq<bv8>, c: bv8, lo: bv8, hi: bv8)
    requires DecoderInv(b, count, st, crc, wire) && count < |b| - 1 && st != 0
    requires lo == b[count] | Shl(c & 0x7F, 8 - st) && hi == Shr(c & 0x7F, st)
    ensures |wire + [c]| % 8 == (st + 1) % 8
    ensures count + 1 == 1 + DataDecodedLength(|wire| + 1)
    ensures b[count := lo][count + 1 := hi][1..count + 1] == DecodeDataStream(wire + [c])
    ensures (st + 1) % 8 != 0 ==> DataPartial(wire + [c]) == hi
    ensures CrcStep(crc, lo) == CrcFold(CRC_INIT, DecodeDataStream(wire + [c]))
  {
    DecoderNewPartial(wire, c, st, hi);
    DecoderCompletes(b, count, st, crc, wire, c, lo);
    DecoderImageGrows(b, count, lo, hi);
  }

  /** ...which is the decoder's invariant for the wire bytes with c appended. */
  lemma DecoderPushMid(b: seq<bv8>, count: nat, st: nat, crc: bv32, wire: seq<bv8>, c: bv8, lo: bv8, hi: bv8)
    requires DecoderInv(b, count, st, crc, wire) && count < |b| - 1 && st != 0
    requires lo == b[count] | Shl(c & 0x7F, 8 - st) && hi == Shr(c & 0x7F, st)
    ensures DecoderInv(b[count := lo][count + 1 := hi], count + 1, (st + 1) % 8, CrcStep(crc, lo), wire + [c])
  {
    DecoderMidFacts(b, count, st, crc, wire, c, lo, hi);
    var b' := b[count := lo][count + 1 := hi];
    assert (st + 1) % 8 != 0 ==> b'[count + 1] == DataPartial(wire + [c]);
  }

  /** At a group start, DataDecPushed is DecoderPushStart's step. */
  lemma DataDecPushKeepsStart(d: Coder, wire: seq<bv8>, c: bv8)
    requires DecoderInv(d.buffer, d.count, d.step, d.crc, wire) && d.count < |d.buffer| - 1
    requires d.step == 0 && DataDecoderShape(d)
    ensures var r := DataDecPushed(d, c); DecoderInv(r.buffer, r.count, r.step, r.crc, wire + [c])
  {
    var b, count := d.buffer, d.count;
    DecoderPushStart(b, count, d.crc, wire, c);
    var r := DataDecPushed(d, c);
    assert b[count - 1] | Shl(c & 0x7F, 8) == b[count - 1];
    assert r.buffer == b[count := c & 0x7F];
    assert r.count == count && r.step == 1 && r.crc == d.crc;
  }

  /** Inside a group, DataDecPushed is DecoderPushMid's step. */
  lemma DataDecPushKeepsMid(d: Coder, wire: seq<bv8>, c: bv8)
    requires DecoderInv(d.buffer, d.count, d.step, d.crc, wire) && d.count < |d.buffer| - 1
    requires d.step != 0 && DataDecoderShape(d)
    ensures var r := DataDecPushed(d, c); DecoderInv(r.buffer, r.count, r.step, r.crc, wire + [c])
  {
    var b, count, st := d.buffer, d.count, d.step;
    var lo, hi := b[count] | Shl(c & 0x7F, 8 - st), Shr(c & 0x7F, st);
    DecoderPushMid(b, count, st, d.crc, wire, c, lo, hi);
    var r := DataDecPushed(d, c);
    assert r.buffer == b[count := lo][count + 1 := hi];
    assert r.count == count + 1 && r.step == (st + 1) % 8 && r.crc == CrcStep(d.crc, lo);
  }

  /** pushData of the DATA decoder keeps the invariant, with c appended to the wire bytes. */
  lemma DataDecPushKeeps(d: Coder, wire: seq<bv8>, c: bv8)
    requires DecoderInv(d.buffer, d.count, d.step, d.crc, wire) && d.count < |d.buffer| - 1
    ensures DataDecoderShape(d)
    ensures var r := DataDecPushed(d, c); DecoderInv(r.buffer, r.count, r.step, r.crc, wire + [c])
  {
    DecoderInvShape(d, wire);
    if d.step == 0 {
      DataDecPushKeepsStart(d, wire, c);
    } else {
      DataDecPushKeepsMid(d, wire, c);
    }
  }

  /** DataDecodedLength never decreases as wire bytes arrive. */
  lemma DataDecodedMonotone(m: nat, n: nat)
    requires m <= n
    ensures DataDecodedLength(m) <= DataDecodedLength(n)
  {
  }

  /**
   * Pushing the wire bytes w one by one keeps the invariant, and every push finds room as long
   * as the bytes completed before the last one leave two places in the buffer.
   */
  lemma {:induction false} DataDecPushAllKeeps(d: Coder, wire: seq<bv8>, w: seq<bv8>)
    requires DataDecoderShape(d) && DecoderInv(d.buffer, d.count, d.step, d.crc, wire)
    requires w != [] ==> DataDecodedLength(|wire| + |w| - 1) + 2 < |d.buffer|
    ensures var r := DataDecPushAll(d, w).0; DecoderInv(r.buffer, r.count, r.step, r.crc, wire + w)
    decreases |w|
  {
    if w == [] {
      assert wire + w == wire;
    } else {
      var w', c := w[..|w| - 1], w[|w| - 1];
      assert w' + [c] == w;
      assert wire + w == (wire + w') + [c];
      if w' != [] {
        DataDecodedMonotone(|wire| + |w'| - 1, |wire| + |w| - 1);
      }
      DataDecPushAllKeeps(d, wire, w');
      var mid := DataDecPushAll(d, w').0;
      assert mid.count < |mid.buffer| - 1;
      DataDecPushKeeps(mid, wire + w', c);
    }
  }

  /** Under the same bound, every one of those pushes finds room. */
  lemma {:induction false} DataDecPushAllFits(d: Coder, wire: seq<bv8>, w: seq<bv8>)
    requires DataDecoderShape(d) && DecoderInv(d.buffer, d.count, d.step, d.crc, wire)
    requires w != [] ==> DataDecodedLength(|wire| + |w| - 1) + 2 < |d.buffer|
    ensures DataDecPushAll(d, w).1
    decreases |w|
  {
    if w != [] {
      var w' := w[..|w| - 1];
      if w' != [] {
        DataDecodedMonotone(|wire| + |w'| - 1, |wire| + |w| - 1);
      }
      DataDecPushAllFits(d, wire, w');
      DataDecPushAllKeeps(d, wire, w');
    }
  }

  /** The last wire byte of an encoding completes the last byte: one fewer is complete before it. */
  lemma DataEncodedLengthBefore(n: nat)
    requires n >= 1
    ensures DataDecodedLength(n + (n + 6) / 7 - 1) == n - 1
  {
  }

  /**
   * A flushed SLAY2_RX_BUFFER decoder fed the encoding of up to 262 bytes (a whole frame with
   * its CRC) never overflows and ends up holding exactly those bytes, with their CRC-32.
   */
  lemma DataDecodesEncoded(d: Coder, s: seq<bv8>)
    requires |d.buffer| == RX_BUFFER && |s| <= 2 + FRAME_PAYLOAD + 4
    ensures DataDecPushAll(Flushed(d), EncodeData(s)).1
    ensures Counted(DataDecPushAll(Flushed(d), EncodeData(s)).0)
    ensures Written(DataDecPushAll(Flushed(d), EncodeData(s)).0) == s
    ensures DataDecPushAll(Flushed(d), EncodeData(s)).0.crc == CrcFold(CRC_INIT, s)
  {
    var f := Flushed(d);
    assert DecoderInv(f.buffer, f.count, f.step, f.crc, []);
    EncodeDataLength(s);
    if s != [] {
      DataEncodedLengthBefore(|s|);
    }
    DataDecPushAllKeeps(f, [], EncodeData(s));
    DataDecPushAllFits(f, [], EncodeData(s));
    assert [] + EncodeData(s) == EncodeData(s);
    DataRoundTrip(s);
  }

  // ---------------------------------------------------------------------------------------
  // The encoder class
  // ---------------------------------------------------------------------------------------

  /** Slay2DataEncodingBuffer, with its SLAY2_TX_BUFFER bytes. */
  class DataEncoder {
    var buffer: seq<bv8>
    var count: nat
    var step: nat
    var crc: bv32

    function State(): Coder
      reads this
    {
      Coder(buffer, count, step, crc)
    }

    predicate Valid()
      reads this
    {
      |buffer| == TX_BUFFER && DataEncoderShape(State())
    }

    /** The buffer starts flushed; its bytes are whatever the array held. */
    constructor (init: seq<bv8>)
      requires |init| == TX_BUFFER
      ensures Valid() && State() == Flushed(Coder(init, 0, 0, 0))
    {
      buffer, count, step, crc := init, 1, 0, CRC_INIT;
    }

    /** Slay2Buffer::flush. */
    method Flush()
      requires Valid()
      modifies this
      ensures Valid() && State() == Flushed(old(State()))
    {
      count, step, crc := 1, 0, CRC_INIT;
    }

    /** getBuffer() read up to getCount(). */
    function Bytes(): (r: seq<bv8>)
      requires Valid()
      reads this
      ensures r == Written(State())
    {
      buffer[1..count]
    }

    /** Slay2DataEncodingBuffer::pushData. */
    method Push(c: bv8) returns (ok: bool)
      requires Valid()
      modifies this
      ensures Valid() && (State(), ok) == DataPush(old(State()), c)
    {
      if count < |buffer| - 1 {
        // addToCrc(c); the byte at count is cleared at a group start, then ORed with the low
        // bits; the next byte takes the high bits; ++count, ++step, and after seven bytes
        // step = 0 with one more ++count.
        var seed := if step == 0 then 0 else buffer[count];
        DataPushedIs(State(), c, seed);
        buffer, count, step, crc :=
          buffer[count := seed | DataLow(c, step)][count + 1 := DataHigh(c, step)],
          DataNextCount(count, step), DataNextStep(step), CrcStep(crc, c);
        ok := true;
      } else {
        ok := false;
      }
    }

    /** Slay2DataEncodingBuffer::pushDataBig32: all four pushes are made, their flags ANDed. */
    method PushBig32(v: bv32) returns (ok: bool)
      requires Valid()
      modifies this
      ensures Valid() && (State(), ok) == DataPushBig32(old(State()), v)
    {
      ghost var b := Big32(v);
      ghost var p3 := DataPush(State(), b[0]);
      ok := Push((v >> 24) as bv8);
      assert State() == p3.0;
      ghost var p2 := DataPush(p3.0, b[1]);
      var ok2 := Push(((v >> 16) & 0xFF) as bv8);
      assert State() == p2.0;
      ghost var p1 := DataPush(p2.0, b[2]);
      var ok1 := Push(((v >> 8) & 0xFF) as bv8);
      assert State() == p1.0;
      var ok0 := Push((v & 0xFF) as bv8);
      ok := ok && ok2 && ok1 && ok0;
    }

    /** Slay2DataEncodingBuffer::pushEndOfData. */
    method PushEnd() returns (ok: bool)
      requires Valid()
      modifies this
      ensures Valid() && (State(), ok) == DataPushEnd(old(State()))
    {
      var cnt := count + (if step != 0 then 1 else 0);
      if cnt < |buffer| {
        buffer := buffer[cnt := END_OF_DATA];
        count, step := cnt + 1, 0;
        ok := true;
      } else {
        ok := false;
      }
    }
  }
}
