/**
 * The Slay2 endpoint of slay2.cpp: the receive loop that feeds wire bytes to the two decoding
 * buffers and acts on each completed frame, the transmit step that asks the scheduler for the
 * next frame, the periodic task around both, and the channel table that open and close edit.
 *
 * The endpoint's state (scheduler, both decoders, the SYNC counter and the expected sequence
 * number) is the value Endpoint, and each operation is a step function on it: ByteStep for one
 * received byte, TransmitStep for doTransmission, TaskStep for task. The class Slay2 holds the
 * same state in objects and its methods are proved to perform exactly these steps. The lemmas
 * say what the steps achieve: a SYNC burst resynchronises, a valid ACK frame releases the
 * acknowledged DATA frame, a valid DATA frame is acknowledged and delivered once, in order, and
 * a frame the scheduler builds on one side delivers its payload on the other.
 *
 * The byte source, the byte sink, the millisecond clock and the receiver callbacks lie outside
 * slay2.cpp: received bytes and the values transmit, getTxCount and getTime1ms return are
 * parameters, and what is transmitted or handed to a receiver is returned.
 */
module Engine {
  import opened Wire
  import opened Crc32
  import opened Coding
  import opened DataCodec
  import opened AckCodec
  import opened DataBuffers
  import opened AckBuffers
  import opened Channels
  import opened Scheduling
  import opened TxSchedulers

  /** SLAY2_NUM_CHANNELS. */
  const NUM_CHANNELS: nat := 8
  /** task sends this many SYNC bytes on start-up. */
  const SYNC_BURST: nat := 5
  /** This many SYNC bytes in a row reset the receiver. */
  const SYNC_RESET: nat := 3
  /** doTransmission adds a frame only while at most this many bytes wait to be sent. */
  const TX_BACKLOG: nat := 24

  datatype Option<T> = None | Some(value: T)

  /** A channel slot as the receive loop sees it: empty, or the channel's receiver callback (0 for NULL). */
  datatype Receiver = NoChannel | Attached(fn: nat, obj: nat)

  /** One receiver callback: the function, its object pointer, and the payload it is handed. */
  datatype Delivery = Delivery(fn: nat, obj: nat, payload: seq<bv8>)

  /** The state of an endpoint apart from its channels. */
  datatype Endpoint = Endpoint(sched: Sched, rxAck: Coder, rxData: Coder,
                               syncSent: bool, syncCount: nat, nextExp: bv8)

  /** What one task call hands to the outside: the SYNC burst, receiver calls, a frame. */
  datatype TaskOutput = TaskOutput(syncBurst: bool, deliveries: seq<Delivery>, frame: Option<seq<bv8>>)

  predicate EndpointInv(e: Endpoint)
  {
    SchedInv(e.sched) &&
    |e.rxAck.buffer| == ACK_BUFFER && AckDecoderShape(e.rxAck) &&
    |e.rxData.buffer| == RX_BUFFER && DataDecoderShape(e.rxData) &&
    e.syncCount < SYNC_RESET
  }

  /** A buffer that holds nothing since its last flush. */
  predicate IsFlushed(b: Coder)
  {
    |b.buffer| >= 1 && b == Flushed(b)
  }

  // ---------------------------------------------------------------------------------------
  // Reception: one byte
  // ---------------------------------------------------------------------------------------

  /** The reset both task (after its SYNC burst) and a SYNC run perform. */
  function Resync(e: Endpoint): (r: Endpoint)
    requires EndpointInv(e)
    ensures EndpointInv(r)
  {
    ResetEmpties(e.sched);
    e.(sched := ResetStep(e.sched), rxAck := Flushed(e.rxAck), rxData := Flushed(e.rxData), nextExp := 0)
  }

  /** A SYNC byte: counted, and the third in a row resets the receiver. */
  function OnSync(e: Endpoint): (r: Endpoint)
    requires EndpointInv(e)
    ensures EndpointInv(r)
  {
    if e.syncCount + 1 >= SYNC_RESET then Resync(e).(syncCount := 0)
    else e.(syncCount := e.syncCount + 1)
  }

  /** OnSync spelled out field by field. */
  lemma OnSyncIs(e: Endpoint)
    requires EndpointInv(e)
    ensures OnSync(e) == if e.syncCount + 1 >= SYNC_RESET
      then Endpoint(ResetStep(e.sched), Flushed(e.rxAck), Flushed(e.rxData), e.syncSent, 0, 0)
      else e.(syncCount := e.syncCount + 1)
  {
  }

  /**
   * END_OF_ACK: a frame whose CRC residue is 0 and which holds 5 bytes acknowledges its first
   * byte; the ACK decoder is flushed in any case.
   */
  function OnAckEnd(e: Endpoint): (r: Endpoint)
    requires EndpointInv(e)
    ensures EndpointInv(r)
  {
    var a := e.rxAck;
    var w := Written(a);
    AcknowledgeReleasesHead(e.sched, if |w| == 5 then w[0] else 0);
    var s := if a.crc == 0 && |w| == 5 then AcknowledgeStep(e.sched, w[0]).0 else e.sched;
    e.(sched := s, rxAck := Flushed(a))
  }

  /** Channel ch exists and has a receiver callback. */
  predicate Listening(receivers: seq<Receiver>, ch: bv8)
    requires |receivers| == NUM_CHANNELS
  {
    ch as nat < NUM_CHANNELS && receivers[ch as nat].Attached? && receivers[ch as nat].fn != 0
  }

  /** The call of channel ch's receiver with payload. */
  function Handed(receivers: seq<Receiver>, ch: bv8, payload: seq<bv8>): (r: Delivery)
    requires |receivers| == NUM_CHANNELS && Listening(receivers, ch)
    ensures r.fn != 0 && r.payload == payload
  {
    Delivery(receivers[ch as nat].fn, receivers[ch as nat].obj, payload)
  }

  /**
   * END_OF_DATA for a frame w (the DATA decoder's bytes) whose CRC residue is 0 and which
   * holds more than 6 bytes, before the flush: w[0] is scheduled for acknowledgement; if it is
   * the expected sequence number, the payload goes to the receiver of channel w[1] (after a 0
   * is written over the first CRC byte) and the expected number advances modulo 256.
   */
  function OnValidData(e: Endpoint, receivers: seq<Receiver>, w: seq<bv8>): (r: (Endpoint, seq<Delivery>))
    requires EndpointInv(e) && |receivers| == NUM_CHANNELS && 6 < |w| < |e.rxData.buffer|
    ensures EndpointInv(r.0) && |r.1| <= 1
  {
    ScheduleAckKeeps(e.sched, w[0]);
    var acked := e.(sched := ScheduleAckStep(e.sched, w[0]).0);
    if w[0] == e.nextExp then ExpectedFrame(acked, receivers, w) else (acked, [])
  }

  /**
   * The frame w with the expected sequence number is delivered, then the expected number
   * advances modulo 256.
   */
  function ExpectedFrame(e: Endpoint, receivers: seq<Receiver>, w: seq<bv8>): (r: (Endpoint, seq<Delivery>))
    requires EndpointInv(e) && |receivers| == NUM_CHANNELS && 6 < |w| < |e.rxData.buffer|
    ensures EndpointInv(r.0) && |r.1| <= 1
  {
    var (delivered, d) := Delivered(e, receivers, w);
    (delivered.(nextExp := e.nextExp + 1), d)
  }

  /**
   * The delivery of w: if channel w[1] has a receiver, a 0 is written over the first CRC
   * byte and the payload is handed to it.
   */
  function Delivered(e: Endpoint, receivers: seq<Receiver>, w: seq<bv8>): (r: (Endpoint, seq<Delivery>))
    requires EndpointInv(e) && |receivers| == NUM_CHANNELS && 6 < |w| < |e.rxData.buffer|
    ensures EndpointInv(r.0) && |r.1| <= 1 && r.0 == e.(rxData := r.0.rxData)
  {
    if Listening(receivers, w[1]) then
      (e.(rxData := e.rxData.(buffer := e.rxData.buffer[1 + 2 + (|w| - 6) := 0])),
       [Handed(receivers, w[1], w[2..|w| - 4])])
    else (e, [])
  }

  /** END_OF_DATA: a valid frame is taken in as above; the DATA decoder is flushed in any case. */
  function OnDataEnd(e: Endpoint, receivers: seq<Receiver>): (r: (Endpoint, seq<Delivery>))
    requires EndpointInv(e) && |receivers| == NUM_CHANNELS
    ensures EndpointInv(r.0) && |r.1| <= 1
  {
    var w := Written(e.rxData);
    var m := if e.rxData.crc == 0 && |w| > 6 then OnValidData(e, receivers, w) else (e, []);
    (m.0.(rxData := Flushed(m.0.rxData)), m.1)
  }

  /** One pass of doReception's loop: the byte's class decides, in the order of the tests there. */
  function ByteStep(e: Endpoint, receivers: seq<Receiver>, c: bv8): (r: (Endpoint, seq<Delivery>))
    requires EndpointInv(e) && |receivers| == NUM_CHANNELS
    ensures EndpointInv(r.0) && |r.1| <= 1
  {
    match Classify(c)
    case Sync => (OnSync(e), [])
    case AckPayload => (e.(syncCount := 0, rxAck := AckDecPush(e.rxAck, c).0), [])
    case AckEnd => (OnAckEnd(e.(syncCount := 0)), [])
    case DataPayload => (e.(syncCount := 0, rxData := DataDecPush(e.rxData, c).0), [])
    case DataEnd => OnDataEnd(e.(syncCount := 0), receivers)
    case Garbage => (e.(syncCount := 0), [])
  }

  /** Every byte but SYNC ends the SYNC run before anything else. */
  lemma ByteStepEndsSyncRun(e: Endpoint, receivers: seq<Receiver>, c: bv8)
    requires EndpointInv(e) && |receivers| == NUM_CHANNELS && c != SYNC
    ensures ByteStep(e, receivers, c) == ByteStep(e.(syncCount := 0), receivers, c)
  {
  }

  /** doReception over the bytes w, in order; the receiver calls made, in order. */
  function ReceiveAll(e: Endpoint, receivers: seq<Receiver>, w: seq<bv8>): (r: (Endpoint, seq<Delivery>))
    requires EndpointInv(e) && |receivers| == NUM_CHANNELS
    ensures EndpointInv(r.0) && |r.1| <= |w|
    decreases |w|
  {
    if w == [] then (e, [])
    else
      var before := ReceiveAll(e, receivers, w[..|w| - 1]);
      var after := ByteStep(before.0, receivers, w[|w| - 1]);
      (after.0, before.1 + after.1)
  }

  // ---------------------------------------------------------------------------------------
  // Transmission and Slay2::task
  // ---------------------------------------------------------------------------------------

  /**
   * doTransmission's getNextXfer call over the channels: the new state, what the channels then
   * hold, and the wire bytes of the buffer it returned, if any.
   */
  function SendStep(e: Endpoint, views: seq<ChannelView>, now: bv32)
    : (r: (Endpoint, seq<ChannelView>, Option<seq<bv8>>))
    requires EndpointInv(e)
    ensures EndpointInv(r.0) && r.0 == e.(sched := r.0.sched)
  {
    NextXferKeeps(e.sched, now, views);
    var (s, x) := NextXferStep(e.sched, now, views);
    if x.NoXfer? then (e.(sched := s), views, None)
    else (e.(sched := s), AfterTake(views, x), Some(Transmitted(s, x)))
  }

  /**
   * doTransmission: nothing happens while more than 24 bytes wait in the sink; otherwise a
   * frame getNextXfer returns is transmitted, and the ACK decoder is flushed first.
   */
  function TransmitStep(e: Endpoint, views: seq<ChannelView>, txCount: nat, now: bv32)
    : (r: (Endpoint, seq<ChannelView>, Option<seq<bv8>>))
    requires EndpointInv(e)
    ensures EndpointInv(r.0)
  {
    if txCount <= TX_BACKLOG then
      var (e1, views1, frame) := SendStep(e, views, now);
      (if frame.Some? then e1.(rxAck := Flushed(e1.rxAck)) else e1, views1, frame)
    else (e, views, None)
  }

  /**
   * task's start-up part: until a SYNC burst has been accepted whole, each call transmits five
   * SYNC bytes, and the call where transmit takes all five resets the endpoint.
   */
  function StartupStep(e: Endpoint, accepted: nat): (r: (Endpoint, bool))
    requires EndpointInv(e)
    ensures EndpointInv(r.0)
  {
    if !e.syncSent then
      (if accepted >= SYNC_BURST then Resync(e).(syncSent := true) else e, true)
    else
      (e, false)
  }

  /**
   * Slay2::task: start-up, then reception of the bytes rx, then transmission. accepted is
   * what transmit returns for the SYNC burst, txCount what getTxCount returns, now the
   * millisecond clock.
   */
  function TaskStep(e: Endpoint, receivers: seq<Receiver>, views: seq<ChannelView>,
                    accepted: nat, rx: seq<bv8>, txCount: nat, now: bv32)
    : (r: (Endpoint, seq<ChannelView>, TaskOutput))
    requires EndpointInv(e) && |receivers| == NUM_CHANNELS
    ensures EndpointInv(r.0)
  {
    var (e1, burst) := StartupStep(e, accepted);
    var (e2, delivered) := ReceiveAll(e1, receivers, rx);
    var (e3, views3, frame) := TransmitStep(e2, views, txCount, now);
    (e3, views3, TaskOutput(burst, delivered, frame))
  }

  // ---------------------------------------------------------------------------------------
  // What reception achieves
  // ---------------------------------------------------------------------------------------

  /** Receiving a, then b, is receiving a + b; the receiver calls are concatenated. */
  lemma {:induction false} ReceiveAllAppend(e: Endpoint, receivers: seq<Receiver>, a: seq<bv8>, b: seq<bv8>)
    requires EndpointInv(e) && |receivers| == NUM_CHANNELS
    ensures var x := ReceiveAll(e, receivers, a); var y := ReceiveAll(x.0, receivers, b);
      ReceiveAll(e, receivers, a + b) == (y.0, x.1 + y.1)
    decreases |b|
  {
    var x := ReceiveAll(e, receivers, a);
    if b == [] {
      assert a + b == a && x.1 + [] == x.1;
    } else {
      var b', c := b[..|b| - 1], b[|b| - 1];
      assert b == b' + [c] && a + b == (a + b') + [c];
      ReceiveAllAppend(e, receivers, a, b');
      var y' := ReceiveAll(x.0, receivers, b');
      ReceiveAllSnoc(e, receivers, a + b', c);
      ReceiveAllSnoc(x.0, receivers, b', c);
      var z := ByteStep(y'.0, receivers, c);
      SeqAssoc(x.1, y'.1, z.1);
    }
  }

  lemma SeqAssoc(x: seq<Delivery>, y: seq<Delivery>, z: seq<Delivery>)
    ensures (x + y) + z == x + (y + z)
  {
  }

  /** END_OF_DATA closing a DATA frame s whose CRC residue is 0 and that has a payload. */
  lemma DataEndValid(m: Endpoint, receivers: seq<Receiver>, s: seq<bv8>)
    requires EndpointInv(m) && |receivers| == NUM_CHANNELS
    requires Written(m.rxData) == s && m.rxData.crc == 0 && |s| > 6
    ensures var r := ByteStep(m, receivers, END_OF_DATA);
      var expected := s[0] == m.nextExp;
      r.0 == m.(syncCount := 0, sched := ScheduleAckStep(m.sched, s[0]).0, rxData := r.0.rxData,
                nextExp := if expected then m.nextExp + 1 else m.nextExp) &&
      IsFlushed(r.0.rxData) &&
      r.1 == (if expected && Listening(receivers, s[1]) then [Handed(receivers, s[1], s[2..|s| - 4])] else [])
  {
  }

  /** END_OF_DATA closing anything else: the DATA decoder is flushed and nothing more happens. */
  lemma DataEndInvalid(m: Endpoint, receivers: seq<Receiver>)
    requires EndpointInv(m) && |receivers| == NUM_CHANNELS
    requires !(m.rxData.crc == 0 && |Written(m.rxData)| > 6)
    ensures ByteStep(m, receivers, END_OF_DATA) == (m.(syncCount := 0, rxData := Flushed(m.rxData)), [])
  {
  }

  /** END_OF_ACK closing an ACK frame s whose CRC residue is 0: acknowledgeXfer of s[0]. */
  lemma AckEndValid(m: Endpoint, receivers: seq<Receiver>, s: seq<bv8>)
    requires EndpointInv(m) && |receivers| == NUM_CHANNELS
    requires Written(m.rxAck) == s && m.rxAck.crc == 0 && |s| == 5
    ensures ByteStep(m, receivers, END_OF_ACK) ==
      (m.(syncCount := 0, sched := AcknowledgeStep(m.sched, s[0]).0, rxAck := Flushed(m.rxAck)), [])
  {
  }

  /** Receiving w + [c] is receiving w, then one step of the loop for c. */
  lemma ReceiveAllSnoc(e: Endpoint, receivers: seq<Receiver>, w: seq<bv8>, c: bv8)
    requires EndpointInv(e) && |receivers| == NUM_CHANNELS
    ensures var x := ReceiveAll(e, receivers, w); var z := ByteStep(x.0, receivers, c);
      ReceiveAll(e, receivers, w + [c]) == (z.0, x.1 + z.1)
  {
    assert (w + [c])[..|w|] == w;
  }

  /** Receiving the first i + 1 bytes of rx is receiving the first i, then rx[i]. */
  lemma ReceivePrefixStep(e: Endpoint, receivers: seq<Receiver>, rx: seq<bv8>, i: nat)
    requires EndpointInv(e) && |receivers| == NUM_CHANNELS && i < |rx|
    ensures var x := ReceiveAll(e, receivers, rx[..i]); var z := ByteStep(x.0, receivers, rx[i]);
      ReceiveAll(e, receivers, rx[..i + 1]) == (z.0, x.1 + z.1)
  {
    var w := rx[..i + 1];
    assert w[..|w| - 1] == rx[..i] && w[|w| - 1] == rx[i];
  }

  /** Receiving one byte is one step of the loop. */
  lemma ReceiveOne(e: Endpoint, receivers: seq<Receiver>, c: bv8)
    requires EndpointInv(e) && |receivers| == NUM_CHANNELS
    ensures ReceiveAll(e, receivers, [c]) == ByteStep(e, receivers, c)
  {
    assert [c][..0] == [];
    assert [] + ByteStep(e, receivers, c).1 == ByteStep(e, receivers, c).1;
  }

  /** ACK payload bytes go to the ACK decoder alone and end any SYNC run. */
  lemma {:induction false} AckBytesReceived(e: Endpoint, receivers: seq<Receiver>, w: seq<bv8>)
    requires EndpointInv(e) && |receivers| == NUM_CHANNELS
    requires forall i :: 0 <= i < |w| ==> IsAck(w[i])
    ensures ReceiveAll(e, receivers, w) ==
      (e.(rxAck := AckDecPushAll(e.rxAck, w).0, syncCount := if w == [] then e.syncCount else 0), [])
    decreases |w|
  {
    if w != [] {
      AckBytesReceived(e, receivers, w[..|w| - 1]);
      TagSpacesDisjoint(w[|w| - 1]);
    }
  }

  /** DATA payload bytes go to the DATA decoder alone and end any SYNC run. */
  lemma {:induction false} DataBytesReceived(e: Endpoint, receivers: seq<Receiver>, w: seq<bv8>)
    requires EndpointInv(e) && |receivers| == NUM_CHANNELS
    requires forall i :: 0 <= i < |w| ==> IsData(w[i])
    ensures ReceiveAll(e, receivers, w) ==
      (e.(rxData := DataDecPushAll(e.rxData, w).0, syncCount := if w == [] then e.syncCount else 0), [])
    decreases |w|
  {
    if w != [] {
      DataBytesReceived(e, receivers, w[..|w| - 1]);
      TagSpacesDisjoint(w[|w| - 1]);
    }
  }

  /** A SYNC byte is counted by OnSync and calls nobody. */
  lemma SyncStep(e: Endpoint, receivers: seq<Receiver>)
    requires EndpointInv(e) && |receivers| == NUM_CHANNELS
    ensures ByteStep(e, receivers, SYNC) == (OnSync(e), [])
  {
  }

  /**
   * The state right after a resynchronisation: both queues empty, the sequence numbers and the
   * NACK count at 0, both decoders empty; syncSent is as it was.
   */
  predicate Resynced(x: Endpoint, syncSent: bool)
    requires EndpointInv(x)
  {
    x.nextExp == 0 && DataQueue(x.sched) == [] && AckQueue(x.sched) == [] &&
    x.sched.txSeqNr == 0 && x.sched.nackCount == 0 &&
    IsFlushed(x.rxAck) && IsFlushed(x.rxData) && x.syncSent == syncSent
  }

  /** A SYNC after a resynchronisation changes nothing but the SYNC count. */
  lemma SyncKeepsResynced(x: Endpoint, syncSent: bool)
    requires EndpointInv(x) && Resynced(x, syncSent)
    ensures Resynced(OnSync(x), syncSent)
  {
    ResetEmpties(x.sched);
  }

  /**
   * Three SYNC bytes always resynchronise: whatever came before, afterwards both queues are
   * empty, the sequence numbers restart at 0, both decoders hold nothing, and nobody is called.
   */
  lemma SyncBurstResets(e: Endpoint, receivers: seq<Receiver>)
    requires EndpointInv(e) && |receivers| == NUM_CHANNELS
    ensures var r := ReceiveAll(e, receivers, [SYNC, SYNC, SYNC]);
      r.1 == [] && Resynced(r.0, e.syncSent)
  {
    var e1 := OnSync(e);
    var e2 := OnSync(e1);
    ReceiveOne(e, receivers, SYNC);
    SyncStep(e, receivers);
    SyncStep(e1, receivers);
    SyncStep(e2, receivers);
    ReceiveAllSnoc(e, receivers, [SYNC], SYNC);
    assert [SYNC] + [SYNC] == [SYNC, SYNC];
    ReceiveAllSnoc(e, receivers, [SYNC, SYNC], SYNC);
    assert [SYNC, SYNC] + [SYNC] == [SYNC, SYNC, SYNC];
    ResetEmpties(e.sched);
    ResetEmpties(e1.sched);
    ResetEmpties(e2.sched);
    if e.syncCount == 0 {
      assert e2.syncCount == 2;
    } else if e.syncCount == 1 {
      SyncKeepsResynced(e2, e.syncSent);
    } else {
      SyncKeepsResynced(e1, e.syncSent);
      SyncKeepsResynced(e2, e.syncSent);
    }
  }

  /** Two SYNC bytes after any other byte only count: nothing is reset yet. */
  lemma TwoSyncsWait(e: Endpoint, receivers: seq<Receiver>)
    requires EndpointInv(e) && |receivers| == NUM_CHANNELS && e.syncCount == 0
    ensures ReceiveAll(e, receivers, [SYNC, SYNC]) == (e.(syncCount := 2), [])
  {
    ReceiveOne(e, receivers, SYNC);
    SyncStep(e, receivers);
    SyncStep(OnSync(e), receivers);
    ReceiveAllSnoc(e, receivers, [SYNC], SYNC);
    assert [SYNC] + [SYNC] == [SYNC, SYNC];
  }

  /** The decoded image of an ACK frame: the sequence number, then its CRC-32, whose residue is 0. */
  lemma AckFrameDecodes(e: Endpoint, receivers: seq<Receiver>, seqNr: bv8)
    requires EndpointInv(e) && |receivers| == NUM_CHANNELS && IsFlushed(e.rxAck)
    ensures var s := [seqNr] + Big32(CrcFold(CRC_INIT, [seqNr]));
      var mid := ReceiveAll(e, receivers, EncodeAck(s)).0;
      mid == e.(rxAck := mid.rxAck, syncCount := 0) &&
      Counted(mid.rxAck) && Written(mid.rxAck) == s && mid.rxAck.crc == 0 &&
      ReceiveAll(e, receivers, EncodeAck(s)).1 == [] &&
      ReceiveAll(e, receivers, EncodedAckFrame([seqNr])) == ByteStep(mid, receivers, END_OF_ACK)
  {
    var s := [seqNr] + Big32(CrcFold(CRC_INIT, [seqNr]));
    var w := EncodeAck(s);
    assert EncodedAckFrame([seqNr]) == w + [END_OF_ACK];
    EncodeAckTagged(s);
    AckBytesReceived(e, receivers, w);
    ReceiveAllAppend(e, receivers, w, [END_OF_ACK]);
    AckDecodesEncoded(e.rxAck, s);
    ZeroResidue(CRC_INIT, [seqNr]);
    var mid := ReceiveAll(e, receivers, w).0;
    ReceiveOne(mid, receivers, END_OF_ACK);
    assert ByteStep(mid, receivers, END_OF_ACK).1 == [] + ByteStep(mid, receivers, END_OF_ACK).1;
  }

  /**
   * A complete ACK frame for seqNr, received into an empty ACK decoder, is acknowledgeXfer of
   * seqNr; the ACK decoder is empty again and nothing else changes.
   */
  lemma AckFrameAcknowledges(e: Endpoint, receivers: seq<Receiver>, seqNr: bv8)
    requires EndpointInv(e) && |receivers| == NUM_CHANNELS && IsFlushed(e.rxAck)
    ensures var r := ReceiveAll(e, receivers, EncodedAckFrame([seqNr]));
      r == (e.(syncCount := 0, sched := AcknowledgeStep(e.sched, seqNr).0, rxAck := r.0.rxAck), []) &&
      IsFlushed(r.0.rxAck)
  {
    AckFrameDecodes(e, receivers, seqNr);
    var s := [seqNr] + Big32(CrcFold(CRC_INIT, [seqNr]));
    var mid := ReceiveAll(e, receivers, EncodeAck(s)).0;
    AckEndValid(mid, receivers, s);
  }

  /**
   * The ACK for a DATA frame releases it at the sender: with that frame at the head of the
   * queue, an ACK frame carrying its sequence number removes it and clears the NACK count,
   * and an ACK frame carrying another number changes nothing.
   */
  lemma AckReleasesSentFrame(e: Endpoint, receivers: seq<Receiver>, body: seq<bv8>, seqNr: bv8)
    requires EndpointInv(e) && |receivers| == NUM_CHANNELS && IsFlushed(e.rxAck)
    requires e.sched.dataCount > 0 && |body| >= 1 && DataQueue(e.sched)[0] == EncodedDataFrame(body)
    ensures var r := ReceiveAll(e, receivers, EncodedAckFrame([seqNr])).0;
      (seqNr == body[0] ==> DataQueue(r.sched) == DataQueue(e.sched)[1..] && r.sched.nackCount == 0) &&
      (seqNr != body[0] ==> r.sched == e.sched)
  {
    AckFrameAcknowledges(e, receivers, seqNr);
    AcknowledgeMatchesFrame(e.sched, body, seqNr);
    AcknowledgeReleasesHead(e.sched, seqNr);
  }

  /** The decoded image of a DATA frame: the body, then its CRC-32, whose residue is 0. */
  lemma DataFrameDecodes(e: Endpoint, receivers: seq<Receiver>, body: seq<bv8>)
    requires EndpointInv(e) && |receivers| == NUM_CHANNELS && IsFlushed(e.rxData)
    requires |body| <= 2 + FRAME_PAYLOAD
    ensures var s := body + Big32(CrcFold(CRC_INIT, body));
      var mid := ReceiveAll(e, receivers, EncodeData(s)).0;
      mid == e.(rxData := mid.rxData, syncCount := 0) &&
      Counted(mid.rxData) && Written(mid.rxData) == s && mid.rxData.crc == 0 &&
      ReceiveAll(e, receivers, EncodeData(s)).1 == [] &&
      ReceiveAll(e, receivers, EncodedDataFrame(body)) == ByteStep(mid, receivers, END_OF_DATA)
  {
    var s := body + Big32(CrcFold(CRC_INIT, body));
    var w := EncodeData(s);
    assert EncodedDataFrame(body) == w + [END_OF_DATA];
    EncodeDataTagged(s);
    DataBytesReceived(e, receivers, w);
    ReceiveAllAppend(e, receivers, w, [END_OF_DATA]);
    DataDecodesEncoded(e.rxData, s);
    ZeroResidue(CRC_INIT, body);
    var mid := ReceiveAll(e, receivers, w).0;
    ReceiveOne(mid, receivers, END_OF_DATA);
    assert ByteStep(mid, receivers, END_OF_DATA).1 == [] + ByteStep(mid, receivers, END_OF_DATA).1;
  }

  /**
   * What receiving frame does when it is a valid DATA frame for seqNr and channel ch carrying
   * payload: it is acknowledged, it is delivered, whole, to the receiver of channel ch exactly
   * when seqNr is the one expected and the channel has a receiver, the expected number
   * advances exactly when seqNr was the one expected, and the DATA decoder is left empty.
   */
  predicate Accepts(e: Endpoint, receivers: seq<Receiver>, frame: seq<bv8>, seqNr: bv8, ch: bv8, payload: seq<bv8>)
    requires EndpointInv(e) && |receivers| == NUM_CHANNELS
  {
    var r := ReceiveAll(e, receivers, frame);
    var expected := seqNr == e.nextExp;
    r.0 == e.(syncCount := 0, sched := ScheduleAckStep(e.sched, seqNr).0, rxData := r.0.rxData,
              nextExp := if expected then e.nextExp + 1 else e.nextExp) &&
    IsFlushed(r.0.rxData) &&
    r.1 == (if expected && Listening(receivers, ch) then [Handed(receivers, ch, payload)] else [])
  }

  /**
   * A complete DATA frame [seqNr, ch] + payload with 1 to 256 payload bytes, received into an
   * empty DATA decoder, is accepted as such.
   */
  lemma DataFrameReceived(e: Endpoint, receivers: seq<Receiver>, body: seq<bv8>)
    requires EndpointInv(e) && |receivers| == NUM_CHANNELS && IsFlushed(e.rxData)
    requires 3 <= |body| <= 2 + FRAME_PAYLOAD
    ensures Accepts(e, receivers, EncodedDataFrame(body), body[0], body[1], body[2..])
  {
    DataFrameDecodes(e, receivers, body);
    var s := body + Big32(CrcFold(CRC_INIT, body));
    var mid := ReceiveAll(e, receivers, EncodeData(s)).0;
    DataEndValid(mid, receivers, s);
    assert s[0] == body[0] && s[1] == body[1] && s[2..|s| - 4] == body[2..];
  }

  /**
   * A DATA frame with no payload is dropped whole: it is not acknowledged, nothing is
   * delivered, and nothing but the DATA decoder (flushed) and the SYNC run changes.
   */
  lemma ShortFrameDropped(e: Endpoint, receivers: seq<Receiver>, body: seq<bv8>)
    requires EndpointInv(e) && |receivers| == NUM_CHANNELS && IsFlushed(e.rxData) && |body| <= 2
    ensures var r := ReceiveAll(e, receivers, EncodedDataFrame(body));
      r == (e.(syncCount := 0, rxData := r.0.rxData), []) && IsFlushed(r.0.rxData)
  {
    DataFrameDecodes(e, receivers, body);
    var s := body + Big32(CrcFold(CRC_INIT, body));
    var mid := ReceiveAll(e, receivers, EncodeData(s)).0;
    DataEndInvalid(mid, receivers);
  }

  /**
   * End to end: the new DATA frame getNextXfer builds from the first ready channel ch, received
   * by an endpoint that expects its sequence number, is acknowledged there and hands exactly
   * the bytes taken from ch's queue to the receiver of channel ch.
   */
  lemma SentFrameDelivered(s: Sched, now: bv32, views: seq<ChannelView>, e: Endpoint, receivers: seq<Receiver>)
    requires SchedInv(s) && s.ackCount == 0 && !(s.dataCount > 0 && TimedOut(s, now))
    requires |views| == NUM_CHANNELS && FirstReady(views, 0) >= 0 && s.dataCount < FIFO_DEPTH
    requires EndpointInv(e) && |receivers| == NUM_CHANNELS && IsFlushed(e.rxData) && e.nextExp == s.txSeqNr
    ensures var ch := FirstReady(views, 0); var q := views[ch].queued;
      var x := NextXferStep(s, now, views);
      x.1.DataXfer? && SchedInv(x.0) && x.1.slot < FIFO_DEPTH &&
      Accepts(e, receivers, Transmitted(x.0, x.1), s.txSeqNr, ch as bv8, q[..Taken(q)])
  {
    var ch := FirstReady(views, 0);
    var q := views[ch].queued;
    NewFrameSent(s, now, views);
    DataFrameReceived(e, receivers, FrameBody(s.txSeqNr, ch, q[..Taken(q)]));
  }

  /** The frame getNextXfer builds from the first ready channel, and its size. */
  lemma NewFrameSent(s: Sched, now: bv32, views: seq<ChannelView>)
    requires SchedInv(s) && s.ackCount == 0 && !(s.dataCount > 0 && TimedOut(s, now))
    requires |views| == NUM_CHANNELS && FirstReady(views, 0) >= 0 && s.dataCount < FIFO_DEPTH
    ensures var ch := FirstReady(views, 0); var q := views[ch].queued;
      var x := NextXferStep(s, now, views); var body := FrameBody(s.txSeqNr, ch, q[..Taken(q)]);
      x.1.DataXfer? && SchedInv(x.0) && x.1.slot < FIFO_DEPTH &&
      Transmitted(x.0, x.1) == EncodedDataFrame(body) && 3 <= |body| <= 2 + FRAME_PAYLOAD &&
      body[0] == s.txSeqNr && body[1] == ch as bv8 && body[2..] == q[..Taken(q)]
  {
    var ch := FirstReady(views, 0);
    NextXferNewDataIs(s, now, views, ch);
    NewDataTransmitted(s, now, ch, views[ch].queued);
  }

  // ---------------------------------------------------------------------------------------
  // What transmission and start-up achieve
  // ---------------------------------------------------------------------------------------

  /**
   * Every frame doTransmission sends is the oldest queued ACK, the head DATA frame again, or
   * a new DATA frame that then waits at the end of the DATA queue; the ACK decoder is flushed
   * exactly when a frame is sent, and nothing is sent with more than 24 bytes waiting.
   */
  lemma TransmitsQueuedFrame(e: Endpoint, views: seq<ChannelView>, txCount: nat, now: bv32)
    requires EndpointInv(e)
    ensures var r := TransmitStep(e, views, txCount, now);
      (r.2.Some? ==>
         (txCount <= TX_BACKLOG && IsFlushed(r.0.rxAck) &&
          ((e.sched.ackCount > 0 && r.2.value == AckQueue(e.sched)[0] && r.1 == views) ||
           (e.sched.ackCount == 0 && e.sched.dataCount > 0 && r.2.value == DataQueue(e.sched)[0] &&
            DataQueue(r.0.sched) == DataQueue(e.sched) && r.1 == views) ||
           (e.sched.ackCount == 0 && DataQueue(r.0.sched) == DataQueue(e.sched) + [r.2.value])))) &&
      (r.2.None? ==> r.0.rxAck == e.rxAck && r.1 == views)
  {
    var s := e.sched;
    if txCount <= TX_BACKLOG {
      NextXferKeeps(s, now, views);
      if s.ackCount > 0 {
        NextXferSendsAckFirst(s, now, views);
      } else if s.dataCount > 0 && TimedOut(s, now) {
        NextXferRetransmits(s, now, views);
      } else if FirstReady(views, 0) >= 0 && s.dataCount < FIFO_DEPTH {
        var ch := FirstReady(views, 0);
        NextXferNewDataIs(s, now, views, ch);
        NewDataTransmitted(s, now, ch, views[ch].queued);
        NewDataAppends(s, now, ch, views[ch].queued);
      } else {
        NextXferIdle(s, now, views);
      }
    }
  }

  /**
   * Start-up: until a SYNC burst is accepted whole, every task call sends one and changes
   * nothing else; the call where it is accepted resets the endpoint, and no burst follows.
   */
  lemma StartupSyncsOnce(e: Endpoint, accepted: nat, later: nat)
    requires EndpointInv(e)
    ensures StartupStep(e, accepted).1 <==> !e.syncSent
    ensures !e.syncSent && accepted < SYNC_BURST ==> StartupStep(e, accepted).0 == e
    ensures !e.syncSent && accepted >= SYNC_BURST ==>
      var r := StartupStep(e, accepted).0;
      r.syncSent && DataQueue(r.sched) == [] && AckQueue(r.sched) == [] && r.sched.txSeqNr == 0 &&
      r.nextExp == 0 && IsFlushed(r.rxAck) && IsFlushed(r.rxData) && StartupStep(r, later) == (r, false)
  {
    ResetEmpties(e.sched);
  }
}
