/**
 * Slay2TxScheduler of slay2_scheduler.cpp, as functions on its fields. The scheduler owns a
 * pool of three DATA and three ACK encoding buffers; two depth-3 queues (dataFifo, ackFifo)
 * hold pool indices, oldest first, and the DATA queue also keeps a [timestamp, duration]
 * timeout per entry. The class in tx_scheduler.dfy is proved to perform exactly these steps.
 *
 * What a queue holds is its frames: DataQueue and AckQueue list the wire bytes of the queued
 * buffers. The lemmas here say what each step does to those lists.
 */
module Scheduling {
  import opened Wire
  import opened Crc32
  import opened Coding
  import opened DataCodec
  import opened AckCodec
  import opened DataBuffers
  import opened AckBuffers

  /** SLAY2_SCHEDULER_FIFO_DEPTH: three frames of each kind in flight. */
  const FIFO_DEPTH: nat := 3

  /** SLAY2_TRANSMISSION_TIMEOUT in ms: the duration given to a retransmitted frame. */
  const TRANSMISSION_TIMEOUT: bv32 := 60

  /** The scheduler's fields: pools, queues of pool indices, timeouts and counters. */
  datatype Sched = Sched(dataPool: seq<Coder>, dataSlots: seq<nat>, stamps: seq<bv32>, spans: seq<bv32>,
                         dataCount: nat, ackPool: seq<Coder>, ackSlots: seq<nat>, ackCount: nat,
                         nackCount: bv32, txSeqNr: bv8)

  /** What getNextXfer hands out: nothing, the oldest ACK, the timed-out head, or a new frame. */
  datatype Xfer =
    | NoXfer
    | AckXfer(slot: nat)
    | RetransmitXfer(slot: nat)
    | DataXfer(slot: nat, channel: nat, taken: nat)

  /** What getNextXfer sees of a channel slot: empty, or the transmit FIFO and the txMore flag. */
  datatype ChannelView = Closed | Open(queued: seq<bv8>, more: bool)

  /** A queue of pool indices that is a permutation of the three pool buffers. */
  predicate IsSlotOrder(slots: seq<nat>)
  {
    |slots| == FIFO_DEPTH &&
    (forall i :: 0 <= i < |slots| ==> slots[i] < FIFO_DEPTH) &&
    (forall i, j :: 0 <= i < j < |slots| ==> slots[i] != slots[j])
  }

  /** Every pool buffer has its array size and keeps its encoder shape. */
  predicate PoolShape(s: Sched)
  {
    |s.dataPool| == FIFO_DEPTH && |s.ackPool| == FIFO_DEPTH &&
    (forall k :: 0 <= k < FIFO_DEPTH ==> |s.dataPool[k].buffer| == TX_BUFFER && DataEncoderShape(s.dataPool[k])) &&
    (forall k :: 0 <= k < FIFO_DEPTH ==> |s.ackPool[k].buffer| == ACK_BUFFER && AckEncoderShape(s.ackPool[k]))
  }

  /** The scheduler's invariant: both queues permute the pools, and no queue holds more than three. */
  predicate SchedInv(s: Sched)
  {
    PoolShape(s) && IsSlotOrder(s.dataSlots) && IsSlotOrder(s.ackSlots) &&
    |s.stamps| == FIFO_DEPTH && |s.spans| == FIFO_DEPTH &&
    s.dataCount <= FIFO_DEPTH && s.ackCount <= FIFO_DEPTH
  }

  /** The frames a queue holds, oldest first: the wire bytes of the buffers its first count slots name. */
  function Frames(pool: seq<Coder>, slots: seq<nat>, count: nat): seq<seq<bv8>>
    requires count <= |slots| && forall i :: 0 <= i < count ==> slots[i] < |pool| && Counted(pool[slots[i]])
  {
    seq(count, i requires 0 <= i < count => Written(pool[slots[i]]))
  }

  /** The DATA frames waiting for their ACK. */
  function DataQueue(s: Sched): seq<seq<bv8>>
    requires SchedInv(s)
  {
    Frames(s.dataPool, s.dataSlots, s.dataCount)
  }

  /** The ACK frames waiting for transmission. */
  function AckQueue(s: Sched): seq<seq<bv8>>
    requires SchedInv(s)
  {
    Frames(s.ackPool, s.ackSlots, s.ackCount)
  }

  /** Writing the buffer the next free slot names appends it, when no queued slot names it too. */
  lemma FramesAppend(pool: seq<Coder>, slots: seq<nat>, count: nat, e: Coder)
    requires count < |slots| && forall i :: 0 <= i <= count ==> slots[i] < |pool| && Counted(pool[slots[i]])
    requires forall i :: 0 <= i < count ==> slots[i] != slots[count]
    requires Counted(e)
    ensures Frames(pool[slots[count] := e], slots, count + 1) == Frames(pool, slots, count) + [Written(e)]
  {
    var p := pool[slots[count] := e];
    assert forall i :: 0 <= i < count ==> p[slots[i]] == pool[slots[i]];
  }

  /** The head entry's pool index moves to the tail: the DATA queue's "rotate/pop". */
  function PopRotate(slots: seq<nat>): (r: seq<nat>)
    requires |slots| == FIFO_DEPTH
  {
    slots[1..] + [slots[0]]
  }

  /** Popping by rotation keeps a queue a permutation of the pool, and moves every entry up. */
  lemma PopRotateKeepsOrder(slots: seq<nat>)
    requires IsSlotOrder(slots)
    ensures IsSlotOrder(PopRotate(slots))
    ensures forall i :: 0 <= i < FIFO_DEPTH - 1 ==> PopRotate(slots)[i] == slots[i + 1]
    ensures PopRotate(slots)[FIFO_DEPTH - 1] == slots[0]
  {
    var r := PopRotate(slots);
    assert r[0] == slots[1] && r[1] == slots[2] && r[2] == slots[0];
  }

  // ---------------------------------------------------------------------------------------
  // reset, scheduleAck, acknowledgeXfer
  // ---------------------------------------------------------------------------------------

  /** Slay2TxScheduler::reset: both queues empty, no NACKs, sequence numbers restart at 0. */
  function ResetStep(s: Sched): Sched
  {
    s.(dataCount := 0, ackCount := 0, nackCount := 0, txSeqNr := 0)
  }

  /** reset drops every queued frame and keeps the invariant; the next DATA frame is number 0. */
  lemma ResetEmpties(s: Sched)
    requires SchedInv(s)
    ensures SchedInv(ResetStep(s))
    ensures DataQueue(ResetStep(s)) == [] && AckQueue(ResetStep(s)) == []
    ensures ResetStep(s).nackCount == 0 && ResetStep(s).txSeqNr == 0
  {
  }

  /** Slay2TxScheduler::scheduleAck: with room, the next ACK buffer gets the frame for seqNr. */
  function ScheduleAckStep(s: Sched, seqNr: bv8): (r: (Sched, bool))
    requires SchedInv(s)
  {
    if s.ackCount < FIFO_DEPTH then
      var k := s.ackSlots[s.ackCount];
      (s.(ackPool := s.ackPool[k := AckFrame(s.ackPool[k], seqNr).0], ackCount := s.ackCount + 1), true)
    else
      (s, false)
  }

  /** scheduleAck keeps the invariant: only the pool buffer at the next free ACK slot changes. */
  lemma ScheduleAckKeeps(s: Sched, seqNr: bv8)
    requires SchedInv(s)
    ensures SchedInv(ScheduleAckStep(s, seqNr).0)
  {
  }

  /**
   * scheduleAck succeeds iff fewer than three ACKs are queued; it then appends the encoded ACK
   * frame for seqNr (sequence number, CRC-32, END_OF_ACK) and leaves the DATA side alone.
   */
  lemma ScheduleAckAppends(s: Sched, seqNr: bv8)
    requires SchedInv(s)
    ensures var r := ScheduleAckStep(s, seqNr);
      SchedInv(r.0) && (r.1 <==> s.ackCount < FIFO_DEPTH) &&
      (r.1 ==> AckQueue(r.0) == AckQueue(s) + [EncodedAckFrame([seqNr])]) &&
      (!r.1 ==> r.0 == s) &&
      DataQueue(r.0) == DataQueue(s) && r.0.nackCount == s.nackCount && r.0.txSeqNr == s.txSeqNr
  {
    ScheduleAckKeeps(s, seqNr);
    if s.ackCount < FIFO_DEPTH {
      var k := s.ackSlots[s.ackCount];
      AckFrameEncodes(s.ackPool[k], seqNr);
      FramesAppend(s.ackPool, s.ackSlots, s.ackCount, AckFrame(s.ackPool[k], seqNr).0);
    }
  }

  /** The sequence number decodeData reads from the head DATA buffer (getBuffer() is buffer[1..]). */
  function HeadSeqNr(s: Sched): bv8
    requires SchedInv(s)
  {
    DecodeDataAt(s.dataPool[s.dataSlots[0]].buffer[1..], 0)
  }

  /**
   * Slay2TxScheduler::acknowledgeXfer: the head DATA frame is released when its sequence
   * number matches; its buffer is flushed and rotated to the tail, the timeouts move up and
   * the tail's becomes [0, 0], and the NACK count restarts.
   */
  function AcknowledgeStep(s: Sched, seqNr: bv8): (r: (Sched, bool))
    requires SchedInv(s)
  {
    if s.dataCount != 0 && HeadSeqNr(s) == seqNr then
      var k := s.dataSlots[0];
      (s.(dataPool := s.dataPool[k := Flushed(s.dataPool[k])], dataSlots := PopRotate(s.dataSlots),
          stamps := s.stamps[1..] + [0], spans := s.spans[1..] + [0],
          dataCount := s.dataCount - 1, nackCount := 0), true)
    else
      (s, false)
  }

  /**
   * acknowledgeXfer succeeds iff a DATA frame is waiting and the head's sequence number is
   * seqNr: the head leaves the queue, the others keep their order and timeouts, the freed
   * buffer becomes the tail with timeout [0, 0]. Otherwise nothing changes.
   */
  lemma AcknowledgeReleasesHead(s: Sched, seqNr: bv8)
    requires SchedInv(s)
    ensures var r := AcknowledgeStep(s, seqNr);
      SchedInv(r.0) && (r.1 <==> s.dataCount > 0 && HeadSeqNr(s) == seqNr) &&
      (r.1 ==> DataQueue(r.0) == DataQueue(s)[1..] && r.0.nackCount == 0 &&
               r.0.dataSlots[FIFO_DEPTH - 1] == s.dataSlots[0] &&
               r.0.stamps == s.stamps[1..] + [0] && r.0.spans == s.spans[1..] + [0] &&
               AckQueue(r.0) == AckQueue(s) && r.0.txSeqNr == s.txSeqNr) &&
      (!r.1 ==> r.0 == s)
  {
    if s.dataCount != 0 && HeadSeqNr(s) == seqNr {
      var r := AcknowledgeStep(s, seqNr).0;
      var k := s.dataSlots[0];
      PopRotateKeepsOrder(s.dataSlots);
      assert forall i :: 0 <= i < s.dataCount - 1 ==> r.dataSlots[i] == s.dataSlots[i + 1] != k;
      assert DataQueue(r) == DataQueue(s)[1..];
    }
  }

  /** The first byte decodeData reads from an encoded DATA frame is the frame's first byte. */
  lemma DataFrameFirstByte(body: seq<bv8>)
    requires |body| >= 1
    ensures DataOffset(0) + 1 < |EncodedDataFrame(body)|
    ensures DecodeDataAt(EncodedDataFrame(body), 0) == body[0]
  {
    var x := body + Big32(CrcFold(CRC_INIT, body));
    DecodeEncodedData(x, 0);
    var w := EncodedDataFrame(body);
    assert w[0] == EncodeData(x)[0] && w[1] == EncodeData(x)[1];
    DecodeDataAtSameBytes(w, EncodeData(x), 0);
  }

  /**
   * When the head buffer holds the encoded DATA frame for body, decodeData reads body's first
   * byte, so acknowledgeXfer(seqNr) releases it iff that sequence number is seqNr.
   */
  lemma AcknowledgeMatchesFrame(s: Sched, body: seq<bv8>, seqNr: bv8)
    requires SchedInv(s) && s.dataCount > 0 && |body| >= 1
    requires DataQueue(s)[0] == EncodedDataFrame(body)
    ensures HeadSeqNr(s) == body[0]
    ensures AcknowledgeStep(s, seqNr).1 <==> body[0] == seqNr
  {
    var head := s.dataPool[s.dataSlots[0]];
    var w := EncodedDataFrame(body);
    DataFrameFirstByte(body);
    assert Written(head) == w;
    assert head.buffer[1..][0] == w[0] && head.buffer[1..][1] == w[1];
    DecodeDataAtSameBytes(head.buffer[1..], w, 0);
  }

  // ---------------------------------------------------------------------------------------
  // getNextXfer
  // ---------------------------------------------------------------------------------------

  /** A channel's transmit condition: a full frame's worth, or something with no more to follow. */
  predicate Ready(v: ChannelView)
  {
    v.Open? && (|v.queued| >= FRAME_PAYLOAD || (|v.queued| > 0 && !v.more))
  }

  /** The lowest channel number at or after from whose transmit condition holds; -1 if none. */
  function FirstReady(views: seq<ChannelView>, from: nat): (r: int)
    ensures r == -1 || from <= r < |views|
    ensures r == -1 <==> forall j :: from <= j < |views| ==> !Ready(views[j])
    ensures r >= 0 ==> Ready(views[r]) && forall j :: from <= j < r ==> !Ready(views[j])
    decreases |views| - from
  {
    if from >= |views| then -1
    else if Ready(views[from]) then from
    else FirstReady(views, from + 1)
  }

  /** (now - timestamp) > duration, in the 32-bit unsigned arithmetic of getNextXfer. */
  predicate Overdue(now: bv32, stamp: bv32, span: bv32)
  {
    now - stamp > span
  }

  /** Whether the head DATA frame is overdue. */
  predicate TimedOut(s: Sched, now: bv32)
    requires SchedInv(s)
  {
    Overdue(now, s.stamps[0], s.spans[0])
  }

  /** The timeout getNextXfer gives a new frame of n payload bytes: 3 + n/10 + 30 + 1 + 2 ms. */
  function FrameTimeout(n: nat): bv32
    requires n <= FRAME_PAYLOAD
  {
    (3 + n / 10 + 30 + 1 + 2) as bv32
  }

  /** The bytes of a new DATA frame: sequence number, channel number (as a byte), payload. */
  function FrameBody(seqNr: bv8, ch: nat, payload: seq<bv8>): seq<bv8>
  {
    [seqNr, (ch % 256) as bv8] + payload
  }

  /** How many of the queued bytes one frame takes: all of them, at most SLAY2_FRAME_PAYLOAD. */
  function Taken(queued: seq<bv8>): (n: nat)
    ensures n <= |queued| && n <= FRAME_PAYLOAD
    ensures n == |queued| || n == FRAME_PAYLOAD
  {
    if |queued| > FRAME_PAYLOAD then FRAME_PAYLOAD else |queued|
  }

  /** A new DATA frame from channel ch, built in the next free DATA buffer. */
  function NewDataStep(s: Sched, now: bv32, ch: nat, queued: seq<bv8>): (r: (Sched, Xfer))
    requires SchedInv(s) && s.dataCount < FIFO_DEPTH
  {
    var n := Taken(queued);
    var k := s.dataSlots[s.dataCount];
    var frame := DataFrame(s.dataPool[k], FrameBody(s.txSeqNr, ch, queued[..n])).0;
    (s.(dataPool := s.dataPool[k := frame], stamps := s.stamps[s.dataCount := now],
        spans := s.spans[s.dataCount := FrameTimeout(n)], dataCount := s.dataCount + 1,
        txSeqNr := s.txSeqNr + 1),
     DataXfer(k, ch, n))
  }

  /** NewDataStep, for a frame and a byte count already worked out. */
  lemma NewDataStepIs(s: Sched, now: bv32, ch: nat, queued: seq<bv8>, frame: Coder, n: nat)
    requires SchedInv(s) && s.dataCount < FIFO_DEPTH && n == Taken(queued)
    requires frame == DataFrame(s.dataPool[s.dataSlots[s.dataCount]], FrameBody(s.txSeqNr, ch, queued[..n])).0
    ensures var k := s.dataSlots[s.dataCount];
      NewDataStep(s, now, ch, queued) ==
        (s.(dataPool := s.dataPool[k := frame], stamps := s.stamps[s.dataCount := now],
            spans := s.spans[s.dataCount := FrameTimeout(n)], dataCount := s.dataCount + 1,
            txSeqNr := s.txSeqNr + 1), DataXfer(k, ch, n))
  {
  }

  /**
   * Slay2TxScheduler::getNextXfer with the ACK pop corrected, by priority: the oldest ACK
   * (popped by rotation; AckPopAsWritten is the pop as written, which loses ACKs), else the head DATA frame once it has timed out
   * (its timeout restarts at [now, 60] and the NACK count rises), else a new DATA frame from
   * the first ready channel if a DATA buffer is free, else nothing.
   */
  function NextXferStep(s: Sched, now: bv32, views: seq<ChannelView>): (r: (Sched, Xfer))
    requires SchedInv(s)
  {
    if s.ackCount > 0 then
      (s.(ackSlots := PopRotate(s.ackSlots), ackCount := s.ackCount - 1), AckXfer(s.ackSlots[0]))
    else if s.dataCount > 0 && TimedOut(s, now) then
      (s.(stamps := s.stamps[0 := now], spans := s.spans[0 := TRANSMISSION_TIMEOUT],
          nackCount := s.nackCount + 1),
       RetransmitXfer(s.dataSlots[0]))
    else
      var ch := FirstReady(views, 0);
      if ch < 0 || s.dataCount >= FIFO_DEPTH then (s, NoXfer)
      else NewDataStep(s, now, ch, views[ch].queued)
  }

  /** The wire bytes of the buffer getNextXfer returned, read in the state after the step. */
  function Transmitted(r: Sched, x: Xfer): seq<bv8>
    requires SchedInv(r) && (x.AckXfer? || x.RetransmitXfer? || x.DataXfer?) && x.slot < FIFO_DEPTH
  {
    if x.AckXfer? then Written(r.ackPool[x.slot]) else Written(r.dataPool[x.slot])
  }

  /** Every getNextXfer step keeps the invariant, and a returned buffer is a pool buffer. */
  lemma NextXferKeeps(s: Sched, now: bv32, views: seq<ChannelView>)
    requires SchedInv(s)
    ensures var r := NextXferStep(s, now, views);
      SchedInv(r.0) && (!r.1.NoXfer? ==> r.1.slot < FIFO_DEPTH)
  {
    if s.ackCount > 0 {
      PopRotateKeepsOrder(s.ackSlots);
    } else if !(s.dataCount > 0 && TimedOut(s, now)) {
      var ch := FirstReady(views, 0);
      if ch >= 0 && s.dataCount < FIFO_DEPTH {
        NewDataKeeps(s, now, ch, views[ch].queued);
      }
    }
  }

  /**
   * ACKs come first: with an ACK queued, getNextXfer returns the oldest one, removes it from
   * the ACK queue and changes nothing on the DATA side.
   */
  lemma NextXferSendsAckFirst(s: Sched, now: bv32, views: seq<ChannelView>)
    requires SchedInv(s) && s.ackCount > 0
    ensures var r := NextXferStep(s, now, views);
      r.1.AckXfer? && SchedInv(r.0) && r.1.slot < FIFO_DEPTH &&
      Transmitted(r.0, r.1) == AckQueue(s)[0] && AckQueue(r.0) == AckQueue(s)[1..] &&
      DataQueue(r.0) == DataQueue(s) && r.0.stamps == s.stamps && r.0.spans == s.spans &&
      r.0.nackCount == s.nackCount && r.0.txSeqNr == s.txSeqNr
  {
    var r := NextXferStep(s, now, views).0;
    PopRotateKeepsOrder(s.ackSlots);
    assert AckQueue(r) == AckQueue(s)[1..];
  }

  /**
   * Then retransmission: with no ACK queued and the head DATA frame overdue, getNextXfer
   * returns that same frame again, restarts its timeout at [now, 60] and counts a NACK; the
   * queues are unchanged.
   */
  lemma NextXferRetransmits(s: Sched, now: bv32, views: seq<ChannelView>)
    requires SchedInv(s) && s.ackCount == 0 && s.dataCount > 0 && TimedOut(s, now)
    ensures var r := NextXferStep(s, now, views);
      r.1 == RetransmitXfer(s.dataSlots[0]) && SchedInv(r.0) &&
      Transmitted(r.0, r.1) == DataQueue(s)[0] && DataQueue(r.0) == DataQueue(s) &&
      r.0.stamps == s.stamps[0 := now] && r.0.spans == s.spans[0 := TRANSMISSION_TIMEOUT] &&
      r.0.nackCount == s.nackCount + 1 && r.0.txSeqNr == s.txSeqNr
  {
  }

  /** A new frame keeps the invariant: only the next free DATA buffer and its timeout change. */
  lemma NewDataKeeps(s: Sched, now: bv32, ch: nat, q: seq<bv8>)
    requires SchedInv(s) && s.dataCount < FIFO_DEPTH
    ensures SchedInv(NewDataStep(s, now, ch, q).0)
  {
  }

  /** A new frame is appended to the DATA queue as the encoding of its body, and nothing else moves. */
  lemma NewDataAppends(s: Sched, now: bv32, ch: nat, q: seq<bv8>)
    requires SchedInv(s) && s.dataCount < FIFO_DEPTH
    ensures SchedInv(NewDataStep(s, now, ch, q).0)
    ensures DataQueue(NewDataStep(s, now, ch, q).0)
         == DataQueue(s) + [EncodedDataFrame(FrameBody(s.txSeqNr, ch, q[..Taken(q)]))]
  {
    NewDataKeeps(s, now, ch, q);
    var k := s.dataSlots[s.dataCount];
    var body := FrameBody(s.txSeqNr, ch, q[..Taken(q)]);
    DataFrameEncodes(s.dataPool[k], body);
    FramesAppend(s.dataPool, s.dataSlots, s.dataCount, DataFrame(s.dataPool[k], body).0);
  }

  /**
   * Then new data: the first ready channel ch, if a DATA buffer is free, gives a frame that
   * is appended to the DATA queue. It holds the encoded [txSeqNr, ch, n queued bytes] with n
   * the whole queue up to 256, its timeout is [now, 3 + n/10 + 30 + 1 + 2], and the sequence
   * number advances modulo 256.
   */
  lemma NextXferBuildsFrame(s: Sched, now: bv32, views: seq<ChannelView>)
    requires SchedInv(s) && s.ackCount == 0 && !(s.dataCount > 0 && TimedOut(s, now))
    requires FirstReady(views, 0) >= 0 && s.dataCount < FIFO_DEPTH
    ensures var ch := FirstReady(views, 0); var q := views[ch].queued; var n := Taken(q);
      var r := NextXferStep(s, now, views);
      r.1 == DataXfer(s.dataSlots[s.dataCount], ch, n) && n > 0 && SchedInv(r.0) &&
      DataQueue(r.0) == DataQueue(s) + [EncodedDataFrame(FrameBody(s.txSeqNr, ch, q[..n]))] &&
      r.0.stamps == s.stamps[s.dataCount := now] && r.0.spans == s.spans[s.dataCount := FrameTimeout(n)] &&
      r.0.txSeqNr == s.txSeqNr + 1 && r.0.ackCount == 0 && r.0.nackCount == s.nackCount
  {
    var ch := FirstReady(views, 0);
    NewDataAppends(s, now, ch, views[ch].queued);
  }

  /** The frame a new-data step returns is the one it appended to the DATA queue. */
  lemma NewDataTransmitted(s: Sched, now: bv32, ch: nat, q: seq<bv8>)
    requires SchedInv(s) && s.dataCount < FIFO_DEPTH
    ensures var r := NewDataStep(s, now, ch, q);
      SchedInv(r.0) && r.1.DataXfer? && r.1.slot < FIFO_DEPTH &&
      Transmitted(r.0, r.1) == EncodedDataFrame(FrameBody(s.txSeqNr, ch, q[..Taken(q)]))
  {
    var r := NewDataStep(s, now, ch, q);
    NewDataAppends(s, now, ch, q);
    assert Transmitted(r.0, r.1) == DataQueue(r.0)[s.dataCount];
  }

  /**
   * Otherwise nothing: no ACK, no overdue frame, and either no ready channel or all three
   * DATA buffers waiting for their ACK; getNextXfer returns NULL and changes nothing.
   */
  lemma NextXferIdle(s: Sched, now: bv32, views: seq<ChannelView>)
    requires SchedInv(s) && s.ackCount == 0 && !(s.dataCount > 0 && TimedOut(s, now))
    requires FirstReady(views, 0) < 0 || s.dataCount == FIFO_DEPTH
    ensures NextXferStep(s, now, views) == (s, NoXfer)
  {
  }

  /** getNextXfer's branches, each spelled out under the conditions that select it. */
  lemma NextXferAckIs(s: Sched, now: bv32, views: seq<ChannelView>)
    requires SchedInv(s) && s.ackCount > 0
    ensures NextXferStep(s, now, views) ==
      (s.(ackSlots := PopRotate(s.ackSlots), ackCount := s.ackCount - 1), AckXfer(s.ackSlots[0]))
  {
  }

  lemma NextXferRetransmitIs(s: Sched, now: bv32, views: seq<ChannelView>)
    requires SchedInv(s) && s.ackCount == 0 && s.dataCount > 0 && TimedOut(s, now)
    ensures NextXferStep(s, now, views) ==
      (s.(stamps := s.stamps[0 := now], spans := s.spans[0 := TRANSMISSION_TIMEOUT],
          nackCount := s.nackCount + 1), RetransmitXfer(s.dataSlots[0]))
  {
  }

  lemma NextXferNewDataIs(s: Sched, now: bv32, views: seq<ChannelView>, ch: nat)
    requires SchedInv(s) && s.ackCount == 0 && !(s.dataCount > 0 && TimedOut(s, now))
    requires ch == FirstReady(views, 0) && s.dataCount < FIFO_DEPTH
    ensures NextXferStep(s, now, views) == NewDataStep(s, now, ch, views[ch].queued)
  {
  }

  /** The channel views after getNextXfer: the channel a new frame came from lost those bytes. */
  function AfterTake(views: seq<ChannelView>, x: Xfer): seq<ChannelView>
  {
    if x.DataXfer? && x.channel < |views| && views[x.channel].Open? && x.taken <= |views[x.channel].queued| then
      views[x.channel := Open(views[x.channel].queued[x.taken..], views[x.channel].more)]
    else views
  }

  // ---------------------------------------------------------------------------------------
  // The ACK pop as written (slay2_scheduler.cpp:72-76)
  // ---------------------------------------------------------------------------------------

  /**
   * getNextXfer's ACK "shuffle/pop" as written: every slot moves up one, but the popped
   * buffer is not put back at the tail, so the last two slots name the same buffer.
   */
  function AckPopAsWritten(slots: seq<nat>): seq<nat>
    requires |slots| == FIFO_DEPTH
  {
    slots[1..] + [slots[FIFO_DEPTH - 1]]
  }

  /** scheduleAck on the pop as written: the same step as ScheduleAckStep. */
  function ScheduleAckAsWritten(s: Sched, seqNr: bv8): (r: Sched)
    requires PoolShape(s) && |s.ackSlots| == FIFO_DEPTH && forall i :: 0 <= i < FIFO_DEPTH ==> s.ackSlots[i] < FIFO_DEPTH
    ensures PoolShape(r) && r.ackSlots == s.ackSlots
  {
    if s.ackCount < FIFO_DEPTH then
      var k := s.ackSlots[s.ackCount];
      s.(ackPool := s.ackPool[k := AckFrame(s.ackPool[k], seqNr).0], ackCount := s.ackCount + 1)
    else s
  }

  /** After one pop as written, the queue no longer permutes the pool: two slots alias one buffer. */
  lemma AckPopAsWrittenAliases(slots: seq<nat>)
    requires IsSlotOrder(slots)
    ensures !IsSlotOrder(AckPopAsWritten(slots))
    ensures AckPopAsWritten(slots)[1] == AckPopAsWritten(slots)[2]
  {
    assert AckPopAsWritten(slots)[1] == slots[2] == AckPopAsWritten(slots)[2];
  }

  /**
   * The lost ACK: after the only queued ACK is popped as written, three ACKs c1, c2, c3 for
   * distinct sequence numbers are scheduled with no transmission in between. The second and
   * the third go to the same buffer, so the queue reads [c1, c3, c3]: the ACK for c2 is lost
   * and the one for c3 would be sent twice.
   */
  lemma AckPopAsWrittenLosesAck(s: Sched, c1: bv8, c2: bv8, c3: bv8)
    requires SchedInv(s) && s.ackCount == 1 && c2 != c3
    ensures var p := s.(ackSlots := AckPopAsWritten(s.ackSlots), ackCount := 0);
      var q := ScheduleAckAsWritten(ScheduleAckAsWritten(ScheduleAckAsWritten(p, c1), c2), c3);
      q.ackCount == 3 &&
      Written(q.ackPool[q.ackSlots[1]]) == EncodedAckFrame([c3]) &&
      Written(q.ackPool[q.ackSlots[2]]) == EncodedAckFrame([c3]) &&
      Written(q.ackPool[q.ackSlots[1]]) != EncodedAckFrame([c2])
  {
    var p := s.(ackSlots := AckPopAsWritten(s.ackSlots), ackCount := 0);
    var q1 := ScheduleAckAsWritten(p, c1);
    var q2 := ScheduleAckAsWritten(q1, c2);
    var q3 := ScheduleAckAsWritten(q2, c3);
    var a := AckPopAsWritten(s.ackSlots);
    AckPopAsWrittenAliases(s.ackSlots);
    assert q3.ackSlots == a && a[1] == a[2];
    AckFrameEncodes(q2.ackPool[a[2]], c3);
    assert q3.ackPool[a[2]] == AckFrame(q2.ackPool[a[2]], c3).0;
    AckFramesDiffer([c2], [c3]);
  }

  /** The first byte decodeAck reads from an encoded ACK frame is the frame's first byte. */
  lemma AckFrameFirstByte(body: seq<bv8>)
    requires |body| >= 1
    ensures AckOffset(0) + 1 < |EncodedAckFrame(body)|
    ensures DecodeAckAt(EncodedAckFrame(body), 0) == body[0]
  {
    var x := body + Big32(CrcFold(CRC_INIT, body));
    DecodeEncodedAck(x, 0);
    var w := EncodedAckFrame(body);
    assert w[0] == EncodeAck(x)[0] && w[1] == EncodeAck(x)[1];
    DecodeAckAtSameBytes(w, EncodeAck(x), 0);
  }

  /** ACK frames for different sequence numbers differ: their first wire bytes decode apart. */
  lemma AckFramesDiffer(b2: seq<bv8>, b3: seq<bv8>)
    requires |b2| >= 1 && |b3| >= 1 && b2[0] != b3[0]
    ensures EncodedAckFrame(b2) != EncodedAckFrame(b3)
  {
    AckFrameFirstByte(b2);
    AckFrameFirstByte(b3);
  }

  /**
   * The rotating pop the DATA queue already uses keeps the ACK queue a permutation, so a
   * scheduleAck after any number of pops appends its frame without touching the others
   * (ScheduleAckAppends). This is the pop NextXferStep uses.
   */
  lemma AckPopCorrectedKeepsQueue(s: Sched, now: bv32, views: seq<ChannelView>, c1: bv8, c2: bv8)
    requires SchedInv(s) && s.ackCount == 1
    ensures var p := NextXferStep(s, now, views).0;
      var q := ScheduleAckStep(ScheduleAckStep(p, c1).0, c2).0;
      SchedInv(q) && AckQueue(q) == [EncodedAckFrame([c1]), EncodedAckFrame([c2])]
  {
    var p := NextXferStep(s, now, views).0;
    NextXferSendsAckFirst(s, now, views);
    ScheduleAckAppends(p, c1);
    ScheduleAckAppends(ScheduleAckStep(p, c1).0, c2);
  }
}
