/**
 * The Slay2TxScheduler object of slay2_scheduler.cpp. The encoding buffers embedded in the
 * object are arrays of buffer values (the pools); dataFifo and ackFifo are arrays of pool
 * indices standing for the C++ pointer arrays; the [timestamp, duration] rows are two arrays.
 * Every method is proved to perform the matching step of Scheduling on these fields, so the
 * lemmas there say what the methods do to the queued frames.
 */
module TxSchedulers {
  import opened Wire
  import opened Coding
  import opened DataCodec
  import opened DataBuffers
  import opened AckBuffers
  import opened Fifos
  import opened Channels
  import opened Scheduling

  // ---------------------------------------------------------------------------------------
  // The channel table getNextXfer looks at
  // ---------------------------------------------------------------------------------------

  /** The objects of a channel table: its channels, their FIFOs and FIFO arrays. */
  function ChannelObjects(channels: seq<Channel?>): set<object>
  {
    (set i | 0 <= i < |channels| && channels[i] != null :: channels[i] as object) +
    (set i | 0 <= i < |channels| && channels[i] != null :: channels[i].txFifo as object) +
    (set i | 0 <= i < |channels| && channels[i] != null :: channels[i].txFifo.buffer as object)
  }

  /** The transmit FIFOs of a channel table: what getNextXfer may pop from. */
  function TxFifos(channels: seq<Channel?>): set<object>
  {
    set i | 0 <= i < |channels| && channels[i] != null :: channels[i].txFifo as object
  }

  /** Every open channel is valid, and no two slots share a transmit FIFO. */
  ghost predicate ChannelTable(channels: seq<Channel?>)
    reads ChannelObjects(channels)
  {
    (forall i :: 0 <= i < |channels| && channels[i] != null ==> channels[i].Valid()) &&
    (forall i, j :: 0 <= i < j < |channels| && channels[i] != null && channels[j] != null ==>
       channels[i].txFifo != channels[j].txFifo && channels[i].txFifo.buffer != channels[j].txFifo.buffer)
  }

  /** What getNextXfer sees of the channel table. */
  ghost function Views(channels: seq<Channel?>): seq<ChannelView>
    reads ChannelObjects(channels)
  {
    seq(|channels|, i requires 0 <= i < |channels| reads ChannelObjects(channels) =>
      if channels[i] == null then Closed else Open(channels[i].txFifo.contents, channels[i].txMore))
  }

  /**
   * getNextXfer's channel loop: the lowest channel number whose transmit condition holds
   * (count >= SLAY2_FRAME_PAYLOAD, or count > 0 with txMore false), -1 when there is none.
   */
  method SelectChannel(channels: seq<Channel?>) returns (ch: int)
    requires ChannelTable(channels)
    ensures ch == FirstReady(Views(channels), 0)
    ensures ch >= 0 ==> ch < |channels| && channels[ch] != null
    ensures ChannelTable(channels) && Views(channels) == old(Views(channels))
  {
    ch := 0;
    while ch < |channels|
      invariant 0 <= ch <= |channels|
      invariant FirstReady(Views(channels), 0) == FirstReady(Views(channels), ch)
    {
      var channel := channels[ch];
      if channel != null {
        var count := channel.txFifo.Count();
        if count >= FRAME_PAYLOAD || (count > 0 && !channel.txMore) {
          return;
        }
      }
      ch := ch + 1;
    }
    ch := -1;
  }

  // ---------------------------------------------------------------------------------------
  // Building frames in an encoding buffer
  // ---------------------------------------------------------------------------------------

  /** Taking one more byte of q: the prefix grows by q[i], the rest loses its head. */
  lemma TakeOneMore(head: seq<bv8>, q: seq<bv8>, i: nat)
    requires i < |q|
    ensures head + q[..i + 1] == (head + q[..i]) + [q[i]]
    ensures q[i..] != [] && q[i..][0] == q[i] && q[i..][1..] == q[i + 1..]
  {
    assert q[..i + 1] == q[..i] + [q[i]];
  }

  /** One round of getNextXfer's payload loop: pop a byte from the FIFO and push it. */
  method MoveByte(data: DataEncoder, fifo: Fifo, ghost start: Coder, ghost pushed: seq<bv8>)
    requires data.Valid() && fifo.Valid() && fifo.contents != [] && DataEncoderShape(start)
    requires data.State() == DataPushAll(start, pushed).0
    requires data as object != fifo.buffer
    modifies data, fifo
    ensures data.Valid() && fifo.Valid() && fifo.contents == old(fifo.contents)[1..]
    ensures data.State() == DataPushAll(start, pushed + [old(fifo.contents)[0]]).0
  {
    var c := fifo.Pop();
    var ok := data.Push(c as bv8);
    DataPushAllSnoc(start, pushed, c as bv8);
  }

  /**
   * getNextXfer's payload loop: n bytes popped from the channel's transmit FIFO, each pushed
   * into the DATA encoding buffer after the bytes `head` already pushed since `start`.
   */
  method PushPayload(data: DataEncoder, fifo: Fifo, n: nat, ghost start: Coder, ghost head: seq<bv8>)
    requires data.Valid() && fifo.Valid() && n <= |fifo.contents| && DataEncoderShape(start)
    requires data.State() == DataPushAll(start, head).0
    requires data as object != fifo.buffer
    modifies data, fifo
    ensures data.Valid() && fifo.Valid() && fifo.contents == old(fifo.contents)[n..]
    ensures data.State() == DataPushAll(start, head + old(fifo.contents)[..n]).0
  {
    ghost var queued := fifo.contents;
    assert head + queued[..0] == head;
    var pay := 0;
    while pay < n
      modifies fifo, data
      invariant 0 <= pay <= n
      invariant data.Valid() && fifo.Valid()
      invariant fifo.contents == queued[pay..]
      invariant data.State() == DataPushAll(start, head + queued[..pay]).0
    {
      TakeOneMore(head, queued, pay);
      MoveByte(data, fifo, start, head + queued[..pay]);
      pay := pay + 1;
    }
  }

  /**
   * getNextXfer's frame set-up: flush, the sequence number, the channel number, n bytes popped
   * from the channel's transmit FIFO, the buffer's CRC-32 and END_OF_DATA, in a DATA encoding
   * buffer that starts from the pool buffer's bytes.
   */
  method BuildDataFrame(init: Coder, seqNr: bv8, ch: nat, fifo: Fifo, n: nat) returns (frame: Coder)
    requires |init.buffer| == TX_BUFFER && fifo.Valid() && n <= |fifo.contents|
    modifies fifo
    ensures fifo.Valid() && fifo.contents == old(fifo.contents)[n..]
    ensures frame == DataFrame(init, FrameBody(seqNr, ch, old(fifo.contents)[..n])).0
  {
    ghost var start := Flushed(init);
    var data := new DataEncoder(init.buffer);
    data.Flush();
    var ok := data.Push(seqNr);
    DataPushAllSnoc(start, [], seqNr);
    ok := data.Push((ch % 256) as bv8);
    DataPushAllSnoc(start, [seqNr], (ch % 256) as bv8);
    assert [] + [seqNr] == [seqNr] && [seqNr] + [(ch % 256) as bv8] == [seqNr, (ch % 256) as bv8];
    PushPayload(data, fifo, n, start, [seqNr, (ch % 256) as bv8]);
    DataPushBig32IsPushAll(data.State(), data.crc);
    ok := data.PushBig32(data.crc);
    ok := data.PushEnd();
    frame := data.State();
  }

  /**
   * getNextXfer's new frame from ready channel ch: at most SLAY2_FRAME_PAYLOAD bytes of its
   * transmit FIFO go into a DATA frame built on the pool buffer init; every other channel is
   * left as it was.
   */
  method TakeFrame(channels: seq<Channel?>, ch: nat, init: Coder, seqNr: bv8, k: nat)
    returns (frame: Coder, n: nat)
    requires ChannelTable(channels) && ch < |channels| && channels[ch] != null
    requires |init.buffer| == TX_BUFFER
    modifies channels[ch].txFifo
    ensures ChannelTable(channels)
    ensures n == Taken(old(channels[ch].txFifo.contents))
    ensures frame == DataFrame(init, FrameBody(seqNr, ch, old(channels[ch].txFifo.contents)[..n])).0
    ensures Views(channels) == AfterTake(old(Views(channels)), DataXfer(k, ch, n))
  {
    ghost var views := Views(channels);
    var channel := channels[ch];
    var count := channel.txFifo.Count();
    if count > FRAME_PAYLOAD {
      count := FRAME_PAYLOAD;
    }
    frame := BuildDataFrame(init, seqNr, ch, channel.txFifo, count);
    n := count;
    forall i | 0 <= i < |channels| && i != ch && channels[i] != null
      ensures channels[i].txFifo != channel.txFifo
    {
      if i < ch {
        assert channels[i].txFifo != channels[ch].txFifo;
      } else {
        assert channels[ch].txFifo != channels[i].txFifo;
      }
    }
    assert Views(channels) == AfterTake(views, DataXfer(k, ch, n));
  }

  /** scheduleAck's frame set-up: flush, the sequence number, the CRC-32 and END_OF_ACK. */
  method BuildAckFrame(init: Coder, seqNr: bv8) returns (frame: Coder)
    requires |init.buffer| == ACK_BUFFER
    ensures frame == AckFrame(init, seqNr).0
  {
    var ack := new AckEncoder(init.buffer);
    ack.Flush();
    var ok := ack.Push(seqNr);
    AckPushAllSnoc(Flushed(init), [], seqNr);
    assert [] + [seqNr] == [seqNr];
    AckPushBig32IsPushAll(ack.State(), ack.crc);
    ok := ack.PushBig32(ack.crc);
    ok := ack.PushEnd();
    frame := ack.State();
  }

  /** The scheduler as constructed: slot i names buffer i, every buffer flushed, no timeouts. */
  function InitialSched(): Sched
  {
    var data := Flushed(Coder(seq(TX_BUFFER, _ => 0), 0, 0, 0));
    var ack := Flushed(Coder(seq(ACK_BUFFER, _ => 0), 0, 0, 0));
    Sched([data, data, data], [0, 1, 2], [0, 0, 0], [0, 0, 0], 0, [ack, ack, ack], [0, 1, 2], 0, 0, 0)
  }

  /** A new scheduler keeps the invariant and has both queues empty. */
  lemma InitialSchedInv()
    ensures SchedInv(InitialSched())
    ensures DataQueue(InitialSched()) == [] && AckQueue(InitialSched()) == []
    ensures InitialSched().nackCount == 0 && InitialSched().txSeqNr == 0
  {
  }

  // ---------------------------------------------------------------------------------------
  // The scheduler object
  // ---------------------------------------------------------------------------------------

  /** No two of the six objects are the same. */
  predicate Apart(a: object, b: object, c: object, d: object, e: object, f: object)
  {
    a != b && a != c && a != d && a != e && a != f && b != c && b != d && b != e && b != f &&
    c != d && c != e && c != f && d != e && d != f && e != f
  }

  class TxScheduler {
    const dataBuffer: array<Coder>
    const ackBuffer: array<Coder>
    const dataFifo: array<nat>
    const ackFifo: array<nat>
    const stamp: array<bv32>
    const span: array<bv32>
    var dataFifoCount: nat
    var ackFifoCount: nat
    var nackCount: bv32
    var txSeqNr: bv8

    /** The fields, as the value the Scheduling steps work on. */
    function State(): Sched
      reads this, dataBuffer, ackBuffer, dataFifo, ackFifo, stamp, span
    {
      Sched(dataBuffer[..], dataFifo[..], stamp[..], span[..], dataFifoCount,
            ackBuffer[..], ackFifo[..], ackFifoCount, nackCount, txSeqNr)
    }

    /** The scheduler object and the arrays embedded in it. */
    function Repr(): set<object>
    {
      {this, dataBuffer, ackBuffer, dataFifo, ackFifo, stamp, span}
    }

    ghost predicate Valid()
      reads this, dataBuffer, ackBuffer, dataFifo, ackFifo, stamp, span
    {
      dataBuffer.Length == FIFO_DEPTH && ackBuffer.Length == FIFO_DEPTH &&
      dataFifo.Length == FIFO_DEPTH && ackFifo.Length == FIFO_DEPTH &&
      stamp.Length == FIFO_DEPTH && span.Length == FIFO_DEPTH &&
      Apart(dataBuffer, ackBuffer, dataFifo, ackFifo, stamp, span) && SchedInv(State())
    }

    /** Slay2TxScheduler::Slay2TxScheduler: slot i names buffer i in both queues; then reset. */
    constructor ()
      ensures Valid() && State() == InitialSched()
      ensures fresh(dataBuffer) && fresh(ackBuffer) && fresh(dataFifo) && fresh(ackFifo) && fresh(stamp) && fresh(span)
    {
      var data := Flushed(Coder(seq(TX_BUFFER, _ => 0), 0, 0, 0));
      var ack := Flushed(Coder(seq(ACK_BUFFER, _ => 0), 0, 0, 0));
      dataBuffer := new Coder[FIFO_DEPTH] [data, data, data];
      ackBuffer := new Coder[FIFO_DEPTH] [ack, ack, ack];
      dataFifo := new nat[FIFO_DEPTH] [0, 1, 2];
      ackFifo := new nat[FIFO_DEPTH] [0, 1, 2];
      stamp := new bv32[FIFO_DEPTH] [0, 0, 0];
      span := new bv32[FIFO_DEPTH] [0, 0, 0];
      dataFifoCount, ackFifoCount, nackCount, txSeqNr := 0, 0, 0, 0;
      new;
      assert dataBuffer[..] == [data, data, data] && ackBuffer[..] == [ack, ack, ack];
      assert dataFifo[..] == [0, 1, 2] && ackFifo[..] == [0, 1, 2];
      assert stamp[..] == [0, 0, 0] && span[..] == [0, 0, 0];
      assert State() == InitialSched();
      InitialSchedInv();
    }

    /** Slay2TxScheduler::reset. */
    method Reset()
      requires Valid()
      modifies this
      ensures Valid() && State() == ResetStep(old(State()))
    {
      dataFifoCount := 0;
      ackFifoCount := 0;
      nackCount := 0;
      txSeqNr := 0;
    }

    /** Slay2TxScheduler::getNackCount: the retransmissions since the last acknowledgement. */
    function NackCount(): (r: bv32)
      reads this, dataBuffer, ackBuffer, dataFifo, ackFifo, stamp, span
      ensures r == State().nackCount
    {
      nackCount
    }

    /** getBuffer() up to getCount() of the buffer a getNextXfer step returned. */
    function Sent(x: Xfer): (r: seq<bv8>)
      requires Valid() && (x.AckXfer? || x.RetransmitXfer? || x.DataXfer?) && x.slot < FIFO_DEPTH
      reads this, dataBuffer, ackBuffer, dataFifo, ackFifo, stamp, span
      ensures r == Transmitted(State(), x)
    {
      if x.AckXfer? then Written(ackBuffer[x.slot]) else Written(dataBuffer[x.slot])
    }

    /** Slay2TxScheduler::scheduleAck. */
    method ScheduleAck(seqNr: bv8) returns (ok: bool)
      requires Valid()
      modifies this, ackBuffer
      ensures Valid() && (State(), ok) == ScheduleAckStep(old(State()), seqNr)
    {
      ScheduleAckKeeps(State(), seqNr);
      if ackFifoCount < FIFO_DEPTH {
        var k := ackFifo[ackFifoCount];
        var frame := BuildAckFrame(ackBuffer[k], seqNr);
        ackBuffer[k] := frame;
        ackFifoCount := ackFifoCount + 1;
        ok := true;
      } else {
        ok := false;
      }
    }

    /**
     * acknowledgeXfer's "rotate/pop" loop: every DATA slot and its timeout row moves down by
     * one; the last ones stay where they were.
     */
    method ShiftData()
      requires Valid()
      modifies dataFifo, stamp, span
      ensures dataFifo[..] == old(dataFifo[..])[1..] + [old(dataFifo[FIFO_DEPTH - 1])]
      ensures stamp[..] == old(stamp[..])[1..] + [old(stamp[FIFO_DEPTH - 1])]
      ensures span[..] == old(span[..])[1..] + [old(span[FIFO_DEPTH - 1])]
    {
      var i := 0;
      while i < FIFO_DEPTH - 1
        invariant 0 <= i <= FIFO_DEPTH - 1
        invariant forall j :: 0 <= j < i ==> dataFifo[j] == old(dataFifo[j + 1])
        invariant forall j :: 0 <= j < i ==> stamp[j] == old(stamp[j + 1])
        invariant forall j :: 0 <= j < i ==> span[j] == old(span[j + 1])
        invariant forall j :: i <= j < FIFO_DEPTH ==> dataFifo[j] == old(dataFifo[j])
        invariant forall j :: i <= j < FIFO_DEPTH ==> stamp[j] == old(stamp[j])
        invariant forall j :: i <= j < FIFO_DEPTH ==> span[j] == old(span[j])
      {
        dataFifo[i] := dataFifo[i + 1];
        stamp[i] := stamp[i + 1];
        span[i] := span[i + 1];
        i := i + 1;
      }
    }

    /**
     * acknowledgeXfer's release of the head: flush its buffer, shift the other slots and their
     * timeouts down by one, and make the freed buffer the tail with timeout [0, 0].
     */
    method ReleaseHead()
      requires Valid() && dataFifoCount != 0
      modifies this, dataBuffer, dataFifo, stamp, span
      ensures var s := old(State()); var k := s.dataSlots[0];
        State() == s.(dataPool := s.dataPool[k := Flushed(s.dataPool[k])], dataSlots := PopRotate(s.dataSlots),
                      stamps := s.stamps[1..] + [0], spans := s.spans[1..] + [0],
                      dataCount := s.dataCount - 1, nackCount := 0)
    {
      ghost var s := State();
      var k := dataFifo[0];
      dataBuffer[k] := Flushed(dataBuffer[k]);
      assert dataBuffer[..] == s.dataPool[k := Flushed(s.dataPool[k])];
      ShiftData();
      dataFifo[FIFO_DEPTH - 1] := k;
      stamp[FIFO_DEPTH - 1] := 0;
      span[FIFO_DEPTH - 1] := 0;
      dataFifoCount := dataFifoCount - 1;
      nackCount := 0;
      assert dataFifo[..] == PopRotate(s.dataSlots);
      assert stamp[..] == s.stamps[1..] + [0];
      assert span[..] == s.spans[1..] + [0];
    }

    /** Slay2TxScheduler::acknowledgeXfer. */
    method AcknowledgeXfer(seqNr: bv8) returns (ok: bool)
      requires Valid()
      modifies this, dataBuffer, dataFifo, stamp, span
      ensures Valid() && (State(), ok) == AcknowledgeStep(old(State()), seqNr)
    {
      AcknowledgeReleasesHead(State(), seqNr);
      ok := false;
      if dataFifoCount != 0 {
        var k := dataFifo[0];
        var actSeqNr := DecodeDataAt(dataBuffer[k].buffer[1..], 0);
        if actSeqNr == seqNr {
          ReleaseHead();
          ok := true;
        }
      }
    }

    /**
     * getNextXfer's first branch, corrected: pop the oldest ACK and put its slot back at the
     * tail, as the DATA queue's pop does. The source only shifts the slots up.
     */
    method PopAck(ghost channels: seq<Channel?>) returns (x: Xfer)
      requires Valid() && ackFifoCount > 0 && Repr() !! ChannelObjects(channels)
      modifies this, ackFifo
      ensures Valid() && x == AckXfer(old(ackFifo[0]))
      ensures State() == old(State()).(ackSlots := PopRotate(old(ackFifo[..])), ackCount := old(ackFifoCount) - 1)
      ensures old(ChannelTable(channels)) ==> ChannelTable(channels)
      ensures Views(channels) == old(Views(channels))
    {
      PopRotateKeepsOrder(ackFifo[..]);
      var next := ackFifo[0];
      var i := 0;
      while i < FIFO_DEPTH - 1
        modifies ackFifo
        invariant 0 <= i <= FIFO_DEPTH - 1
        invariant forall j :: 0 <= j < i ==> ackFifo[j] == old(ackFifo[j + 1])
        invariant forall j :: i <= j < FIFO_DEPTH ==> ackFifo[j] == old(ackFifo[j])
      {
        ackFifo[i] := ackFifo[i + 1];
        i := i + 1;
      }
      ackFifo[FIFO_DEPTH - 1] := next;
      ackFifoCount := ackFifoCount - 1;
      x := AckXfer(next);
      assert ackFifo[..] == PopRotate(old(ackFifo[..]));
      assert dataBuffer[..] == old(dataBuffer[..]) && ackBuffer[..] == old(ackBuffer[..]);
      assert dataFifo[..] == old(dataFifo[..]) && stamp[..] == old(stamp[..]) && span[..] == old(span[..]);
    }

    /**
     * The end of getNextXfer's last branch: the frame goes into the buffer of slot i, slot i
     * gets the timeout [now, FrameTimeout(count)], txSeqNr moves on, and the slot is taken.
     */
    method CommitFrame(i: nat, k: nat, frame: Coder, now: bv32, count: nat, ghost channels: seq<Channel?>)
      requires Valid() && i == dataFifoCount < FIFO_DEPTH && k == dataFifo[i] && count <= FRAME_PAYLOAD
      requires Repr() !! ChannelObjects(channels)
      modifies this, dataBuffer, stamp, span
      ensures var s := old(State());
        State() == s.(dataPool := s.dataPool[k := frame], stamps := s.stamps[i := now],
                      spans := s.spans[i := FrameTimeout(count)], dataCount := i + 1,
                      txSeqNr := s.txSeqNr + 1)
      ensures old(ChannelTable(channels)) ==> ChannelTable(channels)
      ensures Views(channels) == old(Views(channels))
    {
      ghost var s := State();
      dataBuffer[k] := frame;
      stamp[i] := now;
      span[i] := FrameTimeout(count);
      txSeqNr := txSeqNr + 1;
      dataFifoCount := i + 1;
      assert dataBuffer[..] == s.dataPool[k := frame];
      assert stamp[..] == s.stamps[i := now];
      assert span[..] == s.spans[i := FrameTimeout(count)];
    }

    /**
     * getNextXfer's last branch: a new DATA frame from channel ch in the next free DATA buffer,
     * with timeout [now, FrameTimeout(count)]; the channel's FIFO loses the bytes taken.
     */
    method NewData(now: bv32, channels: seq<Channel?>, ch: nat) returns (x: Xfer)
      requires Valid() && ChannelTable(channels) && Repr() !! ChannelObjects(channels)
      requires dataFifoCount < FIFO_DEPTH && ch < |channels| && channels[ch] != null
      modifies this, dataBuffer, stamp, span, channels[ch].txFifo
      ensures Valid() && ChannelTable(channels)
      ensures (State(), x) == NewDataStep(old(State()), now, ch, old(channels[ch].txFifo.contents))
      ensures Views(channels) == AfterTake(old(Views(channels)), x)
    {
      ghost var s := State();
      ghost var q := channels[ch].txFifo.contents;
      NewDataKeeps(s, now, ch, q);
      var i := dataFifoCount;
      var k := dataFifo[i];
      assert channels[ch].txFifo in ChannelObjects(channels);
      var frame, count := TakeFrame(channels, ch, dataBuffer[k], txSeqNr, k);
      assert State() == s;
      NewDataStepIs(s, now, ch, q, frame, count);
      CommitFrame(i, k, frame, now, count, channels);
      x := DataXfer(k, ch, count);
    }

    /**
     * getNextXfer's second branch: the head DATA frame is sent again, its timeout restarts at
     * [now, SLAY2_TRANSMISSION_TIMEOUT] and the NACK count rises (wrapping at 2^32).
     */
    method Retransmit(now: bv32, ghost channels: seq<Channel?>) returns (x: Xfer)
      requires Valid() && dataFifoCount > 0 && Repr() !! ChannelObjects(channels)
      modifies this, stamp, span
      ensures Valid() && x == RetransmitXfer(old(dataFifo[0]))
      ensures var s := old(State());
        State() == s.(stamps := s.stamps[0 := now], spans := s.spans[0 := TRANSMISSION_TIMEOUT],
                      nackCount := s.nackCount + 1)
      ensures old(ChannelTable(channels)) ==> ChannelTable(channels)
      ensures Views(channels) == old(Views(channels))
    {
      ghost var s := State();
      stamp[0] := now;
      span[0] := TRANSMISSION_TIMEOUT;
      nackCount := nackCount + 1;
      x := RetransmitXfer(dataFifo[0]);
      assert stamp[..] == s.stamps[0 := now] && span[..] == s.spans[0 := TRANSMISSION_TIMEOUT];
    }

    /**
     * getNextXfer once no ACK is queued: the overdue head DATA frame, else a new DATA frame
     * from the first ready channel if a DATA buffer is free, else nothing.
     */
    method NextDataXfer(now: bv32, channels: seq<Channel?>) returns (x: Xfer)
      requires Valid() && ChannelTable(channels) && Repr() !! ChannelObjects(channels)
      requires ackFifoCount == 0
      modifies this, dataBuffer, stamp, span, TxFifos(channels)
      ensures Valid() && ChannelTable(channels)
      ensures (State(), x) == NextXferStep(old(State()), now, old(Views(channels)))
      ensures Views(channels) == AfterTake(old(Views(channels)), x)
    {
      ghost var s := State();
      ghost var views := Views(channels);
      NextXferKeeps(s, now, views);
      assert stamp[0] == s.stamps[0] && span[0] == s.spans[0];
      ghost var overdue := s.dataCount > 0 && TimedOut(s, now);
      assert overdue == (dataFifoCount > 0 && Overdue(now, stamp[0], span[0]));
      if dataFifoCount > 0 && Overdue(now, stamp[0], span[0]) {
        NextXferRetransmitIs(s, now, views);
        x := Retransmit(now, channels);
        assert AfterTake(views, x) == views;
        return;
      }
      var ch := SelectChannel(channels);
      if ch < 0 || dataFifoCount >= FIFO_DEPTH {
        NextXferIdle(s, now, views);
        x := NoXfer;
        assert AfterTake(views, x) == views;
        return;
      }
      NextXferNewDataIs(s, now, views, ch);
      assert views[ch].queued == channels[ch].txFifo.contents;
      x := NewData(now, channels, ch);
    }

    /**
     * Slay2TxScheduler::getNextXfer over the channel table of a Slay2 endpoint, with the ACK
     * pop corrected to rotate the popped slot back to the tail (PopAck); the pop as written
     * lets two ACK slots share one buffer (Scheduling.AckPopAsWrittenLosesAck).
     */
    method NextXfer(now: bv32, channels: seq<Channel?>) returns (x: Xfer)
      requires Valid() && ChannelTable(channels) && Repr() !! ChannelObjects(channels)
      modifies this, dataBuffer, ackFifo, stamp, span, TxFifos(channels)
      ensures Valid() && ChannelTable(channels)
      ensures (State(), x) == NextXferStep(old(State()), now, old(Views(channels)))
      ensures Views(channels) == AfterTake(old(Views(channels)), x)
    {
      if ackFifoCount > 0 {
        ghost var s := State();
        ghost var views := Views(channels);
        NextXferKeeps(s, now, views);
        NextXferAckIs(s, now, views);
        x := PopAck(channels);
        assert AfterTake(views, x) == views;
      } else {
        x := NextDataXfer(now, channels);
      }
    }
  }
}
