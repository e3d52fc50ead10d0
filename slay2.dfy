/**
 * The class Slay2 of slay2.cpp: the channel table, the transmit scheduler, the two receive
 * decoding buffers and the three counters, updated in place. Every method is proved to take
 * the matching step of Engine on State(), so the lemmas there say what the methods achieve.
 *
 * The bytes receive() returns are the parameter rx of DoReception; what transmit() is handed
 * is returned; getTxCount() and getTime1ms() are parameters; a receiver call is returned as a
 * Delivery instead of being made.
 */
module Endpoints {
  import opened Wire
  import opened Coding
  import opened DataBuffers
  import opened AckBuffers
  import opened Channels
  import opened Scheduling
  import opened TxSchedulers
  import opened Engine

  /** The channels of a channel table. */
  function Slots(channels: seq<Channel?>): set<object>
  {
    set i | 0 <= i < |channels| && channels[i] != null :: channels[i] as object
  }

  /** What the receive loop sees of a channel table: each slot's receiver callback. */
  ghost function ReceiverTable(channels: seq<Channel?>): (r: seq<Receiver>)
    reads Slots(channels)
    ensures |r| == |channels|
  {
    seq(|channels|, i requires 0 <= i < |channels| reads Slots(channels) =>
      if channels[i] == null then NoChannel else Attached(channels[i].receiver, channels[i].receiverObj))
  }

  /** A fresh channel in an empty slot keeps the table valid and adds only its own objects. */
  lemma TableWithNew(t: seq<Channel?>, id: nat, ch: Channel, parts: set<object>)
    requires ChannelTable(t) && id < |t| && t[id] == null && ch.Valid()
    requires ch.txFifo !in ChannelObjects(t) && ch.txFifo.buffer !in ChannelObjects(t)
    requires ChannelObjects(t) !! parts && ch !in parts && ch.txFifo !in parts && ch.txFifo.buffer !in parts
    ensures ChannelTable(t[id := ch])
    ensures ChannelObjects(t[id := ch]) <= ChannelObjects(t) + {ch, ch.txFifo, ch.txFifo.buffer}
    ensures ChannelObjects(t[id := ch]) !! parts
  {
    var u := t[id := ch];
    assert forall i :: 0 <= i < |u| && u[i] != null && i != id ==> u[i] == t[i];
    forall i, j | 0 <= i < j < |u| && u[i] != null && u[j] != null
      ensures u[i].txFifo != u[j].txFifo && u[i].txFifo.buffer != u[j].txFifo.buffer
    {
      if i == id {
        assert u[j] == t[j] && t[j].txFifo in ChannelObjects(t) && t[j].txFifo.buffer in ChannelObjects(t);
      } else if j == id {
        assert u[i] == t[i] && t[i].txFifo in ChannelObjects(t) && t[i].txFifo.buffer in ChannelObjects(t);
      }
    }
    assert ch == u[id];
  }

  /** Emptying a slot keeps the table valid and its objects among the old ones. */
  lemma TableWithout(t: seq<Channel?>, id: nat, parts: set<object>)
    requires ChannelTable(t) && id < |t| && ChannelObjects(t) !! parts
    ensures ChannelTable(t[id := null]) && ChannelObjects(t[id := null]) <= ChannelObjects(t)
    ensures ChannelObjects(t[id := null]) !! parts
  {
    var u := t[id := null];
    assert forall i :: 0 <= i < |u| && u[i] != null ==> u[i] == t[i];
  }

  class Slay2 {
    const channels: array<Channel?>
    const txScheduler: TxScheduler
    var rxAckDecoder: Coder
    var rxDataDecoder: Coder
    var syncSent: bool
    var syncCount: nat
    var nextExpRxSeqNr: bv8

    /** The objects reception and transmission change, apart from the channels' FIFOs. */
    function Parts(): set<object>
    {
      {this} + txScheduler.Repr()
    }

    /** The endpoint's state apart from its channels. */
    function State(): Endpoint
      reads this, txScheduler.Repr()
    {
      Endpoint(txScheduler.State(), rxAckDecoder, rxDataDecoder,
               syncSent, syncCount, nextExpRxSeqNr)
    }

    /** The receiver callbacks of the channel table. */
    ghost function Receivers(): seq<Receiver>
      reads channels, Slots(channels[..])
    {
      ReceiverTable(channels[..])
    }

    /** What getNextXfer sees of the channel table. */
    ghost function Channels(): seq<ChannelView>
      reads channels, ChannelObjects(channels[..])
    {
      Views(channels[..])
    }

    /**
     * Valid components, no object shared between the scheduler, the decoders and the
     * endpoint, and a SYNC run shorter than three.
     */
    ghost predicate Core()
      reads this, txScheduler.Repr()
    {
      txScheduler.Valid() && |rxAckDecoder.buffer| == ACK_BUFFER && AckDecoderShape(rxAckDecoder) &&
      |rxDataDecoder.buffer| == RX_BUFFER && DataDecoderShape(rxDataDecoder) && syncCount < SYNC_RESET
    }

    /** Eight channel slots, apart from the core objects and from each other's FIFOs. */
    ghost predicate Table()
      reads channels, ChannelObjects(channels[..])
    {
      channels.Length == NUM_CHANNELS && ChannelTable(channels[..])
    }

    /** The channel table and the channels' objects are none of the core objects. */
    ghost predicate Separate()
      reads channels
    {
      channels !in Parts() && ChannelObjects(channels[..]) !! Parts()
    }

    ghost predicate Valid()
      reads this, channels, ChannelObjects(channels[..]), txScheduler.Repr()
    {
      Core() && Table() && Separate()
    }

    lemma StateInv()
      requires Core()
      ensures EndpointInv(State())
    {
    }

    /** The channel table reads nothing but the table and its channels' objects. */
    twostate lemma TableKept()
      requires old(Table() && Separate()) && unchanged(channels) && unchanged(ChannelObjects(channels[..]))
      ensures Table() && Separate() && Receivers() == old(Receivers()) && Channels() == old(Channels())
    {
    }

    /** The receiver table reads nothing but the table and its channels. */
    twostate lemma ReceiversKept()
      requires unchanged(channels) && unchanged(ChannelObjects(channels[..]))
      ensures Receivers() == old(Receivers())
    {
    }

    /** The core reads nothing outside its own objects. */
    twostate lemma CoreKept()
      requires old(Core()) && unchanged(Parts())
      ensures Core() && State() == old(State())
    {
    }

    /** The decoders and counters are the endpoint's own fields: a valid scheduler keeps Core(). */
    twostate lemma CoreAfterScheduler()
      requires old(Core()) && unchanged(this) && txScheduler.Valid()
      ensures Core()
    {
    }

    /** Slay2::Slay2: every channel slot empty, no SYNC sent or seen, sequence number 0 expected. */
    constructor ()
      ensures Valid() && fresh(channels) && fresh(Parts())
      ensures channels[..] == seq(NUM_CHANNELS, _ => null)
      ensures State() == Endpoint(InitialSched(), State().rxAck, State().rxData, false, 0, 0)
      ensures IsFlushed(State().rxAck) && IsFlushed(State().rxData)
    {
      channels := new Channel?[NUM_CHANNELS](_ => null);
      txScheduler := new TxScheduler();
      rxAckDecoder := Flushed(Coder(seq(ACK_BUFFER, _ => 0), 0, 0, 0));
      rxDataDecoder := Flushed(Coder(seq(RX_BUFFER, _ => 0), 0, 0, 0));
      syncSent, syncCount, nextExpRxSeqNr := false, 0, 0;
      new;
      assert channels[..] == seq(NUM_CHANNELS, _ => null);
      assert ChannelObjects(channels[..]) == {};
    }

    // -------------------------------------------------------------------------------------
    // open and close
    // -------------------------------------------------------------------------------------

    /**
     * Slay2::open: a fresh channel goes into slot id when id is below eight and the slot is
     * empty; otherwise nothing changes and null is returned.
     */
    method Open(id: nat) returns (ch: Channel?)
      requires Valid()
      modifies channels
      ensures Valid() && State() == old(State())
      ensures id < NUM_CHANNELS && old(channels[id]) == null ==>
        ch != null && fresh(ch) && fresh(ch.txFifo) && channels[..] == old(channels[..])[id := ch] &&
        ch.id == id && ch.txFifo.contents == [] && !ch.txMore && ch.receiver == 0 && ch.receiverObj == 0
      ensures !(id < NUM_CHANNELS && old(channels[id]) == null) ==> ch == null && channels[..] == old(channels[..])
    {
      ch := null;
      if id < NUM_CHANNELS && channels[id] == null {
        ch := new Channel(id);
        CoreKept();
        TableKept();
        Attach(id, ch);
      }
    }

    /** Stores a new valid channel, whose objects belong to nothing else, in an empty slot. */
    method Attach(id: nat, ch: Channel)
      requires Valid() && id < NUM_CHANNELS && channels[id] == null && ch.Valid()
      requires ch.Footprint() !! Parts() + ChannelObjects(channels[..]) + {channels}
      modifies channels
      ensures Valid() && State() == old(State()) && channels[..] == old(channels[..])[id := ch]
    {
      ghost var t := channels[..];
      TableWithNew(t, id, ch, Parts());
      channels[id] := ch;
      assert channels[..] == t[id := ch];
      CoreKept();
    }

    /**
     * Slay2::close: the slot named by the channel's own number is emptied when that number is
     * below eight, whichever channel the slot holds.
     */
    method Close(ch: Channel?)
      requires Valid()
      modifies channels
      ensures Valid() && State() == old(State())
      ensures channels[..] == if ch != null && ch.id < NUM_CHANNELS then old(channels[..])[ch.id := null]
                              else old(channels[..])
    {
      if ch != null && ch.id < NUM_CHANNELS {
        ghost var t := channels[..];
        TableWithout(t, ch.id, Parts());
        channels[ch.id] := null;
        assert channels[..] == t[ch.id := null];
      }
      CoreKept();
    }

    // -------------------------------------------------------------------------------------
    // doReception
    // -------------------------------------------------------------------------------------

    /** A SYNC byte: counted; the third in a row resets the scheduler and both decoders. */
    method Synced()
      requires Core()
      modifies Parts()
      ensures Core() && State() == OnSync(old(State()))
    {
      StateInv();
      OnSyncIs(State());
      syncCount := syncCount + 1;
      if syncCount >= SYNC_RESET {
        syncCount := 0;
        txScheduler.Reset();
        rxAckDecoder := Flushed(rxAckDecoder);
        rxDataDecoder := Flushed(rxDataDecoder);
        nextExpRxSeqNr := 0;
      }
    }

    /** END_OF_ACK: a 5-byte frame with CRC residue 0 acknowledges its first byte; then flush. */
    method AckFrameEnded()
      requires Core() && syncCount == 0
      modifies Parts()
      ensures Core() && State() == OnAckEnd(old(State()))
    {
      var w := Written(rxAckDecoder);
      if rxAckDecoder.crc == 0 && |w| == 5 {
        var ok := txScheduler.AcknowledgeXfer(w[0]);
      }
      rxAckDecoder := Flushed(rxAckDecoder);
    }

    /**
     * The delivery of w: when channel w[1] exists and has a receiver, a 0 is written over the
     * first CRC byte and the receiver is handed the payload.
     */
    method HandOver(w: seq<bv8>, ghost receivers: seq<Receiver>) returns (d: seq<Delivery>)
      requires Core() && channels.Length == NUM_CHANNELS && receivers == Receivers()
      requires 6 < |w| < |rxDataDecoder.buffer|
      modifies this
      ensures Core() && (State(), d) == Delivered(old(State()), receivers, w)
    {
      StateInv();
      var ch := w[1] as nat;
      d := [];
      if ch < NUM_CHANNELS {
        var channel := channels[ch];
        if channel != null && channel.receiver != 0 {
          rxDataDecoder := rxDataDecoder.(buffer := rxDataDecoder.buffer[1 + 2 + (|w| - 6) := 0]);
          d := [Delivery(channel.receiver, channel.receiverObj, w[2..|w| - 4])];
        }
      }
    }

    /** ++nextExpRxSeqNr, modulo 256. */
    method Advance()
      requires Core()
      modifies this
      ensures Core() && State() == old(State()).(nextExp := old(nextExpRxSeqNr) + 1)
    {
      nextExpRxSeqNr := nextExpRxSeqNr + 1;
    }

    /** A DATA frame w that passed the CRC and length tests: OnValidData. */
    method AcceptFrame(w: seq<bv8>, ghost receivers: seq<Receiver>) returns (d: seq<Delivery>)
      requires Core() && channels.Length == NUM_CHANNELS && receivers == Receivers()
      requires 6 < |w| < |rxDataDecoder.buffer|
      modifies Parts()
      ensures Core() && (State(), d) == OnValidData(old(State()), receivers, w)
    {
      StateInv();
      var ok := txScheduler.ScheduleAck(w[0]);
      CoreAfterScheduler();
      d := [];
      if w[0] == nextExpRxSeqNr {
        d := Deliver(w, receivers);
      }
    }

    /** A DATA frame w with the expected sequence number: delivered, then counted. */
    method Deliver(w: seq<bv8>, ghost receivers: seq<Receiver>) returns (d: seq<Delivery>)
      requires Core() && channels.Length == NUM_CHANNELS && receivers == Receivers()
      requires 6 < |w| < |rxDataDecoder.buffer|
      modifies this
      ensures Core() && (State(), d) == ExpectedFrame(old(State()), receivers, w)
    {
      d := HandOver(w, receivers);
      Advance();
    }

    /**
     * END_OF_DATA: a frame with CRC residue 0 and more than 6 bytes is acknowledged; one with
     * the expected sequence number is delivered and the expected number advances; then flush.
     */
    method DataFrameEnded(ghost receivers: seq<Receiver>) returns (d: seq<Delivery>)
      requires Core() && syncCount == 0 && channels.Length == NUM_CHANNELS && receivers == Receivers()
      modifies Parts()
      ensures Core() && (State(), d) == OnDataEnd(old(State()), receivers)
    {
      StateInv();
      var w := Written(rxDataDecoder);
      d := [];
      if rxDataDecoder.crc == 0 && |w| > 6 {
        d := AcceptFrame(w, receivers);
      }
      rxDataDecoder := Flushed(rxDataDecoder);
    }

    /** One pass of doReception's loop: the byte's class decides. */
    method ReceiveByte(c: bv8, ghost receivers: seq<Receiver>) returns (d: seq<Delivery>)
      requires Core() && channels.Length == NUM_CHANNELS && receivers == Receivers()
      modifies Parts()
      ensures Core() && (State(), d) == ByteStep(old(State()), receivers, c)
    {
      if c == SYNC {
        Synced();
        d := [];
      } else {
        StateInv();
        ByteStepEndsSyncRun(State(), receivers, c);
        syncCount := 0;
        d := FrameByte(c, receivers);
      }
    }

    /** A byte other than SYNC, once the SYNC run has ended: a frame byte, a frame end or garbage. */
    method FrameByte(c: bv8, ghost receivers: seq<Receiver>) returns (d: seq<Delivery>)
      requires Core() && syncCount == 0 && c != SYNC
      requires channels.Length == NUM_CHANNELS && receivers == Receivers()
      modifies Parts()
      ensures Core() && (State(), d) == ByteStep(old(State()), receivers, c)
    {
      StateInv();
      ghost var e := State();
      assert e.(syncCount := 0) == e;
      d := [];
      if IsAck(c) {
        rxAckDecoder := AckDecPush(rxAckDecoder, c).0;
      } else if IsEndOfAck(c) {
        AckFrameEnded();
      } else if IsData(c) {
        rxDataDecoder := DataDecPush(rxDataDecoder, c).0;
      } else if IsEndOfData(c) {
        d := DataFrameEnded(receivers);
      }
    }

    /** doReception's loop over the bytes rx, in order. */
    method ReceiveLoop(rx: seq<bv8>, ghost receivers: seq<Receiver>) returns (d: seq<Delivery>)
      requires Core() && Separate() && channels.Length == NUM_CHANNELS && receivers == Receivers()
      modifies Parts()
      ensures Core() && (State(), d) == ReceiveAll(old(State()), receivers, rx)
    {
      StateInv();
      ghost var e := State();
      ghost var objects := ChannelObjects(channels[..]);
      assert objects !! Parts() && channels !in Parts();
      d := [];
      var i := 0;
      while i < |rx|
        invariant i <= |rx| && Core() && receivers == Receivers()
        invariant unchanged(channels) && unchanged(objects)
        invariant (State(), d) == ReceiveAll(e, receivers, rx[..i])
      {
        StateInv();
        label Before:
        var more := ReceiveByte(rx[i], receivers);
        ReceiversKept@Before();
        ReceivePrefixStep(e, receivers, rx, i);
        d := d + more;
        i := i + 1;
      }
      assert rx[..i] == rx;
    }

    /** Slay2::doReception over the bytes rx that receive() hands over, in order. */
    method DoReception(rx: seq<bv8>) returns (d: seq<Delivery>)
      requires Valid()
      modifies Parts()
      ensures Valid() && (State(), d) == ReceiveAll(old(State()), old(Receivers()), rx)
      ensures Receivers() == old(Receivers()) && Channels() == old(Channels())
    {
      d := ReceiveLoop(rx, Receivers());
      TableKept();
    }

    // -------------------------------------------------------------------------------------
    // doTransmission
    // -------------------------------------------------------------------------------------

    /** doTransmission's getNextXfer call: SendStep. */
    method SendNext(now: bv32, ghost views: seq<ChannelView>) returns (frame: Option<seq<bv8>>)
      requires Core() && ChannelTable(channels[..]) && Separate() && views == Channels()
      modifies txScheduler.Repr(), TxFifos(channels[..])
      ensures Core() && ChannelTable(channels[..])
      ensures (State(), Channels(), frame) == SendStep(old(State()), views, now)
      ensures unchanged(channels) && unchanged(Slots(channels[..]))
    {
      StateInv();
      NextXferKeeps(txScheduler.State(), now, views);
      var x := txScheduler.NextXfer(now, channels[..]);
      CoreAfterScheduler();
      frame := None;
      if !x.NoXfer? {
        frame := Some(txScheduler.Sent(x));
      }
    }

    /**
     * Slay2::doTransmission: txCount is what getTxCount returns and now the millisecond clock;
     * the frame handed to transmit is returned.
     */
    method DoTransmission(txCount: nat, now: bv32) returns (frame: Option<seq<bv8>>)
      requires Valid()
      modifies Parts(), TxFifos(channels[..])
      ensures Valid() && Receivers() == old(Receivers())
      ensures (State(), Channels(), frame) == TransmitStep(old(State()), old(Channels()), txCount, now)
    {
      frame := None;
      if txCount <= TX_BACKLOG {
        frame := SendNext(now, Channels());
        if frame.Some? {
          AckDecoderFlush();
        }
      }
    }

    /** doTransmission's flush of the ACK decoder before a frame goes out. */
    method AckDecoderFlush()
      requires Valid()
      modifies this
      ensures Valid() && Receivers() == old(Receivers()) && Channels() == old(Channels())
      ensures State() == old(State()).(rxAck := Flushed(old(rxAckDecoder)))
    {
      rxAckDecoder := Flushed(rxAckDecoder);
      TableKept();
    }

    // -------------------------------------------------------------------------------------
    // task
    // -------------------------------------------------------------------------------------

    /**
     * task's start-up part: before a SYNC burst has been accepted whole, five SYNC bytes go
     * to transmit, which takes accepted of them; taking all five resets the endpoint.
     */
    method Startup(accepted: nat) returns (burst: bool)
      requires Valid()
      modifies Parts()
      ensures Valid() && Receivers() == old(Receivers()) && Channels() == old(Channels())
      ensures (State(), burst) == StartupStep(old(State()), accepted)
    {
      burst := false;
      if !syncSent {
        burst := true;
        if accepted >= SYNC_BURST {
          txScheduler.Reset();
          rxAckDecoder := Flushed(rxAckDecoder);
          rxDataDecoder := Flushed(rxDataDecoder);
          nextExpRxSeqNr := 0;
          syncSent := true;
        }
      }
      TableKept();
    }

    /**
     * Slay2::task: start-up, reception of the bytes rx, then transmission. accepted is what
     * transmit returns for the SYNC burst, txCount what getTxCount returns, now the clock.
     */
    method Task(accepted: nat, rx: seq<bv8>, txCount: nat, now: bv32) returns (out: TaskOutput)
      requires Valid()
      modifies Parts(), TxFifos(channels[..])
      ensures Valid() && Receivers() == old(Receivers())
      ensures (State(), Channels(), out) ==
        TaskStep(old(State()), old(Receivers()), old(Channels()), accepted, rx, txCount, now)
    {
      var burst := Startup(accepted);
      var delivered := DoReception(rx);
      var frame := DoTransmission(txCount, now);
      out := TaskOutput(burst, delivered, frame);
    }
  }
}
