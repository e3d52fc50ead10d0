/**
 * Slay2Channel of slay2.cpp: one logical channel of a Slay2 endpoint, with its transmit FIFO,
 * the "more data follows" flag and the receiver callback. The callback is a function pointer
 * and an object pointer; both are kept as opaque numbers, 0 standing for NULL.
 */
module Channels {
  import opened Wire
  import opened Fifos

  function Min(a: nat, b: nat): nat
  {
    if a <= b then a else b
  }

  class Channel {
    const id: nat
    const txFifo: Fifo
    var txMore: bool
    var receiver: nat
    var receiverObj: nat

    ghost predicate Valid()
      reads this, txFifo, txFifo.buffer
    {
      txFifo.Valid()
    }

    /** The objects a channel's operations may change. */
    function Footprint(): set<object>
      reads this
    {
      {this, txFifo, txFifo.buffer}
    }

    /** Slay2Channel::Slay2Channel: no receiver, no more data announced, an empty FIFO. */
    constructor (id: nat)
      ensures this.id == id && Valid() && fresh(txFifo) && fresh(txFifo.buffer)
      ensures txFifo.contents == [] && !txMore && receiver == 0 && receiverObj == 0
    {
      this.id := id;
      txFifo := new Fifo();
      txMore := false;
      receiver := 0;
      receiverObj := 0;
    }

    /** Slay2Channel::setReceiver: both pointers are replaced. */
    method SetReceiver(fn: nat, obj: nat)
      modifies this
      ensures receiver == fn && receiverObj == obj && txMore == old(txMore)
    {
      receiver, receiverObj := fn, obj;
    }

    /**
     * Slay2Channel::send: queues the longest prefix of data that fits the FIFO and returns its
     * length; the more flag is taken over whatever was accepted.
     */
    method Send(data: seq<bv8>, more: bool) returns (n: nat)
      requires Valid()
      modifies this, txFifo, txFifo.buffer
      ensures Valid()
      ensures n == Min(|data|, FIFO_SIZE - |old(txFifo.contents)|)
      ensures txFifo.contents == old(txFifo.contents) + data[..n]
      ensures txMore == more && receiver == old(receiver) && receiverObj == old(receiverObj)
    {
      n := 0;
      while n < |data|
        invariant n <= |data| && txFifo.Valid()
        invariant txFifo.contents == old(txFifo.contents) + data[..n]
        invariant receiver == old(receiver) && receiverObj == old(receiverObj)
        decreases |data| - n
      {
        var ok := txFifo.Push(data[n]);
        if !ok {
          break;
        }
        assert data[..n + 1] == data[..n] + [data[n]];
        n := n + 1;
      }
      txMore := more;
    }

    /** Slay2Channel::getTxBufferSpace: the room left in the transmit FIFO. */
    function TxBufferSpace(): (r: nat)
      requires Valid()
      reads this, txFifo, txFifo.buffer
      ensures r == FIFO_SIZE - |txFifo.contents|
    {
      txFifo.Space()
    }

    /** Slay2Channel::flushTxBuffer: drops everything queued for transmission. */
    method FlushTxBuffer()
      requires Valid()
      modifies txFifo
      ensures Valid() && txFifo.contents == []
    {
      txFifo.Flush();
    }
  }
}
