/**
 * Slay2Fifo of slay2_buffer.cpp: a circular queue of SLAY2_FIFO_SIZE bytes with a read index,
 * a write index and a count. The ghost sequence `contents` is the queue the indices describe,
 * oldest byte first; push appends to it, pop removes its head, flush empties it.
 */
module Fifos {
  import opened Wire

  /** The array position of the i-th queued byte: read + i, wrapped once around the array. */
  function Slot(read: nat, i: nat): nat
  {
    if read + i < FIFO_SIZE then read + i else read + i - FIFO_SIZE
  }

  /** push's and pop's `index++, back to 0 at SLAY2_FIFO_SIZE`. */
  function Advance(index: nat): nat
  {
    if index + 1 >= FIFO_SIZE then 0 else index + 1
  }

  /** Advancing the read index by one moves every later slot down by one. */
  lemma SlotAfterAdvance(read: nat, i: nat)
    requires read < FIFO_SIZE && i + 1 < FIFO_SIZE
    ensures Slot(Advance(read), i) == Slot(read, i + 1)
  {
  }

  /** The write index, count slots after the read index, is where the next byte goes. */
  lemma WriteAfterAdvance(read: nat, count: nat)
    requires read < FIFO_SIZE && count < FIFO_SIZE
    ensures Advance(Slot(read, count)) == Slot(read, count + 1) % FIFO_SIZE
  {
  }

  /** Distinct queue positions occupy distinct array positions. */
  lemma SlotsDistinct(read: nat, i: nat, j: nat)
    requires read < FIFO_SIZE && i < j < FIFO_SIZE
    ensures Slot(read, i) != Slot(read, j)
  {
  }

  class Fifo {
    const buffer: array<bv8>
    var read: nat
    var write: nat
    var count: nat
    ghost var contents: seq<bv8>

    /**
     * Both indices inside the array, write count slots after read, and contents[i] stored at
     * the i-th slot after read.
     */
    ghost predicate Valid()
      reads this, buffer
    {
      buffer.Length == FIFO_SIZE &&
      read < FIFO_SIZE && write < FIFO_SIZE && count <= FIFO_SIZE &&
      write == Slot(read, count) % FIFO_SIZE &&
      |contents| == count &&
      forall i :: 0 <= i < count ==> contents[i] == buffer[Slot(read, i)]
    }

    /** Slay2Fifo::Slay2Fifo: an empty queue over a fresh array. */
    constructor ()
      ensures Valid() && contents == [] && fresh(buffer)
    {
      buffer := new bv8[FIFO_SIZE];
      read, write, count := 0, 0, 0;
      contents := [];
    }

    /** Slay2Fifo::getCount. */
    function Count(): (r: nat)
      requires Valid()
      reads this, buffer
      ensures r == |contents| && r <= FIFO_SIZE
    {
      count
    }

    /** Slay2Fifo::getSpace: the room left, SLAY2_FIFO_SIZE minus what is queued. */
    function Space(): (r: nat)
      requires Valid()
      reads this, buffer
      ensures r == FIFO_SIZE - |contents|
    {
      FIFO_SIZE - count
    }

    /** Slay2Fifo::push: appends c unless the queue is full, in which case nothing changes. */
    method Push(c: bv8) returns (ok: bool)
      requires Valid()
      modifies this, buffer
      ensures Valid()
      ensures ok <==> |old(contents)| < FIFO_SIZE
      ensures ok ==> contents == old(contents) + [c]
      ensures !ok ==> unchanged(this) && unchanged(buffer)
    {
      if count < FIFO_SIZE {
        WriteAfterAdvance(read, count);
        forall i | 0 <= i < count
          ensures Slot(read, i) != write
        {
          SlotsDistinct(read, i, count);
        }
        buffer[write] := c;
        write := Advance(write);
        count := count + 1;
        contents := contents + [c];
        ok := true;
      } else {
        ok := false;
      }
    }

    /** Slay2Fifo::pop: the oldest byte, removed from the queue; -1 when the queue is empty. */
    method Pop() returns (r: int)
      requires Valid()
      modifies this
      ensures Valid()
      ensures r == -1 <==> old(contents) == []
      ensures old(contents) == [] ==> unchanged(this)
      ensures old(contents) != [] ==> r == old(contents)[0] as int && contents == old(contents)[1..]
    {
      if count > 0 {
        var c := buffer[read];
        forall i | 0 <= i < count - 1
          ensures Slot(Advance(read), i) == Slot(read, i + 1)
        {
          SlotAfterAdvance(read, i);
        }
        read := Advance(read);
        count := count - 1;
        contents := contents[1..];
        r := c as int;
      } else {
        r := -1;
      }
    }

    /** Slay2Fifo::flush: the queue becomes empty; the array keeps its bytes. */
    method Flush()
      requires Valid()
      modifies this
      ensures Valid() && contents == []
    {
      read, write, count := 0, 0, 0;
      contents := [];
    }
  }
}
