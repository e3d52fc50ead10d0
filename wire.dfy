/**
 * Wire-level constants of SLAY2 and the classification of a received byte
 * (slay2_buffer.h and the SYNC constant of slay2.cpp).
 *
 * DATA payload bytes carry the tag 1xxxxxxx, ACK payload bytes the tag 01xxxxxx; the two
 * terminators and SYNC lie outside both tag spaces, so a receiver never needs escaping.
 */
module Wire {

  /** Start-up and resynchronisation marker (slay2.cpp:87). */
  const SYNC: bv8 := 0x2C
  const END_OF_ACK: bv8 := 1
  const END_OF_DATA: bv8 := 2

  const FRAME_PAYLOAD: nat := 256
  /** Decoded DATA frame: sequence number, channel, payload, CRC, and two spare bytes. */
  const RX_BUFFER: nat := FRAME_PAYLOAD + 8
  /** Encoded DATA frame: 8/7 of the decoded size, plus round-up, terminator and a spare byte. */
  const TX_BUFFER: nat := (8 * RX_BUFFER) / 7 + 3
  const ACK_BUFFER: nat := 16
  const FIFO_SIZE: nat := 1024

  /** x << n on a byte, the result truncated to eight bits (n >= 8 clears it). */
  function Shl(x: bv8, n: nat): bv8
  {
    if n == 0 then x else if n == 1 then x << 1 else if n == 2 then x << 2
    else if n == 3 then x << 3 else if n == 4 then x << 4 else if n == 5 then x << 5
    else if n == 6 then x << 6 else if n == 7 then x << 7 else 0
  }

  /** x >> n on a byte (a logical shift: bytes are unsigned; n >= 8 clears it). */
  function Shr(x: bv8, n: nat): bv8
  {
    if n == 0 then x else if n == 1 then x >> 1 else if n == 2 then x >> 2
    else if n == 3 then x >> 3 else if n == 4 then x >> 4 else if n == 5 then x >> 5
    else if n == 6 then x >> 6 else if n == 7 then x >> 7 else 0
  }

  /** Slay2AckDecodingBuffer::isAck: bits 7..6 are 01. */
  predicate IsAck(c: bv8)
  {
    c & 0xC0 == 0x40
  }

  predicate IsEndOfAck(c: bv8)
  {
    c == END_OF_ACK
  }

  /** Slay2DataDecodingBuffer::isData: bit 7 is set. */
  predicate IsData(c: bv8)
  {
    c & 0x80 == 0x80
  }

  predicate IsEndOfData(c: bv8)
  {
    c == END_OF_DATA
  }

  /** What the receive loop does with one byte, in the order its tests are made (slay2.cpp:162-250). */
  datatype ByteClass = Sync | AckPayload | AckEnd | DataPayload | DataEnd | Garbage

  function Classify(c: bv8): ByteClass
  {
    if c == SYNC then Sync
    else if IsAck(c) then AckPayload
    else if IsEndOfAck(c) then AckEnd
    else if IsData(c) then DataPayload
    else if IsEndOfData(c) then DataEnd
    else Garbage
  }

  /** The tag tests are the byte ranges the protocol description gives. */
  lemma TagRanges(c: bv8)
    ensures IsAck(c) <==> 0x40 <= c <= 0x7F
    ensures IsData(c) <==> 0x80 <= c
    ensures IsEndOfAck(c) <==> c == 1
    ensures IsEndOfData(c) <==> c == 2
  {
  }

  /**
   * At most one of SYNC, ACK payload, end of ACK, DATA payload and end of DATA holds for any
   * byte, so each class is recognised by its own test alone, whatever the order of the tests.
   */
  lemma TagSpacesDisjoint(c: bv8)
    ensures Classify(c) == Sync <==> c == SYNC
    ensures Classify(c) == AckPayload <==> IsAck(c)
    ensures Classify(c) == AckEnd <==> IsEndOfAck(c)
    ensures Classify(c) == DataPayload <==> IsData(c)
    ensures Classify(c) == DataEnd <==> IsEndOfData(c)
    ensures Classify(c) == Garbage <==> (c == 0 || 0x03 <= c <= 0x3F) && c != SYNC
  {
  }

  /** The buffer sizes slay2_buffer.h derives. */
  lemma BufferSizes()
    ensures RX_BUFFER == 264 && TX_BUFFER == 304 && ACK_BUFFER == 16 && FIFO_SIZE == 1024
  {
  }
}
