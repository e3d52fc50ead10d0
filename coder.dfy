/**
 * The state every SLAY2 coding buffer shares (class Slay2Buffer of slay2_buffer.h): the byte
 * array, the 1-based `count` of complete bytes, the bit `step` inside the current group and
 * the running CRC-32. The encoding and decoding buffers are classes over these four fields;
 * their operations are specified by functions from one Coder value to the next.
 */
module Coding {
  import opened Crc32

  /** The fields of a Slay2Buffer: data begins at buffer[1], so count is one past the last byte. */
  datatype Coder = Coder(buffer: seq<bv8>, count: nat, step: nat, crc: bv32)

  /** Slay2Buffer::flush: back to no data, step 0 and the CRC seed; the array keeps its bytes. */
  function Flushed(b: Coder): (r: Coder)
    requires |b.buffer| >= 1
    ensures r.buffer == b.buffer
    ensures Counted(r) && Written(r) == [] && r.crc == CRC_INIT && r.step == 0
  {
    Coder(b.buffer, 1, 0, CRC_INIT)
  }

  /** The 0-based count of bytes the buffer holds (getCount), when the shape is kept. */
  predicate Counted(b: Coder)
  {
    1 <= b.count <= |b.buffer|
  }

  /** getBuffer() read up to getCount(): the complete bytes, from position 1 on. */
  function Written(b: Coder): (r: seq<bv8>)
    requires Counted(b)
    ensures |r| == b.count - 1
  {
    b.buffer[1..b.count]
  }

  // ---------------------------------------------------------------------------------------
  // Steps both encoders take
  // ---------------------------------------------------------------------------------------

  /** The index one past the last wire byte an encoder has written: a begun group's seed counts. */
  function WrittenEnd(count: nat, step: nat): nat
  {
    if step == 0 then count else count + 1
  }

  /** At a group start the two writes append two bytes to the image b[1..count]. */
  lemma WriteTwoFresh(b: seq<bv8>, count: nat, lo: bv8, hi: bv8)
    requires 1 <= count && count + 1 < |b|
    ensures b[count := lo][count + 1 := hi][1..count + 2] == b[1..count] + [lo, hi]
  {
  }

  /** Inside a group the first write replaces the image's last (seed) byte, the second appends. */
  lemma WriteTwoOver(b: seq<bv8>, count: nat, lo: bv8, hi: bv8)
    requires 1 <= count && count + 1 < |b|
    ensures b[count := lo][count + 1 := hi][1..count + 2] == b[1..count + 1][..count - 1] + [lo, hi]
    ensures b[1..count + 1][count - 1] == b[count]
  {
    assert b[1..count + 1][..count - 1] == b[1..count];
  }

  /** ORing the low bits into the image's last byte and appending the high byte, on sequences. */
  lemma WriteOverLast(b: seq<bv8>, count: nat, done: seq<bv8>, E: seq<bv8>, low: bv8, hi: bv8)
    requires |E| >= 1 && count == |done| + |E| && count + 1 < |b|
    requires b[1..count + 1] == done + E
    ensures b[count := b[count] | low][count + 1 := hi][1..count + 2]
         == done + (E[..|E| - 1] + [E[|E| - 1] | low, hi])
  {
    WriteTwoOver(b, count, b[count] | low, hi);
    assert b[count] == E[|E| - 1] by {
      assert (done + E)[count - 1] == E[|E| - 1];
    }
    assert (done + E)[..count - 1] == done + E[..|E| - 1];
  }

  /** No frames done before: the image is the frame itself. */
  lemma NothingBefore(f: seq<bv8>)
    ensures [] + f == f
  {
  }

  // ---------------------------------------------------------------------------------------
  // Steps both decoders take
  // ---------------------------------------------------------------------------------------

  /** The decoders' `count + inc`: the partial byte is complete once a group has begun. */
  function DecoderCount(count: nat, step: nat): nat
  {
    if step != 0 then count + 1 else count
  }

  /** The decoders' addToCrc of the byte they complete; at a group start they complete none. */
  function DecoderCrc(crc: bv32, step: nat, completed: bv8): bv32
  {
    if step != 0 then CrcStep(crc, completed) else crc
  }

  /** Completing the partial byte appends it to the image of complete bytes. */
  lemma DecoderImageGrows(b: seq<bv8>, count: nat, lo: bv8, hi: bv8)
    requires 1 <= count && count + 1 < |b|
    ensures b[count := lo][count + 1 := hi][1..count + 1] == b[1..count] + [lo]
  {
  }
}
