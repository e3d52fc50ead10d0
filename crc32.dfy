/**
 * The running CRC-32 that every SLAY2 codec buffer keeps (Slay2Buffer::addToCrc).
 *
 * The repository declares the CRC routine `xcrc32` as an external C function and does not
 * ship its body. It is the GNU libiberty routine: a table-driven CRC-32 with polynomial
 * 0x04C11DB7, processed most significant bit first, without reflection and without a final
 * inversion. That is also the only kind of CRC for which the receiver's test "the CRC over a
 * frame including its big-endian CRC trailer is zero" works, so it is modelled here.
 *
 * The table is written as the XOR of the entries of the index's set bits (the register shift
 * is linear over XOR); CrcTableIsShiftRegister ties it to the bitwise register. Everything the
 * codecs prove about CRCs (the decoder folds the same bytes in the same order as the encoder)
 * holds for any step function; only ZeroResidue looks inside CrcStep, and it uses no more
 * than CrcTable(0) == 0.
 */
module Crc32 {

  /** Seed of every codec buffer after flush (slay2_buffer.cpp:49). */
  const CRC_INIT: bv32 := 0xFFFF_FFFF

  const POLYNOMIAL: bv32 := 0x04C1_1DB7

  /** One round of the bitwise CRC register: shift left, fold the polynomial back in on carry. */
  function Round(x: bv32): bv32
  {
    if x & 0x8000_0000 != 0 then (x << 1) ^ POLYNOMIAL else x << 1
  }

  /** k rounds of the bitwise CRC register shift. */
  function ShiftRounds(x: bv32, k: nat): bv32
    decreases k
  {
    if k == 0 then x else ShiftRounds(Round(x), k - 1)
  }

  /** The table entry of a single-bit index m: eight register shifts of m << 24. */
  function BitEntry(m: bv8): bv32
  {
    if m == 0x01 then 0x04C1_1DB7 else if m == 0x02 then 0x0982_3B6E
    else if m == 0x04 then 0x1304_76DC else if m == 0x08 then 0x2608_EDB8
    else if m == 0x10 then 0x4C11_DB70 else if m == 0x20 then 0x9823_B6E0
    else if m == 0x40 then 0x3486_7077 else if m == 0x80 then 0x690C_E0EE
    else 0
  }

  /**
   * Entry i of the 256-entry lookup table. The register shift is linear over XOR, so the
   * entry of i is the XOR of the entries of its set bits: the lowest set bit, i & -i, and
   * the entry of i with that bit cleared.
   */
  function CrcTable(i: bv8): bv32
    decreases i
  {
    if i == 0 then 0 else CrcTable(i & (i - 1)) ^ BitEntry(i & -i)
  }

  /**
   * The single-bit entries are eight register shifts of their index, and so are entries built
   * from several bits (two instances: 0x03 and 0xFF, the last entry of the table).
   */
  lemma CrcTableIsShiftRegister()
    ensures BitEntry(0x01) == ShiftRounds(0x0100_0000, 8) && BitEntry(0x02) == ShiftRounds(0x0200_0000, 8)
    ensures BitEntry(0x04) == ShiftRounds(0x0400_0000, 8) && BitEntry(0x08) == ShiftRounds(0x0800_0000, 8)
    ensures BitEntry(0x10) == ShiftRounds(0x1000_0000, 8) && BitEntry(0x20) == ShiftRounds(0x2000_0000, 8)
    ensures BitEntry(0x40) == ShiftRounds(0x4000_0000, 8) && BitEntry(0x80) == ShiftRounds(0x8000_0000, 8)
    ensures CrcTable(0x03) == ShiftRounds(0x0300_0000, 8)
    ensures CrcTable(0xFF) == ShiftRounds(0xFF00_0000, 8)
  {
    assert CrcTable(0x02) == 0x0982_3B6E;
    assert CrcTable(0x80) == 0x690C_E0EE;
    assert CrcTable(0xC0) == 0x5D8A_9099;
    assert CrcTable(0xE0) == 0xC5A9_2679;
    assert CrcTable(0xF0) == 0x89B8_FD09;
    assert CrcTable(0xF8) == 0xAFB0_10B1;
    assert CrcTable(0xFC) == 0xBCB4_666D;
    assert CrcTable(0xFE) == 0xB536_5D03;
  }

  /** One byte of xcrc32: crc = (crc << 8) ^ table[(crc >> 24) ^ b]. */
  function CrcStep(crc: bv32, b: bv8): bv32
  {
    (crc << 8) ^ CrcTable(((crc >> 24) as bv8) ^ b)
  }

  /** The register after folding CrcStep over the bytes of s, in order. */
  function CrcFold(init: bv32, s: seq<bv8>): bv32
    decreases |s|
  {
    if s == [] then init else CrcStep(CrcFold(init, s[..|s| - 1]), s[|s| - 1])
  }

  /** The four bytes of a 32-bit value, most significant first (pushAckBig32/pushDataBig32). */
  function Big32(v: bv32): (r: seq<bv8>)
    ensures |r| == 4
  {
    [(v >> 24) as bv8, ((v >> 16) & 0xFF) as bv8, ((v >> 8) & 0xFF) as bv8, (v & 0xFF) as bv8]
  }

  /** Folding the bytes of a + b is folding b from where a left the register. */
  lemma {:induction false} CrcFoldAppend(init: bv32, a: seq<bv8>, b: seq<bv8>)
    ensures CrcFold(init, a + b) == CrcFold(CrcFold(init, a), b)
    decreases |b|
  {
    if b == [] {
      assert a + b == a;
    } else {
      assert (a + b)[..|a + b| - 1] == a + b[..|b| - 1];
      CrcFoldAppend(init, a, b[..|b| - 1]);
    }
  }

  /** One more byte is one more CrcStep (the addToCrc call of each push). */
  lemma CrcFoldPush(init: bv32, s: seq<bv8>, b: bv8)
    ensures CrcFold(init, s + [b]) == CrcStep(CrcFold(init, s), b)
  {
    assert (s + [b])[..|s|] == s;
  }

  /** Feeding the register's own top byte shifts the register left by 8. */
  lemma TopByteShifts(crc: bv32, b: bv8)
    requires b == (crc >> 24) as bv8
    ensures CrcStep(crc, b) == crc << 8
  {
    assert ((crc >> 24) as bv8) ^ b == 0;
  }

  /** One more byte equal to the register's top byte shifts the folded register by 8. */
  lemma FoldTopByte(init: bv32, t: seq<bv8>, k: nat, x: bv32)
    requires k < |t| && CrcFold(init, t[..k]) == x && t[k] == (x >> 24) as bv8
    ensures CrcFold(init, t[..k + 1]) == x << 8
  {
    assert t[..k + 1][..k] == t[..k];
    TopByteShifts(x, t[k]);
  }

  /** The first big-endian byte of r is its top byte: folding it shifts r by 8. */
  lemma OwnBytesOne(r: bv32)
    ensures CrcFold(r, Big32(r)[..1]) == r << 8
  {
    var t := Big32(r);
    assert t[..0] == [];
    assert t[0] == (r >> 24) as bv8;
    FoldTopByte(r, t, 0, r);
  }

  /** The second byte is the top byte of r << 8. */
  lemma OwnBytesTwo(r: bv32)
    ensures CrcFold(r, Big32(r)[..2]) == (r << 8) << 8
  {
    var t := Big32(r);
    OwnBytesOne(r);
    assert t[1] == ((r << 8) >> 24) as bv8;
    FoldTopByte(r, t, 1, r << 8);
  }

  /** The third byte is the top byte of r << 16. */
  lemma OwnBytesThree(r: bv32)
    ensures CrcFold(r, Big32(r)[..3]) == ((r << 8) << 8) << 8
  {
    var t := Big32(r);
    OwnBytesTwo(r);
    assert t[2] == (((r << 8) << 8) >> 24) as bv8;
    FoldTopByte(r, t, 2, (r << 8) << 8);
  }

  /** Folding a value's own four big-endian bytes into the register clears it. */
  lemma OwnBytesClear(r: bv32)
    ensures CrcFold(r, Big32(r)) == 0
  {
    var t := Big32(r);
    OwnBytesThree(r);
    assert t[3] == ((((r << 8) << 8) << 8) >> 24) as bv8;
    FoldTopByte(r, t, 3, ((r << 8) << 8) << 8);
    assert t[..4] == t;
    assert (((r << 8) << 8) << 8) << 8 == 0;
  }

  /**
   * The zero-residue property the receiver relies on (slay2.cpp:193 and :216): the CRC over
   * a message followed by its own CRC, big-endian, is zero.
   */
  lemma ZeroResidue(init: bv32, s: seq<bv8>)
    ensures CrcFold(init, s + Big32(CrcFold(init, s))) == 0
  {
    CrcFoldAppend(init, s, Big32(CrcFold(init, s)));
    OwnBytesClear(CrcFold(init, s));
  }
}
