/**
 * The DATA codec of slay2_buffer.cpp: 7 payload bits per wire byte, tag bit 7 set.
 *
 * Seven original bytes become eight wire bytes. The encoder writes each byte into the current
 * wire byte and seeds the next one with its remaining high bits; `step` (0..6) is the bit
 * offset inside the group. The streaming decoder (`step` 0..7) reassembles complete bytes and
 * folds each completed byte into its CRC; decodeData reads the k-th original byte directly.
 */
module DataCodec {
  import opened Wire
  import opened Crc32

  // ---------------------------------------------------------------------------------------
  // Encoding, as a function of the bytes pushed since the last terminator
  // ---------------------------------------------------------------------------------------

  /** The wire byte that byte c, pushed at `step` st, ORs into the current position. */
  function DataLow(c: bv8, st: nat): bv8
    requires st < 7
  {
    0x80 | (Shl(c, st) & 0x7F)
  }

  /** The wire byte that byte c, pushed at `step` st, seeds at the next position. */
  function DataHigh(c: bv8, st: nat): bv8
    requires st < 7
  {
    0x80 | Shr(c, 7 - st)
  }

  /**
   * The wire bytes buffer[1+|done|..] hold after the bytes s were pushed with pushData,
   * including a trailing partial byte whose missing bits are zero.
   */
  function EncodeData(s: seq<bv8>): (w: seq<bv8>)
    ensures |w| >= |s|
    decreases |s|
  {
    if s == [] then []
    else
      var prev := EncodeData(s[..|s| - 1]);
      var c := s[|s| - 1];
      var st := (|s| - 1) % 7;
      if st == 0 then prev + [DataLow(c, 0), DataHigh(c, 0)]
      else prev[..|prev| - 1] + [prev[|prev| - 1] | DataLow(c, st), DataHigh(c, st)]
  }

  /** A full encoded DATA frame as the scheduler builds it: bytes, CRC, terminator. */
  function EncodedDataFrame(s: seq<bv8>): seq<bv8>
  {
    EncodeData(s + Big32(CrcFold(CRC_INIT, s))) + [END_OF_DATA]
  }

  // ---------------------------------------------------------------------------------------
  // Random-access decoding (Slay2DataDecodingBuffer::decodeData)
  // ---------------------------------------------------------------------------------------

  /** Position of the first wire byte that holds bits of original byte k. */
  function DataOffset(k: nat): nat
  {
    8 * (k / 7) + k % 7
  }

  /** decodeData's mask-and-shift of the two wire bytes x, y that hold a byte read at step st. */
  function DataCombine(x: bv8, y: bv8, st: nat): bv8
    requires st < 7
  {
    Shr(x & 0x7F, st) | Shl(y, 7 - st)
  }

  /** Slay2DataDecodingBuffer::decodeData: original byte k of the wire bytes buf. */
  function DecodeDataAt(buf: seq<bv8>, k: nat): bv8
    requires DataOffset(k) + 1 < |buf|
  {
    DataCombine(buf[DataOffset(k)], buf[DataOffset(k) + 1], k % 7)
  }

  // ---------------------------------------------------------------------------------------
  // Streaming decoding, as a function of the wire bytes pushed since flush
  // ---------------------------------------------------------------------------------------

  /** Number of complete original bytes in m wire bytes (every 8th wire byte completes none). */
  function DataDecodedLength(m: nat): nat
  {
    m - (m + 7) / 8
  }

  lemma DataDecodedInBounds(m: nat, k: nat)
    requires k < DataDecodedLength(m)
    ensures DataOffset(k) + 1 < m
  {
  }

  /** The complete bytes a streaming decoder holds after the wire bytes w. */
  function DecodeDataStream(w: seq<bv8>): (s: seq<bv8>)
    ensures |s| == DataDecodedLength(|w|)
  {
    seq(DataDecodedLength(|w|), k requires 0 <= k < DataDecodedLength(|w|) =>
      DataDecodedInBounds(|w|, k); DecodeDataAt(w, k))
  }

  /** The partial byte p completed by wire byte c at decoder step t (pushData's `c << left`). */
  function DataFill(p: bv8, c: bv8, t: nat): bv8
    requires 1 <= t <= 7
  {
    p | Shl(c & 0x7F, 8 - t)
  }

  /** The partially assembled byte the decoder keeps at buffer[count] when step != 0. */
  function DataPartial(w: seq<bv8>): bv8
    requires |w| % 8 != 0
  {
    Shr(w[|w| - 1] & 0x7F, |w| % 8 - 1)
  }

  // ---------------------------------------------------------------------------------------
  // Bit-level facts, one concrete step at a time
  // ---------------------------------------------------------------------------------------

  /** The first wire byte of byte c pushed at step st, after the seed a of the byte before it. */
  function DataLowByte(a: bv8, c: bv8, st: nat): bv8
    requires st < 7
  {
    if st == 0 then DataLow(c, 0) else DataHigh(a, st - 1) | DataLow(c, st)
  }

  // decodeData reads back byte c at each step st: one small bit-vector fact per step.
  lemma DataJoinAt0(a: bv8, c: bv8, st: nat)
    requires st == 0
    ensures DataCombine(DataLowByte(a, c, st), DataHigh(c, st), st) == c
  {
  }

  lemma DataJoinAt1(a: bv8, c: bv8, st: nat)
    requires st == 1
    ensures DataCombine(DataLowByte(a, c, st), DataHigh(c, st), st) == c
  {
  }

  lemma DataJoinAt2(a: bv8, c: bv8, st: nat)
    requires st == 2
    ensures DataCombine(DataLowByte(a, c, st), DataHigh(c, st), st) == c
  {
  }

  lemma DataJoinAt3(a: bv8, c: bv8, st: nat)
    requires st == 3
    ensures DataCombine(DataLowByte(a, c, st), DataHigh(c, st), st) == c
  {
  }

  lemma DataJoinAt4(a: bv8, c: bv8, st: nat)
    requires st == 4
    ensures DataCombine(DataLowByte(a, c, st), DataHigh(c, st), st) == c
  {
  }

  lemma DataJoinAt5(a: bv8, c: bv8, st: nat)
    requires st == 5
    ensures DataCombine(DataLowByte(a, c, st), DataHigh(c, st), st) == c
  {
  }

  lemma DataJoinAt6(a: bv8, c: bv8, st: nat)
    requires st == 6
    ensures DataCombine(DataLowByte(a, c, st), DataHigh(c, st), st) == c
  {
  }

  /** decodeData reads back byte c from the two wire bytes pushData wrote for it. */
  lemma DataJoin(a: bv8, c: bv8, st: nat)
    requires st < 7
    ensures DataCombine(DataLowByte(a, c, st), DataHigh(c, st), st) == c
  {
    match st
    case 0 => DataJoinAt0(a, c, st);
    case 1 => DataJoinAt1(a, c, st);
    case 2 => DataJoinAt2(a, c, st);
    case 3 => DataJoinAt3(a, c, st);
    case 4 => DataJoinAt4(a, c, st);
    case 5 => DataJoinAt5(a, c, st);
    case 6 => DataJoinAt6(a, c, st);
  }

  // Bits a later byte ORs into a seeded wire byte lie above those decodeData keeps, per step.
  lemma DataLaterBitsIgnoredAt0(x: bv8, y: bv8, c: bv8, st: nat)
    requires st == 0
    ensures DataCombine(x, y | DataLow(c, st + 1), st) == DataCombine(x, y, st)
  {
  }

  lemma DataLaterBitsIgnoredAt1(x: bv8, y: bv8, c: bv8, st: nat)
    requires st == 1
    ensures DataCombine(x, y | DataLow(c, st + 1), st) == DataCombine(x, y, st)
  {
  }

  lemma DataLaterBitsIgnoredAt2(x: bv8, y: bv8, c: bv8, st: nat)
    requires st == 2
    ensures DataCombine(x, y | DataLow(c, st + 1), st) == DataCombine(x, y, st)
  {
  }

  lemma DataLaterBitsIgnoredAt3(x: bv8, y: bv8, c: bv8, st: nat)
    requires st == 3
    ensures DataCombine(x, y | DataLow(c, st + 1), st) == DataCombine(x, y, st)
  {
  }

  lemma DataLaterBitsIgnoredAt4(x: bv8, y: bv8, c: bv8, st: nat)
    requires st == 4
    ensures DataCombine(x, y | DataLow(c, st + 1), st) == DataCombine(x, y, st)
  {
  }

  lemma DataLaterBitsIgnoredAt5(x: bv8, y: bv8, c: bv8, st: nat)
    requires st == 5
    ensures DataCombine(x, y | DataLow(c, st + 1), st) == DataCombine(x, y, st)
  {
  }

  /** Bits a later byte ORs into a seeded wire byte lie above those decodeData keeps. */
  lemma DataLaterBitsIgnored(x: bv8, y: bv8, c: bv8, st: nat)
    requires st < 6
    ensures DataCombine(x, y | DataLow(c, st + 1), st) == DataCombine(x, y, st)
  {
    match st
    case 0 => DataLaterBitsIgnoredAt0(x, y, c, st);
    case 1 => DataLaterBitsIgnoredAt1(x, y, c, st);
    case 2 => DataLaterBitsIgnoredAt2(x, y, c, st);
    case 3 => DataLaterBitsIgnoredAt3(x, y, c, st);
    case 4 => DataLaterBitsIgnoredAt4(x, y, c, st);
    case 5 => DataLaterBitsIgnoredAt5(x, y, c, st);
  }

  /** Masking a wire byte's tag bit does not matter once the byte is shifted up by 8 - t. */
  lemma DataTagShiftedOut(c: bv8, t: nat)
    requires 1 <= t <= 7
    ensures Shl(c & 0x7F, 8 - t) == Shl(c, 7 - (t - 1))
  {
  }


  /** Completing a partial byte read at step t - 1 gives decodeData's formula for that step. */
  lemma DataCompletesBits(x: bv8, c: bv8, t: nat)
    requires 1 <= t <= 7
    ensures DataFill(Shr(x & 0x7F, t - 1), c, t) == DataCombine(x, c, t - 1)
  {
    DataTagShiftedOut(c, t);
  }

  /**
   * The streaming decoder's completion of its partial byte by wire byte c is decodeData's
   * formula applied to the last two wire bytes.
   */
  lemma DataCompletes(w: seq<bv8>, c: bv8)
    requires |w| % 8 != 0
    ensures DataFill(DataPartial(w), c, |w| % 8) == DataCombine(w[|w| - 1], c, |w| % 8 - 1)
  {
    DataCompletesBits(w[|w| - 1], c, |w| % 8);
  }

  // ---------------------------------------------------------------------------------------
  // Offsets and lengths
  // ---------------------------------------------------------------------------------------

  /** The last original byte of n occupies the last two wire bytes of EncodeData. */
  lemma DataLastOffset(n: nat)
    requires n >= 1
    ensures DataOffset(n - 1) + 2 == n + (n + 6) / 7
    ensures (n - 1) % 7 == 0 ==> DataOffset(n - 1) == (n - 1) + (n + 5) / 7
    ensures (n - 1) % 7 != 0 ==> DataOffset(n - 1) + 1 == (n - 1) + (n + 5) / 7
  {
    var q, r := (n - 1) / 7, (n - 1) % 7;
    assert n - 1 == 7 * q + r;
    assert (n + 6) / 7 == q + 1;
    if r == 0 {
      assert (n + 5) / 7 == q;
    } else {
      assert (n + 5) / 7 == q + 1;
    }
  }

  lemma DataOffsetMonotone(j: nat, k: nat)
    requires j < k
    ensures DataOffset(j) < DataOffset(k)
  {
  }

  /** Encoding n bytes gives wire bytes from which exactly n bytes complete. */
  lemma DataEncodedLength(n: nat)
    ensures DataDecodedLength(n + (n + 6) / 7) == n
  {
    var q, r := n / 7, n % 7;
    assert n == 7 * q + r;
    if r == 0 {
      assert (n + 6) / 7 == q;
      assert (8 * q + 7) / 8 == q;
    } else {
      assert (n + 6) / 7 == q + 1;
      assert (8 * q + r + 1 + 7) / 8 == q + 1;
    }
  }

  /** When wire byte m+1 completes a byte, it is the byte at position DataDecodedLength(m). */
  lemma DataNextOffset(m: nat)
    requires m % 8 != 0
    ensures DataOffset(DataDecodedLength(m)) == m - 1
    ensures DataDecodedLength(m) % 7 == m % 8 - 1
    ensures DataDecodedLength(m + 1) == DataDecodedLength(m) + 1
    ensures (m - 1) % 8 == m % 8 - 1
  {
    var q, t := m / 8, m % 8;
    assert m == 8 * q + t;
    assert (m + 7) / 8 == q + 1;
    assert (m + 8) / 8 == q + 1;
    var k := DataDecodedLength(m);
    assert k == 7 * q + (t - 1);
    assert k / 7 == q && k % 7 == t - 1;
  }

  lemma DataNoCompletion(m: nat)
    requires m % 8 == 0
    ensures DataDecodedLength(m + 1) == DataDecodedLength(m)
  {
    assert (m + 8) / 8 == (m + 7) / 8 + 1;
  }

  // ---------------------------------------------------------------------------------------
  // Round trips
  // ---------------------------------------------------------------------------------------

  /** pushData grows the wire by one byte, and by a second one when it completes a group. */
  lemma {:induction false} EncodeDataLength(s: seq<bv8>)
    ensures |EncodeData(s)| == |s| + (|s| + 6) / 7
    decreases |s|
  {
    if s != [] {
      var n := |s|;
      EncodeDataLength(s[..n - 1]);
      DataLastOffset(n);
    }
  }

  /** The last wire byte of EncodeData is the seed left by the last pushed byte. */
  lemma DataLastByte(s: seq<bv8>)
    requires |s| >= 1
    ensures |EncodeData(s)| >= 1
    ensures EncodeData(s)[|EncodeData(s)| - 1] == DataHigh(s[|s| - 1], (|s| - 1) % 7)
  {
  }

  /** pushData at a group start: byte c takes two fresh wire bytes. */
  lemma EncodeDataPushStart(s: seq<bv8>, c: bv8)
    requires |s| % 7 == 0
    ensures EncodeData(s + [c]) == EncodeData(s) + [DataLow(c, 0), DataHigh(c, 0)]
  {
    assert (s + [c])[..|s|] == s;
  }

  /** pushData inside a group: byte c is ORed into the seed left by the byte before it. */
  lemma EncodeDataPushMid(s: seq<bv8>, c: bv8)
    requires |s| % 7 != 0
    ensures |EncodeData(s)| >= 1
    ensures EncodeData(s + [c]) == EncodeData(s)[..|EncodeData(s)| - 1]
      + [EncodeData(s)[|EncodeData(s)| - 1] | DataLow(c, |s| % 7), DataHigh(c, |s| % 7)]
  {
    assert (s + [c])[..|s|] == s;
  }

  /** pushData at a group start, byte by byte: the wire grows by two bytes. */
  lemma EncodeDataPushStartBytes(s: seq<bv8>, c: bv8)
    requires |s| % 7 == 0
    ensures var E, E' := EncodeData(s), EncodeData(s + [c]);
            |E'| == |E| + 2 && E'[..|E|] == E && E'[|E|] == DataLow(c, 0) && E'[|E| + 1] == DataHigh(c, 0)
  {
    EncodeDataPushStart(s, c);
  }

  /** pushData inside a group, byte by byte: the wire grows by one byte and its old last byte is ORed. */
  lemma EncodeDataPushMidBytes(s: seq<bv8>, c: bv8)
    requires |s| % 7 != 0
    ensures var E, E' := EncodeData(s), EncodeData(s + [c]);
            |E| >= 1 && |E'| == |E| + 1 && E'[..|E| - 1] == E[..|E| - 1] &&
            E'[|E| - 1] == E[|E| - 1] | DataLow(c, |s| % 7) && E'[|E|] == DataHigh(c, |s| % 7)
  {
    EncodeDataPushMid(s, c);
  }

  /** Where the wire bytes of byte n begin: right after the encoding of n bytes, or on its seed. */
  lemma DataOffsetAtEnd(n: nat)
    ensures n % 7 == 0 ==> DataOffset(n) == n + (n + 6) / 7
    ensures n % 7 != 0 ==> DataOffset(n) + 1 == n + (n + 6) / 7
  {
    var q, r := n / 7, n % 7;
    assert n == 7 * q + r;
    if r == 0 {
      assert (n + 6) / 7 == q;
    } else {
      assert (n + 6) / 7 == q + 1;
    }
  }

  /** Consecutive original bytes sit at consecutive offsets, except across a group boundary. */
  lemma DataOffsetNext(k: nat)
    ensures (k + 1) % 7 != 0 ==> DataOffset(k + 1) == DataOffset(k) + 1
    ensures (k + 1) % 7 == 0 ==> DataOffset(k + 1) == DataOffset(k) + 2
  {
  }

  /** decodeData looks at two wire bytes only. */
  lemma DecodeDataAtSameBytes(b1: seq<bv8>, b2: seq<bv8>, k: nat)
    requires DataOffset(k) + 1 < |b1| && DataOffset(k) + 1 < |b2|
    requires b1[DataOffset(k)] == b2[DataOffset(k)] && b1[DataOffset(k) + 1] == b2[DataOffset(k) + 1]
    ensures DecodeDataAt(b1, k) == DecodeDataAt(b2, k)
  {
  }

  /**
   * decodeData of byte k ignores what the byte after it, pushed at the next step st of the same
   * group, ORs into their shared wire byte, the last of b1.
   */
  lemma DecodeDataAtLater(b1: seq<bv8>, b2: seq<bv8>, k: nat, c: bv8, st: nat)
    requires st == k % 7 + 1 < 7 && DataOffset(k) + 2 == |b1| && |b2| == |b1| + 1
    requires b2[|b1| - 2] == b1[|b1| - 2] && b2[|b1| - 1] == b1[|b1| - 1] | DataLow(c, st)
    ensures DecodeDataAt(b2, k) == DecodeDataAt(b1, k)
  {
    DataLaterBitsIgnored(b1[|b1| - 2], b1[|b1| - 1], c, k % 7);
  }

  /** decodeData of the two wire bytes written for byte c gives c. */
  lemma DecodeDataAtWritten(buf: seq<bv8>, k: nat, a: bv8, c: bv8)
    requires DataOffset(k) + 1 < |buf|
    requires buf[DataOffset(k)] == DataLowByte(a, c, k % 7)
    requires buf[DataOffset(k) + 1] == DataHigh(c, k % 7)
    ensures DecodeDataAt(buf, k) == c
  {
    DataJoin(a, c, k % 7);
  }

  /** decodeData reads back a byte pushed at a group start. */
  lemma DecodeEncodedPushedStart(s: seq<bv8>, c: bv8)
    requires |s| % 7 == 0
    ensures DataOffset(|s|) + 1 < |EncodeData(s + [c])|
    ensures DecodeDataAt(EncodeData(s + [c]), |s|) == c
  {
    EncodeDataLength(s);
    DataOffsetAtEnd(|s|);
    EncodeDataPushStartBytes(s, c);
    var E' := EncodeData(s + [c]);
    assert E'[DataOffset(|s|)] == DataLowByte(0, c, 0);
    DecodeDataAtWritten(E', |s|, 0, c);
  }

  /** decodeData of the two wire bytes written for byte c inside a group, after the seed of a, gives c. */
  lemma DecodeDataAtWrittenMid(buf: seq<bv8>, k: nat, a: bv8, c: bv8, before: nat)
    requires k % 7 != 0 && before + 1 == k % 7 && DataOffset(k) + 1 < |buf|
    requires buf[DataOffset(k)] == DataHigh(a, before) | DataLow(c, k % 7)
    requires buf[DataOffset(k) + 1] == DataHigh(c, k % 7)
    ensures DecodeDataAt(buf, k) == c
  {
    DataJoin(a, c, k % 7);
  }

  /** decodeData reads back a byte pushed inside a group. */
  lemma DecodeEncodedPushedMid(s: seq<bv8>, c: bv8)
    requires |s| % 7 != 0
    ensures DataOffset(|s|) + 1 < |EncodeData(s + [c])|
    ensures DecodeDataAt(EncodeData(s + [c]), |s|) == c
  {
    var n := |s|;
    EncodeDataLength(s);
    DataOffsetAtEnd(n);
    DataLastByte(s);
    EncodeDataPushMidBytes(s, c);
    assert (n - 1) % 7 + 1 == n % 7;
    DecodeDataAtWrittenMid(EncodeData(s + [c]), n, s[n - 1], c, (n - 1) % 7);
  }

  /** decodeData reads back the byte pushed last. */
  lemma DecodeEncodedPushed(s: seq<bv8>, c: bv8)
    ensures DataOffset(|s|) + 1 < |EncodeData(s + [c])|
    ensures DecodeDataAt(EncodeData(s + [c]), |s|) == c
  {
    if |s| % 7 == 0 {
      DecodeEncodedPushedStart(s, c);
    } else {
      DecodeEncodedPushedMid(s, c);
    }
  }

  /** Every byte before the one pushed last has both its wire bytes inside the encoding. */
  lemma DataEarlierInBounds(n: nat, k: nat)
    requires k < n
    ensures DataOffset(k) + 2 <= n + (n + 6) / 7
    ensures n % 7 != 0 && k + 1 < n ==> DataOffset(k) + 2 < n + (n + 6) / 7
  {
    DataOffsetAtEnd(n);
    DataOffsetNext(n - 1);
    if k < n - 1 {
      DataOffsetMonotone(k, n - 1);
    }
  }

  /** A push at a group start leaves every earlier wire byte, so every earlier decodeData, unchanged. */
  lemma DecodeEncodedKeptStart(s: seq<bv8>, c: bv8, k: nat)
    requires k < |s| && |s| % 7 == 0
    ensures DataOffset(k) + 1 < |EncodeData(s)|
    ensures DataOffset(k) + 1 < |EncodeData(s + [c])|
    ensures DecodeDataAt(EncodeData(s + [c]), k) == DecodeDataAt(EncodeData(s), k)
  {
    var E, E', i := EncodeData(s), EncodeData(s + [c]), DataOffset(k);
    EncodeDataLength(s);
    DataEarlierInBounds(|s|, k);
    EncodeDataPushStartBytes(s, c);
    assert E'[i] == E'[..|E|][i] && E'[i + 1] == E'[..|E|][i + 1];
    DecodeDataAtSameBytes(E, E', k);
  }

  /** A push inside a group leaves decodeData of bytes before its predecessor unchanged. */
  lemma DecodeEncodedKeptMid(s: seq<bv8>, c: bv8, k: nat)
    requires k + 1 < |s| && |s| % 7 != 0
    ensures DataOffset(k) + 1 < |EncodeData(s)|
    ensures DataOffset(k) + 1 < |EncodeData(s + [c])|
    ensures DecodeDataAt(EncodeData(s + [c]), k) == DecodeDataAt(EncodeData(s), k)
  {
    var E, E', i := EncodeData(s), EncodeData(s + [c]), DataOffset(k);
    EncodeDataLength(s);
    DataEarlierInBounds(|s|, k);
    EncodeDataPushMidBytes(s, c);
    assert E'[i] == E'[..|E| - 1][i] && E'[i + 1] == E'[..|E| - 1][i + 1];
    assert E[i] == E[..|E| - 1][i] && E[i + 1] == E[..|E| - 1][i + 1];
    DecodeDataAtSameBytes(E, E', k);
  }

  /** Inside a group, the byte before the last one pushed ends two wire bytes before the end. */
  lemma DataPredecessorOffset(n: nat)
    requires n % 7 != 0
    ensures DataOffset(n - 1) + 2 == n + (n + 6) / 7
    ensures (n - 1) % 7 + 1 == n % 7
  {
    DataOffsetAtEnd(n);
    DataOffsetNext(n - 1);
  }

  /** A push inside a group leaves decodeData of its predecessor unchanged. */
  lemma DecodeEncodedKeptPredecessor(s: seq<bv8>, c: bv8)
    requires |s| % 7 != 0
    ensures DataOffset(|s| - 1) + 1 < |EncodeData(s)|
    ensures DataOffset(|s| - 1) + 1 < |EncodeData(s + [c])|
    ensures DecodeDataAt(EncodeData(s + [c]), |s| - 1) == DecodeDataAt(EncodeData(s), |s| - 1)
  {
    var E, E' := EncodeData(s), EncodeData(s + [c]);
    EncodeDataLength(s);
    DataPredecessorOffset(|s|);
    EncodeDataPushMidBytes(s, c);
    assert E'[|E| - 2] == E'[..|E| - 1][|E| - 2] && E[|E| - 2] == E[..|E| - 1][|E| - 2];
    DecodeDataAtLater(E, E', |s| - 1, c, |s| % 7);
  }

  /** Pushing one more byte does not change what decodeData reads for an earlier byte. */
  lemma DecodeEncodedKept(s: seq<bv8>, c: bv8, k: nat)
    requires k < |s|
    ensures DataOffset(k) + 1 < |EncodeData(s)|
    ensures DataOffset(k) + 1 < |EncodeData(s + [c])|
    ensures DecodeDataAt(EncodeData(s + [c]), k) == DecodeDataAt(EncodeData(s), k)
  {
    if |s| % 7 == 0 {
      DecodeEncodedKeptStart(s, c, k);
    } else if k + 1 < |s| {
      DecodeEncodedKeptMid(s, c, k);
    } else {
      DecodeEncodedKeptPredecessor(s, c);
    }
  }

  /** Random access agrees with streaming encoding: decodeData reads back every pushed byte. */
  lemma {:induction false} DecodeEncodedData(s: seq<bv8>, k: nat)
    requires k < |s|
    ensures DataOffset(k) + 1 < |EncodeData(s)|
    ensures DecodeDataAt(EncodeData(s), k) == s[k]
    decreases |s|
  {
    var pre, c := s[..|s| - 1], s[|s| - 1];
    assert pre + [c] == s;
    if k == |s| - 1 {
      DecodeEncodedPushed(pre, c);
    } else {
      DecodeEncodedData(pre, k);
      DecodeEncodedKept(pre, c, k);
    }
  }

  /** Feeding the encoder's output to the streaming decoder gives back exactly the bytes pushed. */
  lemma DataRoundTrip(s: seq<bv8>)
    ensures DecodeDataStream(EncodeData(s)) == s
  {
    var E := EncodeData(s);
    EncodeDataLength(s);
    DataEncodedLength(|s|);
    forall k | 0 <= k < |s|
      ensures DecodeDataStream(E)[k] == s[k]
    {
      DecodeEncodedData(s, k);
    }
  }

  /** A new wire byte does not change the bytes the decoder had already completed. */
  lemma DataStreamKeeps(w: seq<bv8>, c: bv8, k: nat)
    requires k < DataDecodedLength(|w|)
    ensures DataOffset(k) + 1 < |w|
    ensures DecodeDataAt(w + [c], k) == DecodeDataAt(w, k)
  {
    DataDecodedInBounds(|w|, k);
    var i := DataOffset(k);
    assert (w + [c])[i] == w[i] && (w + [c])[i + 1] == w[i + 1];
  }

  /** Inside a group, a new wire byte completes the partial byte with its seven payload bits. */
  lemma DataStreamCompletes(w: seq<bv8>, c: bv8)
    requires |w| % 8 != 0
    ensures DataOffset(DataDecodedLength(|w|)) + 1 < |w + [c]|
    ensures DecodeDataAt(w + [c], DataDecodedLength(|w|)) == DataFill(DataPartial(w), c, |w| % 8)
  {
    var m := |w|;
    var K := DataDecodedLength(m);
    DataNextOffset(m);
    var b := w + [c];
    assert b[DataOffset(K)] == w[m - 1] && b[DataOffset(K) + 1] == c;
    assert DecodeDataAt(b, K) == DataCombine(w[m - 1], c, m % 8 - 1);
    DataCompletes(w, c);
  }

  /** One more wire byte either starts a new group or completes exactly one more byte. */
  lemma DataStreamPush(w: seq<bv8>, c: bv8)
    ensures |w| % 8 == 0 ==> DecodeDataStream(w + [c]) == DecodeDataStream(w)
    ensures |w| % 8 != 0 ==>
      DecodeDataStream(w + [c]) == DecodeDataStream(w) + [DataFill(DataPartial(w), c, |w| % 8)]
  {
    var m := |w|;
    var D, D' := DecodeDataStream(w), DecodeDataStream(w + [c]);
    forall k | 0 <= k < |D|
      ensures D'[k] == D[k]
    {
      DataStreamKeeps(w, c, k);
    }
    if m % 8 == 0 {
      DataNoCompletion(m);
    } else {
      DataNextOffset(m);
      DataStreamCompletes(w, c);
      assert D' == D + [D'[|D|]];
    }
  }

  // ---------------------------------------------------------------------------------------
  // Tag space
  // ---------------------------------------------------------------------------------------

  /** Both wire bytes of a pushed byte carry the tag, and ORing bits into a tagged byte keeps it. */
  lemma DataBytesTagged(x: bv8, c: bv8, st: nat)
    requires st < 7 && IsData(x)
    ensures IsData(DataLow(c, st)) && IsData(DataHigh(c, st)) && IsData(x | DataLow(c, st))
  {
  }

  /** Every wire byte the encoder writes is 1xxxxxxx, in 0x80..0xFF: never SYNC and never a terminator. */
  lemma {:induction false} EncodeDataTagged(s: seq<bv8>)
    ensures forall i :: 0 <= i < |EncodeData(s)| ==> IsData(EncodeData(s)[i])
    decreases |s|
  {
    if s != [] {
      var prev := EncodeData(s[..|s| - 1]);
      var c := s[|s| - 1];
      var st := (|s| - 1) % 7;
      EncodeDataTagged(s[..|s| - 1]);
      if st == 0 {
        DataBytesTagged(DataLow(c, 0), c, 0);
      } else {
        DataBytesTagged(prev[|prev| - 1], c, st);
      }
    }
  }
}
