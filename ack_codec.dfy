/**
 * The ACK codec of slay2_buffer.cpp: 6 payload bits per wire byte, tag bits 7..6 = 01.
 *
 * Three original bytes become four wire bytes. The encoder writes each byte into the current
 * wire byte and seeds the next one with its remaining high bits; `step` (0..2) counts the
 * bytes inside the group, the bit offset being 2 * step. The streaming decoder (`step` 0..3)
 * reassembles complete bytes and folds each completed byte into its CRC; decodeAck reads the
 * k-th original byte directly.
 */
module AckCodec {
  import opened Wire
  import opened Crc32

  // ---------------------------------------------------------------------------------------
  // Encoding, as a function of the bytes pushed since the last terminator
  // ---------------------------------------------------------------------------------------

  /** The wire byte that byte c, pushed at `step` st, ORs into the current position. */
  function AckLow(c: bv8, st: nat): bv8
    requires st < 3
  {
    0x40 | (Shl(c, 2 * st) & 0x3F)
  }

  /** The wire byte that byte c, pushed at `step` st, seeds at the next position. */
  function AckHigh(c: bv8, st: nat): bv8
    requires st < 3
  {
    0x40 | Shr(c, 6 - 2 * st)
  }

  /**
   * The wire bytes buffer[1+|done|..] hold after the bytes s were pushed with pushAck,
   * including a trailing partial byte whose missing bits are zero.
   */
  function EncodeAck(s: seq<bv8>): (w: seq<bv8>)
    ensures |w| >= |s|
    decreases |s|
  {
    if s == [] then []
    else
      var prev := EncodeAck(s[..|s| - 1]);
      var c := s[|s| - 1];
      var st := (|s| - 1) % 3;
      if st == 0 then prev + [AckLow(c, 0), AckHigh(c, 0)]
      else prev[..|prev| - 1] + [prev[|prev| - 1] | AckLow(c, st), AckHigh(c, st)]
  }

  /** A full encoded ACK frame as the scheduler builds it: bytes, CRC, terminator. */
  function EncodedAckFrame(s: seq<bv8>): seq<bv8>
  {
    EncodeAck(s + Big32(CrcFold(CRC_INIT, s))) + [END_OF_ACK]
  }

  // ---------------------------------------------------------------------------------------
  // Random-access decoding (Slay2AckDecodingBuffer::decodeAck)
  // ---------------------------------------------------------------------------------------

  /** Position of the first wire byte that holds bits of original byte k. */
  function AckOffset(k: nat): nat
  {
    4 * (k / 3) + k % 3
  }

  /** decodeAck's mask-and-shift of the two wire bytes x, y that hold a byte read at step st. */
  function AckCombine(x: bv8, y: bv8, st: nat): bv8
    requires st < 3
  {
    Shr(x & 0x3F, 2 * st) | Shl(y, 6 - 2 * st)
  }

  /** Slay2AckDecodingBuffer::decodeAck: original byte k of the wire bytes buf. */
  function DecodeAckAt(buf: seq<bv8>, k: nat): bv8
    requires AckOffset(k) + 1 < |buf|
  {
    AckCombine(buf[AckOffset(k)], buf[AckOffset(k) + 1], k % 3)
  }

  // ---------------------------------------------------------------------------------------
  // Streaming decoding, as a function of the wire bytes pushed since flush
  // ---------------------------------------------------------------------------------------

  /** Number of complete original bytes in m wire bytes (every 4th wire byte completes none). */
  function AckDecodedLength(m: nat): nat
  {
    m - (m + 3) / 4
  }

  lemma AckDecodedInBounds(m: nat, k: nat)
    requires k < AckDecodedLength(m)
    ensures AckOffset(k) + 1 < m
  {
  }

  /** The complete bytes a streaming decoder holds after the wire bytes w. */
  function DecodeAckStream(w: seq<bv8>): (s: seq<bv8>)
    ensures |s| == AckDecodedLength(|w|)
  {
    seq(AckDecodedLength(|w|), k requires 0 <= k < AckDecodedLength(|w|) =>
      AckDecodedInBounds(|w|, k); DecodeAckAt(w, k))
  }

  /** The partial byte p completed by wire byte c at decoder step t (the decoder's `c << left`). */
  function AckFill(p: bv8, c: bv8, t: nat): bv8
    requires 1 <= t <= 3
  {
    p | Shl(c & 0x3F, 8 - 2 * t)
  }

  /** The partially assembled byte the decoder keeps at buffer[count] when step != 0. */
  function AckPartial(w: seq<bv8>): bv8
    requires |w| % 4 != 0
  {
    Shr(w[|w| - 1] & 0x3F, 2 * (|w| % 4 - 1))
  }

  // ---------------------------------------------------------------------------------------
  // Bit-level facts, one concrete step at a time
  // ---------------------------------------------------------------------------------------

  /** The first wire byte of byte c pushed at step st, after the seed a of the byte before it. */
  function AckLowByte(a: bv8, c: bv8, st: nat): bv8
    requires st < 3
  {
    if st == 0 then AckLow(c, 0) else AckHigh(a, st - 1) | AckLow(c, st)
  }

  // decodeAck reads back byte c at each step st: one small bit-vector fact per step.
  lemma AckJoinAt0(a: bv8, c: bv8, st: nat)
    requires st == 0
    ensures AckCombine(AckLowByte(a, c, st), AckHigh(c, st), st) == c
  {
  }

  lemma AckJoinAt1(a: bv8, c: bv8, st: nat)
    requires st == 1
    ensures AckCombine(AckLowByte(a, c, st), AckHigh(c, st), st) == c
  {
  }

  lemma AckJoinAt2(a: bv8, c: bv8, st: nat)
    requires st == 2
    ensures AckCombine(AckLowByte(a, c, st), AckHigh(c, st), st) == c
  {
  }

  /** decodeAck reads back byte c from the two wire bytes pushAck wrote for it. */
  lemma AckJoin(a: bv8, c: bv8, st: nat)
    requires st < 3
    ensures AckCombine(AckLowByte(a, c, st), AckHigh(c, st), st) == c
  {
    match st
    case 0 => AckJoinAt0(a, c, st);
    case 1 => AckJoinAt1(a, c, st);
    case 2 => AckJoinAt2(a, c, st);
  }

  // Bits a later byte ORs into a seeded wire byte lie above those decodeAck keeps, per step.
  lemma AckLaterBitsIgnoredAt0(x: bv8, y: bv8, c: bv8, st: nat)
    requires st == 0
    ensures AckCombine(x, y | AckLow(c, st + 1), st) == AckCombine(x, y, st)
  {
  }

  lemma AckLaterBitsIgnoredAt1(x: bv8, y: bv8, c: bv8, st: nat)
    requires st == 1
    ensures AckCombine(x, y | AckLow(c, st + 1), st) == AckCombine(x, y, st)
  {
  }

  /** Bits a later byte ORs into a seeded wire byte lie above those decodeAck keeps. */
  lemma AckLaterBitsIgnored(x: bv8, y: bv8, c: bv8, st: nat)
    requires st < 2
    ensures AckCombine(x, y | AckLow(c, st + 1), st) == AckCombine(x, y, st)
  {
    match st
    case 0 => AckLaterBitsIgnoredAt0(x, y, c, st);
    case 1 => AckLaterBitsIgnoredAt1(x, y, c, st);
  }

  /** Masking a wire byte's tag bits does not matter once the byte is shifted up by 8 - 2t. */
  lemma AckTagShiftedOut(c: bv8, t: nat)
    requires 1 <= t <= 3
    ensures Shl(c & 0x3F, 8 - 2 * t) == Shl(c, 6 - 2 * (t - 1))
  {
  }

  /** Completing a partial byte read at step t - 1 gives decodeAck's formula for that step. */
  lemma AckCompletesBits(x: bv8, c: bv8, t: nat)
    requires 1 <= t <= 3
    ensures AckFill(Shr(x & 0x3F, 2 * (t - 1)), c, t) == AckCombine(x, c, t - 1)
  {
    AckTagShiftedOut(c, t);
  }

  /**
   * The streaming decoder's completion of its partial byte by wire byte c is decodeAck's
   * formula applied to the last two wire bytes.
   */
  lemma AckCompletes(w: seq<bv8>, c: bv8)
    requires |w| % 4 != 0
    ensures AckFill(AckPartial(w), c, |w| % 4) == AckCombine(w[|w| - 1], c, |w| % 4 - 1)
  {
    var t := |w| % 4;
    var x := w[|w| - 1];
    assert AckPartial(w) == Shr(x & 0x3F, 2 * (t - 1));
    AckCompletesBits(x, c, t);
  }

  // ---------------------------------------------------------------------------------------
  // Offsets and lengths
  // ---------------------------------------------------------------------------------------

  /** The last original byte of n occupies the last two wire bytes of EncodeAck. */
  lemma AckLastOffset(n: nat)
    requires n >= 1
    ensures AckOffset(n - 1) + 2 == n + (n + 2) / 3
    ensures (n - 1) % 3 == 0 ==> AckOffset(n - 1) == (n - 1) + (n + 1) / 3
    ensures (n - 1) % 3 != 0 ==> AckOffset(n - 1) + 1 == (n - 1) + (n + 1) / 3
  {
    var q, r := (n - 1) / 3, (n - 1) % 3;
    assert n - 1 == 3 * q + r;
    assert (n + 2) / 3 == q + 1;
    if r == 0 {
      assert (n + 1) / 3 == q;
    } else {
      assert (n + 1) / 3 == q + 1;
    }
  }

  lemma AckOffsetMonotone(j: nat, k: nat)
    requires j < k
    ensures AckOffset(j) < AckOffset(k)
  {
  }

  /** Encoding n bytes gives wire bytes from which exactly n bytes complete. */
  lemma AckEncodedLength(n: nat)
    ensures AckDecodedLength(n + (n + 2) / 3) == n
  {
    var q, r := n / 3, n % 3;
    assert n == 3 * q + r;
    if r == 0 {
      assert (n + 2) / 3 == q;
      assert (4 * q + 3) / 4 == q;
    } else {
      assert (n + 2) / 3 == q + 1;
      assert (4 * q + r + 1 + 3) / 4 == q + 1;
    }
  }

  /** When wire byte m+1 completes a byte, it is the byte at position AckDecodedLength(m). */
  lemma AckNextOffset(m: nat)
    requires m % 4 != 0
    ensures AckOffset(AckDecodedLength(m)) == m - 1
    ensures AckDecodedLength(m) % 3 == m % 4 - 1
    ensures AckDecodedLength(m + 1) == AckDecodedLength(m) + 1
    ensures (m - 1) % 4 == m % 4 - 1
  {
    var q, t := m / 4, m % 4;
    assert m == 4 * q + t;
    assert (m + 3) / 4 == q + 1;
    assert (m + 4) / 4 == q + 1;
    var k := AckDecodedLength(m);
    assert k == 3 * q + (t - 1);
    assert k / 3 == q && k % 3 == t - 1;
  }

  lemma AckNoCompletion(m: nat)
    requires m % 4 == 0
    ensures AckDecodedLength(m + 1) == AckDecodedLength(m)
  {
    assert (m + 4) / 4 == (m + 3) / 4 + 1;
  }

  // ---------------------------------------------------------------------------------------
  // Round trips
  // ---------------------------------------------------------------------------------------

  /** pushAck grows the wire by one byte, and by a second one when it completes a group. */
  lemma {:induction false} EncodeAckLength(s: seq<bv8>)
    ensures |EncodeAck(s)| == |s| + (|s| + 2) / 3
    decreases |s|
  {
    if s != [] {
      var n := |s|;
      EncodeAckLength(s[..n - 1]);
      AckLastOffset(n);
    }
  }

  /** The last wire byte of EncodeAck is the seed left by the last pushed byte. */
  lemma AckLastByte(s: seq<bv8>)
    requires |s| >= 1
    ensures |EncodeAck(s)| >= 1
    ensures EncodeAck(s)[|EncodeAck(s)| - 1] == AckHigh(s[|s| - 1], (|s| - 1) % 3)
  {
  }

  /** pushAck at a group start: byte c takes two fresh wire bytes. */
  lemma EncodeAckPushStart(s: seq<bv8>, c: bv8)
    requires |s| % 3 == 0
    ensures EncodeAck(s + [c]) == EncodeAck(s) + [AckLow(c, 0), AckHigh(c, 0)]
  {
    assert (s + [c])[..|s|] == s;
  }

  /** pushAck inside a group: byte c is ORed into the seed left by the byte before it. */
  lemma EncodeAckPushMid(s: seq<bv8>, c: bv8)
    requires |s| % 3 != 0
    ensures |EncodeAck(s)| >= 1
    ensures EncodeAck(s + [c]) == EncodeAck(s)[..|EncodeAck(s)| - 1]
      + [EncodeAck(s)[|EncodeAck(s)| - 1] | AckLow(c, |s| % 3), AckHigh(c, |s| % 3)]
  {
    assert (s + [c])[..|s|] == s;
  }

  /** pushAck at a group start, byte by byte: the wire grows by two bytes. */
  lemma EncodeAckPushStartBytes(s: seq<bv8>, c: bv8)
    requires |s| % 3 == 0
    ensures var E, E' := EncodeAck(s), EncodeAck(s + [c]);
            |E'| == |E| + 2 && E'[..|E|] == E && E'[|E|] == AckLow(c, 0) && E'[|E| + 1] == AckHigh(c, 0)
  {
    EncodeAckPushStart(s, c);
  }

  /** pushAck inside a group, byte by byte: the wire grows by one byte and its old last byte is ORed. */
  lemma EncodeAckPushMidBytes(s: seq<bv8>, c: bv8)
    requires |s| % 3 != 0
    ensures var E, E' := EncodeAck(s), EncodeAck(s + [c]);
            |E| >= 1 && |E'| == |E| + 1 && E'[..|E| - 1] == E[..|E| - 1] &&
            E'[|E| - 1] == E[|E| - 1] | AckLow(c, |s| % 3) && E'[|E|] == AckHigh(c, |s| % 3)
  {
    EncodeAckPushMid(s, c);
  }

  /** Where the wire bytes of byte n begin: right after the encoding of n bytes, or on its seed. */
  lemma AckOffsetAtEnd(n: nat)
    ensures n % 3 == 0 ==> AckOffset(n) == n + (n + 2) / 3
    ensures n % 3 != 0 ==> AckOffset(n) + 1 == n + (n + 2) / 3
  {
    var q, r := n / 3, n % 3;
    assert n == 3 * q + r;
    if r == 0 {
      assert (n + 2) / 3 == q;
    } else {
      assert (n + 2) / 3 == q + 1;
    }
  }

  /** Consecutive original bytes sit at consecutive offsets, except across a group boundary. */
  lemma AckOffsetNext(k: nat)
    ensures (k + 1) % 3 != 0 ==> AckOffset(k + 1) == AckOffset(k) + 1
    ensures (k + 1) % 3 == 0 ==> AckOffset(k + 1) == AckOffset(k) + 2
  {
  }

  /** decodeAck looks at two wire bytes only. */
  lemma DecodeAckAtSameBytes(b1: seq<bv8>, b2: seq<bv8>, k: nat)
    requires AckOffset(k) + 1 < |b1| && AckOffset(k) + 1 < |b2|
    requires b1[AckOffset(k)] == b2[AckOffset(k)] && b1[AckOffset(k) + 1] == b2[AckOffset(k) + 1]
    ensures DecodeAckAt(b1, k) == DecodeAckAt(b2, k)
  {
  }

  /**
   * decodeAck of byte k ignores what the byte after it, pushed at the next step st of the same
   * group, ORs into their shared wire byte, the last of b1.
   */
  lemma DecodeAckAtLater(b1: seq<bv8>, b2: seq<bv8>, k: nat, c: bv8, st: nat)
    requires st == k % 3 + 1 < 3 && AckOffset(k) + 2 == |b1| && |b2| == |b1| + 1
    requires b2[|b1| - 2] == b1[|b1| - 2] && b2[|b1| - 1] == b1[|b1| - 1] | AckLow(c, st)
    ensures DecodeAckAt(b2, k) == DecodeAckAt(b1, k)
  {
    var o := AckOffset(k);
    assert b2[o] == b1[o] && b2[o + 1] == b1[o + 1] | AckLow(c, k % 3 + 1);
    AckLaterBitsIgnored(b1[o], b1[o + 1], c, k % 3);
  }

  /** decodeAck of the two wire bytes written for byte c gives c. */
  lemma DecodeAckAtWritten(buf: seq<bv8>, k: nat, a: bv8, c: bv8)
    requires AckOffset(k) + 1 < |buf|
    requires buf[AckOffset(k)] == AckLowByte(a, c, k % 3)
    requires buf[AckOffset(k) + 1] == AckHigh(c, k % 3)
    ensures DecodeAckAt(buf, k) == c
  {
    var st := k % 3;
    assert buf[AckOffset(k)] == AckLowByte(a, c, st);
    AckJoin(a, c, st);
  }

  /** decodeAck reads back a byte pushed at a group start. */
  lemma AckDecodeEncodedPushedStart(s: seq<bv8>, c: bv8)
    requires |s| % 3 == 0
    ensures AckOffset(|s|) + 1 < |EncodeAck(s + [c])|
    ensures DecodeAckAt(EncodeAck(s + [c]), |s|) == c
  {
    EncodeAckLength(s);
    AckOffsetAtEnd(|s|);
    EncodeAckPushStartBytes(s, c);
    var E' := EncodeAck(s + [c]);
    assert E'[AckOffset(|s|)] == AckLowByte(0, c, 0);
    DecodeAckAtWritten(E', |s|, 0, c);
  }

  /** decodeAck of the two wire bytes written for byte c inside a group, after the seed of a, gives c. */
  lemma DecodeAckAtWrittenMid(buf: seq<bv8>, k: nat, a: bv8, c: bv8, before: nat)
    requires k % 3 != 0 && before + 1 == k % 3 && AckOffset(k) + 1 < |buf|
    requires buf[AckOffset(k)] == AckHigh(a, before) | AckLow(c, k % 3)
    requires buf[AckOffset(k) + 1] == AckHigh(c, k % 3)
    ensures DecodeAckAt(buf, k) == c
  {
    var st := k % 3;
    assert buf[AckOffset(k)] == AckLowByte(a, c, st);
    AckJoin(a, c, st);
  }

  /** decodeAck reads back a byte pushed inside a group. */
  lemma AckDecodeEncodedPushedMid(s: seq<bv8>, c: bv8)
    requires |s| % 3 != 0
    ensures AckOffset(|s|) + 1 < |EncodeAck(s + [c])|
    ensures DecodeAckAt(EncodeAck(s + [c]), |s|) == c
  {
    var n := |s|;
    EncodeAckLength(s);
    AckOffsetAtEnd(n);
    AckLastByte(s);
    EncodeAckPushMidBytes(s, c);
    assert (n - 1) % 3 + 1 == n % 3;
    DecodeAckAtWrittenMid(EncodeAck(s + [c]), n, s[n - 1], c, (n - 1) % 3);
  }

  /** decodeAck reads back the byte pushed last. */
  lemma AckDecodeEncodedPushed(s: seq<bv8>, c: bv8)
    ensures AckOffset(|s|) + 1 < |EncodeAck(s + [c])|
    ensures DecodeAckAt(EncodeAck(s + [c]), |s|) == c
  {
    if |s| % 3 == 0 {
      AckDecodeEncodedPushedStart(s, c);
    } else {
      AckDecodeEncodedPushedMid(s, c);
    }
  }

  /** Every byte before the one pushed last has both its wire bytes inside the encoding. */
  lemma AckEarlierInBounds(n: nat, k: nat)
    requires k < n
    ensures AckOffset(k) + 2 <= n + (n + 2) / 3
    ensures n % 3 != 0 && k + 1 < n ==> AckOffset(k) + 2 < n + (n + 2) / 3
  {
    AckOffsetAtEnd(n);
    AckOffsetNext(n - 1);
    if k < n - 1 {
      AckOffsetMonotone(k, n - 1);
    }
  }

  /** A push at a group start leaves every earlier wire byte, so every earlier decodeAck, unchanged. */
  lemma AckDecodeEncodedKeptStart(s: seq<bv8>, c: bv8, k: nat)
    requires k < |s| && |s| % 3 == 0
    ensures AckOffset(k) + 1 < |EncodeAck(s)|
    ensures AckOffset(k) + 1 < |EncodeAck(s + [c])|
    ensures DecodeAckAt(EncodeAck(s + [c]), k) == DecodeAckAt(EncodeAck(s), k)
  {
    var E, E', i := EncodeAck(s), EncodeAck(s + [c]), AckOffset(k);
    EncodeAckLength(s);
    AckEarlierInBounds(|s|, k);
    EncodeAckPushStartBytes(s, c);
    assert E'[i] == E'[..|E|][i] && E'[i + 1] == E'[..|E|][i + 1];
    DecodeAckAtSameBytes(E, E', k);
  }

  /** A push inside a group leaves decodeAck of bytes before its predecessor unchanged. */
  lemma AckDecodeEncodedKeptMid(s: seq<bv8>, c: bv8, k: nat)
    requires k + 1 < |s| && |s| % 3 != 0
    ensures AckOffset(k) + 1 < |EncodeAck(s)|
    ensures AckOffset(k) + 1 < |EncodeAck(s + [c])|
    ensures DecodeAckAt(EncodeAck(s + [c]), k) == DecodeAckAt(EncodeAck(s), k)
  {
    var E, E', i := EncodeAck(s), EncodeAck(s + [c]), AckOffset(k);
    EncodeAckLength(s);
    AckEarlierInBounds(|s|, k);
    EncodeAckPushMidBytes(s, c);
    assert E'[i] == E'[..|E| - 1][i] && E'[i + 1] == E'[..|E| - 1][i + 1];
    assert E[i] == E[..|E| - 1][i] && E[i + 1] == E[..|E| - 1][i + 1];
    DecodeAckAtSameBytes(E, E', k);
  }

  /** Inside a group, the byte before the last one pushed ends two wire bytes before the end. */
  lemma AckPredecessorOffset(n: nat)
    requires n % 3 != 0
    ensures AckOffset(n - 1) + 2 == n + (n + 2) / 3
    ensures (n - 1) % 3 + 1 == n % 3
  {
    AckOffsetAtEnd(n);
    AckOffsetNext(n - 1);
  }

  /** A push inside a group leaves decodeAck of its predecessor unchanged. */
  lemma AckDecodeEncodedKeptPredecessor(s: seq<bv8>, c: bv8)
    requires |s| % 3 != 0
    ensures AckOffset(|s| - 1) + 1 < |EncodeAck(s)|
    ensures AckOffset(|s| - 1) + 1 < |EncodeAck(s + [c])|
    ensures DecodeAckAt(EncodeAck(s + [c]), |s| - 1) == DecodeAckAt(EncodeAck(s), |s| - 1)
  {
    var E, E' := EncodeAck(s), EncodeAck(s + [c]);
    EncodeAckLength(s);
    AckPredecessorOffset(|s|);
    EncodeAckPushMidBytes(s, c);
    assert E'[|E| - 2] == E'[..|E| - 1][|E| - 2] && E[|E| - 2] == E[..|E| - 1][|E| - 2];
    DecodeAckAtLater(E, E', |s| - 1, c, |s| % 3);
  }

  /** Pushing one more byte does not change what decodeAck reads for an earlier byte. */
  lemma AckDecodeEncodedKept(s: seq<bv8>, c: bv8, k: nat)
    requires k < |s|
    ensures AckOffset(k) + 1 < |EncodeAck(s)|
    ensures AckOffset(k) + 1 < |EncodeAck(s + [c])|
    ensures DecodeAckAt(EncodeAck(s + [c]), k) == DecodeAckAt(EncodeAck(s), k)
  {
    if |s| % 3 == 0 {
      AckDecodeEncodedKeptStart(s, c, k);
    } else if k + 1 < |s| {
      AckDecodeEncodedKeptMid(s, c, k);
    } else {
      AckDecodeEncodedKeptPredecessor(s, c);
    }
  }

  /** Random access agrees with streaming encoding: decodeAck reads back every pushed byte. */
  lemma {:induction false} DecodeEncodedAck(s: seq<bv8>, k: nat)
    requires k < |s|
    ensures AckOffset(k) + 1 < |EncodeAck(s)|
    ensures DecodeAckAt(EncodeAck(s), k) == s[k]
    decreases |s|
  {
    var pre, c := s[..|s| - 1], s[|s| - 1];
    assert pre + [c] == s;
    if k == |s| - 1 {
      AckDecodeEncodedPushed(pre, c);
    } else {
      DecodeEncodedAck(pre, k);
      AckDecodeEncodedKept(pre, c, k);
    }
  }

  /** Feeding the encoder's output to the streaming decoder gives back exactly the bytes pushed. */
  lemma AckRoundTrip(s: seq<bv8>)
    ensures DecodeAckStream(EncodeAck(s)) == s
  {
    var E := EncodeAck(s);
    EncodeAckLength(s);
    AckEncodedLength(|s|);
    forall k | 0 <= k < |s|
      ensures DecodeAckStream(E)[k] == s[k]
    {
      DecodeEncodedAck(s, k);
    }
  }

  /** A new wire byte does not change the bytes the decoder had already completed. */
  lemma AckStreamKeeps(w: seq<bv8>, c: bv8, k: nat)
    requires k < AckDecodedLength(|w|)
    ensures AckOffset(k) + 1 < |w|
    ensures DecodeAckAt(w + [c], k) == DecodeAckAt(w, k)
  {
    AckDecodedInBounds(|w|, k);
    var i := AckOffset(k);
    assert (w + [c])[i] == w[i] && (w + [c])[i + 1] == w[i + 1];
  }

  /** Inside a group, a new wire byte completes the partial byte with its six payload bits. */
  lemma AckStreamCompletes(w: seq<bv8>, c: bv8)
    requires |w| % 4 != 0
    ensures AckOffset(AckDecodedLength(|w|)) + 1 < |w + [c]|
    ensures DecodeAckAt(w + [c], AckDecodedLength(|w|)) == AckFill(AckPartial(w), c, |w| % 4)
  {
    var m := |w|;
    var K := AckDecodedLength(m);
    AckNextOffset(m);
    var b := w + [c];
    assert b[AckOffset(K)] == w[m - 1] && b[AckOffset(K) + 1] == c;
    assert DecodeAckAt(b, K) == AckCombine(w[m - 1], c, m % 4 - 1);
    AckCompletes(w, c);
  }

  /** One more wire byte either starts a new group or completes exactly one more byte. */
  lemma AckStreamPush(w: seq<bv8>, c: bv8)
    ensures |w| % 4 == 0 ==> DecodeAckStream(w + [c]) == DecodeAckStream(w)
    ensures |w| % 4 != 0 ==>
      DecodeAckStream(w + [c]) == DecodeAckStream(w) + [AckFill(AckPartial(w), c, |w| % 4)]
  {
    var m := |w|;
    var D, D' := DecodeAckStream(w), DecodeAckStream(w + [c]);
    forall k | 0 <= k < |D|
      ensures D'[k] == D[k]
    {
      AckStreamKeeps(w, c, k);
    }
    if m % 4 == 0 {
      AckNoCompletion(m);
    } else {
      AckNextOffset(m);
      AckStreamCompletes(w, c);
      assert D' == D + [D'[|D|]];
    }
  }

  // ---------------------------------------------------------------------------------------
  // Tag space
  // ---------------------------------------------------------------------------------------

  /** Both wire bytes of a pushed byte carry the tag, and ORing bits into a tagged byte keeps it. */
  lemma AckBytesTagged(x: bv8, c: bv8, st: nat)
    requires st < 3 && IsAck(x)
    ensures IsAck(AckLow(c, st)) && IsAck(AckHigh(c, st)) && IsAck(x | AckLow(c, st))
  {
  }

  /** Every wire byte the encoder writes is 01xxxxxx, in 0x40..0x7F: never SYNC and never a terminator. */
  lemma {:induction false} EncodeAckTagged(s: seq<bv8>)
    ensures forall i :: 0 <= i < |EncodeAck(s)| ==> IsAck(EncodeAck(s)[i])
    decreases |s|
  {
    if s != [] {
      var prev := EncodeAck(s[..|s| - 1]);
      var c := s[|s| - 1];
      var st := (|s| - 1) % 3;
      EncodeAckTagged(s[..|s| - 1]);
      if st == 0 {
        AckBytesTagged(AckLow(c, 0), c, 0);
      } else {
        AckBytesTagged(prev[|prev| - 1], c, st);
      }
    }
  }
}
