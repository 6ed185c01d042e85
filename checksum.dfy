/** The MAVLink v1 frame checksum (CRC-16/MCRF4XX, which the source calls
    "X25": reflected polynomial 0x1021, initial value 0xFFFF, no final XOR)
    and the one-byte "CRC extra" seeds mixed into it. */
module Checksum {
  import opened Bytes

  /** The 16-bit accumulator before any byte is taken in. */
  const CrcInit: bv16 := 0xFFFF

  /** The bit operations of calculateChecksum's loop body on an 8-bit input. */
  function Mix(crc: bv16, b: bv8): bv16
  {
    var tmp := (b as bv16) ^ (crc & 0xFF);
    var t := (tmp ^ (tmp << 4)) & 0xFF;
    (crc >> 8) ^ (t << 8) ^ (t << 3) ^ (t >> 4)
  }

  /** One pass of calculateChecksum's loop body: mix byte `b` into `crc`. */
  function CrcStep(crc: bv16, b: byte): bv16
  {
    Mix(crc, b as bv8)
  }

  /** The byte Mix derives from the input byte and the low half of the accumulator. */
  function MixKey(crc: bv16, x: bv8): bv8
  {
    var tmp := x ^ ((crc & 0xFF) as bv8);
    tmp ^ (tmp << 4)
  }

  function HighHalf(r: bv16): bv8
  {
    (r >> 8) as bv8
  }

  /** The high half of Mix's result is `t ^ (t >> 5)` for the key `t`. */
  lemma MixHigh(crc: bv16, x: bv8)
    ensures HighHalf(Mix(crc, x)) == MixKey(crc, x) ^ (MixKey(crc, x) >> 5)
  {
  }

  /** Recovers the key from the high half of Mix's result. */
  function KeyOfHigh(h: bv8): bv8
  {
    h ^ (h >> 5)
  }

  lemma KeyOfHighInverse(t: bv8)
    ensures KeyOfHigh(t ^ (t >> 5)) == t
  {
  }

  /** Recovers the input byte from the key and the accumulator. */
  function ByteOfKey(crc: bv16, t: bv8): bv8
  {
    (t ^ (t << 4)) ^ ((crc & 0xFF) as bv8)
  }

  lemma ByteOfKeyInverse(crc: bv16, x: bv8)
    ensures ByteOfKey(crc, MixKey(crc, x)) == x
  {
  }

  /** Recovers the input byte of Mix from the accumulator and the result. */
  function Unmix(crc: bv16, r: bv16): bv8
  {
    ByteOfKey(crc, KeyOfHigh(HighHalf(r)))
  }

  lemma UnmixMix(crc: bv16, x: bv8)
    ensures Unmix(crc, Mix(crc, x)) == x
  {
    MixHigh(crc, x);
    KeyOfHighInverse(MixKey(crc, x));
    ByteOfKeyInverse(crc, x);
  }

  lemma MixInjective(crc: bv16, x: bv8, y: bv8)
    ensures Mix(crc, x) == Mix(crc, y) ==> x == y
  {
    UnmixMix(crc, x);
    UnmixMix(crc, y);
  }

  lemma ByteOfBv8(x: byte)
    ensures (x as bv8) as int == x
  {
    assert 0 <= x < 256;
  }

  /** From a fixed accumulator, different bytes lead to different
      accumulators: a single changed byte at the end is always detected. */
  lemma CrcStepInjective(crc: bv16, a: byte, b: byte)
    ensures CrcStep(crc, a) == CrcStep(crc, b) <==> a == b
  {
    MixInjective(crc, a as bv8, b as bv8);
    ByteOfBv8(a);
    ByteOfBv8(b);
  }

  /** Recovers the accumulator a step started from, given the byte it took
      in and the accumulator it produced: the high half of the result gives
      the key, the key and the byte give the low half of the old
      accumulator, and the rest of the result is its high half. */
  function Unstep(r: bv16, x: bv8): bv16
  {
    UnstepWithKey(r, x, KeyOfHigh(HighHalf(r)))
  }

  /** The accumulator a step started from, once its key `t` is known. */
  function UnstepWithKey(r: bv16, x: bv8, t: bv8): bv16
  {
    var tt := t as bv16;
    var high := (r ^ (tt << 8) ^ (tt << 3) ^ (tt >> 4)) & 0xFF;
    (high << 8) | ((t ^ (t << 4) ^ x) as bv16)
  }

  lemma UnstepWithKeyMix(crc: bv16, x: bv8)
    ensures UnstepWithKey(Mix(crc, x), x, MixKey(crc, x)) == crc
  {
  }

  lemma UnstepMix(crc: bv16, x: bv8)
    ensures Unstep(Mix(crc, x), x) == crc
  {
    MixHigh(crc, x);
    KeyOfHighInverse(MixKey(crc, x));
    UnstepWithKeyMix(crc, x);
  }

  /** For a fixed byte, different accumulators lead to different accumulators. */
  lemma CrcStepInjectiveInCrc(c1: bv16, c2: bv16, b: byte)
    ensures CrcStep(c1, b) == CrcStep(c2, b) <==> c1 == c2
  {
    UnstepMix(c1, b as bv8);
    UnstepMix(c2, b as bv8);
  }

  /** Folding the same bytes from different accumulators never meets. */
  lemma {:induction false} CrcFromInjective(c1: bv16, c2: bv16, s: seq<byte>)
    ensures CrcFrom(c1, s) == CrcFrom(c2, s) <==> c1 == c2
    decreases |s|
  {
    if s != [] {
      CrcFromInjective(CrcStep(c1, s[0]), CrcStep(c2, s[0]), s[1..]);
      CrcStepInjectiveInCrc(c1, c2, s[0]);
    }
  }

  /** Every single-byte corruption is detected: two buffers that differ in
      exactly one byte, wherever it is, have different checksums. */
  lemma SingleByteCorruptionDetected(p: seq<byte>, q: seq<byte>, x: byte, y: byte)
    ensures Crc(p + [x] + q) == Crc(p + [y] + q) <==> x == y
  {
    CrcFromAppend(CrcInit, p + [x], q);
    CrcFromAppend(CrcInit, p + [y], q);
    CrcFromSnoc(CrcInit, p, x);
    CrcFromSnoc(CrcInit, p, y);
    CrcStepInjective(Crc(p), x, y);
    CrcFromInjective(CrcStep(Crc(p), x), CrcStep(Crc(p), y), q);
  }

  /** The accumulator after taking in the bytes of `s` in order, starting
      from `crc`: a left fold of CrcStep. */
  function CrcFrom(crc: bv16, s: seq<byte>): bv16
    decreases |s|
  {
    if s == [] then crc else CrcFrom(CrcStep(crc, s[0]), s[1..])
  }

  /** calculateChecksum(buffer) as a value. */
  function Crc(s: seq<byte>): bv16
  {
    CrcFrom(CrcInit, s)
  }

  /** Folding over a concatenation is folding over the second part from
      where the first part left the accumulator. */
  lemma {:induction false} CrcFromAppend(crc: bv16, a: seq<byte>, b: seq<byte>)
    ensures CrcFrom(crc, a + b) == CrcFrom(CrcFrom(crc, a), b)
    decreases |a|
  {
    if a == [] {
      assert a + b == b;
    } else {
      assert (a + b)[0] == a[0];
      assert (a + b)[1..] == a[1..] + b;
      CrcFromAppend(CrcStep(crc, a[0]), a[1..], b);
    }
  }

  /** The checksum of `a` followed by one more byte continues the checksum of `a` by one step. */
  lemma CrcFromSnoc(crc: bv16, a: seq<byte>, x: byte)
    ensures CrcFrom(crc, a + [x]) == CrcStep(CrcFrom(crc, a), x)
  {
    CrcFromAppend(crc, a, [x]);
    assert [x][1..] == [];
  }

  /** The checksum of a++b is the loop continued from the checksum of a. */
  lemma CrcAppend(a: seq<byte>, b: seq<byte>)
    ensures Crc(a + b) == CrcFrom(Crc(a), b)
  {
    CrcFromAppend(CrcInit, a, b);
  }

  /** calculateChecksum: an accumulator updated byte by byte. */
  method CalculateChecksum(buffer: seq<byte>) returns (checksum: bv16)
    ensures checksum == Crc(buffer)
    ensures buffer == [] ==> checksum == 0xFFFF
  {
    checksum := 0xFFFF;
    var i := 0;
    while i < |buffer|
      invariant 0 <= i <= |buffer|
      invariant checksum == CrcFrom(CrcInit, buffer[..i])
    {
      CrcFromSnoc(CrcInit, buffer[..i], buffer[i]);
      assert buffer[..i + 1] == buffer[..i] + [buffer[i]];
      checksum := CrcStep(checksum, buffer[i]);
      i := i + 1;
    }
    assert buffer[..i] == buffer;
  }

  /** The standard check value of CRC-16/MCRF4XX: the checksum of the ASCII
      text "123456789" is 0x6F91. */
  lemma ReferenceVector()
    ensures Crc([0x31, 0x32, 0x33, 0x34, 0x35, 0x36, 0x37, 0x38, 0x39]) == 0x6F91
  {
    var s: seq<byte> := [0x31, 0x32, 0x33, 0x34, 0x35, 0x36, 0x37, 0x38, 0x39];
    assert CrcStep(0xFFFF, 0x31) == 0x2F8D;
    assert CrcStep(0x2F8D, 0x32) == 0x4D53;
    assert CrcStep(0x4D53, 0x33) == 0x634B;
    assert CrcStep(0x634B, 0x34) == 0x8B13;
    assert CrcStep(0x8B13, 0x35) == 0x44BF;
    assert CrcStep(0x44BF, 0x36) == 0x198D;
    assert CrcStep(0x198D, 0x37) == 0x1AC8;
    assert CrcStep(0x1AC8, 0x38) == 0xF795;
    assert CrcStep(0xF795, 0x39) == 0x6F91;
  }

  /** The checksum depends on byte order, for example for the two bytes
      1 and 2: it is not a commutative sum. */
  lemma OrderSensitive()
    ensures Crc([0x01, 0x02]) != Crc([0x02, 0x01])
  {
    assert CrcStep(0xFFFF, 0x01) == 0x1E0E;
    assert CrcStep(0x1E0E, 0x02) == 0xCA72;
    assert CrcStep(0xFFFF, 0x02) == 0x2C95;
    assert CrcStep(0x2C95, 0x01) == 0xD281;
  }

  /** `(checksum & 0xFF) ^ (checksum >> 8)`: a 16-bit value folded to one byte. */
  function FoldToByte(c: bv16): bv8
  {
    ((c & 0xFF) as bv8) ^ ((c >> 8) as bv8)
  }

  /** Folding a value that already fits in a byte leaves it unchanged. */
  lemma FoldSmall(x: bv8)
    ensures FoldToByte(x as bv16) == x
  {
  }

  // ---------------------------------------------------------------------
  // The checksum on the wire: writeUInt16LE / readUInt16LE

  /** The first byte writeUInt16LE stores: the low half. */
  function LowByte(c: bv16): byte
  {
    (c & 0xFF) as int
  }

  /** The second byte writeUInt16LE stores: the high half. */
  function HighByte(c: bv16): byte
  {
    (c >> 8) as int
  }

  /** readUInt16LE on two bytes, as a 16-bit value. */
  function ReadUInt16LE(lo: byte, hi: byte): bv16
  {
    (lo as bv16) | ((hi as bv16) << 8)
  }

  lemma Bv16OfInt(x: bv16)
    ensures (x as int) as bv16 == x
  {
  }

  lemma LowByteBits(c: bv16)
    ensures LowByte(c) as bv16 == c & 0xFF
  {
    Bv16OfInt(c & 0xFF);
  }

  lemma HighByteBits(c: bv16)
    ensures HighByte(c) as bv16 == c >> 8
  {
    Bv16OfInt(c >> 8);
  }

  lemma LowHighJoin(c: bv16, l: bv16, h: bv16)
    requires l == c & 0xFF && h == c >> 8
    ensures l | (h << 8) == c
  {
  }

  /** Reading back the two bytes written for a checksum gives the checksum. */
  lemma ChecksumBytesRoundTrip(c: bv16)
    ensures ReadUInt16LE(LowByte(c), HighByte(c)) == c
  {
    LowByteBits(c);
    HighByteBits(c);
    var l := LowByte(c) as bv16;
    var h := HighByte(c) as bv16;
    LowHighJoin(c, l, h);
  }
}
