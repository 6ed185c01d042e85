/** Bytes as Node's Buffer holds them: unsigned 8-bit integers, plus the
    little-endian and UTF-8 encodings the protocol engine relies on. */
module Bytes {

  /** One Buffer element. */
  type byte = x: int | 0 <= x < 256

  /** `256^k`, the number of values `k` bytes can hold. */
  function Pow256(k: nat): (r: nat)
    ensures r > 0
  {
    if k == 0 then 1 else 256 * Pow256(k - 1)
  }

  /** What a Buffer element assignment `buf[i] = x` stores for an integer `x`
      (the ToUint8 conversion: reduction modulo 256). */
  function ToUint8(x: int): (r: byte)
    ensures 0 <= x < 256 ==> r == x
    ensures (r - x) % 256 == 0
  {
    x % 256
  }

  /** The `width` low-order bytes of `n`, least significant first, as
      writeUInt16LE / writeUInt32LE lay them out. */
  function LE(n: nat, width: nat): (r: seq<byte>)
    ensures |r| == width
    decreases width
  {
    if width == 0 then [] else [n % 256] + LE(n / 256, width - 1)
  }

  /** The unsigned value of little-endian bytes, as readUInt16LE / readUInt32LE compute it. */
  function FromLE(s: seq<byte>): nat
    decreases |s|
  {
    if s == [] then 0 else s[0] + 256 * FromLE(s[1..])
  }

  /** Reading back what was written little-endian gives the value, as long as it fits. */
  lemma {:induction false} FromLEOfLE(n: nat, width: nat)
    requires n < Pow256(width)
    ensures FromLE(LE(n, width)) == n
    decreases width
  {
    if width > 0 {
      var rest := LE(n / 256, width - 1);
      assert LE(n, width) == [n % 256] + rest;
      assert (LE(n, width))[1..] == rest;
      FromLEOfLE(n / 256, width - 1);
    }
  }

  /** The value read from `k` bytes is below `256^k`. */
  lemma {:induction false} FromLEBound(s: seq<byte>)
    ensures FromLE(s) < Pow256(|s|)
    decreases |s|
  {
    if s != [] {
      FromLEBound(s[1..]);
    }
  }

  /** Two's-complement value of the unsigned `u` stored in `width` bytes,
      as readInt8 / readInt16LE / readInt32LE compute it. */
  function Signed(u: nat, width: nat): int
  {
    if width > 0 && u >= Pow256(width) / 2 then u - Pow256(width) else u
  }

  /** The unsigned bit pattern that writeInt8 / writeInt16LE / writeInt32LE
      store for a signed value of the width's range (two's complement). */
  function Unsigned(n: int, width: nat): nat
    requires 0 <= n + Pow256(width)
  {
    if n < 0 then n + Pow256(width) else n
  }

  lemma SignedOfUnsigned(n: int, width: nat)
    requires width > 0
    requires -(Pow256(width) / 2) <= n < Pow256(width) / 2
    ensures Unsigned(n, width) < Pow256(width)
    ensures Signed(Unsigned(n, width), width) == n
  {
    var p := Pow256(width);
    var h := 128 * Pow256(width - 1);
    assert p == 2 * h;
    assert p / 2 == h;
  }

  /** The UTF-8 encoding of one Unicode scalar value. */
  function Utf8Char(c: char): (r: seq<byte>)
    ensures 1 <= |r| <= 4
    ensures c as int < 0x80 <==> r == [c as int]
  {
    var u := c as int;
    if u < 0x80 then [u]
    else if u < 0x800 then [0xC0 + u / 0x40, 0x80 + u % 0x40]
    else if u < 0x10000 then [0xE0 + u / 0x1000, 0x80 + (u / 0x40) % 0x40, 0x80 + u % 0x40]
    else [0xF0 + u / 0x40000, 0x80 + (u / 0x1000) % 0x40, 0x80 + (u / 0x40) % 0x40, 0x80 + u % 0x40]
  }

  /** The bytes of `new Buffer(s)`: the UTF-8 encoding of a string. */
  function Utf8(s: string): seq<byte>
    decreases |s|
  {
    if s == [] then [] else Utf8Char(s[0]) + Utf8(s[1..])
  }

  predicate IsAscii(s: string)
  {
    forall i :: 0 <= i < |s| ==> s[i] as int < 0x80
  }

  /** On ASCII text UTF-8 is one byte per character, equal to its code. */
  lemma {:induction false} Utf8OfAscii(s: string)
    requires IsAscii(s)
    ensures |Utf8(s)| == |s|
    ensures forall i :: 0 <= i < |s| ==> Utf8(s)[i] == s[i] as int
    decreases |s|
  {
    if s != [] {
      assert IsAscii(s[1..]) by {
        forall i | 0 <= i < |s[1..]| ensures s[1..][i] as int < 0x80 {
          assert s[1..][i] == s[i + 1];
        }
      }
      Utf8OfAscii(s[1..]);
    }
  }

  lemma {:induction false} Utf8Append(a: string, b: string)
    ensures Utf8(a + b) == Utf8(a) + Utf8(b)
    decreases |a|
  {
    if a != [] {
      assert (a + b)[1..] == a[1..] + b;
      Utf8Append(a[1..], b);
    } else {
      assert a + b == b;
    }
  }

  /** The bytes `new Buffer(String.fromCharCode(n))` holds. `fromCharCode`
      reduces `n` to a UTF-16 code unit; Buffer then encodes it as UTF-8,
      and a lone surrogate code unit becomes the replacement character. */
  function CodeUnitUtf8(n: nat): (r: seq<byte>)
    ensures 1 <= |r| <= 3
  {
    var u := n % 0x10000;
    if u < 0x80 then [u]
    else if u < 0x800 then [0xC0 + u / 0x40, 0x80 + u % 0x40]
    else if 0xD800 <= u < 0xE000 then [0xEF, 0xBF, 0xBD]
    else [0xE0 + u / 0x1000, 0x80 + (u / 0x40) % 0x40, 0x80 + u % 0x40]
  }

  /** A code below 128 contributes the one byte `n`; from 128 up to 2047 it
      contributes two bytes, a lead byte 0xC2..0xDF and a continuation byte. */
  lemma CodeUnitUtf8Width(n: nat)
    ensures n < 0x80 ==> CodeUnitUtf8(n) == [n]
    ensures 0x80 <= n < 0x800 ==>
      |CodeUnitUtf8(n)| == 2 && 0xC2 <= CodeUnitUtf8(n)[0] <= 0xDF && 0x80 <= CodeUnitUtf8(n)[1] < 0xC0
  {
    if n < 0x800 {
      assert n % 0x10000 == n;
    }
  }
}
