/**
 * Bytes and the little-endian integer fields of the serial frames
 * (the `<H`, `<I` and `<i` formats of Python's `struct` module).
 */
module Bytes {

  /** One octet on the wire. */
  type byte = b: int | 0 <= b < 256

  const TWO16: int := 0x1_0000
  const TWO32: int := 0x1_0000_0000

  /** A value of a 32-bit unsigned field. */
  type u32 = x: int | 0 <= x < 0x1_0000_0000

  /** A 16-bit unsigned value as `struct.pack("<H", x)` writes it. */
  function Le16(x: nat): (r: seq<byte>)
    requires x < TWO16
    ensures |r| == 2
  {
    [x % 256, x / 256]
  }

  /** A 32-bit unsigned value as `struct.pack("<I", x)` writes it. */
  function Le32(x: nat): (r: seq<byte>)
    requires x < TWO32
    ensures |r| == 4
  {
    [x % 256, (x / 256) % 256, (x / 256 / 256) % 256, x / 256 / 256 / 256]
  }

  /** The `<H` field at offset `i`. */
  function U16At(s: seq<byte>, i: nat): (r: nat)
    requires i + 2 <= |s|
    ensures r < TWO16
  {
    s[i] as int + 256 * s[i + 1] as int
  }

  /** The `<I` field at offset `i`. */
  function U32At(s: seq<byte>, i: nat): (r: nat)
    requires i + 4 <= |s|
    ensures r < TWO32
  {
    s[i] as int + 256 * s[i + 1] as int + 0x1_0000 * s[i + 2] as int + 0x100_0000 * s[i + 3] as int
  }

  /** The `<i` field at offset `i`: two's complement over 32 bits. */
  function I32At(s: seq<byte>, i: nat): (r: int)
    requires i + 4 <= |s|
    ensures -0x8000_0000 <= r < 0x8000_0000
    ensures r >= 0 <==> s[i + 3] < 128
  {
    var u := U32At(s, i);
    if u < 0x8000_0000 then u else u - TWO32
  }

  /** Reading back what `Le16` wrote gives the value again. */
  lemma Le16RoundTrip(x: nat, s: seq<byte>, i: nat)
    requires x < TWO16
    requires i + 2 <= |s| && s[i..i + 2] == Le16(x)
    ensures U16At(s, i) == x
  {
    assert s[i] == s[i..i + 2][0] && s[i + 1] == s[i..i + 2][1];
  }

  /** Reading back what `Le32` wrote gives the value again. */
  lemma Le32RoundTrip(x: nat, s: seq<byte>, i: nat)
    requires x < TWO32
    requires i + 4 <= |s| && s[i..i + 4] == Le32(x)
    ensures U32At(s, i) == x
  {
    var w := s[i..i + 4];
    assert s[i] == w[0] && s[i + 1] == w[1] && s[i + 2] == w[2] && s[i + 3] == w[3];
    var q1 := x / 256;
    var q2 := q1 / 256;
    var q3 := q2 / 256;
    assert x == x % 256 + 256 * q1;
    assert q1 == q1 % 256 + 256 * q2;
    assert q2 == q2 % 256 + 256 * q3;
  }

  /** The quotient and remainder by 256 of `lo + 256 * hi`. */
  lemma DivMod256(lo: int, hi: nat)
    requires 0 <= lo < 256
    ensures (lo + 256 * hi) % 256 == lo && (lo + 256 * hi) / 256 == hi
  {
  }

  /** Writing back what `U16At` read gives the same two bytes. */
  lemma U16AtInverse(s: seq<byte>, i: nat)
    requires i + 2 <= |s|
    ensures Le16(U16At(s, i)) == s[i..i + 2]
  {
    var x := U16At(s, i);
    assert x % 256 == s[i] && x / 256 == s[i + 1];
  }

  /** Writing back what `U32At` read gives the same four bytes. */
  lemma U32AtInverse(s: seq<byte>, i: nat)
    requires i + 4 <= |s|
    ensures Le32(U32At(s, i)) == s[i..i + 4]
  {
    var x := U32At(s, i);
    var q2 := s[i + 2] as int + 256 * s[i + 3] as int;
    var q1 := s[i + 1] as int + 256 * q2;
    assert x == s[i] as int + 256 * q1;
    DivMod256(s[i], q1);
    DivMod256(s[i + 1], q2);
    DivMod256(s[i + 2], s[i + 3]);
  }
}
