/**
 * The CRC engine of the serial protocol (`crc16_ccitt`): CRC-16 with the
 * ITU-T V.41 polynomial 0x1021, initial register 0xFFFF, most significant
 * bit first and no final XOR (the parameter set known as CRC-16/CCITT-FALSE).
 *
 * The source keeps the register in a Python integer and shifts it left
 * without masking, so the register grows; it masks to 16 bits only once, at
 * the end. `Crc` is the usual definition that masks after every shift;
 * `Crc16Ccitt` follows the source and is proved to agree with it.
 */
module Crc16 {
  import opened Bytes

  const POLY: nat := 0x1021
  const INIT: nat := 0xFFFF

  /** Bitwise exclusive or of two naturals (Python's `^` on non-negative ints). */
  function Xor(a: nat, b: nat): nat
    decreases a + b
  {
    if a == 0 then b
    else if b == 0 then a
    else 2 * Xor(a / 2, b / 2) + (if a % 2 == b % 2 then 0 else 1)
  }

  /** Bit `k` of `a` (so `a & 0x8000 != 0` is `Bit(a, 15) == 1`). */
  function Bit(a: nat, k: nat): nat {
    if k == 0 then a % 2 else Bit(a / 2, k - 1)
  }

  /** The low `k` bits of `a` (so `a & 0xFFFF` is `Low(a, 16)`). */
  function Low(a: nat, k: nat): nat {
    if k == 0 then 0 else 2 * Low(a / 2, k - 1) + a % 2
  }

  function Pow2(k: nat): (r: nat)
    ensures r > 0
  {
    if k == 0 then 1 else 2 * Pow2(k - 1)
  }

  /** One unmasked shift, as the source's inner loop writes it. */
  function RawShift(c: nat): nat {
    if Bit(c, 15) == 1 then Xor(c * 2, POLY) else c * 2
  }

  /** One shift, masked to 16 bits. */
  function Shift(c: nat): nat {
    Low(RawShift(c), 16)
  }

  function Shifts(c: nat, n: nat): nat
    decreases n
  {
    if n == 0 then c else Shifts(Shift(c), n - 1)
  }

  /** Folds one byte into the register: xor it into the high byte, then eight masked shifts. */
  function UpdateByte(c: nat, b: byte): nat {
    Shifts(Xor(c, b as int * 256), 8)
  }

  /** The CRC of `data`, masking after every shift; the register starts at 0xFFFF. */
  function Crc(data: seq<byte>): (r: nat)
    ensures r < 0x1_0000
  {
    if |data| == 0 then INIT
    else
      ShiftsBounded(Xor(Crc(data[..|data| - 1]), data[|data| - 1] as int * 256), 8);
      UpdateByte(Crc(data[..|data| - 1]), data[|data| - 1])
  }

  /** Unmasked shifts, as the source runs them. */
  function RawShifts(c: nat, n: nat): nat
    decreases n
  {
    if n == 0 then c else RawShifts(RawShift(c), n - 1)
  }

  // ---------------------------------------------------------------------------
  // Bit-level facts

  /** The low bit and the upper bits of a xor. */
  lemma XorSplit(a: nat, b: nat)
    ensures Xor(a, b) % 2 == (if a % 2 == b % 2 then 0 else 1)
    ensures Xor(a, b) / 2 == Xor(a / 2, b / 2)
  {
    if a == 0 {
      assert Xor(a / 2, b / 2) == b / 2;
    } else if b == 0 {
      assert Xor(a / 2, b / 2) == a / 2;
    } else {
      Halve(Xor(a / 2, b / 2), if a % 2 == b % 2 then 0 else 1);
    }
  }

  lemma Halve(x: nat, bit: nat)
    requires bit < 2
    ensures (2 * x + bit) % 2 == bit && (2 * x + bit) / 2 == x
  {
  }

  /** The low bits of a xor depend only on the low bits of the operands. */
  lemma {:induction false} LowXor(a: nat, b: nat, k: nat)
    ensures Low(Xor(a, b), k) == Xor(Low(a, k), Low(b, k))
  {
    if k > 0 {
      LowXor(a / 2, b / 2, k - 1);
      XorSplit(a, b);
      var la, lb := Low(a, k), Low(b, k);
      XorSplit(la, lb);
      assert la / 2 == Low(a / 2, k - 1) && la % 2 == a % 2;
      assert lb / 2 == Low(b / 2, k - 1) && lb % 2 == b % 2;
      var x := Xor(la, lb);
      assert x == 2 * (x / 2) + x % 2;
    }
  }

  /** Keeping the low k bits, then the low j <= k of those, keeps the low j. */
  lemma {:induction false} LowLow(a: nat, j: nat, k: nat)
    requires j <= k
    ensures Low(Low(a, k), j) == Low(a, j)
  {
    if j > 0 {
      LowLow(a / 2, j - 1, k - 1);
      assert Low(a, k) / 2 == Low(a / 2, k - 1) && Low(a, k) % 2 == a % 2;
    }
  }

  /** Bits below k survive masking to k bits. */
  lemma {:induction false} BitLow(a: nat, j: nat, k: nat)
    requires j < k
    ensures Bit(Low(a, k), j) == Bit(a, j)
  {
    if j > 0 {
      BitLow(a / 2, j - 1, k - 1);
      assert Low(a, k) / 2 == Low(a / 2, k - 1);
    }
  }

  /** A value below 2^k is its own low k bits, and the low k bits are below 2^k. */
  lemma {:induction false} LowBounds(a: nat, k: nat)
    ensures Low(a, k) < Pow2(k)
    ensures a < Pow2(k) ==> Low(a, k) == a
  {
    if k > 0 {
      LowBounds(a / 2, k - 1);
    }
  }

  lemma Pow2Of16()
    ensures Pow2(16) == 0x1_0000
  {
    assert Pow2(4) == 16;
    assert Pow2(8) == 256;
    assert Pow2(12) == 4096;
  }

  /** Doubling shifts the low bits up by one place. */
  lemma LowDouble(c: nat, k: nat)
    ensures Low(c * 2, k + 1) == 2 * Low(c, k)
  {
    assert (c * 2) / 2 == c && (c * 2) % 2 == 0;
  }

  /** The masked shift does not see the register bits above bit 15. */
  lemma ShiftLow(c: nat)
    ensures Shift(c) == Shift(Low(c, 16))
  {
    var cl := Low(c, 16);
    BitLow(c, 15, 16);
    LowDouble(c, 15);
    LowDouble(cl, 15);
    LowLow(c, 15, 16);
    assert Low(c * 2, 16) == Low(cl * 2, 16);
    if Bit(c, 15) == 1 {
      LowXor(c * 2, POLY, 16);
      LowXor(cl * 2, POLY, 16);
    }
  }

  lemma ShiftsLow(c: nat, n: nat)
    requires n > 0
    ensures Shifts(c, n) == Shifts(Low(c, 16), n)
  {
    ShiftLow(c);
  }

  /** Masking once at the end equals masking after every shift. */
  lemma {:induction false} RawShiftsLow(c: nat, n: nat)
    requires n > 0
    ensures Low(RawShifts(c, n), 16) == Shifts(c, n)
    decreases n
  {
    if n > 1 {
      RawShiftsLow(RawShift(c), n - 1);
      ShiftsLow(RawShift(c), n - 1);
    }
  }

  lemma RawShiftsStep(c: nat, n: nat)
    ensures RawShifts(c, n + 1) == RawShift(RawShifts(c, n))
    decreases n
  {
    if n > 0 {
      RawShiftsStep(RawShift(c), n - 1);
    }
  }

  // ---------------------------------------------------------------------------
  // Properties of the CRC

  lemma {:induction false} ShiftsBounded(c: nat, n: nat)
    requires n > 0 || c < 0x1_0000
    ensures Shifts(c, n) < 0x1_0000
    decreases n
  {
    if n > 0 {
      LowBounds(RawShift(c), 16);
      Pow2Of16();
      ShiftsBounded(Shift(c), n - 1);
    }
  }

  /** Appending a byte folds it into the CRC of the prefix. */
  lemma CrcAppend(data: seq<byte>, b: byte)
    ensures Crc(data + [b]) == UpdateByte(Crc(data), b)
  {
    assert (data + [b])[..|data|] == data;
  }

  /** One byte of the loop: the eight shifts of the running value xored with the byte give the CRC of one byte more. */
  lemma ByteStep(data: seq<byte>, i: nat, before: nat)
    requires i < |data| && Low(before, 16) == Crc(data[..i])
    ensures Low(RawShifts(Xor(before, data[i] as int * 256), 8), 16) == Crc(data[..i + 1])
  {
    var b := data[i];
    var start := Xor(before, b as int * 256);
    var prevCrc := Crc(data[..i]);
    var pre := Xor(prevCrc, b as int * 256);
    assert Crc(data[..i + 1]) == Shifts(pre, 8) by {
      CrcAppend(data[..i], b);
      assert data[..i + 1] == data[..i] + [b];
    }
    assert Low(start, 16) == Low(pre, 16) by {
      LowXor(before, b as int * 256, 16);
      LowXor(prevCrc, b as int * 256, 16);
      LowLow(before, 16, 16);
    }
    calc {
      Low(RawShifts(start, 8), 16);
      { RawShiftsLow(start, 8); }
      Shifts(start, 8);
      { ShiftsLow(start, 8); }
      Shifts(Low(start, 16), 8);
      { ShiftsLow(pre, 8); }
      Shifts(pre, 8);
    }
  }

  /**
   * `crc16_ccitt` as the source runs it: the register is an unbounded
   * integer, shifted left without masking and masked once at the end.
   */
  method Crc16Ccitt(data: seq<byte>) returns (r: nat)
    ensures r < 0x1_0000
    ensures data == [] ==> r == 0xFFFF
    ensures r == Crc(data)
  {
    Pow2Of16();
    var crc: nat := INIT;
    LowBounds(INIT, 16);
    for i := 0 to |data|
      invariant Low(crc, 16) == Crc(data[..i])
    {
      var b := data[i];
      ghost var before := crc;
      crc := Xor(crc, b as int * 256);
      ghost var start := crc;
      for j := 0 to 8
        invariant crc == RawShifts(start, j)
      {
        crc := if Bit(crc, 15) == 1 then Xor(crc * 2, POLY) else crc * 2;
        RawShiftsStep(start, j);
      }
      ByteStep(data, i, before);
    }
    assert data[..|data|] == data;
    r := Low(crc, 16);
    LowBounds(crc, 16);
  }
}
