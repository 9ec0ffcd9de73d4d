/**
 * The bitwise CRC-32 of the icon generator: reflected polynomial 0xEDB88320,
 * register preset to all ones, result complemented (section 5.5 of the PNG
 * specification, ISO/IEC 15948; the CRC of ISO 3309).
 *
 * The JavaScript register is a 32-bit integer once `^=` has run, so it is
 * modelled as a bv32 holding the same bit pattern; the final `>>> 0` reads
 * that pattern as an unsigned number.
 */
module Crc {
  import opened Bytes

  const Polynomial: bv32 := 0xEDB8_8320
  const Preset: bv32 := 0xFFFF_FFFF
  const BitsPerByte: nat := 8

  /**
   * One pass of the inner loop: `mask = -(crc & 1)`, then
   * `crc = (crc >>> 1) ^ (0xedb88320 & mask)`, with the mask written in place.
   * The mask is all ones exactly when the low bit is set, so the step is a
   * conditional XOR (ShiftStepIsConditionalXor).
   */
  function ShiftStep(crc: bv32): bv32
  {
    (crc >> 1) ^ (Polynomial & (0 - (crc & 1)))
  }

  /** The mask `-(crc & 1)` can only be all ones or all zeros. */
  lemma MaskIsAllOrNothing(crc: bv32)
    ensures 0 - (crc & 1) == (if crc & 1 == 1 then 0xFFFF_FFFF else 0)
  {
  }

  /** Hence a shift step is a conditional XOR with the polynomial. */
  lemma ShiftStepIsConditionalXor(crc: bv32)
    ensures ShiftStep(crc) == if crc & 1 == 1 then (crc >> 1) ^ Polynomial else crc >> 1
  {
    MaskIsAllOrNothing(crc);
    if crc & 1 == 1 {
      assert Polynomial & 0xFFFF_FFFF == Polynomial;
    } else {
      assert Polynomial & 0 == 0;
    }
  }

  /** The register after n passes of the inner loop. */
  function ShiftSteps(crc: bv32, n: nat): bv32
  {
    if n == 0 then crc else ShiftStep(ShiftSteps(crc, n - 1))
  }

  /** A byte as the low eight bits of a register value. */
  function Widen(b: byte): bv32
  {
    b as bv32
  }

  /** One pass of the outer loop: `crc ^= buf[i]`, then eight shift steps. */
  function ByteStep(crc: bv32, b: byte): bv32
  {
    ShiftSteps(crc ^ Widen(b), BitsPerByte)
  }

  /** The register after the outer loop has consumed s, starting from crc. */
  function Register(crc: bv32, s: seq<byte>): bv32
    decreases |s|
  {
    if s == [] then crc else Register(ByteStep(crc, s[0]), s[1..])
  }

  function Pow2(n: nat): nat
  {
    if n == 0 then 1 else 2 * Pow2(n - 1)
  }

  lemma Pow2Of32()
    ensures Pow2(32) == TwoTo32
  {
    assert Pow2(8) == 0x100;
    assert Pow2(16) == 0x1_0000;
    assert Pow2(24) == 0x100_0000;
  }

  /** The lowest bit of v as a number. */
  function Bit(v: bv32): nat
  {
    if v & 1 == 1 then 1 else 0
  }

  /** The number whose binary digits are the low n bits of v. */
  function LowBits(v: bv32, n: nat): nat
  {
    if n == 0 then 0 else Bit(v) + 2 * LowBits(v >> 1, n - 1)
  }

  lemma {:induction false} LowBitsBound(v: bv32, n: nat)
    ensures LowBits(v, n) < Pow2(n)
  {
    if n > 0 {
      LowBitsBound(v >> 1, n - 1);
    }
  }

  lemma {:induction false} LowBitsOfZero(n: nat)
    ensures LowBits(0, n) == 0
  {
    if n > 0 {
      LowBitsOfZero(n - 1);
    }
  }

  /** Four bits at a time: the low nibble's digits, then the rest shifted down by four. */
  lemma LowBitsNibble(v: bv32, n: nat)
    requires n >= 4
    ensures LowBits(v, n) == Bit(v) + 2 * Bit(v >> 1) + 4 * Bit(v >> 2) + 8 * Bit(v >> 3) + 16 * LowBits(v >> 4, n - 4)
  {
    assert LowBits(v >> 1, n - 1) == Bit(v >> 1) + 2 * LowBits(v >> 2, n - 2) by { assert v >> 1 >> 1 == v >> 2; }
    assert LowBits(v >> 2, n - 2) == Bit(v >> 2) + 2 * LowBits(v >> 3, n - 3) by { assert v >> 2 >> 1 == v >> 3; }
    assert LowBits(v >> 3, n - 3) == Bit(v >> 3) + 2 * LowBits(v >> 4, n - 4) by { assert v >> 3 >> 1 == v >> 4; }
  }

  /** `v >>> 0`: the 32-bit pattern v read as an unsigned number. */
  function Unsigned(v: bv32): (r: nat)
    ensures r < TwoTo32
    ensures v == 0 ==> r == 0
  {
    LowBitsBound(v, 32);
    Pow2Of32();
    LowBitsOfZero(32);
    LowBits(v, 32)
  }

  /** crc32(buf): the complemented register, read as an unsigned 32-bit number. */
  function Crc32(s: seq<byte>): (r: nat)
    ensures r < TwoTo32
    ensures s == [] ==> r == 0
  {
    Unsigned(Register(Preset, s) ^ Preset)
  }

  /**
   * The loop can be split anywhere: processing a ++ b is processing b from the
   * register reached after a. This is what lets the CRC be computed
   * incrementally over a chunk's type and data.
   */
  lemma {:induction false} RegisterSplit(crc: bv32, a: seq<byte>, b: seq<byte>)
    ensures Register(crc, a + b) == Register(Register(crc, a), b)
    decreases |a|
  {
    if a == [] {
      assert a + b == b;
    } else {
      assert (a + b)[0] == a[0];
      assert (a + b)[1..] == a[1..] + b;
      RegisterSplit(ByteStep(crc, a[0]), a[1..], b);
    }
  }

  /** Extending the input by one byte costs one more outer pass. */
  lemma RegisterSnoc(crc: bv32, a: seq<byte>, x: byte)
    ensures Register(crc, a + [x]) == ByteStep(Register(crc, a), x)
  {
    RegisterSplit(crc, a, [x]);
    assert [x][1..] == [];
  }

  /** The same split, stated on the finished checksum. */
  lemma Crc32Split(a: seq<byte>, b: seq<byte>)
    ensures Crc32(a + b) == Unsigned(Register(Register(Preset, a), b) ^ Preset)
  {
    RegisterSplit(Preset, a, b);
  }

  /** The nine outer passes over "123456789". */
  lemma {:induction false} CheckRegister()
    ensures Register(Preset, [0x31, 0x32, 0x33, 0x34, 0x35, 0x36, 0x37, 0x38, 0x39]) == 0x340B_C6D9
  {
    var s: seq<byte> := [0x31, 0x32, 0x33, 0x34, 0x35, 0x36, 0x37, 0x38, 0x39];
    assert ByteStep(0xFFFF_FFFF, 0x31) == 0x7C23_1048;
    assert ByteStep(0x7C23_1048, 0x32) == 0xB0AC_BB32;
    assert ByteStep(0xB0AC_BB32, 0x33) == 0x77B7_9C2D;
    assert ByteStep(0x77B7_9C2D, 0x34) == 0x641C_1F5C;
    assert ByteStep(0x641C_1F5C, 0x35) == 0x340A_C5E3;
    assert ByteStep(0x340A_C5E3, 0x36) == 0xF68D_2C9E;
    assert ByteStep(0xF68D_2C9E, 0x37) == 0xAFFC_9660;
    assert ByteStep(0xAFFC_9660, 0x38) == 0x651F_2550;
    assert ByteStep(0x651F_2550, 0x39) == 0x340B_C6D9;
    assert s[1..][1..][1..][1..][1..][1..][1..][1..][1..] == [];
  }

  /** The pattern 0xCBF43926 read as a number, four bits at a time from the top. */
  lemma CheckUnsigned()
    ensures Unsigned(0xCBF4_3926) == 0xCBF4_3926
  {
    assert LowBits(0, 0) == 0;
    assert LowBits(0xC, 4) == 0xC by { LowBitsNibble(0xC, 4); }
    assert LowBits(0xCB, 8) == 0xCB by { LowBitsNibble(0xCB, 8); }
    assert LowBits(0xCBF, 12) == 0xCBF by { LowBitsNibble(0xCBF, 12); }
    assert LowBits(0xCBF4, 16) == 0xCBF4 by { LowBitsNibble(0xCBF4, 16); }
    assert LowBits(0xCBF43, 20) == 0xCBF43 by { LowBitsNibble(0xCBF43, 20); }
    assert LowBits(0xCBF439, 24) == 0xCBF439 by { LowBitsNibble(0xCBF439, 24); }
    assert LowBits(0xCBF4392, 28) == 0xCBF4392 by { LowBitsNibble(0xCBF4392, 28); }
    LowBitsNibble(0xCBF4_3926, 32);
  }

  /** The check value of this CRC: the nine ASCII digits "123456789" give 0xCBF43926. */
  lemma CheckValue()
    ensures Crc32([0x31, 0x32, 0x33, 0x34, 0x35, 0x36, 0x37, 0x38, 0x39]) == 0xCBF4_3926
  {
    CheckRegister();
    assert 0x340B_C6D9 ^ Preset == 0xCBF4_3926;
    CheckUnsigned();
  }

  /** The four outer passes over "IEND". */
  lemma {:induction false} IendRegister()
    ensures Register(Preset, [0x49, 0x45, 0x4E, 0x44]) == 0x51BD_9F7D
  {
    var s: seq<byte> := [0x49, 0x45, 0x4E, 0x44];
    assert ByteStep(0xFFFF_FFFF, 0x49) == 0x22FD_E946;
    assert ByteStep(0x22FD_E946, 0x45) == 0x992B_AC53;
    assert ByteStep(0x992B_AC53, 0x4E) == 0x639F_4775;
    assert ByteStep(0x639F_4775, 0x44) == 0x51BD_9F7D;
    assert s[1..][1..][1..][1..] == [];
  }

  /** The pattern 0xAE426082 read as a number, four bits at a time from the top. */
  lemma IendUnsigned()
    ensures Unsigned(0xAE42_6082) == 0xAE42_6082
  {
    assert LowBits(0, 0) == 0;
    assert LowBits(0xA, 4) == 0xA by { LowBitsNibble(0xA, 4); }
    assert LowBits(0xAE, 8) == 0xAE by { LowBitsNibble(0xAE, 8); }
    assert LowBits(0xAE4, 12) == 0xAE4 by { LowBitsNibble(0xAE4, 12); }
    assert LowBits(0xAE42, 16) == 0xAE42 by { LowBitsNibble(0xAE42, 16); }
    assert LowBits(0xAE426, 20) == 0xAE426 by { LowBitsNibble(0xAE426, 20); }
    assert LowBits(0xAE4260, 24) == 0xAE4260 by { LowBitsNibble(0xAE4260, 24); }
    assert LowBits(0xAE42608, 28) == 0xAE42608 by { LowBitsNibble(0xAE42608, 28); }
    LowBitsNibble(0xAE42_6082, 32);
  }

  /** The CRC of the chunk type "IEND" with no data, the last four bytes of every PNG file. */
  lemma IendCrc()
    ensures Crc32([0x49, 0x45, 0x4E, 0x44]) == 0xAE42_6082
  {
    IendRegister();
    assert 0x51BD_9F7D ^ Preset == 0xAE42_6082;
    IendUnsigned();
  }

  /** The body of crc32's outer loop: `crc ^= buf[i]` and the inner loop of eight shift steps. */
  method FoldByte(crc0: bv32, b: byte) returns (crc: bv32)
    ensures crc == ByteStep(crc0, b)
  {
    crc := crc0 ^ Widen(b);
    for j := 0 to BitsPerByte
      invariant crc == ShiftSteps(crc0 ^ Widen(b), j)
    {
      crc := ShiftStep(crc);
    }
  }

  /** crc32(buf): the outer loop over the buffer, then the final complement. */
  method ComputeCrc32(buf: seq<byte>) returns (r: nat)
    ensures r == Crc32(buf)
  {
    var crc: bv32 := Preset;
    for i := 0 to |buf|
      invariant crc == Register(Preset, buf[..i])
    {
      crc := FoldByte(crc, buf[i]);
      RegisterSnoc(Preset, buf[..i], buf[i]);
      assert buf[..i + 1] == buf[..i] + [buf[i]];
    }
    assert buf[..|buf|] == buf;
    r := Unsigned(crc ^ Preset);
  }
}
