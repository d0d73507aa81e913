/**
 * The checksum of the atomic store: the reflected CRC-32 of ISO-HDLC /
 * IEEE 802.3 (polynomial 0xEDB88320, initial value and final XOR
 * 0xFFFFFFFF), the algorithm of the sample code in section 8 of RFC 1952.
 */
module Crc32 {
  import opened Common

  const POLY: bv32 := 0xEDB8_8320
  const INIT: bv32 := 0xFFFF_FFFF

  /** One bit of the reflected CRC in the textbook form of RFC 1952:
      XOR the polynomial into the shifted register when the low bit was 1. */
  function Step(c: bv32): bv32
  {
    if c & 1 == 1 then POLY ^ (c >> 1) else c >> 1
  }

  function Steps(c: bv32, k: nat): bv32
  {
    if k == 0 then c else Step(Steps(c, k - 1))
  }

  /** Feeding one byte: XOR it into the low bits, then eight bit steps. */
  function UpdateByte(c: bv32, b: bv8): bv32
  {
    Steps(c ^ (b as bv32), 8)
  }

  lemma UpdateByteUnfolded(c: bv32, b: bv8)
    ensures UpdateByte(c, b) == Step(Step(Step(Step(Step(Step(Step(Step(c ^ (b as bv32)))))))))
  {
    var x := c ^ (b as bv32);
    assert Steps(x, 1) == Step(x);
    assert Steps(x, 2) == Step(Steps(x, 1));
    assert Steps(x, 3) == Step(Steps(x, 2));
    assert Steps(x, 4) == Step(Steps(x, 3));
    assert Steps(x, 5) == Step(Steps(x, 4));
    assert Steps(x, 6) == Step(Steps(x, 5));
    assert Steps(x, 7) == Step(Steps(x, 6));
  }

  /** The CRC register after feeding `data`, first byte first. */
  function Update(c: bv32, data: Bytes): bv32
  {
    if data == [] then c
    else UpdateByte(Update(c, data[..|data| - 1]), data[|data| - 1])
  }

  /** The CRC-32 of a byte string. */
  function Crc32(data: Bytes): (r: bv32)
    ensures data == [] ==> r == 0
  {
    !Update(INIT, data)
  }

  /** The branch-free bit step used by `crc32_calc` is the textbook step. */
  lemma BranchFreeStep(c: bv32)
    ensures (c >> 1) ^ (POLY & -(c & 1)) == Step(c)
  {
    var low := c & 1;
    assert low == 0 || low == 1;
    if low == 0 {
      assert POLY & -low == 0;
      assert (c >> 1) ^ 0 == c >> 1;
    } else {
      assert -low == 0xFFFF_FFFF;
      assert POLY & -low == POLY;
      assert (c >> 1) ^ POLY == POLY ^ (c >> 1);
    }
  }

  /** The register can be fed in pieces: the CRC of `a + b` continues from
      the register reached after `a`. */
  lemma {:induction false} UpdateAppend(c: bv32, a: Bytes, b: Bytes)
    ensures Update(c, a + b) == Update(Update(c, a), b)
  {
    if b != [] {
      var ab := a + b;
      assert ab[..|ab| - 1] == a + b[..|b| - 1];
      assert ab[|ab| - 1] == b[|b| - 1];
      UpdateAppend(c, a, b[..|b| - 1]);
    } else {
      assert a + b == a;
    }
  }

  /** The standard check value of CRC-32/ISO-HDLC: the CRC of the ASCII
      digits "123456789" is 0xCBF43926, so the register before the final
      complement holds 0x340BC6D9. */
  lemma CheckValueBytes()
    ensures Update(INIT, [0x31, 0x32, 0x33, 0x34, 0x35, 0x36, 0x37, 0x38, 0x39]) == 0x340b_c6d9
  {
    var d: Bytes := [0x31, 0x32, 0x33, 0x34, 0x35, 0x36, 0x37, 0x38, 0x39];
    UpdateByteUnfolded(INIT, 0x31);
    UpdateByteUnfolded(0x7c23_1048, 0x32);
    UpdateByteUnfolded(0xb0ac_bb32, 0x33);
    UpdateByteUnfolded(0x77b7_9c2d, 0x34);
    UpdateByteUnfolded(0x641c_1f5c, 0x35);
    UpdateByteUnfolded(0x340a_c5e3, 0x36);
    UpdateByteUnfolded(0xf68d_2c9e, 0x37);
    UpdateByteUnfolded(0xaffc_9660, 0x38);
    UpdateByteUnfolded(0x651f_2550, 0x39);
    assert Update(INIT, d[..1]) == 0x7c23_1048 by { assert d[..1][..0] == d[..0]; }
    assert Update(INIT, d[..2]) == 0xb0ac_bb32 by { assert d[..2][..1] == d[..1]; }
    assert Update(INIT, d[..3]) == 0x77b7_9c2d by { assert d[..3][..2] == d[..2]; }
    assert Update(INIT, d[..4]) == 0x641c_1f5c by { assert d[..4][..3] == d[..3]; }
    assert Update(INIT, d[..5]) == 0x340a_c5e3 by { assert d[..5][..4] == d[..4]; }
    assert Update(INIT, d[..6]) == 0xf68d_2c9e by { assert d[..6][..5] == d[..5]; }
    assert Update(INIT, d[..7]) == 0xaffc_9660 by { assert d[..7][..6] == d[..6]; }
    assert Update(INIT, d[..8]) == 0x651f_2550 by { assert d[..8][..7] == d[..7]; }
    assert Update(INIT, d[..9]) == 0x340b_c6d9 by { assert d[..9][..8] == d[..8]; }
    assert d[..9] == d;
  }

  /** The same check value after the final complement. */
  lemma CheckValue()
    ensures Crc32([0x31, 0x32, 0x33, 0x34, 0x35, 0x36, 0x37, 0x38, 0x39]) == 0xCBF4_3926
  {
    CheckValueBytes();
  }

  /** The inner loop of `crc32_calc`: XOR one byte into the register and
      run eight branch-free bit steps. */
  method FeedByte(crc: bv32, b: bv8) returns (r: bv32)
    ensures r == UpdateByte(crc, b)
  {
    r := crc ^ (b as bv32);
    ghost var start := r;
    for i := 0 to 8
      invariant r == Steps(start, i)
    {
      BranchFreeStep(r);
      r := (r >> 1) ^ (POLY & -(r & 1));
    }
  }

  /** `crc32_calc`: feed every byte into the register, starting from
      0xFFFFFFFF, and complement at the end. */
  method Crc32Calc(data: Bytes) returns (r: bv32)
    ensures r == Crc32(data)
  {
    var crc := INIT;
    var n := 0;
    while n < |data|
      invariant 0 <= n <= |data|
      invariant crc == Update(INIT, data[..n])
    {
      crc := FeedByte(crc, data[n]);
      assert data[..n + 1][..n] == data[..n];
      n := n + 1;
    }
    assert data[..n] == data;
    r := !crc;
  }
}
