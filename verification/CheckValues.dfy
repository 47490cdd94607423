/** Known values of the three checksums on one byte: they fix polynomials, starting values and final steps. */
module CheckValues {
  import opened Bytes
  import opened LinearOperators
  import Crc16
  import Adler32
  import HeaderRepair

  lemma FirstOf<T>(x: T)
    ensures [x][0] == x && [x][1..] == []
  {
  }

  // ---------------------------------------------------------------- CRC-16/ARC

  function ArcTwo(v: bv16): bv16 { Crc16.ShiftBit(Crc16.ShiftBit(v)) }

  function ArcEight(v: bv16): bv16 { ArcTwo(ArcTwo(ArcTwo(ArcTwo(v)))) }

  lemma {:induction false} ArcSteps(v: bv16)
    ensures Iterate(Crc16.ShiftBit, v, 8) == ArcEight(v)
  {
    hide Crc16.ShiftBit;
    assert Iterate(Crc16.ShiftBit, v, 8) == Iterate(Crc16.ShiftBit, ArcTwo(v), 6);
    assert Iterate(Crc16.ShiftBit, ArcTwo(v), 6) == Iterate(Crc16.ShiftBit, ArcTwo(ArcTwo(v)), 4);
    assert Iterate(Crc16.ShiftBit, ArcTwo(ArcTwo(v)), 4) == Iterate(Crc16.ShiftBit, ArcTwo(ArcTwo(ArcTwo(v))), 2);
  }

  lemma {:induction false} ArcByte(d: bv16)
    ensures Absorb(Crc16.ShiftBit, Crc16.Xor, 8, 0, [d]) == ArcEight(d)
  {
    ArcSteps(d);
    FirstOf(d);
    assert Crc16.Xor(0, d) == d;
    hide ArcEight, Iterate, Crc16.ShiftBit, Crc16.Xor;
  }

  /** The CRC-16/ARC of the byte 0x80 is the reflected polynomial. */
  lemma {:induction false} ArcOfHighBit()
    ensures Crc16.Digest([0x80]) == 0xA001
  {
    ArcByte(0x80);
    assert ArcEight(0x80) == 0xA001;
    assert Crc16.Words([0x80]) == [0x80 as bv16];
    hide ArcEight, ArcTwo, Absorb, Crc16.ShiftBit, Crc16.Xor, Crc16.Words;
  }

  // ---------------------------------------------------------------- CRC-32

  function Step(crc: bv32): bv32 { if crc & 1 == 1 then (crc >> 1) ^ 0xEDB8_8320 else crc >> 1 }

  lemma OneBit(c: bv32, n: nat)
    requires n > 0
    ensures HeaderRepair.Crc32Bits(c, n) == HeaderRepair.Crc32Bits(Step(c), n - 1)
  {
  }

  lemma {:induction false} EightBits(c: bv32)
    ensures HeaderRepair.Crc32Bits(c, 8) == Step(Step(Step(Step(Step(Step(Step(Step(c))))))))
  {
    hide Step;
    var d := Step(Step(Step(c)));
    var e := Step(Step(Step(d)));
    OneBit(c, 8);
    OneBit(Step(c), 7);
    OneBit(Step(Step(c)), 6);
    OneBit(d, 5);
    OneBit(Step(d), 4);
    OneBit(Step(Step(d)), 3);
    OneBit(e, 2);
    OneBit(Step(e), 1);
  }

  lemma {:induction false} ZeroByte()
    ensures HeaderRepair.Crc32Register(0xFFFF_FFFF, [0]) == HeaderRepair.Crc32Bits(0xFFFF_FFFF, 8)
  {
    hide HeaderRepair.Crc32Bits;
    FirstOf(0 as u8);
    assert 0xFFFF_FFFF ^ (0 as bv32) == 0xFFFF_FFFF as bv32;
  }

  /** The CRC-32 of the byte 0. */
  lemma {:induction false} Crc32OfZero()
    ensures HeaderRepair.Crc32([0]) == 0xD202_EF8D
  {
    ZeroByte();
    EightBits(0xFFFF_FFFF);
    hide HeaderRepair.Crc32Register, HeaderRepair.Crc32Bits;
  }

  // ---------------------------------------------------------------- Adler-32

  /** The Adler-32 of the letter a. */
  lemma {:induction false} AdlerOfLetter()
    ensures Adler32.Digest([0x61]) == 0x0062_0062
  {
    var a: bytes := [0x61];
    assert a[..0] == [] && Adler32.State([]) == Adler32.Sums(1, 0);
    assert Adler32.State(a) == Adler32.Sums(98, 98);
  }
}
