// What the CRC is on particular inputs, in numbers: the preset, the final
// complement, the polynomial and the order of the bits. The register is followed
// as a 32-bit vector.
module CrcValues {
  import opened Bytes
  import opened Bits
  import opened Crc32

  // ---------------------------------------------------------------------
  // Bit vectors
  // ---------------------------------------------------------------------

  /** The number that a bit vector stands for. */
  function NatOf(b: bv32): nat
    decreases b
  {
    if b == 0 then 0 else 2 * NatOf(b >> 1) + LowBit(b)
  }

  function LowBit(b: bv32): nat { if b & 1 == 1 then 1 else 0 }

  lemma NatStep(b: bv32)
    ensures NatOf(b) / 2 == NatOf(b >> 1) && NatOf(b) % 2 == LowBit(b)
  {
  }

  lemma XorHalves(a: bv32, b: bv32)
    ensures (a ^ b) >> 1 == (a >> 1) ^ (b >> 1)
    ensures LowBit(a ^ b) == if LowBit(a) != LowBit(b) then 1 else 0
  {
  }

  lemma XorNothing(b: bv32)
    ensures 0 ^ b == b
  {
  }

  lemma Less(a: bv32)
    requires a != 0
    ensures a >> 1 < a
  {
  }

  /** Exclusive or of two numbers from that of their halves. */
  lemma XorOfHalves(m: nat, n: nat, r: nat)
    requires Xor(m / 2, n / 2) == r / 2 && r % 2 == if m % 2 != n % 2 then 1 else 0
    ensures Xor(m, n) == r
  {
    XorStep(m, n);
  }

  lemma {:induction false} NatXor(a: bv32, b: bv32)
    ensures Xor(NatOf(a), NatOf(b)) == NatOf(a ^ b)
    decreases a
  {
    if a == 0 {
      XorZero(NatOf(b));
      XorNothing(b);
    } else {
      Less(a);
      NatXor(a >> 1, b >> 1);
      NatXorStep(a, b, NatOf(a), NatOf(b), NatOf(a ^ b));
    }
  }

  lemma NatXorStep(a: bv32, b: bv32, m: nat, n: nat, r: nat)
    requires m == NatOf(a) && n == NatOf(b) && r == NatOf(a ^ b)
    requires Xor(NatOf(a >> 1), NatOf(b >> 1)) == NatOf((a >> 1) ^ (b >> 1))
    ensures Xor(m, n) == r
  {
    NatStep(a);
    NatStep(b);
    NatStep(a ^ b);
    XorHalves(a, b);
    XorOfHalves(m, n, r);
  }

  /** Four bits at a time. */
  lemma Digit(b: bv32, c: bv32, d: bv32, e: bv32, f: bv32)
    requires c == b >> 1 && d == c >> 1 && e == d >> 1 && f == e >> 1
    ensures NatOf(b) == 16 * NatOf(f) + 8 * LowBit(e) + 4 * LowBit(d) + 2 * LowBit(c) + LowBit(b)
  {
    NatStep(b);
    NatStep(c);
    NatStep(d);
    NatStep(e);
  }

  lemma PolyIs()
    ensures NatOf(0xEDB8_8320) == 0xEDB8_8320
  {
    Digit(0xE, 0x7, 0x3, 0x1, 0x0);
    Digit(0xED, 0x76, 0x3B, 0x1D, 0xE);
    Digit(0xEDB, 0x76D, 0x3B6, 0x1DB, 0xED);
    Digit(0xEDB8, 0x76DC, 0x3B6E, 0x1DB7, 0xEDB);
    Digit(0xE_DB88, 0x7_6DC4, 0x3_B6E2, 0x1_DB71, 0xEDB8);
    Digit(0xED_B883, 0x76_DC41, 0x3B_6E20, 0x1D_B710, 0xE_DB88);
    Digit(0xEDB_8832, 0x76D_C419, 0x3B6_E20C, 0x1DB_7106, 0xED_B883);
    Digit(0xEDB8_8320, 0x76DC_4190, 0x3B6E_20C8, 0x1DB7_1064, 0xEDB_8832);
  }

  // ---------------------------------------------------------------------
  // The register
  // ---------------------------------------------------------------------

  function ShiftBits(r: bv32): bv32 {
    if r & 1 == 1 then (r >> 1) ^ 0xEDB8_8320 else r >> 1
  }

  function Eight(r: bv32): bv32 {
    ShiftBits(ShiftBits(ShiftBits(ShiftBits(ShiftBits(ShiftBits(ShiftBits(ShiftBits(r))))))))
  }

  lemma ShiftIs(r: bv32)
    ensures Shift(NatOf(r)) == NatOf(ShiftBits(r))
  {
    NatStep(r);
    PolyIs();
    NatXor(r >> 1, 0xEDB8_8320);
  }

  lemma OneShift(r: bv32, n: nat, last: bv32)
    requires n > 0 && Shifts(NatOf(ShiftBits(r)), n - 1) == NatOf(last)
    ensures Shifts(NatOf(r), n) == NatOf(last)
  {
    ShiftIs(r);
  }

  lemma EightIs(r: bv32, k: nat)
    requires k == 8
    ensures Shifts(NatOf(r), k) == NatOf(Eight(r))
  {
    var a := ShiftBits(r);
    var b := ShiftBits(a);
    var c := ShiftBits(b);
    var d := ShiftBits(c);
    var e := ShiftBits(d);
    var f := ShiftBits(e);
    var g := ShiftBits(f);
    var h := ShiftBits(g);
    assert Shifts(NatOf(h), k - 8) == NatOf(h);
    OneShift(g, k - 7, h);
    OneShift(f, k - 6, h);
    OneShift(e, k - 5, h);
    OneShift(d, k - 4, h);
    OneShift(c, k - 3, h);
    OneShift(b, k - 2, h);
    OneShift(a, k - 1, h);
    OneShift(r, k, h);
  }

  /** One byte into the register. */
  function Feed(r: bv32, b: bv32): bv32 { Eight(r ^ b) }

  lemma Fed(r: bv32, s: seq<byte>, k: nat, b: bv32, next: bv32)
    requires s != [] && s[0] == NatOf(b) && next == Feed(r, b) && k == 8
    ensures CrcFrom(NatOf(r), s, k) == CrcFrom(NatOf(next), s[1..], k)
  {
    NatXor(r, b);
    EightIs(r ^ b, k);
  }

  lemma Ones()
    ensures NatOf(0xFFFF_FFFF) == 0xFFFF_FFFF
  {
    Digit(0xF, 0x7, 0x3, 0x1, 0x0);
    Digit(0xFF, 0x7F, 0x3F, 0x1F, 0xF);
    Digit(0xFFF, 0x7FF, 0x3FF, 0x1FF, 0xFF);
    Digit(0xFFFF, 0x7FFF, 0x3FFF, 0x1FFF, 0xFFF);
    Digit(0xF_FFFF, 0x7_FFFF, 0x3_FFFF, 0x1_FFFF, 0xFFFF);
    Digit(0xFF_FFFF, 0x7F_FFFF, 0x3F_FFFF, 0x1F_FFFF, 0xF_FFFF);
    Digit(0xFFF_FFFF, 0x7FF_FFFF, 0x3FF_FFFF, 0x1FF_FFFF, 0xFF_FFFF);
    Digit(0xFFFF_FFFF, 0x7FFF_FFFF, 0x3FFF_FFFF, 0x1FFF_FFFF, 0xFFF_FFFF);
  }

  lemma Complement(r: bv32)
    ensures Xor(NatOf(r), 0xFFFF_FFFF) == NatOf(r ^ 0xFFFF_FFFF)
  {
    Ones();
    NatXor(r, 0xFFFF_FFFF);
  }

  // ---------------------------------------------------------------------
  // Values
  // ---------------------------------------------------------------------

  lemma OfNothing(s: seq<byte>)
    requires s == []
    ensures Crc(s) == 0
  {
    XorSelf(0xFFFF_FFFF);
  }

  lemma OfZero(s: seq<byte>)
    requires s == [0]
    ensures Crc(s) == 0xD202_EF8D
  {
    Ones();
    Fed(0xFFFF_FFFF, s, 8, 0, 0x2DFD_1072);
    Complement(0x2DFD_1072);
    ZeroValue();
  }

  lemma ZeroValue()
    ensures NatOf(0xD202_EF8D) == 0xD202_EF8D
  {
    Digit(0xD, 0x6, 0x3, 0x1, 0x0);
    Digit(0xD2, 0x69, 0x34, 0x1A, 0xD);
    Digit(0xD20, 0x690, 0x348, 0x1A4, 0xD2);
    Digit(0xD202, 0x6901, 0x3480, 0x1A40, 0xD20);
    Digit(0xD_202E, 0x6_9017, 0x3_480B, 0x1_A405, 0xD202);
    Digit(0xD2_02EF, 0x69_0177, 0x34_80BB, 0x1A_405D, 0xD_202E);
    Digit(0xD20_2EF8, 0x690_177C, 0x348_0BBE, 0x1A4_05DF, 0xD2_02EF);
    Digit(0xD202_EF8D, 0x6901_77C6, 0x3480_BBE3, 0x1A40_5DF1, 0xD20_2EF8);
  }

  lemma OfOnes(s: seq<byte>)
    requires s == [0xFF, 0xFF, 0xFF, 0xFF]
    ensures Crc(s) == 0xFFFF_FFFF
  {
    Ones();
    Digit(0xF, 0x7, 0x3, 0x1, 0x0);
    Digit(0xFF, 0x7F, 0x3F, 0x1F, 0xF);
    Fed(0xFFFF_FFFF, s, 8, 0xFF, 0xFF_FFFF);
    Fed(0xFF_FFFF, s[1..], 8, 0xFF, 0xFFFF);
    Fed(0xFFFF, s[2..], 8, 0xFF, 0xFF);
    Fed(0xFF, s[3..], 8, 0xFF, 0);
    Complement(0);
  }

  /** The check value of the CRC catalogues, for the text "123456789". */
  lemma OfDigits(s: seq<byte>)
    requires s == [0x31, 0x32, 0x33, 0x34, 0x35, 0x36, 0x37, 0x38, 0x39]
    ensures Crc(s) == 0xCBF4_3926
  {
    Ones();
    DigitBytes();
    DigitsFed(s, 8);
    Complement(0x340B_C6D9);
    CheckValue();
  }

  lemma DigitBytes()
    ensures NatOf(0x31) == 0x31
    ensures NatOf(0x32) == 0x32
    ensures NatOf(0x33) == 0x33
    ensures NatOf(0x34) == 0x34
    ensures NatOf(0x35) == 0x35
    ensures NatOf(0x36) == 0x36
    ensures NatOf(0x37) == 0x37
    ensures NatOf(0x38) == 0x38
    ensures NatOf(0x39) == 0x39
  {
    Digit(0x3, 0x1, 0x0, 0x0, 0x0);
    Digit(0x31, 0x18, 0xC, 0x6, 0x3);
    Digit(0x32, 0x19, 0xC, 0x6, 0x3);
    Digit(0x33, 0x19, 0xC, 0x6, 0x3);
    Digit(0x34, 0x1A, 0xD, 0x6, 0x3);
    Digit(0x35, 0x1A, 0xD, 0x6, 0x3);
    Digit(0x36, 0x1B, 0xD, 0x6, 0x3);
    Digit(0x37, 0x1B, 0xD, 0x6, 0x3);
    Digit(0x38, 0x1C, 0xE, 0x7, 0x3);
    Digit(0x39, 0x1C, 0xE, 0x7, 0x3);
  }

  lemma DigitsFed(s: seq<byte>, k: nat)
    requires s == [0x31, 0x32, 0x33, 0x34, 0x35, 0x36, 0x37, 0x38, 0x39] && k == 8
    ensures CrcFrom(NatOf(0xFFFF_FFFF), s, k) == NatOf(0x340B_C6D9)
  {
    DigitBytes();
    Fed(0xFFFF_FFFF, s[0..], k, 0x31, 0x7C23_1048);
    Fed(0x7C23_1048, s[1..], k, 0x32, 0xB0AC_BB32);
    Fed(0xB0AC_BB32, s[2..], k, 0x33, 0x77B7_9C2D);
    Fed(0x77B7_9C2D, s[3..], k, 0x34, 0x641C_1F5C);
    Fed(0x641C_1F5C, s[4..], k, 0x35, 0x340A_C5E3);
    Fed(0x340A_C5E3, s[5..], k, 0x36, 0xF68D_2C9E);
    Fed(0xF68D_2C9E, s[6..], k, 0x37, 0xAFFC_9660);
    Fed(0xAFFC_9660, s[7..], k, 0x38, 0x651F_2550);
    Fed(0x651F_2550, s[8..], k, 0x39, 0x340B_C6D9);
  }

  lemma CheckValue()
    ensures NatOf(0xCBF4_3926) == 0xCBF4_3926
  {
    Digit(0xC, 0x6, 0x3, 0x1, 0x0);
    Digit(0xCB, 0x65, 0x32, 0x19, 0xC);
    Digit(0xCBF, 0x65F, 0x32F, 0x197, 0xCB);
    Digit(0xCBF4, 0x65FA, 0x32FD, 0x197E, 0xCBF);
    Digit(0xC_BF43, 0x6_5FA1, 0x3_2FD0, 0x1_97E8, 0xCBF4);
    Digit(0xCB_F439, 0x65_FA1C, 0x32_FD0E, 0x19_7E87, 0xC_BF43);
    Digit(0xCBF_4392, 0x65F_A1C9, 0x32F_D0E4, 0x197_E872, 0xCB_F439);
    Digit(0xCBF4_3926, 0x65FA_1C93, 0x32FD_0E49, 0x197E_8724, 0xCBF_4392);
  }
}
