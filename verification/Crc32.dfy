// The bit-serial, most-significant-bit-first CRC of FVCreation.py and
// SYSFW_VERSION_program.py, proved equal to the ordinary reflected CRC-32, and
// the error detection that the version record relies on.
//
// The number of bits in a byte, `k`, and in the register, `w`, are parameters
// of the definitions and lemmas; only `Crc` and `CalcCrc32` fix them at 8 and 32.
module Crc32 {
  import opened Bytes
  import opened Bits

  const GX: nat := 0x04C11DB7
  const POLY: nat := 0xEDB88320
  const ALL_ONES: nat := 0xFFFFFFFF
  const TWO_TO_THE_31: nat := 0x8000_0000
  const TWO_TO_THE_32: nat := 0x1_0000_0000

  // ---------------------------------------------------------------------
  // Bit reversal
  // ---------------------------------------------------------------------

  /** The low `l` bits of `d`, in the opposite order. */
  function Reflect(d: nat, l: nat): nat {
    if l == 0 then 0 else Shl(d % 2, l - 1) + Reflect(d / 2, l - 1)
  }

  method ReflectBits(data: nat, l: nat) returns (reff: nat)
    ensures reff == Reflect(data, l)
  {
    reff := 0;
    var d := data;
    LowClearShl(0, l);
    ShlZero(l);
    for i := 0 to l
      invariant Reflect(data, l) == reff + Reflect(d, l - i)
      invariant LowClear(reff, l - i)
    {
      ghost var k: nat := l - 1 - i;
      LowClearAdd(reff, k);
      ShlBit(d % 2, k);
      if d % 2 != 0 {
        OrOneBit(reff, k);
        reff := Or(reff, Shl(1, l - 1 - i));
      }
      d := d / 2;
    }
  }

  lemma OrOneBit(x: nat, k: nat)
    requires LowClear(x, k + 1)
    ensures Or(x, Shl(1, k)) == x + Pow2(k)
  {
    ShlBit(1, k);
    OrDisjoint(x, Pow2(k), k + 1);
  }

  lemma {:induction false} ReflectBound(d: nat, l: nat)
    ensures Reflect(d, l) < Pow2(l)
  {
    if l > 0 {
      ReflectBound(d / 2, l - 1);
      ShlBit(d % 2, l - 1);
    }
  }

  /** The top bit becomes the bottom bit. */
  lemma {:induction false} ReflectTop(x: nat, t: nat, l: nat)
    requires l > 0 && x < Pow2(l - 1) && t < 2
    ensures Reflect(x + Shl(t, l - 1), l) == 2 * Reflect(x, l - 1) + t
  {
    if l > 1 {
      ReflectTop(x / 2, t, l - 1);
      var y := x + Shl(t, l - 1);
      assert y / 2 == x / 2 + Shl(t, l - 2) && y % 2 == x % 2;
      assert Reflect(x, l - 1) == Shl(x % 2, l - 2) + Reflect(x / 2, l - 2);
    }
  }

  /** Reflecting twice gives the number back exactly when it fits in `l` bits. */
  lemma {:induction false} ReflectInvolution(d: nat, l: nat)
    ensures Reflect(Reflect(d, l), l) == d <==> d < Pow2(l)
  {
    ReflectBound(Reflect(d, l), l);
    if d < Pow2(l) {
      ReflectTwice(d, l);
    }
  }

  lemma {:induction false} ReflectTwice(d: nat, l: nat)
    requires d < Pow2(l)
    ensures Reflect(Reflect(d, l), l) == d
  {
    if l > 0 {
      ReflectTwice(d / 2, l - 1);
      ReflectBound(d / 2, l - 1);
      ReflectTop(Reflect(d / 2, l - 1), d % 2, l);
    }
  }

  lemma {:induction false} ReflectXor(a: nat, b: nat, l: nat)
    ensures Reflect(Xor(a, b), l) == Xor(Reflect(a, l), Reflect(b, l))
  {
    if l == 0 {
      XorZero(0);
    } else {
      ReflectXor(a / 2, b / 2, l - 1);
      ReflectedTopBits(a / 2, b / 2, a % 2, b % 2, l - 1);
      ReflectJoin(Xor(a / 2, b / 2), Xor(a % 2, b % 2), l, a, b);
    }
  }

  lemma ReflectJoin(x: nat, bit: nat, l: nat, a: nat, b: nat)
    requires l > 0 && x == Xor(a / 2, b / 2) && bit == Xor(a % 2, b % 2)
    ensures Reflect(Xor(a, b), l) == Shl(bit, l - 1) + Reflect(x, l - 1)
  {
    XorStep(a, b);
    XorBits(a % 2, b % 2);
  }

  lemma ReflectedTopBits(x: nat, y: nat, s: nat, t: nat, k: nat)
    ensures Xor(Shl(s, k) + Reflect(x, k), Shl(t, k) + Reflect(y, k))
         == Shl(Xor(s, t), k) + Xor(Reflect(x, k), Reflect(y, k))
  {
    ReflectBound(x, k);
    ReflectBound(y, k);
    XorHigh(Reflect(x, k), Reflect(y, k), s, t, k);
  }

  lemma Peel(bit: nat, q: nat, l: nat)
    requires bit < 2 && l > 0
    ensures Reflect(2 * q + bit, l) == Reflect(q, l - 1) + if bit == 1 then Pow2(l - 1) else 0
  {
    ShlBit(bit, l - 1);
    assert (2 * q + bit) / 2 == q && (2 * q + bit) % 2 == bit;
  }

  lemma PeelTwo(a: nat, b: nat, q: nat, l: nat, p: nat)
    requires a < 2 && b < 2 && l >= 2 && Pow2(l - 2) == p
    ensures Pow2(l) == 4 * p
    ensures Reflect(4 * q + 2 * b + a, l)
         == Reflect(q, l - 2) + (if b == 1 then p else 0) + (if a == 1 then 2 * p else 0)
  {
    Peel(a, 2 * q + b, l);
    Peel(b, q, l - 1);
  }

  /** Four bits `a`, `b`, `c`, `d` below `q`, reversed above the reversal of `q`. */
  lemma PeelFour(a: nat, b: nat, c: nat, d: nat, q: nat, l: nat, p: nat, r: nat)
    requires a < 2 && b < 2 && c < 2 && d < 2 && l >= 4
    requires Pow2(l - 4) == p && Reflect(q, l - 4) == r
    ensures Pow2(l) == 16 * p
    ensures Reflect(16 * q + 8 * d + 4 * c + 2 * b + a, l)
         == r + (if d == 1 then p else 0) + (if c == 1 then 2 * p else 0)
              + (if b == 1 then 4 * p else 0) + (if a == 1 then 8 * p else 0)
  {
    PeelTwo(c, d, q, l - 2, p);
    PeelTwo(a, b, 4 * q + 2 * d + c, l, 4 * p);
  }

  lemma PeelByte(a: nat, b: nat, c: nat, d: nat, e: nat, f: nat, g: nat, h: nat,
                 q: nat, l: nat, p: nat, r: nat)
    requires a < 2 && b < 2 && c < 2 && d < 2 && e < 2 && f < 2 && g < 2 && h < 2 && l >= 8
    requires Pow2(l - 8) == p && Reflect(q, l - 8) == r
    ensures Pow2(l) == 256 * p
    ensures Reflect(16 * (16 * q + 8 * h + 4 * g + 2 * f + e) + 8 * d + 4 * c + 2 * b + a, l)
         == r + (if h == 1 then p else 0) + (if g == 1 then 2 * p else 0)
              + (if f == 1 then 4 * p else 0) + (if e == 1 then 8 * p else 0)
              + (if d == 1 then 16 * p else 0) + (if c == 1 then 32 * p else 0)
              + (if b == 1 then 64 * p else 0) + (if a == 1 then 128 * p else 0)
  {
    PeelFour(e, f, g, h, q, l - 4, p, r);
    var s := Reflect(16 * q + 8 * h + 4 * g + 2 * f + e, l - 4);
    PeelFour(a, b, c, d, 16 * q + 8 * h + 4 * g + 2 * f + e, l, 16 * p, s);
  }

  /** The generator read backwards, byte by byte, is the reflected polynomial. */
  lemma ReflectGenerator(u: nat)
    requires Pow2(u) == 1 && Reflect(0, u) == 0
    ensures Reflect(GX, u + 32) == POLY && Pow2(u + 32) == TWO_TO_THE_32 && Pow2(u + 8) == 256
  {
    GeneratorByte0(u, u + 8);
    GeneratorByte1(u + 8, u + 16);
    GeneratorByte2(u + 16, u + 24);
    GeneratorByte3(u + 24, u + 32);
  }

  lemma GeneratorByte0(v: nat, w: nat)
    requires w == v + 8 && Pow2(v) == 1 && Reflect(0, v) == 0
    ensures Reflect(0x04, w) == 0x20 && Pow2(w) == 0x100
  {
    PeelByte(0, 0, 1, 0, 0, 0, 0, 0, 0, w, 1, 0);
  }

  lemma GeneratorByte1(v: nat, w: nat)
    requires w == v + 8 && Pow2(v) == 0x100 && Reflect(0x04, v) == 0x20
    ensures Reflect(0x04C1, w) == 0x8320 && Pow2(w) == 0x1_0000
  {
    PeelByte(1, 0, 0, 0, 0, 0, 1, 1, 0x04, w, 0x100, 0x20);
  }

  lemma GeneratorByte2(v: nat, w: nat)
    requires w == v + 8 && Pow2(v) == 0x1_0000 && Reflect(0x04C1, v) == 0x8320
    ensures Reflect(0x04C11D, w) == 0xB8_8320 && Pow2(w) == 0x100_0000
  {
    PeelByte(1, 0, 1, 1, 1, 0, 0, 0, 0x04C1, w, 0x1_0000, 0x8320);
  }

  lemma GeneratorByte3(v: nat, w: nat)
    requires w == v + 8 && Pow2(v) == 0x100_0000 && Reflect(0x04C11D, v) == 0xB8_8320
    ensures Reflect(GX, w) == POLY && Pow2(w) == TWO_TO_THE_32
  {
    PeelByte(1, 1, 1, 0, 1, 1, 0, 1, 0x04C11D, w, 0x100_0000, 0xB8_8320);
  }

  lemma {:induction false} ReflectOnes(l: nat)
    ensures Reflect(Pow2(l) - 1, l) == Pow2(l) - 1
  {
    if l > 0 {
      ReflectOnes(l - 1);
      Peel(1, Pow2(l - 1) - 1, l);
    }
  }

  /** What is needed of the register width; `RegisterWidth` shows that 32 has it. */
  ghost predicate IsWidth(w: nat) {
    && w > 0
    && Pow2(w) == TWO_TO_THE_32
    && Reflect(GX, w) == POLY
    && Reflect(ALL_ONES, w) == ALL_ONES
  }

  lemma RegisterWidth(u: nat)
    requires Pow2(u) == 1 && Reflect(0, u) == 0
    ensures IsWidth(u + 32) && Pow2(u + 8) == 256
  {
    ReflectGenerator(u);
    ReflectOnes(u + 32);
  }

  // ---------------------------------------------------------------------
  // The reference: reflected CRC-32
  // ---------------------------------------------------------------------

  /** One shift of the reflected register. */
  function Shift(r: nat): nat {
    if r % 2 == 1 then Xor(r / 2, POLY) else r / 2
  }

  function Shifts(r: nat, n: nat): nat
    decreases n, r
  {
    if n == 0 then r else Shifts(Shift(r), n - 1)
  }

  /** Each byte is merged into the low end and shifted out, `k` bits at a time. */
  function CrcFrom(r: nat, s: seq<byte>, k: nat): nat
    decreases s
  {
    if s == [] then r else CrcFrom(Shifts(Xor(r, s[0]), k), s[1..], k)
  }

  /** The CRC-32 of zlib and `binascii`: polynomial 0xEDB88320, least significant
      bit first, register preset to ones and complemented at the end. */
  function Crc(s: seq<byte>): nat {
    Xor(CrcFrom(ALL_ONES, s, 8), ALL_ONES)
  }

  lemma ShiftBound(r: nat, w: nat)
    requires r < TWO_TO_THE_32 && Pow2(w) == TWO_TO_THE_32
    ensures Shift(r) < TWO_TO_THE_32
  {
    XorBound(r / 2, POLY, w);
  }

  lemma {:induction false} ShiftsBound(r: nat, n: nat, w: nat)
    requires r < TWO_TO_THE_32 && Pow2(w) == TWO_TO_THE_32
    ensures Shifts(r, n) < TWO_TO_THE_32
    decreases n
  {
    if n > 0 {
      ShiftBound(r, w);
      ShiftsBound(Shift(r), n - 1, w);
    }
  }

  lemma FeedBound(r: nat, b: byte, k: nat, w: nat)
    requires r < TWO_TO_THE_32 && Pow2(w) == TWO_TO_THE_32
    ensures Xor(r, b) < TWO_TO_THE_32 && Shifts(Xor(r, b), k) < TWO_TO_THE_32
  {
    XorBound(r, b, w);
    ShiftsBound(Xor(r, b), k, w);
  }

  lemma {:induction false} CrcFromBound(r: nat, s: seq<byte>, k: nat, w: nat)
    requires r < TWO_TO_THE_32 && Pow2(w) == TWO_TO_THE_32
    ensures CrcFrom(r, s, k) < TWO_TO_THE_32
    decreases s
  {
    if s != [] {
      FeedBound(r, s[0], k, w);
      CrcFromBound(Shifts(Xor(r, s[0]), k), s[1..], k, w);
    }
  }

  lemma CrcBound(s: seq<byte>)
    ensures Crc(s) < TWO_TO_THE_32
  {
    RegisterWidth(0);
    CrcBoundIn(s, 8, 32);
  }

  lemma CrcBoundIn(s: seq<byte>, k: nat, w: nat)
    requires IsWidth(w)
    ensures Xor(CrcFrom(ALL_ONES, s, k), ALL_ONES) < TWO_TO_THE_32
  {
    CrcFromBound(ALL_ONES, s, k, w);
    XorBound(CrcFrom(ALL_ONES, s, k), ALL_ONES, w);
  }

  lemma {:induction false} CrcFromConcat(r: nat, s: seq<byte>, t: seq<byte>, k: nat)
    ensures CrcFrom(r, s + t, k) == CrcFrom(CrcFrom(r, s, k), t, k)
    decreases s
  {
    if s == [] {
      assert s + t == t;
    } else {
      assert (s + t)[1..] == s[1..] + t;
      CrcFromConcat(Shifts(Xor(r, s[0]), k), s[1..], t, k);
    }
  }

  lemma CrcFromSnoc(r: nat, s: seq<byte>, i: nat, k: nat)
    requires i < |s|
    ensures CrcFrom(r, s[..i + 1], k) == Shifts(Xor(CrcFrom(r, s[..i], k), s[i]), k)
  {
    var x := CrcFrom(r, s[..i], k);
    assert s[..i + 1] == s[..i] + [s[i]];
    CrcFromConcat(r, s[..i], [s[i]], k);
    assert CrcFrom(x, [s[i]], k) == CrcFrom(Shifts(Xor(x, s[i]), k), [], k);
  }

  // ---------------------------------------------------------------------
  // The bit-serial loop is the reference, seen in a mirror
  // ---------------------------------------------------------------------

  /** One turn of the inner loop: `regs` shifts left, the top bit meets `bit`. */
  function MsbStep(regs: nat, bit: nat): nat {
    var shifted := 2 * regs;
    (if regs / TWO_TO_THE_31 % 2 != bit then Xor(shifted, GX) else shifted) % TWO_TO_THE_32
  }

  /** The reflected register shifted right, its low bit meeting `bit`. */
  function LsbStep(r: nat, bit: nat): nat {
    if r % 2 != bit then Xor(r / 2, POLY) else r / 2
  }

  /** The first `n` bits of `b`, low bit first, pushed through `LsbStep`. */
  function LsbBits(r: nat, b: nat, n: nat): nat
    decreases n, b, r
  {
    if n == 0 then r else LsbBits(LsbStep(r, b % 2), b / 2, n - 1)
  }

  lemma MsbStepMirrors(regs: nat, bit: nat, w: nat)
    requires IsWidth(w) && regs < TWO_TO_THE_32 && bit < 2
    ensures MsbStep(regs, bit) < TWO_TO_THE_32
    ensures Reflect(MsbStep(regs, bit), w) == LsbStep(Reflect(regs, w), bit)
  {
    var t, x := regs / TWO_TO_THE_31, regs % TWO_TO_THE_31;
    MirrorParts(regs, t, x, w);
    if t == bit {
      assert MsbStep(regs, bit) == 2 * x;
    } else {
      MirrorXor(t, x, GX, w);
      MsbStepXor(regs, bit, t, x);
    }
  }

  lemma MsbStepXor(regs: nat, bit: nat, t: nat, x: nat)
    requires t < 2 && t != bit && x < TWO_TO_THE_31 && regs == x + t * TWO_TO_THE_31
    requires Xor(2 * x + t * TWO_TO_THE_32, GX) % TWO_TO_THE_32 == Xor(2 * x, GX)
    ensures MsbStep(regs, bit) == Xor(2 * x, GX)
  {
    assert 2 * regs == 2 * x + t * TWO_TO_THE_32;
  }

  lemma MirrorParts(regs: nat, t: nat, x: nat, w: nat)
    requires w > 0 && Pow2(w) == TWO_TO_THE_32
    requires t < 2 && x < TWO_TO_THE_31 && regs == x + t * TWO_TO_THE_31
    ensures Reflect(regs, w) % 2 == t && Reflect(regs, w) / 2 == Reflect(2 * x, w)
  {
    ShlBit(t, w - 1);
    ReflectTop(x, t, w);
    Peel(0, x, w);
  }

  lemma MirrorXor(t: nat, x: nat, g: nat, w: nat)
    requires Pow2(w) == TWO_TO_THE_32
    requires t < 2 && x < TWO_TO_THE_31 && g < TWO_TO_THE_32
    ensures Xor(2 * x + t * TWO_TO_THE_32, g) % TWO_TO_THE_32 == Xor(2 * x, g) < TWO_TO_THE_32
    ensures Reflect(Xor(2 * x, g), w) == Xor(Reflect(2 * x, w), Reflect(g, w))
  {
    ReflectXor(2 * x, g, w);
    XorBound(2 * x, g, w);
    XorAboveBit(2 * x, g, t, w);
    ShlBit(t, w);
  }

  lemma XorAboveBit(a: nat, b: nat, t: nat, k: nat)
    requires a < Pow2(k) && b < Pow2(k) && t < 2
    ensures Xor(a + Shl(t, k), b) == Xor(a, b) + Shl(t, k)
  {
    ShlZero(k);
    XorZero(t);
    XorHigh(a, b, t, 0, k);
  }

  /** The low bits of the message may be merged into the register beforehand. */
  lemma {:induction false} LsbBitsAreShifts(r: nat, b: nat, n: nat)
    requires b < Pow2(n)
    ensures LsbBits(r, b, n) == Shifts(Xor(r, b), n)
    decreases n
  {
    if n == 0 {
      XorZero(r);
    } else {
      LsbBitsAreShifts(LsbStep(r, b % 2), b / 2, n - 1);
      MergeOneBit(r, b);
    }
  }

  lemma MergeOneBit(r: nat, b: nat)
    ensures Shift(Xor(r, b)) == Xor(LsbStep(r, b % 2), b / 2)
  {
    XorStep(r, b);
    SwapXor(r / 2, b / 2, POLY);
  }

  /** The top bit of the shifted, reflected byte is the next unread low bit. */
  lemma NextBit(dataByte: nat, rest: nat, j: nat, k: nat)
    requires j < k && Pow2(k) == 256 && rest < Pow2(k - j)
    requires dataByte % 256 == Shl(Reflect(rest, k - j), j)
    ensures dataByte / 128 % 2 == rest % 2
    ensures 2 * dataByte % 256 == Shl(Reflect(rest / 2, k - 1 - j), j + 1)
  {
    var m: nat := k - 1 - j;
    var high, low := Shl(Shl(rest % 2, m), j), Shl(Reflect(rest / 2, m), j);
    assert dataByte % 256 == high + low by {
      ShlAdd(Shl(rest % 2, m), Reflect(rest / 2, m), j);
    }
    assert high == rest % 2 * 128 by {
      ShlShl(rest % 2, m, j);
      ShlBit(rest % 2, k - 1);
    }
    assert low < 128 by {
      ReflectBound(rest / 2, m);
      ShlBelow(Reflect(rest / 2, m), m, j);
    }
    HighBit(dataByte, rest % 2, low);
  }

  lemma HighBit(d: nat, bit: nat, low: nat)
    requires d % 256 == bit * 128 + low && bit < 2 && low < 128
    ensures d / 128 % 2 == bit && 2 * d % 256 == 2 * low
  {
    var q := d / 256;
    assert d == 256 * q + 128 * bit + low;
    assert d / 128 == 2 * q + bit;
    assert 2 * d == 256 * (2 * q + bit) + 2 * low;
  }

  /** The inner loop of `CalcCRC32_i`: the `k` bits of one reflected byte. The
      ghost `w` stands for the register width. */
  method FeedByte(regs0: nat, b: byte, k: nat, ghost w: nat) returns (regs: nat)
    requires IsWidth(w) && Pow2(k) == 256 && regs0 < TWO_TO_THE_32
    ensures regs < TWO_TO_THE_32
    ensures Reflect(regs, w) == Shifts(Xor(Reflect(regs0, w), b), k)
  {
    regs := regs0;
    var dataByte := ReflectBits(b, k);
    ghost var start := Reflect(regs, w);
    ghost var rest: nat := b;
    ReflectBound(b, k);
    for j := 0 to k
      invariant regs < TWO_TO_THE_32 && rest < Pow2(k - j)
      invariant dataByte % 256 == Shl(Reflect(rest, k - j), j)
      invariant LsbBits(Reflect(regs, w), rest, k - j) == LsbBits(start, b, k)
    {
      NextBit(dataByte, rest, j, k);
      MsbStepMirrors(regs, rest % 2, w);
      var msb := dataByte / 128 % 2;
      var regsMsb := regs / TWO_TO_THE_31 % 2;
      regs := 2 * regs;
      if regsMsb != msb {
        regs := Xor(regs, GX);
      }
      regs := regs % TWO_TO_THE_32;
      dataByte := 2 * dataByte;
      rest := rest / 2;
    }
    LsbBitsAreShifts(start, b, k);
  }

  /** The outer loop of `CalcCRC32_i`. */
  method FeedBuffer(buffer: seq<byte>, k: nat, ghost w: nat) returns (regs: nat)
    requires IsWidth(w) && Pow2(k) == 256
    ensures Reflect(regs, w) == CrcFrom(ALL_ONES, buffer, k)
  {
    regs := ALL_ONES;
    for i := 0 to |buffer|
      invariant regs < TWO_TO_THE_32
      invariant Reflect(regs, w) == CrcFrom(ALL_ONES, buffer[..i], k)
    {
      regs := FeedByte(regs, buffer[i], k, w);
      CrcFromSnoc(ALL_ONES, buffer, i, k);
    }
    assert buffer[..|buffer|] == buffer;
  }

  method CrcOf(buffer: seq<byte>, u: nat) returns (crc: nat)
    requires Pow2(u) == 1 && Reflect(0, u) == 0
    ensures crc == Xor(CrcFrom(ALL_ONES, buffer, u + 8), ALL_ONES)
  {
    RegisterWidth(u);
    var regs := FeedBuffer(buffer, u + 8, u + 32);
    var r := ReflectBits(regs, u + 32);
    crc := Xor(r, ALL_ONES);
  }

  /** `CalcCRC32_i`; a length beyond the buffer is Python's IndexError. */
  method CalcCrc32(buffer: seq<byte>, l: nat) returns (crc: Option<nat>)
    ensures crc == if l <= |buffer| then Some(Crc(buffer[..l])) else None
  {
    if l > |buffer| {
      return None;
    }
    var value := CrcOf(buffer[..l], 0);
    crc := Some(value);
  }

  // ---------------------------------------------------------------------
  // Error detection
  // ---------------------------------------------------------------------

  lemma ShiftInjective(x: nat, y: nat, w: nat)
    requires w > 0 && Pow2(w) == TWO_TO_THE_32
    requires x < TWO_TO_THE_32 && y < TWO_TO_THE_32 && Shift(x) == Shift(y)
    ensures x == y
  {
    ShiftTopBit(x, w);
    ShiftTopBit(y, w);
    if x % 2 == 1 {
      XorCancel(x / 2, POLY);
      XorCancel(y / 2, POLY);
    }
  }

  /** The polynomial's top bit shows which low bit was shifted out. */
  lemma ShiftTopBit(x: nat, w: nat)
    requires w > 0 && Pow2(w) == TWO_TO_THE_32 && x < TWO_TO_THE_32
    ensures Shift(x) >= TWO_TO_THE_31 <==> x % 2 == 1
  {
    if x % 2 == 1 {
      var low := POLY - TWO_TO_THE_31;
      ShlBit(1, w - 1);
      ShlBit(0, w - 1);
      XorZero(1);
      XorHigh(x / 2, low, 0, 1, w - 1);
    }
  }

  lemma {:induction false} ShiftsInjective(x: nat, y: nat, n: nat, w: nat)
    requires w > 0 && Pow2(w) == TWO_TO_THE_32
    requires x < TWO_TO_THE_32 && y < TWO_TO_THE_32 && Shifts(x, n) == Shifts(y, n)
    ensures x == y
    decreases n
  {
    if n > 0 {
      ShiftBound(x, w);
      ShiftBound(y, w);
      ShiftsInjective(Shift(x), Shift(y), n - 1, w);
      ShiftInjective(x, y, w);
    }
  }

  lemma XorInjective(r: nat, a: nat, b: nat)
    requires Xor(r, a) == Xor(r, b)
    ensures a == b
  {
    XorComm(r, a);
    XorComm(r, b);
    XorCancel(a, r);
    XorCancel(b, r);
  }

  /** Different registers stay different under the same input. */
  lemma {:induction false} CrcFromInjective(x: nat, y: nat, s: seq<byte>, k: nat, w: nat)
    requires w > 0 && Pow2(w) == TWO_TO_THE_32
    requires x < TWO_TO_THE_32 && y < TWO_TO_THE_32 && CrcFrom(x, s, k) == CrcFrom(y, s, k)
    ensures x == y
    decreases s
  {
    if s != [] {
      FeedBound(x, s[0], k, w);
      FeedBound(y, s[0], k, w);
      CrcFromInjective(Shifts(Xor(x, s[0]), k), Shifts(Xor(y, s[0]), k), s[1..], k, w);
      FeedInjective(x, y, s[0], k, w);
    }
  }

  lemma FeedInjective(x: nat, y: nat, b: byte, k: nat, w: nat)
    requires w > 0 && Pow2(w) == TWO_TO_THE_32
    requires Xor(x, b) < TWO_TO_THE_32 && Xor(y, b) < TWO_TO_THE_32
    requires Shifts(Xor(x, b), k) == Shifts(Xor(y, b), k)
    ensures x == y
  {
    ShiftsInjective(Xor(x, b), Xor(y, b), k, w);
    XorCancel(x, b);
    XorCancel(y, b);
  }

  lemma ShiftCarry(x: nat, z: nat)
    ensures Shift(Xor(x, 2 * z)) == Xor(Shift(x), z)
  {
    XorStep(x, 2 * z);
    SwapXor(x / 2, z, POLY);
  }

  /** Bits above the ones being shifted out are simply carried down. */
  lemma {:induction false} ShiftsCarry(x: nat, y: nat, n: nat)
    ensures Shifts(Xor(x, Shl(y, n)), n) == Xor(Shifts(x, n), y)
    decreases n
  {
    if n > 0 {
      ShiftCarry(x, Shl(y, n - 1));
      ShiftsCarry(Shift(x), y, n - 1);
    }
  }

  lemma {:induction false} ShiftsAdd(x: nat, m: nat, n: nat)
    ensures Shifts(x, m + n) == Shifts(Shifts(x, m), n)
    decreases m
  {
    if m > 0 {
      ShiftsAdd(Shift(x), m - 1, n);
    }
  }

  function BitCount(w: seq<byte>, k: nat): nat {
    if w == [] then 0 else k + BitCount(w[1..], k)
  }

  /** A block enters the register all at once, as one little-endian number. */
  lemma {:induction false} CrcFromBlock(r: nat, s: seq<byte>, k: nat)
    requires Pow2(k) == 256
    ensures CrcFrom(r, s, k) == Shifts(Xor(r, FromLe(s)), BitCount(s, k))
    decreases s
  {
    if s == [] {
      XorZero(r);
    } else {
      CrcFromBlock(Shifts(Xor(r, s[0]), k), s[1..], k);
      ByteThenRest(r, s[0], FromLe(s[1..]), k, BitCount(s[1..], k));
    }
  }

  lemma ByteThenRest(r: nat, b: byte, rest: nat, k: nat, n: nat)
    requires Pow2(k) == 256
    ensures Shifts(Xor(Shifts(Xor(r, b), k), rest), n) == Shifts(Xor(r, b + 256 * rest), k + n)
  {
    ShlPow2(rest, k);
    XorDisjoint(b, rest, k);
    XorAssoc(r, b, Shl(rest, k));
    CarryThenShift(Xor(r, b), rest, k, n);
  }

  lemma CarryThenShift(x: nat, y: nat, k: nat, n: nat)
    ensures Shifts(Xor(Shifts(x, k), y), n) == Shifts(Xor(x, Shl(y, k)), k + n)
  {
    ShiftsCarry(x, y, k);
    ShiftsAdd(Xor(x, Shl(y, k)), k, n);
  }

  /** Two messages that differ only inside one window of at most four bytes have
      different checksums. */
  lemma BurstDetected(pre: seq<byte>, w1: seq<byte>, w2: seq<byte>, post: seq<byte>)
    requires |w1| == |w2| <= 4
    ensures Crc(pre + w1 + post) == Crc(pre + w2 + post) <==> w1 == w2
  {
    if Crc(pre + w1 + post) == Crc(pre + w2 + post) {
      RegisterWidth(0);
      XorCancel(CrcFrom(ALL_ONES, pre + w1 + post, 8), ALL_ONES);
      XorCancel(CrcFrom(ALL_ONES, pre + w2 + post, 8), ALL_ONES);
      BurstIn(pre, w1, w2, post, 8, 32);
    }
  }

  lemma BurstIn(pre: seq<byte>, w1: seq<byte>, w2: seq<byte>, post: seq<byte>, k: nat, w: nat)
    requires w > 0 && Pow2(w) == TWO_TO_THE_32 && Pow2(k) == 256 && |w1| == |w2| <= 4
    requires CrcFrom(ALL_ONES, pre + w1 + post, k) == CrcFrom(ALL_ONES, pre + w2 + post, k)
    ensures w1 == w2
  {
    var r := CrcFrom(ALL_ONES, pre, k);
    CrcFromBound(ALL_ONES, pre, k, w);
    CrcFromBound(r, w1, k, w);
    CrcFromBound(r, w2, k, w);
    CrcFromConcat(ALL_ONES, pre + w1, post, k);
    CrcFromConcat(ALL_ONES, pre, w1, k);
    CrcFromConcat(ALL_ONES, pre + w2, post, k);
    CrcFromConcat(ALL_ONES, pre, w2, k);
    CrcFromInjective(CrcFrom(r, w1, k), CrcFrom(r, w2, k), post, k, w);
    BlockInjective(r, w1, w2, k, w);
  }

  lemma BlockInjective(r: nat, w1: seq<byte>, w2: seq<byte>, k: nat, w: nat)
    requires w > 0 && Pow2(w) == TWO_TO_THE_32 && Pow2(k) == 256
    requires r < TWO_TO_THE_32 && |w1| == |w2| <= 4 && CrcFrom(r, w1, k) == CrcFrom(r, w2, k)
    ensures w1 == w2
  {
    FourBytes(w1);
    FourBytes(w2);
    XorBound(r, FromLe(w1), w);
    XorBound(r, FromLe(w2), w);
    CrcFromBlock(r, w1, k);
    CrcFromBlock(r, w2, k);
    SameBitCount(w1, w2, k);
    ShiftsInjective(Xor(r, FromLe(w1)), Xor(r, FromLe(w2)), BitCount(w1, k), w);
    XorInjective(r, FromLe(w1), FromLe(w2));
    FromLeInjective(w1, w2);
  }

  lemma {:induction false} SameBitCount(s: seq<byte>, t: seq<byte>, k: nat)
    requires |s| == |t|
    ensures BitCount(s, k) == BitCount(t, k)
  {
    if s != [] {
      SameBitCount(s[1..], t[1..], k);
    }
  }

  lemma FourBytes(w: seq<byte>)
    requires |w| <= 4
    ensures FromLe(w) < TWO_TO_THE_32
  {
    FromLeBound(w);
    assert Pow256(0) == 1 && Pow256(1) == 256 && Pow256(2) == 0x10000 && Pow256(3) == 0x100_0000
        && Pow256(4) == TWO_TO_THE_32;
  }
}
