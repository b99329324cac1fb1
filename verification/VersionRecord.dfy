// The system firmware version record: written by SYSFW_VERSION_program.py,
// checked by FVCreation.py with a CRC over the record itself.
module VersionRecord {
  import opened Bytes
  import opened Bits
  import opened Crc32
  import opened Layout

  const RECORD_SIZE: nat := 28
  const RECORD_REVISION: nat := 0x1_0000

  /** "SYSFWVER" */
  function RecordSignature(): seq<byte> { [0x53, 0x59, 0x53, 0x46, 0x57, 0x56, 0x45, 0x52] }

  /** The fields of the packed structure. */
  datatype Fields = Fields(signature: nat, revision: nat, dataSize: nat, crc: nat, fwVersion: nat, lowest: nat)

  /** Every field has its width. */
  predicate Fits(f: Fields) {
    && f.signature < Pow256(8) && f.revision < Pow256(4) && f.dataSize < Pow256(4)
    && f.crc < Pow256(4) && f.fwVersion < Pow256(4) && f.lowest < Pow256(4)
  }

  function ToBytes(f: Fields): (s: seq<byte>)
    ensures |s| == RECORD_SIZE
  {
    (Le(f.signature, 8) + Le(f.revision, 4) + Le(f.dataSize, 4))
    + (Le(f.crc, 4) + Le(f.fwVersion, 4) + Le(f.lowest, 4))
  }

  /** The structure at the start of a file. */
  function FromBytes(s: seq<byte>): Fields
    requires |s| >= RECORD_SIZE
  {
    Fields(Num(s, 0, 8), Num(s, 8, 4), Num(s, 12, 4), Num(s, 16, 4), Num(s, 20, 4), Num(s, 24, 4))
  }

  lemma BytesRead(f: Fields)
    requires Fits(f)
    ensures FromBytes(ToBytes(f)) == f
  {
    var s := ToBytes(f);
    assert s[0..|s|] == s;
    TwoParts(s, 0, Le(f.signature, 8) + Le(f.revision, 4) + Le(f.dataSize, 4),
             Le(f.crc, 4) + Le(f.fwVersion, 4) + Le(f.lowest, 4));
    ThreeParts(s, 0, Le(f.signature, 8), Le(f.revision, 4), Le(f.dataSize, 4));
    ThreeParts(s, 16, Le(f.crc, 4), Le(f.fwVersion, 4), Le(f.lowest, 4));
    NumAt(s, 0, f.signature, 8);
    NumAt(s, 8, f.revision, 4);
    NumAt(s, 12, f.dataSize, 4);
    NumAt(s, 16, f.crc, 4);
    NumAt(s, 20, f.fwVersion, 4);
    NumAt(s, 24, f.lowest, 4);
  }

  // ---------------------------------------------------------------------
  // Versions
  // ---------------------------------------------------------------------

  /** A version `a.b.c.d` as given on the command line. */
  datatype Version = Version(a: nat, b: nat, c: nat, d: nat)

  /** What assigning a number to a 32-bit field keeps of it. */
  function Truncated(v: nat): nat { v % TWO_TO_THE_32 }

  /** The last two parts, `(c << 16) | d`; the first two are not recorded. */
  function PackVersion(v: Version): nat { Truncated(Or(Shl(v.c, 16), v.d)) }

  /** `ViewBinaryFile` shows a packed version as two parts. */
  function UnpackVersion(p: nat): (nat, nat) { (p / 0x1_0000, p % 0x1_0000) }

  lemma Pow2Of16()
    ensures Pow2(16) == 0x1_0000
  {
    Pow2Add(2, 2);
    Pow2Add(4, 4);
    Pow2Add(8, 8);
    assert Pow2(2) == 4;
  }

  lemma Shl16(x: nat)
    ensures Shl(x, 16) == x * 0x1_0000
  {
    ShlPow2(x, 16);
    Pow2Of16();
  }

  lemma PackedValue(v: Version)
    requires v.c < 0x1_0000 && v.d < 0x1_0000
    ensures PackVersion(v) == v.c * 0x1_0000 + v.d
  {
    Shl16(v.c);
    LowClearShl(v.c, 16);
    Pow2Of16();
    OrDisjoint(Shl(v.c, 16), v.d, 16);
  }

  /** A packed version has the bits of the third part 16 places up and those of the fourth, and
      keeps 32 of them, whatever the parts. */
  lemma PackedBits(v: Version, j: nat)
    ensures Bit(PackVersion(v), j) <==> j < 32 && (Bit(v.d, j) || (j >= 16 && Bit(v.c, j - 16)))
  {
    var packed := Or(Shl(v.c, 16), v.d);
    Pow2Of32();
    ModBit(packed, 32, j);
    OrBit(Shl(v.c, 16), v.d, j);
    ShlBitAt(v.c, 16, j);
  }

  lemma Pow2Of32()
    ensures Pow2(32) == TWO_TO_THE_32
  {
    Pow2Of16();
    Pow2Add(16, 16);
  }

  /** Unpacking gives back the last two parts exactly if both are 16-bit numbers. */
  lemma UnpackIff(v: Version)
    ensures UnpackVersion(PackVersion(v)) == (v.c, v.d) <==> v.c < 0x1_0000 && v.d < 0x1_0000
  {
    if v.c < 0x1_0000 && v.d < 0x1_0000 {
      PackedValue(v);
    }
  }

  /** Packed versions are ordered as their last two parts are, the first of them first. */
  lemma PackedOrder(v: Version, w: Version)
    requires v.c < 0x1_0000 && v.d < 0x1_0000 && w.c < 0x1_0000 && w.d < 0x1_0000
    ensures PackVersion(v) < PackVersion(w) <==> v.c < w.c || (v.c == w.c && v.d < w.d)
  {
    PackedValue(v);
    PackedValue(w);
  }

  // ---------------------------------------------------------------------
  // Writing a record
  // ---------------------------------------------------------------------

  /** The CRC over the record with its CRC field zero. */
  function OwnCrc(f: Fields): nat
    requires f.dataSize <= RECORD_SIZE
  {
    Crc(ToBytes(f.(crc := 0))[..f.dataSize])
  }

  function Unsealed(fw: Version, low: Version): Fields {
    Fields(FromLe(RecordSignature()), RECORD_REVISION, RECORD_SIZE, 0, PackVersion(fw), PackVersion(low))
  }

  /** The record that `generate_binary_file` writes. */
  function Generated(fw: Version, low: Version): Fields {
    var f := Unsealed(fw, low);
    f.(crc := OwnCrc(f))
  }

  // ---------------------------------------------------------------------
  // Checking a record
  // ---------------------------------------------------------------------

  predicate IsAscii(s: seq<byte>) { forall i :: 0 <= i < |s| ==> s[i] < 0x80 }

  predicate SignatureOk(f: Fields) { Le(f.signature, 8) == RecordSignature() }

  /** The verdict of `validate_sys_fw_ver_binary_file`, and the record it leaves. A signature
      that is not ASCII raises before the CRC field is zeroed, a size beyond the record
      after it; either way the verdict so far is returned. */
  function Verdict(f: Fields): (bool, Fields) {
    var revisionOk := f.revision / 0x1_0000 == 1 && f.revision % 0x1_0000 == 0;
    if !IsAscii(Le(f.signature, 8)) then (revisionOk, f)
    else if f.dataSize > RECORD_SIZE then (revisionOk && SignatureOk(f), f.(crc := 0))
    else (revisionOk && SignatureOk(f) && f.crc == OwnCrc(f), f)
  }

  predicate Accepted(f: Fields) { Verdict(f).0 }

  /** A record whose revision, signature and CRC are all right. */
  predicate Genuine(f: Fields) {
    f.revision == RECORD_REVISION && SignatureOk(f) && f.dataSize <= RECORD_SIZE && f.crc == OwnCrc(f)
  }

  lemma SignatureIsAscii()
    ensures IsAscii(RecordSignature())
  {
  }

  /** Every genuine record is accepted. A record that is not is accepted exactly if its
      revision is right and checking it raises: on a signature that is not ASCII, or, with
      the right signature, on a size beyond the record. */
  lemma AcceptedIff(f: Fields)
    ensures Genuine(f) ==> Accepted(f)
    ensures Accepted(f) && !Genuine(f) <==>
            && f.revision == RECORD_REVISION
            && (!IsAscii(Le(f.signature, 8)) || (SignatureOk(f) && f.dataSize > RECORD_SIZE))
  {
    SignatureIsAscii();
  }

  /** Two records that are accepted with a wrong CRC: one whose signature is not ASCII,
      one that declares 29 bytes. */
  lemma UnreadRecords()
    ensures var f := Fields(0x80, RECORD_REVISION, RECORD_SIZE, 0, 0, 0); Accepted(f) && !Genuine(f)
    ensures var f := Fields(FromLe(RecordSignature()), RECORD_REVISION, 29, 0, 0, 0); Accepted(f) && !Genuine(f)
  {
    FromLeRoundTrip(RecordSignature());
    SignatureIsAscii();
    NotAscii(0x80, 8);
  }

  lemma NotAscii(v: nat, w: nat)
    requires 0x80 <= v < 0x100 && w > 0
    ensures Le(v, w) != [] && Le(v, w)[0] == v && !IsAscii(Le(v, w))
  {
    assert Le(v, w)[0] == v;
  }

  /** The CRC field is left as it was, except when the size is beyond the record. */
  lemma CrcRestoredIff(f: Fields)
    ensures Verdict(f).1 == f <==> !IsAscii(Le(f.signature, 8)) || f.dataSize <= RECORD_SIZE || f.crc == 0
  {
  }

  lemma GeneratedIsGenuine(fw: Version, low: Version)
    ensures Genuine(Generated(fw, low)) && Fits(Generated(fw, low))
  {
    var f := Unsealed(fw, low);
    FromLeRoundTrip(RecordSignature());
    FromLeBound(RecordSignature());
    CrcBound(ToBytes(f)[..RECORD_SIZE]);
    assert f.(crc := OwnCrc(f)).(crc := 0) == f;
  }

  /** Every record that is written is accepted when read back, and left as it was. */
  lemma GeneratedAccepted(fw: Version, low: Version)
    ensures FromBytes(ToBytes(Generated(fw, low))) == Generated(fw, low)
    ensures Verdict(Generated(fw, low)) == (true, Generated(fw, low))
  {
    GeneratedIsGenuine(fw, low);
    BytesRead(Generated(fw, low));
    AcceptedIff(Generated(fw, low));
    CrcRestoredIff(Generated(fw, low));
  }

  /** The 28 bytes of a written record: "SYSFWVER", revision 0x10000, the size 28, the CRC of
      the record with zero for the CRC, and the two packed versions. */
  lemma GeneratedBytes(fw: Version, low: Version, s: seq<byte>)
    requires s == ToBytes(Generated(fw, low))
    ensures |s| == 28 && s[..8] == [0x53, 0x59, 0x53, 0x46, 0x57, 0x56, 0x45, 0x52]
    ensures Num(s, 8, 4) == 0x1_0000 && Num(s, 12, 4) == 28
    ensures Num(s, 16, 4) == Crc(s[..16] + [0, 0, 0, 0] + s[20..])
    ensures Num(s, 20, 4) == PackVersion(fw) && Num(s, 24, 4) == PackVersion(low)
  {
    var f := Generated(fw, low);
    GeneratedIsGenuine(fw, low);
    FieldsStored(f, s);
    RecordParts(f, s);
    FromLeRoundTrip(RecordSignature());
    CrcStored(f, s);
  }

  lemma FieldsStored(f: Fields, s: seq<byte>)
    requires Fits(f) && s == ToBytes(f)
    ensures Num(s, 8, 4) == f.revision && Num(s, 12, 4) == f.dataSize && Num(s, 16, 4) == f.crc
    ensures Num(s, 20, 4) == f.fwVersion && Num(s, 24, 4) == f.lowest
  {
    BytesRead(f);
  }

  lemma CrcStored(f: Fields, s: seq<byte>)
    requires s == ToBytes(f) && f.dataSize == RECORD_SIZE && f.crc == OwnCrc(f)
    ensures f.crc == Crc(s[..16] + [0, 0, 0, 0] + s[20..])
  {
    RecordParts(f, s);
    assert ToBytes(f.(crc := 0))[..RECORD_SIZE] == ToBytes(f.(crc := 0));
  }

  lemma RecordParts(f: Fields, s: seq<byte>)
    requires s == ToBytes(f)
    ensures |s| == 28 && s[..8] == Le(f.signature, 8)
    ensures ToBytes(f.(crc := 0)) == s[..16] + [0, 0, 0, 0] + s[20..]
  {
    ZeroWord();
    assert s[16..20] == Le(f.crc, 4);
    assert s == s[..16] + s[16..20] + s[20..];
    assert ToBytes(f.(crc := 0)) == s[..16] + Le(0, 4) + s[20..];
  }

  lemma ZeroWord()
    ensures Le(0, 4) == [0, 0, 0, 0]
  {
    assert Le(0, 4) == [0] + Le(0, 3) && Le(0, 3) == [0] + Le(0, 2) && Le(0, 2) == [0] + Le(0, 1);
  }

  // ---------------------------------------------------------------------
  // Tampering
  // ---------------------------------------------------------------------

  /** The bytes under the CRC, around the firmware version. */
  lemma AroundVersion(f: Fields, n: nat)
    requires 24 <= n <= RECORD_SIZE
    ensures ToBytes(f)[..n]
         == (Le(f.signature, 8) + Le(f.revision, 4) + Le(f.dataSize, 4) + Le(f.crc, 4)) + Le(f.fwVersion, 4)
            + Le(f.lowest, 4)[..n - 24]
  {
  }

  lemma AroundLowest(f: Fields)
    ensures ToBytes(f)[..RECORD_SIZE]
         == (Le(f.signature, 8) + Le(f.revision, 4) + Le(f.dataSize, 4) + Le(f.crc, 4) + Le(f.fwVersion, 4))
            + Le(f.lowest, 4) + []
  {
  }

  lemma LeDiffers(x: nat, y: nat)
    requires x < Pow256(4) && y < Pow256(4) && x != y
    ensures Le(x, 4) != Le(y, 4)
  {
    LeRoundTrip(x, 4);
    LeRoundTrip(y, 4);
  }

  /** Changing only the firmware version of a genuine record whose CRC covers it makes the
      check fail. */
  lemma VersionTampered(f: Fields, x: nat)
    requires Fits(f) && Genuine(f) && 24 <= f.dataSize && x < Pow256(4) && x != f.fwVersion
    ensures !Accepted(f.(fwVersion := x))
  {
    var g, h := f.(crc := 0), f.(crc := 0, fwVersion := x);
    AroundVersion(g, f.dataSize);
    AroundVersion(h, f.dataSize);
    LeDiffers(f.fwVersion, x);
    BurstDetected(Le(g.signature, 8) + Le(g.revision, 4) + Le(g.dataSize, 4) + Le(g.crc, 4),
                  Le(f.fwVersion, 4), Le(x, 4), Le(g.lowest, 4)[..f.dataSize - 24]);
    assert f.(fwVersion := x).(crc := 0) == h;
    AcceptedIff(f.(fwVersion := x));
    SignatureIsAscii();
  }

  /** So does changing only the lowest supported version. */
  lemma LowestTampered(f: Fields, x: nat)
    requires Fits(f) && Genuine(f) && f.dataSize == RECORD_SIZE && x < Pow256(4) && x != f.lowest
    ensures !Accepted(f.(lowest := x))
  {
    var g, h := f.(crc := 0), f.(crc := 0, lowest := x);
    AroundLowest(g);
    AroundLowest(h);
    LeDiffers(f.lowest, x);
    BurstDetected(Le(g.signature, 8) + Le(g.revision, 4) + Le(g.dataSize, 4) + Le(g.crc, 4) + Le(g.fwVersion, 4),
                  Le(f.lowest, 4), Le(x, 4), []);
    assert f.(lowest := x).(crc := 0) == h;
    AcceptedIff(f.(lowest := x));
    SignatureIsAscii();
  }

  /** A generated record is rejected after a change of either version. */
  lemma GeneratedTampered(fw: Version, low: Version, x: nat)
    requires x < Pow256(4)
    ensures x != PackVersion(fw) ==> !Accepted(Generated(fw, low).(fwVersion := x))
    ensures x != PackVersion(low) ==> !Accepted(Generated(fw, low).(lowest := x))
  {
    var f := Generated(fw, low);
    GeneratedIsGenuine(fw, low);
    if x != f.fwVersion {
      VersionTampered(f, x);
    }
    if x != f.lowest {
      LowestTampered(f, x);
    }
  }

  // ---------------------------------------------------------------------
  // The programs
  // ---------------------------------------------------------------------

  /** The structure both programs keep a record in. */
  class Record {
    var signature: nat
    var revision: nat
    var dataSize: nat
    var crc: nat
    var fwVersion: nat
    var lowest: nat

    function Value(): Fields
      reads this
    {
      Fields(signature, revision, dataSize, crc, fwVersion, lowest)
    }

    constructor ()
      ensures Value() == Fields(0, 0, 0, 0, 0, 0)
    {
      signature, revision, dataSize, crc, fwVersion, lowest := 0, 0, 0, 0, 0, 0;
    }

    /** Fields are set one by one, the CRC last, over the record so far. */
    method Generate(fw: Version, low: Version)
      modifies this
      ensures Value() == Generated(fw, low)
    {
      crc := 0;
      signature := FromLe(RecordSignature());
      revision := RECORD_REVISION;
      fwVersion := PackVersion(fw);
      lowest := PackVersion(low);
      dataSize := |ToBytes(Value())|;
      var sum := CalcCrc32(ToBytes(Value()), dataSize);
      if sum.Some? {
        crc := sum.value;
      }
    }

    /** The CRC field is zero while the CRC is computed. */
    method Validate() returns (ok: bool)
      modifies this
      ensures (ok, Value()) == Verdict(old(Value()))
    {
      ok := revision / 0x1_0000 == 1 && revision % 0x1_0000 == 0;
      var bytesSignature := Le(signature, 8);
      if !IsAscii(bytesSignature) {
        return;
      }
      ok := ok && bytesSignature == RecordSignature();
      var saved := crc;
      crc := 0;
      var sum := CalcCrc32(ToBytes(Value()), dataSize);
      if sum.None? {
        return;
      }
      ok := ok && saved == sum.value;
      crc := saved;
    }
  }
}
