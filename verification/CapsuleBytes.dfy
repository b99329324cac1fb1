// An encoded capsule byte by byte, in the numbers of the UEFI Specification 2.10,
// sections 8.5.3, 23.1 and 23.3.
module CapsuleBytes {
  import opened Bytes
  import opened Bits
  import opened Layout
  import opened Capsule
  import opened CapsuleRead
  import opened CapsuleTrip

  // ---------------------------------------------------------------------
  // Flags
  // ---------------------------------------------------------------------

  /** No other name is accepted. */
  lemma {:induction false} KnownNames(flags: nat, names: seq<string>)
    requires FoldFlags(flags, names).Some?
    ensures forall name :: name in names ==> name in {"PersistAcrossReset", "PopulateSystemTable", "InitiateReset"}
    decreases names
  {
    if names != [] {
      KnownNames(Or(flags, Pow2(FlagBit(names[0]).value)), names[1..]);
      assert names == [names[0]] + names[1..];
    }
  }

  lemma NameIs(name: string)
    ensures FlagBit(name) == Some(16) <==> name == "PersistAcrossReset"
    ensures FlagBit(name) == Some(17) <==> name == "PopulateSystemTable"
    ensures FlagBit(name) == Some(18) <==> name == "InitiateReset"
    ensures FlagBit(name).Some? ==> FlagBit(name).value in {16, 17, 18}
  {
    assert |"PersistAcrossReset"| == 18 && |"PopulateSystemTable"| == 19 && |"InitiateReset"| == 13;
  }

  /** A bit of the flag word, for any OEM flags. */
  lemma FlagWordBit(flags: nat, names: seq<string>, w: nat, j: nat)
    requires FoldFlags(flags, names) == Some(w)
    ensures Bit(w, j) <==>
              || Bit(flags, j) || (j == 16 && "PersistAcrossReset" in names)
              || (j == 17 && "PopulateSystemTable" in names) || (j == 18 && "InitiateReset" in names)
  {
    FoldedBit(flags, names, j);
    forall k | 0 <= k < |names|
      ensures FlagBit(names[k]) == Some(16) <==> names[k] == "PersistAcrossReset"
      ensures FlagBit(names[k]) == Some(17) <==> names[k] == "PopulateSystemTable"
      ensures FlagBit(names[k]) == Some(18) <==> names[k] == "InitiateReset"
      ensures FlagBit(names[k]).Some? ==> FlagBit(names[k]).value in {16, 17, 18}
    {
      NameIs(names[k]);
    }
    GivenIff(names, "PersistAcrossReset", 16);
    GivenIff(names, "PopulateSystemTable", 17);
    GivenIff(names, "InitiateReset", 18);
  }

  lemma GivenIff(names: seq<string>, name: string, bit: nat)
    requires forall k :: 0 <= k < |names| ==> (FlagBit(names[k]) == Some(bit) <==> names[k] == name)
    ensures name in names <==> exists k :: 0 <= k < |names| && FlagBit(names[k]) == Some(bit)
  {
    if name in names {
      var k :| 0 <= k < |names| && names[k] == name;
      assert FlagBit(names[k]) == Some(bit);
    }
  }

  lemma {:induction false} SameBits(a: nat, b: nat)
    requires forall j: nat :: Bit(a, j) == Bit(b, j)
    ensures a == b
    decreases a + b
  {
    assert Bit(a, 0) == Bit(b, 0);
    if a + b > 0 {
      forall j: nat
        ensures Bit(a / 2, j) == Bit(b / 2, j)
      {
        assert Bit(a, j + 1) == Bit(b, j + 1);
      }
      SameBits(a / 2, b / 2);
    }
  }

  /** The bits of a number of `n` bits with another one above it. */
  lemma {:induction false} BitSplit(lo: nat, hi: nat, n: nat, j: nat)
    requires lo < Pow2(n)
    ensures Bit(lo + Pow2(n) * hi, j) == if j < n then Bit(lo, j) else Bit(hi, j - n)
    decreases n
  {
    if n > 0 {
      HalfOfSum(lo, hi, Pow2(n - 1));
      if j > 0 {
        BitSplit(lo / 2, hi, n - 1, j - 1);
      }
    }
  }

  lemma HalfOfSum(lo: nat, hi: nat, p: nat)
    ensures (lo + 2 * p * hi) / 2 == lo / 2 + p * hi && (lo + 2 * p * hi) % 2 == lo % 2
  {
    var x := p * hi;
    assert 2 * p * hi == 2 * x;
  }

  function One(b: bool): nat { if b then 1 else 0 }

  /** Three bits. */
  lemma ThreeBits(p: bool, q: bool, r: bool, j: nat)
    ensures Bit(One(p) + 2 * One(q) + 4 * One(r), j) <==> (j == 0 && p) || (j == 1 && q) || (j == 2 && r)
  {
    var x := One(p) + 2 * One(q) + 4 * One(r);
    assert x / 2 == One(q) + 2 * One(r) && x / 2 / 2 == One(r) && x / 2 / 2 / 2 == 0;
    if j >= 3 {
      NoBits(0, 0, j - 3);
      assert Bit(x, j) == Bit(x / 2, j - 1) == Bit(x / 2 / 2, j - 2) == Bit(x / 2 / 2 / 2, j - 3);
    } else if j == 2 {
      assert Bit(x, 2) == Bit(x / 2, 1) == Bit(x / 2 / 2, 0);
    } else if j == 1 {
      assert Bit(x, 1) == Bit(x / 2, 0);
    }
  }

  /** With OEM flags of 16 bits the flag word is their sum with 0x10000, 0x20000 and 0x40000 for
      the names given. */
  lemma FlagWord(flags: nat, names: seq<string>, w: nat)
    requires FoldFlags(flags, names) == Some(w) && flags < 0x1_0000
    ensures w == flags + (if "PersistAcrossReset" in names then 0x1_0000 else 0)
                 + (if "PopulateSystemTable" in names then 0x2_0000 else 0)
                 + (if "InitiateReset" in names then 0x4_0000 else 0)
  {
    var p, q, r := "PersistAcrossReset" in names, "PopulateSystemTable" in names, "InitiateReset" in names;
    var n: nat := 16;
    var hi := One(p) + 2 * One(q) + 4 * One(r);
    var v := flags + 0x1_0000 * hi;
    Pow2Is16(n);
    forall j: nat
      ensures Bit(w, j) == Bit(v, j)
    {
      FlagWordBit(flags, names, w, j);
      SumBit(flags, n, p, q, r, hi, j, v);
    }
    SameBits(w, v);
  }

  lemma SumBit(flags: nat, n: nat, p: bool, q: bool, r: bool, hi: nat, j: nat, v: nat)
    requires flags < Pow2(n) == 0x1_0000 && n == 16 && hi == One(p) + 2 * One(q) + 4 * One(r) && v == flags + 0x1_0000 * hi
    ensures Bit(v, j) <==> Bit(flags, j) || (j == 16 && p) || (j == 17 && q) || (j == 18 && r)
  {
    BitSplit(flags, hi, n, j);
    if j >= n {
      NoBits(flags, n, j);
      ThreeBits(p, q, r, j - n);
    }
  }

  lemma Pow2Is16(n: nat)
    requires n == 16
    ensures Pow2(n) == 0x1_0000
  {
    Pow2Add(2, 2);
    Pow2Add(4, 4);
    Pow2Add(8, 8);
    assert Pow2(2) == 4;
  }

  // ---------------------------------------------------------------------
  // The outer header
  // ---------------------------------------------------------------------

  /** The capsule header: the GUID of firmware-management capsules, 32, the flag word, the length
      of the file, and zero; then version 1 and the numbers of drivers and payloads. */
  lemma CapsuleHeader(sign: Signer, ps: seq<Payload>, drivers: seq<seq<byte>>, names: seq<string>, oemFlags: int,
                      data: seq<byte>)
    requires EncodeCapsule(sign, ps, drivers, names, oemFlags) == Some(data)
    ensures 40 <= |data| < 0x1_0000_0000 && 0 <= oemFlags && FoldFlags(oemFlags, names) == Some(Num(data, 20, 4))
    ensures data[..16] == [0xED, 0xD5, 0xCB, 0x6D, 0x2D, 0xE8, 0x44, 0x4C, 0xBD, 0xA1, 0x71, 0x94, 0x19, 0x9A, 0xD9, 0x2A]
    ensures Num(data, 16, 4) == 32 && Num(data, 24, 4) == |data| && Num(data, 28, 4) == 0
    ensures Num(data, 32, 4) == 1 && Num(data, 36, 2) == |drivers| && Num(data, 38, 2) == |ps|
  {
    var items, body, flags := CapsuleParts(sign, ps, drivers, names, oemFlags, data);
    Word32(4);
    OuterRead(data, flags, body);
    ReservedZero(data, flags, body);
    ReaderRecovers(sign);
    ItemsRead(sign, ItemReader(), ps, items);
    BodyRead(drivers + items, |drivers|, |ps|, body);
    BodyNums(data, body);
  }

  lemma Word32(w: nat)
    requires w == 4
    ensures Pow256(w) == 0x1_0000_0000
  {
    assert Pow256(1) == 0x100 && Pow256(2) == 0x1_0000 && Pow256(3) == 0x100_0000;
  }

  lemma ReservedZero(data: seq<byte>, flags: nat, body: seq<byte>)
    requires data == OuterHeader(flags, CAPSULE_HEADER_SIZE + |body|) + body
    ensures Num(data, 28, 4) == 0
  {
    var size := CAPSULE_HEADER_SIZE + |body|;
    assert data[0..32] == OuterHeader(flags, size);
    ThreeParts(data, 0, CapsuleIdGuid() + Le(CAPSULE_HEADER_SIZE, 4), Le(flags, 4) + Le(size, 4), Le(0, 4));
    NumAt(data, 28, 0, 4);
  }

  lemma BodyNums(data: seq<byte>, body: seq<byte>)
    requires 32 <= |data| && data[32..] == body && 8 <= |body|
    ensures Num(data, 32, 4) == Num(body, 0, 4) && Num(data, 36, 2) == Num(body, 4, 2) && Num(data, 38, 2) == Num(body, 6, 2)
  {
    assert data[32..36] == body[0..4] && data[36..38] == body[4..6] && data[38..40] == body[6..8];
  }

  /** The flag word in the file: for each bit, and with 16-bit OEM flags as a sum. */
  lemma CapsuleFlags(sign: Signer, ps: seq<Payload>, drivers: seq<seq<byte>>, names: seq<string>, oemFlags: nat,
                     data: seq<byte>)
    requires EncodeCapsule(sign, ps, drivers, names, oemFlags) == Some(data)
    ensures Bit(Num(data, 20, 4), 16) <==> Bit(oemFlags, 16) || "PersistAcrossReset" in names
    ensures Bit(Num(data, 20, 4), 17) <==> Bit(oemFlags, 17) || "PopulateSystemTable" in names
    ensures Bit(Num(data, 20, 4), 18) <==> Bit(oemFlags, 18) || "InitiateReset" in names
    ensures forall j: nat :: j !in {16, 17, 18} ==> Bit(Num(data, 20, 4), j) == Bit(oemFlags, j)
    ensures oemFlags < 0x1_0000 ==>
              Num(data, 20, 4) == oemFlags + (if "PersistAcrossReset" in names then 0x1_0000 else 0)
                                  + (if "PopulateSystemTable" in names then 0x2_0000 else 0)
                                  + (if "InitiateReset" in names then 0x4_0000 else 0)
  {
    CapsuleHeader(sign, ps, drivers, names, oemFlags, data);
    var w := Num(data, 20, 4);
    forall j: nat
      ensures Bit(w, j) <==>
                || Bit(oemFlags, j) || (j == 16 && "PersistAcrossReset" in names)
                || (j == 17 && "PopulateSystemTable" in names) || (j == 18 && "InitiateReset" in names)
    {
      FlagWordBit(oemFlags, names, w, j);
    }
    if oemFlags < 0x1_0000 {
      FlagWord(oemFlags, names, w);
    }
  }

  /** The flag word that the decoder reads, for 16-bit OEM flags: bits 16, 17 and 18 say which
      names were given, bits 0 to 15 are the OEM flags. */
  lemma DecodedFlags(sign: Signer, ps: seq<Payload>, drivers: seq<seq<byte>>, names: seq<string>, oemFlags: nat,
                     data: seq<byte>, info: CapsuleInfo)
    requires EncodeCapsule(sign, ps, drivers, names, oemFlags) == Some(data) && oemFlags < 0x1_0000
    requires Decode(data) == Some(info)
    ensures info.flags == Num(data, 20, 4)
    ensures Bit(info.flags, 16) <==> "PersistAcrossReset" in names
    ensures Bit(info.flags, 17) <==> "PopulateSystemTable" in names
    ensures Bit(info.flags, 18) <==> "InitiateReset" in names
    ensures forall j: nat :: j < 16 ==> Bit(info.flags, j) == Bit(oemFlags, j)
  {
    var w := Num(data, 20, 4);
    CapsuleHeader(sign, ps, drivers, names, oemFlags, data);
    DecodedWord(sign, ps, drivers, names, oemFlags, data, w);
    LowWord(oemFlags, names, w);
  }

  lemma DecodedWord(sign: Signer, ps: seq<Payload>, drivers: seq<seq<byte>>, names: seq<string>, oemFlags: nat,
                    data: seq<byte>, w: nat)
    requires EncodeCapsule(sign, ps, drivers, names, oemFlags) == Some(data) && FoldFlags(oemFlags, names) == Some(w)
    ensures Decode(data).Some? && Decode(data).value.flags == w
  {
    RoundTrip(sign, ps, drivers, names, oemFlags, data);
  }

  lemma LowWord(flags: nat, names: seq<string>, w: nat)
    requires FoldFlags(flags, names) == Some(w) && flags < 0x1_0000
    ensures Bit(w, 16) <==> "PersistAcrossReset" in names
    ensures Bit(w, 17) <==> "PopulateSystemTable" in names
    ensures Bit(w, 18) <==> "InitiateReset" in names
    ensures forall j: nat :: j < 16 ==> Bit(w, j) == Bit(flags, j)
  {
    Pow2Is16(16);
    forall j: nat
      ensures Bit(w, j) <==>
                || (j < 16 && Bit(flags, j)) || (j == 16 && "PersistAcrossReset" in names)
                || (j == 17 && "PopulateSystemTable" in names) || (j == 18 && "InitiateReset" in names)
    {
      FlagWordBit(flags, names, w, j);
      if j >= 16 {
        NoBits(flags, 16, j);
      }
    }
  }

  /** Any other name is an error. */
  lemma UnknownFlag(sign: Signer, ps: seq<Payload>, drivers: seq<seq<byte>>, names: seq<string>, oemFlags: int, name: string)
    requires name in names && name !in {"PersistAcrossReset", "PopulateSystemTable", "InitiateReset"}
    ensures EncodeCapsule(sign, ps, drivers, names, oemFlags) == None
  {
    if oemFlags >= 0 && FoldFlags(oemFlags, names).Some? {
      KnownNames(oemFlags, names);
      assert false;
    }
  }

  // ---------------------------------------------------------------------
  // An item
  // ---------------------------------------------------------------------

  /** The firmware image of a payload: "MSS1", 16, the two versions, the payload. */
  predicate IsImage(s: seq<byte>, at: nat, p: Payload) {
    && at + 16 + |p.bytes| == |s| && s[at..at + 4] == [0x4D, 0x53, 0x53, 0x31] && Num(s, at + 4, 4) == 16
    && Num(s, at + 8, 4) == p.d.fwVersion && Num(s, at + 12, 4) == p.d.lowestSupportedVersion && s[at + 16..] == p.bytes
  }

  /** The item of a payload: version 3, the GUID, the image index, the length of what follows, no
      vendor code, the hardware instance and whether there is an authentication; then the
      monotonic count and the certificate if there is one, and the firmware image. */
  lemma ItemBytes(sign: Signer, p: Payload, item: seq<byte>)
    requires EncodeItem(sign, p) == Some(item)
    ensures 64 <= |item| && Num(item, 0, 4) == 3 && item[4..20] == p.d.guid && item[20] == p.d.updateImageIndex
    ensures item[21..24] == [0, 0, 0] && Num(item, 24, 4) == |item| - 48 && Num(item, 28, 4) == 0
    ensures Num(item, 32, 8) == p.d.hardwareInstance && Num(item, 40, 8) == if p.d.sign then 1 else 0
    ensures !p.d.sign ==> IsImage(item, 48, p)
    ensures p.d.sign ==>
              && 80 <= |item| && Num(item, 48, 8) == p.d.monotonicCount
              && Num(item, 60, 2) == 0x0200 && Num(item, 62, 2) == 0x0EF1
              && item[64..80] == [0x9D, 0xD2, 0xAF, 0x4A, 0xDF, 0x68, 0xEE, 0x49, 0x8A, 0xA9, 0x34, 0x7D, 0x37, 0x56, 0x65, 0xA7]
              && 24 <= Num(item, 56, 4) && IsImage(item, 56 + Num(item, 56, 4), p)
              && sign(item[56 + Num(item, 56, 4)..] + Le(p.d.monotonicCount, 8)) == Some(item[80..56 + Num(item, 56, 4)])
  {
    EncodesIff(sign, p);
    var whole := Whole(sign, p);
    ItemParts(p.d, whole, item);
    HeaderRead(item, p.d, |whole|);
    IndexBytes(item, p.d, |whole|);
    if p.d.sign {
      SignedBytes(sign, p, item, sign(SignedContent(p)).value);
    } else {
      ImageBytes(item, 48, p);
    }
  }

  /** The image at the end of a file. */
  lemma ImageBytes(s: seq<byte>, at: nat, p: Payload)
    requires 0 <= p.d.fwVersion < Pow256(4) && 0 <= p.d.lowestSupportedVersion < Pow256(4)
    requires at <= |s| && s[at..] == ImageOf(p)
    ensures IsImage(s, at, p)
  {
    var fw, low := p.d.fwVersion, p.d.lowestSupportedVersion;
    assert s[at..|s|] == ImageOf(p);
    ThreeParts(s, at, PayloadSignature() + Le(FMP_PAYLOAD_HEADER_SIZE, 4), Le(fw, 4) + Le(low, 4), p.bytes);
    TwoParts(s, at, PayloadSignature(), Le(FMP_PAYLOAD_HEADER_SIZE, 4));
    TwoParts(s, at + 8, Le(fw, 4), Le(low, 4));
    Word32(4);
    NumAt(s, at + 4, 16, 4);
    NumAt(s, at + 8, fw, 4);
    NumAt(s, at + 12, low, 4);
  }

  lemma SignedBytes(sign: Signer, p: Payload, item: seq<byte>, cert: seq<byte>)
    requires InRange(sign, p) && p.d.sign && sign(SignedContent(p)) == Some(cert)
    requires 48 <= |item| && item[48..] == AuthHeader(p.d.monotonicCount, cert) + ImageOf(p)
    ensures 80 <= |item| && Num(item, 48, 8) == p.d.monotonicCount && Num(item, 56, 4) == 24 + |cert|
    ensures Num(item, 60, 2) == 0x0200 && Num(item, 62, 2) == 0x0EF1
    ensures item[64..80] == [0x9D, 0xD2, 0xAF, 0x4A, 0xDF, 0x68, 0xEE, 0x49, 0x8A, 0xA9, 0x34, 0x7D, 0x37, 0x56, 0x65, 0xA7]
    ensures 80 + |cert| <= |item| && item[80..80 + |cert|] == cert && item[80 + |cert|..] == ImageOf(p)
    ensures IsImage(item, 80 + |cert|, p)
    ensures sign(item[80 + |cert|..] + Le(p.d.monotonicCount, 8)) == Some(cert)
  {
    var auth, image := AuthHeader(p.d.monotonicCount, cert), ImageOf(p);
    assert item[48..|item|] == auth + image;
    TwoParts(item, 48, auth, image);
    assert item[80 + |cert|..] == image;
    AuthBytes(item, p.d.monotonicCount, cert);
    ImageBytes(item, 80 + |cert|, p);
  }

  lemma AuthBytes(item: seq<byte>, count: nat, cert: seq<byte>)
    requires count < Pow256(8) && WIN_CERT_PREFIX_LEN + |cert| < Pow256(4)
    requires 80 + |cert| <= |item| && item[48..80 + |cert|] == AuthHeader(count, cert)
    ensures Num(item, 48, 8) == count && Num(item, 56, 4) == 24 + |cert|
    ensures Num(item, 60, 2) == 0x0200 && Num(item, 62, 2) == 0x0EF1
    ensures item[64..80] == Pkcs7Guid() && item[80..80 + |cert|] == cert
  {
    var length := Le(WIN_CERT_PREFIX_LEN + |cert|, 4);
    ThreeParts(item, 48, Le(count, 8) + length, Le(WIN_CERT_REVISION, 2) + Le(WIN_CERT_TYPE_EFI_GUID, 2), Pkcs7Guid() + cert);
    TwoParts(item, 48, Le(count, 8), length);
    TwoParts(item, 60, Le(WIN_CERT_REVISION, 2), Le(WIN_CERT_TYPE_EFI_GUID, 2));
    TwoParts(item, 64, Pkcs7Guid(), cert);
    Word16(2);
    NumAt(item, 48, count, 8);
    NumAt(item, 56, 24 + |cert|, 4);
    NumAt(item, 60, 0x0200, 2);
    NumAt(item, 62, 0x0EF1, 2);
  }

  lemma Word16(w: nat)
    requires w == 2
    ensures Pow256(w) == 0x1_0000
  {
    assert Pow256(1) == 0x100;
  }

  lemma IndexBytes(item: seq<byte>, d: Descriptor, size: nat)
    requires 0 <= d.updateImageIndex <= 0xFF && 0 <= d.hardwareInstance
    requires 48 <= |item| && item[0..48] == ImageHeader(d, size)
    ensures item[20] == d.updateImageIndex && item[21..24] == [0, 0, 0]
  {
    var a, b := Le(FMP_IMAGE_HEADER_VERSION, 4) + d.guid, [d.updateImageIndex, 0, 0, 0];
    ThreeParts(item, 0, a, b + (Le(size, 4) + Le(0, 4)), Le(d.hardwareInstance, 8) + Le(Support(d), 8));
    TwoParts(item, 20, b, Le(size, 4) + Le(0, 4));
    Within(item, 20, b, 0, 1);
    Within(item, 20, b, 1, 4);
    assert item[20..21][0] == item[20];
  }
}
