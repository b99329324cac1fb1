// Building firmware-management capsules: the encoder of generate_capsule.py.
// Structures are those of the UEFI Specification 2.10, sections 8.5.3, 23.1
// and 23.3. The signature is a parameter.
module Capsule {
  import opened Bytes
  import opened Bits
  import opened Ffs

  const CAPSULE_HEADER_SIZE: nat := 32
  const FMP_CAPSULE_HEADER_VERSION: nat := 1
  const FMP_CAPSULE_HEADER_SIZE: nat := 8
  const FMP_IMAGE_HEADER_VERSION: nat := 3
  const FMP_IMAGE_HEADER_SIZE: nat := 48
  const CAPSULE_SUPPORT_AUTHENTICATION: nat := 1
  const WIN_CERT_PREFIX_LEN: nat := 24
  const WIN_CERT_REVISION: nat := 0x0200
  const WIN_CERT_TYPE_EFI_GUID: nat := 0x0EF1
  const AUTH_HEADER_SIZE: nat := 32
  const FMP_PAYLOAD_HEADER_SIZE: nat := 16

  /** "MSS1" */
  function PayloadSignature(): (s: seq<byte>)
    ensures |s| == 4
  {
    [0x4D, 0x53, 0x53, 0x31]
  }

  /** 6dcbd5ed-e82d-4c44-bda1-7194199ad92a */
  function CapsuleIdGuid(): Guid {
    [0xED, 0xD5, 0xCB, 0x6D, 0x2D, 0xE8, 0x44, 0x4C, 0xBD, 0xA1, 0x71, 0x94, 0x19, 0x9A, 0xD9, 0x2A]
  }

  /** 4aafd29d-68df-49ee-8aa9-347d375665a7 */
  function Pkcs7Guid(): Guid {
    [0x9D, 0xD2, 0xAF, 0x4A, 0xDF, 0x68, 0xEE, 0x49, 0x8A, 0xA9, 0x34, 0x7D, 0x37, 0x56, 0x65, 0xA7]
  }

  // ---------------------------------------------------------------------
  // Descriptors
  // ---------------------------------------------------------------------

  /** An entry of the JSON payload list, numbers already converted. */
  datatype Config = Config(
    guid: Guid, fwVersion: int, lowestSupportedVersion: int, monotonicCount: int, hardwareInstance: int,
    updateImageIndex: int, signerCert: bool, otherCert: bool, trustedCert: bool,
    usesSignTool: bool, hasDependencies: bool)

  datatype Descriptor = Descriptor(
    guid: Guid, fwVersion: int, lowestSupportedVersion: int, monotonicCount: int, hardwareInstance: int,
    updateImageIndex: int, sign: bool)

  /** `v >> 32` */
  function ShiftedOut(v: int): int { v / 0x1_0000_0000 }

  /** None is the `ValueError` of a field that is not acceptable. */
  function MakeDescriptor(c: Config): Option<Descriptor> {
    var sign := c.signerCert || c.otherCert || c.trustedCert;
    if c.usesSignTool || c.hasDependencies then None
    else if sign && !(c.signerCert && c.otherCert && c.trustedCert) then None
    else if ShiftedOut(c.fwVersion) != 0 || ShiftedOut(c.lowestSupportedVersion) != 0 then None
    else if !(1 <= c.updateImageIndex <= 0xFF) then None
    else Some(Descriptor(c.guid, c.fwVersion, c.lowestSupportedVersion, c.monotonicCount, c.hardwareInstance,
                         c.updateImageIndex, sign))
  }

  /** A descriptor is accepted exactly if both versions are 32-bit numbers, the index is a
      positive byte, no signing feature is unsupported, and all or none of the three
      certificates are given. */
  lemma DescriptorAcceptedIff(c: Config)
    ensures MakeDescriptor(c).Some? <==>
            && 0 <= c.fwVersion < Pow256(4) && 0 <= c.lowestSupportedVersion < Pow256(4)
            && 1 <= c.updateImageIndex <= 0xFF
            && !c.usesSignTool && !c.hasDependencies
            && c.signerCert == c.otherCert == c.trustedCert
    ensures MakeDescriptor(c).Some? ==> MakeDescriptor(c).value.sign == c.signerCert
  {
  }

  // ---------------------------------------------------------------------
  // One payload
  // ---------------------------------------------------------------------

  /** What `openssl smime -sign` makes of the bytes to be signed; None when it fails. */
  type Signer = seq<byte> -> Option<seq<byte>>

  /** `struct.pack` of an unsigned number; None is `struct.error`. */
  function Pack(v: int, w: nat): (r: Option<seq<byte>>)
    ensures r.Some? <==> 0 <= v < Pow256(w)
    ensures r.Some? ==> |r.value| == w && r.value == Le(v, w)
  {
    if 0 <= v < Pow256(w) then Some(Le(v, w)) else None
  }

  /** The MSS1 header and the payload. */
  function PayloadImage(fwVersion: nat, lowest: nat, payload: seq<byte>): (s: seq<byte>)
    ensures |s| == FMP_PAYLOAD_HEADER_SIZE + |payload|
  {
    (PayloadSignature() + Le(FMP_PAYLOAD_HEADER_SIZE, 4)) + (Le(fwVersion, 4) + Le(lowest, 4)) + payload
  }

  /** The authentication header in front of an image: count, WIN_CERTIFICATE, certificate. */
  function AuthHeader(count: nat, cert: seq<byte>): (s: seq<byte>)
    ensures |s| == AUTH_HEADER_SIZE + |cert|
  {
    (Le(count, 8) + Le(WIN_CERT_PREFIX_LEN + |cert|, 4)) + (Le(WIN_CERT_REVISION, 2) + Le(WIN_CERT_TYPE_EFI_GUID, 2))
    + (Pkcs7Guid() + cert)
  }

  /** `encode_payload` */
  function EncodePayload(sign: Signer, d: Descriptor, payload: seq<byte>): Option<seq<byte>> {
    var fw :- Pack(d.fwVersion, 4);
    var lowest :- Pack(d.lowestSupportedVersion, 4);
    var image := PayloadImage(d.fwVersion, d.lowestSupportedVersion, payload);
    if !d.sign then Some(image)
    else
      var count :- Pack(d.monotonicCount, 8);
      var cert :- sign(image + count);
      var length :- Pack(WIN_CERT_PREFIX_LEN + |cert|, 4);
      Some(AuthHeader(d.monotonicCount, cert) + image)
  }

  // ---------------------------------------------------------------------
  // The capsule body
  // ---------------------------------------------------------------------

  datatype Payload = Payload(d: Descriptor, bytes: seq<byte>)

  function Support(d: Descriptor): nat { if d.sign then CAPSULE_SUPPORT_AUTHENTICATION else 0 }

  /** The image header, version 3, without vendor code. */
  function ImageHeader(d: Descriptor, size: nat): (s: seq<byte>)
    requires 0 <= d.updateImageIndex <= 0xFF && 0 <= d.hardwareInstance
    ensures |s| == FMP_IMAGE_HEADER_SIZE
  {
    (Le(FMP_IMAGE_HEADER_VERSION, 4) + d.guid) + ([d.updateImageIndex, 0, 0, 0] + (Le(size, 4) + Le(0, 4)))
    + (Le(d.hardwareInstance, 8) + Le(Support(d), 8))
  }

  /** One item of the body. */
  function EncodeItem(sign: Signer, p: Payload): Option<seq<byte>> {
    var image :- EncodePayload(sign, p.d, p.bytes);
    var index :- Pack(p.d.updateImageIndex, 1);
    var size :- Pack(|image|, 4);
    var instance :- Pack(p.d.hardwareInstance, 8);
    Some(ImageHeader(p.d, |image|) + image)
  }

  function EncodeItems(sign: Signer, ps: seq<Payload>): Option<seq<seq<byte>>> {
    if ps == [] then Some([])
    else
      var first :- EncodeItem(sign, ps[0]);
      var rest :- EncodeItems(sign, ps[1..]);
      Some([first] + rest)
  }

  /** The offset table for items laid end to end from `offset` on. */
  function OffsetTable(items: seq<seq<byte>>, offset: nat): Option<seq<byte>> {
    if items == [] then Some([])
    else
      var first :- Pack(offset, 8);
      var rest :- OffsetTable(items[1..], offset + |items[0]|);
      Some(first + rest)
  }

  function Join(items: seq<seq<byte>>): seq<byte> {
    if items == [] then [] else items[0] + Join(items[1..])
  }

  function FmpHeader(drivers: nat, payloads: nat): (s: seq<byte>)
    ensures |s| == FMP_CAPSULE_HEADER_SIZE
  {
    Le(FMP_CAPSULE_HEADER_VERSION, 4) + (Le(drivers, 2) + Le(payloads, 2))
  }

  function EncodeBody(items: seq<seq<byte>>, drivers: nat, payloads: nat): Option<seq<byte>> {
    var d :- Pack(drivers, 2);
    var p :- Pack(payloads, 2);
    var table :- OffsetTable(items, FMP_CAPSULE_HEADER_SIZE + 8 * |items|);
    Some(FmpHeader(drivers, payloads) + table + Join(items))
  }

  // ---------------------------------------------------------------------
  // Flags and the outer header
  // ---------------------------------------------------------------------

  /** Position of the bit of a flag name; None is the `KeyError` of an unknown one. */
  function FlagBit(name: string): Option<nat> {
    if name == "PersistAcrossReset" then Some(16)
    else if name == "PopulateSystemTable" then Some(17)
    else if name == "InitiateReset" then Some(18)
    else None
  }

  /** The flag word: the names folded into the OEM flags. */
  function FoldFlags(flags: nat, names: seq<string>): Option<nat>
    decreases names
  {
    if names == [] then Some(flags)
    else
      var bit :- FlagBit(names[0]);
      FoldFlags(Or(flags, Pow2(bit)), names[1..])
  }

  function OuterHeader(flags: nat, size: nat): (s: seq<byte>)
    ensures |s| == CAPSULE_HEADER_SIZE
  {
    (CapsuleIdGuid() + Le(CAPSULE_HEADER_SIZE, 4)) + (Le(flags, 4) + Le(size, 4)) + Le(0, 4)
  }

  /** `encode_capsule`. None is an exception: a number that does not fit its field, a
      signature that fails, an unknown flag, negative OEM flags. */
  function EncodeCapsule(sign: Signer, ps: seq<Payload>, drivers: seq<seq<byte>>, names: seq<string>, oemFlags: int)
    : Option<seq<byte>>
  {
    var items :- EncodeItems(sign, ps);
    var body :- EncodeBody(drivers + items, |drivers|, |ps|);
    if oemFlags < 0 then None
    else
      var flags :- FoldFlags(oemFlags, names);
      var f :- Pack(flags, 4);
      var size :- Pack(CAPSULE_HEADER_SIZE + |body|, 4);
      Some(OuterHeader(flags, CAPSULE_HEADER_SIZE + |body|) + body)
  }

  // ---------------------------------------------------------------------
  // The program
  // ---------------------------------------------------------------------

  method CollectItems(sign: Signer, ps: seq<Payload>, drivers: seq<seq<byte>>) returns (items: Option<seq<seq<byte>>>)
    ensures items == match EncodeItems(sign, ps) case None => None case Some(s) => Some(drivers + s)
  {
    var all := drivers;
    ghost var goal := EncodeItems(sign, ps);
    for k := 0 to |ps|
      invariant Appended(all, EncodeItems(sign, ps[k..])) == Appended(drivers, goal)
    {
      assert ps[k..][1..] == ps[k + 1..];
      var item := EncodeItem(sign, ps[k]);
      if item.None? {
        return None;
      }
      AppendedNext(all, item.value, EncodeItems(sign, ps[k + 1..]));
      all := all + [item.value];
    }
    assert all + [] == all;
    items := Some(all);
  }

  function Appended<T>(a: seq<T>, b: Option<seq<T>>): Option<seq<T>> {
    if b.None? then None else Some(a + b.value)
  }

  lemma AppendedNext<T>(a: seq<T>, x: T, b: Option<seq<T>>)
    ensures Appended(a + [x], b) == Appended(a, Appended([x], b))
  {
    if b.Some? {
      assert a + [x] + b.value == a + ([x] + b.value);
    }
  }

  lemma AppendedPart<T>(a: seq<T>, x: seq<T>, b: Option<seq<T>>)
    ensures Appended(a + x, b) == Appended(a, Appended(x, b))
  {
    if b.Some? {
      assert a + x + b.value == a + (x + b.value);
    }
  }

  method BuildBody(items: seq<seq<byte>>, drivers: nat, payloads: nat) returns (body: Option<seq<byte>>)
    ensures body == EncodeBody(items, drivers, payloads)
  {
    if drivers >= Pow256(2) || payloads >= Pow256(2) {
      return None;
    }
    var table := BuildTable(items);
    if table.None? {
      return None;
    }
    var joined := JoinItems(items);
    body := Some(FmpHeader(drivers, payloads) + table.value + joined);
  }

  method BuildTable(items: seq<seq<byte>>) returns (table: Option<seq<byte>>)
    ensures table == OffsetTable(items, FMP_CAPSULE_HEADER_SIZE + 8 * |items|)
  {
    var done: seq<byte> := [];
    var offset: nat := FMP_CAPSULE_HEADER_SIZE + 8 * |items|;
    ghost var goal := OffsetTable(items, offset);
    AppendedNothing(goal);
    for k := 0 to |items|
      invariant Appended(done, OffsetTable(items[k..], offset)) == goal
    {
      assert items[k..][1..] == items[k + 1..];
      var entry := Pack(offset, 8);
      if entry.None? {
        return None;
      }
      AppendedPart(done, entry.value, OffsetTable(items[k + 1..], offset + |items[k]|));
      done := done + entry.value;
      offset := offset + |items[k]|;
    }
    assert done + [] == done;
    table := Some(done);
  }

  lemma AppendedNothing<T>(b: Option<seq<T>>)
    ensures Appended([], b) == b
  {
    if b.Some? {
      assert [] + b.value == b.value;
    }
  }

  method JoinItems(items: seq<seq<byte>>) returns (joined: seq<byte>)
    ensures joined == Join(items)
  {
    joined := [];
    for k := 0 to |items|
      invariant joined + Join(items[k..]) == Join(items)
    {
      assert items[k..][1..] == items[k + 1..];
      assert joined + (items[k] + Join(items[k + 1..])) == joined + items[k] + Join(items[k + 1..]);
      joined := joined + items[k];
    }
    assert joined + [] == joined;
  }

  method CollectFlags(oemFlags: nat, names: seq<string>) returns (flags: Option<nat>)
    ensures flags == FoldFlags(oemFlags, names)
  {
    var all := oemFlags;
    for k := 0 to |names|
      invariant FoldFlags(all, names[k..]) == FoldFlags(oemFlags, names)
    {
      assert names[k..][1..] == names[k + 1..];
      var bit := FlagBit(names[k]);
      if bit.None? {
        return None;
      }
      all := Or(all, Pow2(bit.value));
    }
    flags := Some(all);
  }

  method BuildCapsule(sign: Signer, ps: seq<Payload>, drivers: seq<seq<byte>>, names: seq<string>, oemFlags: int)
    returns (capsule: Option<seq<byte>>)
    ensures capsule == EncodeCapsule(sign, ps, drivers, names, oemFlags)
  {
    var items := CollectItems(sign, ps, drivers);
    if items.None? {
      return None;
    }
    var body := BuildBody(items.value, |drivers|, |ps|);
    if body.None? || oemFlags < 0 {
      return None;
    }
    var flags := CollectFlags(oemFlags, names);
    if flags.None? || flags.value >= Pow256(4) || CAPSULE_HEADER_SIZE + |body.value| >= Pow256(4) {
      return None;
    }
    capsule := Some(OuterHeader(flags.value, CAPSULE_HEADER_SIZE + |body.value|) + body.value);
  }
}
