// Firmware volumes: the writer of fv_builder.py, and a reader after the UEFI
// Platform Initialization Specification, Volume 3, sections 3.2.1.1 and 3.2.2.
module FirmwareVolume {
  import opened Bytes
  import opened Ffs

  const FV_HEADER_SIZE: nat := 0x48
  const FV_BLOCK_SIZE: nat := 0x40
  const FV_ERASED_BYTE: byte := 0xFF
  const FV_ATTRIBUTES: nat := 0x0003_FEFF
  const FV_HEADER_REVISION: byte := 2
  const FV_CHECKSUM_OFFSET: nat := 0x32

  /** "_FVH" */
  function FvSignature(): seq<byte> { [0x5F, 0x46, 0x56, 0x48] }

  function Ffs2Guid(): Guid {
    [0x78, 0xE5, 0x8C, 0x8C, 0x3D, 0x8A, 0x1C, 0x4F, 0x99, 0x35, 0x89, 0x61, 0x85, 0xC3, 0x2D, 0xD3]
  }

  function Ffs3Guid(): Guid {
    [0x7A, 0xC0, 0x73, 0x54, 0xCB, 0x3D, 0xCA, 0x4D, 0xBD, 0x6F, 0x1E, 0x96, 0x89, 0xE7, 0x34, 0x9A]
  }

  // ---------------------------------------------------------------------
  // Writing
  // ---------------------------------------------------------------------

  /** The bytes up to the next multiple of eight. */
  function Pad8(n: nat): (p: nat)
    ensures p < 8 && (n + p) % 8 == 0
  {
    var m: int := n;
    (-m) % 8
  }

  /** Erase polarity 1 stores the state bits inverted. */
  function Stored(ffs: seq<byte>): (s: seq<byte>)
    requires |ffs| >= 24
    ensures |s| == |ffs|
  {
    ffs[..FFS_STATE_OFFSET] + [0xFF - ffs[FFS_STATE_OFFSET]] + ffs[FFS_STATE_OFFSET + 1..]
  }

  predicate AllLong(images: seq<seq<byte>>) {
    forall k :: 0 <= k < |images| ==> |images[k]| >= 24
  }

  /** The files from position `n` of the volume on, each aligned to eight. */
  function Body(images: seq<seq<byte>>, n: nat): seq<byte>
    requires AllLong(images)
  {
    if images == [] then []
    else
      Fill(Pad8(n), FV_ERASED_BYTE) + Stored(images[0]) + Body(images[1..], n + Pad8(n) + |images[0]|)
  }

  /** The least multiple of the block size that has room for `n` bytes. */
  function RoundToBlock(n: nat): (r: nat)
    ensures r % FV_BLOCK_SIZE == 0 && n <= r < n + FV_BLOCK_SIZE
  {
    var m: int := n;
    n + (-m) % FV_BLOCK_SIZE
  }

  predicate IsLarge(ffs: seq<byte>)
    requires |ffs| >= 24
  {
    ffs[19] % 2 == 1
  }

  function VolumeGuid(images: seq<seq<byte>>): Guid
    requires AllLong(images)
  {
    if exists k :: 0 <= k < |images| && IsLarge(images[k]) then Ffs3Guid() else Ffs2Guid()
  }

  function HeaderFront(guid: Guid, length: nat): (s: seq<byte>)
    ensures |s| == FV_CHECKSUM_OFFSET
  {
    (Fill(16, 0) + guid) + (Le(length, 8) + FvSignature()) + (Le(FV_ATTRIBUTES, 4) + Le(FV_HEADER_SIZE, 2))
  }

  function HeaderBack(length: nat): (s: seq<byte>)
    ensures |s| == FV_HEADER_SIZE - FV_CHECKSUM_OFFSET - 2
  {
    (Le(0, 2) + [0, FV_HEADER_REVISION]) + (Le(length / FV_BLOCK_SIZE, 4) + Le(FV_BLOCK_SIZE, 4)) + (Le(0, 4) + Le(0, 4))
  }

  /** The volume header with checksum `sum`. */
  function VolumeHeader(guid: Guid, length: nat, sum: nat): (s: seq<byte>)
    ensures |s| == FV_HEADER_SIZE
  {
    HeaderFront(guid, length) + Le(sum, 2) + HeaderBack(length)
  }

  /** The sum of the little-endian 16-bit words. */
  function Sum16(s: seq<byte>): nat {
    if |s| < 2 then 0 else s[0] + 0x100 * s[1] + Sum16(s[2..])
  }

  /** `(0x10000 - sum) & 0xFFFF` */
  function Checksum16(s: seq<byte>): (c: nat)
    ensures c < 0x1_0000 && (Sum16(s) + c) % 0x1_0000 == 0
  {
    (0x1_0000 - Sum16(s)) % 0x1_0000
  }

  function FinishedHeader(guid: Guid, length: nat): seq<byte> {
    VolumeHeader(guid, length, Checksum16(VolumeHeader(guid, length, 0)))
  }

  /** `build_fv`. None when a file has no state byte to invert or the length does not fit
      the header. */
  function BuildFv(images: seq<seq<byte>>): Option<seq<byte>> {
    if !AllLong(images) then None
    else
      var body := Body(images, FV_HEADER_SIZE);
      var length := RoundToBlock(FV_HEADER_SIZE + |body|);
      if length >= Pow256(8) || length / FV_BLOCK_SIZE >= Pow256(4) then None
      else
        Some(FinishedHeader(VolumeGuid(images), length) + body
             + Fill(length - FV_HEADER_SIZE - |body|, FV_ERASED_BYTE))
  }

  method AppendFiles(images: seq<seq<byte>>) returns (body: seq<byte>)
    requires AllLong(images)
    ensures body == Body(images, FV_HEADER_SIZE)
  {
    body := [];
    for k := 0 to |images|
      invariant body + Body(images[k..], FV_HEADER_SIZE + |body|) == Body(images, FV_HEADER_SIZE)
    {
      ghost var before := body;
      assert images[k..][1..] == images[k + 1..];
      body := body + Fill(Pad8(FV_HEADER_SIZE + |body|), FV_ERASED_BYTE);
      body := body + Stored(images[k]);
      Regrouped(before, Fill(Pad8(FV_HEADER_SIZE + |before|), FV_ERASED_BYTE), Stored(images[k]),
                Body(images[k + 1..], FV_HEADER_SIZE + |body|));
    }
    assert body + [] == body;
  }

  lemma Regrouped(a: seq<byte>, b: seq<byte>, c: seq<byte>, d: seq<byte>)
    ensures a + (b + c + d) == a + b + c + d
  {
  }

  /** The header is packed with checksum 0 and patched afterwards. */
  method BuildHeader(guid: Guid, length: nat) returns (header: seq<byte>)
    ensures header == FinishedHeader(guid, length)
  {
    header := VolumeHeader(guid, length, 0);
    var checksum := Checksum16(header);
    header := Put(header, FV_CHECKSUM_OFFSET, Le(checksum, 2));
    Patched(HeaderFront(guid, length), Le(0, 2), Le(checksum, 2), HeaderBack(length));
  }

  lemma Patched(a: seq<byte>, b: seq<byte>, c: seq<byte>, d: seq<byte>)
    requires |b| == |c|
    ensures Put(a + b + d, |a|, c) == a + c + d
  {
  }

  method BuildVolume(images: seq<seq<byte>>) returns (fv: Option<seq<byte>>)
    ensures fv == BuildFv(images)
  {
    if !AllLong(images) {
      return None;
    }
    var body := AppendFiles(images);
    var length := FV_HEADER_SIZE + |body|;
    length := RoundToBlock(length);
    if length >= Pow256(8) || length / FV_BLOCK_SIZE >= Pow256(4) {
      return None;
    }
    var header := BuildHeader(VolumeGuid(images), length);
    var image := header + body;
    image := image + Fill(length - |image|, FV_ERASED_BYTE);
    fv := Some(image);
  }
}
