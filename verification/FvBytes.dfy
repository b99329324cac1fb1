// A built volume and a built file byte by byte, in the numbers of the UEFI PI
// Specification, volume 3, sections 3.2.1.1 and 3.2.3.1.
module FvBytes {
  import opened Bytes
  import opened Layout
  import opened Ffs
  import opened FirmwareVolume
  import opened FvLayout

  // ---------------------------------------------------------------------
  // The volume header
  // ---------------------------------------------------------------------

  /** 72 bytes: a zero vector, the GUID of file system 3 if some file is marked as large and else
      of file system 2, the length, "_FVH", attributes 0x3FEFF, 72, a checksum that makes the
      words sum to zero, no extended header, revision 2, and a block map of blocks of 64
      bytes with its end. */
  lemma VolumeHeaderBytes(images: seq<seq<byte>>, fv: seq<byte>)
    requires BuildFv(images) == Some(fv)
    ensures 72 <= |fv| && |fv| % 64 == 0 && AllLong(images)
    ensures fv[..16] == [0, 0, 0, 0, 0, 0, 0, 0, 0, 0, 0, 0, 0, 0, 0, 0]
    ensures fv[16..32] == if exists k :: 0 <= k < |images| && images[k][19] % 2 == 1
                          then [0x7A, 0xC0, 0x73, 0x54, 0xCB, 0x3D, 0xCA, 0x4D, 0xBD, 0x6F, 0x1E, 0x96, 0x89, 0xE7, 0x34, 0x9A]
                          else [0x78, 0xE5, 0x8C, 0x8C, 0x3D, 0x8A, 0x1C, 0x4F, 0x99, 0x35, 0x89, 0x61, 0x85, 0xC3, 0x2D, 0xD3]
    ensures Num(fv, 32, 8) == |fv| && fv[40..44] == [0x5F, 0x46, 0x56, 0x48]
    ensures Num(fv, 44, 4) == 0x3FEFF && Num(fv, 48, 2) == 72 && Sum16(fv[..72]) % 0x1_0000 == 0
    ensures Num(fv, 52, 2) == 0 && fv[54] == 0 && fv[55] == 2
    ensures Num(fv, 56, 4) == |fv| / 64 && Num(fv, 60, 4) == 64 && Num(fv, 64, 4) == 0 && Num(fv, 68, 4) == 0
  {
    var guid := VolumeGuid(images);
    VolumeFront(images, fv, guid);
    HeaderParts(fv, guid);
    GuidBytes(images, guid);
  }

  /** A volume is built if and only if each file has at least 24 bytes and the blocks are fewer
      than 2^32. */
  lemma BuildsIff(images: seq<seq<byte>>)
    ensures AllLong(images) <==> forall k :: 0 <= k < |images| ==> 24 <= |images[k]|
    ensures BuildFv(images).Some? <==> AllLong(images) && 72 + |Body(images, 72)| <= 0xFFFF_FFFF * 64
  {
    if AllLong(images) {
      BlocksFit(RoundToBlock(72 + |Body(images, 72)|), 72 + |Body(images, 72)|);
    }
  }

  lemma BlocksFit(length: nat, n: nat)
    requires length % 64 == 0 && n <= length < n + 64
    ensures length < Pow256(8) && length / 64 < Pow256(4) <==> n <= 0xFFFF_FFFF * 64
  {
    Words(4);
  }

  lemma Words(w: nat)
    requires w == 4
    ensures Pow256(w) == 0x1_0000_0000 && Pow256(2 * w) == 0x1_0000_0000_0000_0000
  {
    assert Pow256(2) == 0x1_0000 && Pow256(w) == 256 * 256 * Pow256(2);
    assert Pow256(6) == 256 * 256 * Pow256(w);
  }

  lemma VolumeFront(images: seq<seq<byte>>, fv: seq<byte>, guid: Guid)
    requires BuildFv(images) == Some(fv) && guid == VolumeGuid(images)
    ensures 72 <= |fv| < Pow256(8) && |fv| / 64 < Pow256(4) && |fv| % 64 == 0
    ensures fv[..72] == FinishedHeader(guid, |fv|) && AllLong(images) == true
  {
    VolumeParts(images, fv);
  }

  lemma GuidBytes(images: seq<seq<byte>>, guid: Guid)
    requires AllLong(images) && guid == VolumeGuid(images)
    ensures guid == if exists k :: 0 <= k < |images| && images[k][19] % 2 == 1
                    then [0x7A, 0xC0, 0x73, 0x54, 0xCB, 0x3D, 0xCA, 0x4D, 0xBD, 0x6F, 0x1E, 0x96, 0x89, 0xE7, 0x34, 0x9A]
                    else [0x78, 0xE5, 0x8C, 0x8C, 0x3D, 0x8A, 0x1C, 0x4F, 0x99, 0x35, 0x89, 0x61, 0x85, 0xC3, 0x2D, 0xD3]
  {
    LargeAny(images);
  }

  lemma LargeAny(images: seq<seq<byte>>)
    requires AllLong(images)
    ensures (exists k :: 0 <= k < |images| && IsLarge(images[k])) <==> exists k :: 0 <= k < |images| && images[k][19] % 2 == 1
  {
    if k :| 0 <= k < |images| && IsLarge(images[k]) {
      assert images[k][19] % 2 == 1;
    }
    if k :| 0 <= k < |images| && images[k][19] % 2 == 1 {
      assert IsLarge(images[k]);
    }
  }

  lemma HeaderParts(fv: seq<byte>, guid: Guid)
    requires 72 <= |fv| < Pow256(8) && |fv| / 64 < Pow256(4) && fv[..72] == FinishedHeader(guid, |fv|)
    ensures fv[..16] == [0, 0, 0, 0, 0, 0, 0, 0, 0, 0, 0, 0, 0, 0, 0, 0] && fv[16..32] == guid
    ensures Num(fv, 32, 8) == |fv| && fv[40..44] == [0x5F, 0x46, 0x56, 0x48]
    ensures Num(fv, 44, 4) == 0x3FEFF && Num(fv, 48, 2) == 72 && Sum16(fv[..72]) % 0x1_0000 == 0
    ensures Num(fv, 52, 2) == 0 && fv[54] == 0 && fv[55] == 2
    ensures Num(fv, 56, 4) == |fv| / 64 && Num(fv, 60, 4) == 64 && Num(fv, 64, 4) == 0 && Num(fv, 68, 4) == 0
  {
    var sum := Checksum16(VolumeHeader(guid, |fv|, 0));
    assert fv[0..72] == fv[..72];
    ThreeParts(fv, 0, HeaderFront(guid, |fv|), Le(sum, 2), HeaderBack(|fv|));
    FrontRead(fv, guid, |fv|);
    ZeroVector(fv, guid, |fv|);
    BackRead(fv, |fv|);
    FinishedHeaderSum(guid, |fv|);
  }

  lemma ZeroVector(fv: seq<byte>, guid: Guid, length: nat)
    requires 50 <= |fv| && fv[0..50] == HeaderFront(guid, length)
    ensures fv[..16] == [0, 0, 0, 0, 0, 0, 0, 0, 0, 0, 0, 0, 0, 0, 0, 0]
  {
    Within(fv, 0, HeaderFront(guid, length), 0, 16);
    assert HeaderFront(guid, length)[0..16] == Fill(16, 0);
    assert fv[..16] == fv[0..16];
  }

  // ---------------------------------------------------------------------
  // A file
  // ---------------------------------------------------------------------

  /** A raw file: the GUID, the check of the payload at 17, type 1, the checksum attribute 0x40 (0x41 in a large
      file), the size in 24 bits (zero in a large file), state 7, in a large file the size in
      64 bits, and the payload. */
  lemma FileBytes(guid: Guid, payload: seq<byte>, ffs: seq<byte>)
    requires RawFfs(guid, payload) == Some(ffs)
    ensures 24 <= |ffs| && ffs[..16] == guid && ffs[17] == Checksum8(payload) && ffs[18] == 1 && ffs[23] == 7
    ensures 24 + |payload| <= 0xFF_FFFF ==> ffs[19] == 0x40 && Num(ffs, 20, 3) == 24 + |payload| && ffs[24..] == payload
    ensures 24 + |payload| > 0xFF_FFFF ==>
              32 <= |ffs| && ffs[19] == 0x41 && Num(ffs, 20, 3) == 0 && Num(ffs, 24, 8) == 32 + |payload| && ffs[32..] == payload
  {
    var h := RawHeader(guid, payload);
    FileParts(ffs, h, payload);
    FileFields(ffs, guid, payload, h);
    SizeBytes(ffs, guid, payload, h);
  }

  /** The header of a raw file sums to zero without bytes 17 and 23. */
  lemma FileHeaderSum(guid: Guid, payload: seq<byte>, ffs: seq<byte>)
    requires RawFfs(guid, payload) == Some(ffs)
    ensures 24 <= |ffs| - |payload| && (Sum8(ffs[..|ffs| - |payload|]) - ffs[17] - ffs[23]) % 0x100 == 0
  {
    var h := RawHeader(guid, payload);
    SumsPlaced(ffs, payload, h);
    HeadSum(guid, payload, h, ffs[..|ffs| - |payload|], ffs[17], ffs[23]);
  }

  lemma SumsPlaced(ffs: seq<byte>, payload: seq<byte>, h: FfsHeader)
    requires ffs == HeaderBytes(h) + payload
    ensures 24 <= |ffs| - |payload| && ffs[17] == h.dataCheck && ffs[23] == h.state
    ensures ffs[..|ffs| - |payload|] == HeaderBytes(h)
  {
    FileParts(ffs, h, payload);
    assert HeaderAt(ffs, 0, h);
  }

  lemma HeadSum(guid: Guid, payload: seq<byte>, h: FfsHeader, head: seq<byte>, check: byte, state: byte)
    requires h == RawHeader(guid, payload) && head == HeaderBytes(h) && check == h.dataCheck && state == h.state
    ensures (Sum8(head) - check - state) % 0x100 == 0
  {
    assert h.state == FFS_FILE_STATE;
    RawHeaderSum(guid, payload, h);
  }

  lemma FileParts(ffs: seq<byte>, h: FfsHeader, payload: seq<byte>)
    requires ffs == HeaderBytes(h) + payload
    ensures var n := 24 + |h.extendedSize|; n <= |ffs| && ffs[..n] == HeaderBytes(h) && ffs[n..] == payload
    ensures HeaderAt(ffs, 0, h) == true
  {
    assert ffs[0..|HeaderBytes(h)|] == HeaderBytes(h);
    HeaderPlaced(ffs, 0, h);
  }

  lemma FileFields(ffs: seq<byte>, guid: Guid, payload: seq<byte>, h: FfsHeader)
    requires h == RawHeader(guid, payload) && HeaderAt(ffs, 0, h) == true
    ensures 24 <= |ffs| && ffs[..16] == guid && ffs[17] == Checksum8(payload) && ffs[18] == 1 && ffs[23] == 7
    ensures ffs[19] == if 24 + |payload| > 0xFF_FFFF then 0x41 else 0x40
    ensures |h.extendedSize| == (if 24 + |payload| > 0xFF_FFFF then 8 else 0) && h.state == 7 && h.dataCheck == ffs[17]
  {
    assert HeaderAt(ffs, 0, h);
    assert ffs[..16] == ffs[0..16];
  }

  lemma SizeBytes(ffs: seq<byte>, guid: Guid, payload: seq<byte>, h: FfsHeader)
    requires h == RawHeader(guid, payload) && HeaderAt(ffs, 0, h) && 32 + |payload| < Pow256(8)
    ensures 24 + |payload| <= 0xFF_FFFF ==> Num(ffs, 20, 3) == 24 + |payload|
    ensures 24 + |payload| > 0xFF_FFFF ==> Num(ffs, 20, 3) == 0 && Num(ffs, 24, 8) == 32 + |payload|
  {
    Word24(3);
    if 24 + |payload| > 0xFF_FFFF {
      NumAt(ffs, 20, 0, 3);
      NumAt(ffs, 24, 32 + |payload|, 8);
    } else {
      NumAt(ffs, 20, 24 + |payload|, 3);
    }
  }

  lemma Word24(w: nat)
    requires w == 3
    ensures Pow256(w) == 0x100_0000
  {
    assert Pow256(1) == 0x100 && Pow256(2) == 0x1_0000;
  }
}
