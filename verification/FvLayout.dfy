// The layout of a built volume, and that reading it gives back the files.
module FvLayout {
  import opened Bytes
  import opened Layout
  import opened Ffs
  import opened FirmwareVolume
  import opened FvRead

  // ---------------------------------------------------------------------
  // The header
  // ---------------------------------------------------------------------

  lemma {:induction false} Sum16Concat(a: seq<byte>, b: seq<byte>)
    requires |a| % 2 == 0
    ensures Sum16(a + b) == Sum16(a) + Sum16(b)
  {
    if a == [] {
      assert a + b == b;
    } else {
      assert (a + b)[2..] == a[2..] + b;
      Sum16Concat(a[2..], b);
    }
  }

  lemma Sum16Word(v: nat)
    requires v < 0x1_0000
    ensures Sum16(Le(v, 2)) == v
  {
    assert Le(v, 2) == [v % 256] + Le(v / 256, 1);
    assert Le(v / 256, 1) == [v / 256 % 256] + Le(v / 256 / 256, 0);
    assert Le(v, 2)[2..] == [];
  }

  lemma HeaderSum16(guid: Guid, length: nat, sum: nat)
    requires sum < 0x1_0000
    ensures Sum16(VolumeHeader(guid, length, sum)) == Sum16(HeaderFront(guid, length)) + sum + Sum16(HeaderBack(length))
  {
    Sum16Concat(HeaderFront(guid, length) + Le(sum, 2), HeaderBack(length));
    Sum16Concat(HeaderFront(guid, length), Le(sum, 2));
    Sum16Word(sum);
  }

  /** The 16-bit words of the header sum to zero. */
  lemma FinishedHeaderSum(guid: Guid, length: nat)
    ensures |FinishedHeader(guid, length)| == FV_HEADER_SIZE
    ensures Sum16(FinishedHeader(guid, length)) % 0x1_0000 == 0
  {
    var zero := VolumeHeader(guid, length, 0);
    HeaderSum16(guid, length, 0);
    HeaderSum16(guid, length, Checksum16(zero));
  }

  lemma FrontRead(img: seq<byte>, guid: Guid, length: nat)
    requires FV_CHECKSUM_OFFSET <= |img| && img[0..FV_CHECKSUM_OFFSET] == HeaderFront(guid, length) && length < Pow256(8)
    ensures img[16..32] == guid && Num(img, 32, 8) == length && img[40..44] == FvSignature()
    ensures Num(img, 44, 4) == FV_ATTRIBUTES && Num(img, 48, 2) == FV_HEADER_SIZE
  {
    ThreeParts(img, 0, Fill(16, 0) + guid, Le(length, 8) + FvSignature(), Le(FV_ATTRIBUTES, 4) + Le(FV_HEADER_SIZE, 2));
    TwoParts(img, 0, Fill(16, 0), guid);
    TwoParts(img, 32, Le(length, 8), FvSignature());
    TwoParts(img, 44, Le(FV_ATTRIBUTES, 4), Le(FV_HEADER_SIZE, 2));
    NumAt(img, 32, length, 8);
    NumAt(img, 44, FV_ATTRIBUTES, 4);
    NumAt(img, 48, FV_HEADER_SIZE, 2);
  }

  lemma BackRead(img: seq<byte>, length: nat)
    requires FV_HEADER_SIZE <= |img| && img[52..FV_HEADER_SIZE] == HeaderBack(length)
    requires length / FV_BLOCK_SIZE < Pow256(4)
    ensures Num(img, 56, 4) == length / FV_BLOCK_SIZE && Num(img, 60, 4) == FV_BLOCK_SIZE
    ensures Num(img, 64, 4) == 0 && Num(img, 68, 4) == 0
    ensures Num(img, 52, 2) == 0 && img[54] == 0 && img[55] == FV_HEADER_REVISION
  {
    ThreeParts(img, 52, Le(0, 2) + [0, FV_HEADER_REVISION], Le(length / FV_BLOCK_SIZE, 4) + Le(FV_BLOCK_SIZE, 4),
               Le(0, 4) + Le(0, 4));
    TwoParts(img, 56, Le(length / FV_BLOCK_SIZE, 4), Le(FV_BLOCK_SIZE, 4));
    NumAt(img, 56, length / FV_BLOCK_SIZE, 4);
    NumAt(img, 60, FV_BLOCK_SIZE, 4);
    TwoParts(img, 64, Le(0, 4), Le(0, 4));
    NumAt(img, 64, 0, 4);
    NumAt(img, 68, 0, 4);
    RevisionRead(img);
  }

  lemma RevisionRead(img: seq<byte>)
    requires 56 <= |img| && img[52..56] == Le(0, 2) + [0, FV_HEADER_REVISION]
    ensures Num(img, 52, 2) == 0 && img[54] == 0 && img[55] == FV_HEADER_REVISION
  {
    TwoParts(img, 52, Le(0, 2), [0, FV_HEADER_REVISION]);
    NumAt(img, 52, 0, 2);
    assert img[54..56][0] == img[54] && img[54..56][1] == img[55];
  }

  /** The block map of one entry. */
  lemma MapRead(img: seq<byte>, n: nat, size: nat)
    requires Num(img, 56, 4) == n && Num(img, 60, 4) == size && size > 0 && Num(img, 64, 4) == 0 && Num(img, 68, 4) == 0
    ensures MappedLength(img, 56, 72) == Some(n * size)
  {
    assert MappedLength(img, 64, 72) == Some(0);
  }

  /** The fields of a built header, read back. */
  lemma HeaderRead(img: seq<byte>, guid: Guid)
    requires FV_HEADER_SIZE <= |img| < Pow256(8) && |img| / FV_BLOCK_SIZE < Pow256(4) && |img| % FV_BLOCK_SIZE == 0
    requires img[0..FV_HEADER_SIZE] == FinishedHeader(guid, |img|)
    ensures HeaderOk(img) && img[16..32] == guid && Num(img, 48, 2) == FV_HEADER_SIZE
  {
    var sum := Checksum16(VolumeHeader(guid, |img|, 0));
    ThreeParts(img, 0, HeaderFront(guid, |img|), Le(sum, 2), HeaderBack(|img|));
    FrontRead(img, guid, |img|);
    BackRead(img, |img|);
    MapRead(img, |img| / FV_BLOCK_SIZE, FV_BLOCK_SIZE);
    FinishedHeaderSum(guid, |img|);
    assert img[..FV_HEADER_SIZE] == img[0..FV_HEADER_SIZE];
  }

  // ---------------------------------------------------------------------
  // The whole volume
  // ---------------------------------------------------------------------

  lemma VolumeParts(images: seq<seq<byte>>, fv: seq<byte>)
    requires BuildFv(images) == Some(fv)
    ensures AllLong(images)
    ensures fv == FinishedHeader(VolumeGuid(images), |fv|) + Body(images, FV_HEADER_SIZE)
                  + Fill(|fv| - FV_HEADER_SIZE - |Body(images, FV_HEADER_SIZE)|, FV_ERASED_BYTE)
    ensures |FinishedHeader(VolumeGuid(images), |fv|)| == FV_HEADER_SIZE
    ensures |fv| < Pow256(8) && |fv| / FV_BLOCK_SIZE < Pow256(4)
    ensures |fv| == RoundToBlock(FV_HEADER_SIZE + |Body(images, FV_HEADER_SIZE)|)
  {
    FinishedHeaderSum(VolumeGuid(images), RoundToBlock(FV_HEADER_SIZE + |Body(images, FV_HEADER_SIZE)|));
  }

  /** The large-file attribute of a built file says whether it exceeds 24 bits. */
  lemma LargeIff(guid: Guid, payload: seq<byte>, image: seq<byte>)
    requires RawFfs(guid, payload) == Some(image)
    ensures |image| >= 24 && (IsLarge(image) <==> NeedsLarge(|payload|))
  {
    RawIsLong(guid, payload);
  }

  /** The volume is labelled for file system 3 exactly if some file exceeds 24 bits. */
  lemma LabelIff(files: seq<FfsFile>, images: seq<seq<byte>>)
    requires RawAll(files) == Some(images) && AllLong(images)
    ensures VolumeGuid(images) == Ffs3Guid() <==> exists k :: 0 <= k < |files| && NeedsLarge(|files[k].payload|)
    ensures VolumeGuid(images) == Ffs2Guid() || VolumeGuid(images) == Ffs3Guid()
  {
    RawAllLong(files, images);
    forall k | 0 <= k < |files|
      ensures IsLarge(images[k]) <==> NeedsLarge(|files[k].payload|)
    {
      BuildAt(RawBuilder(), files, images, k);
      LargeIff(files[k].guid, files[k].payload, images[k]);
    }
    GuidsDiffer();
  }

  lemma GuidsDiffer()
    ensures Ffs2Guid() != Ffs3Guid()
  {
    assert Ffs2Guid()[0] != Ffs3Guid()[0];
  }

  lemma BodyWalked(files: seq<FfsFile>, images: seq<seq<byte>>, fv: seq<byte>)
    requires RawAll(files) == Some(images) && BuildFv(images) == Some(fv)
    ensures Walk(FfsReader(), fv, FV_HEADER_SIZE + Pad8(FV_HEADER_SIZE)) == Some(files)
  {
    VolumeParts(images, fv);
    FfsReaderReads();
    WalkBody(RawBuilder(), FfsReader(), files, images, FinishedHeader(VolumeGuid(images), |fv|),
             |fv| - FV_HEADER_SIZE - |Body(images, FV_HEADER_SIZE)|, fv, FV_HEADER_SIZE + Pad8(FV_HEADER_SIZE));
  }

  /** Reading a built volume gives back exactly the files, in order. */
  lemma ReadUndoesBuild(files: seq<FfsFile>, images: seq<seq<byte>>, fv: seq<byte>)
    requires RawAll(files) == Some(images) && BuildFv(images) == Some(fv)
    ensures AllLong(images) && ReadFv(fv) == Some(Volume(VolumeGuid(images), files))
  {
    VolumeParts(images, fv);
    BodyWalked(files, images, fv);
    LabelIff(files, images);
    HeaderInPlace(images, fv);
    HeaderRead(fv, VolumeGuid(images));
  }

  lemma HeaderInPlace(images: seq<seq<byte>>, fv: seq<byte>)
    requires BuildFv(images) == Some(fv)
    ensures AllLong(images) && FV_HEADER_SIZE <= |fv| && |fv| % FV_BLOCK_SIZE == 0
    ensures fv[0..FV_HEADER_SIZE] == FinishedHeader(VolumeGuid(images), |fv|)
  {
    VolumeParts(images, fv);
  }

  // ---------------------------------------------------------------------
  // Where everything stands
  // ---------------------------------------------------------------------

  /** Where the files start. */
  function Starts(images: seq<seq<byte>>, n: nat): seq<nat> {
    if images == [] then []
    else [n + Pad8(n)] + Starts(images[1..], n + Pad8(n) + |images[0]|)
  }

  predicate InFile(images: seq<seq<byte>>, n: nat, p: nat) {
    images != [] &&
    var start := n + Pad8(n);
    start <= p < start + |images[0]| || InFile(images[1..], start + |images[0]|, p)
  }

  /** A byte of the body that belongs to no file is erased. */
  lemma {:induction false} BodyErased(images: seq<seq<byte>>, n: nat, p: nat)
    requires AllLong(images) && n <= p < n + |Body(images, n)| && !InFile(images, n, p)
    ensures Body(images, n)[p - n] == FV_ERASED_BYTE
    decreases images
  {
    var end := n + Pad8(n) + |images[0]|;
    if p >= end {
      RestLong(images);
      BodyErased(images[1..], end, p);
    }
  }

  /** A file stands at position `p`, a multiple of eight, with its state inverted; `body`
      starts at position `n`. */
  predicate StandsAt(image: seq<byte>, body: seq<byte>, n: nat, p: nat) {
    && 24 <= |image| && p % 8 == 0 && n <= p && p + |image| <= n + |body|
    && body[p - n..p - n + |image|] == Stored(image)
  }

  /** File `k` stands where `Starts` says. */
  lemma {:induction false} FileAt(images: seq<seq<byte>>, n: nat, k: nat)
    requires AllLong(images) && k < |images|
    ensures |Starts(images, n)| == |images|
    ensures StandsAt(images[k], Body(images, n), n, Starts(images, n)[k])
    decreases images
  {
    var pad, file := Fill(Pad8(n), FV_ERASED_BYTE), Stored(images[0]);
    var end := n + Pad8(n) + |images[0]|;
    StartsLength(images, n);
    RestLong(images);
    if k > 0 {
      FileAt(images[1..], end, k - 1);
      StandsBehind(images[k], pad + file, Body(images[1..], end), n, end, Starts(images, n)[k]);
    } else {
      StandsFirst(images[0], pad, Body(images[1..], end), n);
    }
  }

  lemma StandsFirst(image: seq<byte>, pad: seq<byte>, rest: seq<byte>, n: nat)
    requires 24 <= |image| && (n + |pad|) % 8 == 0
    ensures StandsAt(image, pad + Stored(image) + rest, n, n + |pad|)
  {
  }

  lemma StandsBehind(image: seq<byte>, front: seq<byte>, rest: seq<byte>, n: nat, end: nat, p: nat)
    requires StandsAt(image, rest, end, p) && end == n + |front|
    ensures StandsAt(image, front + rest, n, p)
  {
    Behind(front, rest, p - end, |image|);
  }

  lemma Behind(a: seq<byte>, b: seq<byte>, p: nat, len: nat)
    requires p + len <= |b|
    ensures (a + b)[|a| + p..|a| + p + len] == b[p..p + len]
  {
  }

  lemma {:induction false} StartsLength(images: seq<seq<byte>>, n: nat)
    ensures |Starts(images, n)| == |images|
    decreases images
  {
    if images != [] {
      StartsLength(images[1..], n + Pad8(n) + |images[0]|);
    }
  }

  /** Every byte of a volume outside the header and the files is erased, and the length is
      the least multiple of the block size that has room. */
  lemma VolumeErased(images: seq<seq<byte>>, fv: seq<byte>, p: nat)
    requires BuildFv(images) == Some(fv) && FV_HEADER_SIZE <= p < |fv| && !InFile(images, FV_HEADER_SIZE, p)
    ensures fv[p] == FV_ERASED_BYTE
  {
    VolumeParts(images, fv);
    var body := Body(images, FV_HEADER_SIZE);
    if p < FV_HEADER_SIZE + |body| {
      BodyErased(images, FV_HEADER_SIZE, p);
    }
  }
}
