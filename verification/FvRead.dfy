// Walking a firmware volume, and that the walk undoes the build.
module FvRead {
  import opened Bytes
  import opened Layout
  import opened Ffs
  import opened FirmwareVolume

  // ---------------------------------------------------------------------
  // The reader
  // ---------------------------------------------------------------------

  predicate Erased(s: seq<byte>) {
    forall i :: 0 <= i < |s| ==> s[i] == FV_ERASED_BYTE
  }

  type FileReader = (seq<byte>, nat) -> Option<(FfsFile, nat)>

  function FfsReader(): FileReader {
    (img: seq<byte>, pos: nat) => ReadFfs(img, pos)
  }

  predicate ErasedFrom(img: seq<byte>, pos: nat) {
    Erased(img[Min(pos, |img|)..])
  }

  /** The files from `pos` on, up to where everything is erased. */
  function Walk(read: FileReader, img: seq<byte>, pos: nat): Option<seq<FfsFile>>
    decreases Max(0, |img| - pos)
  {
    if ErasedFrom(img, pos) then Some([])
    else
      var (file, size) :- read(img, pos);
      if size == 0 || pos + size > |img| then None
      else
        var rest :- Walk(read, img, pos + size + Pad8(pos + size));
        Some([file] + rest)
  }

  datatype Volume = Volume(guid: seq<byte>, files: seq<FfsFile>)

  predicate HeaderOk(img: seq<byte>) {
    && FV_HEADER_SIZE <= |img|
    && img[40..44] == FvSignature() && Num(img, 32, 8) == |img|
    && Num(img, 48, 2) <= |img| && Sum16(img[..Num(img, 48, 2)]) % 0x1_0000 == 0
    && Num(img, 44, 4) / 0x800 % 2 == 1
    && MappedLength(img, 56, Num(img, 48, 2)) == Some(|img|)
  }

  /** The length that the block map from `p` on gives, number of blocks times their length; None
      if its last entry, of two zeros, does not end where the header does. */
  function MappedLength(img: seq<byte>, p: nat, end: nat): Option<nat>
    decreases Max(0, end - p)
  {
    if p + 8 > end then None
    else if Num(img, p, 4) == 0 && Num(img, p + 4, 4) == 0 then (if p + 8 == end then Some(0) else None)
    else
      var rest :- MappedLength(img, p + 8, end);
      Some(Num(img, p, 4) * Num(img, p + 4, 4) + rest)
  }

  /** Large files are for file system 3 only. */
  predicate FitsFileSystem(guid: seq<byte>, files: seq<FfsFile>) {
    guid == Ffs3Guid()
    || (guid == Ffs2Guid() && forall k :: 0 <= k < |files| ==> !NeedsLarge(|files[k].payload|))
  }

  /** A volume with erase polarity 1. None when the header, a file or the file system
      does not check out. */
  function ReadFv(img: seq<byte>): Option<Volume> {
    if !HeaderOk(img) then None
    else
      var start := Num(img, 48, 2);
      var files :- Walk(FfsReader(), img, start + Pad8(start));
      if FitsFileSystem(img[16..32], files) then Some(Volume(img[16..32], files)) else None
  }

  // ---------------------------------------------------------------------
  // The files
  // ---------------------------------------------------------------------

  type Builder = FfsFile -> Option<seq<byte>>

  function RawBuilder(): Builder {
    (f: FfsFile) => if |f.guid| == 16 then RawFfs(f.guid, f.payload) else None
  }

  /** Every file built; None when one cannot be. */
  function BuildAll(build: Builder, files: seq<FfsFile>): Option<seq<seq<byte>>> {
    if files == [] then Some([])
    else
      var first :- build(files[0]);
      var rest :- BuildAll(build, files[1..]);
      Some([first] + rest)
  }

  /** Every file built by `build_raw_ffs`. */
  function RawAll(files: seq<FfsFile>): Option<seq<seq<byte>>> { BuildAll(RawBuilder(), files) }

  lemma RawIsLong(guid: Guid, payload: seq<byte>)
    requires RawFfs(guid, payload).Some?
    ensures |RawFfs(guid, payload).value| >= 24
  {
  }

  lemma BuildCons(build: Builder, files: seq<FfsFile>, images: seq<seq<byte>>)
    requires files != [] && BuildAll(build, files) == Some(images)
    ensures images != [] && build(files[0]) == Some(images[0]) && BuildAll(build, files[1..]) == Some(images[1..])
  {
    var rest := BuildAll(build, files[1..]).value;
    assert images == [images[0]] + rest;
    assert images[1..] == rest;
  }

  lemma {:induction false} BuildAt(build: Builder, files: seq<FfsFile>, images: seq<seq<byte>>, k: nat)
    requires BuildAll(build, files) == Some(images) && k < |files|
    ensures k < |images| && build(files[k]) == Some(images[k])
    decreases files
  {
    BuildCons(build, files, images);
    if k > 0 {
      BuildAt(build, files[1..], images[1..], k - 1);
    }
  }

  lemma {:induction false} BuildLength(build: Builder, files: seq<FfsFile>, images: seq<seq<byte>>)
    requires BuildAll(build, files) == Some(images)
    ensures |images| == |files|
    decreases files
  {
    if files != [] {
      BuildCons(build, files, images);
      BuildLength(build, files[1..], images[1..]);
    }
  }

  lemma RawAllLong(files: seq<FfsFile>, images: seq<seq<byte>>)
    requires RawAll(files) == Some(images)
    ensures |images| == |files| && AllLong(images)
  {
    BuildLength(RawBuilder(), files, images);
    forall k | 0 <= k < |images|
      ensures |images[k]| >= 24
    {
      BuildAt(RawBuilder(), files, images, k);
      RawIsLong(files[k].guid, files[k].payload);
    }
  }

  /** Inverting the state of a raw file inverts it in the header. */
  lemma StoredRaw(guid: Guid, payload: seq<byte>)
    requires RawFfs(guid, payload).Some?
    ensures |RawFfs(guid, payload).value| >= 24
    ensures Stored(RawFfs(guid, payload).value) == HeaderBytes(StoredHeader(guid, payload)) + payload
  {
    StateInverted(RawHeader(guid, payload), payload);
  }

  lemma StateInverted(h: FfsHeader, payload: seq<byte>)
    ensures Stored(HeaderBytes(h) + payload) == HeaderBytes(h.(state := 0xFF - h.state)) + payload
  {
    var front := (h.guid + [h.headerCheck, h.dataCheck, EFI_FV_FILETYPE_RAW, h.attributes]) + Le(h.size, 3);
    assert |front| == 23;
    assert HeaderBytes(h) + payload == front + [h.state] + (h.extendedSize + payload);
    assert HeaderBytes(h.(state := 0xFF - h.state)) + payload == front + [0xFF - h.state] + (h.extendedSize + payload);
  }

  lemma NotErased(img: seq<byte>, pos: nat)
    requires pos + 18 < |img| && img[pos + 18] == EFI_FV_FILETYPE_RAW
    ensures !ErasedFrom(img, pos)
  {
    assert img[pos..][18] == img[pos + 18];
  }

  lemma AllErased(pre: seq<byte>, k: nat, pos: nat, img: seq<byte>)
    requires img == pre + Fill(k, FV_ERASED_BYTE) && |pre| <= pos
    ensures ErasedFrom(img, pos)
  {
    var m := Min(pos, |img|);
    forall i | 0 <= i < |img[m..]|
      ensures img[m..][i] == FV_ERASED_BYTE
    {
      assert img[m..][i] == img[m + i] == Fill(k, FV_ERASED_BYTE)[m + i - |pre|];
    }
  }

  /** One file of the body, and what is left. */
  lemma BodyHead(images: seq<seq<byte>>, pre: seq<byte>, k: nat, img: seq<byte>, pos: nat, end: nat)
    returns (pre': seq<byte>)
    requires AllLong(images) && images != []
    requires img == pre + Body(images, |pre|) + Fill(k, FV_ERASED_BYTE)
    requires pos == |pre| + Pad8(|pre|) && end == pos + |images[0]|
    ensures |pre'| == end <= |img| && img[pos..end] == Stored(images[0])
    ensures img == pre' + Body(images[1..], end) + Fill(k, FV_ERASED_BYTE)
  {
    var pad, file, rest := Fill(pos - |pre|, FV_ERASED_BYTE), Stored(images[0]), Body(images[1..], end);
    BodyCons(images, |pre|, pos, end);
    pre' := pre + pad + file;
    MiddlePart(pre, pad, file, rest, Fill(k, FV_ERASED_BYTE), img, pos, end);
  }

  lemma BodyCons(images: seq<seq<byte>>, n: nat, pos: nat, end: nat)
    requires AllLong(images) && images != [] && pos == n + Pad8(n) && end == pos + |images[0]|
    ensures Body(images, n) == Fill(pos - n, FV_ERASED_BYTE) + Stored(images[0]) + Body(images[1..], end)
  {
  }

  lemma MiddlePart(a: seq<byte>, b: seq<byte>, c: seq<byte>, d: seq<byte>, e: seq<byte>, s: seq<byte>,
                   pos: nat, end: nat)
    requires s == a + (b + c + d) + e && pos == |a| + |b| && end == pos + |c|
    ensures |a + b + c| == end <= |s|
    ensures s == (a + b + c) + d + e
    ensures s[pos..end] == c
  {
  }

  /** `image` was built from `f` and stands at `pos`, its state inverted. */
  predicate IsStored(build: Builder, f: FfsFile, image: seq<byte>, img: seq<byte>, pos: nat) {
    && build(f) == Some(image)
    && 24 <= |image| && pos + |image| <= |img| && img[pos..pos + |image|] == Stored(image)
  }

  lemma FileRead(f: FfsFile, image: seq<byte>, img: seq<byte>, pos: nat)
    requires IsStored(RawBuilder(), f, image, img, pos)
    ensures ReadFfs(img, pos) == Some((f, |image|)) && !ErasedFrom(img, pos)
  {
    StoredRaw(f.guid, f.payload);
    StoredRead(img, pos, f.guid, f.payload, Stored(image));
    NotErased(img, pos);
  }

  /** What is built is read back. */
  ghost predicate ReadsStored(build: Builder, read: FileReader) {
    forall f: FfsFile, image: seq<byte>, img: seq<byte>, pos: nat ::
      IsStored(build, f, image, img, pos) ==> read(img, pos) == Some((f, |image|)) && !ErasedFrom(img, pos)
  }

  lemma FfsReaderReads()
    ensures ReadsStored(RawBuilder(), FfsReader())
  {
    forall f: FfsFile, image: seq<byte>, img: seq<byte>, pos: nat | IsStored(RawBuilder(), f, image, img, pos)
      ensures FfsReader()(img, pos) == Some((f, |image|)) && !ErasedFrom(img, pos)
    {
      FileRead(f, image, img, pos);
    }
  }

  /** Walking the files of a volume gives back what they were built from. */
  lemma {:induction false} WalkBody(build: Builder, read: FileReader, files: seq<FfsFile>, images: seq<seq<byte>>,
                                    pre: seq<byte>, k: nat, img: seq<byte>, pos: nat)
    requires ReadsStored(build, read) && BuildAll(build, files) == Some(images) && AllLong(images)
    requires img == pre + Body(images, |pre|) + Fill(k, FV_ERASED_BYTE) && pos == |pre| + Pad8(|pre|)
    ensures Walk(read, img, pos) == Some(files)
    decreases files
  {
    if files == [] {
      WalkNothing(read, images, pre, k, img, pos);
    } else {
      var pre' := FirstOfBody(build, files, images, pre, k, img, pos);
      var next := |pre'| + Pad8(|pre'|);
      WalkBody(build, read, files[1..], images[1..], pre', k, img, next);
      WalkStep(build, read, files, images[0], img, pos, |pre'|, next);
    }
  }

  lemma FirstOfBody(build: Builder, files: seq<FfsFile>, images: seq<seq<byte>>, pre: seq<byte>, k: nat, img: seq<byte>, pos: nat)
    returns (pre': seq<byte>)
    requires files != [] && BuildAll(build, files) == Some(images) && AllLong(images)
    requires img == pre + Body(images, |pre|) + Fill(k, FV_ERASED_BYTE) && pos == |pre| + Pad8(|pre|)
    ensures images != [] && BuildAll(build, files[1..]) == Some(images[1..]) && AllLong(images[1..])
    ensures IsStored(build, files[0], images[0], img, pos) && |pre'| == pos + |images[0]|
    ensures img == pre' + Body(images[1..], |pre'|) + Fill(k, FV_ERASED_BYTE)
  {
    BuildCons(build, files, images);
    RestLong(images);
    pre' := BodyHead(images, pre, k, img, pos, pos + |images[0]|);
  }

  lemma RestLong(images: seq<seq<byte>>)
    requires AllLong(images) && images != []
    ensures AllLong(images[1..])
  {
  }

  lemma WalkNothing(read: FileReader, images: seq<seq<byte>>, pre: seq<byte>, k: nat, img: seq<byte>, pos: nat)
    requires images == [] && |pre| <= pos
    requires img == pre + Body(images, |pre|) + Fill(k, FV_ERASED_BYTE)
    ensures Walk(read, img, pos) == Some([])
  {
    assert pre + [] == pre;
    AllErased(pre, k, pos, img);
  }

  /** One file and the rest, as far as the walk is concerned. */
  lemma WalkStep(build: Builder, read: FileReader, files: seq<FfsFile>, image: seq<byte>, img: seq<byte>, pos: nat,
                 end: nat, next: nat)
    requires ReadsStored(build, read) && files != [] && IsStored(build, files[0], image, img, pos)
    requires end == pos + |image| && next == end + Pad8(end) && Walk(read, img, next) == Some(files[1..])
    ensures Walk(read, img, pos) == Some(files)
  {
    WalkCons(read, img, pos, files[0], |image|, files);
  }

  lemma WalkCons(read: FileReader, img: seq<byte>, pos: nat, f: FfsFile, size: nat, files: seq<FfsFile>)
    requires !ErasedFrom(img, pos) && read(img, pos) == Some((f, size)) && 0 < size && pos + size <= |img|
    requires files != [] && files[0] == f
    requires Walk(read, img, pos + size + Pad8(pos + size)) == Some(files[1..])
    ensures Walk(read, img, pos) == Some(files)
  {
    assert files == [f] + files[1..];
  }
}
