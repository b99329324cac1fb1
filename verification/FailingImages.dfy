// Four small ELF files on which the patcher does not do what it is for: one with
// a section table behind the grown segment, one whose segment keeps its size
// while its `p_memsz` differs from its `p_filesz`, one without a PT_NULL
// segment, in which a digest is found in another segment, and one whose table has
// a slot for a segment and one for the device tree that is all of it.
module FailingImages {
  import opened Bytes
  import opened Tables
  import opened DtbScan
  import opened SegmentRebuild
  import opened ElfImage
  import opened ElfSplice
  import opened Resize
  import opened UefiDtbs
  import opened DigestWrites
  import opened UefiRun
  import opened DigestSlots
  import opened UefiHashes
  import opened HeadSlot
  import opened OneTree
  import opened SectionTable
  import opened ZeroGrowth
  import opened CertTrees
  import opened RebuildScan
  import opened FailingTrees

  // ---------------------------------------------------------------------
  // 32-bit little-endian headers with small numbers in them
  // ---------------------------------------------------------------------

  predicate Small4(s: seq<byte>, p: nat, v: nat) {
    p + 4 <= |s| && s[p] == v % 256 && s[p + 1] == v / 256 && s[p + 2] == 0 && s[p + 3] == 0
  }

  predicate Small2(s: seq<byte>, p: nat, v: byte) {
    p + 2 <= |s| && s[p] == v && s[p + 1] == 0
  }

  lemma FourRead(s: seq<byte>, p: nat, v: nat)
    requires Small4(s, p, v)
    ensures FromLe(Slice(s, p, p + 4)) == v
  {
    var x := Slice(s, p, p + 4);
    assert x == [s[p], s[p + 1], 0, 0];
    assert x[1..] == [s[p + 1], 0, 0] && x[1..][1..] == [0, 0] && [0, 0][1..] == [0] && [0][1..] == [];
    assert FromLe([0, 0]) == 0;
  }

  lemma TwoRead(s: seq<byte>, p: nat, v: byte)
    requires Small2(s, p, v)
    ensures FromLe(Slice(s, p, p + 2)) == v
  {
    assert Slice(s, p, p + 2) == [v] + [0];
    assert [0][1..] == [];
  }

  function HeaderByte(i: int, phnum: byte, shoff: byte, shnum: byte): byte {
    if i == 0 then 0x7F else if i == 1 then 0x45 else if i == 2 then 0x4C else if i == 3 then 0x46
    else if i == 4 || i == 5 then 1
    else if i == 0x1C then 52 else if i == 0x20 then shoff
    else if i == 0x2A then 32 else if i == 0x2C then phnum
    else if i == 0x2E then 40 else if i == 0x30 then shnum else 0
  }

  /** The ELF header of a file with `phnum` program headers right behind it. */
  predicate StartsElf(raw: seq<byte>, phnum: byte, shoff: byte, shnum: byte) {
    |raw| >= 52 && forall i :: 0 <= i < 52 ==> raw[i] == HeaderByte(i, phnum, shoff, shnum)
  }

  function SmallHeader(phnum: byte, shoff: byte, shnum: byte): Header {
    Header(false, true, 52, 32, phnum, shoff, 40, shnum)
  }

  lemma SmallHeaderRead(raw: seq<byte>, phnum: byte, shoff: byte, shnum: byte)
    requires StartsElf(raw, phnum, shoff, shnum)
    ensures ReadHeader(raw) == Some(SmallHeader(phnum, shoff, shnum))
  {
    var e := raw[..52];
    FourRead(e, 0x1C, 52);
    FourRead(e, 0x20, shoff);
    TwoRead(e, 0x2A, 32);
    TwoRead(e, 0x2C, phnum);
    TwoRead(e, 0x2E, 40);
    TwoRead(e, 0x30, shnum);
    assert raw[..4] == [0x7F, 0x45, 0x4C, 0x46];
  }

  /** The program header at `p`. */
  predicate IsPh(raw: seq<byte>, p: nat, ptype: nat, offset: nat, filesz: nat, memsz: nat) {
    && p + 32 <= |raw| && Small4(raw, p, ptype) && Small4(raw, p + 4, offset)
    && Small4(raw, p + 16, filesz) && Small4(raw, p + 20, memsz)
  }

  lemma PhRead(raw: seq<byte>, p: nat, ptype: nat, offset: nat, filesz: nat, memsz: nat)
    requires IsPh(raw, p, ptype, offset, filesz, memsz)
    ensures SegReader(false, true)(raw[p..p + 32]) == Seg(ptype, offset, filesz, memsz)
  {
    var e := raw[p..p + 32];
    FourRead(e, 0, ptype);
    FourRead(e, 4, offset);
    FourRead(e, 16, filesz);
    FourRead(e, 20, memsz);
  }

  lemma TableOne<T>(raw: seq<byte>, pos: nat, ent: nat, size: nat, read: seq<byte> -> T, x: T, rest: seq<T>)
    requires pos + size <= |raw| && read(raw[pos..pos + size]) == x && HasTable(raw, pos + ent, ent, size, read, rest)
    ensures HasTable(raw, pos, ent, size, read, [x] + rest)
  {
    assert ([x] + rest)[1..] == rest;
  }

  // ---------------------------------------------------------------------
  // A section table behind the segment
  // ---------------------------------------------------------------------

  function SectionByte(i: int): byte {
    if i < 52 then HeaderByte(i, 1, 92, 1)
    else if i == 52 then 1 else if i == 56 then 84 else if i == 68 || i == 72 then 8
    else if i == 108 then 132 else 0
  }

  /** Header, one program header, its 8 bytes at 84, one section header at 92 for the
      section at 132. */
  function SectionImage(): (raw: seq<byte>)
    ensures |raw| == 136 && forall i :: 0 <= i < 136 ==> raw[i] == SectionByte(i)
  {
    seq(136, i => SectionByte(i))
  }

  function SectionElf(): Elf {
    Elf(SmallHeader(1, 92, 1), [Seg(1, 84, 8, 8)], [132])
  }

  lemma SectionImageShows()
    ensures HasElf(SectionImage(), SectionElf())
  {
    var raw := SectionImage();
    SmallHeaderRead(raw, 1, 92, 1);
    SectionSegs(raw);
    SectionSecs(raw);
  }

  lemma SectionSecs(raw: seq<byte>)
    requires raw == SectionImage()
    ensures HasTable(raw, 92, 40, 40, SecReader(false, true), [132])
  {
    FourRead(raw[92..132], 16, 132);
    TableOne(raw, 92, 40, 40, SecReader(false, true), 132, []);
    assert [132] + [] == [132];
  }

  lemma SectionSegs(raw: seq<byte>)
    requires raw == SectionImage()
    ensures HasTable(raw, 52, 32, 32, SegReader(false, true), [Seg(1, 84, 8, 8)])
  {
    PhRead(raw, 52, 1, 84, 8, 8);
    TableOne(raw, 52, 32, 32, SegReader(false, true), Seg(1, 84, 8, 8), []);
    assert [Seg(1, 84, 8, 8)] + [] == [Seg(1, 84, 8, 8)];
  }

  /** A small number fits into four bytes. */
  lemma SmallFits(img: seq<byte>, p: nat, v: nat)
    requires v < 256
    ensures WriteField(img, p, 4, v, true).Some?
  {
    assert Pow256(4) == 256 * Pow256(3) && Pow256(3) > 0;
  }

  /** All the header writes succeed. */
  lemma SectionWrites(img: seq<byte>) returns (r: seq<byte>)
    ensures UpdateForGrowth(img, SectionElf(), 84, 4) == Some(r)
  {
    var h, secs: seq<nat> := SectionElf().h, [132];
    assert EditTable(img, SectionElf().segs, 52, 32, SegEdit(h, 84, 4)) == Some(img);
    SmallFits(img, 108, 136);
    var b := WriteField(img, 108, 4, 136, true).value;
    assert secs[1..] == [];
    assert EditTable(img, secs, 92, 40, SecEdit(h, 84, 4)) == Some(b);
    SmallFits(b, 0x20, 96);
    r := WriteField(b, 0x20, 4, 96, true).value;
  }

  lemma SectionFixedUp(new_: seq<byte>, img: seq<byte>, r: seq<byte>)
    requires |new_| == 12 && img == Splice(SectionImage(), 84, 92, new_)
    requires UpdateForGrowth(img, SectionElf(), 84, 4) == Some(r)
    ensures FixedUp(SectionImage(), img, SectionElf(), 84, 8, new_, 4, r)
  {
    SectionImageShows();
    SpliceRelaid(SectionImage(), 84, 8, new_, img);
    assert EntryPos(92, 40, 1) == 132 && EntryPos(52, 32, 1) == 84;
  }

  /** When the segment of this file grows from 8 to 12 bytes, the fixed-up file does not
      parse to the moved view. */
  lemma SectionsNotMoved(new_: seq<byte>) returns (r: seq<byte>)
    requires |new_| == 12
    ensures ParseElf(SectionImage()) == Some(SectionElf())
    ensures UpdateForGrowth(Splice(SectionImage(), 84, 92, new_), SectionElf(), 84, 4) == Some(r)
    ensures ParseElf(r) != Some(MovedElf(SectionElf(), 84, 4))
  {
    var elf, img, moved := SectionElf(), Splice(SectionImage(), 84, 92, new_), MovedElf(SectionElf(), 84, 4);
    SectionImageShows();
    ParseIff(SectionImage(), elf);
    r := SectionWrites(img);
    SectionFixedUp(new_, img, r);
    SectionsFixedIffNoneBehind(SectionImage(), img, elf, 84, 8, new_, 4, r);
    assert elf.secs[0] > 84;
    ParseIff(r, moved);
  }

  // ---------------------------------------------------------------------
  // A device tree in a segment of its own, and a table
  // ---------------------------------------------------------------------

  /** Headers, a device tree of 112 bytes in a segment with this `p_memsz`, and `n` bytes in
      a segment of this type. */
  function TreeImageByte(i: nat, memsz: byte, ptype: byte, n: byte): byte {
    if i < 52 then HeaderByte(i, 3, 0, 0)
    else if i == 52 then 1 else if i == 68 || i == 72 then 148
    else if i == 84 then 1 else if i == 88 then 148 else if i == 100 then 112 else if i == 104 then memsz
    else if i == 116 then ptype else if i == 120 then 4 else if i == 121 then 1
    else if i == 132 || i == 136 then n
    else if i < 148 then 0
    else if i < 260 then TreeByte(i - 148, 112, 8, 0)
    else 200
  }

  function TreeImage(memsz: byte, ptype: byte, n: byte): (raw: seq<byte>)
    ensures |raw| == 260 + n && forall i :: 0 <= i < 260 + n ==> raw[i] == TreeImageByte(i, memsz, ptype, n)
  {
    seq(260 + n, i requires 0 <= i < 260 + n => TreeImageByte(i, memsz, ptype, n))
  }

  function TreeElf(memsz: byte, ptype: byte, n: byte): Elf {
    Elf(SmallHeader(3, 0, 0), [Seg(1, 0, 148, 148), Seg(1, 148, 112, memsz), Seg(ptype, 260, n, n)], [])
  }

  /** The setter, on the one device tree that has a certificate. */
  function SetCert(d: seq<byte>): DtbOutcome {
    if d == CertTree(0) then Patched(CertTree(1)) else Skipped
  }

  lemma TreeImageShows(raw: seq<byte>, memsz: byte, ptype: byte, n: byte)
    requires raw == TreeImage(memsz, ptype, n)
    ensures HasElf(raw, TreeElf(memsz, ptype, n)) && ParseElf(raw) == Some(TreeElf(memsz, ptype, n))
  {
    SmallHeaderRead(raw, 3, 0, 0);
    TreeImageSegs(raw, memsz, ptype, n);
    ParseIff(raw, TreeElf(memsz, ptype, n));
  }

  lemma TreeImageSegs(raw: seq<byte>, memsz: byte, ptype: byte, n: byte)
    requires raw == TreeImage(memsz, ptype, n)
    ensures HasTable(raw, 52, 32, 32, SegReader(false, true), TreeElf(memsz, ptype, n).segs)
  {
    var read := SegReader(false, true);
    var a, b, c := Seg(1, 0, 148, 148), Seg(1, 148, 112, memsz), Seg(ptype, 260, n, n);
    TreeImagePh(raw, memsz, ptype, n, 52, 1, 0, 148, 148);
    TreeImagePh(raw, memsz, ptype, n, 84, 1, 148, 112, memsz);
    TreeImagePh(raw, memsz, ptype, n, 116, ptype, 260, n, n);
    TableOne(raw, 116, 32, 32, read, c, []);
    TableOne(raw, 84, 32, 32, read, b, [c] + []);
    TableOne(raw, 52, 32, 32, read, a, [b] + ([c] + []));
    assert TreeElf(memsz, ptype, n).segs == [a] + ([b] + ([c] + []));
  }

  lemma TreeImagePh(raw: seq<byte>, memsz: byte, ptype: byte, n: byte, p: nat, kind: nat, offset: nat, filesz: nat, size: nat)
    requires raw == TreeImage(memsz, ptype, n) && p in {52, 84, 116} && offset < 512
    requires TreeImageByte(p, memsz, ptype, n) == kind < 256
    requires TreeImageByte(p + 4, memsz, ptype, n) == offset % 256 && TreeImageByte(p + 5, memsz, ptype, n) == offset / 256
    requires TreeImageByte(p + 16, memsz, ptype, n) == filesz < 256 && TreeImageByte(p + 20, memsz, ptype, n) == size < 256
    ensures SegReader(false, true)(raw[p..p + 32]) == Seg(kind, offset, filesz, size)
  {
    PhRead(raw, p, kind, offset, filesz, size);
  }

  /** What the three segments hold. */
  lemma TreeImageData(raw: seq<byte>, memsz: byte, ptype: byte, n: byte)
    requires raw == TreeImage(memsz, ptype, n)
    ensures SegData(raw, TreeElf(memsz, ptype, n).segs[0]) == raw[..148]
    ensures SegData(raw, TreeElf(memsz, ptype, n).segs[1]) == CertTree(0)
    ensures SegData(raw, TreeElf(memsz, ptype, n).segs[2]) == Fill(n, 200)
  {
    assert raw[0..148] == raw[..148];
    assert raw[148..260] == CertTree(0);
    assert raw[260..260 + n] == Fill(n, 200);
  }

  lemma TreeImageLayout(elf: Elf, memsz: byte, ptype: byte, n: byte)
    requires elf == TreeElf(memsz, ptype, n)
    ensures GoodLayout(elf) && Payload(elf, 1) && Payload(elf, 2) && Top(elf) == PhEnd(elf) == 148
  {
    assert EntryPos(52, 32, 3) == EntryPos(84, 32, 2) == EntryPos(116, 32, 1) == 148;
    assert SegmentsApart(elf, 3);
  }

  /** The device tree is found and replaced. */
  lemma TreeRebuilt(tools: Tools, data: seq<byte>, new_: seq<byte>)
    requires data == CertTree(0) && new_ == CertTree(1) && tools.patchDtb == SetCert
    ensures Scan(data) == [Dtb(0, 112)] && IsTouched(tools, data) && Rebuilt(tools, data) == new_
    ensures SegmentPairs(tools, data) == [(tools.sha384(data), tools.sha384(new_))]
    ensures Body(data, Dtb(0, 112)) == data
  {
    var d := Dtb(0, 112);
    CertScanned(data);
    assert Body(data, d) == data && [d][1..] == [];
    assert RebuildFrom(tools, data, [d], 0) == data[0..0] + new_ + data[112..];
    assert SegmentPairs(tools, data) == [(tools.sha384(data), tools.sha384(new_))] + [];
  }

  lemma CertScanned(data: seq<byte>)
    requires data == CertTree(0)
    ensures Scan(data) == [Dtb(0, 112)]
  {
    TreeHeader(112, 8, 0);
    assert data[0..112] == data;
    CertFound(data, 0, data);
    ScanOver(data, 0, 112);
    ScanStops(data, 112);
  }

  lemma MagicFirst(data: seq<byte>, p: nat)
    ensures ValidAt(data, p) ==> data[p] == 0xD0
  {
  }

  lemma NoTree(data: seq<byte>)
    requires forall p :: 0 <= p < |data| ==> data[p] != 0xD0
    ensures Scan(data) == []
  {
    forall p: nat | p < |data| && Aligned(p)
      ensures !ValidAt(data, p)
    {
      MagicFirst(data, p);
    }
    ScanStops(data, 0);
  }

  /** The program patches segment 1 and no other. */
  lemma TreeImageListed(raw: seq<byte>, memsz: byte, ptype: byte, n: byte)
    requires raw == TreeImage(memsz, ptype, n) && memsz != 0xD0 && ptype != 0xD0 && n != 0xD0
    ensures DtbSegments(raw, TreeElf(memsz, ptype, n).segs, 0) == [1]
  {
    var segs := TreeElf(memsz, ptype, n).segs;
    TreeImageData(raw, memsz, ptype, n);
    NoTree(raw[..148]);
    CertScanned(CertTree(0));
    NoTree(Fill(n, 200));
    OneListed(raw, segs);
  }

  lemma OneListed(raw: seq<byte>, segs: seq<Seg>)
    requires |segs| == 3 && Scan(SegData(raw, segs[0])) == Scan(SegData(raw, segs[2])) == []
    requires Scan(SegData(raw, segs[1])) != []
    ensures DtbSegments(raw, segs, 0) == [1]
  {
    assert DtbSegments(raw, segs, 3) == [];
    assert DtbSegments(raw, segs, 2) == [] + [];
    assert DtbSegments(raw, segs, 1) == [1] + ([] + []);
    assert DtbSegments(raw, segs, 0) == [] + ([1] + ([] + []));
  }

  /** The image after the header writes. */
  lemma TreeImageWrites(tools: Tools, raw: seq<byte>, memsz: byte, ptype: byte, n: byte, new_: seq<byte>)
    returns (fixed: seq<byte>, r: seq<byte>)
    requires raw == TreeImage(memsz, ptype, n) && new_ == CertTree(1)
    ensures Fixed(raw, TreeElf(memsz, ptype, n), 1, 112, new_) == Some(fixed)
    ensures Finish(tools, raw, fixed, TreeElf(memsz, ptype, n).segs[0], CertTree(0), 1) == Some(r)
  {
    var elf, spliced := TreeElf(memsz, ptype, n), Splice(raw, 148, 260, new_);
    SmallFits(spliced, 100, 112);
    var a := WriteField(spliced, 100, 4, 112, true).value;
    SmallFits(a, 104, 112);
    fixed := WriteField(a, 104, 4, 112, true).value;
    assert EntryPos(52, 32, 1) == 84;
    assert Fixed(raw, elf, 1, 112, new_) == Some(fixed);
    TreeImageShows(raw, memsz, ptype, n);
    TreeImageLayout(elf, memsz, ptype, n);
    FixedParses(raw, elf, 1, 112, new_, fixed);
    r := Finish(tools, raw, fixed, elf.segs[0], CertTree(0), 1).value;
  }

  /** The run is that one step. */
  lemma TreeImageRun(tools: Tools, raw: seq<byte>, memsz: byte, ptype: byte, n: byte, new_: seq<byte>,
                     fixed: seq<byte>, r: seq<byte>)
    requires raw == TreeImage(memsz, ptype, n) && memsz != 0xD0 && ptype != 0xD0 && n != 0xD0 && tools.patchDtb == SetCert
    requires new_ == CertTree(1) && Fixed(raw, TreeElf(memsz, ptype, n), 1, 112, new_) == Some(fixed)
    requires Finish(tools, raw, fixed, TreeElf(memsz, ptype, n).segs[0], CertTree(0), 1) == Some(r)
    ensures PatchUefi(tools, raw).Some? && PatchUefi(tools, raw).value.0 == r
  {
    var elf := TreeElf(memsz, ptype, n);
    TreeImageShows(raw, memsz, ptype, n);
    TreeImageListed(raw, memsz, ptype, n);
    TreeImageData(raw, memsz, ptype, n);
    TreeRebuilt(tools, CertTree(0), new_);
    OneStep(tools, raw, elf, CertTree(0), new_, fixed, r);
    RunOfOne(tools, raw, 1, r);
  }

  lemma OneStep(tools: Tools, raw: seq<byte>, elf: Elf, data: seq<byte>, new_: seq<byte>, fixed: seq<byte>, r: seq<byte>)
    requires ParseElf(raw) == Some(elf) && |elf.segs| > 1 && data == SegData(raw, elf.segs[1])
    requires IsTouched(tools, data) && Rebuilt(tools, data) == new_
    requires Fixed(raw, elf, 1, |data|, new_) == Some(fixed)
    requires Finish(tools, raw, fixed, elf.segs[0], data, 1) == Some(r)
    ensures PatchStep(tools, raw, 1).Some? && PatchStep(tools, raw, 1).value.0 == r
  {
    var off, shift, size := elf.segs[1].offset, |new_| - |data|, |new_|;
    var spliced := SpliceIn(tools, raw, off, data);
    FixedWrites(raw, elf, 1, |data|, new_, off, shift, size, spliced, fixed);
    RewriteIs(tools, raw, spliced, elf, 1, data, new_, off, shift, size);
    StepOfRewrite(tools, raw, elf, 1, data, r);
  }

  lemma StepOfRewrite(tools: Tools, raw: seq<byte>, elf: Elf, t: nat, data: seq<byte>, r: seq<byte>)
    requires ParseElf(raw) == Some(elf) && t < |elf.segs| && data == SegData(raw, elf.segs[t]) && IsTouched(tools, data)
    requires Rewrite(tools, raw, SpliceIn(tools, raw, elf.segs[t].offset, data), elf, t, data) == Some(r)
    ensures PatchStep(tools, raw, t).Some? && PatchStep(tools, raw, t).value.0 == r
  {
  }

  lemma RunOfOne(tools: Tools, raw: seq<byte>, t: nat, r: seq<byte>)
    requires PatchStep(tools, raw, t).Some? && PatchStep(tools, raw, t).value.0 == r
    ensures PatchRun(tools, raw, [t]).Some? && PatchRun(tools, raw, [t]).value.0 == r
  {
    assert [t][1..] == [];
  }

  // ---------------------------------------------------------------------
  // A segment that keeps its size
  // ---------------------------------------------------------------------

  /** `p_memsz` is 116, and the 48 bytes are the digest of the headers. */
  function HeadImage(): seq<byte> { TreeImage(116, 0, 48) }

  function HeadElf(): Elf { TreeElf(116, 0, 48) }

  function HeadDigest(s: seq<byte>): Digest {
    if s == HeadImage()[..148] then Fill(48, 200) else Fill(48, 255)
  }

  function HeadTools(): Tools { Tools(HeadDigest, SetCert) }

  lemma OccursFirst(s: seq<byte>, d: seq<byte>, p: nat)
    requires d != []
    ensures OccursAt(s, d, p) ==> s[p] == d[0]
  {
    if OccursAt(s, d, p) {
      assert s[p..p + |d|][0] == d[0];
    }
  }

  /** No digest of anything but the headers is in the hash segment. */
  lemma NotThere(hashes: seq<byte>, cs: seq<Change>, s: Slot)
    requires hashes == Fill(48, 200) && forall c :: c in cs ==> c.old_ == Fill(48, 255)
    ensures HitsOk(hashes, cs, {s})
  {
    forall c | c in cs
      ensures Hit(hashes, c.old_) == None
    {
      var hit := Hit(hashes, c.old_);
      if hit.Some? {
        OccursFirst(hashes, c.old_, hit.value);
        assert false;
      }
    }
  }

  lemma OnlyOtherDigests(raw: seq<byte>, fixed: seq<byte>, data: seq<byte>, new_: seq<byte>)
    requires raw == HeadImage() && data == CertTree(0) && new_ == CertTree(1)
    ensures forall c :: c in Changes(HeadTools(), raw, fixed, HeadElf().segs[0], data, 1) ==> c.old_ == Fill(48, 255)
  {
    var tools, d := HeadTools(), Dtb(0, 112);
    TreeRebuilt(tools, data, new_);
    assert |data| != |raw[..148]|;
    assert [d][1..] == [];
    assert TreeChanges(tools, data, [d], 0, 1, 0) == [Change(Tree(1, 0), tools.sha384(data), tools.sha384(new_))];
  }

  /** The slot of the headers is right before the step. */
  lemma HeadAgrees(raw: seq<byte>, hashes: seq<byte>)
    requires raw == HeadImage() && hashes == Fill(48, 200)
    ensures SegData(raw, HeadElf().segs[2]) == hashes
    ensures Agrees(HeadTools(), raw, HeadElf(), hashes, Slot(0, Whole(0))) == true
  {
    TreeImageData(raw, 116, 0, 48);
    assert hashes[0..48] == hashes;
  }

  lemma HeadOccurs(raw: seq<byte>, data: seq<byte>, new_: seq<byte>, fixed: seq<byte>)
    requires raw == HeadImage() && data == CertTree(0) && new_ == CertTree(1)
    ensures HitsOk(SegData(raw, HeadElf().segs[2]),
                         Changes(HeadTools(), raw, fixed, HeadElf().segs[0], data, 1), {Slot(0, Whole(0))}) == true
  {
    TreeImageData(raw, 116, 0, 48);
    OnlyOtherDigests(raw, fixed, data, new_);
    NotThere(Fill(48, 200), Changes(HeadTools(), raw, fixed, HeadElf().segs[0], data, 1), Slot(0, Whole(0)));
  }

  lemma HeadTells(raw: seq<byte>, c: seq<byte>)
    requires raw == HeadImage()
    ensures Tells(HeadTools(), c, SegData(raw, HeadElf().segs[0])) == true
  {
    TreeImageData(raw, 116, 0, 48);
    assert Fill(48, 200)[0] != Fill(48, 255)[0];
  }

  lemma HeadHome(tools: Tools, raw: seq<byte>, elf: Elf, data: seq<byte>, fixed: seq<byte>, elf': Elf)
    requires |elf.segs| == 3 && FirstNull(elf.segs, 1, 2) && elf' == FixedElf(elf, 1, 112, 112)
    ensures |elf'.segs| == 3 && Homed(tools, raw, fixed, elf', elf.segs[0], data, 1, 2) == true
  {
    NullKept(elf, elf', 1, 112, 112, 1, 2);
    HashSegmentHomes(tools, raw, fixed, elf', elf.segs[0], data, 1, 2);
  }

  lemma HeadLayout(elf: Elf)
    requires elf == HeadElf()
    ensures |elf.segs| == 3 && elf.segs[0] == Seg(1, 0, 148, 148) && elf.segs[1] == Seg(1, 148, 112, 116)
    ensures PhEnd(elf) == 148 && elf.h.phoff == 52 && FirstNull(elf.segs, 1, 2)
    ensures HeadInFront(elf, 1, 2) == true && Ready(elf, 1, 2) == true && GoodLayout(elf) == true
  {
    TreeImageLayout(elf, 116, 0, 48);
  }

  lemma OneSlot(s: Slot)
    ensures Spaced({s}) == true
  {
  }

  lemma HeadStep(tools: Tools, raw: seq<byte>, elf: Elf, data: seq<byte>, new_: seq<byte>, fixed: seq<byte>,
                 r: seq<byte>, elf': Elf, s: Slot)
    requires |elf.segs| == 3 && elf.segs[0] == Seg(1, 0, 148, 148) && elf.segs[1] == Seg(1, 148, 112, 116)
    requires PhEnd(elf) == 148 && elf.h.phoff == 52 && FirstNull(elf.segs, 1, 2)
    requires s.of == Whole(0) && |raw| == 308 && |data| == |new_| == 112
    requires new_ == Rebuilt(tools, data) && IsElf(raw, elf) && data == SegData(raw, elf.segs[1])
    requires Fixed(raw, elf, 1, 112, new_) == Some(fixed) && elf' == FixedElf(elf, 1, 112, 112)
    requires Finish(tools, raw, fixed, elf.segs[0], data, 1) == Some(r)
    requires Agrees(tools, raw, elf, SegData(raw, elf.segs[2]), s) == true
    requires HitsOk(SegData(raw, elf.segs[2]), Changes(tools, raw, fixed, elf.segs[0], data, 1), {s}) == true
    requires |elf'.segs| == 3 && Tells(tools, SegData(r, elf'.segs[0]), SegData(raw, elf.segs[0])) == true
    requires HeadInFront(elf, 1, 2) == true && Ready(elf, 1, 2) == true && GoodLayout(elf) == true
    ensures !Agrees(tools, r, elf', SegData(r, elf'.segs[2]), s)
  {
    OneSlot(s);
    HeadHome(tools, raw, elf, data, fixed, elf');
    HeadSlotWrong(tools, raw, elf, 1, 2, data, new_, fixed, r, {s}, s, elf');
  }

  lemma HeadParses(raw: seq<byte>, elf: Elf, data: seq<byte>, new_: seq<byte>, fixed: seq<byte>, r: seq<byte>, elf': Elf)
    requires elf == HeadElf() && |data| == |new_| == 112
    requires IsElf(raw, elf) && data == SegData(raw, elf.segs[1])
    requires Fixed(raw, elf, 1, 112, new_) == Some(fixed) && elf' == FixedElf(elf, 1, 112, 112)
    requires Finish(HeadTools(), raw, fixed, elf.segs[0], data, 1) == Some(r)
    ensures ParseElf(r) == Some(elf')
  {
    HeadLayout(elf);
    HeadHome(HeadTools(), raw, elf, data, fixed, elf');
    HomeLayout(HeadTools(), raw, elf, 1, 2, data, new_, fixed, r, elf');
  }

  /** The slot of the headers is right before the run and wrong after it: the segment keeps
      its size, its `p_memsz` changes, and the digest of the headers is not refreshed. */
  lemma HeadSlotLost(raw: seq<byte>) returns (r: seq<byte>, elf': Elf)
    requires raw == HeadImage()
    ensures HeaderOk(CertTree(0)) && HeaderOk(CertTree(1)) && ParseElf(raw) == Some(HeadElf())
    ensures Agrees(HeadTools(), raw, HeadElf(), SegData(raw, HeadElf().segs[2]), Slot(0, Whole(0)))
    ensures PatchUefi(HeadTools(), raw).Some? && PatchUefi(HeadTools(), raw).value.0 == r
    ensures ParseElf(r) == Some(elf') && |elf'.segs| == 3
    ensures !Agrees(HeadTools(), r, elf', SegData(r, elf'.segs[2]), Slot(0, Whole(0)))
  {
    var data, new_, fixed := CertTree(0), CertTree(1), [];
    TreeImageShows(raw, 116, 0, 48);
    TreeImageData(raw, 116, 0, 48);
    TreeRebuilt(HeadTools(), data, new_);
    fixed, r := TreeImageWrites(HeadTools(), raw, 116, 0, 48, new_);
    elf' := FixedElf(HeadElf(), 1, 112, 112);
    TreeImageRun(HeadTools(), raw, 116, 0, 48, new_, fixed, r);
    HeadAgrees(raw, Fill(48, 200));
    HeadParses(raw, HeadElf(), data, new_, fixed, r, elf');
    HeadLayout(HeadElf());
    HeadOccurs(raw, data, new_, fixed);
    HeadTells(raw, SegData(r, elf'.segs[0]));
    HeadStep(HeadTools(), raw, HeadElf(), data, new_, fixed, r, elf', Slot(0, Whole(0)));
    TreesOk();
  }

  // ---------------------------------------------------------------------
  // A digest in another segment
  // ---------------------------------------------------------------------

  /** There is no PT_NULL segment, and a segment holds the digest of the device tree. */
  function StrayImage(): seq<byte> { TreeImage(112, 1, 48) }

  function StrayElf(): Elf { TreeElf(112, 1, 48) }

  function StrayDigest(s: seq<byte>): Digest {
    if s == CertTree(0) then Fill(48, 200) else Fill(48, 255)
  }

  function StrayTools(): Tools { Tools(StrayDigest, SetCert) }

  /** The digest is found at 260, in the whole file. */
  lemma StrayHit(fixed: seq<byte>, d: seq<byte>)
    requires |fixed| == 308 && fixed[260..308] == d == Fill(48, 200)
    requires forall p :: 0 <= p < 260 ==> fixed[p] != 200
    ensures Find(fixed, d, 0, |fixed|) == Some(260)
  {
    assert OccursAt(fixed, d, 260);
    forall p: nat | p < 260
      ensures !OccursAt(fixed, d, p)
    {
      OccursFirst(fixed, d, p);
    }
  }

  /** The header writes change nothing, as both sizes stay. */
  lemma StraySizes(raw: seq<byte>, elf: Elf, new_: seq<byte>, spliced: seq<byte>)
    requires raw == StrayImage() && elf == StrayElf() && |new_| == 112 && spliced == Splice(raw, 148, 260, new_)
    ensures WriteSizes(spliced, elf.h, 1, 112) == Some(spliced)
  {
    TreeImageShows(raw, 112, 1, 48);
    TreeImageLayout(elf, 112, 1, 48);
    SplicedParses(raw, elf, 148, 112, new_, spliced);
    ParseIff(spliced, elf);
    SizesUnchanged(spliced, elf, 1, 112);
  }

  lemma StrayFixed(raw: seq<byte>, elf: Elf, new_: seq<byte>, fixed: seq<byte>)
    requires raw == StrayImage() && elf == StrayElf() && |new_| == 112 && Fixed(raw, elf, 1, 112, new_) == Some(fixed)
    ensures fixed == Splice(raw, 148, 260, new_)
  {
    StraySizes(raw, elf, new_, Splice(raw, 148, 260, new_));
    TreeImageData(raw, 112, 1, 48);
    UngrownWrites(raw, elf, 1, CertTree(0), new_, fixed);
  }

  lemma StrayBytes(raw: seq<byte>, new_: seq<byte>, fixed: seq<byte>)
    requires raw == StrayImage() && new_ == CertTree(1) && fixed == Splice(raw, 148, 260, new_)
    ensures |fixed| == 308 && fixed[260..308] == Fill(48, 200)
    ensures forall p :: 0 <= p < 260 ==> fixed[p] != 200
  {
    assert fixed == raw[..148] + new_ + raw[260..];
  }

  lemma StrayPairs(raw: seq<byte>, data: seq<byte>, new_: seq<byte>, fixed: seq<byte>, pair: DigestPair)
    requires data == CertTree(0) && new_ == CertTree(1) && pair == (Fill(48, 200), Fill(48, 255))
    ensures Updates(StrayTools(), raw, fixed, StrayElf().segs[0], data) == [pair, pair]
  {
    TreeRebuilt(StrayTools(), data, new_);
    CertDiffers();
  }

  /** What is changed by the digest writes: the segment at 260 ... */
  lemma StrayStep(tools: Tools, raw: seq<byte>, elf: Elf, data: seq<byte>, new_: seq<byte>, fixed: seq<byte>, r: seq<byte>,
                  elf': Elf, pair: DigestPair, pairs: seq<DigestPair>)
    requires |elf.segs| == 3 && |data| == |new_| == 112 && data == SegData(raw, elf.segs[1]) && IsElf(raw, elf)
    requires Fixed(raw, elf, 1, 112, new_) == Some(fixed) && elf' == FixedElf(elf, 1, 112, 112)
    requires Finish(tools, raw, fixed, elf.segs[0], data, 1) == Some(r)
    requires pair.0 != pair.1 && Find(fixed, pair.0, 0, |fixed|) == Some(260) && pair in pairs
    requires Updates(tools, raw, fixed, elf.segs[0], data) == pairs && forall p :: p in pairs ==> p == pair
    requires |elf'.segs| == 3 && elf'.segs[2] == Seg(1, 260, 48, 48) && NoNull(elf'.segs, 1)
    requires Payload(elf, 1) && Payload(elf, 2) && GoodLayout(elf) == true
    ensures SegData(r, elf'.segs[2]) != SegData(raw, elf.segs[2])
  {
    RegionAll(elf'.segs, 1, |fixed|);
    TouchedSegmentIff(tools, raw, elf, 1, data, new_, fixed, r, elf', 2, 0, |fixed|, pairs);
    assert !Harmless(fixed, pair, 0, |fixed|, elf'.segs[2]);
  }

  /** ... but not the headers. */
  lemma StrayParses(tools: Tools, raw: seq<byte>, elf: Elf, data: seq<byte>, new_: seq<byte>, fixed: seq<byte>, r: seq<byte>,
                    elf': Elf, pair: DigestPair)
    requires |elf.segs| == 3 && |data| == |new_| == 112 && data == SegData(raw, elf.segs[1]) && IsElf(raw, elf)
    requires Fixed(raw, elf, 1, 112, new_) == Some(fixed) && elf' == FixedElf(elf, 1, 112, 112)
    requires Finish(tools, raw, fixed, elf.segs[0], data, 1) == Some(r)
    requires Find(fixed, pair.0, 0, |fixed|) == Some(260)
    requires Updates(tools, raw, fixed, elf.segs[0], data) == [pair, pair]
    requires NoNull(elf'.segs, 1) && Top(elf') == 148
    requires Payload(elf, 1) && GoodLayout(elf) == true
    ensures ParseElf(r) == Some(elf')
  {
    StraySparesFront(tools, raw, fixed, elf', elf.segs[0], data, pair);
    TouchedLayout(tools, raw, elf, 1, data, new_, fixed, r, elf');
  }

  lemma StraySparesFront(tools: Tools, raw: seq<byte>, fixed: seq<byte>, elf': Elf, ph0: Seg, data: seq<byte>,
                         pair: DigestPair)
    requires NoNull(elf'.segs, 1) && Top(elf') == 148 && Find(fixed, pair.0, 0, |fixed|) == Some(260)
    requires Updates(tools, raw, fixed, ph0, data) == [pair, pair]
    ensures Spares(tools, raw, fixed, elf', ph0, data, 1, Front(elf')) == true
  {
    RegionAll(elf'.segs, 1, |fixed|);
    MissTwice(fixed, pair, 0, |fixed|, Front(elf'));
  }

  lemma MissTwice(base: seq<byte>, pair: DigestPair, lo: nat, hi: nat, s: Seg)
    requires Misses(Find(base, pair.0, lo, hi), s)
    ensures AllMiss(base, [pair, pair], lo, hi, s)
  {
    assert [pair, pair][1..] == [pair] && [pair][1..] == [];
  }

  lemma StrayView(elf: Elf, elf': Elf)
    requires elf == StrayElf() && elf' == FixedElf(elf, 1, 112, 112)
    ensures |elf'.segs| == 3 && elf'.segs[2] == Seg(1, 260, 48, 48) && NoNull(elf'.segs, 1)
    ensures Top(elf') == 148
  {
    ResizedAt(elf, 1, 148, 0, 112, 2);
    NoNullKept(elf, elf', 1, 112, 112, 1);
    TreeImageLayout(elf, 112, 1, 48);
  }

  lemma StrayRun(tools: Tools, raw: seq<byte>, elf: Elf, data: seq<byte>, new_: seq<byte>, fixed: seq<byte>, r: seq<byte>,
                 elf': Elf, pair: DigestPair)
    requires elf == StrayElf() && |data| == |new_| == 112 && data == SegData(raw, elf.segs[1]) && IsElf(raw, elf)
    requires Fixed(raw, elf, 1, 112, new_) == Some(fixed) && elf' == FixedElf(elf, 1, 112, 112)
    requires Finish(tools, raw, fixed, elf.segs[0], data, 1) == Some(r)
    requires pair.0 != pair.1 && Find(fixed, pair.0, 0, |fixed|) == Some(260)
    requires Updates(tools, raw, fixed, elf.segs[0], data) == [pair, pair]
    ensures ParseElf(r) == Some(elf') && |elf'.segs| == 3 && SegData(r, elf'.segs[2]) != SegData(raw, elf.segs[2])
  {
    StrayView(elf, elf');
    TreeImageLayout(elf, 112, 1, 48);
    StrayParses(tools, raw, elf, data, new_, fixed, r, elf', pair);
    StrayStep(tools, raw, elf, data, new_, fixed, r, elf', pair, [pair, pair]);
  }

  /** What the run finds in the file. */
  lemma StrayFound(raw: seq<byte>, data: seq<byte>, new_: seq<byte>, fixed: seq<byte>, pair: DigestPair)
    requires raw == StrayImage() && data == CertTree(0) && new_ == CertTree(1)
    requires Fixed(raw, StrayElf(), 1, 112, new_) == Some(fixed) && pair == (Fill(48, 200), Fill(48, 255))
    ensures Find(fixed, pair.0, 0, |fixed|) == Some(260) && pair.0 != pair.1
    ensures Updates(StrayTools(), raw, fixed, StrayElf().segs[0], data) == [pair, pair]
  {
    StrayFixed(raw, StrayElf(), new_, fixed);
    StrayBytes(raw, new_, fixed);
    StrayHit(fixed, pair.0);
    StrayPairs(raw, data, new_, fixed, pair);
    assert pair.0[0] != pair.1[0];
  }

  /** A segment that has nothing to do with device trees is overwritten: it happens to hold
      the digest of the patched one, and there is no PT_NULL segment to look in. */
  lemma StrayOverwritten(raw: seq<byte>) returns (r: seq<byte>, elf': Elf)
    requires raw == StrayImage()
    ensures HeaderOk(CertTree(0)) && HeaderOk(CertTree(1)) && ParseElf(raw) == Some(StrayElf()) && GoodLayout(StrayElf())
    ensures PatchUefi(StrayTools(), raw).Some? && PatchUefi(StrayTools(), raw).value.0 == r
    ensures ParseElf(r) == Some(elf') && |elf'.segs| == 3
    ensures Scan(SegData(raw, StrayElf().segs[2])) == []
    ensures SegData(r, elf'.segs[2]) != SegData(raw, StrayElf().segs[2])
  {
    var data, new_, fixed, pair := CertTree(0), CertTree(1), [], (Fill(48, 200), Fill(48, 255));
    StrayStart(raw, data);
    fixed, r := TreeImageWrites(StrayTools(), raw, 112, 1, 48, new_);
    elf' := FixedElf(StrayElf(), 1, 112, 112);
    TreeImageRun(StrayTools(), raw, 112, 1, 48, new_, fixed, r);
    StrayFound(raw, data, new_, fixed, pair);
    StrayRun(StrayTools(), raw, StrayElf(), data, new_, fixed, r, elf', pair);
    TreeImageLayout(StrayElf(), 112, 1, 48);
    TreesOk();
  }

  lemma StrayStart(raw: seq<byte>, data: seq<byte>)
    requires raw == StrayImage() && data == CertTree(0)
    ensures ParseElf(raw) == Some(StrayElf()) && SegData(raw, StrayElf().segs[1]) == data
    ensures Scan(SegData(raw, StrayElf().segs[2])) == []
  {
    TreeImageShows(raw, 112, 1, 48);
    TreeImageData(raw, 112, 1, 48);
    NoTree(Fill(48, 200));
  }

  lemma TreesOk()
    ensures HeaderOk(CertTree(0)) && HeaderOk(CertTree(1))
  {
    TreeHeader(112, 8, 0);
    TreeHeader(112, 8, 1);
  }

  // ---------------------------------------------------------------------
  // Two slots with one digest
  // ---------------------------------------------------------------------

  /** The table has two slots, one for the device tree and one for the segment it fills. */
  function TwinImage(): seq<byte> { TreeImage(112, 0, 96) }

  function TwinElf(): Elf { TreeElf(112, 0, 96) }

  const TREE_SLOT := Slot(0, Tree(1, 0))
  const SEGMENT_SLOT := Slot(48, Whole(1))

  /** The digest is found in the first slot. */
  lemma TwinHit(hashes: seq<byte>, d: Digest)
    requires hashes == Fill(96, 200) && d == Fill(48, 200)
    ensures Hit(hashes, d) == Some(0) && OccursAt(hashes, d, 0) && OccursAt(hashes, d, 48)
  {
    assert hashes[0..48] == d && hashes[48..96] == d;
    FirstFound(hashes, d, 0, |hashes|, 0);
  }

  /** No digest is found anywhere but in a slot of its own. */
  lemma TwinHits(tools: Tools, raw: seq<byte>, fixed: seq<byte>, ph0: Seg, hashes: seq<byte>, data: seq<byte>, new_: seq<byte>,
                 a: Slot, b: Slot)
    requires IsOneTree(tools, data, new_) && |new_| == |data| && Hit(hashes, tools.sha384(data)) == Some(0)
    requires a == TREE_SLOT && b == SEGMENT_SLOT && tools.sha384(data) != tools.sha384(new_)
    ensures HitsOk(hashes, Changes(tools, raw, fixed, ph0, data, 1), {a, b}) == true
    ensures Reached(hashes, Changes(tools, raw, fixed, ph0, data, 1), a)
    ensures !Reached(hashes, Changes(tools, raw, fixed, ph0, data, 1), b)
  {
    var was, is_ := tools.sha384(data), tools.sha384(new_);
    var x, y := Change(Tree(1, 0), was, is_), Change(Whole(1), was, is_);
    OneTreeChanges(tools, data, new_, 1);
    assert Changes(tools, raw, fixed, ph0, data, 1) == [x, y] + [];
    assert x in [x, y] && y in [x, y];
    HitsAlike(hashes, [x, y], {a, b}, a, x);
  }

  lemma TwinScan(tools: Tools, data: seq<byte>, new_: seq<byte>)
    requires data == CertTree(0) && new_ == CertTree(1) && tools.patchDtb == SetCert
    ensures IsOneTree(tools, data, new_) && Rescannable(tools, data)
  {
    CertScanned(data);
    TreesOk();
    TreeHeader(112, 8, 1);
    assert Body(data, Dtb(0, 112)) == data && [Dtb(0, 112)][1..] == [];
    assert Aligned(0);
    Align4IsMask(112);
    QuietSuffices(tools, data);
  }

  lemma TwinSpaced(a: Slot, b: Slot)
    requires a == TREE_SLOT && b == SEGMENT_SLOT
    ensures Spaced({a, b}) == true
  {
  }

  /** Both slots over the step. */
  lemma TwinStep(tools: Tools, raw: seq<byte>, elf: Elf, data: seq<byte>, new_: seq<byte>, fixed: seq<byte>, r: seq<byte>,
                 elf': Elf, s: Slot, slots: set<Slot>)
    requires |elf.segs| == 3 && elf.segs[1] == Seg(1, 148, 112, 112) && |data| == |new_| == 112
    requires FirstNull(elf.segs, 1, 2) && new_ == Rebuilt(tools, data) && Rescannable(tools, data) == true
    requires IsElf(raw, elf) && data == SegData(raw, elf.segs[1]) && s.of in {Tree(1, 0), Whole(1)} && s in slots
    requires Fixed(raw, elf, 1, 112, new_) == Some(fixed) && elf' == FixedElf(elf, 1, 112, 112)
    requires Finish(tools, raw, fixed, elf.segs[0], data, 1) == Some(r)
    requires HitsOk(SegData(raw, elf.segs[2]), Changes(tools, raw, fixed, elf.segs[0], data, 1), slots) == true
    requires Agrees(tools, raw, elf, SegData(raw, elf.segs[2]), s) == true && Spaced(slots) == true
    requires Ready(elf, 1, 2) == true && GoodLayout(elf) == true
    ensures |elf'.segs| == 3
    ensures Agrees(tools, r, elf', SegData(r, elf'.segs[2]), s)
       <==> Reached(SegData(raw, elf.segs[2]), Changes(tools, raw, fixed, elf.segs[0], data, 1), s)
  {
    HeadHome(tools, raw, elf, data, fixed, elf');
    TouchedSlot(tools, raw, elf, 1, 2, data, fixed, r, elf', slots, s);
  }

  lemma TwinParses(tools: Tools, raw: seq<byte>, elf: Elf, data: seq<byte>, new_: seq<byte>, fixed: seq<byte>, r: seq<byte>,
                   elf': Elf)
    requires |elf.segs| == 3 && elf.segs[1] == Seg(1, 148, 112, 112) && |data| == |new_| == 112
    requires FirstNull(elf.segs, 1, 2) && IsElf(raw, elf) && data == SegData(raw, elf.segs[1])
    requires Fixed(raw, elf, 1, 112, new_) == Some(fixed) && elf' == FixedElf(elf, 1, 112, 112)
    requires Finish(tools, raw, fixed, elf.segs[0], data, 1) == Some(r)
    requires Ready(elf, 1, 2) == true && GoodLayout(elf) == true
    ensures ParseElf(r) == Some(elf')
  {
    HeadHome(tools, raw, elf, data, fixed, elf');
    HomeLayout(tools, raw, elf, 1, 2, data, new_, fixed, r, elf');
  }

  lemma TwinLayout(elf: Elf)
    requires elf == TwinElf()
    ensures |elf.segs| == 3 && elf.segs[1] == Seg(1, 148, 112, 112) && FirstNull(elf.segs, 1, 2)
    ensures Ready(elf, 1, 2) == true && GoodLayout(elf) == true
  {
    TreeImageLayout(elf, 112, 0, 96);
  }

  lemma TwinAgree(tools: Tools, raw: seq<byte>, elf: Elf, data: seq<byte>, hashes: seq<byte>, s: Slot)
    requires |elf.segs| == 3 && data == SegData(raw, elf.segs[1]) && Scan(data) == [Dtb(0, |data|)]
    requires s.of in {Tree(1, 0), Whole(1)} && OccursAt(hashes, tools.sha384(data), s.at)
    ensures Agrees(tools, raw, elf, hashes, s) == true
  {
    assert Body(data, Dtb(0, |data|)) == data;
  }

  lemma TwinStart(raw: seq<byte>, elf: Elf, data: seq<byte>, hashes: seq<byte>)
    requires raw == TwinImage() && elf == TwinElf() && data == CertTree(0) && hashes == Fill(96, 200)
    ensures ParseElf(raw) == Some(elf) && SegData(raw, elf.segs[1]) == data && SegData(raw, elf.segs[2]) == hashes
  {
    TreeImageShows(raw, 112, 0, 96);
    TreeImageData(raw, 112, 0, 96);
  }

  /** What makes the run go wrong. */
  lemma TwinFacts(tools: Tools, data: seq<byte>, new_: seq<byte>, hashes: seq<byte>)
    requires data == CertTree(0) && new_ == CertTree(1) && hashes == Fill(96, 200) && tools == StrayTools()
    ensures IsOneTree(tools, data, new_) == true && Rescannable(tools, data) == true
    ensures tools.sha384(data) != tools.sha384(new_) && Hit(hashes, tools.sha384(data)) == Some(0)
    ensures OccursAt(hashes, tools.sha384(data), 0) && OccursAt(hashes, tools.sha384(data), 48)
  {
    TwinScan(tools, data, new_);
    TwinHit(hashes, Fill(48, 200));
    CertDiffers();
    assert Fill(48, 200)[0] != Fill(48, 255)[0];
  }

  /** Both slots are right before the run; after it that of the device tree is, and that of
      the segment is not, as both updates went to the first occurrence. */
  lemma TwinSlotLost(raw: seq<byte>) returns (r: seq<byte>, elf': Elf)
    requires raw == TwinImage()
    ensures HeaderOk(CertTree(0)) && HeaderOk(CertTree(1)) && ParseElf(raw) == Some(TwinElf())
    ensures Agrees(StrayTools(), raw, TwinElf(), SegData(raw, TwinElf().segs[2]), TREE_SLOT)
    ensures Agrees(StrayTools(), raw, TwinElf(), SegData(raw, TwinElf().segs[2]), SEGMENT_SLOT)
    ensures PatchUefi(StrayTools(), raw).Some? && PatchUefi(StrayTools(), raw).value.0 == r
    ensures ParseElf(r) == Some(elf') && |elf'.segs| == 3
    ensures Agrees(StrayTools(), r, elf', SegData(r, elf'.segs[2]), TREE_SLOT)
    ensures !Agrees(StrayTools(), r, elf', SegData(r, elf'.segs[2]), SEGMENT_SLOT)
  {
    var data, new_, fixed, hashes := CertTree(0), CertTree(1), [], Fill(96, 200);
    TwinStart(raw, TwinElf(), data, hashes);
    fixed, r := TreeImageWrites(StrayTools(), raw, 112, 0, 96, new_);
    elf' := FixedElf(TwinElf(), 1, 112, 112);
    TreeImageRun(StrayTools(), raw, 112, 0, 96, new_, fixed, r);
    TwinFacts(StrayTools(), data, new_, hashes);
    TwinAgree(StrayTools(), raw, TwinElf(), data, hashes, TREE_SLOT);
    TwinAgree(StrayTools(), raw, TwinElf(), data, hashes, SEGMENT_SLOT);
    TwinLayout(TwinElf());
    TwinOutcome(StrayTools(), raw, TwinElf(), data, new_, fixed, r, elf', hashes, TREE_SLOT, SEGMENT_SLOT);
    TreesOk();
  }

  lemma TwinOutcome(tools: Tools, raw: seq<byte>, elf: Elf, data: seq<byte>, new_: seq<byte>, fixed: seq<byte>, r: seq<byte>,
                    elf': Elf, hashes: seq<byte>, a: Slot, b: Slot)
    requires a == TREE_SLOT && b == SEGMENT_SLOT && |elf.segs| == 3 && elf.segs[1] == Seg(1, 148, 112, 112)
    requires |data| == |new_| == 112 && FirstNull(elf.segs, 1, 2)
    requires IsOneTree(tools, data, new_) == true && Rescannable(tools, data) == true && tools.sha384(data) != tools.sha384(new_)
    requires IsElf(raw, elf) && data == SegData(raw, elf.segs[1]) && hashes == SegData(raw, elf.segs[2])
    requires Hit(hashes, tools.sha384(data)) == Some(0)
    requires Fixed(raw, elf, 1, 112, new_) == Some(fixed) && elf' == FixedElf(elf, 1, 112, 112)
    requires Finish(tools, raw, fixed, elf.segs[0], data, 1) == Some(r)
    requires Agrees(tools, raw, elf, hashes, a) == true && Agrees(tools, raw, elf, hashes, b) == true
    requires Ready(elf, 1, 2) == true && GoodLayout(elf) == true
    ensures ParseElf(r) == Some(elf') && |elf'.segs| == 3
    ensures Agrees(tools, r, elf', SegData(r, elf'.segs[2]), a) && !Agrees(tools, r, elf', SegData(r, elf'.segs[2]), b)
  {
    OneTreeChanges(tools, data, new_, 1);
    TwinHits(tools, raw, fixed, elf.segs[0], hashes, data, new_, a, b);
    TwinSpaced(a, b);
    TwinParses(tools, raw, elf, data, new_, fixed, r, elf');
    TwinStep(tools, raw, elf, data, new_, fixed, r, elf', a, {a, b});
    TwinStep(tools, raw, elf, data, new_, fixed, r, elf', b, {a, b});
  }
}
