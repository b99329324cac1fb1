// A small ELF file that comes out right: a segment that is one device tree, and a
// table with one slot, for the segment. The conditions of `UefiTableRun` hold.
module SoundImage {
  import opened Bytes
  import opened SegmentRebuild
  import opened ElfImage
  import opened UefiDtbs
  import opened UefiRun
  import opened DigestSlots
  import opened UefiHashes
  import opened OneTree
  import opened UefiTable
  import opened UefiTableRun
  import opened CertTrees
  import opened FailingImages

  const SLOT := Slot(0, Whole(1))

  function SoundDigest(s: seq<byte>): Digest {
    if s == CertTree(0) then Fill(48, 200) else if s == CertTree(1) then Fill(48, 201) else Fill(48, 255)
  }

  function SoundTools(): Tools { Tools(SoundDigest, SetCert) }

  /** The file, its PT_NULL segment, the slot, and the one digest of the headers. */
  function SoundStart(): Start {
    Start(SoundTools(), TreeImage(112, 0, 48), TreeElf(112, 0, 48), 2, {SLOT}, {Fill(48, 255)})
  }

  lemma DigestsDiffer()
    ensures Fill(48, 200) != Fill(48, 201) && Fill(48, 200) != Fill(48, 255) && Fill(48, 201) != Fill(48, 255)
  {
    assert Fill(48, 200)[0] == 200 && Fill(48, 201)[0] == 201 && Fill(48, 255)[0] == 255;
  }

  /** What the segment and the table hold. */
  lemma SoundData(st: Start, data: seq<byte>, hashes: seq<byte>)
    requires st == SoundStart() && data == CertTree(0) && hashes == Fill(48, 200)
    ensures |st.elf.segs| == 3 && Data0(st, 1) == data && Data0(st, 2) == hashes && ParseElf(st.raw) == Some(st.elf)
    ensures |SegData(st.raw, st.elf.segs[0])| == 148 && DtbSegments(st.raw, st.elf.segs, 0) == [1]
  {
    TreeImageShows(st.raw, 112, 0, 48);
    TreeImageData(st.raw, 112, 0, 48);
    TreeImageListed(st.raw, 112, 0, 48);
  }

  lemma SoundTree(tools: Tools, data: seq<byte>, new_: seq<byte>, head: seq<byte>)
    requires tools == SoundTools() && data == CertTree(0) && new_ == CertTree(1) && |head| == 148
    ensures tools.sha384(data) == Fill(48, 200) && tools.sha384(new_) == Fill(48, 201) && tools.sha384(head) == Fill(48, 255)
    ensures IsOneTree(tools, data, new_) && IsTouched(tools, data)
  {
    TreeRebuilt(tools, data, new_);
    CertDiffers();
  }

  /** The digests that the slot may hold. */
  lemma SlotMay(st: Start, data: seq<byte>, new_: seq<byte>, d: Digest)
    requires |st.elf.segs| == 3 && Data0(st, 1) == data && IsOneTree(st.tools, data, new_)
    ensures May(st, Whole(1), d) <==> d == st.tools.sha384(data) || d == st.tools.sha384(new_)
  {
    OneTreeChanges(st.tools, data, new_, 1);
  }

  /** A table of 48 bytes that is one slot shows a digest there and nowhere else. */
  lemma SoundTable(st: Start, ts: seq<nat>)
    requires st.slots == {SLOT} && |Data0(st, st.h)| == 48
    ensures OnlyAtSlots(st, ts)
  {
    forall hashes: seq<byte>, d: Digest, q: nat | Variant(st, hashes) && LookedUp(st, ts, d) && OccursAt(hashes, d, q)
      ensures AtSlot(st.slots, q)
    {
      assert q == 0 && SLOT in st.slots;
    }
  }

  lemma SoundHomes(st: Start, data: seq<byte>, new_: seq<byte>)
    requires |st.elf.segs| == 3 && Data0(st, 1) == data && IsOneTree(st.tools, data, new_) && st.slots == {SLOT}
    ensures OneHome(st, 1)
  {
    OneTreeChanges(st.tools, data, new_, 1);
    var was, is_ := st.tools.sha384(data), st.tools.sha384(new_);
    var a, b := Change(Tree(1, 0), was, is_), Change(Whole(1), was, is_);
    assert ChangesOf(st, 1) == [a, b];
    forall c, s | c in ChangesOf(st, 1) && s in st.slots && May(st, s.of, c.old_)
      ensures (exists o :: o in ChangesOf(st, 1) && o.of == s.of && Alike(c, o)) && OnlySlot(st, c.old_, s)
    {
      assert b in ChangesOf(st, 1) && b.of == s.of && Alike(c, b);
    }
  }

  lemma SoundDigests(st: Start, data: seq<byte>, new_: seq<byte>)
    requires |st.elf.segs| == 3 && st.h == 2 && Data0(st, 1) == data && Data0(st, 2) == Fill(48, 200)
    requires IsOneTree(st.tools, data, new_) && st.slots == {SLOT} && st.heads == {Fill(48, 255)}
    requires st.tools.sha384(data) == Fill(48, 200) && st.tools.sha384(new_) == Fill(48, 201)
    ensures Digests(st, [1])
  {
    DigestsDiffer();
    SoundTable(st, [1]);
    SoundHomes(st, data, new_);
    forall d, s | d in st.heads && s in st.slots
      ensures !May(st, s.of, d)
    {
      SlotMay(st, data, new_, d);
    }
  }

  lemma SoundLayout(st: Start)
    requires st == SoundStart() && IsTouched(st.tools, Data0(st, 1))
    ensures |st.elf.segs| == 3 && ReadyFor(st.elf, [1], 2) == true && Fits(st, st.elf, [1]) == true
    ensures GoodLayout(st.elf) == true
  {
    var elf := st.elf;
    TreeImageLayout(elf, 112, 0, 48);
    assert [1][1..] == [];
    assert FirstNull(elf.segs, 1, 2);
    SoundFits(st, elf);
  }

  lemma SoundFits(st: Start, elf: Elf)
    requires |elf.segs| == 3 && st.h == 2 && FirstNull(elf.segs, 1, 2) && Payload(elf, 1) && st.slots == {SLOT}
    ensures Fits(st, elf, [1])
  {
    forall t: nat | t in [1]
      ensures FitsOne(st, elf, t)
    {
      assert t == 1;
    }
  }

  lemma SoundHeads(st: Start)
    requires |st.elf.segs| == 3 && st.tools.sha384(SegData(st.raw, st.elf.segs[0])) in st.heads
    ensures HeadsIn(st.tools, st.raw, st.elf, [1], st.heads)
  {
    assert [1][1..] == [];
  }

  lemma SoundAgrees(st: Start, data: seq<byte>, hashes: seq<byte>)
    requires |st.elf.segs| == 3 && st.h == 2 && Data0(st, 1) == data && Data0(st, 2) == hashes && st.slots == {SLOT}
    requires st.tools.sha384(data) == hashes
    ensures AllAgree(st.tools, st.raw, st.elf, st.h, st.slots) == true
  {
    assert hashes[0..48] == hashes;
  }

  /** The slot is right before the run and after it, though the digest is looked up twice. */
  lemma SlotKept(st: Start) returns (r: seq<byte>, last: Elf)
    requires st == SoundStart()
    ensures HeaderOk(CertTree(0)) && HeaderOk(CertTree(1)) && ParseElf(st.raw) == Some(st.elf)
    ensures PatchUefi(st.tools, st.raw).Some? && PatchUefi(st.tools, st.raw).value.0 == r
    ensures |st.elf.segs| == 3 && AllAgree(st.tools, st.raw, st.elf, 2, {SLOT})
    ensures ParseElf(r) == Some(last) && |last.segs| == 3 && AllAgree(st.tools, r, last, 2, {SLOT})
  {
    var data, new_, fixed := CertTree(0), CertTree(1), [];
    SoundData(st, data, Fill(48, 200));
    SoundTree(st.tools, data, new_, SegData(st.raw, st.elf.segs[0]));
    fixed, r := TreeImageWrites(st.tools, st.raw, 112, 0, 48, new_);
    TreeImageRun(st.tools, st.raw, 112, 0, 48, new_, fixed, r);
    SoundDigests(st, data, new_);
    SoundLayout(st);
    SoundHeads(st);
    SoundAgrees(st, data, Fill(48, 200));
    last := PatchUefiTable(st, r, [1]);
    TreesOk();
  }
}
