// One call of `_replace_ph`: the image it builds, what every segment holds
// afterwards, and that item sizes and file sizes still agree.
module XblReplace {
  import opened Bytes
  import opened Tables
  import opened SegmentRebuild
  import opened ElfImage
  import opened ElfSplice
  import opened Resize
  import opened UefiDtbs
  import opened DigestWrites
  import opened UefiRun
  import opened XblConfig

  // ---------------------------------------------------------------------
  // The resized image
  // ---------------------------------------------------------------------

  /** On growth the tail moves back, and as many zero bytes again follow it. */
  lemma GrownImage(raw: seq<byte>, off: nat, old_: nat, new_: seq<byte>)
    requires off + old_ <= |raw| && old_ < |new_|
    ensures ResizeImage(raw, off, old_, new_)
         == raw[..off] + new_ + raw[off + old_..] + Fill(|new_| - old_, 0)
  {
    var n, tail := |new_|, raw[off + old_..];
    var over := Splice(raw, off, off + n, new_);
    assert over[..off + n] == raw[..off] + new_;
    assert Splice(over, off + n, off + n + |tail|, tail) == over[..off + n] + tail;
  }

  /** Otherwise the length stays and zeros fill the gap. */
  lemma ShrunkImage(raw: seq<byte>, off: nat, old_: nat, new_: seq<byte>)
    requires off + old_ <= |raw| && |new_| <= old_
    ensures ResizeImage(raw, off, old_, new_)
         == raw[..off] + new_ + Fill(old_ - |new_|, 0) + raw[off + old_..]
    ensures |ResizeImage(raw, off, old_, new_)| == |raw|
  {
    var n := |new_|;
    var over := Splice(raw, off, off + n, new_);
    assert over == raw[..off] + new_ + raw[off + n..];
    if n < old_ {
      assert over[..off + n] == raw[..off] + new_;
      assert over[off + old_..] == raw[off + old_..];
    }
  }

  lemma ConcatRelaid(raw: seq<byte>, img: seq<byte>, off: nat, old_: nat, new_: seq<byte>, a: nat, b: nat)
    requires off + old_ <= |raw| && |new_| + a >= old_
    requires img == raw[..off] + new_ + Fill(a, 0) + raw[off + old_..] + Fill(b, 0)
    ensures Relaid(raw, img, off, old_, new_, |new_| + a - old_)
  {
  }

  lemma ResizeRelaid(raw: seq<byte>, off: nat, old_: nat, new_: seq<byte>, img: seq<byte>)
    requires off + old_ <= |raw| && img == ResizeImage(raw, off, old_, new_)
    ensures Relaid(raw, img, off, old_, new_, ShiftFor(old_, |new_|))
    ensures |img| == |raw| + 2 * ShiftFor(old_, |new_|)
  {
    if old_ < |new_| {
      GrownImage(raw, off, old_, new_);
      assert raw[..off] + new_ + Fill(0, 0) == raw[..off] + new_;
      ConcatRelaid(raw, img, off, old_, new_, 0, |new_| - old_);
    } else {
      ShrunkImage(raw, off, old_, new_);
      assert img == img + Fill(0, 0);
      ConcatRelaid(raw, img, off, old_, new_, old_ - |new_|, 0);
    }
  }

  // ---------------------------------------------------------------------
  // Digests found where they belong
  // ---------------------------------------------------------------------

  function TargetPair(tools: Tools, raw: seq<byte>, s: Seg, new_: seq<byte>): DigestPair {
    (tools.sha384(SegData(raw, s)), tools.sha384(new_))
  }

  /** Every digest that a replacement looks up in the whole file is found in `hs` or not at all. */
  predicate DigestsIn(tools: Tools, raw: seq<byte>, sized: seq<byte>, elf: Elf, t: nat, new_: seq<byte>, meta: nat, hs: Seg)
    requires t < |elf.segs|
  {
    var pair := [TargetPair(tools, raw, elf.segs[t], new_)];
    var hashed := ReplaceAll(sized, sized, pair, 0, |sized|);
    && AllFoundIn(sized, pair, 0, |sized|, hs)
    && AllFoundIn(hashed, SidePairs(tools, hashed, elf.segs, SideEffects(tools, raw, elf, t, meta)), 0, |hashed|, hs)
  }

  /** No digest that a replacement looks up is found in `s`. */
  predicate ReplaceSpares(tools: Tools, raw: seq<byte>, sized: seq<byte>, elf: Elf, t: nat, new_: seq<byte>, meta: nat, s: Seg)
    requires t < |elf.segs|
  {
    var pair := [TargetPair(tools, raw, elf.segs[t], new_)];
    var hashed := ReplaceAll(sized, sized, pair, 0, |sized|);
    && AllMiss(sized, pair, 0, |sized|, s)
    && AllMiss(hashed, SidePairs(tools, hashed, elf.segs, SideEffects(tools, raw, elf, t, meta)), 0, |hashed|, s)
  }

  /** A segment that is spared keeps its bytes through both rounds. */
  lemma SparedInReplace(tools: Tools, raw: seq<byte>, sized: seq<byte>, elf: Elf, t: nat, new_: seq<byte>, meta: nat,
                        r: seq<byte>, s: Seg)
    requires t < |elf.segs| && ReplaceSpares(tools, raw, sized, elf, t, new_, meta, s)
    requires r == ReplaceDigests(tools, raw, sized, elf, t, new_, meta)
    ensures |r| == |sized| && SegData(r, s) == SegData(sized, s)
  {
    var pair := [TargetPair(tools, raw, elf.segs[t], new_)];
    var hashed := ReplaceAll(sized, sized, pair, 0, |sized|);
    var pairs := SidePairs(tools, hashed, elf.segs, SideEffects(tools, raw, elf, t, meta));
    MissedKept(sized, sized, pair, 0, |sized|, s);
    MissedKept(hashed, hashed, pairs, 0, |hashed|, s);
  }

  /** Digests found in `hs` or nowhere spare everything apart from it. */
  lemma DigestsInSpare(tools: Tools, raw: seq<byte>, sized: seq<byte>, elf: Elf, t: nat, new_: seq<byte>, meta: nat,
                       hs: Seg, s: Seg)
    requires t < |elf.segs| && DigestsIn(tools, raw, sized, elf, t, new_, meta, hs) && Apart(s, hs)
    ensures ReplaceSpares(tools, raw, sized, elf, t, new_, meta, s)
  {
    var pair := [TargetPair(tools, raw, elf.segs[t], new_)];
    var hashed := ReplaceAll(sized, sized, pair, 0, |sized|);
    var pairs := SidePairs(tools, hashed, elf.segs, SideEffects(tools, raw, elf, t, meta));
    FoundInMisses(sized, pair, 0, |sized|, hs, s);
    FoundInMisses(hashed, pairs, 0, |hashed|, hs, s);
  }

  // ---------------------------------------------------------------------
  // The stages of a call
  // ---------------------------------------------------------------------

  /** What a replacement asks of the file: the target and the metadata are behind the
      headers, the metadata is in front of the target, the target lies in the file. */
  ghost predicate Replaceable(elf: Elf, t: nat, meta: nat, n: nat) {
    && GoodLayout(elf) && Payload(elf, t) && Payload(elf, meta) && meta < t
    && 0 < elf.segs[t].filesz && elf.segs[t].End() <= n
    && elf.segs[meta].End() <= elf.segs[t].offset
  }

  /** The view after a replacement by `m` bytes. */
  function NewElf(elf: Elf, t: nat, m: nat): Elf
    requires t < |elf.segs|
  {
    Resized(elf, t, elf.segs[t].offset, ShiftFor(elf.segs[t].filesz, m), m)
  }

  /** The image after the header writes. */
  predicate HeadersWritten(raw: seq<byte>, elf: Elf, t: nat, new_: seq<byte>, fixed: seq<byte>)
    requires t < |elf.segs|
  {
    var s := elf.segs[t];
    HeaderWrites(ResizeImage(raw, s.offset, s.filesz, new_), elf, t, s.offset, ShiftFor(s.filesz, |new_|), |new_|)
    == Some(fixed)
  }

  lemma ReplaceParts(tools: Tools, raw: seq<byte>, elf: Elf, t: nat, new_: seq<byte>, meta: nat, r: seq<byte>)
    returns (fixed: seq<byte>, sized: seq<byte>)
    requires IsElf(raw, elf) && t < |elf.segs| && ReplacePh(tools, raw, t, new_, meta) == Some(r)
    ensures HeadersWritten(raw, elf, t, new_, fixed)
    ensures sized == WriteItemSize(raw, fixed, elf, t, meta, |new_|)
    ensures r == ReplaceDigests(tools, raw, sized, elf, t, new_, meta)
  {
    var s := elf.segs[t];
    fixed := HeaderWrites(ResizeImage(raw, s.offset, s.filesz, new_), elf, t, s.offset,
                          ShiftFor(s.filesz, |new_|), |new_|).value;
    sized := WriteItemSize(raw, fixed, elf, t, meta, |new_|);
  }

  lemma StageParses(raw: seq<byte>, elf: Elf, t: nat, new_: seq<byte>, img: seq<byte>, fixed: seq<byte>,
                    off: nat, old_: nat, shift: int)
    requires IsElf(raw, elf) && TablesApart(elf) && Payload(elf, t)
    requires off == elf.segs[t].offset && old_ == elf.segs[t].filesz && off + old_ <= |raw|
    requires img == ResizeImage(raw, off, old_, new_) && shift == ShiftFor(old_, |new_|)
    requires HeaderWrites(img, elf, t, off, shift, |new_|) == Some(fixed)
    ensures Relaid(raw, img, off, old_, new_, shift) && |img| == |raw| + 2 * shift
    ensures SameTail(img, fixed, Top(elf)) && Top(elf) <= |fixed|
    ensures IsElf(fixed, Resized(elf, t, off, shift, |new_|))
    ensures TablesApart(Resized(elf, t, off, shift, |new_|)) && Top(Resized(elf, t, off, shift, |new_|)) == Top(elf)
  {
    ResizeRelaid(raw, off, old_, new_, img);
    FrontSame(raw, img, off, Top(elf));
    HeadersParse(raw, img, fixed, elf, t, off, shift, |new_|);
  }

  /** After the header writes the image parses to the new view ... */
  lemma WrittenParses(raw: seq<byte>, elf: Elf, t: nat, new_: seq<byte>, fixed: seq<byte>)
    requires IsElf(raw, elf) && TablesApart(elf) && Payload(elf, t) && elf.segs[t].End() <= |raw|
    requires HeadersWritten(raw, elf, t, new_, fixed)
    ensures IsElf(fixed, NewElf(elf, t, |new_|)) && TablesApart(NewElf(elf, t, |new_|))
    ensures Top(NewElf(elf, t, |new_|)) == Top(elf) <= |fixed|
    ensures |fixed| == |raw| + 2 * ShiftFor(elf.segs[t].filesz, |new_|)
  {
    var s := elf.segs[t];
    StageParses(raw, elf, t, new_, ResizeImage(raw, s.offset, s.filesz, new_), fixed, s.offset, s.filesz,
                ShiftFor(s.filesz, |new_|));
  }

  /** ... the target holds the new bytes ... */
  lemma WrittenTarget(raw: seq<byte>, elf: Elf, t: nat, new_: seq<byte>, fixed: seq<byte>)
    requires IsElf(raw, elf) && TablesApart(elf) && Payload(elf, t) && elf.segs[t].End() <= |raw|
    requires HeadersWritten(raw, elf, t, new_, fixed)
    ensures SegData(fixed, NewElf(elf, t, |new_|).segs[t]) == new_
  {
    var s, shift := elf.segs[t], ShiftFor(elf.segs[t].filesz, |new_|);
    var img := ResizeImage(raw, s.offset, s.filesz, new_);
    StageParses(raw, elf, t, new_, img, fixed, s.offset, s.filesz, shift);
    ResizedAt(elf, t, s.offset, shift, |new_|, t);
    TargetHolds(raw, img, fixed, Top(elf), s.offset, s.filesz, new_, shift, NewElf(elf, t, |new_|).segs[t]);
  }

  /** ... and every other segment behind the headers its own. */
  lemma WrittenOther(raw: seq<byte>, elf: Elf, t: nat, new_: seq<byte>, fixed: seq<byte>, i: nat)
    requires IsElf(raw, elf) && TablesApart(elf) && Payload(elf, t) && elf.segs[t].End() <= |raw|
    requires HeadersWritten(raw, elf, t, new_, fixed) && 0 < elf.segs[t].filesz
    requires i != t && Payload(elf, i) && Apart(elf.segs[i], elf.segs[t]) && elf.segs[i].End() <= |raw|
    ensures SegData(fixed, NewElf(elf, t, |new_|).segs[i]) == SegData(raw, elf.segs[i])
  {
    var s, shift := elf.segs[t], ShiftFor(elf.segs[t].filesz, |new_|);
    var img := ResizeImage(raw, s.offset, s.filesz, new_);
    StageParses(raw, elf, t, new_, img, fixed, s.offset, s.filesz, shift);
    ResizedAt(elf, t, s.offset, shift, |new_|, i);
    OtherHolds(raw, img, fixed, Top(elf), s.offset, s.filesz, new_, shift, elf.segs[i]);
  }

  /** The layout is as good as before, and the metadata has not moved. */
  lemma NewLayout(elf: Elf, t: nat, meta: nat, n: nat, m: nat)
    requires Replaceable(elf, t, meta, n) && 0 < m
    requires TablesApart(NewElf(elf, t, m)) && Top(NewElf(elf, t, m)) == Top(elf)
    ensures GoodLayout(NewElf(elf, t, m)) && Payload(NewElf(elf, t, m), meta)
    ensures NewElf(elf, t, m).segs[meta] == elf.segs[meta]
  {
    var k := Min(elf.segs[t].filesz, m);
    assert ShiftFor(elf.segs[t].filesz, m) == m - k;
    LayoutKept(elf, t, k, m);
    StillPayload(elf, t, k, m, meta);
    ResizedAt(elf, t, elf.segs[t].offset, m - k, m, meta);
  }
}
