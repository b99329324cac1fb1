// Exactly when the digest of the ELF header segment is right after a step.
module HeadSlot {
  import opened Bytes
  import opened SegmentRebuild
  import opened ElfImage
  import opened ElfSplice
  import opened Resize
  import opened UefiDtbs
  import opened UefiRun
  import opened DigestSlots
  import opened UefiHashes

  /** A digest tells two contents apart. */
  predicate Tells(tools: Tools, a: seq<byte>, b: seq<byte>) {
    tools.sha384(a) == tools.sha384(b) ==> a == b
  }

  /** The slot of segment 0, right before a step, is right after it exactly if the patched
      segment has grown and the old digest is found in the slot, or has not grown and
      `p_memsz` was already `p_filesz`. */
  lemma HeadSlotIff(tools: Tools, raw: seq<byte>, elf: Elf, t: nat, h: nat, data: seq<byte>,
                    fixed: seq<byte>, r: seq<byte>, elf': Elf, slots: set<Slot>, s: Slot)
    requires IsElf(raw, elf) && GoodLayout(elf) && Ready(elf, t, h) && data == SegData(raw, elf.segs[t])
    requires data != [] && Fixed(raw, elf, t, |data|, Rebuilt(tools, data)) == Some(fixed)
    requires Finish(tools, raw, fixed, elf.segs[0], data, t) == Some(r) && elf.segs[t].End() <= |raw|
    requires elf' == FixedElf(elf, t, |data|, |Rebuilt(tools, data)|)
    requires Homed(tools, raw, fixed, elf', elf.segs[0], data, t, h) == true
    requires Spaced(slots) && s in slots && s.of == Whole(0) && HeadInFront(elf, t, h)
    requires elf.segs[0].offset <= elf.h.phoff && PhEnd(elf) <= elf.segs[0].End()
    requires HitsOk(SegData(raw, elf.segs[h]), Changes(tools, raw, fixed, elf.segs[0], data, t), slots)
    requires Agrees(tools, raw, elf, SegData(raw, elf.segs[h]), s)
    requires Tells(tools, SegData(r, elf'.segs[0]), SegData(raw, elf.segs[0]))
    ensures Agrees(tools, r, elf', SegData(r, elf'.segs[h]), s)
       <==> if |Rebuilt(tools, data)| != |data|
            then Reached(SegData(raw, elf.segs[h]), Changes(tools, raw, fixed, elf.segs[0], data, t), s)
            else elf.segs[t].memsz == elf.segs[t].filesz
  {
    WholeSegment(raw, elf.segs[t], data);
    if |Rebuilt(tools, data)| == |data| {
      UngrownHeadSlot(tools, raw, elf, t, h, data, fixed, r, elf', slots, s);
    } else {
      TouchedSlot(tools, raw, elf, t, h, data, fixed, r, elf', slots, s);
    }
  }

  lemma WholeSegment(raw: seq<byte>, s: Seg, data: seq<byte>)
    requires data == SegData(raw, s) && data != [] && s.End() <= |raw|
    ensures |data| == s.filesz
  {
  }

  /** Without growth and with the sizes apart, the slot is lost. (`== true` keeps callers
      from unfolding the predicates.) */
  lemma HeadSlotWrong(tools: Tools, raw: seq<byte>, elf: Elf, t: nat, h: nat, data: seq<byte>, new_: seq<byte>,
                      fixed: seq<byte>, r: seq<byte>, slots: set<Slot>, s: Slot, elf': Elf)
    requires ParseElf(raw) == Some(elf) && GoodLayout(elf) == true && t < |elf.segs| && h < |elf.segs|
    requires Ready(elf, t, h) == true && data == SegData(raw, elf.segs[t]) && new_ == Rebuilt(tools, data)
    requires data != [] && |new_| == |data| && Fixed(raw, elf, t, |data|, new_) == Some(fixed)
    requires Finish(tools, raw, fixed, elf.segs[0], data, t) == Some(r) && elf.segs[t].End() <= |raw|
    requires Spaced(slots) == true && s in slots && s.of == Whole(0) && HeadInFront(elf, t, h) == true
    requires elf.segs[0].offset <= elf.h.phoff && PhEnd(elf) <= elf.segs[0].End()
    requires HitsOk(SegData(raw, elf.segs[h]), Changes(tools, raw, fixed, elf.segs[0], data, t), slots) == true
    requires Agrees(tools, raw, elf, SegData(raw, elf.segs[h]), s) == true && elf' == FixedElf(elf, t, |data|, |new_|)
    requires Tells(tools, SegData(r, elf'.segs[0]), SegData(raw, elf.segs[0])) == true
    requires elf.segs[t].memsz != elf.segs[t].filesz && h < |elf'.segs|
    requires Homed(tools, raw, fixed, elf', elf.segs[0], data, t, h) == true
    ensures !Agrees(tools, r, elf', SegData(r, elf'.segs[h]), s)
  {
    HeadSlotIff(tools, raw, elf, t, h, data, fixed, r, elf', slots, s);
  }
}
