// What a whole run of `_patch_uefi_dtbs` does to each device tree.
module UefiTrees {
  import opened Bytes
  import opened DtbScan
  import opened SegmentRebuild
  import opened RebuildScan
  import opened ElfImage
  import opened UefiDtbs
  import opened UefiRun

  /** Where device tree `k` of a segment stands once the segment is rebuilt. */
  function NewPlace(tools: Tools, data: seq<byte>, k: nat): (d: Dtb)
    requires k < |Scan(data)|
  {
    ScanInOrder(data);
    NewDtbsLength(tools, data, Scan(data), 0, 0);
    NewDtbs(tools, data, Scan(data), 0, 0)[k]
  }

  /** Device tree `k` of the rebuilt segment is the patched form of device tree `k`. */
  lemma RebuiltTree(tools: Tools, data: seq<byte>, k: nat)
    requires k < |Scan(data)|
    ensures Scan(data)[k].End() <= |data|
    ensures NewPlace(tools, data, k).End() <= |Rebuilt(tools, data)|
    ensures Body(Rebuilt(tools, data), NewPlace(tools, data, k)) == After(tools, Body(data, Scan(data)[k]))
  {
    ScanInOrder(data);
    assert Rebuilt(tools, data) == [] + RebuildFrom(tools, data, Scan(data), 0);
    RebuildIsLaid(tools, data, Scan(data), 0, [], Rebuilt(tools, data));
    NewBodyAt(tools, data, Scan(data), 0, Rebuilt(tools, data), 0, k);
  }

  /** Over a whole run, device tree `k` of segment `i` becomes its patched form, or stays
      byte for byte what it was if it is skipped or cannot be patched. */
  lemma PatchUefiTree(tools: Tools, raw: seq<byte>, elf: Elf, r: seq<byte>, i: nat, k: nat, was: seq<byte>)
    returns (last: Elf, now: seq<byte>)
    requires ParseElf(raw) == Some(elf) && GoodLayout(elf)
    requires PatchUefi(tools, raw).Some? && PatchUefi(tools, raw).value.0 == r
    requires AllBehind(elf, DtbSegments(raw, elf.segs, 0)) && Payload(elf, i)
    requires RunSpares(tools, raw, elf, DtbSegments(raw, elf.segs, 0), i)
    requires was == SegData(raw, elf.segs[i]) && k < |Scan(was)|
    ensures ParseElf(r) == Some(last) && i < |last.segs| && now == SegData(r, last.segs[i])
    ensures Scan(was)[k].End() <= |was| && NewPlace(tools, was, k).End() <= |now|
    ensures var before, after := Body(was, Scan(was)[k]), Body(now, NewPlace(tools, was, k));
            match tools.patchDtb(before)
            case Patched(p) => after == p
            case _ => after == before
  {
    last := PatchUefiSegments(tools, raw, elf, r, i);
    now := SegData(r, last.segs[i]);
    RebuiltTree(tools, was, k);
  }

  /** A second scan finds exactly these device trees, when the gaps stay gaps. */
  lemma PatchUefiRescan(tools: Tools, raw: seq<byte>, elf: Elf, r: seq<byte>, i: nat, was: seq<byte>)
    returns (last: Elf, now: seq<byte>)
    requires ParseElf(raw) == Some(elf) && GoodLayout(elf)
    requires PatchUefi(tools, raw).Some? && PatchUefi(tools, raw).value.0 == r
    requires AllBehind(elf, DtbSegments(raw, elf.segs, 0)) && Payload(elf, i)
    requires RunSpares(tools, raw, elf, DtbSegments(raw, elf.segs, 0), i)
    requires was == SegData(raw, elf.segs[i])
    requires Rescannable(tools, was)
    ensures ParseElf(r) == Some(last) && i < |last.segs| && now == SegData(r, last.segs[i])
    ensures |Scan(now)| == |Scan(was)|
    ensures forall k :: 0 <= k < |Scan(was)| ==> Scan(now)[k] == NewPlace(tools, was, k)
  {
    last := PatchUefiSegments(tools, raw, elf, r, i);
    now := SegData(r, last.segs[i]);
    Rescan(tools, was);
  }
}
