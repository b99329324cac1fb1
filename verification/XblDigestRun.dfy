// The table of digests over a whole run of `_patch_xbl_config`: the slots of whole
// segments, right in the beginning, are right in the end.
module XblDigestRun {
  import opened Bytes
  import opened DtbScan
  import opened SegmentRebuild
  import opened ElfImage
  import opened DigestSlots
  import opened UefiHashes
  import opened XblConfig
  import opened UefiRun
  import opened XblReplace
  import opened LastTree
  import opened XblRun
  import opened XblHashes

  // ---------------------------------------------------------------------
  // The device trees of one segment
  // ---------------------------------------------------------------------

  /** `SlotsOk`, if the device tree is replaced at all. */
  ghost predicate TreeSlotsOk(tools: Tools, raw: seq<byte>, elf: Elf, ph: nat, meta: nat, h: nat, data: seq<byte>, d: Dtb,
                              slots: set<Slot>)
  {
    match tools.patchDtb(Slice(data, d.off, d.End()))
    case Patched(p) =>
      ph < |elf.segs| && h < |elf.segs| && SlotsOk(tools, raw, elf, ph, WithTree(data, d, p), meta, h, slots)
    case _ => true
  }

  ghost predicate TreesSlotsOk(tools: Tools, now: Tally, elf: Elf, ph: nat, meta: nat, h: nat, data: seq<byte>, ds: seq<Dtb>,
                               slots: set<Slot>)
    requires ph < |elf.segs|
    decreases ds
  {
    ds != [] ==>
      && TreeSlotsOk(tools, now.image, elf, ph, meta, h, data, ds[0], slots)
      && (var next := PatchTree(tools, now, ph, meta, data, ds[0]);
          next.Some? ==>
            TreesSlotsOk(tools, next.value, TreeElf(tools, elf, ph, data, ds[0]), ph, meta, h, data, ds[1..], slots))
  }

  lemma TreeSlotStep(tools: Tools, now: Tally, next: Tally, elf: Elf, ph: nat, meta: nat, h: nat,
                     data: seq<byte>, d: Dtb, slots: set<Slot>)
    requires TableRight(tools, now.image, elf, meta, h, slots) && Spaced(slots) && meta != 0 && ph < |elf.segs|
    requires TreeSlotsOk(tools, now.image, elf, ph, meta, h, data, d, slots)
    requires PatchTree(tools, now, ph, meta, data, d) == Some(next)
    ensures var elf' := TreeElf(tools, elf, ph, data, d);
            TableRight(tools, next.image, elf', meta, h, slots) && |elf'.segs| == |elf.segs|
  {
    match tools.patchDtb(Slice(data, d.off, d.End()))
    case Patched(p) =>
      var new_ := WithTree(data, d, p);
      ReplaceSlots(tools, now.image, elf, ph, meta, h, new_, next.image, slots, NewElf(elf, ph, |new_|));
    case _ =>
  }

  /** The loop over the device trees of segment `ph`. */
  lemma {:induction false} TreesSlots(tools: Tools, now: Tally, end: Tally, elf: Elf, ph: nat, meta: nat, h: nat,
                                      data: seq<byte>, ds: seq<Dtb>, slots: set<Slot>)
    requires TableRight(tools, now.image, elf, meta, h, slots) && Spaced(slots) && meta != 0 && ph < |elf.segs|
    requires TreesSlotsOk(tools, now, elf, ph, meta, h, data, ds, slots) == true
    requires PatchTrees(tools, now, ph, meta, data, ds) == Some(end)
    ensures var elf' := TreesElf(tools, elf, ph, data, ds);
            TableRight(tools, end.image, elf', meta, h, slots) && |elf'.segs| == |elf.segs|
    decreases ds
  {
    if ds != [] {
      var next := PatchTree(tools, now, ph, meta, data, ds[0]).value;
      TreeSlotStep(tools, now, next, elf, ph, meta, h, data, ds[0], slots);
      TreesSlots(tools, next, end, TreeElf(tools, elf, ph, data, ds[0]), ph, meta, h, data, ds[1..], slots);
    }
  }

  // ---------------------------------------------------------------------
  // The items
  // ---------------------------------------------------------------------

  ghost predicate ItemSlotsOk(tools: Tools, now: Tally, elf: Elf, meta: nat, h: nat, ph: nat, slots: set<Slot>) {
    ph < |elf.segs| ==>
      var data := SegData(now.image, elf.segs[ph]);
      TreesSlotsOk(tools, now, elf, ph, meta, h, data, Scan(data), slots)
  }

  ghost function SlotChecker(tools: Tools, meta: nat, h: nat, slots: set<Slot>): ItemCheck {
    (now: Tally, elf: Elf, idx: nat) => ItemSlotsOk(tools, now, elf, meta, h, idx + meta + 1, slots)
  }

  lemma ItemSlots(tools: Tools, now: Tally, next: Tally, elf: Elf, meta: nat, h: nat, idx: nat, ph: nat, slots: set<Slot>)
    requires TableRight(tools, now.image, elf, meta, h, slots) == true && Spaced(slots) && meta != 0 && ph == idx + meta + 1
    requires ItemSlotsOk(tools, now, elf, meta, h, ph, slots) == true
    requires ItemStepper(tools, meta)(now, idx) == Some(next)
    ensures var elf' := ItemMover(tools, meta)(now, elf, idx);
            TableRight(tools, next.image, elf', meta, h, slots) && |elf'.segs| == |elf.segs|
  {
    if ph < |elf.segs| {
      var data := SegData(now.image, elf.segs[ph]);
      StepIsTrees(tools, now, elf, meta, idx, ph, data);
      MoveIsTrees(tools, now, elf, meta, idx, ph, data);
      TreesSlots(tools, now, next, elf, ph, meta, h, data, Scan(data), slots);
    } else {
      NoSuchSegment(tools, now, elf, meta, idx);
    }
  }

  // ---------------------------------------------------------------------
  // The whole run
  // ---------------------------------------------------------------------

  /** The table is watched; there is nothing else to follow. */
  ghost function TableWatch(tools: Tools, meta: nat, h: nat, slots: set<Slot>, n: nat): Watch {
    Watch((now: Tally, elf: Elf) => TableRight(tools, now.image, elf, meta, h, slots) && |elf.segs| == n,
          (now: Tally, elf: Elf) => [], (now: Tally, elf: Elf) => true)
  }

  function Same(): seq<byte> -> seq<byte> {
    (data: seq<byte>) => data
  }

  lemma TableLaw(tools: Tools, meta: nat, h: nat, slots: set<Slot>, n: nat)
    requires Spaced(slots) && meta != 0
    ensures StepLaw(TableWatch(tools, meta, h, slots, n), Same(), ItemStepper(tools, meta),
                    SlotChecker(tools, meta, h, slots), ItemMover(tools, meta), -1)
  {
    var w, step := TableWatch(tools, meta, h, slots, n), ItemStepper(tools, meta);
    var ok, move := SlotChecker(tools, meta, h, slots), ItemMover(tools, meta);
    forall now: Tally, elf: Elf, idx: nat | w.good(now, elf) && ok(now, elf, idx) && step(now, idx).Some?
      ensures StepDone(w, Same(), now, step(now, idx).value, elf, move(now, elf, idx), idx == -1)
    {
      TableDone(tools, meta, h, slots, n, w, now, step(now, idx).value, elf, idx);
    }
  }

  lemma TableDone(tools: Tools, meta: nat, h: nat, slots: set<Slot>, n: nat, w: Watch, now: Tally, next: Tally,
                  elf: Elf, idx: nat)
    requires Spaced(slots) && meta != 0 && w == TableWatch(tools, meta, h, slots, n) && w.good(now, elf)
    requires SlotChecker(tools, meta, h, slots)(now, elf, idx) == true && ItemStepper(tools, meta)(now, idx) == Some(next)
    ensures StepDone(w, Same(), now, next, elf, ItemMover(tools, meta)(now, elf, idx), false)
  {
    var elf' := ItemMover(tools, meta)(now, elf, idx);
    Checked(tools, meta, h, slots, now, elf, idx);
    Watched(tools, meta, h, slots, n, w, now, elf);
    ItemSlots(tools, now, next, elf, meta, h, idx, idx + meta + 1, slots);
    Watched(tools, meta, h, slots, n, w, next, elf');
  }

  lemma Watched(tools: Tools, meta: nat, h: nat, slots: set<Slot>, n: nat, w: Watch, now: Tally, elf: Elf)
    requires w == TableWatch(tools, meta, h, slots, n)
    ensures w.good(now, elf) == (TableRight(tools, now.image, elf, meta, h, slots) && |elf.segs| == n)
    ensures w.data(now, elf) == [] && w.match_(now, elf)
  {
  }

  lemma Checked(tools: Tools, meta: nat, h: nat, slots: set<Slot>, now: Tally, elf: Elf, idx: nat)
    requires SlotChecker(tools, meta, h, slots)(now, elf, idx) == true
    ensures ItemSlotsOk(tools, now, elf, meta, h, idx + meta + 1, slots) == true
  {
  }

  /** `SlotsOk` in every state the run passes through. */
  ghost predicate DigestItemsOk(tools: Tools, raw: seq<byte>, elf: Elf, meta: nat, h: nat, slots: set<Slot>) {
    match MetaItems(raw, elf, meta)
    case None => true
    case Some(items) =>
      StepsOk(ItemStepper(tools, meta), SlotChecker(tools, meta, h, slots), ItemMover(tools, meta),
              Tally(raw, 0, 0, 0), elf, 0, |items|)
  }

  /** `_patch_xbl_config` leaves a right table of digests right. */
  lemma PatchXblHashes(tools: Tools, raw: seq<byte>, elf: Elf, meta: nat, h: nat, end: Tally, slots: set<Slot>)
    returns (last: Elf)
    requires ParseElf(raw) == Some(elf) && FileLayout(elf, meta, |raw|) && Payload(elf, h) && h != meta && meta != 0
    requires DigestItemsOk(tools, raw, elf, meta, h, slots)
    requires PatchXbl(tools, raw, meta) == Some(end)
    requires Spaced(slots) && AllAgree(tools, raw, elf, h, slots)
    ensures ParseElf(end.image) == Some(last) && |last.segs| == |elf.segs|
    ensures AllAgree(tools, end.image, last, h, slots)
  {
    var start, count := Tally(raw, 0, 0, 0), |MetaItems(raw, elf, meta).value|;
    var w := TableWatch(tools, meta, h, slots, |elf.segs|);
    TableLaw(tools, meta, h, slots, |elf.segs|);
    assert w.good(start, elf);
    last := StepsRun(w, Same(), ItemStepper(tools, meta), SlotChecker(tools, meta, h, slots),
                     ItemMover(tools, meta), -1, start, end, elf, 0, count);
  }
}
