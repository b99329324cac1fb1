// How a run of `_patch_xbl_config` ends, and what that says about its input and
// its output.
module XblLeave {
  import opened Bytes
  import opened DtbScan
  import opened SegmentRebuild
  import opened ElfImage
  import opened XblConfig
  import opened XblRun

  // ---------------------------------------------------------------------
  // Counting
  // ---------------------------------------------------------------------

  /** No counter goes back, and without a replacement the image is the same. */
  predicate Counted(now: Tally, next: Tally) {
    && now.patched <= next.patched && now.errors <= next.errors
    && (next.patched == now.patched ==> next.image == now.image)
  }

  /** Nothing was replaced and nothing failed. */
  predicate Quiet(now: Tally, next: Tally) {
    next.patched == now.patched && next.errors == now.errors
  }

  predicate AllSkipped(tools: Tools, data: seq<byte>, ds: seq<Dtb>) {
    forall d :: d in ds ==> tools.patchDtb(Slice(data, d.off, d.End())).Skipped?
  }

  lemma TreeCounted(tools: Tools, now: Tally, next: Tally, ph: nat, meta: nat, data: seq<byte>, d: Dtb)
    requires PatchTree(tools, now, ph, meta, data, d) == Some(next)
    ensures Counted(now, next) && (Quiet(now, next) <==> tools.patchDtb(Slice(data, d.off, d.End())).Skipped?)
  {
  }

  lemma {:induction false} TreesCounted(tools: Tools, now: Tally, end: Tally, ph: nat, meta: nat, data: seq<byte>, ds: seq<Dtb>)
    requires PatchTrees(tools, now, ph, meta, data, ds) == Some(end)
    ensures Counted(now, end) && (Quiet(now, end) <==> AllSkipped(tools, data, ds))
    decreases ds
  {
    if ds != [] {
      var next := PatchTree(tools, now, ph, meta, data, ds[0]).value;
      TreeCounted(tools, now, next, ph, meta, data, ds[0]);
      TreesCounted(tools, next, end, ph, meta, data, ds[1..]);
      SkippedCons(tools, data, ds);
    }
  }

  lemma SkippedCons(tools: Tools, data: seq<byte>, ds: seq<Dtb>)
    requires ds != []
    ensures AllSkipped(tools, data, ds)
       <==> tools.patchDtb(Slice(data, ds[0].off, ds[0].End())).Skipped? && AllSkipped(tools, data, ds[1..])
  {
    assert ds == [ds[0]] + ds[1..];
  }

  /** Segment `ph` has no certificate-bearing device tree, or does not exist. */
  predicate NoCert(tools: Tools, raw: seq<byte>, elf: Elf, ph: nat) {
    ph < |elf.segs| ==> AllSkipped(tools, SegData(raw, elf.segs[ph]), Scan(SegData(raw, elf.segs[ph])))
  }

  lemma ItemCounted(tools: Tools, now: Tally, next: Tally, elf: Elf, meta: nat, idx: nat, ph: nat)
    requires ItemStepper(tools, meta)(now, idx) == Some(next) && ParseElf(now.image) == Some(elf) && ph == idx + meta + 1
    ensures Counted(now, next) && Quiet(now, next) == NoCert(tools, now.image, elf, ph)
  {
    if ph >= |elf.segs| {
      NoSuchSegment(tools, now, elf, meta, idx);
    } else {
      var data := SegData(now.image, elf.segs[ph]);
      StepIsTrees(tools, now, elf, meta, idx, ph, data);
      TreesCounted(tools, now, next, ph, meta, data, Scan(data));
    }
  }

  // ---------------------------------------------------------------------
  // The items
  // ---------------------------------------------------------------------

  /** No item has a certificate-bearing device tree in its segment. */
  predicate NoneHas(tools: Tools, raw: seq<byte>, elf: Elf, meta: nat, count: nat) {
    forall idx :: 0 <= idx < count ==> ItemNone(tools, raw, elf, meta)(idx)
  }

  function ItemNone(tools: Tools, raw: seq<byte>, elf: Elf, meta: nat): nat -> bool {
    (idx: nat) => NoCert(tools, raw, elf, idx + meta + 1)
  }

  lemma ItemParses(tools: Tools, now: Tally, meta: nat, idx: nat) returns (elf: Elf)
    requires ItemStepper(tools, meta)(now, idx).Some?
    ensures ParseElf(now.image) == Some(elf)
  {
    assert ItemStepper(tools, meta)(now, idx) == PatchItem(tools, now, meta, idx);
    elf := ParseElf(now.image).value;
  }

  /** Counters do not go back in a step, whatever it is a step of. */
  ghost predicate NeverBack(step: (Tally, nat) -> Option<Tally>) {
    forall now, idx :: step(now, idx).Some? ==> Counted(now, step(now, idx).value)
  }

  lemma ItemsNeverBack(tools: Tools, meta: nat)
    ensures NeverBack(ItemStepper(tools, meta))
  {
    var step := ItemStepper(tools, meta);
    forall now, idx: nat | step(now, idx).Some?
      ensures Counted(now, step(now, idx).value)
    {
      var elf := ItemParses(tools, now, meta, idx);
      ItemCounted(tools, now, step(now, idx).value, elf, meta, idx, idx + meta + 1);
    }
  }

  lemma {:induction false} StepsCounted(step: (Tally, nat) -> Option<Tally>, now: Tally, end: Tally, idx: nat, count: nat)
    requires NeverBack(step) && Steps(step, now, idx, count) == Some(end)
    ensures Counted(now, end)
    decreases Max(0, count - idx)
  {
    if idx < count {
      StepsCounted(step, step(now, idx).value, end, idx + 1, count);
    }
  }

  /** While the image is `img`, step `idx` is quiet exactly if `none(idx)`. */
  ghost predicate QuietLaw(step: (Tally, nat) -> Option<Tally>, none: nat -> bool, img: seq<byte>) {
    forall now: Tally, idx: nat :: now.image == img && step(now, idx).Some? ==>
                              (Quiet(now, step(now, idx).value) <==> none(idx))
  }

  lemma ItemsQuiet(tools: Tools, raw: seq<byte>, elf: Elf, meta: nat)
    requires ParseElf(raw) == Some(elf)
    ensures QuietLaw(ItemStepper(tools, meta), ItemNone(tools, raw, elf, meta), raw)
  {
    var step, none := ItemStepper(tools, meta), ItemNone(tools, raw, elf, meta);
    forall now: Tally, idx: nat | now.image == raw && step(now, idx).Some?
      ensures Quiet(now, step(now, idx).value) <==> none(idx)
    {
      ItemQuiet(tools, now, step(now, idx).value, elf, meta, idx, none);
    }
  }

  lemma ItemQuiet(tools: Tools, now: Tally, next: Tally, elf: Elf, meta: nat, idx: nat, none: nat -> bool)
    requires ItemStepper(tools, meta)(now, idx) == Some(next) && ParseElf(now.image) == Some(elf)
    requires none == ItemNone(tools, now.image, elf, meta)
    ensures Quiet(now, next) == none(idx)
  {
    ItemCounted(tools, now, next, elf, meta, idx, idx + meta + 1);
    NoneIs(tools, now.image, elf, meta, idx, idx + meta + 1);
  }

  lemma NoneIs(tools: Tools, raw: seq<byte>, elf: Elf, meta: nat, idx: nat, ph: nat)
    requires ph == idx + meta + 1
    ensures ItemNone(tools, raw, elf, meta)(idx) == NoCert(tools, raw, elf, ph)
  {
  }

  lemma {:induction false} StepsQuietIff(step: (Tally, nat) -> Option<Tally>, none: nat -> bool,
                                         now: Tally, end: Tally, idx: nat, count: nat)
    requires NeverBack(step) && QuietLaw(step, none, now.image) && Steps(step, now, idx, count) == Some(end)
    ensures Quiet(now, end) <==> forall i :: idx <= i < count ==> none(i)
    decreases Max(0, count - idx)
  {
    if idx < count {
      var next := step(now, idx).value;
      assert Quiet(now, next) <==> none(idx);
      StepsCounted(step, next, end, idx + 1, count);
      if Quiet(now, next) {
        StepsQuietIff(step, none, next, end, idx + 1, count);
      }
    }
  }

  // ---------------------------------------------------------------------
  // The program
  // ---------------------------------------------------------------------

  lemma OutcomeRun(tools: Tools, raw: seq<byte>, elf: Elf, meta: nat, count: nat, end: Tally, leave: Leave)
    requires XblOutcome(tools, raw, meta) == Some((end, leave)) && ParseElf(raw) == Some(elf)
    requires MetaItems(raw, elf, meta).Some? && |MetaItems(raw, elf, meta).value| == count
    ensures Steps(ItemStepper(tools, meta), Tally(raw, 0, 0, 0), 0, count) == Some(end) && leave == LeaveOf(end)
  {
  }

  /** The ValueError for a missing property is raised if and only if no segment of an item
      had a certificate-bearing device tree in the file that was read; nothing has then
      been changed. */
  lemma NoPropertyIff(tools: Tools, raw: seq<byte>, elf: Elf, meta: nat, end: Tally, leave: Leave)
    requires ParseElf(raw) == Some(elf) && MetaItems(raw, elf, meta).Some?
    requires XblOutcome(tools, raw, meta) == Some((end, leave))
    ensures leave == NoProperty <==> NoneHas(tools, raw, elf, meta, |MetaItems(raw, elf, meta).value|)
    ensures leave == NoProperty ==> end.image == raw
  {
    var start, count := Tally(raw, 0, 0, 0), |MetaItems(raw, elf, meta).value|;
    OutcomeRun(tools, raw, elf, meta, count, end, leave);
    var step := ItemStepper(tools, meta);
    ItemsNeverBack(tools, meta);
    StepsCounted(step, start, end, 0, count);
    ItemsQuiet(tools, raw, elf, meta);
    StepsQuietIff(step, ItemNone(tools, raw, elf, meta), start, end, 0, count);
  }

  // ---------------------------------------------------------------------
  // The counters, over the device trees that the run reads
  // ---------------------------------------------------------------------

  /** Device trees as they are cut from a segment. */
  function TreesOf(data: seq<byte>, ds: seq<Dtb>): seq<seq<byte>> {
    if ds == [] then [] else [Slice(data, ds[0].off, ds[0].End())] + TreesOf(data, ds[1..])
  }

  /** How many of the trees have an outcome of this kind. */
  function Count(tools: Tools, trees: seq<seq<byte>>, kind: DtbOutcome -> bool): nat {
    if trees == [] then 0
    else (if kind(tools.patchDtb(trees[0])) then 1 else 0) + Count(tools, trees[1..], kind)
  }

  function IsPatched(): DtbOutcome -> bool { (o: DtbOutcome) => o.Patched? }
  function IsSkipped(): DtbOutcome -> bool { (o: DtbOutcome) => o.Skipped? }
  function IsFailed(): DtbOutcome -> bool { (o: DtbOutcome) => o.Failed? }

  /** Between `now` and `end` these trees were read. */
  predicate Tallied(tools: Tools, now: Tally, end: Tally, trees: seq<seq<byte>>) {
    && end.patched == now.patched + Count(tools, trees, IsPatched())
    && end.skipped == now.skipped + Count(tools, trees, IsSkipped())
    && end.errors == now.errors + Count(tools, trees, IsFailed())
  }

  lemma {:induction false} CountConcat(tools: Tools, a: seq<seq<byte>>, b: seq<seq<byte>>, kind: DtbOutcome -> bool)
    ensures Count(tools, a + b, kind) == Count(tools, a, kind) + Count(tools, b, kind)
  {
    if a == [] {
      assert a + b == b;
    } else {
      assert (a + b)[1..] == a[1..] + b;
      CountConcat(tools, a[1..], b, kind);
    }
  }

  lemma TalliedTwice(tools: Tools, now: Tally, mid: Tally, end: Tally, a: seq<seq<byte>>, b: seq<seq<byte>>)
    requires Tallied(tools, now, mid, a) && Tallied(tools, mid, end, b)
    ensures Tallied(tools, now, end, a + b)
  {
    CountConcat(tools, a, b, IsPatched());
    CountConcat(tools, a, b, IsSkipped());
    CountConcat(tools, a, b, IsFailed());
  }

  lemma TreeTallied(tools: Tools, now: Tally, next: Tally, ph: nat, meta: nat, data: seq<byte>, d: Dtb)
    requires PatchTree(tools, now, ph, meta, data, d) == Some(next)
    ensures Tallied(tools, now, next, [Slice(data, d.off, d.End())])
  {
    assert [Slice(data, d.off, d.End())][1..] == [];
  }

  lemma {:induction false} TreesTallied(tools: Tools, now: Tally, end: Tally, ph: nat, meta: nat, data: seq<byte>, ds: seq<Dtb>)
    requires PatchTrees(tools, now, ph, meta, data, ds) == Some(end)
    ensures Tallied(tools, now, end, TreesOf(data, ds))
    decreases ds
  {
    if ds != [] {
      var next := PatchTree(tools, now, ph, meta, data, ds[0]).value;
      TreeTallied(tools, now, next, ph, meta, data, ds[0]);
      TreesTallied(tools, next, end, ph, meta, data, ds[1..]);
      TalliedTwice(tools, now, next, end, [Slice(data, ds[0].off, ds[0].End())], TreesOf(data, ds[1..]));
    }
  }

  /** The trees that the step for item `idx` reads. */
  function ItemTrees(now: Tally, meta: nat, idx: nat): seq<seq<byte>> {
    match ParseElf(now.image)
    case None => []
    case Some(elf) =>
      if idx + meta + 1 >= |elf.segs| then []
      else
        var data := SegData(now.image, elf.segs[idx + meta + 1]);
        TreesOf(data, Scan(data))
  }

  type TreeReader = (Tally, nat) -> seq<seq<byte>>

  function ItemReader(meta: nat): TreeReader {
    (now: Tally, idx: nat) => ItemTrees(now, meta, idx)
  }

  /** The trees that the steps from `idx` on read, each from the image of its own state. */
  function TreesRead(step: (Tally, nat) -> Option<Tally>, read: TreeReader, now: Tally, idx: nat, count: nat): seq<seq<byte>>
    decreases Max(0, count - idx)
  {
    if idx >= count then []
    else
      read(now, idx)
      + if step(now, idx).Some? then TreesRead(step, read, step(now, idx).value, idx + 1, count) else []
  }

  ghost predicate TallyLaw(tools: Tools, step: (Tally, nat) -> Option<Tally>, read: TreeReader) {
    forall now: Tally, idx: nat :: step(now, idx).Some? ==> Tallied(tools, now, step(now, idx).value, read(now, idx))
  }

  lemma ItemsTallied(tools: Tools, meta: nat)
    ensures TallyLaw(tools, ItemStepper(tools, meta), ItemReader(meta))
  {
    var step, read := ItemStepper(tools, meta), ItemReader(meta);
    forall now: Tally, idx: nat | step(now, idx).Some?
      ensures Tallied(tools, now, step(now, idx).value, read(now, idx))
    {
      ItemTallied(tools, now, step(now, idx).value, meta, idx, idx + meta + 1);
      assert read(now, idx) == ItemTrees(now, meta, idx);
    }
  }

  lemma ItemTallied(tools: Tools, now: Tally, next: Tally, meta: nat, idx: nat, ph: nat)
    requires ItemStepper(tools, meta)(now, idx) == Some(next) && ph == idx + meta + 1
    ensures Tallied(tools, now, next, ItemTrees(now, meta, idx))
  {
    var elf := ItemParses(tools, now, meta, idx);
    if ph >= |elf.segs| {
      NoSuchSegment(tools, now, elf, meta, idx);
      NoTrees(now, elf, meta, idx);
    } else {
      var data := SegData(now.image, elf.segs[ph]);
      StepIsTrees(tools, now, elf, meta, idx, ph, data);
      SegmentTrees(now, elf, meta, idx, ph, data);
      TreesTallied(tools, now, next, ph, meta, data, Scan(data));
    }
  }

  lemma NoTrees(now: Tally, elf: Elf, meta: nat, idx: nat)
    requires ParseElf(now.image) == Some(elf) && |elf.segs| <= idx + meta + 1
    ensures ItemTrees(now, meta, idx) == []
  {
  }

  lemma SegmentTrees(now: Tally, elf: Elf, meta: nat, idx: nat, ph: nat, data: seq<byte>)
    requires ParseElf(now.image) == Some(elf) && ph == idx + meta + 1 < |elf.segs| && data == SegData(now.image, elf.segs[ph])
    ensures ItemTrees(now, meta, idx) == TreesOf(data, Scan(data))
  {
  }

  lemma {:induction false} StepsTallied(tools: Tools, step: (Tally, nat) -> Option<Tally>, read: TreeReader,
                                        now: Tally, end: Tally, idx: nat, count: nat)
    requires TallyLaw(tools, step, read) && Steps(step, now, idx, count) == Some(end)
    ensures Tallied(tools, now, end, TreesRead(step, read, now, idx, count))
    decreases Max(0, count - idx)
  {
    if idx < count {
      var next := step(now, idx).value;
      StepsTallied(tools, step, read, next, end, idx + 1, count);
      TalliedTwice(tools, now, next, end, read(now, idx), TreesRead(step, read, next, idx + 1, count));
    }
  }

  /** All trees that a run reads. */
  function RunTrees(tools: Tools, raw: seq<byte>, meta: nat, count: nat): seq<seq<byte>> {
    TreesRead(ItemStepper(tools, meta), ItemReader(meta), Tally(raw, 0, 0, 0), 0, count)
  }

  /** The counters in the end are the numbers of trees read that were replaced, had no
      property, and failed. */
  lemma CountersAre(tools: Tools, raw: seq<byte>, elf: Elf, meta: nat, end: Tally, leave: Leave, trees: seq<seq<byte>>)
    requires ParseElf(raw) == Some(elf) && MetaItems(raw, elf, meta).Some?
    requires XblOutcome(tools, raw, meta) == Some((end, leave))
    requires trees == RunTrees(tools, raw, meta, |MetaItems(raw, elf, meta).value|)
    ensures end.patched == Count(tools, trees, IsPatched())
    ensures end.skipped == Count(tools, trees, IsSkipped())
    ensures end.errors == Count(tools, trees, IsFailed())
  {
    var start, count := Tally(raw, 0, 0, 0), |MetaItems(raw, elf, meta).value|;
    OutcomeRun(tools, raw, elf, meta, count, end, leave);
    ItemsTallied(tools, meta);
    StepsTallied(tools, ItemStepper(tools, meta), ItemReader(meta), start, end, 0, count);
  }

  lemma {:induction false} CountPositive(tools: Tools, trees: seq<seq<byte>>, kind: DtbOutcome -> bool)
    ensures Count(tools, trees, kind) > 0 <==> exists x :: x in trees && kind(tools.patchDtb(x))
  {
    if trees != [] {
      CountPositive(tools, trees[1..], kind);
      assert trees == [trees[0]] + trees[1..];
    }
  }

  /** The run exits with status 1 if and only if some tree it read failed; it ends normally if
      and only if none failed and one was replaced; otherwise it raises the ValueError. */
  lemma LeavesIff(tools: Tools, raw: seq<byte>, elf: Elf, meta: nat, end: Tally, leave: Leave, trees: seq<seq<byte>>)
    requires ParseElf(raw) == Some(elf) && MetaItems(raw, elf, meta).Some?
    requires XblOutcome(tools, raw, meta) == Some((end, leave))
    requires trees == RunTrees(tools, raw, meta, |MetaItems(raw, elf, meta).value|)
    ensures leave == ExitOne <==> exists x :: x in trees && tools.patchDtb(x).Failed?
    ensures leave == Finished <==>
              (forall x :: x in trees ==> !tools.patchDtb(x).Failed?) && (exists x :: x in trees && tools.patchDtb(x).Patched?)
    ensures leave == NoProperty <==> forall x :: x in trees ==> tools.patchDtb(x).Skipped?
  {
    CountersAre(tools, raw, elf, meta, end, leave, trees);
    OutcomeRun(tools, raw, elf, meta, |MetaItems(raw, elf, meta).value|, end, leave);
    CountPositive(tools, trees, IsFailed());
    CountPositive(tools, trees, IsPatched());
  }

  // ---------------------------------------------------------------------
  // What is left parses
  // ---------------------------------------------------------------------

  predicate Parses(now: Tally) { ParseElf(now.image).Some? }

  lemma {:induction false} TreesParse(tools: Tools, now: Tally, end: Tally, ph: nat, meta: nat, data: seq<byte>, ds: seq<Dtb>)
    requires PatchTrees(tools, now, ph, meta, data, ds) == Some(end) && Parses(now) == true
    ensures Parses(end) == true
    decreases ds
  {
    if ds != [] {
      var next := TreeParses(tools, now, end, ph, meta, data, ds);
      TreesParse(tools, next, end, ph, meta, data, ds[1..]);
    }
  }

  lemma TreeParses(tools: Tools, now: Tally, end: Tally, ph: nat, meta: nat, data: seq<byte>, ds: seq<Dtb>)
    returns (next: Tally)
    requires ds != [] && PatchTrees(tools, now, ph, meta, data, ds) == Some(end) && Parses(now)
    ensures PatchTrees(tools, next, ph, meta, data, ds[1..]) == Some(end) && Parses(next) == true
  {
    next := PatchTree(tools, now, ph, meta, data, ds[0]).value;
  }

  ghost predicate ParseLaw(step: (Tally, nat) -> Option<Tally>) {
    forall now: Tally, idx: nat :: step(now, idx).Some? && Parses(now) ==> Parses(step(now, idx).value)
  }

  lemma ItemsParse(tools: Tools, meta: nat)
    ensures ParseLaw(ItemStepper(tools, meta))
  {
    var step := ItemStepper(tools, meta);
    forall now: Tally, idx: nat | step(now, idx).Some? && Parses(now)
      ensures Parses(step(now, idx).value)
    {
      ItemStepParses(tools, now, step(now, idx).value, meta, idx, idx + meta + 1);
    }
  }

  lemma ItemStepParses(tools: Tools, now: Tally, next: Tally, meta: nat, idx: nat, ph: nat)
    requires ItemStepper(tools, meta)(now, idx) == Some(next) && Parses(now) == true && ph == idx + meta + 1
    ensures Parses(next) == true
  {
    var elf := ItemParses(tools, now, meta, idx);
    if ph >= |elf.segs| {
      NoSuchSegment(tools, now, elf, meta, idx);
    } else {
      var data := SegData(now.image, elf.segs[ph]);
      StepIsTrees(tools, now, elf, meta, idx, ph, data);
      TreesParse(tools, now, next, ph, meta, data, Scan(data));
    }
  }

  lemma {:induction false} StepsParse(step: (Tally, nat) -> Option<Tally>, now: Tally, end: Tally, idx: nat, count: nat)
    requires ParseLaw(step) && Parses(now) && Steps(step, now, idx, count) == Some(end)
    ensures Parses(end)
    decreases Max(0, count - idx)
  {
    if idx < count {
      StepsParse(step, step(now, idx).value, end, idx + 1, count);
    }
  }

  /** A run that gets to its end, however it then leaves, leaves a file that parses; a
      replacement that breaks the file ends it. */
  lemma EndParses(tools: Tools, raw: seq<byte>, elf: Elf, meta: nat, end: Tally, leave: Leave)
    requires ParseElf(raw) == Some(elf) && MetaItems(raw, elf, meta).Some?
    requires XblOutcome(tools, raw, meta) == Some((end, leave))
    ensures ParseElf(end.image).Some?
  {
    var start, count := Tally(raw, 0, 0, 0), |MetaItems(raw, elf, meta).value|;
    OutcomeRun(tools, raw, elf, meta, count, end, leave);
    ItemsParse(tools, meta);
    StepsParse(ItemStepper(tools, meta), start, end, 0, count);
  }
}
