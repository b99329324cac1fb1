// Exactly when rewriting an image succeeds: the header values it writes have to
// fit their fields, and nothing else can go wrong.
module WritesFit {
  import opened Bytes
  import opened Tables
  import opened SegmentRebuild
  import opened ElfImage
  import opened Resize
  import opened UefiDtbs
  import opened UefiRun
  import opened XblConfig

  // ---------------------------------------------------------------------
  // The header writes
  // ---------------------------------------------------------------------

  /** A number of 64 or of 32 bits. */
  predicate FitsWord(v: int, is64: bool) {
    0 <= v < if is64 then 0x1_0000_0000_0000_0000 else 0x1_0000_0000
  }

  /** An offset behind the splice point that has moved. */
  predicate FitsMoved(is64: bool, splice: nat, shift: int, offset: nat) {
    offset > splice ==> FitsWord(offset + shift, is64)
  }

  lemma WordSizes(is64: bool)
    ensures Pow256(if is64 then 8 else 4) == if is64 then 0x1_0000_0000_0000_0000 else 0x1_0000_0000
  {
    assert Pow256(4) == 256 * 256 * 256 * 256 by {
      assert Pow256(2) == 256 * 256;
    }
    assert Pow256(6) == 256 * 256 * Pow256(4);
    assert Pow256(8) == 256 * 256 * Pow256(6);
  }

  lemma WriteIff(raw: seq<byte>, pos: nat, w: nat, v: int, little: bool, is64: bool)
    requires w == if is64 then 8 else 4
    ensures WriteField(raw, pos, w, v, little).Some? <==> FitsWord(v, is64)
  {
    WordSizes(is64);
  }

  /** Whether an edit succeeds depends only on the value read beforehand. */
  ghost predicate SucceedsIf<T(!new)>(edit: (seq<byte>, nat, T) -> Option<seq<byte>>, fits: T -> bool) {
    forall raw: seq<byte>, pos: nat, x: T :: edit(raw, pos, x).Some? <==> fits(x)
  }

  lemma {:induction false} EditTableIff<T(!new)>(raw: seq<byte>, items: seq<T>, pos: nat, ent: nat,
                                                 edit: (seq<byte>, nat, T) -> Option<seq<byte>>, fits: T -> bool)
    requires SucceedsIf(edit, fits)
    ensures EditTable(raw, items, pos, ent, edit).Some? <==> forall x :: x in items ==> fits(x)
    decreases items
  {
    if items != [] {
      assert items == [items[0]] + items[1..];
      if fits(items[0]) {
        EditTableIff(edit(raw, pos, items[0]).value, items[1..], pos + ent, ent, edit, fits);
      }
    }
  }

  function SegFits(is64: bool, splice: nat, shift: int): Seg -> bool {
    (s: Seg) => FitsMoved(is64, splice, shift, s.offset)
  }

  function SecFits(is64: bool, splice: nat, shift: int): nat -> bool {
    (o: nat) => FitsMoved(is64, splice, shift, o)
  }

  lemma SegEditIff(h: Header, splice: nat, shift: int)
    ensures SucceedsIf(SegEdit(h, splice, shift), SegFits(h.is64, splice, shift))
  {
    forall raw: seq<byte>, pos: nat, s: Seg
      ensures SegEdit(h, splice, shift)(raw, pos, s).Some? <==> SegFits(h.is64, splice, shift)(s)
    {
      var f := PhOffsetField(h.is64);
      WriteIff(raw, pos + f.off, f.size, s.offset + shift, h.little, h.is64);
    }
  }

  lemma SecEditIff(h: Header, splice: nat, shift: int)
    ensures SucceedsIf(SecEdit(h, splice, shift), SecFits(h.is64, splice, shift))
  {
    forall raw: seq<byte>, pos: nat, o: nat
      ensures SecEdit(h, splice, shift)(raw, pos, o).Some? <==> SecFits(h.is64, splice, shift)(o)
    {
      var f := ShOffsetField(h.is64);
      WriteIff(raw, pos + f.off, f.size, o + shift, h.little, h.is64);
    }
  }

  /** Every offset behind the splice point still fits when it has moved. */
  predicate OffsetsFit(elf: Elf, splice: nat, shift: int) {
    && (forall s :: s in elf.segs ==> FitsMoved(elf.h.is64, splice, shift, s.offset))
    && (forall o :: o in elf.secs ==> FitsMoved(elf.h.is64, splice, shift, o))
    && FitsMoved(elf.h.is64, splice, shift, elf.h.shoff)
  }

  lemma GrowthIff(img: seq<byte>, elf: Elf, splice: nat, shift: int)
    ensures UpdateForGrowth(img, elf, splice, shift).Some? <==> OffsetsFit(elf, splice, shift)
  {
    var h := elf.h;
    SegEditIff(h, splice, shift);
    SecEditIff(h, splice, shift);
    WordSizes(h.is64);
    EditTableIff(img, elf.segs, h.phoff, h.phentsize, SegEdit(h, splice, shift), SegFits(h.is64, splice, shift));
    var a := EditTable(img, elf.segs, h.phoff, h.phentsize, SegEdit(h, splice, shift));
    if a.Some? {
      EditTableIff(a.value, elf.secs, h.shoff, h.shentsize, SecEdit(h, splice, shift), SecFits(h.is64, splice, shift));
    }
  }

  lemma SizesIff(img: seq<byte>, h: Header, t: nat, size: nat)
    ensures WriteSizes(img, h, t, size).Some? <==> FitsWord(size, h.is64)
  {
    WordSizes(h.is64);
  }

  /** The header writes succeed if and only if, when segments move, every offset behind the
      splice point fits its field afterwards, and the new size does. */
  lemma WritesIff(img: seq<byte>, elf: Elf, t: nat, splice: nat, shift: int, size: nat)
    ensures HeaderWrites(img, elf, t, splice, shift, size).Some?
       <==> (shift != 0 ==> OffsetsFit(elf, splice, shift)) && FitsWord(size, elf.h.is64)
  {
    GrowthIff(img, elf, splice, shift);
    SizesIff(img, elf.h, t, size);
    var a := UpdateForGrowth(img, elf, splice, shift);
    if a.Some? {
      SizesIff(a.value, elf.h, t, size);
    }
  }

  // ---------------------------------------------------------------------
  // The uefi_dtbs path
  // ---------------------------------------------------------------------

  /** A step succeeds if and only if its segment keeps all device trees or the header values
      fit that go with its new size. */
  lemma StepSucceedsIff(tools: Tools, raw: seq<byte>, elf: Elf, t: nat, data: seq<byte>, size: nat, off: nat, shift: int)
    requires IsElf(raw, elf) && GoodLayout(elf) && Payload(elf, t) && data == SegData(raw, elf.segs[t])
    requires size == |Rebuilt(tools, data)| && off == elf.segs[t].offset && shift == size - |data|
    ensures PatchStep(tools, raw, t).Some?
       <==> IsTouched(tools, data) ==> (shift != 0 ==> OffsetsFit(elf, off, shift)) && FitsWord(size, elf.h.is64)
  {
    if IsTouched(tools, data) {
      var spliced := SpliceIn(tools, raw, off, data);
      WritesIff(spliced, elf, t, off, shift, size);
      RewriteIs(tools, raw, spliced, elf, t, data, Rebuilt(tools, data), off, shift, size);
      StepTouched(tools, raw, elf, t, data, spliced);
      var writes := HeaderWrites(spliced, elf, t, off, shift, size);
      if writes.Some? {
        FinishSucceeds(tools, raw, elf, t, data, writes.value, off, shift, size, spliced);
      }
    } else {
      StepUntouched(tools, raw, elf, t, data);
    }
  }

  lemma StepTouched(tools: Tools, raw: seq<byte>, elf: Elf, t: nat, data: seq<byte>, spliced: seq<byte>)
    requires IsElf(raw, elf) && t < |elf.segs| && data == SegData(raw, elf.segs[t]) && IsTouched(tools, data)
    requires spliced == SpliceIn(tools, raw, elf.segs[t].offset, data)
    ensures PatchStep(tools, raw, t).Some? == Rewrite(tools, raw, spliced, elf, t, data).Some?
  {
  }

  lemma StepUntouched(tools: Tools, raw: seq<byte>, elf: Elf, t: nat, data: seq<byte>)
    requires IsElf(raw, elf) && t < |elf.segs| && data == SegData(raw, elf.segs[t]) && !IsTouched(tools, data)
    ensures PatchStep(tools, raw, t).Some?
  {
  }

  lemma FinishSucceeds(tools: Tools, raw: seq<byte>, elf: Elf, t: nat, data: seq<byte>, fixed: seq<byte>,
                       off: nat, shift: int, size: nat, spliced: seq<byte>)
    requires IsElf(raw, elf) && GoodLayout(elf) && Payload(elf, t) && data == SegData(raw, elf.segs[t])
    requires IsTouched(tools, data) == true && spliced == SpliceIn(tools, raw, off, data) && off == elf.segs[t].offset
    requires size == |Rebuilt(tools, data)| && shift == size - |data|
    requires HeaderWrites(spliced, elf, t, off, shift, size) == Some(fixed)
    ensures Finish(tools, raw, fixed, elf.segs[0], data, t).Some?
  {
    TouchedNotEmpty(tools, data);
    FixedSucceeds(raw, elf, t, data, Rebuilt(tools, data), fixed, off, shift, size, spliced);
    FinishIff(tools, raw, fixed, elf.segs[0], data, t);
  }

  lemma FinishIff(tools: Tools, raw: seq<byte>, fixed: seq<byte>, ph0: Seg, data: seq<byte>, t: nat)
    ensures Finish(tools, raw, fixed, ph0, data, t).Some? == ParseElf(fixed).Some?
  {
  }

  lemma FixedSucceeds(raw: seq<byte>, elf: Elf, t: nat, data: seq<byte>, new_: seq<byte>, fixed: seq<byte>,
                      off: nat, shift: int, size: nat, spliced: seq<byte>)
    requires IsElf(raw, elf) && GoodLayout(elf) && Payload(elf, t) && data == SegData(raw, elf.segs[t]) && data != []
    requires off == elf.segs[t].offset && spliced == Splice(raw, off, off + |data|, new_)
    requires size == |new_| && shift == size - |data|
    requires HeaderWrites(spliced, elf, t, off, shift, size) == Some(fixed)
    ensures ParseElf(fixed).Some? == true
  {
    DataInFile(raw, elf.segs[t], data);
    WritesFixed(raw, elf, t, |data|, new_, off, shift, size, spliced, fixed);
    FixedParses(raw, elf, t, |data|, new_, fixed);
  }

  /** The header values of a step on segment `t` fit. */
  predicate StepFits(tools: Tools, raw: seq<byte>, elf: Elf, t: nat)
    requires t < |elf.segs|
  {
    var data := SegData(raw, elf.segs[t]);
    var size := |Rebuilt(tools, data)|;
    IsTouched(tools, data) ==>
      (size != |data| ==> OffsetsFit(elf, elf.segs[t].offset, size - |data|)) && FitsWord(size, elf.h.is64)
  }

  /** So they do in every state the run passes through. */
  predicate RunFits(tools: Tools, raw: seq<byte>, elf: Elf, ts: seq<nat>)
    decreases ts
  {
    ts != [] ==>
      && ts[0] < |elf.segs| && StepFits(tools, raw, elf, ts[0])
      && (var step := PatchStep(tools, raw, ts[0]);
          step.Some? ==> RunFits(tools, step.value.0, StepElf(tools, raw, elf, ts[0]), ts[1..]))
  }

  /** A run gets to its end if and only if they do. */
  lemma {:induction false} RunSucceedsIff(tools: Tools, raw: seq<byte>, elf: Elf, ts: seq<nat>, i: nat)
    requires IsElf(raw, elf) && GoodLayout(elf) && AllBehind(elf, ts) && Payload(elf, i)
    requires RunSpares(tools, raw, elf, ts, i)
    ensures PatchRun(tools, raw, ts).Some? <==> RunFits(tools, raw, elf, ts)
    decreases ts
  {
    if ts != [] {
      var t := ts[0];
      var data := SegData(raw, elf.segs[t]);
      var size := |Rebuilt(tools, data)|;
      StepSucceedsIff(tools, raw, elf, t, data, size, elf.segs[t].offset, size - |data|);
      var step := PatchStep(tools, raw, t);
      if step.Some? {
        var next, elf' := step.value.0, StepElf(tools, raw, elf, t);
        var fixed := StepCases(tools, raw, elf, t, data, next);
        StepKeeps(tools, raw, elf, t, data, fixed, next, elf', i, ts[1..]);
        RunSucceedsIff(tools, next, elf', ts[1..], i);
        RunContinues(tools, raw, ts, next);
      }
    }
  }

  lemma RunContinues(tools: Tools, raw: seq<byte>, ts: seq<nat>, next: seq<byte>)
    requires ts != [] && PatchStep(tools, raw, ts[0]).Some? && next == PatchStep(tools, raw, ts[0]).value.0
    ensures PatchRun(tools, raw, ts).Some? <==> PatchRun(tools, next, ts[1..]).Some?
  {
  }

  // ---------------------------------------------------------------------
  // The xbl_config path
  // ---------------------------------------------------------------------

  /** `_replace_ph` fails if the image does not parse or the segment does not exist. Otherwise
      it succeeds if and only if the header values fit; offsets move only when the segment
      grows. */
  lemma ReplaceSucceedsIff(tools: Tools, raw: seq<byte>, elf: Elf, t: nat, new_: seq<byte>, meta: nat)
    requires ParseElf(raw) == Some(elf)
    ensures ReplacePh(tools, raw, t, new_, meta).Some?
       <==> && t < |elf.segs| && FitsWord(|new_|, elf.h.is64)
            && (|new_| > elf.segs[t].filesz ==> OffsetsFit(elf, elf.segs[t].offset, |new_| - elf.segs[t].filesz))
  {
    if t < |elf.segs| {
      var off, n, m := elf.segs[t].offset, elf.segs[t].filesz, |new_|;
      var img := ResizeImage(raw, off, n, new_);
      ReplaceIsWrites(tools, raw, elf, t, new_, meta, img, off, ShiftFor(n, m));
      WritesIff(img, elf, t, off, ShiftFor(n, m), m);
    } else {
      NoSuchTarget(tools, raw, elf, t, new_, meta);
    }
  }

  lemma NoSuchTarget(tools: Tools, raw: seq<byte>, elf: Elf, t: nat, new_: seq<byte>, meta: nat)
    requires ParseElf(raw) == Some(elf) && |elf.segs| <= t
    ensures ReplacePh(tools, raw, t, new_, meta) == None
  {
  }

  lemma ReplaceIsWrites(tools: Tools, raw: seq<byte>, elf: Elf, t: nat, new_: seq<byte>, meta: nat, img: seq<byte>,
                        off: nat, shift: nat)
    requires ParseElf(raw) == Some(elf) && t < |elf.segs| && off == elf.segs[t].offset
    requires shift == ShiftFor(elf.segs[t].filesz, |new_|) && img == ResizeImage(raw, off, elf.segs[t].filesz, new_)
    ensures ReplacePh(tools, raw, t, new_, meta).Some? == HeaderWrites(img, elf, t, off, shift, |new_|).Some?
  {
  }
}
