// Sequences of replacements: metadata and program headers stay in agreement,
// and what every segment holds after `_patch_xbl_config`.
module XblRun {
  import opened Bytes
  import opened DtbScan
  import opened SegmentRebuild
  import opened ElfImage
  import opened ElfSplice
  import opened Resize
  import opened UefiRun
  import opened Layout
  import opened XblMetadata
  import opened XblConfig
  import opened XblReplace
  import opened XblEffect
  import opened LastTree

  // ---------------------------------------------------------------------
  // Item sizes and file sizes
  // ---------------------------------------------------------------------

  /** Item `k` is for segment `meta + 1 + k`. */
  predicate Matches(items: seq<MetaItem>, segs: seq<Seg>, meta: nat) {
    forall k :: 0 <= k < |items| && meta + 1 + k < |segs| ==>
                  items[k].entry.itemSize == segs[meta + 1 + k].filesz
  }

  /** The metadata parses, and every `item_size` is the `p_filesz` of its segment. */
  predicate ItemsMatch(raw: seq<byte>, elf: Elf, meta: nat) {
    var items := MetaItems(raw, elf, meta);
    items.Some? && Matches(items.value, elf.segs, meta)
  }

  predicate SizesBounded(items: seq<MetaItem>) {
    forall k :: 0 <= k < |items| ==> items[k].entry.itemSize < Pow256(4)
  }

  /** `segs'` is `segs` with the file size of segment `t` set to `size`. */
  predicate Refiled(segs: seq<Seg>, segs': seq<Seg>, t: nat, size: nat) {
    && |segs'| == |segs|
    && forall i :: 0 <= i < |segs| ==> segs'[i].filesz == if i == t then size else segs[i].filesz
  }

  lemma MatchesIff(items: seq<MetaItem>, segs: seq<Seg>, segs': seq<Seg>, meta: nat, t: nat, size: nat)
    requires meta < t < |segs| && Refiled(segs, segs', t, size) && SizesBounded(items) && Matches(items, segs, meta)
    ensures Matches(NewItems(items, t - (meta + 1), size), segs', meta)
       <==> (t - (meta + 1) < |items| ==> size < Pow256(4))
  {
    var k := t - (meta + 1);
    var items' := NewItems(items, k, size);
    if k < |items| && size >= Pow256(4) {
      assert items'[k].entry.itemSize != segs'[meta + 1 + k].filesz;
    } else {
      forall j | 0 <= j < |items'| && meta + 1 + j < |segs'|
        ensures items'[j].entry.itemSize == segs'[meta + 1 + j].filesz
      {
        assert j != k ==> items'[j] == items[j];
      }
    }
  }

  lemma EntrySizeBound(blob: seq<byte>, cur: nat)
    requires cur + 32 <= |blob|
    ensures Num(blob, cur + 8, 4) < Pow256(4)
  {
    FromLeBound(Slice(blob, cur + 8, cur + 12));
  }

  lemma ListBounded(blob: seq<byte>, cur: nat, count: nat, items: seq<MetaItem>)
    requires ItemsFrom(blob, cur, count) == Some(items)
    ensures SizesBounded(items)
  {
    ItemReaderPlaces(blob);
    forall k | 0 <= k < |items|
      ensures items[k].entry.itemSize < Pow256(4)
    {
      ListReads(ItemReader(), blob, cur, count, items, k);
      EntrySizeBound(blob, items[k].startOff);
    }
  }

  lemma BlobBounded(blob: seq<byte>, items: seq<MetaItem>)
    requires BlobItems(blob) == Some(items)
    ensures SizesBounded(items)
  {
    ListBounded(blob, META_HEADER_SIZE, ParseMetaHeader(blob).value.entries, items);
  }

  lemma NewElfRefiled(elf: Elf, t: nat, m: nat)
    requires t < |elf.segs|
    ensures Refiled(elf.segs, NewElf(elf, t, m).segs, t, m)
  {
    forall i | 0 <= i < |elf.segs|
      ensures NewElf(elf, t, m).segs[i].filesz == if i == t then m else elf.segs[i].filesz
    {
      ResizedAt(elf, t, elf.segs[t].offset, ShiftFor(elf.segs[t].filesz, m), m, i);
    }
  }

  /** The metadata after a replacement. */
  lemma ItemsAfter(raw: seq<byte>, elf: Elf, elf': Elf, r: seq<byte>, t: nat, meta: nat, size: nat, items: seq<MetaItem>)
    requires meta < t < |elf.segs| == |elf'.segs| && MetaItems(raw, elf, meta) == Some(items)
    requires SegData(r, elf'.segs[meta]) == NewBlob(SegData(raw, elf.segs[meta]), t - (meta + 1), size)
    ensures MetaItems(r, elf', meta) == Some(NewItems(items, t - (meta + 1), size)) && SizesBounded(items)
  {
    MetaItemsOfBlob(raw, elf, meta);
    MetaItemsOfBlob(r, elf', meta);
    NewBlobItems(SegData(raw, elf.segs[meta]), items, t - (meta + 1), size);
    BlobBounded(SegData(raw, elf.segs[meta]), items);
  }

  /** A replacement keeps metadata and program headers in agreement exactly if the new
      size fits the four bytes of `item_size`, or the segment has no item. */
  lemma ReplaceMatchesIff(tools: Tools, raw: seq<byte>, elf: Elf, t: nat, meta: nat, new_: seq<byte>,
                          fixed: seq<byte>, sized: seq<byte>, r: seq<byte>, elf': Elf)
    requires IsElf(raw, elf) && Replaceable(elf, t, meta, |raw|) && new_ != [] && elf' == NewElf(elf, t, |new_|)
    requires Stages(tools, raw, elf, t, meta, new_, fixed, sized, r) == true
    requires ReplaceSpares(tools, raw, sized, elf, t, new_, meta, elf.segs[meta]) == true
    requires ItemsMatch(raw, elf, meta)
    ensures ItemsMatch(r, elf', meta)
       <==> (t - (meta + 1) < |MetaItems(raw, elf, meta).value| ==> |new_| < Pow256(4))
  {
    var items, k := MetaItems(raw, elf, meta).value, t - (meta + 1);
    ReplaceMeta(tools, raw, elf, t, meta, new_, fixed, sized, r, elf', k);
    NewElfRefiled(elf, t, |new_|);
    ItemsAfter(raw, elf, elf', r, t, meta, |new_|, items);
    MatchesIff(items, elf.segs, elf'.segs, meta, t, |new_|);
  }

  // ---------------------------------------------------------------------
  // Layouts over a run
  // ---------------------------------------------------------------------

  /** Segments behind the headers lie in the file of `n` bytes and do not overlap, and
      the metadata is one of them. */
  ghost predicate FileLayout(elf: Elf, meta: nat, n: nat) {
    && GoodLayout(elf) && Payload(elf, meta)
    && (forall i: nat :: Payload(elf, i) ==> elf.segs[i].End() <= n)
  }

  /** Segment `t` may be replaced: it is behind the metadata and not empty. */
  predicate CanReplace(elf: Elf, meta: nat, t: nat) {
    Payload(elf, t) && meta < t && 0 < elf.segs[t].filesz && elf.segs[meta].End() <= elf.segs[t].offset
  }

  lemma CanIsReplaceable(elf: Elf, meta: nat, t: nat, n: nat)
    requires FileLayout(elf, meta, n) && CanReplace(elf, meta, t)
    ensures Replaceable(elf, t, meta, n)
  {
  }

  /** How one segment's entry changes. */
  lemma NewSegment(elf: Elf, t: nat, m: nat, i: nat)
    requires TablesApart(elf) && Payload(elf, t) && i < |elf.segs|
    requires Top(NewElf(elf, t, m)) == Top(elf) && Payload(NewElf(elf, t, m), i)
    ensures var shift, s, s' := ShiftFor(elf.segs[t].filesz, m), elf.segs[i], NewElf(elf, t, m).segs[i];
            && Payload(elf, i) && s.offset <= s'.offset <= s.offset + shift
            && s'.filesz == (if i == t then m else s.filesz)
            && s'.End() <= s.End() + 2 * shift
  {
    ResizedAt(elf, t, elf.segs[t].offset, ShiftFor(elf.segs[t].filesz, m), m, i);
  }

  lemma FileLayoutKept(elf: Elf, t: nat, meta: nat, n: nat, m: nat)
    requires FileLayout(elf, meta, n) && CanReplace(elf, meta, t) && 0 < m
    requires TablesApart(NewElf(elf, t, m)) && Top(NewElf(elf, t, m)) == Top(elf)
    ensures FileLayout(NewElf(elf, t, m), meta, n + 2 * ShiftFor(elf.segs[t].filesz, m))
  {
    var elf', n' := NewElf(elf, t, m), n + 2 * ShiftFor(elf.segs[t].filesz, m);
    NewLayout(elf, t, meta, n, m);
    forall i: nat | Payload(elf', i)
      ensures elf'.segs[i].End() <= n'
    {
      NewSegment(elf, t, m, i);
    }
  }

  // ---------------------------------------------------------------------
  // One replacement
  // ---------------------------------------------------------------------

  /** No digest that the replacement looks up is found in the headers, in the metadata or in
      segment `i`. */
  predicate CallSpares(tools: Tools, raw: seq<byte>, elf: Elf, t: nat, new_: seq<byte>, meta: nat, i: nat)
    requires t < |elf.segs| && meta < |elf.segs|
  {
    var s, elf' := elf.segs[t], NewElf(elf, t, |new_|);
    var w := HeaderWrites(ResizeImage(raw, s.offset, s.filesz, new_), elf, t, s.offset,
                          ShiftFor(s.filesz, |new_|), |new_|);
    w.Some? ==>
      var sized := WriteItemSize(raw, w.value, elf, t, meta, |new_|);
      && ReplaceSpares(tools, raw, sized, elf, t, new_, meta, Front(elf'))
      && ReplaceSpares(tools, raw, sized, elf, t, new_, meta, elf.segs[meta])
      && i < |elf'.segs|
      && ReplaceSpares(tools, raw, sized, elf, t, new_, meta, elf'.segs[i])
  }

  lemma SparesInCall(tools: Tools, raw: seq<byte>, elf: Elf, t: nat, meta: nat, new_: seq<byte>,
                     fixed: seq<byte>, sized: seq<byte>, r: seq<byte>, elf': Elf, i: nat)
    requires t < |elf.segs| && meta < |elf.segs| && elf' == NewElf(elf, t, |new_|)
    requires Stages(tools, raw, elf, t, meta, new_, fixed, sized, r) && CallSpares(tools, raw, elf, t, new_, meta, i)
    ensures ReplaceSpares(tools, raw, sized, elf, t, new_, meta, Front(elf')) == true
    ensures ReplaceSpares(tools, raw, sized, elf, t, new_, meta, elf.segs[meta]) == true
    ensures i < |elf'.segs| && ReplaceSpares(tools, raw, sized, elf, t, new_, meta, elf'.segs[i]) == true
  {
  }

  lemma ReplaceStages(tools: Tools, raw: seq<byte>, elf: Elf, t: nat, meta: nat, new_: seq<byte>, r: seq<byte>)
    returns (fixed: seq<byte>, sized: seq<byte>)
    requires IsElf(raw, elf) && t < |elf.segs| && ReplacePh(tools, raw, t, new_, meta) == Some(r)
    ensures Stages(tools, raw, elf, t, meta, new_, fixed, sized, r) == true
  {
    fixed, sized := ReplaceParts(tools, raw, elf, t, new_, meta, r);
  }

  lemma ReplaceLayout(tools: Tools, raw: seq<byte>, elf: Elf, t: nat, meta: nat, new_: seq<byte>,
                      fixed: seq<byte>, sized: seq<byte>, r: seq<byte>, elf': Elf)
    requires IsElf(raw, elf) && FileLayout(elf, meta, |raw|) && CanReplace(elf, meta, t) && new_ != []
    requires Stages(tools, raw, elf, t, meta, new_, fixed, sized, r) == true && elf' == NewElf(elf, t, |new_|)
    requires ReplaceSpares(tools, raw, sized, elf, t, new_, meta, Front(elf')) == true
    ensures IsElf(r, elf') && FileLayout(elf', meta, |r|) && |elf'.segs| == |elf.segs|
  {
    CanIsReplaceable(elf, meta, t, |raw|);
    ReplaceParses(tools, raw, elf, t, meta, new_, fixed, sized, r, elf');
    ReplaceLength(tools, raw, elf, t, meta, new_, fixed, sized, r, elf');
    FileLayoutKept(elf, t, meta, |raw|, |new_|);
  }

  lemma ReplaceLength(tools: Tools, raw: seq<byte>, elf: Elf, t: nat, meta: nat, new_: seq<byte>,
                      fixed: seq<byte>, sized: seq<byte>, r: seq<byte>, elf': Elf)
    requires IsElf(raw, elf) && Replaceable(elf, t, meta, |raw|) && new_ != [] && elf' == NewElf(elf, t, |new_|)
    requires Stages(tools, raw, elf, t, meta, new_, fixed, sized, r)
    requires ReplaceSpares(tools, raw, sized, elf, t, new_, meta, Front(elf')) == true
    ensures |r| == |raw| + 2 * ShiftFor(elf.segs[t].filesz, |new_|)
    ensures TablesApart(elf') && Top(elf') == Top(elf)
  {
    WrittenParses(raw, elf, t, new_, fixed);
    StageTwo(raw, elf, t, meta, new_, fixed, sized, elf.segs[meta], t - (meta + 1));
    SparedInReplace(tools, raw, sized, elf, t, new_, meta, r, Front(elf'));
  }

  /** Everything a run needs from one replacement: layout and agreement. */
  lemma ReplaceKeeps(tools: Tools, raw: seq<byte>, elf: Elf, t: nat, meta: nat, new_: seq<byte>,
                     fixed: seq<byte>, sized: seq<byte>, r: seq<byte>, elf': Elf)
    requires IsElf(raw, elf) && FileLayout(elf, meta, |raw|) && CanReplace(elf, meta, t) && new_ != []
    requires Stages(tools, raw, elf, t, meta, new_, fixed, sized, r) == true && elf' == NewElf(elf, t, |new_|)
    requires ReplaceSpares(tools, raw, sized, elf, t, new_, meta, Front(elf')) == true
    requires ReplaceSpares(tools, raw, sized, elf, t, new_, meta, elf.segs[meta]) == true
    ensures IsElf(r, elf') && FileLayout(elf', meta, |r|) && |elf'.segs| == |elf.segs|
    ensures ItemsMatch(raw, elf, meta) && |new_| < Pow256(4) ==> ItemsMatch(r, elf', meta)
  {
    ReplaceLayout(tools, raw, elf, t, meta, new_, fixed, sized, r, elf');
    CanIsReplaceable(elf, meta, t, |raw|);
    if ItemsMatch(raw, elf, meta) {
      ReplaceMatchesIff(tools, raw, elf, t, meta, new_, fixed, sized, r, elf');
    }
  }

  /** And the contents of one segment `i`. */
  lemma ReplaceStep(tools: Tools, raw: seq<byte>, elf: Elf, t: nat, meta: nat, new_: seq<byte>, r: seq<byte>, i: nat, elf': Elf)
    requires IsElf(raw, elf) && FileLayout(elf, meta, |raw|) && CanReplace(elf, meta, t) && new_ != []
    requires ReplacePh(tools, raw, t, new_, meta) == Some(r) && CallSpares(tools, raw, elf, t, new_, meta, i) == true
    requires Payload(elf, i) && i != meta && elf' == NewElf(elf, t, |new_|)
    ensures IsElf(r, elf') && FileLayout(elf', meta, |r|) && Payload(elf', i) && |elf'.segs| == |elf.segs|
    ensures SegData(r, elf'.segs[i]) == if i == t then new_ else SegData(raw, elf.segs[i])
    ensures ItemsMatch(raw, elf, meta) && |new_| < Pow256(4) ==> ItemsMatch(r, elf', meta)
  {
    var fixed, sized := ReplaceStages(tools, raw, elf, t, meta, new_, r);
    SparesInCall(tools, raw, elf, t, meta, new_, fixed, sized, r, elf', i);
    ReplaceKeeps(tools, raw, elf, t, meta, new_, fixed, sized, r, elf');
    CanIsReplaceable(elf, meta, t, |raw|);
    ReplaceContents(tools, raw, elf, t, meta, new_, fixed, sized, r, elf', i);
  }

  // ---------------------------------------------------------------------
  // Any sequence of replacements
  // ---------------------------------------------------------------------

  datatype Replacement = Replacement(target: nat, bytes: seq<byte>)

  function ReplaceSeq(tools: Tools, raw: seq<byte>, rs: seq<Replacement>, meta: nat): Option<seq<byte>>
    decreases rs
  {
    if rs == [] then Some(raw)
    else
      var next :- ReplacePh(tools, raw, rs[0].target, rs[0].bytes, meta);
      ReplaceSeq(tools, next, rs[1..], meta)
  }

  /** Every replacement is of a segment that may be replaced, by something that is not
      empty and whose size fits `item_size`, and finds no digest in headers or metadata. */
  predicate SeqOk(tools: Tools, raw: seq<byte>, elf: Elf, rs: seq<Replacement>, meta: nat)
    decreases rs
  {
    rs != [] ==>
      var t, new_ := rs[0].target, rs[0].bytes;
      && CanReplace(elf, meta, t) && 0 < |new_| < Pow256(4)
      && CallSpares(tools, raw, elf, t, new_, meta, meta)
      && (var next := ReplacePh(tools, raw, t, new_, meta);
          next.Some? ==> SeqOk(tools, next.value, NewElf(elf, t, |new_|), rs[1..], meta))
  }

  /** Metadata and program headers agree after any sequence of replacements. */
  lemma {:induction false} SeqMatches(tools: Tools, raw: seq<byte>, elf: Elf, rs: seq<Replacement>, meta: nat)
    returns (last: Elf)
    requires IsElf(raw, elf) && FileLayout(elf, meta, |raw|) && ItemsMatch(raw, elf, meta)
    requires SeqOk(tools, raw, elf, rs, meta) && ReplaceSeq(tools, raw, rs, meta).Some?
    ensures IsElf(ReplaceSeq(tools, raw, rs, meta).value, last)
    ensures ItemsMatch(ReplaceSeq(tools, raw, rs, meta).value, last, meta)
    decreases rs
  {
    if rs == [] {
      last := elf;
    } else {
      var t, new_ := rs[0].target, rs[0].bytes;
      var next, elf' := ReplacePh(tools, raw, t, new_, meta).value, NewElf(elf, t, |new_|);
      ReplaceAgrees(tools, raw, elf, t, meta, new_, next, elf');
      last := SeqMatches(tools, next, elf', rs[1..], meta);
    }
  }

  lemma ReplaceAgrees(tools: Tools, raw: seq<byte>, elf: Elf, t: nat, meta: nat, new_: seq<byte>, r: seq<byte>, elf': Elf)
    requires IsElf(raw, elf) && FileLayout(elf, meta, |raw|) && CanReplace(elf, meta, t) && 0 < |new_| < Pow256(4)
    requires ReplacePh(tools, raw, t, new_, meta) == Some(r) && CallSpares(tools, raw, elf, t, new_, meta, meta) == true
    requires ItemsMatch(raw, elf, meta) && elf' == NewElf(elf, t, |new_|)
    ensures IsElf(r, elf') && FileLayout(elf', meta, |r|) && ItemsMatch(r, elf', meta)
  {
    var fixed, sized := ReplaceStages(tools, raw, elf, t, meta, new_, r);
    SparesInCall(tools, raw, elf, t, meta, new_, fixed, sized, r, elf', meta);
    ReplaceKeeps(tools, raw, elf, t, meta, new_, fixed, sized, r, elf');
  }

  // ---------------------------------------------------------------------
  // The device trees of one segment
  // ---------------------------------------------------------------------

  /** The view after device tree `d` of segment `ph` has been dealt with. */
  function TreeElf(tools: Tools, elf: Elf, ph: nat, data: seq<byte>, d: Dtb): Elf
    requires ph < |elf.segs|
  {
    match tools.patchDtb(Slice(data, d.off, d.End()))
    case Patched(p) => NewElf(elf, ph, |WithTree(data, d, p)|)
    case _ => elf
  }

  /** As for `SeqOk`, if the device tree is replaced at all. */
  predicate TreeOk(tools: Tools, raw: seq<byte>, elf: Elf, ph: nat, meta: nat, i: nat, data: seq<byte>, d: Dtb) {
    match tools.patchDtb(Slice(data, d.off, d.End()))
    case Patched(p) =>
      var new_ := WithTree(data, d, p);
      && CanReplace(elf, meta, ph) && 0 < |new_| < Pow256(4)
      && CallSpares(tools, raw, elf, ph, new_, meta, i)
    case _ => true
  }

  predicate TreesOk(tools: Tools, now: Tally, elf: Elf, ph: nat, meta: nat, i: nat, data: seq<byte>, ds: seq<Dtb>)
    requires ph < |elf.segs|
    decreases ds
  {
    ds != [] ==>
      && TreeOk(tools, now.image, elf, ph, meta, i, data, ds[0])
      && (var next := PatchTree(tools, now, ph, meta, data, ds[0]);
          next.Some? ==> TreesOk(tools, next.value, TreeElf(tools, elf, ph, data, ds[0]), ph, meta, i, data, ds[1..]))
  }

  function TreesElf(tools: Tools, elf: Elf, ph: nat, data: seq<byte>, ds: seq<Dtb>): Elf
    requires ph < |elf.segs|
    decreases ds
  {
    if ds == [] then elf else TreesElf(tools, TreeElf(tools, elf, ph, data, ds[0]), ph, data, ds[1..])
  }

  /** What the run keeps: the image parses to `elf`, which is laid out well. */
  ghost predicate Sound(image: seq<byte>, elf: Elf, meta: nat) {
    exists n: nat :: FileLayout(elf, meta, n) && n == |image| && IsElf(image, elf)
  }

  function TreeContents(tools: Tools, data: seq<byte>, d: Dtb, now: seq<byte>): seq<byte> {
    match tools.patchDtb(Slice(data, d.off, d.End()))
    case Patched(p) => WithTree(data, d, p)
    case _ => now
  }

  lemma LastPatchedCons(tools: Tools, data: seq<byte>, ds: seq<Dtb>, now: seq<byte>)
    requires ds != []
    ensures LastPatched(tools, data, ds, now) == LastPatched(tools, data, ds[1..], TreeContents(tools, data, ds[0], now))
  {
  }

  lemma TreeStep(tools: Tools, now: Tally, next: Tally, elf: Elf, ph: nat, meta: nat,
                 data: seq<byte>, d: Dtb, i: nat)
    requires ph < |elf.segs| && Sound(now.image, elf, meta) && Payload(elf, i) && i != meta
    requires TreeOk(tools, now.image, elf, ph, meta, i, data, d)
    requires PatchTree(tools, now, ph, meta, data, d) == Some(next)
    ensures var elf' := TreeElf(tools, elf, ph, data, d);
            && Sound(next.image, elf', meta) && |elf'.segs| == |elf.segs| && Payload(elf', i)
            && SegData(next.image, elf'.segs[i])
               == (if i == ph then TreeContents(tools, data, d, SegData(now.image, elf.segs[i]))
                   else SegData(now.image, elf.segs[i]))
            && (ItemsMatch(now.image, elf, meta) ==> ItemsMatch(next.image, elf', meta))
  {
    match tools.patchDtb(Slice(data, d.off, d.End()))
    case Patched(p) =>
      var new_ := WithTree(data, d, p);
      ReplaceStep(tools, now.image, elf, ph, meta, new_, next.image, i, NewElf(elf, ph, |new_|));
    case _ =>
  }

  /** The loop over the device trees of segment `ph`. */
  lemma {:induction false} TreesRun(tools: Tools, now: Tally, end: Tally, elf: Elf, ph: nat, meta: nat,
                                    data: seq<byte>, ds: seq<Dtb>, i: nat)
    requires ph < |elf.segs| && Sound(now.image, elf, meta) && Payload(elf, i) && i != meta
    requires TreesOk(tools, now, elf, ph, meta, i, data, ds) == true // not to be unfolded by callers
    requires PatchTrees(tools, now, ph, meta, data, ds) == Some(end)
    ensures var elf' := TreesElf(tools, elf, ph, data, ds);
            && Sound(end.image, elf', meta) && |elf'.segs| == |elf.segs| && Payload(elf', i)
            && SegData(end.image, elf'.segs[i])
               == (if i == ph then LastPatched(tools, data, ds, SegData(now.image, elf.segs[i]))
                   else SegData(now.image, elf.segs[i]))
            && (ItemsMatch(now.image, elf, meta) ==> ItemsMatch(end.image, elf', meta))
    decreases ds
  {
    if ds != [] {
      var next := PatchTree(tools, now, ph, meta, data, ds[0]).value;
      TreeStep(tools, now, next, elf, ph, meta, data, ds[0], i);
      TreesRun(tools, next, end, TreeElf(tools, elf, ph, data, ds[0]), ph, meta, data, ds[1..], i);
      LastPatchedCons(tools, data, ds, SegData(now.image, elf.segs[i]));
    }
  }

  // ---------------------------------------------------------------------
  // The whole run
  // ---------------------------------------------------------------------

  function ItemElf(tools: Tools, image: seq<byte>, elf: Elf, ph: nat): Elf {
    if ph >= |elf.segs| then elf
    else
      var data := SegData(image, elf.segs[ph]);
      TreesElf(tools, elf, ph, data, Scan(data))
  }

  predicate ItemOk(tools: Tools, now: Tally, elf: Elf, meta: nat, i: nat, ph: nat) {
    ph < |elf.segs| ==>
      var data := SegData(now.image, elf.segs[ph]);
      TreesOk(tools, now, elf, ph, meta, i, data, Scan(data))
  }

  // One step of the loop as functions of their own, so that the induction over items
  // need not look into them.

  type ItemCheck = (Tally, Elf, nat) -> bool
  type ItemMove = (Tally, Elf, nat) -> Elf

  function ItemChecker(tools: Tools, meta: nat, i: nat): ItemCheck {
    (now: Tally, elf: Elf, idx: nat) => ItemOk(tools, now, elf, meta, i, idx + meta + 1)
  }

  function ItemMover(tools: Tools, meta: nat): ItemMove {
    (now: Tally, elf: Elf, idx: nat) => ItemElf(tools, now.image, elf, idx + meta + 1)
  }

  // What they are for a segment `ph` that exists.

  lemma StepIsTrees(tools: Tools, now: Tally, elf: Elf, meta: nat, idx: nat, ph: nat, data: seq<byte>)
    requires IsElf(now.image, elf) && ph == idx + meta + 1 < |elf.segs| && data == SegData(now.image, elf.segs[ph])
    ensures ItemStepper(tools, meta)(now, idx) == PatchTrees(tools, now, ph, meta, data, Scan(data))
  {
  }

  lemma NoSuchSegment(tools: Tools, now: Tally, elf: Elf, meta: nat, idx: nat)
    requires IsElf(now.image, elf) && |elf.segs| <= idx + meta + 1
    ensures ItemStepper(tools, meta)(now, idx) == Some(now) && ItemMover(tools, meta)(now, elf, idx) == elf
  {
    assert PatchItem(tools, now, meta, idx) == Some(now);
    NothingMoves(tools, now, elf, meta, idx, idx + meta + 1);
  }

  lemma NothingMoves(tools: Tools, now: Tally, elf: Elf, meta: nat, idx: nat, ph: nat)
    requires |elf.segs| <= ph == idx + meta + 1
    ensures ItemMover(tools, meta)(now, elf, idx) == elf
  {
    assert ItemMover(tools, meta)(now, elf, idx) == ItemElf(tools, now.image, elf, ph);
  }

  lemma MoveIsTrees(tools: Tools, now: Tally, elf: Elf, meta: nat, idx: nat, ph: nat, data: seq<byte>)
    requires ph == idx + meta + 1 < |elf.segs| && data == SegData(now.image, elf.segs[ph])
    ensures ItemMover(tools, meta)(now, elf, idx) == TreesElf(tools, elf, ph, data, Scan(data))
  {
    assert ItemMover(tools, meta)(now, elf, idx) == ItemElf(tools, now.image, elf, idx + meta + 1);
  }

  lemma CheckIsTrees(tools: Tools, now: Tally, elf: Elf, meta: nat, i: nat, idx: nat, ph: nat, data: seq<byte>)
    requires ph == idx + meta + 1 < |elf.segs| && data == SegData(now.image, elf.segs[ph])
    ensures ItemChecker(tools, meta, i)(now, elf, idx) == TreesOk(tools, now, elf, ph, meta, i, data, Scan(data))
  {
    assert ItemChecker(tools, meta, i)(now, elf, idx) == ItemOk(tools, now, elf, meta, i, idx + meta + 1);
  }

  lemma ItemStep(tools: Tools, now: Tally, next: Tally, elf: Elf, meta: nat, idx: nat, ph: nat, i: nat)
    returns (elf': Elf)
    requires Sound(now.image, elf, meta) && Payload(elf, i) && i != meta && ph == idx + meta + 1
    requires ItemChecker(tools, meta, i)(now, elf, idx) && ItemStepper(tools, meta)(now, idx) == Some(next)
    ensures elf' == ItemMover(tools, meta)(now, elf, idx)
    ensures Sound(next.image, elf', meta) && |elf'.segs| == |elf.segs| && Payload(elf', i)
    ensures SegData(next.image, elf'.segs[i])
         == if i == ph then FinalData(tools, SegData(now.image, elf.segs[i])) else SegData(now.image, elf.segs[i])
    ensures ItemsMatch(now.image, elf, meta) ==> ItemsMatch(next.image, elf', meta)
  {
    if ph < |elf.segs| {
      var data := SegData(now.image, elf.segs[ph]);
      StepIsTrees(tools, now, elf, meta, idx, ph, data);
      MoveIsTrees(tools, now, elf, meta, idx, ph, data);
      CheckIsTrees(tools, now, elf, meta, i, idx, ph, data);
      elf' := TreesElf(tools, elf, ph, data, Scan(data));
      TreesRun(tools, now, next, elf, ph, meta, data, Scan(data), i);
    } else {
      elf' := elf;
      NoSuchSegment(tools, now, elf, meta, idx);
    }
  }

  /** `ok` in every state that the steps pass through. */
  predicate StepsOk(step: (Tally, nat) -> Option<Tally>, ok: ItemCheck, move: ItemMove,
                    now: Tally, elf: Elf, idx: nat, count: nat)
    decreases Max(0, count - idx)
  {
    idx < count ==>
      && ok(now, elf, idx)
      && (step(now, idx).Some? ==>
            StepsOk(step, ok, move, step(now, idx).value, move(now, elf, idx), idx + 1, count))
  }

  /** What is watched over the steps: `good` must hold, `data` is what segment `i` holds,
      `match` is kept. */
  datatype Watch = Watch(good: (Tally, Elf) -> bool, data: (Tally, Elf) -> seq<byte>, match_: (Tally, Elf) -> bool)

  predicate StepDone(w: Watch, final: seq<byte> -> seq<byte>, now: Tally, next: Tally, elf: Elf, elf': Elf, hit: bool) {
    && w.good(next, elf')
    && w.data(next, elf') == (if hit then final(w.data(now, elf)) else w.data(now, elf))
    && (w.match_(now, elf) ==> w.match_(next, elf'))
  }

  /** Step number `at` turns the data into its final form, the others leave it. */
  ghost predicate StepLaw(w: Watch, final: seq<byte> -> seq<byte>, step: (Tally, nat) -> Option<Tally>,
                          ok: ItemCheck, move: ItemMove, at: int)
  {
    forall now: Tally, elf: Elf, idx: nat ::
      w.good(now, elf) && ok(now, elf, idx) && step(now, idx).Some? ==>
        StepDone(w, final, now, step(now, idx).value, elf, move(now, elf, idx), idx == at)
  }

  lemma {:induction false} StepsRun(w: Watch, final: seq<byte> -> seq<byte>, step: (Tally, nat) -> Option<Tally>,
                                    ok: ItemCheck, move: ItemMove, at: int,
                                    now: Tally, end: Tally, elf: Elf, idx: nat, count: nat)
    returns (last: Elf)
    requires StepLaw(w, final, step, ok, move, at) && StepsOk(step, ok, move, now, elf, idx, count)
    requires w.good(now, elf) && Steps(step, now, idx, count) == Some(end)
    ensures StepDone(w, final, now, end, elf, last, idx <= at < count)
    decreases Max(0, count - idx)
  {
    if idx >= count {
      last := elf;
    } else {
      var next, elf' := step(now, idx).value, move(now, elf, idx);
      assert StepDone(w, final, now, next, elf, elf', idx == at);
      last := StepsRun(w, final, step, ok, move, at, next, end, elf', idx + 1, count);
    }
  }

  ghost function SegmentWatch(meta: nat, i: nat, n: nat): Watch {
    Watch((now: Tally, elf: Elf) => Sound(now.image, elf, meta) && Payload(elf, i) && |elf.segs| == n,
          (now: Tally, elf: Elf) => if i < |elf.segs| then SegData(now.image, elf.segs[i]) else [],
          (now: Tally, elf: Elf) => ItemsMatch(now.image, elf, meta))
  }

  function Finally(tools: Tools): seq<byte> -> seq<byte> {
    (data: seq<byte>) => FinalData(tools, data)
  }

  lemma ItemLaw(tools: Tools, meta: nat, i: nat, n: nat)
    requires i != meta
    ensures StepLaw(SegmentWatch(meta, i, n), Finally(tools), ItemStepper(tools, meta),
                    ItemChecker(tools, meta, i), ItemMover(tools, meta), i - (meta + 1))
  {
    var w, final := SegmentWatch(meta, i, n), Finally(tools);
    var step, ok, move := ItemStepper(tools, meta), ItemChecker(tools, meta, i), ItemMover(tools, meta);
    forall now: Tally, elf: Elf, idx: nat | w.good(now, elf) && ok(now, elf, idx) && step(now, idx).Some?
      ensures StepDone(w, final, now, step(now, idx).value, elf, move(now, elf, idx), idx == i - (meta + 1))
    {
      ItemDone(tools, meta, i, n, w, now, step(now, idx).value, elf, idx);
    }
  }

  lemma ItemDone(tools: Tools, meta: nat, i: nat, n: nat, w: Watch, now: Tally, next: Tally, elf: Elf, idx: nat)
    requires i != meta && w == SegmentWatch(meta, i, n) && w.good(now, elf)
    requires ItemChecker(tools, meta, i)(now, elf, idx) && ItemStepper(tools, meta)(now, idx) == Some(next)
    ensures StepDone(w, Finally(tools), now, next, elf, ItemMover(tools, meta)(now, elf, idx), idx == i - (meta + 1))
  {
    var elf' := ItemStep(tools, now, next, elf, meta, idx, idx + meta + 1, i);
  }

  /** Every item's segment is fit to be patched in the state the run reaches it in, and no
      digest is found in segment `i`. */
  predicate ItemsOk(tools: Tools, raw: seq<byte>, elf: Elf, meta: nat, i: nat, count: nat) {
    StepsOk(ItemStepper(tools, meta), ItemChecker(tools, meta, i), ItemMover(tools, meta), Tally(raw, 0, 0, 0), elf, 0, count)
  }

  /** The output of `_patch_xbl_config`: item sizes and file sizes still agree, the segment
      of an item holds what it held with the last of its certificate-bearing device trees
      patched, and any other segment behind the headers its own bytes, if no digest is found
      in it, in the headers or in the metadata. */
  lemma PatchXblSegments(tools: Tools, raw: seq<byte>, elf: Elf, meta: nat, end: Tally, i: nat)
    returns (last: Elf)
    requires ParseElf(raw) == Some(elf) && FileLayout(elf, meta, |raw|) && ItemsMatch(raw, elf, meta)
    requires ItemsOk(tools, raw, elf, meta, i, |MetaItems(raw, elf, meta).value|)
    requires PatchXbl(tools, raw, meta) == Some(end)
    requires Payload(elf, i) && i != meta
    ensures ParseElf(end.image) == Some(last) && |last.segs| == |elf.segs| && ItemsMatch(end.image, last, meta)
    ensures SegData(end.image, last.segs[i])
         == if 0 <= i - (meta + 1) < |MetaItems(raw, elf, meta).value| then FinalData(tools, SegData(raw, elf.segs[i]))
            else SegData(raw, elf.segs[i])
  {
    var start, count := Tally(raw, 0, 0, 0), |MetaItems(raw, elf, meta).value|;
    var w := SegmentWatch(meta, i, |elf.segs|);
    ItemLaw(tools, meta, i, |elf.segs|);
    assert w.good(start, elf);
    last := StepsRun(w, Finally(tools), ItemStepper(tools, meta), ItemChecker(tools, meta, i),
                     ItemMover(tools, meta), i - (meta + 1), start, end, elf, 0, count);
  }
}
