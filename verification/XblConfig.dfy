// The XBLConfig path: `_replace_ph` puts new contents into one segment and
// repairs headers, metadata and digests; `_patch_xbl_config` calls it for every
// certificate-bearing device tree.
module XblConfig {
  import opened Bytes
  import opened DtbScan
  import opened SegmentRebuild
  import opened ElfImage
  import opened Resize
  import opened ElfBuffer
  import opened UefiDtbs
  import opened XblMetadata

  // ---------------------------------------------------------------------
  // The bytes of the segment
  // ---------------------------------------------------------------------

  /** `raw[from:]` */
  function TailFrom(raw: seq<byte>, from: nat): seq<byte> {
    raw[Min(from, |raw|)..]
  }

  /** A segment of `old_` bytes at `off` overwritten by `new_`: a smaller one is filled up
      with zeros, a larger one pushes the tail back. */
  function ResizeImage(raw: seq<byte>, off: nat, old_: nat, new_: seq<byte>): seq<byte> {
    var n := |new_|;
    var over := Splice(raw, off, off + n, new_);
    if n == old_ then over
    else if n < old_ then Splice(over, off + n, off + old_, Fill(old_ - n, 0))
    else
      var tail := TailFrom(raw, off + old_);
      Splice(over, off + n, off + n + |tail|, tail) + Fill(n - old_, 0)
  }

  /** By how much later offsets move: not at all when the segment shrinks. */
  function ShiftFor(old_: nat, n: nat): nat {
    if n > old_ then n - old_ else 0
  }

  // ---------------------------------------------------------------------
  // The metadata
  // ---------------------------------------------------------------------

  /** The metadata items; None for every exception on the way to them. */
  function MetaItems(raw: seq<byte>, elf: Elf, meta: nat): Option<seq<MetaItem>> {
    if meta >= |elf.segs| then None
    else
      var blob := SegData(raw, elf.segs[meta]);
      var h :- ParseMetaHeader(blob);
      ItemsFrom(blob, META_HEADER_SIZE, h.entries)
  }

  /** Where the `item_size` of segment `t` is written. None when there is no such item or
      the metadata does not parse. */
  function ItemSizePos(raw: seq<byte>, elf: Elf, t: nat, meta: nat): Option<nat> {
    if t < meta + 1 then None
    else
      var items :- MetaItems(raw, elf, meta);
      if t - (meta + 1) >= |items| then None
      else Some(elf.segs[meta].offset + items[t - (meta + 1)].startOff + ITEM_SIZE_FIELD)
  }

  /** A size that does not fit the field is reported and skipped. */
  function WriteItemSize(raw: seq<byte>, img: seq<byte>, elf: Elf, t: nat, meta: nat, size: nat): seq<byte> {
    var pos := ItemSizePos(raw, elf, t, meta);
    if pos.Some? && size < Pow256(4) then Put(img, pos.value, Le(size, 4)) else img
  }

  // ---------------------------------------------------------------------
  // The digests
  // ---------------------------------------------------------------------

  /** Segment `i` with the digest it had, unless it is the target or holds nothing. */
  function SideEffect(tools: Tools, raw: seq<byte>, elf: Elf, t: nat, i: nat): seq<(nat, Digest)> {
    if i == t || i >= |elf.segs| || SegData(raw, elf.segs[i]) == [] then []
    else [(i, tools.sha384(SegData(raw, elf.segs[i])))]
  }

  /** Segment `i` is not the target, holds something, and `d` is its digest. */
  predicate Written(tools: Tools, raw: seq<byte>, elf: Elf, t: nat, i: nat, d: Digest) {
    i != t && i < |elf.segs| && SegData(raw, elf.segs[i]) != [] && d == tools.sha384(SegData(raw, elf.segs[i]))
  }

  /** The segments that a replacement writes into besides the target. */
  function SideEffects(tools: Tools, raw: seq<byte>, elf: Elf, t: nat, meta: nat): seq<(nat, Digest)> {
    SideEffect(tools, raw, elf, t, 0) + if meta == 0 then [] else SideEffect(tools, raw, elf, t, meta)
  }

  /** Old and new digest of those that have changed. */
  function SidePairs(tools: Tools, img: seq<byte>, segs: seq<Seg>, side: seq<(nat, Digest)>): seq<DigestPair> {
    if side == [] then []
    else
      var (i, was) := side[0];
      var rest := SidePairs(tools, img, segs, side[1..]);
      if i >= |segs| then rest
      else
        var is_ := tools.sha384(SegData(img, segs[i]));
        if was == is_ then rest else [(was, is_)] + rest
  }

  // ---------------------------------------------------------------------
  // One replacement
  // ---------------------------------------------------------------------

  /** From the image with headers and metadata written: the digest of the target, then
      those of the side effects. */
  function ReplaceDigests(tools: Tools, raw: seq<byte>, sized: seq<byte>, elf: Elf, t: nat, new_: seq<byte>, meta: nat)
    : seq<byte>
    requires t < |elf.segs|
  {
    var hashed := ReplaceAll(sized, sized, [(tools.sha384(SegData(raw, elf.segs[t])), tools.sha384(new_))], 0, |sized|);
    ReplaceAll(hashed, hashed, SidePairs(tools, hashed, elf.segs, SideEffects(tools, raw, elf, t, meta)), 0, |hashed|)
  }

  /** `_replace_ph`. None is an exception: no such segment, or a header value that does
      not fit. */
  function ReplacePh(tools: Tools, raw: seq<byte>, t: nat, new_: seq<byte>, meta: nat): Option<seq<byte>> {
    var elf :- ParseElf(raw);
    if t >= |elf.segs| then None
    else
      var s := elf.segs[t];
      var img := ResizeImage(raw, s.offset, s.filesz, new_);
      var fixed :- HeaderWrites(img, elf, t, s.offset, ShiftFor(s.filesz, |new_|), |new_|);
      Some(ReplaceDigests(tools, raw, WriteItemSize(raw, fixed, elf, t, meta, |new_|), elf, t, new_, meta))
  }

  method ResizeSegment(image: Image, off: nat, old_: nat, new_: seq<byte>)
    modifies image
    ensures image.data == ResizeImage(old(image.data), off, old_, new_)
  {
    var n := |new_|;
    if n <= old_ {
      image.data := Splice(image.data, off, off + n, new_);
      if n < old_ {
        image.data := Splice(image.data, off + n, off + old_, Fill(old_ - n, 0));
      }
    } else {
      var tail := TailFrom(image.data, off + old_);
      image.data := Splice(image.data, off, off + n, new_);
      var newTailStart := off + n;
      image.data := Splice(image.data, newTailStart, newTailStart + |tail|, tail);
      image.data := image.data + Fill(n - old_, 0);
    }
  }

  method ListSideEffects(tools: Tools, raw: seq<byte>, elf: Elf, t: nat, meta: nat) returns (side: seq<(nat, Digest)>)
    ensures side == SideEffects(tools, raw, elf, t, meta)
    ensures forall i, d :: (i, d) in side <==> (i == 0 || i == meta) && Written(tools, raw, elf, t, i, d)
  {
    var phs := if meta == 0 then [0] else [0, meta];
    side := [];
    for k := 0 to |phs|
      invariant side + (if k == 0 then SideEffects(tools, raw, elf, t, meta)
                        else if k < |phs| then SideEffect(tools, raw, elf, t, meta) else [])
             == SideEffects(tools, raw, elf, t, meta)
      invariant forall j, d :: (j, d) in side <==> j in phs[..k] && Written(tools, raw, elf, t, j, d)
    {
      var i := phs[k];
      if i != t && i < |elf.segs| {
        var data := SegData(raw, elf.segs[i]);
        if data != [] {
          side := side + [(i, tools.sha384(data))];
        }
      }
    }
  }

  /** The second round of digest updates, against a snapshot of the image. */
  method UpdateSideDigests(tools: Tools, image: Image, segs: seq<Seg>, side: seq<(nat, Digest)>)
    requires forall k :: 0 <= k < |side| ==> side[k].0 < |segs|
    modifies image
    ensures image.data == ReplaceAll(old(image.data), old(image.data), SidePairs(tools, old(image.data), segs, side),
                                     0, |old(image.data)|)
  {
    var base := image.data;
    ghost var goal := ReplaceAll(base, base, SidePairs(tools, base, segs, side), 0, |base|);
    for k := 0 to |side|
      invariant ReplaceAll(base, image.data, SidePairs(tools, base, segs, side[k..]), 0, |base|) == goal
    {
      assert side[k..][1..] == side[k + 1..];
      var (i, was) := side[k];
      var is_ := tools.sha384(SegData(base, segs[i]));
      if was != is_ {
        ghost var rest := SidePairs(tools, base, segs, side[k + 1..]);
        assert ([(was, is_)] + rest)[1..] == rest;
        var hit := Find(base, was, 0, |base|);
        if hit.Some? {
          image.data := Put(image.data, hit.value, is_);
        }
      }
    }
  }

  lemma SideInRange(tools: Tools, raw: seq<byte>, elf: Elf, t: nat, meta: nat)
    ensures forall k :: 0 <= k < |SideEffects(tools, raw, elf, t, meta)| ==>
                          SideEffects(tools, raw, elf, t, meta)[k].0 < |elf.segs|
  {
  }

  /** The digest updates that end a replacement. */
  method ReplaceDigestsIn(tools: Tools, image: Image, raw: seq<byte>, elf: Elf, t: nat, new_: seq<byte>, meta: nat,
                          side: seq<(nat, Digest)>)
    requires t < |elf.segs| && side == SideEffects(tools, raw, elf, t, meta)
    modifies image
    ensures image.data == ReplaceDigests(tools, raw, old(image.data), elf, t, new_, meta)
  {
    UpdateDigests(image, [(tools.sha384(SegData(raw, elf.segs[t])), tools.sha384(new_))], 0, |image.data|);
    SideInRange(tools, raw, elf, t, meta);
    UpdateSideDigests(tools, image, elf.segs, side);
  }

  method ReplaceSegment(tools: Tools, image: Image, t: nat, new_: seq<byte>, meta: nat) returns (ok: bool)
    modifies image
    ensures ReplacePh(tools, old(image.data), t, new_, meta) == if ok then Some(image.data) else None
  {
    var raw := image.data;
    var parsed := ParseElf(raw);
    if parsed.None? || t >= |parsed.value.segs| {
      return false;
    }
    var elf := parsed.value;
    var s := elf.segs[t];
    var side := ListSideEffects(tools, raw, elf, t, meta);
    ResizeSegment(image, s.offset, s.filesz, new_);
    ok := FixHeaders(image, elf, t, s.offset, ShiftFor(s.filesz, |new_|), |new_|);
    if ok {
      var pos := ItemSizePos(raw, elf, t, meta);
      if pos.Some? && |new_| < Pow256(4) {
        image.data := Put(image.data, pos.value, Le(|new_|, 4));
      }
      ReplaceDigestsIn(tools, image, raw, elf, t, new_, meta, side);
    }
  }

  // ---------------------------------------------------------------------
  // The loop over items and device trees
  // ---------------------------------------------------------------------

  datatype Tally = Tally(image: seq<byte>, patched: nat, skipped: nat, errors: nat)

  /** The device trees `ds` of segment `ph`. Each is cut from `segData` and spliced into
      it, as it was before any of them was replaced. */
  function PatchTrees(tools: Tools, now: Tally, ph: nat, meta: nat, segData: seq<byte>, ds: seq<Dtb>): Option<Tally>
    decreases ds
  {
    if ds == [] then Some(now)
    else
      var next :- PatchTree(tools, now, ph, meta, segData, ds[0]);
      PatchTrees(tools, next, ph, meta, segData, ds[1..])
  }

  function PatchTree(tools: Tools, now: Tally, ph: nat, meta: nat, segData: seq<byte>, d: Dtb): Option<Tally> {
    match tools.patchDtb(Slice(segData, d.off, d.End()))
    case Skipped => Some(now.(skipped := now.skipped + 1))
    case Failed => Some(now.(errors := now.errors + 1))
    case Patched(p) =>
      var image :- ReplacePh(tools, now.image, ph, Splice(segData, d.off, d.End(), p), meta);
      if ParseElf(image).None? then None
      else Some(now.(image := image, patched := now.patched + 1))
  }

  /** Steps `idx`, ..., `count - 1` in order; the first that fails ends them. */
  function Steps<S>(step: (S, nat) -> Option<S>, now: S, idx: nat, count: nat): Option<S>
    decreases Max(0, count - idx)
  {
    if idx >= count then Some(now)
    else
      var next :- step(now, idx);
      Steps(step, next, idx + 1, count)
  }

  /** Segments that do not exist are passed over. */
  function PatchItem(tools: Tools, now: Tally, meta: nat, idx: nat): Option<Tally> {
    var elf :- ParseElf(now.image);
    var ph := idx + meta + 1;
    if ph >= |elf.segs| then Some(now)
    else
      var segData := SegData(now.image, elf.segs[ph]);
      PatchTrees(tools, now, ph, meta, segData, Scan(segData))
  }

  function ItemStepper(tools: Tools, meta: nat): (Tally, nat) -> Option<Tally> {
    (now: Tally, idx: nat) => PatchItem(tools, now, meta, idx)
  }

  /** The segments of all items, in order. */
  function PatchItems(tools: Tools, now: Tally, meta: nat, idx: nat, count: nat): Option<Tally> {
    Steps(ItemStepper(tools, meta), now, idx, count)
  }

  function PatchXbl(tools: Tools, raw: seq<byte>, meta: nat): Option<Tally> {
    var elf :- ParseElf(raw);
    var items :- MetaItems(raw, elf, meta);
    PatchItems(tools, Tally(raw, 0, 0, 0), meta, 0, |items|)
  }

  /** How a run that gets to its end leaves: errors exit with status 1, and if nothing has
      been patched, for lack of the property, a ValueError is raised. */
  datatype Leave = Finished | ExitOne | NoProperty

  function LeaveOf(end: Tally): Leave {
    if end.errors > 0 then ExitOne else if end.patched == 0 then NoProperty else Finished
  }

  /** All of `_patch_xbl_config`; None is any other exception. */
  function XblOutcome(tools: Tools, raw: seq<byte>, meta: nat): Option<(Tally, Leave)> {
    var end :- PatchXbl(tools, raw, meta);
    Some((end, LeaveOf(end)))
  }

  method PatchTreeIn(tools: Tools, now: Tally, ph: nat, meta: nat, segData: seq<byte>, d: Dtb)
    returns (next: Option<Tally>)
    ensures next == PatchTree(tools, now, ph, meta, segData, d)
  {
    var dtbBytes := Slice(segData, d.off, d.End());
    match tools.patchDtb(dtbBytes) {
      case Skipped =>
        next := Some(now.(skipped := now.skipped + 1));
      case Failed =>
        next := Some(now.(errors := now.errors + 1));
      case Patched(p) =>
        var image := new Image(now.image);
        var ok := ReplaceSegment(tools, image, ph, Splice(segData, d.off, d.End(), p), meta);
        if !ok || ParseElf(image.data).None? {
          return None;
        }
        next := Some(now.(image := image.data, patched := now.patched + 1));
    }
  }

  method PatchXblSegment(tools: Tools, start: Tally, ph: nat, meta: nat, segData: seq<byte>)
    returns (end: Option<Tally>)
    ensures end == PatchTrees(tools, start, ph, meta, segData, Scan(segData))
  {
    var ds := ScanDtbs(segData);
    var now := start;
    ghost var goal := PatchTrees(tools, start, ph, meta, segData, ds);
    for k := 0 to |ds|
      invariant PatchTrees(tools, now, ph, meta, segData, ds[k..]) == goal
    {
      assert ds[k..][1..] == ds[k + 1..];
      var next := PatchTreeIn(tools, now, ph, meta, segData, ds[k]);
      if next.None? {
        return None;
      }
      now := next.value;
    }
    end := Some(now);
  }

  method PatchItemIn(tools: Tools, now: Tally, meta: nat, idx: nat) returns (next: Option<Tally>)
    ensures next == PatchItem(tools, now, meta, idx)
  {
    var parsed := ParseElf(now.image);
    if parsed.None? {
      return None;
    }
    var ph := idx + meta + 1;
    if ph >= |parsed.value.segs| {
      return Some(now);
    }
    next := PatchXblSegment(tools, now, ph, meta, SegData(now.image, parsed.value.segs[ph]));
  }

  method PatchXblConfig(tools: Tools, raw: seq<byte>, meta: nat) returns (out: Option<(Tally, Leave)>)
    ensures out == XblOutcome(tools, raw, meta)
  {
    var parsed := ParseElf(raw);
    var items := if parsed.Some? then MetaItems(raw, parsed.value, meta) else None;
    if items.None? {
      return None;
    }
    var end := PatchXblItems(tools, raw, meta, |items.value|);
    if end.None? {
      return None;
    }
    var leave := Finished;
    if end.value.errors > 0 {
      leave := ExitOne;
    } else if end.value.patched == 0 {
      leave := NoProperty;
    }
    out := Some((end.value, leave));
  }

  method PatchXblItems(tools: Tools, raw: seq<byte>, meta: nat, count: nat) returns (end: Option<Tally>)
    ensures end == PatchItems(tools, Tally(raw, 0, 0, 0), meta, 0, count)
  {
    var now := Tally(raw, 0, 0, 0);
    for idx := 0 to count
      invariant PatchItems(tools, now, meta, idx, count) == PatchItems(tools, Tally(raw, 0, 0, 0), meta, 0, count)
    {
      var next := PatchItemIn(tools, now, meta, idx);
      if next.None? {
        return None;
      }
      now := next.value;
    }
    end := Some(now);
  }
}
