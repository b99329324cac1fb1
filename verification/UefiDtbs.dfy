// `_patch_uefi_dtbs`: every segment that holds device trees is rebuilt,
// spliced back, the headers are fixed and the digests of what changed are
// replaced in the hash segment.
module UefiDtbs {
  import opened Bytes
  import opened DtbScan
  import opened SegmentRebuild
  import opened ElfImage
  import opened Resize
  import opened ElfBuffer

  // ---------------------------------------------------------------------
  // Replacing digests
  // ---------------------------------------------------------------------

  type DigestPair = (Digest, Digest)

  /** Each old digest is looked up in the frozen image `base[lo:hi]`, and where it is
      found the new one is written into `out`. */
  function ReplaceAll(base: seq<byte>, out: seq<byte>, pairs: seq<DigestPair>, lo: nat, hi: nat): seq<byte>
    decreases pairs
  {
    if pairs == [] then out
    else
      var hit := Find(base, pairs[0].0, lo, hi);
      ReplaceAll(base, if hit.Some? then Put(out, hit.value, pairs[0].1) else out, pairs[1..], lo, hi)
  }

  /** The first PT_NULL segment at or after `i`. */
  function HashIndex(segs: seq<Seg>, i: nat): Option<nat>
    decreases Max(0, |segs| - i)
  {
    if i >= |segs| then None
    else if segs[i].ptype == PT_NULL then Some(i)
    else HashIndex(segs, i + 1)
  }

  lemma {:induction false} HashIndexBound(segs: seq<Seg>, i: nat)
    ensures var h := HashIndex(segs, i); h.Some? ==> i <= h.value < |segs|
    decreases Max(0, |segs| - i)
  {
    if i < |segs| && segs[i].ptype != PT_NULL {
      HashIndexBound(segs, i + 1);
    }
  }

  /** Segment `h` is behind segment `t` and is the first one there whose type is 0. */
  predicate FirstNull(segs: seq<Seg>, t: nat, h: nat) {
    t < h < |segs| && segs[h].ptype == 0 && forall k :: t < k < h ==> segs[k].ptype != 0
  }

  /** No segment behind segment `t` has type 0. */
  predicate NoNull(segs: seq<Seg>, t: nat) {
    forall k :: t < k < |segs| ==> segs[k].ptype != 0
  }

  lemma {:induction false} HashIndexFirst(segs: seq<Seg>, i: nat, h: nat)
    requires i <= h < |segs| && segs[h].ptype == 0 && forall k :: i <= k < h ==> segs[k].ptype != 0
    ensures HashIndex(segs, i) == Some(h)
    decreases h - i
  {
    if i < h {
      HashIndexFirst(segs, i + 1, h);
    }
  }

  lemma {:induction false} HashIndexNone(segs: seq<Seg>, i: nat)
    requires forall k :: i <= k < |segs| ==> segs[k].ptype != 0
    ensures HashIndex(segs, i) == None
    decreases Max(0, |segs| - i)
  {
    if i < |segs| {
      HashIndexNone(segs, i + 1);
    }
  }

  /** Digests are searched in the first segment of type 0 behind segment `t` ... */
  lemma RegionFirst(segs: seq<Seg>, t: nat, h: nat, n: nat)
    requires FirstNull(segs, t, h)
    ensures HashRegion(segs, t, n) == (segs[h].offset, segs[h].End())
  {
    HashIndexFirst(segs, t + 1, h);
  }

  /** ... and in the whole file of `n` bytes if there is none. */
  lemma RegionAll(segs: seq<Seg>, t: nat, n: nat)
    requires NoNull(segs, t)
    ensures HashRegion(segs, t, n) == (0, n)
  {
    HashIndexNone(segs, t + 1);
  }

  /** Where digests are searched: the hash segment behind segment `t`, or everywhere. */
  function HashRegion(segs: seq<Seg>, t: nat, n: nat): (nat, nat) {
    HashIndexBound(segs, t + 1);
    match HashIndex(segs, t + 1)
    case Some(h) => (segs[h].offset, segs[h].End())
    case None => (0, n)
  }

  // ---------------------------------------------------------------------
  // One segment
  // ---------------------------------------------------------------------

  predicate IsTouched(tools: Tools, data: seq<byte>) {
    ScanInOrder(data);
    Touched(tools, data, Scan(data), 0)
  }

  function SegmentPairs(tools: Tools, data: seq<byte>): seq<DigestPair> {
    ScanInOrder(data);
    DigestPairs(tools, data, Scan(data), 0)
  }

  function SegmentReports(tools: Tools, data: seq<byte>, t: nat): seq<Report> {
    ScanInOrder(data);
    Reports(tools, data, Scan(data), 0, 0, t, 0)
  }

  /** The digests of what changes: the device trees, the segment, and, when the segment
      has changed size, the ELF header segment. */
  function Updates(tools: Tools, raw: seq<byte>, fixed: seq<byte>, ph0: Seg, data: seq<byte>): seq<DigestPair> {
    var new_ := Rebuilt(tools, data);
    SegmentPairs(tools, data) + [(tools.sha384(data), tools.sha384(new_))]
    + if |new_| != |data| && ph0.filesz > 0
      then [(tools.sha384(SegData(raw, ph0)), tools.sha384(SegData(fixed, ph0)))] else []
  }

  /** The digest updates that end a turn; None when the rewritten image does not parse. */
  function Finish(tools: Tools, raw: seq<byte>, fixed: seq<byte>, ph0: Seg, data: seq<byte>, t: nat): Option<seq<byte>> {
    var elf :- ParseElf(fixed);
    var (lo, hi) := HashRegion(elf.segs, t, |fixed|);
    Some(ReplaceAll(fixed, fixed, Updates(tools, raw, fixed, ph0, data), lo, hi))
  }

  /** The image with segment `t`, which held `data`, replaced by its rebuilt form, but
      with the headers as they were. */
  function SpliceIn(tools: Tools, raw: seq<byte>, off: nat, data: seq<byte>): seq<byte> {
    Splice(raw, off, off + |data|, Rebuilt(tools, data))
  }

  /** From the spliced image on: the headers, then the digests. */
  function Rewrite(tools: Tools, raw: seq<byte>, spliced: seq<byte>, elf: Elf, t: nat, data: seq<byte>): Option<seq<byte>>
    requires t < |elf.segs|
  {
    var new_ := Rebuilt(tools, data);
    var fixed := HeaderWrites(spliced, elf, t, elf.segs[t].offset, |new_| - |data|, |new_|);
    if fixed.None? then None else Finish(tools, raw, fixed.value, elf.segs[0], data, t)
  }

  /** The image after segment `t` has been dealt with. None is an exception: no such
      segment, an image that does not parse, a header value that does not fit. */
  function PatchStep(tools: Tools, raw: seq<byte>, t: nat): Option<(seq<byte>, seq<Report>)> {
    var elf :- ParseElf(raw);
    if t >= |elf.segs| then None
    else
      var data := SegData(raw, elf.segs[t]);
      var next :- if IsTouched(tools, data)
                  then Rewrite(tools, raw, SpliceIn(tools, raw, elf.segs[t].offset, data), elf, t, data)
                  else Some(raw);
      Some((next, SegmentReports(tools, data, t)))
  }

  /** All the segments in `ts`, in order. */
  function PatchRun(tools: Tools, raw: seq<byte>, ts: seq<nat>): Option<(seq<byte>, seq<Report>)>
    decreases ts
  {
    if ts == [] then Some((raw, []))
    else
      var (next, reports) :- PatchStep(tools, raw, ts[0]);
      var (last, more) :- PatchRun(tools, next, ts[1..]);
      Some((last, reports + more))
  }

  /** The segments that hold device trees, from `i` on. */
  function DtbSegments(raw: seq<byte>, segs: seq<Seg>, i: nat): seq<nat>
    decreases Max(0, |segs| - i)
  {
    if i >= |segs| then []
    else (if Scan(SegData(raw, segs[i])) != [] then [i] else []) + DtbSegments(raw, segs, i + 1)
  }

  function PatchUefi(tools: Tools, raw: seq<byte>): Option<(seq<byte>, seq<Report>)> {
    var elf :- ParseElf(raw);
    PatchRun(tools, raw, DtbSegments(raw, elf.segs, 0))
  }

  // ---------------------------------------------------------------------
  // The program
  // ---------------------------------------------------------------------

  method UpdateDigests(image: Image, pairs: seq<DigestPair>, lo: nat, hi: nat)
    modifies image
    ensures image.data == ReplaceAll(old(image.data), old(image.data), pairs, lo, hi)
  {
    var base := image.data;
    for i := 0 to |pairs|
      invariant ReplaceAll(base, image.data, pairs[i..], lo, hi) == ReplaceAll(base, base, pairs, lo, hi)
    {
      assert pairs[i..][1..] == pairs[i + 1..];
      var hit := Find(base, pairs[i].0, lo, hi);
      if hit.Some? {
        image.data := Put(image.data, hit.value, pairs[i].1);
      }
    }
  }

  /** One turn of the outer loop. */
  method PatchOneSegment(tools: Tools, image: Image, t: nat) returns (ok: bool, reports: seq<Report>)
    modifies image
    ensures PatchStep(tools, old(image.data), t) == if ok then Some((image.data, reports)) else None
  {
    var parsed := ParseElf(image.data);
    if parsed.None? || t >= |parsed.value.segs| {
      return false, [];
    }
    var data := SegData(image.data, parsed.value.segs[t]);
    var p := PatchSegment(tools, data, t);
    reports := p.reports;
    ok := true;
    if p.modified {
      var raw, off := image.data, parsed.value.segs[t].offset;
      image.data := Splice(raw, off, off + |data|, p.segData);
      assert image.data == SpliceIn(tools, raw, off, data);
      ok := RewriteSegment(tools, image, raw, parsed.value, t, data, p);
    }
  }

  /** The part of a turn that follows the splice. */
  method RewriteSegment(tools: Tools, image: Image, raw: seq<byte>, elf: Elf, t: nat, data: seq<byte>, p: Progress)
    returns (ok: bool)
    requires t < |elf.segs| && p.segData == Rebuilt(tools, data) && p.pairs == SegmentPairs(tools, data)
    modifies image
    ensures Rewrite(tools, raw, old(image.data), elf, t, data) == if ok then Some(image.data) else None
  {
    ok := FixHeaders(image, elf, t, elf.segs[t].offset, |p.segData| - |data|, |p.segData|);
    if ok {
      ok := FinishSegment(tools, image, raw, elf.segs[0], data, t, p);
    }
  }

  method FinishSegment(tools: Tools, image: Image, raw: seq<byte>, ph0: Seg, data: seq<byte>, t: nat, p: Progress)
    returns (ok: bool)
    requires p.segData == Rebuilt(tools, data) && p.pairs == SegmentPairs(tools, data)
    modifies image
    ensures Finish(tools, raw, old(image.data), ph0, data, t) == if ok then Some(image.data) else None
  {
    var fixed := image.data;
    var parsed := ParseElf(fixed);
    if parsed.None? {
      return false;
    }
    var (lo, hi) := HashRegion(parsed.value.segs, t, |fixed|);
    var pairs := p.pairs + [(tools.sha384(data), tools.sha384(p.segData))];
    if |p.segData| != |data| && ph0.filesz > 0 {
      pairs := pairs + [(tools.sha384(SegData(raw, ph0)), tools.sha384(SegData(fixed, ph0)))];
    } else {
      assert pairs + [] == pairs;
    }
    UpdateDigests(image, pairs, lo, hi);
    ok := true;
  }

  method PatchUefiDtbs(tools: Tools, raw: seq<byte>) returns (out: Option<(seq<byte>, seq<Report>)>)
    ensures out == PatchUefi(tools, raw)
  {
    var parsed := ParseElf(raw);
    if parsed.None? {
      return None;
    }
    var ts := ListDtbSegments(raw, parsed.value.segs);
    out := PatchListed(tools, raw, ts);
  }

  /** The outer loop. */
  method PatchListed(tools: Tools, raw: seq<byte>, ts: seq<nat>) returns (out: Option<(seq<byte>, seq<Report>)>)
    ensures out == PatchRun(tools, raw, ts)
  {
    var image := new Image(raw);
    var results: seq<Report> := [];
    ghost var goal := PatchRun(tools, raw, ts);
    RunStart(tools, raw, ts);
    for k := 0 to |ts|
      invariant RunFrom(tools, image.data, ts[k..], results) == goal
    {
      assert ts[k..][1..] == ts[k + 1..];
      RunStep(tools, image.data, ts[k..], results);
      var ok, reports := PatchOneSegment(tools, image, ts[k]);
      if !ok {
        return None;
      }
      results := results + reports;
    }
    assert results + [] == results;
    out := Some((image.data, results));
  }

  lemma RunStart(tools: Tools, raw: seq<byte>, ts: seq<nat>)
    ensures RunFrom(tools, raw, ts, []) == PatchRun(tools, raw, ts)
  {
    var run := PatchRun(tools, raw, ts);
    if run.Some? {
      assert [] + run.value.1 == run.value.1;
    }
  }

  ghost function RunFrom(tools: Tools, raw: seq<byte>, ts: seq<nat>, so_far: seq<Report>)
    : Option<(seq<byte>, seq<Report>)>
  {
    var (last, more) :- PatchRun(tools, raw, ts);
    Some((last, so_far + more))
  }

  lemma RunStep(tools: Tools, raw: seq<byte>, ts: seq<nat>, so_far: seq<Report>)
    requires ts != []
    ensures RunFrom(tools, raw, ts, so_far)
         == match PatchStep(tools, raw, ts[0])
            case None => None
            case Some((next, reports)) => RunFrom(tools, next, ts[1..], so_far + reports)
  {
    var step := PatchStep(tools, raw, ts[0]);
    if step.Some? {
      var rest := PatchRun(tools, step.value.0, ts[1..]);
      if rest.Some? {
        assert so_far + (step.value.1 + rest.value.1) == so_far + step.value.1 + rest.value.1;
      }
    }
  }

  lemma ListedNext(raw: seq<byte>, segs: seq<Seg>, i: nat, ts: seq<nat>)
    requires i < |segs|
    ensures ts + DtbSegments(raw, segs, i)
         == (if Scan(SegData(raw, segs[i])) != [] then ts + [i] else ts) + DtbSegments(raw, segs, i + 1)
  {
  }

  method ListDtbSegments(raw: seq<byte>, segs: seq<Seg>) returns (ts: seq<nat>)
    ensures ts == DtbSegments(raw, segs, 0)
  {
    ts := [];
    for i := 0 to |segs|
      invariant ts + DtbSegments(raw, segs, i) == DtbSegments(raw, segs, 0)
    {
      ListedNext(raw, segs, i, ts);
      var ds := ScanDtbs(SegData(raw, segs[i]));
      if ds != [] {
        ts := ts + [i];
      }
    }
  }
}
