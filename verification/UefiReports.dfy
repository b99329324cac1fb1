// What `_patch_uefi_dtbs` reports: for every segment one report for each device
// tree it originally held, segment after segment.
module UefiReports {
  import opened Bytes
  import opened DtbScan
  import opened SegmentRebuild
  import opened ElfImage
  import opened Resize
  import opened UefiDtbs
  import opened UefiRun

  /** The reports on segment `i`. */
  function Of(rs: seq<Report>, i: nat): seq<Report> {
    if rs == [] then [] else (if rs[0].segment == i then [rs[0]] else []) + Of(rs[1..], i)
  }

  lemma {:induction false} OfConcat(a: seq<Report>, b: seq<Report>, i: nat)
    ensures Of(a + b, i) == Of(a, i) + Of(b, i)
  {
    if a == [] {
      assert a + b == b && [] + Of(b, i) == Of(b, i);
    } else {
      var one := if a[0].segment == i then [a[0]] else [];
      assert (a + b)[1..] == a[1..] + b;
      OfConcat(a[1..], b, i);
      assert one + (Of(a[1..], i) + Of(b, i)) == one + Of(a[1..], i) + Of(b, i);
    }
  }

  lemma {:induction false} OfReports(tools: Tools, data: seq<byte>, ds: seq<Dtb>, e: nat, pos: nat, seg: nat, idx: nat, i: nat)
    requires InOrder(ds, e, |data|)
    ensures var rs := Reports(tools, data, ds, e, pos, seg, idx); Of(rs, i) == if i == seg then rs else []
    decreases ds
  {
    if ds != [] {
      var o := pos + (ds[0].off - e);
      var body := Body(data, ds[0]);
      var one := [Report(seg, idx, o, tools.patchDtb(body))];
      var rest := Reports(tools, data, ds[1..], ds[0].End(), o + |After(tools, body)|, seg, idx + 1);
      OfReports(tools, data, ds[1..], ds[0].End(), o + |After(tools, body)|, seg, idx + 1, i);
      assert (one + rest)[1..] == rest;
    }
  }

  lemma OfSegment(tools: Tools, data: seq<byte>, t: nat, i: nat)
    ensures Of(SegmentReports(tools, data, t), i) == if i == t then SegmentReports(tools, data, t) else []
  {
    ScanInOrder(data);
    OfReports(tools, data, Scan(data), 0, 0, t, 0, i);
  }

  /** The run's reports are those of its first step and those of the rest. */
  lemma ReportsHead(tools: Tools, raw: seq<byte>, elf: Elf, ts: seq<nat>) returns (next: seq<byte>, more: seq<Report>)
    requires ts != [] && ParseElf(raw) == Some(elf) && PatchRun(tools, raw, ts).Some?
    ensures ts[0] < |elf.segs| && PatchStep(tools, raw, ts[0]).Some? && PatchStep(tools, raw, ts[0]).value.0 == next
    ensures PatchRun(tools, next, ts[1..]).Some? && PatchRun(tools, next, ts[1..]).value.1 == more
    ensures PatchRun(tools, raw, ts).value.1 == SegmentReports(tools, SegData(raw, elf.segs[ts[0]]), ts[0]) + more
  {
    next := PatchStep(tools, raw, ts[0]).value.0;
    more := PatchRun(tools, next, ts[1..]).value.1;
  }

  /** A segment that is not listed is not reported on. */
  lemma {:induction false} NoReports(tools: Tools, raw: seq<byte>, ts: seq<nat>, i: nat)
    requires PatchRun(tools, raw, ts).Some? && i !in ts
    ensures Of(PatchRun(tools, raw, ts).value.1, i) == []
    decreases ts
  {
    if ts != [] {
      var elf := ParseElf(raw).value;
      var next, more := ReportsHead(tools, raw, elf, ts);
      var data := SegData(raw, elf.segs[ts[0]]);
      NoReports(tools, next, ts[1..], i);
      OfSegment(tools, data, ts[0], i);
      OfConcat(SegmentReports(tools, data, ts[0]), more, i);
    }
  }

  /** The reports on a listed segment are those on what it originally held. */
  lemma {:induction false} RunReports(tools: Tools, raw: seq<byte>, elf: Elf, ts: seq<nat>, i: nat)
    requires IsElf(raw, elf) && GoodLayout(elf) && AllBehind(elf, ts) && Once(ts) && PatchRun(tools, raw, ts).Some?
    requires Payload(elf, i) && RunSpares(tools, raw, elf, ts, i) && i in ts
    ensures Of(PatchRun(tools, raw, ts).value.1, i) == SegmentReports(tools, SegData(raw, elf.segs[i]), i)
    decreases ts
  {
    var t := ts[0];
    var data := SegData(raw, elf.segs[t]);
    var next, more := ReportsHead(tools, raw, elf, ts);
    OfSegment(tools, data, t, i);
    OfConcat(SegmentReports(tools, data, t), more, i);
    if i == t {
      NoReports(tools, next, ts[1..], i);
    } else {
      var fixed := StepCases(tools, raw, elf, t, data, next);
      var elf' := StepElf(tools, raw, elf, t);
      StepKeeps(tools, raw, elf, t, data, fixed, next, elf', i, ts[1..]);
      RunReports(tools, next, elf', ts[1..], i);
    }
  }

  /** The reports of `_patch_uefi_dtbs` on segment `i`: those on the device trees it held in
      the original image, whatever happened to the segments before it. */
  lemma PatchUefiReports(tools: Tools, raw: seq<byte>, elf: Elf, rs: seq<Report>, i: nat)
    requires ParseElf(raw) == Some(elf) && GoodLayout(elf)
    requires PatchUefi(tools, raw).Some? && PatchUefi(tools, raw).value.1 == rs
    requires AllBehind(elf, DtbSegments(raw, elf.segs, 0)) && Payload(elf, i)
    requires RunSpares(tools, raw, elf, DtbSegments(raw, elf.segs, 0), i)
    ensures Of(rs, i) == SegmentReports(tools, SegData(raw, elf.segs[i]), i)
  {
    var ts := DtbSegments(raw, elf.segs, 0);
    ListedOnce(raw, elf.segs, 0);
    ListedIff(raw, elf.segs, 0, i);
    if i in ts {
      RunReports(tools, raw, elf, ts, i);
    } else {
      NoReports(tools, raw, ts, i);
    }
  }

  // ---------------------------------------------------------------------
  // The order of reports
  // ---------------------------------------------------------------------

  /** Segments ascend, and so do device trees within a segment. */
  predicate Ascends(rs: seq<Report>) {
    forall a, b :: 0 <= a < b < |rs| ==>
      rs[a].segment < rs[b].segment || (rs[a].segment == rs[b].segment && rs[a].dtbIndex < rs[b].dtbIndex)
  }

  /** Segments are listed in ascending order. */
  lemma {:induction false} ListedAscend(raw: seq<byte>, segs: seq<Seg>, k: nat, a: nat, b: nat)
    requires a < b < |DtbSegments(raw, segs, k)|
    ensures k <= DtbSegments(raw, segs, k)[a] < DtbSegments(raw, segs, k)[b]
    decreases Max(0, |segs| - k)
  {
    var rest := DtbSegments(raw, segs, k + 1);
    if Scan(SegData(raw, segs[k])) == [] {
      assert [] + rest == rest;
      ListedAscend(raw, segs, k + 1, a, b);
    } else if a > 0 {
      ListedAscend(raw, segs, k + 1, a - 1, b - 1);
    } else {
      ListedFrom(raw, segs, k + 1, b - 1);
    }
  }

  lemma {:induction false} ListedFrom(raw: seq<byte>, segs: seq<Seg>, k: nat, b: nat)
    requires b < |DtbSegments(raw, segs, k)|
    ensures k <= DtbSegments(raw, segs, k)[b]
    decreases Max(0, |segs| - k)
  {
    var rest := DtbSegments(raw, segs, k + 1);
    if Scan(SegData(raw, segs[k])) == [] {
      assert [] + rest == rest;
      ListedFrom(raw, segs, k + 1, b);
    } else if b > 0 {
      ListedFrom(raw, segs, k + 1, b - 1);
    }
  }

  lemma {:induction false} ReportsAscend(tools: Tools, data: seq<byte>, ds: seq<Dtb>, e: nat, pos: nat, seg: nat, idx: nat)
    requires InOrder(ds, e, |data|)
    ensures Ascends(Reports(tools, data, ds, e, pos, seg, idx))
    ensures forall r :: r in Reports(tools, data, ds, e, pos, seg, idx) ==> r.segment == seg && idx <= r.dtbIndex
    decreases ds
  {
    if ds != [] {
      var o := pos + (ds[0].off - e);
      var body := Body(data, ds[0]);
      var next := o + |After(tools, body)|;
      var one := [Report(seg, idx, o, tools.patchDtb(body))];
      ReportsAscend(tools, data, ds[1..], ds[0].End(), next, seg, idx + 1);
      Joined(one, Reports(tools, data, ds[1..], ds[0].End(), next, seg, idx + 1));
    }
  }

  lemma Joined(a: seq<Report>, b: seq<Report>)
    requires Ascends(a) && Ascends(b)
    requires forall x, y :: x in a && y in b ==>
               x.segment < y.segment || (x.segment == y.segment && x.dtbIndex < y.dtbIndex)
    ensures Ascends(a + b)
  {
  }

  predicate Ascending(ts: seq<nat>) {
    forall a, b :: 0 <= a < b < |ts| ==> ts[a] < ts[b]
  }

  lemma {:induction false} RunAscends(tools: Tools, raw: seq<byte>, ts: seq<nat>)
    requires PatchRun(tools, raw, ts).Some? && Ascending(ts)
    ensures Ascends(PatchRun(tools, raw, ts).value.1)
    ensures forall r :: r in PatchRun(tools, raw, ts).value.1 ==> r.segment in ts
    decreases ts
  {
    if ts != [] {
      var elf := ParseElf(raw).value;
      var next, more := ReportsHead(tools, raw, elf, ts);
      var data := SegData(raw, elf.segs[ts[0]]);
      RunAscends(tools, next, ts[1..]);
      ScanInOrder(data);
      ReportsAscend(tools, data, Scan(data), 0, 0, ts[0], 0);
      Joined(SegmentReports(tools, data, ts[0]), more);
    }
  }

  /** Reports come segment by segment and tree by tree, whatever the run does. */
  lemma PatchUefiAscends(tools: Tools, raw: seq<byte>)
    requires PatchUefi(tools, raw).Some?
    ensures Ascends(PatchUefi(tools, raw).value.1)
  {
    var segs := ParseElf(raw).value.segs;
    forall a, b | 0 <= a < b < |DtbSegments(raw, segs, 0)|
      ensures DtbSegments(raw, segs, 0)[a] < DtbSegments(raw, segs, 0)[b]
    {
      ListedAscend(raw, segs, 0, a, b);
    }
    RunAscends(tools, raw, DtbSegments(raw, segs, 0));
  }
}
