// Patching every device tree of one segment: the inner loop of
// `_patch_uefi_dtbs`, which splices grown device trees back in place while
// tracking a running displacement.
//
// libfdt and SHA-384 are parameters: `Tools` bundles a digest function and the
// outcome of looking for the certificate property in a device tree and
// replacing it.
module SegmentRebuild {
  import opened Bytes
  import opened DtbScan

  type Digest = s: seq<byte> | |s| == 48 witness seq(48, _ => 0)

  /** No certificate node; the setter raised; the new device tree. */
  datatype DtbOutcome = Skipped | Failed | Patched(dtb: seq<byte>)

  datatype Tools = Tools(sha384: seq<byte> -> Digest, patchDtb: seq<byte> -> DtbOutcome)

  /** What stands in the segment afterwards for a device tree `d`. */
  function After(tools: Tools, d: seq<byte>): seq<byte> {
    match tools.patchDtb(d)
    case Patched(p) => p
    case _ => d
  }

  /** What the loop records about a device tree: its segment, its number, where it stood
      when it was read, and what became of it. */
  datatype Report = Report(segment: nat, dtbIndex: nat, offset: int, status: DtbOutcome)

  // ---------------------------------------------------------------------
  // The specification: gaps verbatim, device trees replaced
  // ---------------------------------------------------------------------

  function Body(data: seq<byte>, d: Dtb): seq<byte>
    requires d.End() <= |data|
  {
    data[d.off..d.End()]
  }

  /** gap ++ new device tree ++ gap ++ new device tree ++ ... ++ rest, from `e` on. */
  function RebuildFrom(tools: Tools, data: seq<byte>, ds: seq<Dtb>, e: nat): seq<byte>
    requires InOrder(ds, e, |data|)
    decreases ds
  {
    if ds == [] then data[e..]
    else
      data[e..ds[0].off] + After(tools, Body(data, ds[0]))
      + RebuildFrom(tools, data, ds[1..], ds[0].End())
  }

  /** The segment with every device tree replaced by its patched form. */
  function Rebuilt(tools: Tools, data: seq<byte>): seq<byte> {
    ScanInOrder(data);
    RebuildFrom(tools, data, Scan(data), 0)
  }

  /** Where the device trees stand in the rebuilt segment, and their new sizes;
      `pos` is the position that `e` has moved to. */
  function NewDtbs(tools: Tools, data: seq<byte>, ds: seq<Dtb>, e: nat, pos: nat): seq<Dtb>
    requires InOrder(ds, e, |data|)
    decreases ds
  {
    if ds == [] then []
    else
      var d := Dtb(pos + (ds[0].off - e), |After(tools, Body(data, ds[0]))|);
      [d] + NewDtbs(tools, data, ds[1..], ds[0].End(), d.End())
  }

  /** One report for each device tree of `ds`, the first of which is number `idx` of
      segment `seg`. */
  function Reports(tools: Tools, data: seq<byte>, ds: seq<Dtb>, e: nat, pos: nat, seg: nat, idx: nat): seq<Report>
    requires InOrder(ds, e, |data|)
    decreases ds
  {
    if ds == [] then []
    else
      var o := pos + (ds[0].off - e);
      var body := Body(data, ds[0]);
      [Report(seg, idx, o, tools.patchDtb(body))]
      + Reports(tools, data, ds[1..], ds[0].End(), o + |After(tools, body)|, seg, idx + 1)
  }

  function PairOf(tools: Tools, body: seq<byte>): seq<(Digest, Digest)> {
    if tools.patchDtb(body).Patched? then [(tools.sha384(body), tools.sha384(After(tools, body)))] else []
  }

  /** Old and new digest of each replaced device tree. */
  function DigestPairs(tools: Tools, data: seq<byte>, ds: seq<Dtb>, e: nat): seq<(Digest, Digest)>
    requires InOrder(ds, e, |data|)
    decreases ds
  {
    if ds == [] then []
    else
      PairOf(tools, Body(data, ds[0])) + DigestPairs(tools, data, ds[1..], ds[0].End())
  }

  /** Whether any device tree is replaced. */
  predicate Touched(tools: Tools, data: seq<byte>, ds: seq<Dtb>, e: nat)
    requires InOrder(ds, e, |data|)
    decreases ds
  {
    ds != [] &&
    (tools.patchDtb(Body(data, ds[0])).Patched? || Touched(tools, data, ds[1..], ds[0].End()))
  }

  // ---------------------------------------------------------------------
  // The loop
  // ---------------------------------------------------------------------

  /** Cutting and splicing at a displaced offset, when everything before is done. */
  lemma DisplacedSplice(done: seq<byte>, data: seq<byte>, e: nat, off: nat, end: nat, out: seq<byte>,
                        s: seq<byte>, o: nat)
    requires e <= off <= end <= |data| && s == done + data[e..] && o == |done| + off - e
    ensures o + (end - off) <= |s|
    ensures Slice(s, o, o + (end - off)) == data[off..end]
    ensures Splice(s, o, o + (end - off), out) == done + (data[e..off] + out) + data[end..]
    ensures s == done + (data[e..off] + data[off..end]) + data[end..]
  {
    var gap, body, rest := data[e..off], data[off..end], data[end..];
    assert data[e..] == gap + body + rest;
    assert s == (done + gap) + body + rest;
    CutAndSplice(done + gap, body, rest, out, s);
  }

  lemma CutAndSplice(pre: seq<byte>, body: seq<byte>, rest: seq<byte>, out: seq<byte>, s: seq<byte>)
    requires s == pre + body + rest
    ensures Slice(s, |pre|, |pre| + |body|) == body
    ensures Splice(s, |pre|, |pre| + |body|, out) == pre + out + rest
  {
  }

  /** The variables of the loop. */
  datatype Progress = Progress(
    segData: seq<byte>, delta: int, modified: bool, pairs: seq<(Digest, Digest)>, reports: seq<Report>)

  /** What one turn does to the loop variables when device tree `d` is next, `done`
      is what the segment has become up to position `e` of the original. */
  ghost predicate IsTurn(tools: Tools, data: seq<byte>, d: Dtb, e: nat, done: seq<byte>, seg: nat, idx: nat,
                         now: Progress, next: Progress)
    requires e <= d.off <= d.End() <= |data|
  {
    var body := Body(data, d);
    var done' := done + (data[e..d.off] + After(tools, body));
    && next.segData == done' + data[d.End()..]
    && next.delta == |done'| - d.End()
    && next.modified == (now.modified || tools.patchDtb(body).Patched?)
    && next.pairs == now.pairs + PairOf(tools, body)
    && next.reports == now.reports + [Report(seg, idx, |done| + (d.off - e), tools.patchDtb(body))]
  }

  /** One turn: read the device tree at its displaced offset, try to replace it. */
  method PatchNext(tools: Tools, d: Dtb, now: Progress, seg: nat, idx: nat,
                   ghost data: seq<byte>, ghost done: seq<byte>, ghost e: nat)
    returns (next: Progress)
    requires e <= d.off <= d.End() <= |data|
    requires now.segData == done + data[e..] && now.delta == |done| - e
    ensures IsTurn(tools, data, d, e, done, seg, idx, now, next)
  {
    DisplacedSplice(done, data, e, d.off, d.End(), After(tools, Body(data, d)), now.segData, |done| + d.off - e);
    var dtbOff: nat := d.off + now.delta;
    var dtbBytes := Slice(now.segData, dtbOff, dtbOff + d.size);
    var outcome := tools.patchDtb(dtbBytes);
    var reports := now.reports + [Report(seg, idx, dtbOff, outcome)];
    match outcome {
      case Skipped =>
        next := now.(reports := reports);
      case Failed =>
        next := now.(reports := reports);
      case Patched(patched) =>
        next := Progress(
          Splice(now.segData, dtbOff, dtbOff + d.size, patched),
          now.delta + |patched| - d.size,
          true,
          now.pairs + [(tools.sha384(dtbBytes), tools.sha384(patched))],
          reports);
    }
  }

  /** What is still to come from the device trees `ds` and position `e` on completes
      what has been done to `goal`. */
  ghost predicate Remaining(tools: Tools, data: seq<byte>, ds: seq<Dtb>, e: nat,
                            done: seq<byte>, seg: nat, idx: nat, p: Progress, goal: Progress)
    requires InOrder(ds, e, |data|)
  {
    && p.segData == done + data[e..]
    && p.delta == |done| - e
    && done + RebuildFrom(tools, data, ds, e) == goal.segData
    && (p.modified || Touched(tools, data, ds, e)) == goal.modified
    && p.pairs + DigestPairs(tools, data, ds, e) == goal.pairs
    && p.reports + Reports(tools, data, ds, e, |done|, seg, idx) == goal.reports
  }

  lemma Append<T>(a: seq<T>, b: seq<T>, c: seq<T>)
    ensures a + (b + c) == (a + b) + c
  {
  }

  lemma RemainingStep(tools: Tools, data: seq<byte>, ds: seq<Dtb>, e: nat, done: seq<byte>,
                      seg: nat, idx: nat, now: Progress, next: Progress, goal: Progress)
    requires InOrder(ds, e, |data|) && ds != []
    requires Remaining(tools, data, ds, e, done, seg, idx, now, goal)
    requires IsTurn(tools, data, ds[0], e, done, seg, idx, now, next)
    ensures Remaining(tools, data, ds[1..], ds[0].End(),
                      done + (data[e..ds[0].off] + After(tools, Body(data, ds[0]))), seg, idx + 1, next, goal)
  {
    var d, rest, body := ds[0], ds[1..], Body(data, ds[0]);
    var head := data[e..d.off] + After(tools, body);
    var report := [Report(seg, idx, |done| + (d.off - e), tools.patchDtb(body))];
    Append(done, head, RebuildFrom(tools, data, rest, d.End()));
    Append(now.pairs, PairOf(tools, body), DigestPairs(tools, data, rest, d.End()));
    Append(now.reports, report, Reports(tools, data, rest, d.End(), |done + head|, seg, idx + 1));
  }

  /** The loop over the device trees of one segment: each is read as it was in the
      original, and what the loop leaves is the rebuilt segment. */
  method PatchSegment(tools: Tools, data: seq<byte>, seg: nat) returns (p: Progress)
    ensures InOrder(Scan(data), 0, |data|)
    ensures p.segData == Rebuilt(tools, data)
    ensures p.modified == Touched(tools, data, Scan(data), 0)
    ensures p.pairs == DigestPairs(tools, data, Scan(data), 0)
    ensures p.reports == Reports(tools, data, Scan(data), 0, 0, seg, 0)
  {
    var ds := ScanDtbs(data);
    ScanInOrder(data);
    p := Progress(data, 0, false, [], []);
    ghost var goal := Progress(RebuildFrom(tools, data, ds, 0), 0, Touched(tools, data, ds, 0),
                               DigestPairs(tools, data, ds, 0), Reports(tools, data, ds, 0, 0, seg, 0));
    ghost var done, e: nat := [], 0;
    for k := 0 to |ds|
      invariant InOrder(ds[k..], e, |data|)
      invariant Remaining(tools, data, ds[k..], e, done, seg, k, p, goal)
    {
      ghost var now := p;
      p := PatchNext(tools, ds[k], p, seg, k, data, done, e);
      RemainingStep(tools, data, ds[k..], e, done, seg, k, now, p, goal);
      done := done + (data[e..ds[k].off] + After(tools, Body(data, ds[k])));
      e := ds[k].End();
      assert ds[k..][1..] == ds[k + 1..];
    }
  }
}
