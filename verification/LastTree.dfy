// What `_patch_xbl_config` leaves in a segment with several certificate-bearing
// device trees. Each replacement starts from the segment as it was read before
// the first one, so only the last survives.
module LastTree {
  import opened Bytes
  import opened DtbScan
  import opened SegmentRebuild
  import RebuildScan
  import opened UefiRun

  /** The segment with one device tree replaced. */
  function WithTree(data: seq<byte>, d: Dtb, p: seq<byte>): seq<byte> {
    Splice(data, d.off, d.End(), p)
  }

  /** The contents after the device trees `ds`, when they are `now` before. */
  function LastPatched(tools: Tools, data: seq<byte>, ds: seq<Dtb>, now: seq<byte>): seq<byte>
    decreases ds
  {
    if ds == [] then now
    else
      match tools.patchDtb(Slice(data, ds[0].off, ds[0].End()))
      case Patched(p) => LastPatched(tools, data, ds[1..], WithTree(data, ds[0], p))
      case _ => LastPatched(tools, data, ds[1..], now)
  }

  /** What the loop leaves in a segment that held `data`. */
  function FinalData(tools: Tools, data: seq<byte>): seq<byte> {
    LastPatched(tools, data, Scan(data), data)
  }

  /** The segment from `e` on with only the last of the replaced device trees replaced. */
  function OnlyLast(tools: Tools, data: seq<byte>, ds: seq<Dtb>, e: nat): seq<byte>
    requires InOrder(ds, e, |data|)
    decreases ds
  {
    if ds == [] then data[e..]
    else if Touched(tools, data, ds[1..], ds[0].End()) then
      data[e..ds[0].End()] + OnlyLast(tools, data, ds[1..], ds[0].End())
    else data[e..ds[0].off] + After(tools, Body(data, ds[0])) + data[ds[0].End()..]
  }

  /** Every replaced device tree but the last is replaced by itself. */
  predicate EarlierUnchanged(tools: Tools, data: seq<byte>, ds: seq<Dtb>, e: nat)
    requires InOrder(ds, e, |data|)
    decreases ds
  {
    ds != [] && Touched(tools, data, ds[1..], ds[0].End()) ==>
      && After(tools, Body(data, ds[0])) == Body(data, ds[0])
      && EarlierUnchanged(tools, data, ds[1..], ds[0].End())
  }

  /** No replacement is shorter than what it replaces. */
  predicate NoneShrinks(tools: Tools, data: seq<byte>, ds: seq<Dtb>, e: nat)
    requires InOrder(ds, e, |data|)
    decreases ds
  {
    ds != [] ==>
      |Body(data, ds[0])| <= |After(tools, Body(data, ds[0]))| && NoneShrinks(tools, data, ds[1..], ds[0].End())
  }

  lemma SliceIsBody(data: seq<byte>, d: Dtb)
    requires d.End() <= |data|
    ensures Slice(data, d.off, d.End()) == Body(data, d)
  {
  }

  lemma TreePieces(data: seq<byte>, d: Dtb, e: nat, p: seq<byte>)
    requires e <= d.off && d.End() <= |data|
    ensures WithTree(data, d, p) == data[..e] + (data[e..d.off] + p + data[d.End()..])
  {
    assert data[..d.off] == data[..e] + data[e..d.off];
  }

  /** The loop leaves the segment with only the last replacement. */
  lemma {:induction false} LastPatchedIs(tools: Tools, data: seq<byte>, ds: seq<Dtb>, e: nat, now: seq<byte>)
    requires InOrder(ds, e, |data|)
    ensures LastPatched(tools, data, ds, now)
         == if Touched(tools, data, ds, e) then data[..e] + OnlyLast(tools, data, ds, e) else now
    decreases ds
  {
    if ds != [] {
      var d, rest := ds[0], ds[1..];
      SliceIsBody(data, d);
      if tools.patchDtb(Body(data, d)).Patched? {
        LastPatchedIs(tools, data, rest, d.End(), WithTree(data, d, After(tools, Body(data, d))));
      } else {
        LastPatchedIs(tools, data, rest, d.End(), now);
      }
      if Touched(tools, data, rest, d.End()) {
        Regroup(data, e, d.End(), OnlyLast(tools, data, rest, d.End()));
      } else {
        TreePieces(data, d, e, After(tools, Body(data, d)));
      }
    }
  }

  lemma Regroup(data: seq<byte>, e: nat, end: nat, rest: seq<byte>)
    requires e <= end <= |data|
    ensures data[..end] + rest == data[..e] + (data[e..end] + rest)
  {
    assert data[..end] == data[..e] + data[e..end];
  }

  lemma {:induction false} OnlyLastShorter(tools: Tools, data: seq<byte>, ds: seq<Dtb>, e: nat)
    requires InOrder(ds, e, |data|) && NoneShrinks(tools, data, ds, e)
    ensures |OnlyLast(tools, data, ds, e)| <= |RebuildFrom(tools, data, ds, e)|
    decreases ds
  {
    if ds != [] {
      OnlyLastShorter(tools, data, ds[1..], ds[0].End());
      if !Touched(tools, data, ds[1..], ds[0].End()) {
        UntouchedFrom(tools, data, ds[1..], ds[0].End());
      }
    }
  }

  lemma SplitEqual(gap: seq<byte>, a: seq<byte>, b: seq<byte>, x: seq<byte>, y: seq<byte>, ab: seq<byte>)
    requires ab == gap + b && |b| <= |a| && |y| <= |x|
    ensures gap + a + x == ab + y <==> a == b && x == y
  {
    var l, r := gap + a + x, ab + y;
    if l == r {
      assert |a| == |b| && |x| == |y|;
      assert a == l[|gap|..|gap| + |a|] == r[|gap|..|gap| + |b|] == b;
      assert x == l[|gap| + |a|..] == r[|gap| + |b|..] == y;
    }
  }

  lemma {:induction false} OnlyLastIff(tools: Tools, data: seq<byte>, ds: seq<Dtb>, e: nat)
    requires InOrder(ds, e, |data|) && NoneShrinks(tools, data, ds, e)
    ensures RebuildFrom(tools, data, ds, e) == OnlyLast(tools, data, ds, e)
       <==> EarlierUnchanged(tools, data, ds, e)
    decreases ds
  {
    if ds != [] {
      var d, rest, body := ds[0], ds[1..], Body(data, ds[0]);
      if Touched(tools, data, rest, d.End()) {
        OnlyLastIff(tools, data, rest, d.End());
        OnlyLastShorter(tools, data, rest, d.End());
        assert data[e..d.End()] == data[e..d.off] + body;
        SplitEqual(data[e..d.off], After(tools, body), body,
                   RebuildFrom(tools, data, rest, d.End()), OnlyLast(tools, data, rest, d.End()), data[e..d.End()]);
      } else {
        UntouchedFrom(tools, data, rest, d.End());
      }
    }
  }

  /** The loop leaves the rebuilt segment, with every certificate-bearing device tree
      replaced, exactly if all but the last of the replacements change nothing. */
  lemma FinalIsRebuiltIff(tools: Tools, data: seq<byte>)
    requires InOrder(Scan(data), 0, |data|) && NoneShrinks(tools, data, Scan(data), 0)
    ensures FinalData(tools, data) == Rebuilt(tools, data)
       <==> EarlierUnchanged(tools, data, Scan(data), 0)
  {
    var ds := Scan(data);
    LastPatchedIs(tools, data, ds, 0, data);
    OnlyLastIff(tools, data, ds, 0);
    if Touched(tools, data, ds, 0) {
      assert data[..0] + OnlyLast(tools, data, ds, 0) == OnlyLast(tools, data, ds, 0);
    } else {
      UntouchedFrom(tools, data, ds, 0);
      NothingEarlier(tools, data, ds, 0);
    }
  }

  lemma NothingEarlier(tools: Tools, data: seq<byte>, ds: seq<Dtb>, e: nat)
    requires InOrder(ds, e, |data|) && !Touched(tools, data, ds, e)
    ensures EarlierUnchanged(tools, data, ds, e)
  {
  }

  /** In particular with at most one certificate-bearing device tree. */
  predicate AtMostOne(tools: Tools, data: seq<byte>, ds: seq<Dtb>, e: nat)
    requires InOrder(ds, e, |data|)
    decreases ds
  {
    ds != [] ==>
      if tools.patchDtb(Body(data, ds[0])).Patched? then !Touched(tools, data, ds[1..], ds[0].End())
      else AtMostOne(tools, data, ds[1..], ds[0].End())
  }

  lemma {:induction false} AtMostOneSuffices(tools: Tools, data: seq<byte>, ds: seq<Dtb>, e: nat)
    requires InOrder(ds, e, |data|) && AtMostOne(tools, data, ds, e)
    ensures EarlierUnchanged(tools, data, ds, e)
    decreases ds
  {
    if ds != [] && !tools.patchDtb(Body(data, ds[0])).Patched? {
      AtMostOneSuffices(tools, data, ds[1..], ds[0].End());
    }
  }
}
