// What a whole run of `_patch_uefi_dtbs` does to the segments: every one that
// holds device trees ends up rebuilt, every other one keeps its bytes, however
// often the image has been re-parsed and moved in between.
module UefiRun {
  import opened Bytes
  import opened Tables
  import opened DtbScan
  import opened SegmentRebuild
  import opened ElfImage
  import opened ElfSplice
  import opened Resize
  import opened UefiDtbs
  import opened DigestWrites

  // ---------------------------------------------------------------------
  // Layouts
  // ---------------------------------------------------------------------

  /** A segment behind the headers. */
  predicate Payload(elf: Elf, i: nat) {
    i < |elf.segs| && Top(elf) <= elf.segs[i].offset
  }

  /** Two segments do not overlap if both are behind the headers. */
  predicate NoOverlap(elf: Elf, i: nat, j: nat)
    requires i < |elf.segs| && j < |elf.segs|
  {
    i != j && Payload(elf, i) && Payload(elf, j) ==> Apart(elf.segs[i], elf.segs[j])
  }

  /** None of the first `n` segments overlap. */
  predicate SegmentsApart(elf: Elf, n: nat)
    requires n <= |elf.segs|
  {
    forall i: nat, j: nat :: i < n && j < n ==> NoOverlap(elf, i, j)
  }

  /** The header tables are in order and no two segments behind them overlap. */
  ghost predicate GoodLayout(elf: Elf) {
    exists n: nat :: n == |elf.segs| && SegmentsApart(elf, n) && TablesApart(elf)
  }

  lemma ApartIn(elf: Elf, i: nat, j: nat)
    requires GoodLayout(elf) && Payload(elf, i) && Payload(elf, j) && i != j
    ensures Apart(elf.segs[i], elf.segs[j])
  {
    assert NoOverlap(elf, i, j);
  }

  // ---------------------------------------------------------------------
  // One step
  // ---------------------------------------------------------------------

  lemma SpliceRelaid(raw: seq<byte>, off: nat, n: nat, new_: seq<byte>, img: seq<byte>)
    requires off + n <= |raw| && img == Splice(raw, off, off + n, new_)
    ensures Relaid(raw, img, off, n, new_, |new_| - n) && |img| == |raw| + |new_| - n
  {
  }

  /** A segment that holds something lies within the file that far. */
  lemma DataInFile(raw: seq<byte>, s: Seg, data: seq<byte>)
    requires data == SegData(raw, s) && data != []
    ensures s.offset + |data| <= |raw| && |data| <= s.filesz
    ensures data == raw[s.offset..s.offset + |data|]
  {
  }

  /** The first `n` bytes of segment `t` lie in a file of `len` bytes. */
  predicate Holds(elf: Elf, t: nat, n: nat, len: nat)
    requires t < |elf.segs|
  {
    0 < n <= elf.segs[t].filesz && elf.segs[t].offset + n <= len
  }

  /** The image after the `n` bytes of segment `t` have been replaced by `new_` and the
      headers have been fixed. */
  function Fixed(raw: seq<byte>, elf: Elf, t: nat, n: nat, new_: seq<byte>): Option<seq<byte>>
    requires t < |elf.segs|
  {
    var off := elf.segs[t].offset;
    HeaderWrites(Splice(raw, off, off + n, new_), elf, t, off, |new_| - n, |new_|)
  }

  /** The view after that, `m` being the new size. */
  function FixedElf(elf: Elf, t: nat, n: nat, m: nat): Elf
    requires t < |elf.segs|
  {
    Resized(elf, t, elf.segs[t].offset, m - n, m)
  }

  /** The bytes of the spliced image and of the fixed one. */
  lemma FixedShape(raw: seq<byte>, elf: Elf, t: nat, n: nat, new_: seq<byte>, off: nat, shift: int, size: nat,
                   spliced: seq<byte>, fixed: seq<byte>)
    requires IsElf(raw, elf) && TablesApart(elf) && t < |elf.segs| && Top(elf) <= off && off + n <= |raw|
    requires spliced == Splice(raw, off, off + n, new_) && shift == |new_| - n && size == |new_|
    requires HeaderWrites(spliced, elf, t, off, shift, size) == Some(fixed)
    ensures Relaid(raw, spliced, off, n, new_, shift) && |spliced| == |raw| + shift
    ensures SameTail(spliced, fixed, Top(elf))
  {
    SpliceRelaid(raw, off, n, new_, spliced);
    FrontSame(raw, spliced, off, Top(elf));
    HeadersParse(raw, spliced, fixed, elf, t, off, shift, size);
  }

  /** What the fixed image parses to. */
  lemma FixedView(raw: seq<byte>, elf: Elf, t: nat, n: nat, new_: seq<byte>, off: nat, shift: int, size: nat,
                  spliced: seq<byte>, fixed: seq<byte>)
    requires IsElf(raw, elf) && TablesApart(elf) && t < |elf.segs| && Top(elf) <= off && off + n <= |raw|
    requires spliced == Splice(raw, off, off + n, new_) && shift == |new_| - n && size == |new_|
    requires HeaderWrites(spliced, elf, t, off, shift, size) == Some(fixed)
    ensures IsElf(fixed, Resized(elf, t, off, shift, size)) && TablesApart(Resized(elf, t, off, shift, size))
    ensures Top(Resized(elf, t, off, shift, size)) == Top(elf) <= |fixed|
  {
    SpliceRelaid(raw, off, n, new_, spliced);
    FrontSame(raw, spliced, off, Top(elf));
    HeadersParse(raw, spliced, fixed, elf, t, off, shift, size);
  }

  lemma FixedWrites(raw: seq<byte>, elf: Elf, t: nat, n: nat, new_: seq<byte>, off: nat, shift: int, size: nat,
                    spliced: seq<byte>, fixed: seq<byte>)
    requires t < |elf.segs| && Fixed(raw, elf, t, n, new_) == Some(fixed)
    requires off == elf.segs[t].offset && shift == |new_| - n && size == |new_| && spliced == Splice(raw, off, off + n, new_)
    ensures HeaderWrites(spliced, elf, t, off, shift, size) == Some(fixed)
  {
  }

  /** Splicing in a segment of any new size: the image parses to the moved view ... */
  lemma FixedParses(raw: seq<byte>, elf: Elf, t: nat, n: nat, new_: seq<byte>, fixed: seq<byte>)
    requires IsElf(raw, elf) && TablesApart(elf) && Payload(elf, t)
    requires Holds(elf, t, n, |raw|) && Fixed(raw, elf, t, n, new_) == Some(fixed)
    ensures IsElf(fixed, FixedElf(elf, t, n, |new_|)) && TablesApart(FixedElf(elf, t, n, |new_|))
    ensures Top(FixedElf(elf, t, n, |new_|)) == Top(elf) <= |fixed|
  {
    var off, shift, size := elf.segs[t].offset, |new_| - n, |new_|;
    var spliced := Splice(raw, off, off + n, new_);
    FixedWrites(raw, elf, t, n, new_, off, shift, size, spliced, fixed);
    FixedView(raw, elf, t, n, new_, off, shift, size, spliced, fixed);
  }

  /** ... the target reads back exactly the new bytes ... */
  lemma FixedTarget(raw: seq<byte>, elf: Elf, t: nat, n: nat, new_: seq<byte>, fixed: seq<byte>)
    requires IsElf(raw, elf) && TablesApart(elf) && Payload(elf, t)
    requires Holds(elf, t, n, |raw|) && Fixed(raw, elf, t, n, new_) == Some(fixed)
    ensures SegData(fixed, FixedElf(elf, t, n, |new_|).segs[t]) == new_
  {
    var off, shift, size := elf.segs[t].offset, |new_| - n, |new_|;
    var spliced := Splice(raw, off, off + n, new_);
    FixedWrites(raw, elf, t, n, new_, off, shift, size, spliced, fixed);
    TargetAfter(raw, elf, t, n, new_, off, shift, size, spliced, fixed);
  }

  lemma TargetAfter(raw: seq<byte>, elf: Elf, t: nat, n: nat, new_: seq<byte>, off: nat, shift: int, size: nat,
                    spliced: seq<byte>, fixed: seq<byte>)
    requires IsElf(raw, elf) && TablesApart(elf) && t < |elf.segs| && Top(elf) <= off && off + n <= |raw|
    requires off == elf.segs[t].offset
    requires spliced == Splice(raw, off, off + n, new_) && shift == |new_| - n && size == |new_|
    requires HeaderWrites(spliced, elf, t, off, shift, size) == Some(fixed)
    ensures SegData(fixed, Resized(elf, t, off, shift, size).segs[t]) == new_
  {
    FixedShape(raw, elf, t, n, new_, off, shift, size, spliced, fixed);
    ResizedAt(elf, t, off, shift, size, t);
    TargetHolds(raw, spliced, fixed, Top(elf), off, n, new_, shift, Resized(elf, t, off, shift, size).segs[t]);
  }

  /** ... and every other segment behind the headers that does not overlap it reads back
      the same bytes through its new offset. */
  lemma FixedOther(raw: seq<byte>, elf: Elf, t: nat, n: nat, new_: seq<byte>, fixed: seq<byte>, i: nat)
    requires IsElf(raw, elf) && TablesApart(elf) && Payload(elf, t)
    requires Holds(elf, t, n, |raw|) && Fixed(raw, elf, t, n, new_) == Some(fixed)
    requires i != t && Payload(elf, i) && Apart(elf.segs[i], elf.segs[t])
    ensures SegData(fixed, FixedElf(elf, t, n, |new_|).segs[i]) == SegData(raw, elf.segs[i])
  {
    var off, shift, size := elf.segs[t].offset, |new_| - n, |new_|;
    var spliced := Splice(raw, off, off + n, new_);
    FixedWrites(raw, elf, t, n, new_, off, shift, size, spliced, fixed);
    ApartFromFront(elf.segs[i], elf.segs[t], off, n);
    OtherAfter(raw, elf, t, n, new_, off, shift, size, spliced, fixed, i);
  }

  lemma ApartFromFront(s: Seg, o: Seg, off: nat, n: nat)
    requires Apart(s, o) && off == o.offset && n <= o.filesz
    ensures s.End() <= off || off + n <= s.offset
  {
  }

  lemma OtherAfter(raw: seq<byte>, elf: Elf, t: nat, n: nat, new_: seq<byte>, off: nat, shift: int, size: nat,
                   spliced: seq<byte>, fixed: seq<byte>, i: nat)
    requires IsElf(raw, elf) && TablesApart(elf) && t < |elf.segs| && Top(elf) <= off && off + n <= |raw|
    requires spliced == Splice(raw, off, off + n, new_) && shift == |new_| - n && size == |new_|
    requires HeaderWrites(spliced, elf, t, off, shift, size) == Some(fixed)
    requires i != t && Payload(elf, i) && 0 < n && (elf.segs[i].End() <= off || off + n <= elf.segs[i].offset)
    ensures SegData(fixed, Resized(elf, t, off, shift, size).segs[i]) == SegData(raw, elf.segs[i])
  {
    FixedShape(raw, elf, t, n, new_, off, shift, size, spliced, fixed);
    ResizedAt(elf, t, off, shift, size, i);
    OtherHolds(raw, spliced, fixed, Top(elf), off, n, new_, shift, elf.segs[i]);
  }

  /** The view after segment `t` has been dealt with. */
  function StepElf(tools: Tools, raw: seq<byte>, elf: Elf, t: nat): Elf
    requires t < |elf.segs|
  {
    var data := SegData(raw, elf.segs[t]);
    if IsTouched(tools, data) then FixedElf(elf, t, |data|, |Rebuilt(tools, data)|) else elf
  }

  /** How a step leads from `raw` to `r`, by way of `fixed` if the segment is touched. */
  predicate StepShape(tools: Tools, raw: seq<byte>, elf: Elf, t: nat, data: seq<byte>, fixed: seq<byte>, r: seq<byte>)
    requires t < |elf.segs|
  {
    if IsTouched(tools, data) then
      && data != [] && Fixed(raw, elf, t, |data|, Rebuilt(tools, data)) == Some(fixed)
      && Finish(tools, raw, fixed, elf.segs[0], data, t) == Some(r)
    else r == raw
  }

  /** Nothing touched, nothing changed. */
  lemma {:induction false} UntouchedFrom(tools: Tools, data: seq<byte>, ds: seq<Dtb>, e: nat)
    requires InOrder(ds, e, |data|) && !Touched(tools, data, ds, e)
    ensures RebuildFrom(tools, data, ds, e) == data[e..]
    decreases ds
  {
    if ds != [] {
      UntouchedFrom(tools, data, ds[1..], ds[0].End());
      assert data[e..ds[0].off] + data[ds[0].off..ds[0].End()] + data[ds[0].End()..] == data[e..];
    }
  }

  lemma UntouchedSame(tools: Tools, data: seq<byte>)
    requires !IsTouched(tools, data)
    ensures Rebuilt(tools, data) == data
  {
    ScanInOrder(data);
    UntouchedFrom(tools, data, Scan(data), 0);
  }

  lemma TouchedNotEmpty(tools: Tools, data: seq<byte>)
    requires IsTouched(tools, data)
    ensures data != []
  {
    ScanInOrder(data);
    ScanIsScan(data, 0);
  }

  // Layouts survive a step.

  lemma ApartMoved(s: Seg, o: Seg, off: nat, n: nat, m: nat, s': Seg, o': Seg)
    requires Apart(s, o) && n > 0
    requires s.End() <= off || off + n <= s.offset
    requires o.End() <= off || off + n <= o.offset
    requires s' == s.(offset := Moved(s.offset, off, m - n)) && o' == o.(offset := Moved(o.offset, off, m - n))
    ensures Apart(s', o')
  {
  }

  lemma ApartFromTarget(s: Seg, off: nat, n: nat, m: nat, s': Seg)
    requires n > 0 && (s.End() <= off || off + n <= s.offset)
    requires s' == s.(offset := Moved(s.offset, off, m - n))
    ensures s'.End() <= off || off + m <= s'.offset
  {
  }

  lemma LayoutKept(elf: Elf, t: nat, n: nat, m: nat)
    requires GoodLayout(elf) && Payload(elf, t) && 0 < n <= elf.segs[t].filesz
    requires var elf' := Resized(elf, t, elf.segs[t].offset, m - n, m);
             TablesApart(elf') && Top(elf') == Top(elf)
    ensures GoodLayout(Resized(elf, t, elf.segs[t].offset, m - n, m))
  {
    var off := elf.segs[t].offset;
    var elf' := Resized(elf, t, off, m - n, m);
    forall i: nat, j: nat | i < |elf'.segs| && j < |elf'.segs|
      ensures NoOverlap(elf', i, j)
    {
      if i != j && Payload(elf', i) && Payload(elf', j) {
        LayoutPair(elf, t, n, m, i, j);
      }
    }
    assert SegmentsApart(elf', |elf'.segs|);
  }

  lemma WasPayload(elf: Elf, t: nat, n: nat, m: nat, i: nat)
    requires TablesApart(elf) && Payload(elf, t) && 0 < n && i < |elf.segs|
    requires var elf' := Resized(elf, t, elf.segs[t].offset, m - n, m);
             Top(elf') == Top(elf) && Payload(elf', i)
    ensures Payload(elf, i)
  {
    ResizedAt(elf, t, elf.segs[t].offset, m - n, m, i);
  }

  lemma LayoutPair(elf: Elf, t: nat, n: nat, m: nat, i: nat, j: nat)
    requires GoodLayout(elf) && Payload(elf, t) && 0 < n <= elf.segs[t].filesz
    requires i < |elf.segs| && j < |elf.segs| && i != j
    requires var elf' := Resized(elf, t, elf.segs[t].offset, m - n, m);
             Top(elf') == Top(elf) && Payload(elf', i) && Payload(elf', j)
    ensures var elf' := Resized(elf, t, elf.segs[t].offset, m - n, m);
            Apart(elf'.segs[i], elf'.segs[j])
  {
    var off := elf.segs[t].offset;
    ResizedAt(elf, t, off, m - n, m, i);
    ResizedAt(elf, t, off, m - n, m, j);
    WasPayload(elf, t, n, m, i);
    WasPayload(elf, t, n, m, j);
    var s, o, x := elf.segs[i], elf.segs[j], elf.segs[t];
    if i == t {
      ApartIn(elf, j, t);
      ApartFromTarget(o, off, n, m, o.(offset := Moved(o.offset, off, m - n)));
    } else if j == t {
      ApartIn(elf, i, t);
      ApartFromTarget(s, off, n, m, s.(offset := Moved(s.offset, off, m - n)));
    } else {
      ApartIn(elf, i, j);
      ApartIn(elf, i, t);
      ApartIn(elf, j, t);
      ApartMoved(s, o, off, n, m, s.(offset := Moved(s.offset, off, m - n)), o.(offset := Moved(o.offset, off, m - n)));
    }
  }

  /** Types of segments do not change. */
  lemma FixedTypes(elf: Elf, elf': Elf, t0: nat, n: nat, m: nat)
    requires t0 < |elf.segs| && elf' == FixedElf(elf, t0, n, m)
    ensures |elf'.segs| == |elf.segs|
    ensures forall k :: 0 <= k < |elf.segs| ==> elf'.segs[k].ptype == elf.segs[k].ptype
  {
    forall k | 0 <= k < |elf.segs|
      ensures elf'.segs[k].ptype == elf.segs[k].ptype
    {
      ResizedAt(elf, t0, elf.segs[t0].offset, m - n, m, k);
    }
  }

  lemma NullKept(elf: Elf, elf': Elf, t0: nat, n: nat, m: nat, t: nat, h: nat)
    requires t0 < |elf.segs| && elf' == FixedElf(elf, t0, n, m)
    ensures FirstNull(elf'.segs, t, h) == FirstNull(elf.segs, t, h)
  {
    FixedTypes(elf, elf', t0, n, m);
  }

  lemma NoNullKept(elf: Elf, elf': Elf, t0: nat, n: nat, m: nat, t: nat)
    requires t0 < |elf.segs| && elf' == FixedElf(elf, t0, n, m)
    ensures NoNull(elf'.segs, t) == NoNull(elf.segs, t)
  {
    FixedTypes(elf, elf', t0, n, m);
  }

  // Where a step writes digests.

  /** The bytes that hold the header tables. */
  function Front(elf: Elf): Seg { Seg(PT_NULL, 0, Top(elf), Top(elf)) }

  /** No digest that ends a step is found in `s`; `elf'` is the view that has been parsed
      by then. */
  predicate Spares(tools: Tools, raw: seq<byte>, fixed: seq<byte>, elf': Elf, ph0: Seg, data: seq<byte>, t: nat, s: Seg) {
    var (lo, hi) := HashRegion(elf'.segs, t, |fixed|);
    AllMiss(fixed, Updates(tools, raw, fixed, ph0, data), lo, hi, s)
  }

  lemma FinishIs(tools: Tools, raw: seq<byte>, fixed: seq<byte>, elf': Elf, ph0: Seg, data: seq<byte>, t: nat,
                 r: seq<byte>, lo: nat, hi: nat)
    requires IsElf(fixed, elf') && Finish(tools, raw, fixed, ph0, data, t) == Some(r)
    requires HashRegion(elf'.segs, t, |fixed|) == (lo, hi)
    ensures r == ReplaceAll(fixed, fixed, Updates(tools, raw, fixed, ph0, data), lo, hi)
  {
  }

  lemma SparedKept(tools: Tools, raw: seq<byte>, fixed: seq<byte>, elf': Elf, ph0: Seg, data: seq<byte>, t: nat,
                   r: seq<byte>, s: Seg)
    requires IsElf(fixed, elf') && Finish(tools, raw, fixed, ph0, data, t) == Some(r)
    requires Spares(tools, raw, fixed, elf', ph0, data, t, s)
    ensures |r| == |fixed| && SegData(r, s) == SegData(fixed, s)
  {
    var (lo, hi) := HashRegion(elf'.segs, t, |fixed|);
    FinishIs(tools, raw, fixed, elf', ph0, data, t, r, lo, hi);
    MissedKept(fixed, fixed, Updates(tools, raw, fixed, ph0, data), lo, hi, s);
  }

  lemma FrontKept(x: seq<byte>, r: seq<byte>, elf: Elf)
    requires IsElf(x, elf) && TablesApart(elf) && Top(elf) <= |x| == |r|
    requires SegData(r, Front(elf)) == SegData(x, Front(elf))
    ensures IsElf(r, elf)
  {
    assert r[..Top(elf)] == SegData(r, Front(elf)) && x[..Top(elf)] == SegData(x, Front(elf));
    FrontParses(x, r, elf);
  }

  /** Every digest that ends a step is found in segment `h` or nowhere. */
  predicate Homed(tools: Tools, raw: seq<byte>, fixed: seq<byte>, elf': Elf, ph0: Seg, data: seq<byte>, t: nat, h: nat)
    requires h < |elf'.segs|
  {
    var (lo, hi) := HashRegion(elf'.segs, t, |fixed|);
    AllFoundIn(fixed, Updates(tools, raw, fixed, ph0, data), lo, hi, elf'.segs[h])
  }

  /** So it is if `h` is the PT_NULL segment behind the patched one ... */
  lemma HashSegmentHomes(tools: Tools, raw: seq<byte>, fixed: seq<byte>, elf': Elf, ph0: Seg, data: seq<byte>,
                         t: nat, h: nat)
    requires FirstNull(elf'.segs, t, h)
    ensures Homed(tools, raw, fixed, elf', ph0, data, t, h)
  {
    RegionFirst(elf'.segs, t, h, |fixed|);
    FoundInSelf(fixed, Updates(tools, raw, fixed, ph0, data), elf'.segs[h]);
  }

  /** ... and then everything apart from `h` is spared. */
  lemma HomeSpares(tools: Tools, raw: seq<byte>, fixed: seq<byte>, elf': Elf, ph0: Seg, data: seq<byte>,
                   t: nat, h: nat, s: Seg)
    requires h < |elf'.segs| && Homed(tools, raw, fixed, elf', ph0, data, t, h) && Apart(s, elf'.segs[h])
    ensures Spares(tools, raw, fixed, elf', ph0, data, t, s)
  {
    var (lo, hi) := HashRegion(elf'.segs, t, |fixed|);
    FoundInMisses(fixed, Updates(tools, raw, fixed, ph0, data), lo, hi, elf'.segs[h], s);
  }

  /** The headers and the other segments are apart from segment `h` when digests are written. */
  lemma HomeAway(raw: seq<byte>, elf: Elf, t: nat, i: nat, h: nat, data: seq<byte>, new_: seq<byte>,
                 fixed: seq<byte>, elf': Elf)
    requires IsElf(raw, elf) && GoodLayout(elf) && Payload(elf, t) && Payload(elf, i) && Payload(elf, h) && h != i
    requires data == SegData(raw, elf.segs[t]) && data != []
    requires Fixed(raw, elf, t, |data|, new_) == Some(fixed) && elf' == FixedElf(elf, t, |data|, |new_|)
    ensures h < |elf'.segs| && i < |elf'.segs|
    ensures Apart(Front(elf'), elf'.segs[h]) && Apart(elf'.segs[i], elf'.segs[h])
  {
    var n := |data|;
    DataInFile(raw, elf.segs[t], data);
    FixedLayout(raw, elf, t, n, new_, fixed, elf');
    PayloadIn(elf, elf', t, n, |new_|, i);
    PayloadIn(elf, elf', t, n, |new_|, h);
    ApartIn(elf', i, h);
  }

  // The step as a whole.

  lemma RewriteParts(tools: Tools, raw: seq<byte>, spliced: seq<byte>, elf: Elf, t: nat, data: seq<byte>, r: seq<byte>,
                     new_: seq<byte>, off: nat, shift: int, size: nat)
    returns (fixed: seq<byte>)
    requires t < |elf.segs| && Rewrite(tools, raw, spliced, elf, t, data) == Some(r)
    requires new_ == Rebuilt(tools, data) && off == elf.segs[t].offset
    requires shift == |new_| - |data| && size == |new_|
    ensures HeaderWrites(spliced, elf, t, off, shift, size) == Some(fixed)
    ensures Finish(tools, raw, fixed, elf.segs[0], data, t) == Some(r)
  {
    RewriteIs(tools, raw, spliced, elf, t, data, new_, off, shift, size);
    fixed := HeaderWrites(spliced, elf, t, off, shift, size).value;
  }

  lemma RewriteIs(tools: Tools, raw: seq<byte>, spliced: seq<byte>, elf: Elf, t: nat, data: seq<byte>,
                  new_: seq<byte>, off: nat, shift: int, size: nat)
    requires t < |elf.segs| && new_ == Rebuilt(tools, data) && off == elf.segs[t].offset
    requires shift == |new_| - |data| && size == |new_|
    ensures Rewrite(tools, raw, spliced, elf, t, data)
         == match HeaderWrites(spliced, elf, t, off, shift, size)
            case None => None
            case Some(fixed) => Finish(tools, raw, fixed, elf.segs[0], data, t)
  {
  }

  lemma StepIsRewrite(tools: Tools, raw: seq<byte>, elf: Elf, t: nat, data: seq<byte>, r: seq<byte>)
    requires ParseElf(raw) == Some(elf) && t < |elf.segs| && data == SegData(raw, elf.segs[t])
    requires PatchStep(tools, raw, t).Some? && PatchStep(tools, raw, t).value.0 == r && IsTouched(tools, data)
    ensures Rewrite(tools, raw, SpliceIn(tools, raw, elf.segs[t].offset, data), elf, t, data) == Some(r)
  {
  }

  /** What a step consists of. */
  lemma StepCases(tools: Tools, raw: seq<byte>, elf: Elf, t: nat, data: seq<byte>, r: seq<byte>)
    returns (fixed: seq<byte>)
    requires IsElf(raw, elf) && t < |elf.segs| && data == SegData(raw, elf.segs[t])
    requires PatchStep(tools, raw, t).Some? && PatchStep(tools, raw, t).value.0 == r
    ensures StepShape(tools, raw, elf, t, data, fixed, r)
  {
    if IsTouched(tools, data) {
      StepIsRewrite(tools, raw, elf, t, data, r);
      fixed := TouchedCase(tools, raw, elf, t, data, r);
    } else {
      StepIsNothing(tools, raw, elf, t, data, r);
      fixed := [];
    }
  }

  lemma StepIsNothing(tools: Tools, raw: seq<byte>, elf: Elf, t: nat, data: seq<byte>, r: seq<byte>)
    requires ParseElf(raw) == Some(elf) && t < |elf.segs| && data == SegData(raw, elf.segs[t])
    requires PatchStep(tools, raw, t).Some? && PatchStep(tools, raw, t).value.0 == r && !IsTouched(tools, data)
    ensures r == raw
  {
  }

  lemma TouchedCase(tools: Tools, raw: seq<byte>, elf: Elf, t: nat, data: seq<byte>, r: seq<byte>)
    returns (fixed: seq<byte>)
    requires t < |elf.segs| && IsTouched(tools, data)
    requires Rewrite(tools, raw, SpliceIn(tools, raw, elf.segs[t].offset, data), elf, t, data) == Some(r)
    ensures StepShape(tools, raw, elf, t, data, fixed, r)
  {
    var new_, off := Rebuilt(tools, data), elf.segs[t].offset;
    var shift, size, spliced := |new_| - |data|, |new_|, SpliceIn(tools, raw, off, data);
    fixed := RewriteParts(tools, raw, spliced, elf, t, data, r, new_, off, shift, size);
    WritesFixed(raw, elf, t, |data|, new_, off, shift, size, spliced, fixed);
    TouchedShape(tools, raw, elf, t, data, new_, fixed, r);
  }

  lemma WritesFixed(raw: seq<byte>, elf: Elf, t: nat, n: nat, new_: seq<byte>, off: nat, shift: int, size: nat,
                    spliced: seq<byte>, fixed: seq<byte>)
    requires t < |elf.segs| && HeaderWrites(spliced, elf, t, off, shift, size) == Some(fixed)
    requires off == elf.segs[t].offset && shift == |new_| - n && size == |new_| && spliced == Splice(raw, off, off + n, new_)
    ensures Fixed(raw, elf, t, n, new_) == Some(fixed)
  {
  }

  lemma TouchedShape(tools: Tools, raw: seq<byte>, elf: Elf, t: nat, data: seq<byte>, new_: seq<byte>,
                     fixed: seq<byte>, r: seq<byte>)
    requires t < |elf.segs| && IsTouched(tools, data) && new_ == Rebuilt(tools, data)
    requires Fixed(raw, elf, t, |data|, new_) == Some(fixed)
    requires Finish(tools, raw, fixed, elf.segs[0], data, t) == Some(r)
    ensures StepShape(tools, raw, elf, t, data, fixed, r)
  {
    TouchedNotEmpty(tools, data);
  }

  /** After a step the image parses to the moved view, laid out as well as before. */
  lemma StepLayout(tools: Tools, raw: seq<byte>, elf: Elf, t: nat, data: seq<byte>,
                   fixed: seq<byte>, r: seq<byte>, elf': Elf)
    requires IsElf(raw, elf) && GoodLayout(elf) && Payload(elf, t) && data == SegData(raw, elf.segs[t])
    requires StepShape(tools, raw, elf, t, data, fixed, r) && elf' == StepElf(tools, raw, elf, t)
    requires IsTouched(tools, data) ==> Spares(tools, raw, fixed, elf', elf.segs[0], data, t, Front(elf'))
    ensures IsElf(r, elf') && GoodLayout(elf') && |elf'.segs| == |elf.segs|
  {
    if IsTouched(tools, data) {
      TouchedLayout(tools, raw, elf, t, data, Rebuilt(tools, data), fixed, r, elf');
    }
  }

  lemma TouchedLayout(tools: Tools, raw: seq<byte>, elf: Elf, t: nat, data: seq<byte>, new_: seq<byte>,
                      fixed: seq<byte>, r: seq<byte>, elf': Elf)
    requires IsElf(raw, elf) && GoodLayout(elf) && Payload(elf, t)
    requires data == SegData(raw, elf.segs[t]) && data != [] && Fixed(raw, elf, t, |data|, new_) == Some(fixed)
    requires Finish(tools, raw, fixed, elf.segs[0], data, t) == Some(r) && elf' == FixedElf(elf, t, |data|, |new_|)
    requires Spares(tools, raw, fixed, elf', elf.segs[0], data, t, Front(elf')) == true
    ensures IsElf(r, elf') && GoodLayout(elf')
  {
    DataInFile(raw, elf.segs[t], data);
    FixedLayout(raw, elf, t, |data|, new_, fixed, elf');
    SparedKept(tools, raw, fixed, elf', elf.segs[0], data, t, r, Front(elf'));
    FrontKept(fixed, r, elf');
  }

  lemma FixedLayout(raw: seq<byte>, elf: Elf, t: nat, n: nat, new_: seq<byte>, fixed: seq<byte>, elf': Elf)
    requires IsElf(raw, elf) && GoodLayout(elf) && Payload(elf, t) && elf' == FixedElf(elf, t, n, |new_|)
    requires Holds(elf, t, n, |raw|) && Fixed(raw, elf, t, n, new_) == Some(fixed)
    ensures IsElf(fixed, elf') && GoodLayout(elf') && Top(elf') == Top(elf) <= |fixed|
  {
    FixedParses(raw, elf, t, n, new_, fixed);
    LayoutKept(elf, t, n, |new_|);
  }

  lemma ParseBehind(x: seq<byte>, r: seq<byte>, elf: Elf, lo: nat, hi: nat)
    requires IsElf(x, elf) && TablesApart(elf) && SameOutside(x, r, lo, hi) && Top(elf) <= lo
    ensures IsElf(r, elf)
  {
    SubSlice(x, r, 0, lo, 0, Top(elf));
    FrontParses(x, r, elf);
  }

  /** A segment behind the headers after a touched step, if it is spared. */
  lemma TouchedSegment(tools: Tools, raw: seq<byte>, elf: Elf, t: nat, data: seq<byte>, new_: seq<byte>,
                       fixed: seq<byte>, r: seq<byte>, elf': Elf, i: nat)
    requires IsElf(raw, elf) && GoodLayout(elf) && Payload(elf, t) && Payload(elf, i)
    requires data == SegData(raw, elf.segs[t]) && data != [] && Fixed(raw, elf, t, |data|, new_) == Some(fixed)
    requires Finish(tools, raw, fixed, elf.segs[0], data, t) == Some(r) && elf' == FixedElf(elf, t, |data|, |new_|)
    requires Spares(tools, raw, fixed, elf', elf.segs[0], data, t, elf'.segs[i]) == true
    ensures SegData(r, elf'.segs[i]) == (if i == t then new_ else SegData(raw, elf.segs[i])) && Payload(elf', i)
  {
    BeforeDigests(raw, elf, t, data, new_, fixed, elf', i);
    SparedKept(tools, raw, fixed, elf', elf.segs[0], data, t, r, elf'.segs[i]);
  }

  lemma PayloadIn(elf: Elf, elf': Elf, t: nat, n: nat, m: nat, i: nat)
    requires GoodLayout(elf) && Payload(elf, t) && 0 < n <= elf.segs[t].filesz && Payload(elf, i)
    requires elf' == FixedElf(elf, t, n, m) && Top(elf') == Top(elf)
    ensures Payload(elf', i)
  {
    StillPayload(elf, t, n, m, i);
  }

  /** What the segment holds before digests are written. */
  lemma BeforeDigests(raw: seq<byte>, elf: Elf, t: nat, data: seq<byte>, new_: seq<byte>, fixed: seq<byte>,
                      elf': Elf, i: nat)
    requires IsElf(raw, elf) && GoodLayout(elf) && Payload(elf, t) && Payload(elf, i)
    requires data == SegData(raw, elf.segs[t]) && data != [] && Fixed(raw, elf, t, |data|, new_) == Some(fixed)
    requires elf' == FixedElf(elf, t, |data|, |new_|)
    ensures IsElf(fixed, elf') && GoodLayout(elf') && Payload(elf', i)
    ensures SegData(fixed, elf'.segs[i]) == if i == t then new_ else SegData(raw, elf.segs[i])
  {
    var n := |data|;
    DataInFile(raw, elf.segs[t], data);
    FixedLayout(raw, elf, t, n, new_, fixed, elf');
    PayloadIn(elf, elf', t, n, |new_|, i);
    FixedSegment(raw, elf, t, n, new_, fixed, i);
  }

  lemma FixedSegment(raw: seq<byte>, elf: Elf, t: nat, n: nat, new_: seq<byte>, fixed: seq<byte>, i: nat)
    requires IsElf(raw, elf) && GoodLayout(elf) && Payload(elf, t) && Payload(elf, i)
    requires Holds(elf, t, n, |raw|) && Fixed(raw, elf, t, n, new_) == Some(fixed)
    ensures SegData(fixed, FixedElf(elf, t, n, |new_|).segs[i]) == if i == t then new_ else SegData(raw, elf.segs[i])
  {
    if i == t {
      FixedTarget(raw, elf, t, n, new_, fixed);
    } else {
      ApartIn(elf, i, t);
      FixedOther(raw, elf, t, n, new_, fixed, i);
    }
  }

  /** Exactly when a segment behind the headers holds after a touched step what it should:
      no digest that changes is found in it. For any searched region; different digests
      are found apart from each other and not across the segment's ends. */
  lemma TouchedSegmentIff(tools: Tools, raw: seq<byte>, elf: Elf, t: nat, data: seq<byte>, new_: seq<byte>,
                          fixed: seq<byte>, r: seq<byte>, elf': Elf, i: nat, lo: nat, hi: nat, pairs: seq<DigestPair>)
    requires IsElf(raw, elf) && GoodLayout(elf) && Payload(elf, t) && Payload(elf, i)
    requires data == SegData(raw, elf.segs[t]) && data != [] && Fixed(raw, elf, t, |data|, new_) == Some(fixed)
    requires Finish(tools, raw, fixed, elf.segs[0], data, t) == Some(r) && elf' == FixedElf(elf, t, |data|, |new_|)
    requires HashRegion(elf'.segs, t, |fixed|) == (lo, hi) && pairs == Updates(tools, raw, fixed, elf.segs[0], data)
    requires Disjoint(fixed, pairs, lo, hi)
    requires forall p :: p in pairs ==> i < |elf'.segs| && Undivided(Find(fixed, p.0, lo, hi), elf'.segs[i])
    ensures i < |elf'.segs|
    ensures SegData(r, elf'.segs[i]) == (if i == t then new_ else SegData(raw, elf.segs[i]))
            <==> forall p :: p in pairs ==> Harmless(fixed, p, lo, hi, elf'.segs[i])
  {
    BeforeDigests(raw, elf, t, data, new_, fixed, elf', i);
    FinishIs(tools, raw, fixed, elf', elf.segs[0], data, t, r, lo, hi);
    KeptIff(fixed, pairs, lo, hi, elf'.segs[i]);
  }

  lemma StillPayload(elf: Elf, t: nat, n: nat, m: nat, i: nat)
    requires GoodLayout(elf) && Payload(elf, t) && 0 < n <= elf.segs[t].filesz && Payload(elf, i)
    requires Top(Resized(elf, t, elf.segs[t].offset, m - n, m)) == Top(elf)
    ensures Payload(Resized(elf, t, elf.segs[t].offset, m - n, m), i)
  {
    ResizedAt(elf, t, elf.segs[t].offset, m - n, m, i);
    if i != t {
      ApartIn(elf, i, t);
    }
  }

  /** A segment behind the headers after any step. */
  lemma StepSegment(tools: Tools, raw: seq<byte>, elf: Elf, t: nat, data: seq<byte>,
                    fixed: seq<byte>, r: seq<byte>, elf': Elf, i: nat)
    requires IsElf(raw, elf) && GoodLayout(elf) && Payload(elf, t) && data == SegData(raw, elf.segs[t])
    requires StepShape(tools, raw, elf, t, data, fixed, r) && elf' == StepElf(tools, raw, elf, t) && Payload(elf, i)
    requires IsTouched(tools, data) ==> Spares(tools, raw, fixed, elf', elf.segs[0], data, t, elf'.segs[i])
    ensures |elf'.segs| == |elf.segs| && Payload(elf', i)
    ensures SegData(r, elf'.segs[i]) == if i == t then Rebuilt(tools, data) else SegData(raw, elf.segs[i])
  {
    if IsTouched(tools, data) {
      TouchedSegment(tools, raw, elf, t, data, Rebuilt(tools, data), fixed, r, elf', i);
    } else {
      UntouchedSame(tools, data);
    }
  }

  // ---------------------------------------------------------------------
  // What a step does to the view
  // ---------------------------------------------------------------------

  /** `elf'` is `elf`, or `elf` with segment `t` resized from `n` bytes to `m`. */
  predicate ElfStep(elf: Elf, elf': Elf, t: nat, n: nat, m: nat) {
    elf' == elf
    || (&& t < |elf.segs| && 0 < n <= elf.segs[t].filesz && Top(elf') == Top(elf)
        && elf' == Resized(elf, t, elf.segs[t].offset, m - n, m))
  }

  lemma StepIsElfStep(tools: Tools, raw: seq<byte>, elf: Elf, t: nat, data: seq<byte>, fixed: seq<byte>, r: seq<byte>)
    requires IsElf(raw, elf) && TablesApart(elf) && Payload(elf, t)
    requires data == SegData(raw, elf.segs[t]) && StepShape(tools, raw, elf, t, data, fixed, r)
    ensures ElfStep(elf, StepElf(tools, raw, elf, t), t, |data|, |Rebuilt(tools, data)|)
  {
    if IsTouched(tools, data) {
      DataInFile(raw, elf.segs[t], data);
      FixedParses(raw, elf, t, |data|, Rebuilt(tools, data), fixed);
    }
  }

  // ---------------------------------------------------------------------
  // The whole run
  // ---------------------------------------------------------------------

  /** Every listed segment is behind the headers. */
  predicate AllBehind(elf: Elf, ts: seq<nat>) {
    ts != [] ==> Payload(elf, ts[0]) && AllBehind(elf, ts[1..])
  }

  /** Nothing is listed twice. */
  predicate Once(ts: seq<nat>) {
    ts != [] ==> ts[0] !in ts[1..] && Once(ts[1..])
  }

  lemma {:induction false} AllBehindKept(elf: Elf, elf': Elf, t: nat, n: nat, m: nat, ts: seq<nat>)
    requires GoodLayout(elf) && Payload(elf, t) && ElfStep(elf, elf', t, n, m) && AllBehind(elf, ts)
    ensures AllBehind(elf', ts)
    decreases ts
  {
    if ts != [] && elf' != elf {
      StillPayload(elf, t, n, m, ts[0]);
      AllBehindKept(elf, elf', t, n, m, ts[1..]);
    }
  }

  /** If a step changes segment `t`, no digest is found in the headers or in segment `i`. */
  predicate StepSpares(tools: Tools, raw: seq<byte>, elf: Elf, t: nat, i: nat)
    requires t < |elf.segs| && i < |elf.segs|
  {
    var data := SegData(raw, elf.segs[t]);
    var fixed, elf' := Fixed(raw, elf, t, |data|, Rebuilt(tools, data)), FixedElf(elf, t, |data|, |Rebuilt(tools, data)|);
    IsTouched(tools, data) && fixed.Some? ==>
      && Spares(tools, raw, fixed.value, elf', elf.segs[0], data, t, Front(elf'))
      && i < |elf'.segs|
      && Spares(tools, raw, fixed.value, elf', elf.segs[0], data, t, elf'.segs[i])
  }

  /** `StepSpares` in every state the run passes through. */
  predicate RunSpares(tools: Tools, raw: seq<byte>, elf: Elf, ts: seq<nat>, i: nat)
    decreases ts
  {
    ts != [] ==>
      && ts[0] < |elf.segs| && i < |elf.segs|
      && StepSpares(tools, raw, elf, ts[0], i)
      && (var step := PatchStep(tools, raw, ts[0]);
          step.Some? ==> RunSpares(tools, step.value.0, StepElf(tools, raw, elf, ts[0]), ts[1..], i))
  }

  lemma SparesOf(tools: Tools, raw: seq<byte>, elf: Elf, t: nat, data: seq<byte>, fixed: seq<byte>, r: seq<byte>,
                 elf': Elf, i: nat)
    requires t < |elf.segs| && i < |elf.segs| && StepSpares(tools, raw, elf, t, i)
    requires data == SegData(raw, elf.segs[t]) && StepShape(tools, raw, elf, t, data, fixed, r)
    requires elf' == StepElf(tools, raw, elf, t) && IsTouched(tools, data)
    ensures Spares(tools, raw, fixed, elf', elf.segs[0], data, t, Front(elf'))
    ensures i < |elf'.segs| && Spares(tools, raw, fixed, elf', elf.segs[0], data, t, elf'.segs[i])
  {
  }

  lemma RunHead(tools: Tools, raw: seq<byte>, ts: seq<nat>) returns (next: seq<byte>)
    requires ts != [] && PatchRun(tools, raw, ts).Some?
    ensures PatchStep(tools, raw, ts[0]).Some? && PatchStep(tools, raw, ts[0]).value.0 == next
    ensures PatchRun(tools, next, ts[1..]).Some?
    ensures PatchRun(tools, next, ts[1..]).value.0 == PatchRun(tools, raw, ts).value.0
  {
    next := PatchStep(tools, raw, ts[0]).value.0;
  }

  /** Over a run, a listed segment is rebuilt from what it originally held, and any other
      segment keeps its bytes. */
  lemma {:induction false} RunSegment(tools: Tools, raw: seq<byte>, elf: Elf, ts: seq<nat>, i: nat)
    returns (last: Elf)
    requires IsElf(raw, elf) && GoodLayout(elf) && AllBehind(elf, ts) && Once(ts) && PatchRun(tools, raw, ts).Some?
    requires Payload(elf, i) && RunSpares(tools, raw, elf, ts, i)
    ensures var r := PatchRun(tools, raw, ts).value.0;
            && IsElf(r, last) && GoodLayout(last) && |last.segs| == |elf.segs|
            && SegData(r, last.segs[i])
               == if i in ts then Rebuilt(tools, SegData(raw, elf.segs[i])) else SegData(raw, elf.segs[i])
    decreases ts
  {
    if ts == [] {
      last := elf;
    } else {
      var data := SegData(raw, elf.segs[ts[0]]);
      var next := RunHead(tools, raw, ts);
      var fixed := StepCases(tools, raw, elf, ts[0], data, next);
      var elf' := StepElf(tools, raw, elf, ts[0]);
      StepKeeps(tools, raw, elf, ts[0], data, fixed, next, elf', i, ts[1..]);
      last := RunSegment(tools, next, elf', ts[1..], i);
    }
  }

  /** Everything the rest of a run needs after its first step. */
  lemma StepKeeps(tools: Tools, raw: seq<byte>, elf: Elf, t: nat, data: seq<byte>, fixed: seq<byte>, next: seq<byte>,
                  elf': Elf, i: nat, rest: seq<nat>)
    requires IsElf(raw, elf) && GoodLayout(elf) && Payload(elf, t) && Payload(elf, i) && AllBehind(elf, rest) == true
    requires data == SegData(raw, elf.segs[t]) && StepShape(tools, raw, elf, t, data, fixed, next)
    requires elf' == StepElf(tools, raw, elf, t) && StepSpares(tools, raw, elf, t, i) == true
    ensures IsElf(next, elf') && GoodLayout(elf') && |elf'.segs| == |elf.segs|
    ensures AllBehind(elf', rest) && Payload(elf', i)
    ensures SegData(next, elf'.segs[i]) == if i == t then Rebuilt(tools, data) else SegData(raw, elf.segs[i])
  {
    if IsTouched(tools, data) {
      SparesOf(tools, raw, elf, t, data, fixed, next, elf', i);
    }
    StepSegment(tools, raw, elf, t, data, fixed, next, elf', i);
    StepLayout(tools, raw, elf, t, data, fixed, next, elf');
    StepIsElfStep(tools, raw, elf, t, data, fixed, next);
    AllBehindKept(elf, elf', t, |data|, |Rebuilt(tools, data)|, rest);
  }

  // ---------------------------------------------------------------------
  // Images whose digests are kept in a PT_NULL segment behind
  // ---------------------------------------------------------------------

  /** Behind every listed segment there is a PT_NULL segment; the first one is behind the
      headers and is not segment `i`. */
  ghost predicate HashBehind(elf: Elf, ts: seq<nat>, i: nat) {
    ts != [] ==>
      (exists h :: FirstNull(elf.segs, ts[0], h) && Payload(elf, h) && h != i) && HashBehind(elf, ts[1..], i)
  }

  lemma {:induction false} HashBehindKept(elf: Elf, elf': Elf, t: nat, n: nat, m: nat, ts: seq<nat>, i: nat)
    requires GoodLayout(elf) && Payload(elf, t) && ElfStep(elf, elf', t, n, m) && HashBehind(elf, ts, i)
    ensures HashBehind(elf', ts, i)
    decreases ts
  {
    if ts != [] && elf' != elf {
      var h :| FirstNull(elf.segs, ts[0], h) && Payload(elf, h) && h != i;
      StillPayload(elf, t, n, m, h);
      NullKept(elf, elf', t, n, m, ts[0], h);
      HashBehindKept(elf, elf', t, n, m, ts[1..], i);
    }
  }

  /** One step of such an image. */
  lemma HashSegmentSpares(tools: Tools, raw: seq<byte>, elf: Elf, t: nat, i: nat, h: nat)
    requires IsElf(raw, elf) && GoodLayout(elf) && Payload(elf, t) && Payload(elf, i) && Payload(elf, h) && h != i
    requires FirstNull(elf.segs, t, h)
    ensures StepSpares(tools, raw, elf, t, i)
  {
    var data := SegData(raw, elf.segs[t]);
    var w, elf' := Fixed(raw, elf, t, |data|, Rebuilt(tools, data)), FixedElf(elf, t, |data|, |Rebuilt(tools, data)|);
    if IsTouched(tools, data) && w.Some? {
      TouchedNotEmpty(tools, data);
      HashSegmentBoth(tools, raw, elf, t, i, h, data, Rebuilt(tools, data), w.value, elf');
    }
  }

  lemma HashSegmentBoth(tools: Tools, raw: seq<byte>, elf: Elf, t: nat, i: nat, h: nat, data: seq<byte>,
                        new_: seq<byte>, fixed: seq<byte>, elf': Elf)
    requires IsElf(raw, elf) && GoodLayout(elf) && Payload(elf, t) && Payload(elf, i) && Payload(elf, h) && h != i
    requires FirstNull(elf.segs, t, h) && data == SegData(raw, elf.segs[t]) && data != []
    requires Fixed(raw, elf, t, |data|, new_) == Some(fixed) && elf' == FixedElf(elf, t, |data|, |new_|)
    ensures Spares(tools, raw, fixed, elf', elf.segs[0], data, t, Front(elf')) && i < |elf'.segs|
    ensures Spares(tools, raw, fixed, elf', elf.segs[0], data, t, elf'.segs[i])
  {
    var n, m, ph0 := |data|, |new_|, elf.segs[0];
    NullKept(elf, elf', t, n, m, t, h);
    HomeAway(raw, elf, t, i, h, data, new_, fixed, elf');
    SparedByHash(tools, raw, fixed, elf', ph0, data, t, h, Front(elf'));
    SparedByHash(tools, raw, fixed, elf', ph0, data, t, h, elf'.segs[i]);
  }

  lemma SparedByHash(tools: Tools, raw: seq<byte>, fixed: seq<byte>, elf': Elf, ph0: Seg, data: seq<byte>,
                     t: nat, h: nat, s: Seg)
    requires FirstNull(elf'.segs, t, h) && Apart(s, elf'.segs[h])
    ensures Spares(tools, raw, fixed, elf', ph0, data, t, s)
  {
    HashSegmentHomes(tools, raw, fixed, elf', ph0, data, t, h);
    HomeSpares(tools, raw, fixed, elf', ph0, data, t, h, s);
  }

  /** Such an image spares every segment that is no hash segment, whatever its bytes. */
  lemma {:induction false} HashBehindSpares(tools: Tools, raw: seq<byte>, elf: Elf, ts: seq<nat>, i: nat)
    requires IsElf(raw, elf) && GoodLayout(elf) && AllBehind(elf, ts) && Payload(elf, i) && HashBehind(elf, ts, i)
    ensures RunSpares(tools, raw, elf, ts, i)
    decreases ts
  {
    if ts != [] {
      var t, data, elf' := ts[0], SegData(raw, elf.segs[ts[0]]), StepElf(tools, raw, elf, ts[0]);
      var h :| FirstNull(elf.segs, t, h) && Payload(elf, h) && h != i;
      HashSegmentSpares(tools, raw, elf, t, i, h);
      var step := PatchStep(tools, raw, t);
      if step.Some? {
        HashBehindStep(tools, raw, elf, t, i, data, step.value.0, elf', ts[1..]);
        HashBehindSpares(tools, step.value.0, elf', ts[1..], i);
      }
    }
  }

  lemma HashBehindStep(tools: Tools, raw: seq<byte>, elf: Elf, t: nat, i: nat, data: seq<byte>, next: seq<byte>,
                       elf': Elf, rest: seq<nat>)
    requires IsElf(raw, elf) && GoodLayout(elf) && Payload(elf, t) && Payload(elf, i) && data == SegData(raw, elf.segs[t])
    requires PatchStep(tools, raw, t).Some? && PatchStep(tools, raw, t).value.0 == next
    requires elf' == StepElf(tools, raw, elf, t) && StepSpares(tools, raw, elf, t, i) == true
    requires AllBehind(elf, rest) == true && HashBehind(elf, rest, i) == true
    ensures IsElf(next, elf') && GoodLayout(elf') && Payload(elf', i) && AllBehind(elf', rest) && HashBehind(elf', rest, i)
  {
    var fixed := StepCases(tools, raw, elf, t, data, next);
    StepKeeps(tools, raw, elf, t, data, fixed, next, elf', i, rest);
    StepIsElfStep(tools, raw, elf, t, data, fixed, next);
    HashBehindKept(elf, elf', t, |data|, |Rebuilt(tools, data)|, rest, i);
  }

  // ---------------------------------------------------------------------
  // The program
  // ---------------------------------------------------------------------

  lemma {:induction false} ListedIff(raw: seq<byte>, segs: seq<Seg>, k: nat, i: nat)
    requires i < |segs|
    ensures i in DtbSegments(raw, segs, k) <==> k <= i && Scan(SegData(raw, segs[i])) != []
    decreases Max(0, |segs| - k)
  {
    if k < |segs| {
      ListedIff(raw, segs, k + 1, i);
      InEither(if Scan(SegData(raw, segs[k])) != [] then [k] else [], DtbSegments(raw, segs, k + 1), i);
    }
  }

  lemma InEither(a: seq<nat>, b: seq<nat>, i: nat)
    ensures i in a + b <==> i in a || i in b
  {
  }

  /** The program lists no segment twice. */
  lemma {:induction false} ListedOnce(raw: seq<byte>, segs: seq<Seg>, k: nat)
    ensures Once(DtbSegments(raw, segs, k))
    decreases Max(0, |segs| - k)
  {
    if k < |segs| {
      var rest := DtbSegments(raw, segs, k + 1);
      ListedOnce(raw, segs, k + 1);
      if Scan(SegData(raw, segs[k])) != [] {
        ListedIff(raw, segs, k + 1, k);
        assert ([k] + rest)[1..] == rest;
      } else {
        assert [] + rest == rest;
      }
    }
  }

  lemma NothingToRebuild(tools: Tools, data: seq<byte>)
    requires Scan(data) == []
    ensures Rebuilt(tools, data) == data
  {
    ScanInOrder(data);
    UntouchedFrom(tools, data, Scan(data), 0);
  }

  /** The output of `_patch_uefi_dtbs`: every segment behind the headers in which no digest
      is found holds its original bytes with each certificate-bearing device tree replaced
      once by its patched form, and every other byte as it was. */
  lemma PatchUefiSegments(tools: Tools, raw: seq<byte>, elf: Elf, r: seq<byte>, i: nat) returns (last: Elf)
    requires ParseElf(raw) == Some(elf) && GoodLayout(elf)
    requires PatchUefi(tools, raw).Some? && PatchUefi(tools, raw).value.0 == r
    requires AllBehind(elf, DtbSegments(raw, elf.segs, 0)) && Payload(elf, i)
    requires RunSpares(tools, raw, elf, DtbSegments(raw, elf.segs, 0), i)
    ensures ParseElf(r) == Some(last) && |last.segs| == |elf.segs|
    ensures SegData(r, last.segs[i]) == Rebuilt(tools, SegData(raw, elf.segs[i]))
  {
    var ts := DtbSegments(raw, elf.segs, 0);
    ListedOnce(raw, elf.segs, 0);
    last := RunSegment(tools, raw, elf, ts, i);
    ListedIff(raw, elf.segs, 0, i);
    if i !in ts {
      NothingToRebuild(tools, SegData(raw, elf.segs[i]));
    }
  }
}
