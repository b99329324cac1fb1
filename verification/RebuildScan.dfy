// Scanning a rebuilt segment finds the same device trees again, displaced and
// in their new form.
module RebuildScan {
  import opened Bytes
  import opened DtbScan
  import opened SegmentRebuild

  /** A device tree by itself: magic word, and its own length behind it. */
  predicate IsDtb(d: seq<byte>) {
    |d| >= 8 && WordAt(d, 0) == DTB_MAGIC && WordAt(d, 4) == |d|
  }

  /** What libfdt promises of a device tree it has grown (by a multiple of 4). */
  predicate GoodPatch(tools: Tools, d: seq<byte>) {
    tools.patchDtb(d).Patched? ==>
      IsDtb(After(tools, d)) && |After(tools, d)| >= |d| && Aligned(|After(tools, d)| - |d|)
  }

  predicate GoodPatches(tools: Tools, data: seq<byte>, ds: seq<Dtb>) {
    forall k :: 0 <= k < |ds| && ds[k].End() <= |data| ==> GoodPatch(tools, Body(data, ds[k]))
  }

  /** No aligned word in `data[lo..hi]` is the magic word. */
  predicate NoMagic(data: seq<byte>, lo: nat, hi: nat) {
    forall p: nat {:trigger MagicAt(data, p)} :: lo <= p < hi && Aligned(p) ==> !MagicAt(data, p)
  }

  /** No aligned magic word between the device trees or after the last one. */
  predicate QuietGaps(data: seq<byte>, ds: seq<Dtb>, e: nat) {
    if ds == [] then NoMagic(data, Align4(e), |data|)
    else NoMagic(data, Align4(e), ds[0].off) && QuietGaps(data, ds[1..], ds[0].End())
  }

  // ---------------------------------------------------------------------
  // The new device trees are where `NewDtbs` says
  // ---------------------------------------------------------------------

  /** `new_`, from `pos` on, holds the gaps and new device trees one after the other. */
  predicate Laid(tools: Tools, data: seq<byte>, ds: seq<Dtb>, e: nat, new_: seq<byte>, pos: nat)
    requires InOrder(ds, e, |data|)
    decreases ds
  {
    if ds == [] then pos <= |new_| && new_[pos..] == data[e..]
    else
      var out, o := After(tools, Body(data, ds[0])), pos + (ds[0].off - e);
      && o + |out| <= |new_|
      && new_[pos..o] == data[e..ds[0].off]
      && new_[o..o + |out|] == out
      && Laid(tools, data, ds[1..], ds[0].End(), new_, o + |out|)
  }

  lemma {:induction false} RebuildIsLaid(tools: Tools, data: seq<byte>, ds: seq<Dtb>, e: nat,
                                         done: seq<byte>, new_: seq<byte>)
    requires InOrder(ds, e, |data|) && new_ == done + RebuildFrom(tools, data, ds, e)
    ensures Laid(tools, data, ds, e, new_, |done|)
    decreases ds
  {
    if ds != [] {
      var gap, out := data[e..ds[0].off], After(tools, Body(data, ds[0]));
      var rest := RebuildFrom(tools, data, ds[1..], ds[0].End());
      Append(done, gap + out, rest);
      Middle(done, gap, out, rest, new_);
      RebuildIsLaid(tools, data, ds[1..], ds[0].End(), done + (gap + out), new_);
    }
  }

  lemma Middle(a: seq<byte>, b: seq<byte>, c: seq<byte>, d: seq<byte>, s: seq<byte>)
    requires s == a + (b + c) + d
    ensures |a| + |b| + |c| <= |s| && |a + (b + c)| == |a| + |b| + |c|
    ensures s[|a|..|a| + |b|] == b
    ensures s[|a| + |b|..|a| + |b| + |c|] == c
  {
  }

  lemma {:induction false} NewBodyAt(tools: Tools, data: seq<byte>, ds: seq<Dtb>, e: nat,
                                     new_: seq<byte>, pos: nat, k: nat)
    requires InOrder(ds, e, |data|) && k < |ds| && Laid(tools, data, ds, e, new_, pos)
    ensures |NewDtbs(tools, data, ds, e, pos)| == |ds|
    ensures ds[k].End() <= |data|
    ensures var nd := NewDtbs(tools, data, ds, e, pos)[k];
            nd.End() <= |new_| && Body(new_, nd) == After(tools, Body(data, ds[k]))
    decreases ds
  {
    NewDtbsLength(tools, data, ds, e, pos);
    if k > 0 {
      var next := pos + (ds[0].off - e) + |After(tools, Body(data, ds[0]))|;
      NewBodyAt(tools, data, ds[1..], ds[0].End(), new_, next, k - 1);
    }
  }

  lemma {:induction false} NewDtbsLength(tools: Tools, data: seq<byte>, ds: seq<Dtb>, e: nat, pos: nat)
    requires InOrder(ds, e, |data|)
    ensures |NewDtbs(tools, data, ds, e, pos)| == |ds|
    decreases ds
  {
    if ds != [] {
      var o := pos + (ds[0].off - e) + |After(tools, Body(data, ds[0]))|;
      NewDtbsLength(tools, data, ds[1..], ds[0].End(), o);
    }
  }

  // ---------------------------------------------------------------------
  // Rescanning
  // ---------------------------------------------------------------------

  lemma SameByte(s: seq<byte>, p: nat, t: seq<byte>, q: nat, len: nat, i: nat)
    requires p + len <= |s| && q + len <= |t| && s[p..p + len] == t[q..q + len] && i < len
    ensures s[p + i] == t[q + i]
  {
    assert s[p + i] == s[p..p + len][i] && t[q + i] == t[q..q + len][i];
  }

  lemma SameWord(s: seq<byte>, p: nat, t: seq<byte>, q: nat, len: nat, i: nat)
    requires p + len <= |s| && q + len <= |t| && s[p..p + len] == t[q..q + len] && i + 4 <= len
    ensures WordAt(s, p + i) == WordAt(t, q + i)
  {
    SameByte(s, p, t, q, len, i);
    SameByte(s, p, t, q, len, i + 1);
    SameByte(s, p, t, q, len, i + 2);
    SameByte(s, p, t, q, len, i + 3);
  }

  /** A magic word at `p` with a size that fits when it stands at `q` of `n` bytes. */
  predicate FitsAt(data: seq<byte>, p: nat, q: nat, n: nat) {
    MagicAt(data, p) && 8 <= WordAt(data, p + 4) && q + WordAt(data, p + 4) <= n
  }

  /** No aligned position of the gap `data[e..hi]` becomes a device tree when the gap
      stands at `pos` of `n` bytes. */
  predicate GapStays(data: seq<byte>, e: nat, hi: nat, pos: nat, n: nat) {
    forall p: nat {:trigger MagicAt(data, p)} ::
      Align4(e) <= p < hi && Aligned(p) && e <= p ==> !FitsAt(data, p, pos + (p - e), n)
  }

  /** `new_` at `pos` is the gap `old_[e..hi]`, followed by the same word or by nothing. */
  predicate SameGap(old_: seq<byte>, new_: seq<byte>, e: nat, hi: nat, pos: nat) {
    && e <= hi <= |old_| && pos + (hi - e) <= |new_|
    && if hi == |old_| then new_[pos..] == old_[e..]
       else && Aligned(hi) && hi + 8 <= |old_| && pos + (hi - e) + 8 <= |new_|
            && new_[pos..pos + (hi - e) + 4] == old_[e..hi + 4]
  }

  lemma GapWord(old_: seq<byte>, new_: seq<byte>, e: nat, hi: nat, pos: nat, p: nat)
    requires SameGap(old_, new_, e, hi, pos) && e <= p < hi && Aligned(p)
    ensures ValidAt(new_, pos + (p - e)) <==> FitsAt(old_, p, pos + (p - e), |new_|)
  {
    if hi < |old_| {
      AlignedGap(p, hi);
      HeaderCopied(new_, pos, old_, e, hi + 4 - e, p - e, pos + (p - e), p);
    } else if p + 8 <= |old_| {
      assert new_[pos..pos + (hi - e)] == old_[e..e + (hi - e)];
      HeaderCopied(new_, pos, old_, e, hi - e, p - e, pos + (p - e), p);
    }
  }

  lemma HeaderCopied(s: seq<byte>, p: nat, t: seq<byte>, q: nat, len: nat, i: nat, at: nat, from: nat)
    requires p + len <= |s| && q + len <= |t| && s[p..p + len] == t[q..q + len] && i + 8 <= len
    requires at == p + i && from == q + i
    ensures ValidAt(s, at) <==> FitsAt(t, from, at, |s|)
  {
    SameWord(s, p, t, q, len, i);
    SameWord(s, p, t, q, len, i + 4);
  }

  /** A gap moved by a multiple of four shows no device tree exactly if it stays one. */
  lemma GapIff(old_: seq<byte>, new_: seq<byte>, e: nat, hi: nat, pos: nat, m: int)
    requires SameGap(old_, new_, e, hi, pos) && pos == e + 4 * m
    ensures NoneValid(new_, Align4(pos), pos + (hi - e)) <==> GapStays(old_, e, hi, pos, |new_|)
  {
    Align4Shift(e, m);
    if NoneValid(new_, Align4(pos), pos + (hi - e)) {
      forall p: nat | Align4(e) <= p < hi && Aligned(p) && e <= p
        ensures !FitsAt(old_, p, pos + (p - e), |new_|)
      {
        AlignedShift(p, m);
        GapWord(old_, new_, e, hi, pos, p);
      }
    }
    if GapStays(old_, e, hi, pos, |new_|) {
      forall q: nat | Align4(pos) <= q < pos + (hi - e) && Aligned(q)
        ensures !ValidAt(new_, q)
      {
        AlignUp(e);
        AlignedShift(q, -m);
        AtLeast(e);
        GapWord(old_, new_, e, hi, pos, q - 4 * m);
        assert !FitsAt(old_, q - 4 * m, q, |new_|);
      }
    }
  }

  lemma AtLeast(e: nat)
    ensures e <= Align4(e)
  {
    Align4IsMask(e);
  }

  /** A device tree found where it was put. */
  lemma FoundAt(s: seq<byte>, o: nat, out: seq<byte>)
    requires o + |out| <= |s| && s[o..o + |out|] == out && IsDtb(out)
    ensures ValidAt(s, o) && WordAt(s, o + 4) == |out|
  {
    assert out[0..|out|] == out;
    SameWord(s, o, out, 0, |out|, 0);
    SameWord(s, o, out, 0, |out|, 4);
  }

  lemma BodyIsDtb(data: seq<byte>, d: Dtb)
    requires d.End() <= |data| && ValidAt(data, d.off) && d.size == WordAt(data, d.off + 4)
    ensures IsDtb(Body(data, d))
  {
    var b := Body(data, d);
    assert b[0..|b|] == b;
    SameWord(b, 0, data, d.off, d.size, 0);
    SameWord(b, 0, data, d.off, d.size, 4);
  }

  /** A device tree keeps its form, replaced or not; `j` words are added. */
  lemma AfterIsDtb(tools: Tools, data: seq<byte>, d: Dtb) returns (j: int)
    requires d.End() <= |data| && ValidAt(data, d.off) && d.size == WordAt(data, d.off + 4)
    requires GoodPatch(tools, Body(data, d))
    ensures IsDtb(After(tools, Body(data, d)))
    ensures |After(tools, Body(data, d))| == d.size + 4 * j
  {
    BodyIsDtb(data, d);
    var grow := |After(tools, Body(data, d))| - d.size;
    AlignedIsMultiple(grow);
    j := grow / 4;
  }

  /** The gaps between device trees, and the one behind them, stay gaps. `pos` is where `e`
      has moved to, `n` the new length. */
  predicate GapsStay(tools: Tools, data: seq<byte>, ds: seq<Dtb>, e: nat, pos: nat, n: nat)
    requires InOrder(ds, e, |data|)
    decreases ds
  {
    if ds == [] then GapStays(data, e, |data|, pos, n)
    else
      && GapStays(data, e, ds[0].off, pos, n)
      && GapsStay(tools, data, ds[1..], ds[0].End(),
                  pos + (ds[0].off - e) + |After(tools, Body(data, ds[0]))|, n)
  }

  /** `d` is a device tree of `data` whose replacement is well formed. */
  predicate GoodTree(tools: Tools, data: seq<byte>, d: Dtb) {
    && d.End() <= |data| && Aligned(d.off) && ValidAt(data, d.off) && d.size == WordAt(data, d.off + 4)
    && GoodPatch(tools, Body(data, d))
  }

  predicate GoodTrees(tools: Tools, data: seq<byte>, ds: seq<Dtb>) {
    ds != [] ==> GoodTree(tools, data, ds[0]) && GoodTrees(tools, data, ds[1..])
  }

  lemma {:induction false} MakeGood(tools: Tools, data: seq<byte>, ds: seq<Dtb>, lo: nat)
    requires IsScan(data, lo, ds) && GoodPatches(tools, data, ds)
    ensures GoodTrees(tools, data, ds)
    decreases ds
  {
    if ds != [] {
      assert GoodPatch(tools, Body(data, ds[0]));
      GoodPatchesTail(tools, data, ds);
      MakeGood(tools, data, ds[1..], Align4(ds[0].End()));
    }
  }

  lemma {:induction false} RescanFrom(tools: Tools, data: seq<byte>, ds: seq<Dtb>, e: nat,
                                      done: seq<byte>, new_: seq<byte>, m: int)
    requires InOrder(ds, e, |data|) && GoodTrees(tools, data, ds) && |done| == e + 4 * m
    requires new_ == done + RebuildFrom(tools, data, ds, e)
    ensures IsScan(new_, Align4(|done|), NewDtbs(tools, data, ds, e, |done|))
       <==> GapsStay(tools, data, ds, e, |done|, |new_|)
    decreases ds
  {
    var pos := |done|;
    if ds == [] {
      assert new_[pos..] == data[e..];
      GapIff(data, new_, e, |data|, pos, m);
    } else {
      var done', m', d := RescanNext(tools, data, ds, e, done, new_, m);
      RescanFrom(tools, data, ds[1..], ds[0].End(), done', new_, m');
      ScanParts(new_, Align4(pos), d, NewDtbs(tools, data, ds[1..], ds[0].End(), d.End()));
    }
  }

  /** `d` is a device tree at or behind `lo`. */
  predicate Stands(data: seq<byte>, lo: nat, d: Dtb) {
    lo <= d.off && Aligned(d.off) && ValidAt(data, d.off) && d.size == WordAt(data, d.off + 4)
  }

  lemma ScanParts(data: seq<byte>, lo: nat, d: Dtb, ds: seq<Dtb>)
    requires Stands(data, lo, d)
    ensures IsScan(data, lo, [d] + ds) <==> NoneValid(data, lo, d.off) && IsScan(data, Align4(d.End()), ds)
  {
    assert ([d] + ds)[1..] == ds;
  }

  /** Over the next gap and device tree, with what has been rebuilt so far. */
  lemma RescanNext(tools: Tools, data: seq<byte>, ds: seq<Dtb>, e: nat, done: seq<byte>, new_: seq<byte>, m: int)
    returns (done': seq<byte>, m': int, d: Dtb)
    requires InOrder(ds, e, |data|) && GoodTrees(tools, data, ds) && ds != [] && |done| == e + 4 * m
    requires new_ == done + RebuildFrom(tools, data, ds, e)
    ensures InOrder(ds[1..], ds[0].End(), |data|) && GoodTrees(tools, data, ds[1..])
    ensures new_ == done' + RebuildFrom(tools, data, ds[1..], ds[0].End())
    ensures |done'| == ds[0].End() + 4 * m' == d.End()
    ensures d == Dtb(|done| + (ds[0].off - e), |After(tools, Body(data, ds[0]))|)
    ensures Stands(new_, Align4(|done|), d) == true
    ensures NoneValid(new_, Align4(|done|), d.off) <==> GapStays(data, e, ds[0].off, |done|, |new_|)
  {
    var gap, out := data[e..ds[0].off], After(tools, Body(data, ds[0]));
    var rest := RebuildFrom(tools, data, ds[1..], ds[0].End());
    done' := done + (gap + out);
    d := Dtb(|done| + |gap|, |out|);
    Append(done, gap + out, rest);
    Middle(done, gap, out, rest, new_);
    m' := RescanHead(tools, data, ds[0], e, new_, m, |done|, d.off, out);
  }

  /** Over the next gap and device tree of a rebuilt segment. */
  lemma RescanHead(tools: Tools, data: seq<byte>, d: Dtb, e: nat, new_: seq<byte>, m: int, pos: nat,
                   o: nat, out: seq<byte>)
    returns (m': int)
    requires GoodTree(tools, data, d) && e <= d.off && pos == e + 4 * m && o == pos + (d.off - e)
    requires out == After(tools, Body(data, d)) && o + |out| <= |new_|
    requires new_[pos..o] == data[e..d.off] && new_[o..o + |out|] == out
    ensures o + |out| == d.End() + 4 * m'
    ensures Stands(new_, Align4(pos), Dtb(o, |out|)) == true
    ensures NoneValid(new_, Align4(pos), o) <==> GapStays(data, e, d.off, pos, |new_|)
  {
    var j := AfterIsDtb(tools, data, d);
    m' := m + j;
    FoundAt(new_, o, out);
    AlignedShift(d.off, m);
    AlignStep(pos, o);
    MagicFollows(data, new_, e, d.off, pos, o);
    GapIff(data, new_, e, d.off, pos, m);
  }

  /** Both gaps are followed by a device tree, so the word behind them is the same. */
  lemma MagicFollows(old_: seq<byte>, new_: seq<byte>, e: nat, hi: nat, pos: nat, o: nat)
    requires e <= hi && o == pos + (hi - e) && Aligned(hi) && MagicAt(old_, hi) && MagicAt(new_, o)
    requires new_[pos..o] == old_[e..hi]
    ensures SameGap(old_, new_, e, hi, pos)
  {
    SameMagic(old_, new_, hi, o);
    assert new_[pos..o + 4] == new_[pos..o] + new_[o..o + 4];
    assert old_[e..hi + 4] == old_[e..hi] + old_[hi..hi + 4];
  }

  lemma SameMagic(s: seq<byte>, t: seq<byte>, p: nat, q: nat)
    requires MagicAt(s, p) && MagicAt(t, q)
    ensures s[p..p + 4] == t[q..q + 4]
  {
    MagicBytes(s, p);
    MagicBytes(t, q);
  }

  lemma MagicBytes(s: seq<byte>, p: nat)
    requires MagicAt(s, p)
    ensures s[p..p + 4] == [0xD0, 0x0D, 0xFE, 0xED]
  {
    var a, b, c, d := s[p], s[p + 1], s[p + 2], s[p + 3];
    assert a == 0xD0;
    assert b == 0x0D;
    assert c == 0xFE && d == 0xED;
  }

  lemma GoodPatchesTail(tools: Tools, data: seq<byte>, ds: seq<Dtb>)
    requires ds != [] && GoodPatches(tools, data, ds)
    ensures GoodPatches(tools, data, ds[1..])
  {
    forall k | 0 <= k < |ds[1..]| && ds[1..][k].End() <= |data|
      ensures GoodPatch(tools, Body(data, ds[1..][k]))
    {
      assert ds[1..][k] == ds[k + 1];
    }
  }

  /** Every replacement is well formed, and no gap holds a magic word whose size fits in its
      new place. */
  predicate Rescannable(tools: Tools, data: seq<byte>) {
    ScanInOrder(data);
    && GoodPatches(tools, data, Scan(data))
    && GapsStay(tools, data, Scan(data), 0, 0, |Rebuilt(tools, data)|)
  }

  /** Rescanning a rebuilt segment, all replacements well formed, reports the same device
      trees, displaced, if and only if no gap holds a magic word whose size fits in its
      new place. */
  lemma RescanIff(tools: Tools, data: seq<byte>)
    requires GoodPatches(tools, data, Scan(data))
    ensures InOrder(Scan(data), 0, |data|)
    ensures Scan(Rebuilt(tools, data)) == NewDtbs(tools, data, Scan(data), 0, 0) <==> Rescannable(tools, data)
  {
    var ds, new_ := Scan(data), Rebuilt(tools, data);
    ScanIsScan(data, 0);
    ScanInOrder(data);
    MakeGood(tools, data, ds, 0);
    assert new_ == [] + RebuildFrom(tools, data, ds, 0);
    RescanFrom(tools, data, ds, 0, [], new_, 0);
    ScanExact(new_, NewDtbs(tools, data, ds, 0, 0));
  }

  lemma Rescan(tools: Tools, data: seq<byte>)
    requires Rescannable(tools, data)
    ensures InOrder(Scan(data), 0, |data|)
    ensures Scan(Rebuilt(tools, data)) == NewDtbs(tools, data, Scan(data), 0, 0)
    ensures |Scan(Rebuilt(tools, data))| == |Scan(data)|
  {
    RescanIff(tools, data);
    NewDtbsLength(tools, data, Scan(data), 0, 0);
  }

  /** Gaps without any magic word stay gaps. */
  lemma QuietSuffices(tools: Tools, data: seq<byte>)
    requires QuietGaps(data, Scan(data), 0) && GoodPatches(tools, data, Scan(data))
    ensures Rescannable(tools, data)
  {
    ScanInOrder(data);
    QuietStays(tools, data, Scan(data), 0, 0, |Rebuilt(tools, data)|);
  }

  lemma {:induction false} QuietStays(tools: Tools, data: seq<byte>, ds: seq<Dtb>, e: nat, pos: nat, n: nat)
    requires InOrder(ds, e, |data|) && QuietGaps(data, ds, e)
    ensures GapsStay(tools, data, ds, e, pos, n)
    decreases ds
  {
    if ds == [] {
      QuietGap(data, e, |data|, pos, n);
    } else {
      QuietGap(data, e, ds[0].off, pos, n);
      QuietStays(tools, data, ds[1..], ds[0].End(), pos + (ds[0].off - e) + |After(tools, Body(data, ds[0]))|, n);
    }
  }

  lemma QuietGap(data: seq<byte>, e: nat, hi: nat, pos: nat, n: nat)
    requires NoMagic(data, Align4(e), hi)
    ensures GapStays(data, e, hi, pos, n)
  {
    forall p: nat | Align4(e) <= p < hi && Aligned(p) && e <= p
      ensures !FitsAt(data, p, pos + (p - e), n)
    {
      assert !MagicAt(data, p);
    }
  }

  lemma RescanBody(tools: Tools, data: seq<byte>, k: nat)
    requires Rescannable(tools, data) && k < |Scan(data)|
    ensures |Scan(Rebuilt(tools, data))| == |Scan(data)|
    ensures Scan(data)[k].End() <= |data|
    ensures Scan(Rebuilt(tools, data))[k].End() <= |Rebuilt(tools, data)|
    ensures Body(Rebuilt(tools, data), Scan(Rebuilt(tools, data))[k])
         == After(tools, Body(data, Scan(data)[k]))
  {
    Rescan(tools, data);
    assert Rebuilt(tools, data) == [] + RebuildFrom(tools, data, Scan(data), 0);
    RebuildIsLaid(tools, data, Scan(data), 0, [], Rebuilt(tools, data));
    NewBodyAt(tools, data, Scan(data), 0, Rebuilt(tools, data), 0, k);
  }

  // ---------------------------------------------------------------------
  // Reports
  // ---------------------------------------------------------------------

  /** There is one report for each device tree: at the place where it stands in the
      rebuilt segment, with what became of it. */
  lemma {:induction false} ReportAt(tools: Tools, data: seq<byte>, ds: seq<Dtb>, e: nat, pos: nat,
                                    seg: nat, idx: nat, k: nat)
    requires InOrder(ds, e, |data|) && k < |ds|
    ensures |Reports(tools, data, ds, e, pos, seg, idx)| == |ds| == |NewDtbs(tools, data, ds, e, pos)|
    ensures ds[k].End() <= |data|
    ensures Reports(tools, data, ds, e, pos, seg, idx)[k]
         == Report(seg, idx + k, NewDtbs(tools, data, ds, e, pos)[k].off, tools.patchDtb(Body(data, ds[k])))
    decreases ds
  {
    ReportsLength(tools, data, ds, e, pos, seg, idx);
    NewDtbsLength(tools, data, ds, e, pos);
    if k > 0 {
      var next := pos + (ds[0].off - e) + |After(tools, Body(data, ds[0]))|;
      ReportAt(tools, data, ds[1..], ds[0].End(), next, seg, idx + 1, k - 1);
    }
  }

  lemma {:induction false} ReportsLength(tools: Tools, data: seq<byte>, ds: seq<Dtb>, e: nat, pos: nat, seg: nat, idx: nat)
    requires InOrder(ds, e, |data|)
    ensures |Reports(tools, data, ds, e, pos, seg, idx)| == |ds|
    decreases ds
  {
    if ds != [] {
      var next := pos + (ds[0].off - e) + |After(tools, Body(data, ds[0]))|;
      ReportsLength(tools, data, ds[1..], ds[0].End(), next, seg, idx + 1);
    }
  }
}
