// The table of digests stays right: if every slot of the hash segment holds
// the digest of its segment or device tree before a step of
// `_patch_uefi_dtbs`, it does so after the step, including the slot of the
// segment that holds the rewritten ELF headers.
module UefiHashes {
  import opened Bytes
  import opened Tables
  import opened DtbScan
  import opened SegmentRebuild
  import opened RebuildScan
  import opened ElfImage
  import opened ElfSplice
  import opened Resize
  import opened UefiDtbs
  import opened DigestWrites
  import opened UefiRun
  import opened DigestSlots
  import opened ZeroGrowth

  // ---------------------------------------------------------------------
  // Agreement
  // ---------------------------------------------------------------------

  /** Device tree `k` of a segment. */
  function TreeOf(data: seq<byte>, k: nat): Option<seq<byte>> {
    var ds := Scan(data);
    if k < |ds| && ds[k].End() <= |data| then Some(Body(data, ds[k])) else None
  }

  function Content(raw: seq<byte>, elf: Elf, u: Subject): Option<seq<byte>> {
    if u.seg >= |elf.segs| then None
    else
      var data := SegData(raw, elf.segs[u.seg]);
      match u
      case Whole(_) => Some(data)
      case Tree(_, k) => TreeOf(data, k)
  }

  /** The slot holds the digest of its subject. */
  predicate Agrees(tools: Tools, raw: seq<byte>, elf: Elf, hashes: seq<byte>, s: Slot) {
    var c := Content(raw, elf, s.of);
    c.Some? && OccursAt(hashes, tools.sha384(c.value), s.at)
  }

  ghost predicate AllAgree(tools: Tools, raw: seq<byte>, elf: Elf, h: nat, slots: set<Slot>)
    requires h < |elf.segs|
  {
    forall s :: s in slots ==> Agrees(tools, raw, elf, SegData(raw, elf.segs[h]), s)
  }

  // ---------------------------------------------------------------------
  // The digest pairs of a step, with their subjects
  // ---------------------------------------------------------------------

  /** The replaced device trees among `ds`, the first of which is number `k` of segment `t`. */
  function TreeChanges(tools: Tools, data: seq<byte>, ds: seq<Dtb>, e: nat, t: nat, k: nat): seq<Change>
    requires InOrder(ds, e, |data|)
    decreases ds
  {
    if ds == [] then []
    else
      var body := Body(data, ds[0]);
      (if tools.patchDtb(body).Patched? then
        [Change(Tree(t, k), tools.sha384(body), tools.sha384(After(tools, body)))] else [])
      + TreeChanges(tools, data, ds[1..], ds[0].End(), t, k + 1)
  }

  function HeadChange(tools: Tools, raw: seq<byte>, fixed: seq<byte>, ph0: Seg, grown: bool): seq<Change> {
    if grown && ph0.filesz > 0
    then [Change(Whole(0), tools.sha384(SegData(raw, ph0)), tools.sha384(SegData(fixed, ph0)))] else []
  }

  function SegmentChanges(tools: Tools, data: seq<byte>, t: nat): seq<Change> {
    ScanInOrder(data);
    TreeChanges(tools, data, Scan(data), 0, t, 0)
    + [Change(Whole(t), tools.sha384(data), tools.sha384(Rebuilt(tools, data)))]
  }

  function Changes(tools: Tools, raw: seq<byte>, fixed: seq<byte>, ph0: Seg, data: seq<byte>, t: nat): seq<Change> {
    SegmentChanges(tools, data, t) + HeadChange(tools, raw, fixed, ph0, |Rebuilt(tools, data)| != |data|)
  }

  lemma {:induction false} TreePairs(tools: Tools, data: seq<byte>, ds: seq<Dtb>, e: nat, t: nat, k: nat)
    requires InOrder(ds, e, |data|)
    ensures Pairs(TreeChanges(tools, data, ds, e, t, k)) == DigestPairs(tools, data, ds, e)
    decreases ds
  {
    if ds != [] {
      var body := Body(data, ds[0]);
      var rest := TreeChanges(tools, data, ds[1..], ds[0].End(), t, k + 1);
      TreePairs(tools, data, ds[1..], ds[0].End(), t, k + 1);
      if tools.patchDtb(body).Patched? {
        var c := Change(Tree(t, k), tools.sha384(body), tools.sha384(After(tools, body)));
        assert ([c] + rest)[1..] == rest;
      } else {
        assert [] + rest == rest;
        assert [] + DigestPairs(tools, data, ds[1..], ds[0].End()) == DigestPairs(tools, data, ds[1..], ds[0].End());
      }
    }
  }

  lemma PairsOne(c: Change)
    ensures Pairs([c]) == [(c.old_, c.new_)]
  {
    assert [c][1..] == [];
  }

  lemma SegmentChangePairs(tools: Tools, data: seq<byte>, t: nat)
    ensures Pairs(SegmentChanges(tools, data, t))
         == SegmentPairs(tools, data) + [(tools.sha384(data), tools.sha384(Rebuilt(tools, data)))]
  {
    ScanInOrder(data);
    var c := Change(Whole(t), tools.sha384(data), tools.sha384(Rebuilt(tools, data)));
    TreePairs(tools, data, Scan(data), 0, t, 0);
    PairsConcat(TreeChanges(tools, data, Scan(data), 0, t, 0), [c]);
    PairsOne(c);
  }

  /** The pairs the program collects are those of `Changes`. */
  lemma UpdatesArePairs(tools: Tools, raw: seq<byte>, fixed: seq<byte>, ph0: Seg, data: seq<byte>, t: nat)
    ensures Updates(tools, raw, fixed, ph0, data) == Pairs(Changes(tools, raw, fixed, ph0, data, t))
  {
    var grown := |Rebuilt(tools, data)| != |data|;
    SegmentChangePairs(tools, data, t);
    PairsConcat(SegmentChanges(tools, data, t), HeadChange(tools, raw, fixed, ph0, grown));
    if grown && ph0.filesz > 0 {
      PairsOne(HeadChange(tools, raw, fixed, ph0, grown)[0]);
    }
  }

  // Which subjects change, each at most once.

  lemma {:induction false} SubjectsConcat(a: seq<Change>, b: seq<Change>)
    ensures Subjects(a + b) == Subjects(a) + Subjects(b)
  {
    if a == [] {
      assert a + b == b;
    } else {
      assert (a + b)[1..] == a[1..] + b;
      SubjectsConcat(a[1..], b);
    }
  }

  lemma {:induction false} DistinctConcat(a: seq<Change>, b: seq<Change>)
    requires DistinctSubjects(a) && DistinctSubjects(b) && Subjects(a) !! Subjects(b)
    ensures DistinctSubjects(a + b)
  {
    if a == [] {
      assert a + b == b;
    } else {
      assert (a + b)[1..] == a[1..] + b;
      SubjectsConcat(a[1..], b);
      DistinctConcat(a[1..], b);
    }
  }

  lemma SubjectsOne(c: Change)
    ensures Subjects([c]) == {c.of} && DistinctSubjects([c])
  {
    assert [c][1..] == [];
  }

  /** Only device trees of `t` from number `k` on, and each once. */
  lemma {:induction false} TreeSubjects(tools: Tools, data: seq<byte>, ds: seq<Dtb>, e: nat, t: nat, k: nat)
    requires InOrder(ds, e, |data|)
    ensures forall u :: u in Subjects(TreeChanges(tools, data, ds, e, t, k)) ==> u.Tree? && u.seg == t && k <= u.k
    ensures DistinctSubjects(TreeChanges(tools, data, ds, e, t, k))
    decreases ds
  {
    if ds != [] {
      var body := Body(data, ds[0]);
      var rest := TreeChanges(tools, data, ds[1..], ds[0].End(), t, k + 1);
      TreeSubjects(tools, data, ds[1..], ds[0].End(), t, k + 1);
      if tools.patchDtb(body).Patched? {
        var c := Change(Tree(t, k), tools.sha384(body), tools.sha384(After(tools, body)));
        assert ([c] + rest)[1..] == rest;
      } else {
        assert [] + rest == rest;
      }
    }
  }

  /** Device tree `k + j` is among the changes exactly when it was replaced. */
  lemma {:induction false} TreeChangeAt(tools: Tools, data: seq<byte>, ds: seq<Dtb>, e: nat, t: nat, k: nat, j: nat)
    requires InOrder(ds, e, |data|) && j < |ds|
    ensures ds[j].End() <= |data|
    ensures var body := Body(data, ds[j]);
            var cs := TreeChanges(tools, data, ds, e, t, k);
            if tools.patchDtb(body).Patched?
            then Change(Tree(t, k + j), tools.sha384(body), tools.sha384(After(tools, body))) in cs
            else Tree(t, k + j) !in Subjects(cs)
    decreases ds
  {
    TreeCons(tools, data, ds, e, t, k);
    if j > 0 {
      TreeChangeAt(tools, data, ds[1..], ds[0].End(), t, k + 1, j - 1);
    }
  }

  /** The changes of the first device tree and of the others. */
  lemma TreeCons(tools: Tools, data: seq<byte>, ds: seq<Dtb>, e: nat, t: nat, k: nat)
    requires InOrder(ds, e, |data|) && ds != []
    ensures var body, cs := Body(data, ds[0]), TreeChanges(tools, data, ds, e, t, k);
            var rest := TreeChanges(tools, data, ds[1..], ds[0].End(), t, k + 1);
            && (tools.patchDtb(body).Patched? ==>
                  Change(Tree(t, k), tools.sha384(body), tools.sha384(After(tools, body))) in cs)
            && (!tools.patchDtb(body).Patched? ==> Tree(t, k) !in Subjects(cs))
            && (forall c :: c in rest ==> c in cs)
            && (forall u :: u != Tree(t, k) ==> (u in Subjects(cs) <==> u in Subjects(rest)))
  {
    var body := Body(data, ds[0]);
    var rest := TreeChanges(tools, data, ds[1..], ds[0].End(), t, k + 1);
    TreeSubjects(tools, data, ds[1..], ds[0].End(), t, k + 1);
    if tools.patchDtb(body).Patched? {
      var c := Change(Tree(t, k), tools.sha384(body), tools.sha384(After(tools, body)));
      assert TreeChanges(tools, data, ds, e, t, k) == [c] + rest;
      SubjectsConcat([c], rest);
      SubjectsOne(c);
    } else {
      assert TreeChanges(tools, data, ds, e, t, k) == [] + rest == rest;
    }
  }

  /** What the changes of a step say about a subject `u` whose content goes from `old_` to `new_`. */
  predicate Covered(tools: Tools, cs: seq<Change>, u: Subject, old_: seq<byte>, new_: seq<byte>) {
    if u in Subjects(cs) then Change(u, tools.sha384(old_), tools.sha384(new_)) in cs
    else tools.sha384(old_) == tools.sha384(new_)
  }

  lemma SegmentSubjects(tools: Tools, data: seq<byte>, t: nat)
    ensures DistinctSubjects(SegmentChanges(tools, data, t))
    ensures forall u :: u in Subjects(SegmentChanges(tools, data, t)) ==> u.seg == t
  {
    ScanInOrder(data);
    var trees := TreeChanges(tools, data, Scan(data), 0, t, 0);
    var c := Change(Whole(t), tools.sha384(data), tools.sha384(Rebuilt(tools, data)));
    TreeSubjects(tools, data, Scan(data), 0, t, 0);
    SubjectsOne(c);
    SubjectsConcat(trees, [c]);
    DistinctConcat(trees, [c]);
  }

  lemma StepSubjects(tools: Tools, raw: seq<byte>, fixed: seq<byte>, ph0: Seg, data: seq<byte>, t: nat)
    requires t != 0
    ensures DistinctSubjects(Changes(tools, raw, fixed, ph0, data, t))
  {
    var grown := |Rebuilt(tools, data)| != |data|;
    var head := HeadChange(tools, raw, fixed, ph0, grown);
    SegmentSubjects(tools, data, t);
    if head != [] {
      SubjectsOne(head[0]);
    }
    DistinctConcat(SegmentChanges(tools, data, t), head);
  }

  /** The patched segment itself. */
  lemma CoversTarget(tools: Tools, raw: seq<byte>, fixed: seq<byte>, ph0: Seg, data: seq<byte>, t: nat)
    ensures Covered(tools, Changes(tools, raw, fixed, ph0, data, t), Whole(t), data, Rebuilt(tools, data))
  {
    var c := Change(Whole(t), tools.sha384(data), tools.sha384(Rebuilt(tools, data)));
    assert c in SegmentChanges(tools, data, t);
    assert c in Changes(tools, raw, fixed, ph0, data, t);
    InSubjects(Changes(tools, raw, fixed, ph0, data, t), c);
  }

  lemma CoversHead(tools: Tools, raw: seq<byte>, fixed: seq<byte>, ph0: Seg, data: seq<byte>, t: nat)
    requires t != 0 && (|Rebuilt(tools, data)| == |data| ==> SegData(raw, ph0) == SegData(fixed, ph0))
    ensures Covered(tools, Changes(tools, raw, fixed, ph0, data, t), Whole(0), SegData(raw, ph0), SegData(fixed, ph0))
  {
    var grown := |Rebuilt(tools, data)| != |data|;
    var head := HeadChange(tools, raw, fixed, ph0, grown);
    SegmentSubjects(tools, data, t);
    SubjectsConcat(SegmentChanges(tools, data, t), head);
    if head != [] {
      assert head[0] in Changes(tools, raw, fixed, ph0, data, t);
    } else {
      assert SegData(raw, ph0) == SegData(fixed, ph0);
    }
  }

  /** Another segment, or a device tree of it. */
  lemma CoversOther(tools: Tools, raw: seq<byte>, fixed: seq<byte>, ph0: Seg, data: seq<byte>, t: nat,
                    u: Subject, c: seq<byte>)
    requires u.seg != t && u != Whole(0)
    ensures Covered(tools, Changes(tools, raw, fixed, ph0, data, t), u, c, c)
  {
    var head := HeadChange(tools, raw, fixed, ph0, |Rebuilt(tools, data)| != |data|);
    SegmentSubjects(tools, data, t);
    SubjectsConcat(SegmentChanges(tools, data, t), head);
    if head != [] {
      SubjectsOne(head[0]);
    }
  }

  /** A device tree of the patched segment: it is found again, in its new form. */
  lemma CoversTree(tools: Tools, raw: seq<byte>, fixed: seq<byte>, ph0: Seg, data: seq<byte>, t: nat, k: nat)
    requires Rescannable(tools, data) && TreeOf(data, k).Some?
    ensures TreeOf(Rebuilt(tools, data), k).Some?
    ensures Covered(tools, Changes(tools, raw, fixed, ph0, data, t), Tree(t, k),
                    TreeOf(data, k).value, TreeOf(Rebuilt(tools, data), k).value)
  {
    TreeAfter(tools, data, k);
    ScanInOrder(data);
    CoversTreeIn(tools, data, Scan(data), t, k, TreeOf(data, k).value, Changes(tools, raw, fixed, ph0, data, t)) by {
      TreeInChanges(tools, raw, fixed, ph0, data, t, k);
    }
  }

  lemma TreeAfter(tools: Tools, data: seq<byte>, k: nat)
    requires Rescannable(tools, data) && TreeOf(data, k).Some?
    ensures TreeOf(Rebuilt(tools, data), k) == Some(After(tools, TreeOf(data, k).value))
  {
    RescanBody(tools, data, k);
  }

  lemma CoversTreeIn(tools: Tools, data: seq<byte>, ds: seq<Dtb>, t: nat, k: nat, body: seq<byte>, cs: seq<Change>)
    requires InOrder(ds, 0, |data|) && k < |ds| && ds[k].End() <= |data| && body == Body(data, ds[k])
    requires forall c :: c in TreeChanges(tools, data, ds, 0, t, 0) ==> c in cs
    requires Tree(t, k) in Subjects(cs) <==> Tree(t, k) in Subjects(TreeChanges(tools, data, ds, 0, t, 0))
    ensures Covered(tools, cs, Tree(t, k), body, After(tools, body))
  {
    TreeChangeAt(tools, data, ds, 0, t, 0, k);
    if tools.patchDtb(body).Patched? {
      InSubjects(TreeChanges(tools, data, ds, 0, t, 0),
                 Change(Tree(t, k), tools.sha384(body), tools.sha384(After(tools, body))));
    }
  }

  lemma TreeInChanges(tools: Tools, raw: seq<byte>, fixed: seq<byte>, ph0: Seg, data: seq<byte>, t: nat, k: nat)
    requires InOrder(Scan(data), 0, |data|)
    ensures var trees := TreeChanges(tools, data, Scan(data), 0, t, 0);
            var cs := Changes(tools, raw, fixed, ph0, data, t);
            && (forall c :: c in trees ==> c in cs)
            && (Tree(t, k) in Subjects(cs) <==> Tree(t, k) in Subjects(trees))
  {
    var trees := TreeChanges(tools, data, Scan(data), 0, t, 0);
    var whole := Change(Whole(t), tools.sha384(data), tools.sha384(Rebuilt(tools, data)));
    var head := HeadChange(tools, raw, fixed, ph0, |Rebuilt(tools, data)| != |data|);
    SubjectsOne(whole);
    SubjectsConcat(trees, [whole]);
    SubjectsConcat(trees + [whole], head);
    if head != [] {
      SubjectsOne(head[0]);
    }
  }

  // ---------------------------------------------------------------------
  // The hash segment after a step
  // ---------------------------------------------------------------------

  lemma HashesSearched(x: seq<byte>, hs: Seg, hashes: seq<byte>)
    requires hashes == SegData(x, hs) && hashes != []
    ensures Searched(x, hs.offset, hs.End(), hashes)
  {
  }

  lemma SlotWindow(r: seq<byte>, n: nat, hs: Seg, hashes: seq<byte>, at: nat, d: Digest)
    requires |r| == n && |hashes| >= at + 48 && hs.offset + |hashes| == Min(hs.End(), n)
    ensures r[hs.offset + at..hs.offset + at + 48] == d <==> OccursAt(SegData(r, hs), d, at)
  {
    assert SegData(r, hs) == r[hs.offset..hs.offset + |hashes|];
    HashesSearched(r, hs, SegData(r, hs));
    Window(r, hs.offset, hs.End(), SegData(r, hs), at);
  }

  /** A slot that held the digest of what its subject was holds that of what it is if and
      only if the search for the old one ends in the slot, where the two differ. */
  lemma SlotAfter(tools: Tools, fixed: seq<byte>, r: seq<byte>, hs: Seg, hashes: seq<byte>, cs: seq<Change>,
                  slots: set<Slot>, s: Slot, old_: seq<byte>, new_: seq<byte>)
    requires hashes == SegData(fixed, hs) && r == ReplaceAll(fixed, fixed, Pairs(cs), hs.offset, hs.End())
    requires HitsOk(hashes, cs, slots) && Spaced(slots) && DistinctSubjects(cs) && s in slots
    requires OccursAt(hashes, tools.sha384(old_), s.at) && Covered(tools, cs, s.of, old_, new_)
    ensures OccursAt(SegData(r, hs), tools.sha384(new_), s.at) <==> Reached(hashes, cs, s)
  {
    HashesSearched(fixed, hs, hashes);
    SlotReplaced(tools, fixed, r, hs.offset, hs.End(), hashes, cs, slots, s, old_, new_);
    SlotWindow(r, |fixed|, hs, hashes, s.at, tools.sha384(new_));
  }

  lemma SlotReplaced(tools: Tools, fixed: seq<byte>, r: seq<byte>, lo: nat, hi: nat, hashes: seq<byte>, cs: seq<Change>,
                     slots: set<Slot>, s: Slot, old_: seq<byte>, new_: seq<byte>)
    requires Searched(fixed, lo, hi, hashes) && r == ReplaceAll(fixed, fixed, Pairs(cs), lo, hi)
    requires HitsOk(hashes, cs, slots) && Spaced(slots) && DistinctSubjects(cs) && s in slots
    requires OccursAt(hashes, tools.sha384(old_), s.at) && Covered(tools, cs, s.of, old_, new_)
    ensures |r| == |fixed|
    ensures r[lo + s.at..lo + s.at + 48] == tools.sha384(new_) <==> Reached(hashes, cs, s)
  {
    if s.of in Subjects(cs) {
      var c := Change(s.of, tools.sha384(old_), tools.sha384(new_));
      ChangedSlotIff(fixed, cs, lo, hi, hashes, slots, s, c);
      ReachedIff(hashes, cs, s, c);
    } else {
      UnchangedSlot(fixed, fixed, cs, lo, hi, hashes, slots, s);
      Window(fixed, lo, hi, hashes, s.at);
      ReachedVacuously(hashes, cs, s);
    }
  }

  /** Segment `t` may be dealt with: it is behind the headers, and so is segment `h`, which
      holds the digests. */
  predicate Ready(elf: Elf, t: nat, h: nat) {
    Payload(elf, t) && Payload(elf, h) && h != t
  }

  /** Digests that are found in `h` or nowhere might as well be searched there. */
  lemma HomedFinish(tools: Tools, raw: seq<byte>, fixed: seq<byte>, elf': Elf, ph0: Seg, data: seq<byte>, t: nat,
                    h: nat, r: seq<byte>)
    requires IsElf(fixed, elf') && Finish(tools, raw, fixed, ph0, data, t) == Some(r)
    requires h < |elf'.segs| && Homed(tools, raw, fixed, elf', ph0, data, t, h)
    ensures r == ReplaceAll(fixed, fixed, Updates(tools, raw, fixed, ph0, data), elf'.segs[h].offset, elf'.segs[h].End())
  {
    var (lo, hi) := HashRegion(elf'.segs, t, |fixed|);
    FinishIs(tools, raw, fixed, elf', ph0, data, t, r, lo, hi);
    ReplaceAllNarrow(fixed, fixed, Updates(tools, raw, fixed, ph0, data), lo, hi, elf'.segs[h]);
  }

  /** The hash segment comes through the splice unharmed, and what happens to it then
      is the replacement of `Changes`. */
  lemma HashesAfter(tools: Tools, raw: seq<byte>, elf: Elf, t: nat, h: nat, data: seq<byte>,
                    fixed: seq<byte>, r: seq<byte>, elf': Elf)
    requires IsElf(raw, elf) && GoodLayout(elf) && Ready(elf, t, h) && data == SegData(raw, elf.segs[t])
    requires data != [] && Fixed(raw, elf, t, |data|, Rebuilt(tools, data)) == Some(fixed)
    requires Finish(tools, raw, fixed, elf.segs[0], data, t) == Some(r)
    requires elf' == FixedElf(elf, t, |data|, |Rebuilt(tools, data)|)
    requires Homed(tools, raw, fixed, elf', elf.segs[0], data, t, h) == true
    ensures var hs := elf'.segs[h];
            && SegData(fixed, hs) == SegData(raw, elf.segs[h])
            && r == ReplaceAll(fixed, fixed, Pairs(Changes(tools, raw, fixed, elf.segs[0], data, t)), hs.offset, hs.End())
  {
    BeforeDigests(raw, elf, t, data, Rebuilt(tools, data), fixed, elf', h);
    HomedFinish(tools, raw, fixed, elf', elf.segs[0], data, t, h, r);
    UpdatesArePairs(tools, raw, fixed, elf.segs[0], data, t);
  }

  // ---------------------------------------------------------------------
  // The segment that holds the headers
  // ---------------------------------------------------------------------

  /** Segment 0 is in front of the patched segment and of the hash segment. */
  predicate HeadInFront(elf: Elf, t: nat, h: nat)
    requires t < |elf.segs| && h < |elf.segs|
  {
    t != 0 && h != 0 && elf.segs[0].End() <= elf.segs[t].offset && elf.segs[0].End() <= elf.segs[h].offset
  }

  lemma InFrontKept(raw: seq<byte>, img: seq<byte>, off: nat, s: Seg)
    requires off <= |raw| && off <= |img| && img[..off] == raw[..off] && s.End() <= off
    ensures SegData(img, s) == SegData(raw, s)
  {
    SubSlice(img, raw, 0, off, s.offset, s.End());
  }

  lemma SpliceBehind(raw: seq<byte>, off: nat, n: nat, new_: seq<byte>, s: Seg, img: seq<byte>)
    requires off + n <= |raw| && s.End() <= off && img == Splice(raw, off, off + n, new_)
    ensures SegData(img, s) == SegData(raw, s)
  {
    SpliceRelaid(raw, off, n, new_, img);
    InFrontKept(raw, img, off, s);
  }

  lemma SplicedParses(raw: seq<byte>, elf: Elf, off: nat, n: nat, new_: seq<byte>, spliced: seq<byte>)
    requires IsElf(raw, elf) && TablesApart(elf) && Top(elf) <= off && off + n <= |raw|
    requires spliced == Splice(raw, off, off + n, new_)
    ensures IsElf(spliced, elf) && Top(elf) <= |spliced|
  {
    SpliceRelaid(raw, off, n, new_, spliced);
    FrontSame(raw, spliced, off, Top(elf));
    FrontParses(raw, spliced, elf);
  }

  /** A step that keeps the segment's size writes the two size fields and no other. */
  lemma UngrownWrites(raw: seq<byte>, elf: Elf, t: nat, data: seq<byte>, new_: seq<byte>, fixed: seq<byte>)
    requires t < |elf.segs| && Fixed(raw, elf, t, |data|, new_) == Some(fixed) && |new_| == |data|
    ensures var off := elf.segs[t].offset;
            WriteSizes(Splice(raw, off, off + |data|, new_), elf.h, t, |data|) == Some(fixed)
  {
  }

  /** Then the bytes of a segment that holds the program headers stay exactly if both
      sizes were already its size. */
  lemma HeadUngrown(raw: seq<byte>, elf: Elf, t: nat, data: seq<byte>, new_: seq<byte>, fixed: seq<byte>, ph0: Seg)
    requires IsElf(raw, elf) && TablesApart(elf) && Payload(elf, t)
    requires data == SegData(raw, elf.segs[t]) && data != [] && ph0.End() <= elf.segs[t].offset
    requires var off := elf.segs[t].offset;
             WriteSizes(Splice(raw, off, off + |data|, new_), elf.h, t, |data|) == Some(fixed)
    ensures elf.segs[t].filesz == elf.segs[t].memsz == |data| ==> SegData(fixed, ph0) == SegData(raw, ph0)
    ensures ph0.offset <= elf.h.phoff && PhEnd(elf) <= ph0.End() ==>
              (SegData(fixed, ph0) == SegData(raw, ph0) <==> elf.segs[t].filesz == elf.segs[t].memsz == |data|)
  {
    var off, n := elf.segs[t].offset, |data|;
    DataInFile(raw, elf.segs[t], data);
    UngrownHead(raw, fixed, elf, t, off, n, new_, ph0);
  }

  lemma UngrownHead(raw: seq<byte>, fixed: seq<byte>, elf: Elf, t: nat, off: nat, n: nat, new_: seq<byte>, ph0: Seg)
    requires IsElf(raw, elf) && TablesApart(elf) && t < |elf.segs| && Top(elf) <= off && off + n <= |raw|
    requires WriteSizes(Splice(raw, off, off + n, new_), elf.h, t, n) == Some(fixed) && ph0.End() <= off
    ensures elf.segs[t].filesz == elf.segs[t].memsz == n ==> SegData(fixed, ph0) == SegData(raw, ph0)
    ensures ph0.offset <= elf.h.phoff && PhEnd(elf) <= ph0.End() ==>
              (SegData(fixed, ph0) == SegData(raw, ph0) <==> elf.segs[t].filesz == elf.segs[t].memsz == n)
  {
    var spliced := Splice(raw, off, off + n, new_);
    SplicedParses(raw, elf, off, n, new_, spliced);
    SpliceBehind(raw, off, n, new_, ph0, spliced);
    WritesUnder(spliced, fixed, elf, t, n, ph0);
  }

  lemma WritesUnder(x: seq<byte>, r: seq<byte>, elf: Elf, t: nat, size: nat, ph0: Seg)
    requires IsElf(x, elf) && TablesApart(elf) && Top(elf) <= |x| && t < |elf.segs|
    requires WriteSizes(x, elf.h, t, size) == Some(r)
    ensures elf.segs[t].filesz == elf.segs[t].memsz == size ==> SegData(r, ph0) == SegData(x, ph0)
    ensures ph0.offset <= elf.h.phoff && PhEnd(elf) <= ph0.End() ==>
              (SegData(r, ph0) == SegData(x, ph0) <==> elf.segs[t].filesz == elf.segs[t].memsz == size)
  {
    ParseIff(x, elf);
    SizesUnchangedIff(x, r, elf, t, size);
    if ph0.offset <= elf.h.phoff && PhEnd(elf) <= ph0.End() {
      HeadUnchangedIff(x, r, elf, t, size, ph0);
    }
  }

  lemma HeadStays(elf: Elf, t: nat, n: nat, m: nat, h: nat)
    requires t < |elf.segs| && h < |elf.segs| && HeadInFront(elf, t, h) && h != t
    requires 0 < n && (elf.segs[h].End() <= elf.segs[t].offset || elf.segs[t].offset + n <= elf.segs[h].offset)
    ensures var elf' := Resized(elf, t, elf.segs[t].offset, m - n, m);
            elf'.segs[0] == elf.segs[0] && elf.segs[0].End() <= elf'.segs[h].offset
  {
    ResizedAt(elf, t, elf.segs[t].offset, m - n, m, 0);
    ResizedAt(elf, t, elf.segs[t].offset, m - n, m, h);
  }

  /** What segment 0 holds after a step is what it held before the digest writes. */
  lemma HeadAfter(tools: Tools, raw: seq<byte>, elf: Elf, t: nat, h: nat, data: seq<byte>, new_: seq<byte>,
                  fixed: seq<byte>, r: seq<byte>, elf': Elf)
    requires IsElf(raw, elf) && GoodLayout(elf) && Ready(elf, t, h) && HeadInFront(elf, t, h)
    requires data == SegData(raw, elf.segs[t]) && data != [] && Fixed(raw, elf, t, |data|, new_) == Some(fixed)
    requires Finish(tools, raw, fixed, elf.segs[0], data, t) == Some(r) && elf' == FixedElf(elf, t, |data|, |new_|)
    requires Homed(tools, raw, fixed, elf', elf.segs[0], data, t, h) == true
    ensures elf'.segs[0] == elf.segs[0] && SegData(r, elf.segs[0]) == SegData(fixed, elf.segs[0])
  {
    DataInFile(raw, elf.segs[t], data);
    HeadFixed(elf, t, h, |data|, |new_|);
    FixedLayout(raw, elf, t, |data|, new_, fixed, elf');
    HomeSpares(tools, raw, fixed, elf', elf.segs[0], data, t, h, elf.segs[0]);
    SparedKept(tools, raw, fixed, elf', elf.segs[0], data, t, r, elf.segs[0]);
  }

  lemma HeadFixed(elf: Elf, t: nat, h: nat, n: nat, m: nat)
    requires GoodLayout(elf) && Ready(elf, t, h) && HeadInFront(elf, t, h) && 0 < n <= elf.segs[t].filesz
    ensures FixedElf(elf, t, n, m).segs[0] == elf.segs[0] && Apart(elf.segs[0], FixedElf(elf, t, n, m).segs[h])
  {
    ApartIn(elf, h, t);
    HeadStays(elf, t, n, m, h);
  }

  // ---------------------------------------------------------------------
  // One step
  // ---------------------------------------------------------------------

  /** What a step needs to know about the subject of a slot: segment 0 is in front, and
      if the segment keeps its size its header is already right; device trees of the
      patched segment are found again; any other subject is behind the headers. */
  predicate SubjectOk(tools: Tools, elf: Elf, t: nat, h: nat, data: seq<byte>, u: Subject)
    requires t < |elf.segs| && h < |elf.segs|
  {
    if u == Whole(0) then
      && HeadInFront(elf, t, h)
      && (|Rebuilt(tools, data)| != |data| || elf.segs[t].filesz == elf.segs[t].memsz == |data|)
    else
      && Payload(elf, u.seg) && u.seg != h
      && (u.Tree? && u.seg == t ==> Rescannable(tools, data))
  }

  /** The new content of a subject, and that the digest pairs account for it. */
  lemma ContentAfter(tools: Tools, raw: seq<byte>, elf: Elf, t: nat, h: nat, data: seq<byte>,
                     fixed: seq<byte>, r: seq<byte>, elf': Elf, u: Subject)
    returns (now: seq<byte>)
    requires IsElf(raw, elf) && GoodLayout(elf) && Ready(elf, t, h) && t != 0 && data == SegData(raw, elf.segs[t])
    requires data != [] && Fixed(raw, elf, t, |data|, Rebuilt(tools, data)) == Some(fixed)
    requires Finish(tools, raw, fixed, elf.segs[0], data, t) == Some(r)
    requires elf' == FixedElf(elf, t, |data|, |Rebuilt(tools, data)|)
    requires Homed(tools, raw, fixed, elf', elf.segs[0], data, t, h) == true
    requires SubjectOk(tools, elf, t, h, data, u) && Content(raw, elf, u).Some?
    ensures Content(r, elf', u) == Some(now)
    ensures Covered(tools, Changes(tools, raw, fixed, elf.segs[0], data, t), u, Content(raw, elf, u).value, now)
  {
    var new_, ph0 := Rebuilt(tools, data), elf.segs[0];
    if u == Whole(0) {
      HeadAfter(tools, raw, elf, t, h, data, new_, fixed, r, elf');
      now := SegData(fixed, ph0);
      if |new_| == |data| {
        UngrownWrites(raw, elf, t, data, new_, fixed);
        HeadUngrown(raw, elf, t, data, new_, fixed, ph0);
      }
      CoversHead(tools, raw, fixed, ph0, data, t);
    } else {
      SegmentAtHome(tools, raw, elf, t, h, data, new_, fixed, r, elf', u.seg);
      now := ContentBehind(tools, raw, fixed, ph0, elf, elf', r, data, t, u);
    }
  }

  /** A segment behind the headers, other than `h`. */
  lemma SegmentAtHome(tools: Tools, raw: seq<byte>, elf: Elf, t: nat, h: nat, data: seq<byte>, new_: seq<byte>,
                      fixed: seq<byte>, r: seq<byte>, elf': Elf, i: nat)
    requires IsElf(raw, elf) && GoodLayout(elf) && Ready(elf, t, h) && Payload(elf, i) && i != h
    requires data == SegData(raw, elf.segs[t]) && data != [] && Fixed(raw, elf, t, |data|, new_) == Some(fixed)
    requires Finish(tools, raw, fixed, elf.segs[0], data, t) == Some(r) && elf' == FixedElf(elf, t, |data|, |new_|)
    requires Homed(tools, raw, fixed, elf', elf.segs[0], data, t, h) == true
    ensures i < |elf'.segs| == |elf.segs|
    ensures SegData(r, elf'.segs[i]) == if i == t then new_ else SegData(raw, elf.segs[i])
  {
    HomeAway(raw, elf, t, i, h, data, new_, fixed, elf');
    HomeSpares(tools, raw, fixed, elf', elf.segs[0], data, t, h, elf'.segs[i]);
    TouchedSegment(tools, raw, elf, t, data, new_, fixed, r, elf', i);
  }

  lemma ContentBehind(tools: Tools, raw: seq<byte>, fixed: seq<byte>, ph0: Seg, elf: Elf, elf': Elf, r: seq<byte>,
                      data: seq<byte>, t: nat, u: Subject)
    returns (now: seq<byte>)
    requires u != Whole(0) && u.seg < |elf.segs| && |elf'.segs| == |elf.segs| && Content(raw, elf, u).Some?
    requires SegData(r, elf'.segs[u.seg]) == if u.seg == t then Rebuilt(tools, data) else SegData(raw, elf.segs[u.seg])
    requires u.seg == t ==> data == SegData(raw, elf.segs[t])
    requires u.Tree? && u.seg == t ==> Rescannable(tools, data)
    ensures Content(r, elf', u) == Some(now)
    ensures Covered(tools, Changes(tools, raw, fixed, ph0, data, t), u, Content(raw, elf, u).value, now)
  {
    if u.seg != t {
      now := Content(raw, elf, u).value;
      CoversOther(tools, raw, fixed, ph0, data, t, u, now);
    } else if u.Whole? {
      now := Rebuilt(tools, data);
      CoversTarget(tools, raw, fixed, ph0, data, t);
    } else {
      CoversTree(tools, raw, fixed, ph0, data, t, u.k);
      now := TreeOf(Rebuilt(tools, data), u.k).value;
    }
  }

  /** One slot over a step that changes segment `t`: it is right afterwards if and only if the
      search for the old digest of its subject ends in it, if that has changed. */
  lemma TouchedSlot(tools: Tools, raw: seq<byte>, elf: Elf, t: nat, h: nat, data: seq<byte>,
                    fixed: seq<byte>, r: seq<byte>, elf': Elf, slots: set<Slot>, s: Slot)
    requires IsElf(raw, elf) && GoodLayout(elf) && Ready(elf, t, h) && t != 0 && data == SegData(raw, elf.segs[t])
    requires data != [] && Fixed(raw, elf, t, |data|, Rebuilt(tools, data)) == Some(fixed)
    requires Finish(tools, raw, fixed, elf.segs[0], data, t) == Some(r)
    requires elf' == FixedElf(elf, t, |data|, |Rebuilt(tools, data)|)
    requires Homed(tools, raw, fixed, elf', elf.segs[0], data, t, h) == true
    requires Spaced(slots) && s in slots && SubjectOk(tools, elf, t, h, data, s.of)
    requires HitsOk(SegData(raw, elf.segs[h]), Changes(tools, raw, fixed, elf.segs[0], data, t), slots)
    requires Agrees(tools, raw, elf, SegData(raw, elf.segs[h]), s)
    ensures Agrees(tools, r, elf', SegData(r, elf'.segs[h]), s)
       <==> Reached(SegData(raw, elf.segs[h]), Changes(tools, raw, fixed, elf.segs[0], data, t), s)
  {
    var now := ContentAfter(tools, raw, elf, t, h, data, fixed, r, elf', s.of);
    HashesAfter(tools, raw, elf, t, h, data, fixed, r, elf');
    StepSubjects(tools, raw, fixed, elf.segs[0], data, t);
    SlotAfter(tools, fixed, r, elf'.segs[h], SegData(raw, elf.segs[h]),
              Changes(tools, raw, fixed, elf.segs[0], data, t), slots, s, Content(raw, elf, s.of).value, now);
  }

  /** The image after the header writes of a step that changes segment `t`. */
  function StepFixed(tools: Tools, raw: seq<byte>, elf: Elf, t: nat): seq<byte>
    requires t < |elf.segs|
  {
    var data := SegData(raw, elf.segs[t]);
    var w := Fixed(raw, elf, t, |data|, Rebuilt(tools, data));
    if w.Some? then w.value else raw
  }

  /** What keeps the table right in a step: the digests that are replaced are found in the
      hash segment or nowhere, and there in a slot of a subject that changes alike or apart
      from all slots, no slot being left out; and every subject is fit. */
  ghost predicate StepOk(tools: Tools, raw: seq<byte>, elf: Elf, t: nat, h: nat, slots: set<Slot>)
    requires t < |elf.segs| && h < |elf.segs|
  {
    var data, fixed := SegData(raw, elf.segs[t]), StepFixed(tools, raw, elf, t);
    IsTouched(tools, data) ==>
      && (forall s :: s in slots ==> SubjectOk(tools, elf, t, h, data, s.of))
      && OccurInSlots(SegData(raw, elf.segs[h]), Changes(tools, raw, fixed, elf.segs[0], data, t), slots)
      && h < |StepElf(tools, raw, elf, t).segs|
      && Homed(tools, raw, fixed, StepElf(tools, raw, elf, t), elf.segs[0], data, t, h)
  }

  /** A step that finds old digests only where they belong keeps every slot in agreement if
      and only if it leaves out none. */
  lemma TouchedSlots(tools: Tools, raw: seq<byte>, elf: Elf, t: nat, h: nat, data: seq<byte>,
                     fixed: seq<byte>, r: seq<byte>, elf': Elf, slots: set<Slot>)
    requires IsElf(raw, elf) && GoodLayout(elf) && Ready(elf, t, h) && t != 0 && data == SegData(raw, elf.segs[t])
    requires data != [] && Fixed(raw, elf, t, |data|, Rebuilt(tools, data)) == Some(fixed)
    requires Finish(tools, raw, fixed, elf.segs[0], data, t) == Some(r) && Spaced(slots)
    requires elf' == FixedElf(elf, t, |data|, |Rebuilt(tools, data)|)
    requires Homed(tools, raw, fixed, elf', elf.segs[0], data, t, h) == true
    requires forall s :: s in slots ==> SubjectOk(tools, elf, t, h, data, s.of)
    requires HitsOk(SegData(raw, elf.segs[h]), Changes(tools, raw, fixed, elf.segs[0], data, t), slots) == true
    requires AllAgree(tools, raw, elf, h, slots)
    ensures AllAgree(tools, r, elf', h, slots)
       <==> forall s :: s in slots ==> Reached(SegData(raw, elf.segs[h]), Changes(tools, raw, fixed, elf.segs[0], data, t), s)
  {
    forall s | s in slots
      ensures Agrees(tools, r, elf', SegData(r, elf'.segs[h]), s)
         <==> Reached(SegData(raw, elf.segs[h]), Changes(tools, raw, fixed, elf.segs[0], data, t), s)
    {
      TouchedSlot(tools, raw, elf, t, h, data, fixed, r, elf', slots, s);
    }
  }

  lemma FixedIsStepFixed(tools: Tools, raw: seq<byte>, elf: Elf, t: nat, data: seq<byte>, fixed: seq<byte>)
    requires t < |elf.segs| && data == SegData(raw, elf.segs[t])
    requires Fixed(raw, elf, t, |data|, Rebuilt(tools, data)) == Some(fixed)
    ensures StepFixed(tools, raw, elf, t) == fixed
  {
  }

  /** One step keeps every slot in agreement, and the layout. */
  lemma StepSlots(tools: Tools, raw: seq<byte>, elf: Elf, t: nat, h: nat, data: seq<byte>,
                  fixed: seq<byte>, r: seq<byte>, elf': Elf, slots: set<Slot>)
    requires IsElf(raw, elf) && GoodLayout(elf) && Ready(elf, t, h) && t != 0 && data == SegData(raw, elf.segs[t])
    requires StepShape(tools, raw, elf, t, data, fixed, r) && elf' == StepElf(tools, raw, elf, t) && Spaced(slots)
    requires StepOk(tools, raw, elf, t, h, slots) && AllAgree(tools, raw, elf, h, slots)
    ensures IsElf(r, elf') && GoodLayout(elf') && |elf'.segs| == |elf.segs|
    ensures AllAgree(tools, r, elf', h, slots)
  {
    if IsTouched(tools, data) {
      FixedIsStepFixed(tools, raw, elf, t, data, fixed);
      TouchedSlots(tools, raw, elf, t, h, data, fixed, r, elf', slots);
      HomeLayout(tools, raw, elf, t, h, data, Rebuilt(tools, data), fixed, r, elf');
    }
  }

  lemma HomeLayout(tools: Tools, raw: seq<byte>, elf: Elf, t: nat, h: nat, data: seq<byte>, new_: seq<byte>,
                   fixed: seq<byte>, r: seq<byte>, elf': Elf)
    requires IsElf(raw, elf) && GoodLayout(elf) && Ready(elf, t, h)
    requires data == SegData(raw, elf.segs[t]) && data != [] && Fixed(raw, elf, t, |data|, new_) == Some(fixed)
    requires Finish(tools, raw, fixed, elf.segs[0], data, t) == Some(r) && elf' == FixedElf(elf, t, |data|, |new_|)
    requires Homed(tools, raw, fixed, elf', elf.segs[0], data, t, h) == true
    ensures IsElf(r, elf') && GoodLayout(elf') && |elf'.segs| == |elf.segs|
  {
    HomeAway(raw, elf, t, t, h, data, new_, fixed, elf');
    HomeSpares(tools, raw, fixed, elf', elf.segs[0], data, t, h, Front(elf'));
    TouchedLayout(tools, raw, elf, t, data, new_, fixed, r, elf');
  }

  // ---------------------------------------------------------------------
  // The whole run
  // ---------------------------------------------------------------------

  /** Every listed segment is behind the headers and is not segment 0; `h` is behind the
      headers and not listed. */
  predicate ReadyFor(elf: Elf, ts: seq<nat>, h: nat) {
    ts != [] ==> ts[0] != 0 && Ready(elf, ts[0], h) && ReadyFor(elf, ts[1..], h)
  }

  lemma {:induction false} ReadyForKept(elf: Elf, elf': Elf, t: nat, n: nat, m: nat, ts: seq<nat>, h: nat)
    requires GoodLayout(elf) && Payload(elf, t) && ElfStep(elf, elf', t, n, m) && ReadyFor(elf, ts, h)
    ensures ReadyFor(elf', ts, h)
    decreases ts
  {
    if ts != [] && elf' != elf {
      StillPayload(elf, t, n, m, ts[0]);
      StillPayload(elf, t, n, m, h);
      ReadyForKept(elf, elf', t, n, m, ts[1..], h);
    }
  }

  /** `StepOk` in every state the run passes through. */
  ghost predicate RunOk(tools: Tools, raw: seq<byte>, elf: Elf, ts: seq<nat>, h: nat, slots: set<Slot>)
    decreases ts
  {
    ts != [] ==>
      && ts[0] < |elf.segs| && h < |elf.segs|
      && (var step := PatchStep(tools, raw, ts[0]);
          step.Some? ==>
            && StepOk(tools, raw, elf, ts[0], h, slots)
            && RunOk(tools, step.value.0, StepElf(tools, raw, elf, ts[0]), ts[1..], h, slots))
  }

  /** A whole run keeps every slot in agreement. */
  lemma {:induction false} RunSlots(tools: Tools, raw: seq<byte>, elf: Elf, ts: seq<nat>, h: nat, slots: set<Slot>)
    returns (last: Elf)
    requires IsElf(raw, elf) && GoodLayout(elf) && ReadyFor(elf, ts, h) && h < |elf.segs|
    requires PatchRun(tools, raw, ts).Some? && RunOk(tools, raw, elf, ts, h, slots)
    requires Spaced(slots) && AllAgree(tools, raw, elf, h, slots)
    ensures IsElf(PatchRun(tools, raw, ts).value.0, last) && |last.segs| == |elf.segs|
    ensures AllAgree(tools, PatchRun(tools, raw, ts).value.0, last, h, slots)
    decreases ts
  {
    if ts == [] {
      last := elf;
    } else {
      var data := SegData(raw, elf.segs[ts[0]]);
      var next := RunHead(tools, raw, ts);
      var fixed := StepCases(tools, raw, elf, ts[0], data, next);
      var elf' := StepElf(tools, raw, elf, ts[0]);
      StepSlots(tools, raw, elf, ts[0], h, data, fixed, next, elf', slots);
      StepIsElfStep(tools, raw, elf, ts[0], data, fixed, next);
      ReadyForKept(elf, elf', ts[0], |data|, |Rebuilt(tools, data)|, ts[1..], h);
      last := RunSlots(tools, next, elf', ts[1..], h, slots);
    }
  }

  /** `_patch_uefi_dtbs` leaves a right table of digests right. */
  lemma PatchUefiHashes(tools: Tools, raw: seq<byte>, elf: Elf, r: seq<byte>, h: nat, slots: set<Slot>)
    returns (last: Elf)
    requires ParseElf(raw) == Some(elf) && GoodLayout(elf) && h < |elf.segs|
    requires PatchUefi(tools, raw).Some? && PatchUefi(tools, raw).value.0 == r
    requires ReadyFor(elf, DtbSegments(raw, elf.segs, 0), h)
    requires RunOk(tools, raw, elf, DtbSegments(raw, elf.segs, 0), h, slots)
    requires Spaced(slots) && AllAgree(tools, raw, elf, h, slots)
    ensures ParseElf(r) == Some(last) && |last.segs| == |elf.segs|
    ensures AllAgree(tools, r, last, h, slots)
  {
    last := RunSlots(tools, raw, elf, DtbSegments(raw, elf.segs, 0), h, slots);
  }

  // ---------------------------------------------------------------------
  // Where the program leaves a digest stale
  // ---------------------------------------------------------------------

  lemma HeadNotChanged(tools: Tools, raw: seq<byte>, fixed: seq<byte>, ph0: Seg, data: seq<byte>, t: nat, c: seq<byte>)
    requires t != 0 && |Rebuilt(tools, data)| == |data|
    ensures Covered(tools, Changes(tools, raw, fixed, ph0, data, t), Whole(0), c, c)
  {
    SegmentSubjects(tools, data, t);
    assert SegmentChanges(tools, data, t) + [] == SegmentChanges(tools, data, t);
  }

  lemma HeadNotListed(tools: Tools, raw: seq<byte>, fixed: seq<byte>, ph0: Seg, data: seq<byte>, t: nat)
    requires t != 0 && |Rebuilt(tools, data)| == |data|
    ensures Whole(0) !in Subjects(Changes(tools, raw, fixed, ph0, data, t))
  {
    SegmentSubjects(tools, data, t);
    assert SegmentChanges(tools, data, t) + [] == SegmentChanges(tools, data, t);
  }

  lemma OneDigest(s: seq<byte>, d: Digest, e: Digest, p: nat)
    requires OccursAt(s, d, p)
    ensures OccursAt(s, e, p) <==> d == e
  {
  }

  /** A step that keeps the segment's size does not refresh the digest of segment 0.
      Its slot is right afterwards exactly if the digest of its bytes is what it was,
      and its bytes are what they were exactly if both sizes of the patched segment
      were already its size. */
  lemma UngrownHeadSlot(tools: Tools, raw: seq<byte>, elf: Elf, t: nat, h: nat, data: seq<byte>,
                        fixed: seq<byte>, r: seq<byte>, elf': Elf, slots: set<Slot>, s: Slot)
    requires IsElf(raw, elf) && GoodLayout(elf) && Ready(elf, t, h) && data == SegData(raw, elf.segs[t])
    requires data != [] && Fixed(raw, elf, t, |data|, Rebuilt(tools, data)) == Some(fixed)
    requires Finish(tools, raw, fixed, elf.segs[0], data, t) == Some(r)
    requires elf' == FixedElf(elf, t, |data|, |Rebuilt(tools, data)|)
    requires Homed(tools, raw, fixed, elf', elf.segs[0], data, t, h) == true
    requires Spaced(slots) && s in slots && s.of == Whole(0) && HeadInFront(elf, t, h)
    requires elf.segs[0].offset <= elf.h.phoff && PhEnd(elf) <= elf.segs[0].End()
    requires HitsOk(SegData(raw, elf.segs[h]), Changes(tools, raw, fixed, elf.segs[0], data, t), slots)
    requires Agrees(tools, raw, elf, SegData(raw, elf.segs[h]), s) && |Rebuilt(tools, data)| == |data|
    ensures var was, is_ := SegData(raw, elf.segs[0]), SegData(r, elf'.segs[0]);
            && (Agrees(tools, r, elf', SegData(r, elf'.segs[h]), s) <==> tools.sha384(is_) == tools.sha384(was))
            && (is_ == was <==> elf.segs[t].filesz == elf.segs[t].memsz == |data|)
  {
    HeadAfter(tools, raw, elf, t, h, data, Rebuilt(tools, data), fixed, r, elf');
    UngrownSlotHolds(tools, raw, elf, t, h, data, fixed, r, elf', slots, s);
    OneDigest(SegData(r, elf'.segs[h]), tools.sha384(SegData(raw, elf.segs[0])),
              tools.sha384(SegData(r, elf.segs[0])), s.at);
    UngrownWrites(raw, elf, t, data, Rebuilt(tools, data), fixed);
    HeadUngrown(raw, elf, t, data, Rebuilt(tools, data), fixed, elf.segs[0]);
  }

  /** The slot keeps the digest it had. */
  lemma UngrownSlotHolds(tools: Tools, raw: seq<byte>, elf: Elf, t: nat, h: nat, data: seq<byte>,
                         fixed: seq<byte>, r: seq<byte>, elf': Elf, slots: set<Slot>, s: Slot)
    requires IsElf(raw, elf) && GoodLayout(elf) && Ready(elf, t, h) && data == SegData(raw, elf.segs[t]) && t != 0
    requires data != [] && Fixed(raw, elf, t, |data|, Rebuilt(tools, data)) == Some(fixed)
    requires Finish(tools, raw, fixed, elf.segs[0], data, t) == Some(r)
    requires elf' == FixedElf(elf, t, |data|, |Rebuilt(tools, data)|)
    requires Homed(tools, raw, fixed, elf', elf.segs[0], data, t, h) == true
    requires Spaced(slots) && s in slots && s.of == Whole(0)
    requires HitsOk(SegData(raw, elf.segs[h]), Changes(tools, raw, fixed, elf.segs[0], data, t), slots)
    requires Agrees(tools, raw, elf, SegData(raw, elf.segs[h]), s) && |Rebuilt(tools, data)| == |data|
    ensures OccursAt(SegData(r, elf'.segs[h]), tools.sha384(SegData(raw, elf.segs[0])), s.at)
  {
    var ph0, was := elf.segs[0], SegData(raw, elf.segs[0]);
    HashesAfter(tools, raw, elf, t, h, data, fixed, r, elf');
    StepSubjects(tools, raw, fixed, ph0, data, t);
    HeadNotChanged(tools, raw, fixed, ph0, data, t, was);
    SlotAfter(tools, fixed, r, elf'.segs[h], SegData(raw, elf.segs[h]),
              Changes(tools, raw, fixed, ph0, data, t), slots, s, was, was);
    HeadNotListed(tools, raw, fixed, ph0, data, t);
    ReachedVacuously(SegData(raw, elf.segs[h]), Changes(tools, raw, fixed, ph0, data, t), s);
  }
}
