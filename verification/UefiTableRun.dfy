// The table of digests over whole runs of `_patch_uefi_dtbs`, for images with a
// PT_NULL segment behind the patched ones: conditions on the image before the run
// are enough for the table to be right after it.
module UefiTableRun {
  import opened Bytes
  import opened DtbScan
  import opened SegmentRebuild
  import opened RebuildScan
  import opened ElfImage
  import opened ElfSplice
  import opened Resize
  import opened UefiDtbs
  import opened DigestWrites
  import opened UefiRun
  import opened DigestSlots
  import opened UefiHashes
  import opened OneTree
  import opened UefiTable

  // ---------------------------------------------------------------------
  // A state of the run
  // ---------------------------------------------------------------------

  /** A subject holds what it held before the run, or what it becomes in it if its segment is
      not listed any more. */
  predicate SubjectNow(st: Start, raw: seq<byte>, elf: Elf, ts: seq<nat>, u: Subject) {
    u == Whole(0)
    || (var c0, c := Content(st.raw, st.elf, u), Content(raw, elf, u);
        c0.Some? && c.Some? && (c == c0 || (c.value == FinalOf(st.tools, u, c0.value) && u.seg !in ts)))
  }

  ghost predicate Now(st: Start, raw: seq<byte>, elf: Elf, ts: seq<nat>) {
    && |elf.segs| == |st.elf.segs| && st.h < |elf.segs|
    && (forall t :: t in ts ==> t < |elf.segs| && SegData(raw, elf.segs[t]) == Data0(st, t))
    && (forall s :: s in st.slots ==> SubjectNow(st, raw, elf, ts, s.of))
    && SameBetween(st.slots, Data0(st, st.h), SegData(raw, elf.segs[st.h]))
  }

  /** The digest of the header segment is one of `heads` in every state of the run. */
  predicate HeadsIn(tools: Tools, raw: seq<byte>, elf: Elf, ts: seq<nat>, heads: set<Digest>)
    decreases ts
  {
    ts != [] ==>
      && ts[0] < |elf.segs| && tools.sha384(SegData(raw, elf.segs[0])) in heads
      && (var step := PatchStep(tools, raw, ts[0]);
          step.Some? ==> HeadsIn(tools, step.value.0, StepElf(tools, raw, elf, ts[0]), ts[1..], heads))
  }

  /** The table of such a state is one that the run may come upon. */
  lemma VariantNow(st: Start, raw: seq<byte>, elf: Elf, ts: seq<nat>)
    requires Now(st, raw, elf, ts) && AllAgree(st.tools, raw, elf, st.h, st.slots)
    requires |elf.segs| > 0 && st.tools.sha384(SegData(raw, elf.segs[0])) in st.heads
    ensures Variant(st, SegData(raw, elf.segs[st.h]))
  {
    var hashes := SegData(raw, elf.segs[st.h]);
    forall s | s in st.slots
      ensures s.at + 48 <= |hashes| && May(st, s.of, hashes[s.at..s.at + 48])
    {
      assert Agrees(st.tools, raw, elf, hashes, s) && SubjectNow(st, raw, elf, ts, s.of);
    }
  }

  // ---------------------------------------------------------------------
  // The changes of a step
  // ---------------------------------------------------------------------

  lemma {:induction false} TreeOld(tools: Tools, data: seq<byte>, ds: seq<Dtb>, e: nat, t: nat, k: nat, c: Change)
    returns (j: nat)
    requires InOrder(ds, e, |data|) && c in TreeChanges(tools, data, ds, e, t, k)
    ensures j < |ds| && ds[j].End() <= |data| && c.of == Tree(t, k + j) && c.old_ == tools.sha384(Body(data, ds[j]))
    decreases ds
  {
    var body := Body(data, ds[0]);
    if tools.patchDtb(body).Patched? && c == Change(Tree(t, k), tools.sha384(body), tools.sha384(After(tools, body))) {
      j := 0;
    } else {
      var i := TreeOld(tools, data, ds[1..], ds[0].End(), t, k + 1, c);
      j := i + 1;
    }
  }

  /** The old digest of a change is that of what its subject holds. */
  lemma OldDigest(tools: Tools, data: seq<byte>, t: nat, c: Change)
    requires c in SegmentChanges(tools, data, t)
    ensures c.of.seg == t
    ensures c.of.Whole? ==> c.old_ == tools.sha384(data)
    ensures c.of.Tree? ==> TreeOf(data, c.of.k).Some? && c.old_ == tools.sha384(TreeOf(data, c.of.k).value)
  {
    ScanInOrder(data);
    if c in TreeChanges(tools, data, Scan(data), 0, t, 0) {
      var j := TreeOld(tools, data, Scan(data), 0, t, 0, c);
    }
  }

  lemma CurrentNow(st: Start, raw: seq<byte>, elf: Elf, ts: seq<nat>, t: nat)
    requires Now(st, raw, elf, ts) && AllAgree(st.tools, raw, elf, st.h, st.slots) && t in ts
    ensures Current(SegData(raw, elf.segs[st.h]), ChangesOf(st, t), st.slots)
  {
    forall c, s | c in ChangesOf(st, t) && s in st.slots && s.of == c.of
      ensures OccursAt(SegData(raw, elf.segs[st.h]), c.old_, s.at)
    {
      OldDigest(st.tools, Data0(st, t), t, c);
      assert Agrees(st.tools, raw, elf, SegData(raw, elf.segs[st.h]), s);
    }
  }

  /** The digests that a step looks up are found where they belong. */
  lemma StepOccurs(st: Start, raw: seq<byte>, elf: Elf, ts: seq<nat>, t: nat, fixed: seq<byte>, hashes: seq<byte>)
    requires Now(st, raw, elf, ts) && AllAgree(st.tools, raw, elf, st.h, st.slots) && t in ts
    requires OnlyAtSlots(st, ts) && OneHome(st, t) && HeadsApart(st) && Spaced(st.slots)
    requires IsTouched(st.tools, Data0(st, t)) && hashes == SegData(raw, elf.segs[st.h])
    requires |elf.segs| > 0 && st.tools.sha384(SegData(raw, elf.segs[0])) in st.heads
    ensures OccurInSlots(hashes, Changes(st.tools, raw, fixed, elf.segs[0], Data0(st, t), t), st.slots)
    ensures Inside(hashes, Changes(st.tools, raw, fixed, elf.segs[0], Data0(st, t), t), st.slots)
  {
    var data := Data0(st, t);
    var head := HeadChange(st.tools, raw, fixed, elf.segs[0], |Rebuilt(st.tools, data)| != |data|);
    VariantNow(st, raw, elf, ts);
    CurrentNow(st, raw, elf, ts, t);
    SegmentOccurs(st, ts, t, hashes);
    HeadIn(st, raw, elf, ts, hashes, head);
    OccurBoth(hashes, ChangesOf(st, t), head, st.slots);
  }

  lemma HeadIn(st: Start, raw: seq<byte>, elf: Elf, ts: seq<nat>, hashes: seq<byte>, head: seq<Change>)
    requires OnlyAtSlots(st, ts) && Variant(st, hashes) && HeadsApart(st) && Spaced(st.slots)
    requires |elf.segs| > 0 && st.h < |elf.segs| && AllAgree(st.tools, raw, elf, st.h, st.slots)
    requires hashes == SegData(raw, elf.segs[st.h]) && st.tools.sha384(SegData(raw, elf.segs[0])) in st.heads
    requires |head| <= 1
    requires head != [] ==> head[0].of == Whole(0) && head[0].old_ == st.tools.sha384(SegData(raw, elf.segs[0]))
    ensures OccurInSlots(hashes, head, st.slots) && Inside(hashes, head, st.slots)
  {
    if head != [] {
      var c := head[0];
      forall s | s in st.slots && s.of == Whole(0)
        ensures OccursAt(hashes, c.old_, s.at)
      {
        assert Agrees(st.tools, raw, elf, hashes, s);
      }
      HeadOccurs(st, ts, hashes, c);
      assert head == [c];
    }
  }

  // ---------------------------------------------------------------------
  // What a step leaves
  // ---------------------------------------------------------------------

  lemma {:induction false} AllMissOf(base: seq<byte>, pairs: seq<DigestPair>, lo: nat, hi: nat, s: Seg)
    requires forall p :: p in pairs ==> Misses(Find(base, p.0, lo, hi), s)
    ensures AllMiss(base, pairs, lo, hi, s)
    decreases pairs
  {
    if pairs != [] {
      AllMissOf(base, pairs[1..], lo, hi, s);
    }
  }

  /** Digests that are written at slots leave the bytes between the slots. */
  lemma BetweenKept(base: seq<byte>, cs: seq<Change>, lo: nat, hi: nat, hashes: seq<byte>, slots: set<Slot>, i: nat)
    requires Searched(base, lo, hi, hashes) && Inside(hashes, cs, slots) && i < |hashes| && Between(slots, i)
    ensures |ReplaceAll(base, base, Pairs(cs), lo, hi)| == |base|
    ensures lo + i < |base| && ReplaceAll(base, base, Pairs(cs), lo, hi)[lo + i] == base[lo + i]
  {
    var s := Seg(0, lo + i, 1, 1);
    forall p | p in Pairs(cs)
      ensures Misses(Find(base, p.0, lo, hi), s)
    {
      MissesByte(base, cs, lo, hi, hashes, slots, i, s, p);
    }
    AllMissOf(base, Pairs(cs), lo, hi, s);
    MissedKept(base, base, Pairs(cs), lo, hi, s);
    ByteKept(base, ReplaceAll(base, base, Pairs(cs), lo, hi), lo + i, s);
  }

  lemma MissesByte(base: seq<byte>, cs: seq<Change>, lo: nat, hi: nat, hashes: seq<byte>, slots: set<Slot>, i: nat,
                   s: Seg, p: DigestPair)
    requires Searched(base, lo, hi, hashes) && Inside(hashes, cs, slots) && Between(slots, i)
    requires s == Seg(0, lo + i, 1, 1) && p in Pairs(cs)
    ensures Misses(Find(base, p.0, lo, hi), s)
  {
    var c := PairOfChange(cs, p);
    HitMoved(base, lo, hi, hashes, c.old_);
  }

  lemma ByteKept(base: seq<byte>, r: seq<byte>, q: nat, s: Seg)
    requires s == Seg(0, q, 1, 1) && q < |base| == |r| && SegData(r, s) == SegData(base, s)
    ensures r[q] == base[q]
  {
    assert SegData(r, s) == [r[q]] && SegData(base, s) == [base[q]];
  }

  /** The table after the digest writes of a step. */
  lemma TableBetween(fixed: seq<byte>, r: seq<byte>, hs: Seg, hashes: seq<byte>, cs: seq<Change>, slots: set<Slot>)
    requires hashes == SegData(fixed, hs) && r == ReplaceAll(fixed, fixed, Pairs(cs), hs.offset, hs.End())
    requires Inside(hashes, cs, slots)
    ensures SameBetween(slots, hashes, SegData(r, hs))
  {
    ReplaceAllWithin(fixed, fixed, Pairs(cs), hs.offset, hs.End());
    if hashes != [] {
      HashesSearched(fixed, hs, hashes);
      forall i: nat | i < |hashes| && Between(slots, i)
        ensures r[hs.offset + i] == fixed[hs.offset + i]
      {
        BetweenKept(fixed, cs, hs.offset, hs.End(), hashes, slots, i);
      }
      SameInSegment(fixed, r, hs, hashes, slots);
    }
  }

  lemma SameInSegment(fixed: seq<byte>, r: seq<byte>, hs: Seg, hashes: seq<byte>, slots: set<Slot>)
    requires |r| == |fixed| && hashes == SegData(fixed, hs) && hashes != [] && hs.offset + |hashes| <= |fixed|
    requires forall i: nat :: i < |hashes| && Between(slots, i) ==> r[hs.offset + i] == fixed[hs.offset + i]
    ensures SameBetween(slots, hashes, SegData(r, hs))
  {
    assert hashes == fixed[hs.offset..hs.offset + |hashes|];
    assert SegData(r, hs) == r[hs.offset..hs.offset + |hashes|];
  }

  lemma BetweenTwice(slots: set<Slot>, a: seq<byte>, b: seq<byte>, c: seq<byte>)
    requires SameBetween(slots, a, b) && SameBetween(slots, b, c)
    ensures SameBetween(slots, a, c)
  {
  }

  /** A subject over a step that changes segment `t`. */
  lemma SubjectStep(st: Start, raw: seq<byte>, elf: Elf, r: seq<byte>, elf': Elf, ts: seq<nat>, u: Subject)
    requires ts != [] && Once(ts) && SubjectNow(st, raw, elf, ts, u) && u != Whole(0)
    requires u.seg < |elf.segs| == |elf'.segs| && ts[0] < |elf.segs| && SegData(raw, elf.segs[ts[0]]) == Data0(st, ts[0])
    requires |st.elf.segs| == |elf.segs|
    requires SegData(r, elf'.segs[u.seg])
          == if u.seg == ts[0] then Rebuilt(st.tools, Data0(st, ts[0])) else SegData(raw, elf.segs[u.seg])
    requires u.Tree? && u.seg == ts[0] ==> Rescannable(st.tools, Data0(st, ts[0]))
    ensures SubjectNow(st, r, elf', ts[1..], u)
  {
    if u.seg == ts[0] {
      assert Content(raw, elf, u) == Content(st.raw, st.elf, u);
      if u.Tree? {
        TreeAfter(st.tools, Data0(st, ts[0]), u.k);
      }
    } else {
      assert Content(r, elf', u) == Content(raw, elf, u);
      assert u.seg in ts[1..] ==> u.seg in ts;
    }
  }

  // ---------------------------------------------------------------------
  // Conditions on the view
  // ---------------------------------------------------------------------

  /** `h` is the PT_NULL segment behind each listed segment, and every subject is fit for the
      step of each that is patched. */
  ghost predicate Fits(st: Start, elf: Elf, ts: seq<nat>) {
    forall t :: t in ts ==> FitsOne(st, elf, t)
  }

  ghost predicate FitsOne(st: Start, elf: Elf, t: nat) {
    && FirstNull(elf.segs, t, st.h)
    && (IsTouched(st.tools, Data0(st, t)) ==>
          forall s :: s in st.slots ==> SubjectOk(st.tools, elf, t, st.h, Data0(st, t), s.of))
  }

  lemma {:induction false} ReadyIn(elf: Elf, ts: seq<nat>, h: nat, t: nat)
    requires ReadyFor(elf, ts, h) && t in ts
    ensures Ready(elf, t, h) && t != 0
  {
    if t != ts[0] {
      ReadyIn(elf, ts[1..], h, t);
    }
  }

  /** Subjects stay fit for later steps. */
  lemma SubjectOkKept(tools: Tools, elf: Elf, elf': Elf, t0: nat, n: nat, m: nat, t: nat, h: nat,
                      data0: seq<byte>, data: seq<byte>, u: Subject)
    requires GoodLayout(elf) && Payload(elf, t0) && Payload(elf, t) && Payload(elf, h) && t != t0 && h != t0
    requires 0 < n <= elf.segs[t0].filesz && elf' == FixedElf(elf, t0, n, m) && Top(elf') == Top(elf)
    requires SubjectOk(tools, elf, t0, h, data0, u) && SubjectOk(tools, elf, t, h, data, u)
    ensures |elf'.segs| == |elf.segs| && SubjectOk(tools, elf', t, h, data, u)
  {
    ResizedAt(elf, t0, elf.segs[t0].offset, m - n, m, t);
    if u == Whole(0) {
      ApartIn(elf, t, t0);
      ApartIn(elf, h, t0);
      HeadStays(elf, t0, n, m, t);
      HeadStays(elf, t0, n, m, h);
    } else {
      StillPayload(elf, t0, n, m, u.seg);
    }
  }

  lemma FitsOneKept(st: Start, elf: Elf, elf': Elf, t0: nat, n: nat, m: nat, t: nat)
    requires GoodLayout(elf) && Payload(elf, t0) && Payload(elf, t) && Payload(elf, st.h) && t != t0 && st.h != t0
    requires 0 < n <= elf.segs[t0].filesz && elf' == FixedElf(elf, t0, n, m) && Top(elf') == Top(elf)
    requires FitsOne(st, elf, t0) && FitsOne(st, elf, t) && IsTouched(st.tools, Data0(st, t0))
    ensures FitsOne(st, elf', t)
  {
    NullKept(elf, elf', t0, n, m, t, st.h);
    ResizedAt(elf, t0, elf.segs[t0].offset, m - n, m, t);
    if IsTouched(st.tools, Data0(st, t)) {
      forall s | s in st.slots
        ensures SubjectOk(st.tools, elf', t, st.h, Data0(st, t), s.of)
      {
        SubjectOkKept(st.tools, elf, elf', t0, n, m, t, st.h, Data0(st, t0), Data0(st, t), s.of);
      }
    }
  }

  lemma FitsKept(st: Start, elf: Elf, elf': Elf, ts: seq<nat>, n: nat, m: nat)
    requires GoodLayout(elf) && ts != [] && Once(ts) && ReadyFor(elf, ts, st.h) && Fits(st, elf, ts)
    requires IsTouched(st.tools, Data0(st, ts[0]))
    requires 0 < n <= elf.segs[ts[0]].filesz && elf' == FixedElf(elf, ts[0], n, m) && Top(elf') == Top(elf)
    ensures Fits(st, elf', ts[1..])
  {
    forall t | t in ts[1..]
      ensures FitsOne(st, elf', t)
    {
      assert t in ts && ts[0] in ts;
      ReadyIn(elf, ts, st.h, t);
      FitsOneKept(st, elf, elf', ts[0], n, m, t);
    }
  }

  // ---------------------------------------------------------------------
  // One step of the run
  // ---------------------------------------------------------------------

  /** In such a state the digests of a step are found where they belong, in the hash segment. */
  lemma StepFits(st: Start, raw: seq<byte>, elf: Elf, ts: seq<nat>, t: nat)
    requires Now(st, raw, elf, ts) && AllAgree(st.tools, raw, elf, st.h, st.slots) && t in ts && FitsOne(st, elf, t)
    requires OnlyAtSlots(st, ts) && HeadsApart(st) && Spaced(st.slots)
    requires IsTouched(st.tools, Data0(st, t)) ==> OneHome(st, t)
    requires st.tools.sha384(SegData(raw, elf.segs[0])) in st.heads
    ensures t < |elf.segs| && st.h < |elf.segs| && StepOk(st.tools, raw, elf, t, st.h, st.slots)
  {
    var data, fixed, elf' := Data0(st, t), StepFixed(st.tools, raw, elf, t), StepElf(st.tools, raw, elf, t);
    if IsTouched(st.tools, data) {
      StepOccurs(st, raw, elf, ts, t, fixed, SegData(raw, elf.segs[st.h]));
      NullKept(elf, elf', t, |data|, |Rebuilt(st.tools, data)|, t, st.h);
      HashSegmentHomes(st.tools, raw, fixed, elf', elf.segs[0], data, t, st.h);
    }
  }

  /** The contents and the table after a step that changes its segment. */
  lemma TouchedNow(st: Start, raw: seq<byte>, elf: Elf, ts: seq<nat>, t: nat, data: seq<byte>, fixed: seq<byte>,
                   r: seq<byte>, elf': Elf)
    requires IsElf(raw, elf) && GoodLayout(elf) && ts != [] && t == ts[0] && Once(ts) && ReadyFor(elf, ts, st.h) == true
    requires Now(st, raw, elf, ts) && FitsOne(st, elf, t) && IsTouched(st.tools, data) && data == Data0(st, t) && data != []
    requires Fixed(raw, elf, t, |data|, Rebuilt(st.tools, data)) == Some(fixed)
    requires Finish(st.tools, raw, fixed, elf.segs[0], data, t) == Some(r)
    requires elf' == FixedElf(elf, t, |data|, |Rebuilt(st.tools, data)|) && |elf'.segs| == |elf.segs|
    requires Homed(st.tools, raw, fixed, elf', elf.segs[0], data, t, st.h) == true
    requires Inside(SegData(raw, elf.segs[st.h]), Changes(st.tools, raw, fixed, elf.segs[0], data, t), st.slots) == true
    ensures Now(st, r, elf', ts[1..])
  {
    assert t in ts;
    ReadyIn(elf, ts, st.h, t);
    forall u | u in ts[1..]
      ensures u < |elf'.segs| && SegData(r, elf'.segs[u]) == Data0(st, u)
    {
      assert u in ts;
      ReadyIn(elf, ts, st.h, u);
      SegmentAtHome(st.tools, raw, elf, t, st.h, data, Rebuilt(st.tools, data), fixed, r, elf', u);
    }
    forall s | s in st.slots
      ensures SubjectNow(st, r, elf', ts[1..], s.of)
    {
      SlotNow(st, raw, elf, ts, t, data, fixed, r, elf', s);
    }
    HashesAfter(st.tools, raw, elf, t, st.h, data, fixed, r, elf');
    TableBetween(fixed, r, elf'.segs[st.h], SegData(raw, elf.segs[st.h]),
                 Changes(st.tools, raw, fixed, elf.segs[0], data, t), st.slots);
    BetweenTwice(st.slots, Data0(st, st.h), SegData(raw, elf.segs[st.h]), SegData(r, elf'.segs[st.h]));
  }

  lemma SlotNow(st: Start, raw: seq<byte>, elf: Elf, ts: seq<nat>, t: nat, data: seq<byte>, fixed: seq<byte>,
                r: seq<byte>, elf': Elf, s: Slot)
    requires IsElf(raw, elf) && GoodLayout(elf) && ts != [] && t == ts[0] && Once(ts) && Ready(elf, t, st.h)
    requires Now(st, raw, elf, ts) && FitsOne(st, elf, t) && IsTouched(st.tools, data) && data == Data0(st, t) && data != []
    requires Fixed(raw, elf, t, |data|, Rebuilt(st.tools, data)) == Some(fixed)
    requires Finish(st.tools, raw, fixed, elf.segs[0], data, t) == Some(r)
    requires elf' == FixedElf(elf, t, |data|, |Rebuilt(st.tools, data)|) && |elf'.segs| == |elf.segs|
    requires Homed(st.tools, raw, fixed, elf', elf.segs[0], data, t, st.h) == true && s in st.slots
    ensures SubjectNow(st, r, elf', ts[1..], s.of)
  {
    if s.of != Whole(0) {
      assert t in ts && SubjectNow(st, raw, elf, ts, s.of);
      assert SubjectOk(st.tools, elf, t, st.h, data, s.of);
      SegmentAtHome(st.tools, raw, elf, t, st.h, data, Rebuilt(st.tools, data), fixed, r, elf', s.of.seg);
      SubjectStep(st, raw, elf, r, elf', ts, s.of);
    }
  }

  /** A step that changes nothing. */
  lemma UntouchedNow(st: Start, raw: seq<byte>, elf: Elf, ts: seq<nat>)
    requires ts != [] && Now(st, raw, elf, ts) && Fits(st, elf, ts)
    ensures Now(st, raw, elf, ts[1..]) && Fits(st, elf, ts[1..])
  {
    forall s | s in st.slots
      ensures SubjectNow(st, raw, elf, ts[1..], s.of)
    {
      assert SubjectNow(st, raw, elf, ts, s.of);
    }
  }

  // ---------------------------------------------------------------------
  // The run
  // ---------------------------------------------------------------------

  /** What holds of a state with the segments in `ts` still to come. */
  ghost predicate Good(st: Start, raw: seq<byte>, elf: Elf, ts: seq<nat>) {
    && Now(st, raw, elf, ts) && Fits(st, elf, ts) && ReadyFor(elf, ts, st.h)
    && AllAgree(st.tools, raw, elf, st.h, st.slots) && IsElf(raw, elf) && GoodLayout(elf)
  }

  /** What is asked of the digests, for all segments still to come. */
  ghost predicate Digests(st: Start, ts: seq<nat>) {
    && Spaced(st.slots) && HeadsApart(st) && OnlyAtSlots(st, ts)
    && forall t :: t in ts && IsTouched(st.tools, Data0(st, t)) ==> OneHome(st, t)
  }

  lemma DigestsRest(st: Start, ts: seq<nat>)
    requires ts != [] && Digests(st, ts)
    ensures Digests(st, ts[1..])
  {
    forall d | LookedUp(st, ts[1..], d)
      ensures LookedUp(st, ts, d)
    {
    }
  }

  /** The step leads to another such state. */
  lemma GoodStep(st: Start, raw: seq<byte>, elf: Elf, ts: seq<nat>, t: nat, data: seq<byte>, fixed: seq<byte>,
                 next: seq<byte>, elf': Elf)
    requires Good(st, raw, elf, ts) && ts != [] && t == ts[0] && Once(ts) && Digests(st, ts)
    requires data == SegData(raw, elf.segs[t]) && StepShape(st.tools, raw, elf, t, data, fixed, next)
    requires elf' == StepElf(st.tools, raw, elf, t) && StepOk(st.tools, raw, elf, t, st.h, st.slots) == true
    requires st.tools.sha384(SegData(raw, elf.segs[0])) in st.heads
    ensures Good(st, next, elf', ts[1..])
  {
    assert t in ts && FitsOne(st, elf, t);
    ReadyIn(elf, ts, st.h, t);
    StepSlots(st.tools, raw, elf, t, st.h, data, fixed, next, elf', st.slots);
    StepIsElfStep(st.tools, raw, elf, t, data, fixed, next);
    ReadyForKept(elf, elf', t, |data|, |Rebuilt(st.tools, data)|, ts[1..], st.h);
    if IsTouched(st.tools, data) {
      FixedIsStepFixed(st.tools, raw, elf, t, data, fixed);
      TouchedGood(st, raw, elf, ts, t, data, fixed, next, elf');
    } else {
      UntouchedNow(st, raw, elf, ts);
    }
  }

  lemma TouchedGood(st: Start, raw: seq<byte>, elf: Elf, ts: seq<nat>, t: nat, data: seq<byte>, fixed: seq<byte>,
                    r: seq<byte>, elf': Elf)
    requires Good(st, raw, elf, ts) && ts != [] && t == ts[0] && Once(ts) && Digests(st, ts)
    requires data == SegData(raw, elf.segs[t]) && IsTouched(st.tools, data) && data != []
    requires Fixed(raw, elf, t, |data|, Rebuilt(st.tools, data)) == Some(fixed)
    requires Finish(st.tools, raw, fixed, elf.segs[0], data, t) == Some(r)
    requires elf' == FixedElf(elf, t, |data|, |Rebuilt(st.tools, data)|) && |elf'.segs| == |elf.segs|
    requires Homed(st.tools, raw, fixed, elf', elf.segs[0], data, t, st.h) == true
    requires st.tools.sha384(SegData(raw, elf.segs[0])) in st.heads
    ensures Now(st, r, elf', ts[1..]) && Fits(st, elf', ts[1..])
  {
    assert t in ts && FitsOne(st, elf, t) && data == Data0(st, t);
    ReadyIn(elf, ts, st.h, t);
    StepOccurs(st, raw, elf, ts, t, fixed, SegData(raw, elf.segs[st.h]));
    TouchedNow(st, raw, elf, ts, t, data, fixed, r, elf');
    DataInFile(raw, elf.segs[t], data);
    FixedLayout(raw, elf, t, |data|, Rebuilt(st.tools, data), fixed, elf');
    FitsKept(st, elf, elf', ts, |data|, |Rebuilt(st.tools, data)|);
  }

  /** From such a state on the run keeps the table right. */
  lemma {:induction false} TableRun(st: Start, raw: seq<byte>, elf: Elf, ts: seq<nat>)
    requires Good(st, raw, elf, ts) && Once(ts) && Digests(st, ts) && HeadsIn(st.tools, raw, elf, ts, st.heads)
    ensures RunOk(st.tools, raw, elf, ts, st.h, st.slots)
    decreases ts
  {
    if ts != [] && PatchStep(st.tools, raw, ts[0]).Some? {
      var next, elf' := PatchStep(st.tools, raw, ts[0]).value.0, StepElf(st.tools, raw, elf, ts[0]);
      TableStep(st, raw, elf, ts, next, elf');
      DigestsRest(st, ts);
      TableRun(st, next, elf', ts[1..]);
    }
  }

  lemma TableStep(st: Start, raw: seq<byte>, elf: Elf, ts: seq<nat>, next: seq<byte>, elf': Elf)
    requires Good(st, raw, elf, ts) && ts != [] && Once(ts) && Digests(st, ts) && ts[0] < |elf.segs|
    requires PatchStep(st.tools, raw, ts[0]).Some? && PatchStep(st.tools, raw, ts[0]).value.0 == next
    requires elf' == StepElf(st.tools, raw, elf, ts[0]) && st.tools.sha384(SegData(raw, elf.segs[0])) in st.heads
    ensures StepOk(st.tools, raw, elf, ts[0], st.h, st.slots) && Good(st, next, elf', ts[1..])
  {
    var t, data := ts[0], SegData(raw, elf.segs[ts[0]]);
    assert t in ts && FitsOne(st, elf, t);
    StepFits(st, raw, elf, ts, t);
    var fixed := StepCases(st.tools, raw, elf, t, data, next);
    GoodStep(st, raw, elf, ts, t, data, fixed, next, elf');
  }

  // ---------------------------------------------------------------------
  // The program
  // ---------------------------------------------------------------------

  /** Before the run every subject holds what it holds before the run. */
  lemma NowAtStart(st: Start, ts: seq<nat>)
    requires st.h < |st.elf.segs| && AllAgree(st.tools, st.raw, st.elf, st.h, st.slots)
    requires forall t :: t in ts ==> t < |st.elf.segs|
    ensures Now(st, st.raw, st.elf, ts)
  {
    forall s | s in st.slots
      ensures SubjectNow(st, st.raw, st.elf, ts, s.of)
    {
      assert Agrees(st.tools, st.raw, st.elf, SegData(st.raw, st.elf.segs[st.h]), s);
    }
  }

  /** `_patch_uefi_dtbs` leaves a right table of digests right, if digests can be told apart by
      where they stand: said of the image before the run, and of the digests. */
  lemma PatchUefiTable(st: Start, r: seq<byte>, ts: seq<nat>) returns (last: Elf)
    requires ParseElf(st.raw) == Some(st.elf) && GoodLayout(st.elf) && st.h < |st.elf.segs|
    requires PatchUefi(st.tools, st.raw).Some? && PatchUefi(st.tools, st.raw).value.0 == r
    requires ts == DtbSegments(st.raw, st.elf.segs, 0) && ReadyFor(st.elf, ts, st.h) && Fits(st, st.elf, ts)
    requires HeadsIn(st.tools, st.raw, st.elf, ts, st.heads) && Digests(st, ts)
    requires AllAgree(st.tools, st.raw, st.elf, st.h, st.slots)
    ensures ParseElf(r) == Some(last) && |last.segs| == |st.elf.segs|
    ensures AllAgree(st.tools, r, last, st.h, st.slots)
  {
    ListedOnce(st.raw, st.elf.segs, 0);
    assert forall t :: t in ts ==> FitsOne(st, st.elf, t);
    NowAtStart(st, ts);
    TableRun(st, st.raw, st.elf, ts);
    last := PatchUefiHashes(st.tools, st.raw, st.elf, r, st.h, st.slots);
  }
}
