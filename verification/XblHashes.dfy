// The table of digests on the XBLConfig path: a call of `_replace_ph` keeps
// the slots of whole segments right, including those of the header segment and
// of the metadata that it writes into.
module XblHashes {
  import opened Bytes
  import opened SegmentRebuild
  import opened ElfImage
  import opened Resize
  import opened UefiDtbs
  import opened DigestWrites
  import opened UefiRun
  import opened DigestSlots
  import opened UefiHashes
  import opened XblConfig
  import opened XblReplace
  import opened XblEffect
  import opened XblRun

  // ---------------------------------------------------------------------
  // The changes of the two rounds
  // ---------------------------------------------------------------------

  function TargetChange(tools: Tools, raw: seq<byte>, s: Seg, t: nat, new_: seq<byte>): seq<Change> {
    [Change(Whole(t), tools.sha384(SegData(raw, s)), tools.sha384(new_))]
  }

  /** The change of a side effect on segment `i`, if its digest has changed. */
  function SideChange(tools: Tools, raw: seq<byte>, img: seq<byte>, segs: seq<Seg>, t: nat, i: nat): seq<Change> {
    if i == t || i >= |segs| || SegData(raw, segs[i]) == [] then []
    else
      var was, is_ := tools.sha384(SegData(raw, segs[i])), tools.sha384(SegData(img, segs[i]));
      if was == is_ then [] else [Change(Whole(i), was, is_)]
  }

  function SideChanges(tools: Tools, raw: seq<byte>, img: seq<byte>, segs: seq<Seg>, t: nat, meta: nat): seq<Change> {
    SideChange(tools, raw, img, segs, t, 0) + if meta == 0 then [] else SideChange(tools, raw, img, segs, t, meta)
  }

  lemma OneSidePair(tools: Tools, raw: seq<byte>, img: seq<byte>, elf: Elf, t: nat, i: nat, rest: seq<(nat, Digest)>)
    ensures SidePairs(tools, img, elf.segs, SideEffect(tools, raw, elf, t, i) + rest)
         == Pairs(SideChange(tools, raw, img, elf.segs, t, i)) + SidePairs(tools, img, elf.segs, rest)
  {
    var side := SideEffect(tools, raw, elf, t, i);
    if side == [] {
      assert side + rest == rest;
    } else {
      assert (side + rest)[0] == side[0] && (side + rest)[1..] == rest;
      var c := SideChange(tools, raw, img, elf.segs, t, i);
      if c != [] {
        PairsOne(c[0]);
      }
    }
  }

  /** The pairs that the program collects are those of `SideChanges`. */
  lemma SidePairsAre(tools: Tools, raw: seq<byte>, img: seq<byte>, elf: Elf, t: nat, meta: nat)
    ensures SidePairs(tools, img, elf.segs, SideEffects(tools, raw, elf, t, meta))
         == Pairs(SideChanges(tools, raw, img, elf.segs, t, meta))
  {
    var a, b := SideChange(tools, raw, img, elf.segs, t, 0), SideChange(tools, raw, img, elf.segs, t, meta);
    if meta == 0 {
      OneSidePair(tools, raw, img, elf, t, 0, []);
      assert a + [] == a;
    } else {
      var last := SideEffect(tools, raw, elf, t, meta);
      OneSidePair(tools, raw, img, elf, t, 0, last);
      OneSidePair(tools, raw, img, elf, t, meta, []);
      assert last + [] == last;
      PairsConcat(a, b);
    }
  }

  lemma SideSubjects(tools: Tools, raw: seq<byte>, img: seq<byte>, segs: seq<Seg>, t: nat, meta: nat)
    requires meta != 0
    ensures DistinctSubjects(SideChanges(tools, raw, img, segs, t, meta))
    ensures Subjects(SideChanges(tools, raw, img, segs, t, meta))
         == Subjects(SideChange(tools, raw, img, segs, t, 0)) + Subjects(SideChange(tools, raw, img, segs, t, meta))
  {
    var a, b := SideChange(tools, raw, img, segs, t, 0), SideChange(tools, raw, img, segs, t, meta);
    if a != [] {
      SubjectsOne(a[0]);
    }
    if b != [] {
      SubjectsOne(b[0]);
    }
    DistinctConcat(a, b);
    SubjectsConcat(a, b);
  }

  lemma SideSubject(tools: Tools, raw: seq<byte>, img: seq<byte>, segs: seq<Seg>, t: nat, i: nat)
    ensures Subjects(SideChange(tools, raw, img, segs, t, i)) <= {Whole(i)}
    ensures i == t ==> Subjects(SideChange(tools, raw, img, segs, t, i)) == {}
  {
    var a := SideChange(tools, raw, img, segs, t, i);
    if a != [] {
      SubjectsOne(a[0]);
    }
  }

  /** A segment that is not written into. */
  lemma CoversUntouched(tools: Tools, raw: seq<byte>, img: seq<byte>, segs: seq<Seg>, t: nat, meta: nat,
                        u: Subject, c: seq<byte>)
    requires meta != 0 && (u == Whole(t) || (u != Whole(0) && u != Whole(meta)))
    ensures Covered(tools, SideChanges(tools, raw, img, segs, t, meta), u, c, c)
  {
    SideSubjects(tools, raw, img, segs, t, meta);
    SideSubject(tools, raw, img, segs, t, 0);
    SideSubject(tools, raw, img, segs, t, meta);
    if u == Whole(t) && t == 0 {
      assert u !in Subjects(SideChange(tools, raw, img, segs, t, meta));
    }
  }

  /** A segment that is. */
  lemma CoversSide(tools: Tools, raw: seq<byte>, img: seq<byte>, segs: seq<Seg>, t: nat, meta: nat, i: nat)
    requires meta != 0 && i != t && (i == 0 || i == meta) && i < |segs|
    requires SegData(raw, segs[i]) == [] ==> SegData(img, segs[i]) == []
    ensures Covered(tools, SideChanges(tools, raw, img, segs, t, meta), Whole(i), SegData(raw, segs[i]), SegData(img, segs[i]))
  {
    var one := SideChange(tools, raw, img, segs, t, i);
    SideSubjects(tools, raw, img, segs, t, meta);
    SideSubject(tools, raw, img, segs, t, 0);
    SideSubject(tools, raw, img, segs, t, meta);
    if one != [] {
      assert one[0] in SideChanges(tools, raw, img, segs, t, meta);
    }
  }

  lemma CoversFirst(tools: Tools, raw: seq<byte>, s: Seg, t: nat, new_: seq<byte>, u: Subject, old_: seq<byte>, mid: seq<byte>)
    requires if u == Whole(t) then old_ == SegData(raw, s) && mid == new_ else old_ == mid
    ensures DistinctSubjects(TargetChange(tools, raw, s, t, new_))
    ensures Covered(tools, TargetChange(tools, raw, s, t, new_), u, old_, mid)
  {
    SubjectsOne(TargetChange(tools, raw, s, t, new_)[0]);
  }

  // ---------------------------------------------------------------------
  // One call
  // ---------------------------------------------------------------------

  /** The image after the first round. */
  function Hashed(tools: Tools, raw: seq<byte>, sized: seq<byte>, s: Seg, new_: seq<byte>): seq<byte> {
    ReplaceAll(sized, sized, [TargetPair(tools, raw, s, new_)], 0, |sized|)
  }

  /** Both rounds as replacements in the hash segment. */
  lemma RoundsInRegion(tools: Tools, raw: seq<byte>, sized: seq<byte>, elf: Elf, t: nat, new_: seq<byte>, meta: nat,
                       hs: Seg)
    requires t < |elf.segs| && DigestsIn(tools, raw, sized, elf, t, new_, meta, hs)
    ensures var hashed := Hashed(tools, raw, sized, elf.segs[t], new_);
            && hashed == ReplaceAll(sized, sized, Pairs(TargetChange(tools, raw, elf.segs[t], t, new_)), hs.offset, hs.End())
            && ReplaceDigests(tools, raw, sized, elf, t, new_, meta)
               == ReplaceAll(hashed, hashed, Pairs(SideChanges(tools, raw, hashed, elf.segs, t, meta)), hs.offset, hs.End())
  {
    var pair := [TargetPair(tools, raw, elf.segs[t], new_)];
    var hashed := Hashed(tools, raw, sized, elf.segs[t], new_);
    PairsOne(TargetChange(tools, raw, elf.segs[t], t, new_)[0]);
    ReplaceAllNarrow(sized, sized, pair, 0, |sized|, hs);
    SidePairsAre(tools, raw, hashed, elf, t, meta);
    ReplaceAllNarrow(hashed, hashed, Pairs(SideChanges(tools, raw, hashed, elf.segs, t, meta)), 0, |hashed|, hs);
  }

  /** A slot through both rounds. */
  lemma SlotThrough(tools: Tools, sized: seq<byte>, hashed: seq<byte>, r: seq<byte>, hs: Seg, slots: set<Slot>, s: Slot,
                    cs: seq<Change>, ds: seq<Change>, old_: seq<byte>, mid: seq<byte>, new_: seq<byte>)
    requires hashed == ReplaceAll(sized, sized, Pairs(cs), hs.offset, hs.End())
    requires r == ReplaceAll(hashed, hashed, Pairs(ds), hs.offset, hs.End())
    requires OccurInSlots(SegData(sized, hs), cs, slots) && OccurInSlots(SegData(hashed, hs), ds, slots)
    requires Spaced(slots) && s in slots && DistinctSubjects(cs) && DistinctSubjects(ds)
    requires OccursAt(SegData(sized, hs), tools.sha384(old_), s.at)
    requires Covered(tools, cs, s.of, old_, mid) && Covered(tools, ds, s.of, mid, new_)
    ensures OccursAt(SegData(r, hs), tools.sha384(new_), s.at)
  {
    SlotAfter(tools, sized, hashed, hs, SegData(sized, hs), cs, slots, s, old_, mid);
    SlotAfter(tools, hashed, r, hs, SegData(hashed, hs), ds, slots, s, mid, new_);
  }

  /** In each round the old digests are found where they belong and no slot is left out. */
  ghost predicate RoundsOk(tools: Tools, raw: seq<byte>, sized: seq<byte>, elf: Elf, t: nat, new_: seq<byte>, meta: nat,
                           hs: Seg, slots: set<Slot>)
    requires t < |elf.segs|
  {
    var hashed := Hashed(tools, raw, sized, elf.segs[t], new_);
    && OccurInSlots(SegData(sized, hs), TargetChange(tools, raw, elf.segs[t], t, new_), slots)
    && OccurInSlots(SegData(hashed, hs), SideChanges(tools, raw, hashed, elf.segs, t, meta), slots)
  }

  /** What a segment held before the call, after the first round, and in the end. */
  lemma SlotRounds(tools: Tools, raw: seq<byte>, sized: seq<byte>, r: seq<byte>, elf: Elf, t: nat, new_: seq<byte>,
                   meta: nat, hs: Seg, slots: set<Slot>, s: Slot, now: seq<byte>)
    requires t < |elf.segs| && meta != 0 && s.of.Whole? && s.of.seg < |elf.segs|
    requires DigestsIn(tools, raw, sized, elf, t, new_, meta, hs)
    requires r == ReplaceDigests(tools, raw, sized, elf, t, new_, meta)
    requires RoundsOk(tools, raw, sized, elf, t, new_, meta, hs, slots) && Spaced(slots) && s in slots
    requires OccursAt(SegData(sized, hs), tools.sha384(SegData(raw, elf.segs[s.of.seg])), s.at)
    requires var hashed := Hashed(tools, raw, sized, elf.segs[t], new_);
             if s.of.seg == t then now == new_
             else if s.of.seg == 0 || s.of.seg == meta then
               && now == SegData(hashed, elf.segs[s.of.seg])
               && (SegData(raw, elf.segs[s.of.seg]) == [] ==> now == [])
             else now == SegData(raw, elf.segs[s.of.seg])
    ensures OccursAt(SegData(r, hs), tools.sha384(now), s.at)
  {
    var hashed, i := Hashed(tools, raw, sized, elf.segs[t], new_), s.of.seg;
    var mid := if i == t then new_ else SegData(raw, elf.segs[i]);
    RoundsInRegion(tools, raw, sized, elf, t, new_, meta, hs);
    CoversFirst(tools, raw, elf.segs[t], t, new_, s.of, SegData(raw, elf.segs[i]), mid);
    SideSubjects(tools, raw, hashed, elf.segs, t, meta);
    if i != t && (i == 0 || i == meta) {
      CoversSide(tools, raw, hashed, elf.segs, t, meta, i);
    } else {
      CoversUntouched(tools, raw, hashed, elf.segs, t, meta, s.of, mid);
    }
    SlotThrough(tools, sized, hashed, r, hs, slots, s, TargetChange(tools, raw, elf.segs[t], t, new_),
                SideChanges(tools, raw, hashed, elf.segs, t, meta), SegData(raw, elf.segs[i]), mid, now);
  }

  /** Segment `h`, which holds the digests, is another one behind the headers. */
  ghost predicate Fit(elf: Elf, t: nat, meta: nat, h: nat, n: nat) {
    Replaceable(elf, t, meta, n) && Payload(elf, h) && h != t && h != meta && elf.segs[h].End() <= n
  }

  /** The stages of a call that finds its digests in `h` or nowhere. */
  predicate Staged(tools: Tools, raw: seq<byte>, elf: Elf, t: nat, meta: nat, h: nat, new_: seq<byte>,
                   fixed: seq<byte>, sized: seq<byte>, r: seq<byte>)
    requires t < |elf.segs| && h < |elf.segs|
  {
    && Stages(tools, raw, elf, t, meta, new_, fixed, sized, r)
    && DigestsIn(tools, raw, sized, elf, t, new_, meta, NewElf(elf, t, |new_|).segs[h])
  }

  /** Everything apart from `h` is spared. */
  lemma StagedSpares(tools: Tools, raw: seq<byte>, elf: Elf, t: nat, meta: nat, h: nat, new_: seq<byte>,
                     fixed: seq<byte>, sized: seq<byte>, r: seq<byte>, elf': Elf, s: Seg)
    requires t < |elf.segs| && h < |elf.segs| && Staged(tools, raw, elf, t, meta, h, new_, fixed, sized, r)
    requires elf' == NewElf(elf, t, |new_|) && Apart(s, elf'.segs[h])
    ensures ReplaceSpares(tools, raw, sized, elf, t, new_, meta, s) == true
  {
    DigestsInSpare(tools, raw, sized, elf, t, new_, meta, elf'.segs[h], s);
  }

  lemma HashesUnharmed(raw: seq<byte>, elf: Elf, t: nat, meta: nat, h: nat, new_: seq<byte>, fixed: seq<byte>, sized: seq<byte>)
    requires IsElf(raw, elf) && Fit(elf, t, meta, h, |raw|) && new_ != []
    requires HeadersWritten(raw, elf, t, new_, fixed) && sized == WriteItemSize(raw, fixed, elf, t, meta, |new_|)
    ensures SegData(sized, NewElf(elf, t, |new_|).segs[h]) == SegData(raw, elf.segs[h])
  {
    BeforeRounds(raw, elf, t, meta, new_, fixed, sized, NewElf(elf, t, |new_|), h);
  }

  /** The segment of the digests and another one are still behind the headers, and apart. */
  lemma HashApart(raw: seq<byte>, elf: Elf, t: nat, meta: nat, h: nat, new_: seq<byte>, fixed: seq<byte>, elf': Elf, i: nat)
    requires IsElf(raw, elf) && Fit(elf, t, meta, h, |raw|) && new_ != [] && elf' == NewElf(elf, t, |new_|)
    requires HeadersWritten(raw, elf, t, new_, fixed) && Payload(elf, i) && i != h
    ensures |elf'.segs| == |elf.segs| && Payload(elf', i) && Payload(elf', h)
    ensures Apart(elf'.segs[i], elf'.segs[h]) && Apart(Front(elf'), elf'.segs[h])
  {
    StageOne(raw, elf, t, meta, new_, fixed);
    WrittenParses(raw, elf, t, new_, fixed);
    NewPayload(elf, t, meta, |raw|, |new_|, i);
    NewPayload(elf, t, meta, |raw|, |new_|, h);
    ApartIn(elf', i, h);
  }

  /** The second round changes nothing in a segment apart from the hash segment. */
  lemma KeptBySecondRound(tools: Tools, raw: seq<byte>, sized: seq<byte>, elf: Elf, t: nat, new_: seq<byte>, meta: nat,
                          hs: Seg, s: Seg)
    requires t < |elf.segs| && DigestsIn(tools, raw, sized, elf, t, new_, meta, hs) && Apart(s, hs)
    ensures SegData(ReplaceDigests(tools, raw, sized, elf, t, new_, meta), s)
         == SegData(Hashed(tools, raw, sized, elf.segs[t], new_), s)
  {
    var hashed := Hashed(tools, raw, sized, elf.segs[t], new_);
    var pairs := SidePairs(tools, hashed, elf.segs, SideEffects(tools, raw, elf, t, meta));
    var r := ReplaceAll(hashed, hashed, pairs, 0, |hashed|);
    NarrowWithin(hashed, pairs, 0, |hashed|, hs, r);
    KeepsSegment(hashed, r, hs.offset, hs.End(), s);
  }

  /** Segment 0 is in front of the target and of the hash segment and stays there. */
  lemma FrontStays(elf: Elf, t: nat, meta: nat, h: nat, n: nat, m: nat)
    requires Fit(elf, t, meta, h, n) && HeadInFront(elf, t, h) && 0 < m
    ensures NewElf(elf, t, m).segs[0] == elf.segs[0] && Apart(elf.segs[0], NewElf(elf, t, m).segs[h])
  {
    var k := Min(elf.segs[t].filesz, m);
    assert ShiftFor(elf.segs[t].filesz, m) == m - k;
    ApartIn(elf, h, t);
    HeadStays(elf, t, k, m, h);
  }

  /** The subject of a slot: a whole segment, segment 0 in front or one behind the headers. */
  predicate WholeOk(elf: Elf, t: nat, h: nat, n: nat, u: Subject)
    requires t < |elf.segs| && h < |elf.segs|
  {
    && u.Whole?
    && (if u.seg == 0 then HeadInFront(elf, t, h) else Payload(elf, u.seg) && u.seg != h && elf.segs[u.seg].End() <= n)
  }

  lemma NoContents(raw: seq<byte>, img: seq<byte>, s: Seg)
    requires s.End() <= |raw| && SegData(raw, s) == []
    ensures SegData(img, s) == []
  {
  }

  /** What the subject of a slot holds in the end, in the terms of the two rounds. */
  lemma NowHolds(tools: Tools, raw: seq<byte>, elf: Elf, t: nat, meta: nat, h: nat, new_: seq<byte>,
                 fixed: seq<byte>, sized: seq<byte>, r: seq<byte>, i: nat)
    requires IsElf(raw, elf) && Fit(elf, t, meta, h, |raw|) && new_ != [] && meta != 0
    requires Staged(tools, raw, elf, t, meta, h, new_, fixed, sized, r) && WholeOk(elf, t, h, |raw|, Whole(i))
    ensures i < |elf.segs|
    ensures var hashed, now := Hashed(tools, raw, sized, elf.segs[t], new_), SegData(r, NewElf(elf, t, |new_|).segs[i]);
            if i == t then now == new_
            else if i == 0 || i == meta then
              now == SegData(hashed, elf.segs[i]) && (SegData(raw, elf.segs[i]) == [] ==> now == [])
            else now == SegData(raw, elf.segs[i])
  {
    var elf' := NewElf(elf, t, |new_|);
    var hs := elf'.segs[h];
    if i == 0 {
      FrontStays(elf, t, meta, h, |raw|, |new_|);
      KeptBySecondRound(tools, raw, sized, elf, t, new_, meta, hs, elf.segs[0]);
    } else if i == meta {
      StageOne(raw, elf, t, meta, new_, fixed);
      HashApart(raw, elf, t, meta, h, new_, fixed, elf', meta);
      KeptBySecondRound(tools, raw, sized, elf, t, new_, meta, hs, elf.segs[meta]);
    } else {
      OtherHoldsOwn(tools, raw, elf, t, meta, h, new_, fixed, sized, r, elf', i);
    }
    if (i == 0 || i == meta) && SegData(raw, elf.segs[i]) == [] {
      NoContents(raw, Hashed(tools, raw, sized, elf.segs[t], new_), elf.segs[i]);
    }
  }

  lemma OtherHoldsOwn(tools: Tools, raw: seq<byte>, elf: Elf, t: nat, meta: nat, h: nat, new_: seq<byte>,
                      fixed: seq<byte>, sized: seq<byte>, r: seq<byte>, elf': Elf, i: nat)
    requires IsElf(raw, elf) && Fit(elf, t, meta, h, |raw|) && new_ != [] && elf' == NewElf(elf, t, |new_|)
    requires Staged(tools, raw, elf, t, meta, h, new_, fixed, sized, r) == true
    requires Payload(elf, i) && elf.segs[i].End() <= |raw| && i != meta && i != h
    ensures i < |elf'.segs| && SegData(r, elf'.segs[i]) == if i == t then new_ else SegData(raw, elf.segs[i])
  {
    HashApart(raw, elf, t, meta, h, new_, fixed, elf', i);
    StagedSpares(tools, raw, elf, t, meta, h, new_, fixed, sized, r, elf', elf'.segs[i]);
    ReplaceContents(tools, raw, elf, t, meta, new_, fixed, sized, r, elf', i);
  }

  /** One slot over a call. */
  lemma ReplaceSlot(tools: Tools, raw: seq<byte>, elf: Elf, t: nat, meta: nat, h: nat, new_: seq<byte>,
                    fixed: seq<byte>, sized: seq<byte>, r: seq<byte>, slots: set<Slot>, s: Slot)
    requires IsElf(raw, elf) && Fit(elf, t, meta, h, |raw|) && new_ != [] && meta != 0
    requires Staged(tools, raw, elf, t, meta, h, new_, fixed, sized, r)
    requires RoundsOk(tools, raw, sized, elf, t, new_, meta, NewElf(elf, t, |new_|).segs[h], slots)
    requires Spaced(slots) && s in slots && WholeOk(elf, t, h, |raw|, s.of)
    requires Agrees(tools, raw, elf, SegData(raw, elf.segs[h]), s)
    ensures var elf' := NewElf(elf, t, |new_|); Agrees(tools, r, elf', SegData(r, elf'.segs[h]), s)
  {
    var elf', i := NewElf(elf, t, |new_|), s.of.seg;
    HashesUnharmed(raw, elf, t, meta, h, new_, fixed, sized);
    NowHolds(tools, raw, elf, t, meta, h, new_, fixed, sized, r, i);
    SlotRounds(tools, raw, sized, r, elf, t, new_, meta, elf'.segs[h], slots, s, SegData(r, elf'.segs[i]));
  }

  // ---------------------------------------------------------------------
  // Any sequence of replacements
  // ---------------------------------------------------------------------

  /** What keeps the table right in one replacement: the segment may be replaced, the digests
      are found in `h` or nowhere, and there where they belong. */
  ghost predicate SlotsOk(tools: Tools, raw: seq<byte>, elf: Elf, t: nat, new_: seq<byte>, meta: nat, h: nat, slots: set<Slot>)
    requires h < |elf.segs|
  {
    && CanReplace(elf, meta, t) && h != t && new_ != []
    && (forall o :: o in slots ==> WholeOk(elf, t, h, |raw|, o.of))
    && RoundsFit(tools, raw, elf, t, new_, meta, h, slots)
  }

  ghost predicate RoundsFit(tools: Tools, raw: seq<byte>, elf: Elf, t: nat, new_: seq<byte>, meta: nat, h: nat, slots: set<Slot>)
    requires t < |elf.segs| && h < |elf.segs|
  {
    var s, hs := elf.segs[t], NewElf(elf, t, |new_|).segs[h];
    var w := HeaderWrites(ResizeImage(raw, s.offset, s.filesz, new_), elf, t, s.offset,
                          ShiftFor(s.filesz, |new_|), |new_|);
    w.Some? ==>
      var sized := WriteItemSize(raw, w.value, elf, t, meta, |new_|);
      && DigestsIn(tools, raw, sized, elf, t, new_, meta, hs)
      && RoundsOk(tools, raw, sized, elf, t, new_, meta, hs, slots)
  }

  lemma FitStages(tools: Tools, raw: seq<byte>, elf: Elf, t: nat, new_: seq<byte>, meta: nat, h: nat, slots: set<Slot>,
                  r: seq<byte>)
    returns (fixed: seq<byte>, sized: seq<byte>)
    requires IsElf(raw, elf) && t < |elf.segs| && h < |elf.segs| && ReplacePh(tools, raw, t, new_, meta) == Some(r)
    requires RoundsFit(tools, raw, elf, t, new_, meta, h, slots)
    ensures Staged(tools, raw, elf, t, meta, h, new_, fixed, sized, r) == true
    ensures RoundsOk(tools, raw, sized, elf, t, new_, meta, NewElf(elf, t, |new_|).segs[h], slots) == true
  {
    fixed, sized := ReplaceParts(tools, raw, elf, t, new_, meta, r);
  }

  /** What a run keeps: the image parses to `elf`, which is laid out well, and the table is right. */
  ghost predicate TableRight(tools: Tools, raw: seq<byte>, elf: Elf, meta: nat, h: nat, slots: set<Slot>) {
    && IsElf(raw, elf) && FileLayout(elf, meta, |raw|) && Payload(elf, h) && h != meta
    && AllAgree(tools, raw, elf, h, slots)
  }

  /** A call keeps every slot right. */
  lemma ReplaceSlots(tools: Tools, raw: seq<byte>, elf: Elf, t: nat, meta: nat, h: nat, new_: seq<byte>, r: seq<byte>,
                     slots: set<Slot>, elf': Elf)
    requires TableRight(tools, raw, elf, meta, h, slots) && Spaced(slots) && meta != 0
    requires ReplacePh(tools, raw, t, new_, meta) == Some(r) && SlotsOk(tools, raw, elf, t, new_, meta, h, slots)
    requires elf' == NewElf(elf, t, |new_|)
    ensures TableRight(tools, r, elf', meta, h, slots) && |elf'.segs| == |elf.segs|
  {
    var fixed, sized := FitStages(tools, raw, elf, t, new_, meta, h, slots, r);
    CanIsReplaceable(elf, meta, t, |raw|);
    SlotsThrough(tools, raw, elf, t, meta, h, new_, fixed, sized, r, slots, elf');
    SlotsLayout(tools, raw, elf, t, meta, h, new_, fixed, sized, r, elf');
  }

  lemma SlotsThrough(tools: Tools, raw: seq<byte>, elf: Elf, t: nat, meta: nat, h: nat, new_: seq<byte>,
                     fixed: seq<byte>, sized: seq<byte>, r: seq<byte>, slots: set<Slot>, elf': Elf)
    requires IsElf(raw, elf) && Fit(elf, t, meta, h, |raw|) && new_ != [] && meta != 0
    requires Staged(tools, raw, elf, t, meta, h, new_, fixed, sized, r) == true && elf' == NewElf(elf, t, |new_|)
    requires RoundsOk(tools, raw, sized, elf, t, new_, meta, elf'.segs[h], slots) == true
    requires forall o :: o in slots ==> WholeOk(elf, t, h, |raw|, o.of)
    requires Spaced(slots) == true && AllAgree(tools, raw, elf, h, slots)
    ensures AllAgree(tools, r, elf', h, slots)
  {
    forall s | s in slots
      ensures Agrees(tools, r, elf', SegData(r, elf'.segs[h]), s)
    {
      ReplaceSlot(tools, raw, elf, t, meta, h, new_, fixed, sized, r, slots, s);
    }
  }

  lemma SlotsLayout(tools: Tools, raw: seq<byte>, elf: Elf, t: nat, meta: nat, h: nat, new_: seq<byte>,
                    fixed: seq<byte>, sized: seq<byte>, r: seq<byte>, elf': Elf)
    requires IsElf(raw, elf) && FileLayout(elf, meta, |raw|) && CanReplace(elf, meta, t) && new_ != []
    requires Payload(elf, h) && h != t && h != meta && elf' == NewElf(elf, t, |new_|)
    requires Staged(tools, raw, elf, t, meta, h, new_, fixed, sized, r) == true
    ensures IsElf(r, elf') && FileLayout(elf', meta, |r|) && Payload(elf', h) && |elf'.segs| == |elf.segs|
  {
    CanIsReplaceable(elf, meta, t, |raw|);
    HashApart(raw, elf, t, meta, h, new_, fixed, elf', t);
    StagedSpares(tools, raw, elf, t, meta, h, new_, fixed, sized, r, elf', Front(elf'));
    ReplaceLayout(tools, raw, elf, t, meta, new_, fixed, sized, r, elf');
  }

  /** `SlotsOk` in every state that the replacements pass through. */
  ghost predicate SlotSeqOk(tools: Tools, raw: seq<byte>, elf: Elf, rs: seq<Replacement>, meta: nat, h: nat, slots: set<Slot>)
    decreases rs
  {
    rs != [] ==>
      var t, new_ := rs[0].target, rs[0].bytes;
      && t < |elf.segs| && h < |elf.segs| && SlotsOk(tools, raw, elf, t, new_, meta, h, slots)
      && (var next := ReplacePh(tools, raw, t, new_, meta);
          next.Some? ==> SlotSeqOk(tools, next.value, NewElf(elf, t, |new_|), rs[1..], meta, h, slots))
  }

  /** A right table of digests is right after any sequence of replacements. */
  lemma {:induction false} SeqSlots(tools: Tools, raw: seq<byte>, elf: Elf, rs: seq<Replacement>, meta: nat, h: nat,
                                    slots: set<Slot>)
    returns (last: Elf)
    requires TableRight(tools, raw, elf, meta, h, slots) && meta != 0 && Spaced(slots)
    requires SlotSeqOk(tools, raw, elf, rs, meta, h, slots) && ReplaceSeq(tools, raw, rs, meta).Some?
    ensures TableRight(tools, ReplaceSeq(tools, raw, rs, meta).value, last, meta, h, slots)
    ensures |last.segs| == |elf.segs|
    decreases rs
  {
    if rs == [] {
      last := elf;
    } else {
      var t, new_ := rs[0].target, rs[0].bytes;
      var next, elf' := ReplacePh(tools, raw, t, new_, meta).value, NewElf(elf, t, |new_|);
      ReplaceSlots(tools, raw, elf, t, meta, h, new_, next, slots, elf');
      last := SeqSlots(tools, next, elf', rs[1..], meta, h, slots);
    }
  }
}
