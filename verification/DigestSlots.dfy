// A hash segment as a table of digest slots, and what replacing digests by
// search does to it.
module DigestSlots {
  import opened Bytes
  import opened SegmentRebuild
  import opened UefiDtbs

  /** What a digest is the digest of: a segment, or device tree `k` of a segment. */
  datatype Subject = Whole(seg: nat) | Tree(seg: nat, k: nat)

  /** The 48 bytes at `at`, counted from the start of the hash segment, are for `of`. */
  datatype Slot = Slot(at: nat, of: Subject)

  /** The digest of `of` changes from `old_` to `new_`. */
  datatype Change = Change(of: Subject, old_: Digest, new_: Digest)

  function Pairs(cs: seq<Change>): seq<DigestPair> {
    if cs == [] then [] else [(cs[0].old_, cs[0].new_)] + Pairs(cs[1..])
  }

  lemma {:induction false} PairsConcat(a: seq<Change>, b: seq<Change>)
    ensures Pairs(a + b) == Pairs(a) + Pairs(b)
  {
    if a == [] {
      assert a + b == b;
    } else {
      assert (a + b)[1..] == a[1..] + b;
      PairsConcat(a[1..], b);
    }
  }

  function Subjects(cs: seq<Change>): set<Subject> {
    if cs == [] then {} else {cs[0].of} + Subjects(cs[1..])
  }

  predicate DistinctSubjects(cs: seq<Change>) {
    cs != [] ==> cs[0].of !in Subjects(cs[1..]) && DistinctSubjects(cs[1..])
  }

  /** Two slots do not overlap, and no two slots are for the same subject. */
  ghost predicate Spaced(slots: set<Slot>) {
    forall s, o :: s in slots && o in slots && s != o ==>
                     s.of != o.of && (s.at + 48 <= o.at || o.at + 48 <= s.at)
  }

  /** Where the search for an old digest ends. */
  function Hit(hashes: seq<byte>, d: Digest): Option<nat> {
    Find(hashes, d, 0, |hashes|)
  }

  /** Two subjects change from the same digest to the same digest, like a segment that is one
      device tree and that device tree. */
  predicate Alike(c: Change, o: Change) {
    c.old_ == o.old_ && c.new_ == o.new_
  }

  /** The search for the old digest of `c` ends at the slot of a subject that changes
      alike, or apart from every slot, or finds nothing. */
  ghost predicate HitOk(hashes: seq<byte>, c: Change, cs: seq<Change>, slots: set<Slot>) {
    var hit := Hit(hashes, c.old_);
    hit.None?
    || (forall s :: s in slots ==> s.at + 48 <= hit.value || hit.value + 48 <= s.at)
    || (exists o :: o in cs && Alike(c, o) && Slot(hit.value, o.of) in slots)
  }

  /** If the subject of the slot changes, the search for its old digest ends in the slot. */
  predicate Reached(hashes: seq<byte>, cs: seq<Change>, s: Slot) {
    forall c :: c in cs && c.of == s.of ==> c.old_ == c.new_ || Hit(hashes, c.old_) == Some(s.at)
  }

  ghost predicate HitsOk(hashes: seq<byte>, cs: seq<Change>, slots: set<Slot>) {
    forall c :: c in cs ==> HitOk(hashes, c, cs, slots)
  }

  /** Old digests are found where they belong, and so are those of all slots. */
  ghost predicate OccurInSlots(hashes: seq<byte>, cs: seq<Change>, slots: set<Slot>) {
    HitsOk(hashes, cs, slots) && forall s :: s in slots ==> Reached(hashes, cs, s)
  }

  /** `base[lo:hi]` is `hashes`. */
  predicate Searched(base: seq<byte>, lo: nat, hi: nat, hashes: seq<byte>) {
    lo + |hashes| == Min(hi, |base|) && base[lo..lo + |hashes|] == hashes
  }

  lemma Window(base: seq<byte>, lo: nat, hi: nat, hashes: seq<byte>, p: nat)
    requires Searched(base, lo, hi, hashes) && p + 48 <= |hashes|
    ensures base[lo + p..lo + p + 48] == hashes[p..p + 48]
  {
    forall i | lo + p <= i < lo + p + 48
      ensures base[i] == hashes[i - lo]
    {
      assert base[lo..lo + |hashes|][i - lo] == base[i];
    }
  }

  lemma OccursMoved(base: seq<byte>, lo: nat, hi: nat, hashes: seq<byte>, d: Digest, q: nat)
    requires Searched(base, lo, hi, hashes) && q + 48 <= |hashes|
    ensures OccursAt(base, d, lo + q) <==> OccursAt(hashes, d, q)
  {
    Window(base, lo, hi, hashes, q);
  }

  /** What `find` finds is the first occurrence. */
  lemma FirstFound(s: seq<byte>, d: Digest, lo: nat, hi: nat, p: nat)
    requires lo <= p && p + 48 <= hi && OccursAt(s, d, p) && forall q :: lo <= q < p ==> !OccursAt(s, d, q)
    ensures Find(s, d, lo, hi) == Some(p)
  {
  }

  /** Searching the region is searching `hashes`. */
  lemma HitMoved(base: seq<byte>, lo: nat, hi: nat, hashes: seq<byte>, d: Digest)
    requires Searched(base, lo, hi, hashes)
    ensures Hit(hashes, d).Some? ==> Find(base, d, lo, hi) == Some(lo + Hit(hashes, d).value)
    ensures Hit(hashes, d).None? ==> Find(base, d, lo, hi) == None
  {
    var a, b := Hit(hashes, d), Find(base, d, lo, hi);
    if a.Some? {
      var p := lo + a.value;
      OccursMoved(base, lo, hi, hashes, d, a.value);
      forall q | lo <= q < p
        ensures !OccursAt(base, d, q)
      {
        OccursMoved(base, lo, hi, hashes, d, q - lo);
      }
      FirstFound(base, d, lo, hi, p);
    } else if b.Some? {
      OccursMoved(base, lo, hi, hashes, d, b.value - lo);
      assert false;
    }
  }

  lemma {:induction false} InSubjects(cs: seq<Change>, c: Change)
    requires c in cs
    ensures c.of in Subjects(cs)
  {
    if c != cs[0] {
      InSubjects(cs[1..], c);
    }
  }

  /** No subject changes in two ways. */
  lemma {:induction false} SameSubject(cs: seq<Change>, c: Change, o: Change)
    requires DistinctSubjects(cs) && c in cs && o in cs && c.of == o.of
    ensures c == o
  {
    if c == cs[0] && o != c {
      InSubjects(cs[1..], o);
    } else if o == cs[0] && o != c {
      InSubjects(cs[1..], c);
    } else if o != c {
      SameSubject(cs[1..], c, o);
    }
  }

  /** `c` is found apart from slot `s`, or in it, and then it writes what the change of its
      subject does. */
  predicate Writes(hashes: seq<byte>, c: Change, cs: seq<Change>, s: Slot) {
    var hit := Hit(hashes, c.old_);
    || hit.None? || hit.value + 48 <= s.at || s.at + 48 <= hit.value
    || (hit.value == s.at && exists o :: o in cs && o.of == s.of && Alike(c, o))
  }

  lemma HitAtSlot(hashes: seq<byte>, c: Change, cs: seq<Change>, slots: set<Slot>, s: Slot)
    requires HitOk(hashes, c, cs, slots) && Spaced(slots) && s in slots
    ensures Writes(hashes, c, cs, s)
  {
    var hit := Hit(hashes, c.old_);
    if o :| hit.Some? && o in cs && Alike(c, o) && Slot(hit.value, o.of) in slots {
      assert Slot(hit.value, o.of) == s || hit.value + 48 <= s.at || s.at + 48 <= hit.value;
    }
  }

  // ---------------------------------------------------------------------
  // One window of the image
  // ---------------------------------------------------------------------

  /** Every pair is found apart from the 48 bytes at `at`, or there, and then it writes `d`. */
  predicate WriteOnly(base: seq<byte>, pairs: seq<DigestPair>, lo: nat, hi: nat, at: nat, d: Digest) {
    forall p :: p in pairs ==>
      var hit := Find(base, p.0, lo, hi);
      hit.None? || hit.value + 48 <= at || at + 48 <= hit.value || (hit.value == at && p.1 == d)
  }

  predicate Lands(base: seq<byte>, pairs: seq<DigestPair>, lo: nat, hi: nat, at: nat) {
    exists p :: p in pairs && Find(base, p.0, lo, hi) == Some(at)
  }

  lemma PutElsewhere(s: seq<byte>, p: nat, d: Digest, q: nat)
    requires p + 48 <= |s| && q + 48 <= |s| && (p + 48 <= q || q + 48 <= p)
    ensures |Put(s, p, d)| == |s| && Put(s, p, d)[q..q + 48] == s[q..q + 48]
  {
    PutInside(s, p, d);
  }

  lemma PutHere(s: seq<byte>, p: nat, d: Digest)
    requires p + 48 <= |s|
    ensures |Put(s, p, d)| == |s| && Put(s, p, d)[p..p + 48] == d
  {
    PutInside(s, p, d);
  }

  /** Then the window holds `d` in the end if a pair is found there, and else what it held. */
  lemma {:induction false} WindowAfter(base: seq<byte>, out: seq<byte>, pairs: seq<DigestPair>, lo: nat, hi: nat,
                                       at: nat, d: Digest)
    requires |out| == |base| && at + 48 <= |base| && WriteOnly(base, pairs, lo, hi, at, d)
    ensures var r := ReplaceAll(base, out, pairs, lo, hi);
            |r| == |base| && r[at..at + 48] == if Lands(base, pairs, lo, hi, at) then d else out[at..at + 48]
    decreases pairs
  {
    if pairs != [] {
      var hit := Find(base, pairs[0].0, lo, hi);
      var next := if hit.Some? then Put(out, hit.value, pairs[0].1) else out;
      assert pairs[0] in pairs;
      if hit.Some? {
        if hit.value == at {
          PutHere(out, at, d);
        } else {
          PutElsewhere(out, hit.value, pairs[0].1, at);
        }
      }
      WindowAfter(base, next, pairs[1..], lo, hi, at, d);
      LandsCons(base, pairs, lo, hi, at);
    }
  }

  lemma LandsCons(base: seq<byte>, pairs: seq<DigestPair>, lo: nat, hi: nat, at: nat)
    requires pairs != []
    ensures Lands(base, pairs, lo, hi, at)
       <==> Find(base, pairs[0].0, lo, hi) == Some(at) || Lands(base, pairs[1..], lo, hi, at)
  {
    assert pairs == [pairs[0]] + pairs[1..];
  }

  lemma {:induction false} PairOfChange(cs: seq<Change>, p: DigestPair) returns (c: Change)
    requires p in Pairs(cs)
    ensures c in cs && p == (c.old_, c.new_)
  {
    assert Pairs(cs)[1..] == Pairs(cs[1..]);
    if p == (cs[0].old_, cs[0].new_) {
      c := cs[0];
    } else {
      c := PairOfChange(cs[1..], p);
    }
  }

  lemma {:induction false} ChangeInPairs(cs: seq<Change>, c: Change)
    requires c in cs
    ensures (c.old_, c.new_) in Pairs(cs)
  {
    if c != cs[0] {
      ChangeInPairs(cs[1..], c);
    }
  }

  // ---------------------------------------------------------------------
  // Slots
  // ---------------------------------------------------------------------

  /** Slots of subjects that do not change keep their bytes. */
  lemma UnchangedSlot(base: seq<byte>, out: seq<byte>, cs: seq<Change>, lo: nat, hi: nat,
                      hashes: seq<byte>, slots: set<Slot>, s: Slot)
    requires Searched(base, lo, hi, hashes) && |out| == |base| && HitsOk(hashes, cs, slots)
    requires Spaced(slots) && s in slots && s.of !in Subjects(cs) && s.at + 48 <= |hashes|
    ensures var r := ReplaceAll(base, out, Pairs(cs), lo, hi);
            |r| == |out| && r[lo + s.at..lo + s.at + 48] == out[lo + s.at..lo + s.at + 48]
  {
    var at, pairs, d := lo + s.at, Pairs(cs), Fill(48, 0);
    forall p | p in pairs
      ensures var hit := Find(base, p.0, lo, hi);
              hit.None? || hit.value + 48 <= at || at + 48 <= hit.value
    {
      var c := PairOfChange(cs, p);
      HitMoved(base, lo, hi, hashes, c.old_);
      HitAtSlot(hashes, c, cs, slots, s);
      forall o | o in cs
        ensures o.of != s.of
      {
        InSubjects(cs, o);
      }
    }
    WindowAfter(base, out, pairs, lo, hi, at, d);
  }

  /** The slot of a subject that changes holds its new digest in the end if and only if the
      search for the old one ends there, or the digest stays the same. */
  lemma ChangedSlotIff(base: seq<byte>, cs: seq<Change>, lo: nat, hi: nat,
                       hashes: seq<byte>, slots: set<Slot>, s: Slot, c: Change)
    requires Searched(base, lo, hi, hashes) && HitsOk(hashes, cs, slots)
    requires Spaced(slots) && s in slots && DistinctSubjects(cs)
    requires c in cs && s.of == c.of && OccursAt(hashes, c.old_, s.at)
    ensures var r := ReplaceAll(base, base, Pairs(cs), lo, hi);
            && |r| == |base|
            && (r[lo + s.at..lo + s.at + 48] == c.new_ <==> Hit(hashes, c.old_) == Some(s.at) || c.old_ == c.new_)
  {
    Window(base, lo, hi, hashes, s.at);
    ChangedWindow(base, cs, lo, hi, hashes, slots, s, c);
    ChangedAt(base, cs, lo, hi, hashes, s.at, lo + s.at, c);
  }

  lemma ChangedAt(base: seq<byte>, cs: seq<Change>, lo: nat, hi: nat, hashes: seq<byte>, q: nat, at: nat, c: Change)
    requires Searched(base, lo, hi, hashes) && c in cs && at == lo + q && q + 48 <= |hashes|
    requires at + 48 <= |base| && base[at..at + 48] == c.old_ && WriteOnly(base, Pairs(cs), lo, hi, at, c.new_) == true
    ensures var r := ReplaceAll(base, base, Pairs(cs), lo, hi);
            |r| == |base| && (r[at..at + 48] == c.new_ <==> Hit(hashes, c.old_) == Some(q) || c.old_ == c.new_)
  {
    LandsIff(base, cs, lo, hi, hashes, q, at, c);
    WindowAfter(base, base, Pairs(cs), lo, hi, at, c.new_);
  }

  /** A pair is found at a place that holds an old digest if and only if that one is. */
  lemma LandsIff(base: seq<byte>, cs: seq<Change>, lo: nat, hi: nat, hashes: seq<byte>, q: nat, at: nat, c: Change)
    requires Searched(base, lo, hi, hashes) && c in cs && at == lo + q
    requires q + 48 <= |hashes| && at + 48 <= |base| && base[at..at + 48] == c.old_
    ensures Lands(base, Pairs(cs), lo, hi, at) <==> Hit(hashes, c.old_) == Some(q)
  {
    HitMoved(base, lo, hi, hashes, c.old_);
    ChangeInPairs(cs, c);
    if Lands(base, Pairs(cs), lo, hi, at) {
      var p :| p in Pairs(cs) && Find(base, p.0, lo, hi) == Some(at);
      FoundIs(base, p.0, lo, hi, at, c.old_);
    }
  }

  lemma FoundIs(base: seq<byte>, d: Digest, lo: nat, hi: nat, at: nat, e: Digest)
    requires Find(base, d, lo, hi) == Some(at) && at + 48 <= |base| && base[at..at + 48] == e
    ensures d == e
  {
  }

  lemma ChangedWindow(base: seq<byte>, cs: seq<Change>, lo: nat, hi: nat,
                      hashes: seq<byte>, slots: set<Slot>, s: Slot, c: Change)
    requires Searched(base, lo, hi, hashes) && HitsOk(hashes, cs, slots)
    requires Spaced(slots) && s in slots && DistinctSubjects(cs) && c in cs && s.of == c.of
    ensures WriteOnly(base, Pairs(cs), lo, hi, lo + s.at, c.new_)
  {
    forall p | p in Pairs(cs)
      ensures var hit, at := Find(base, p.0, lo, hi), lo + s.at;
              hit.None? || hit.value + 48 <= at || at + 48 <= hit.value || (hit.value == at && p.1 == c.new_)
    {
      var x := PairOfChange(cs, p);
      HitMoved(base, lo, hi, hashes, x.old_);
      HitAtSlot(hashes, x, cs, slots, s);
      if o :| o in cs && o.of == s.of && Alike(x, o) {
        SameSubject(cs, c, o);
      }
    }
  }

  lemma ReachedIff(hashes: seq<byte>, cs: seq<Change>, s: Slot, c: Change)
    requires DistinctSubjects(cs) && c in cs && c.of == s.of
    ensures Reached(hashes, cs, s) <==> c.old_ == c.new_ || Hit(hashes, c.old_) == Some(s.at)
  {
    forall o | o in cs && o.of == s.of
      ensures o == c
    {
      SameSubject(cs, o, c);
    }
  }

  lemma ReachedVacuously(hashes: seq<byte>, cs: seq<Change>, s: Slot)
    requires s.of !in Subjects(cs)
    ensures Reached(hashes, cs, s)
  {
    forall c | c in cs
      ensures c.of != s.of
    {
      InSubjects(cs, c);
    }
  }
}
