// Where digests are written: each old digest is looked up in a part of the
// frozen image, and only the 48 bytes where it is found are overwritten.
module DigestWrites {
  import opened Bytes
  import opened Tables
  import opened SegmentRebuild
  import opened ElfImage
  import opened UefiDtbs

  function Clamp(p: nat, n: nat): nat { Min(p, n) }

  // ---------------------------------------------------------------------
  // Inside the searched part
  // ---------------------------------------------------------------------

  lemma {:induction false} ReplaceAllWithin(base: seq<byte>, out: seq<byte>, pairs: seq<DigestPair>, lo: nat, hi: nat)
    requires |out| == |base| && lo <= hi
    ensures SameOutside(out, ReplaceAll(base, out, pairs, lo, hi), Clamp(lo, |out|), Clamp(hi, |out|))
    decreases pairs
  {
    if pairs != [] {
      var hit := Find(base, pairs[0].0, lo, hi);
      var next := if hit.Some? then Put(out, hit.value, pairs[0].1) else out;
      if hit.Some? {
        PutWithin(out, hit.value, pairs[0].1, Clamp(lo, |out|), Clamp(hi, |out|));
      }
      ReplaceAllWithin(base, next, pairs[1..], lo, hi);
    }
  }

  lemma PutWithin(s: seq<byte>, p: nat, t: seq<byte>, lo: nat, hi: nat)
    requires lo <= p && p + |t| <= hi <= |s|
    ensures SameOutside(s, Put(s, p, t), lo, hi)
  {
    PutInside(s, p, t);
  }

  /** A segment apart from the region keeps its bytes. */
  lemma KeepsSegment(x: seq<byte>, r: seq<byte>, lo: nat, hi: nat, s: Seg)
    requires lo <= hi && SameOutside(x, r, Clamp(lo, |x|), Clamp(hi, |x|))
    requires s.End() <= lo || hi <= s.offset
    ensures SegData(r, s) == SegData(x, s)
  {
    var a, b := Clamp(s.offset, |x|), Clamp(s.End(), |x|);
    if s.End() <= lo {
      SubSlice(r, x, 0, Clamp(lo, |x|), a, b);
    } else {
      SubSlice(r, x, Clamp(hi, |x|), |x|, a, b);
    }
  }

  // ---------------------------------------------------------------------
  // One part searched instead of another
  // ---------------------------------------------------------------------

  /** The search of `[lo, hi)` ends where the search of segment `s` ends: a digest is
      found first in `s`, or not at all. */
  predicate FoundIn(base: seq<byte>, d: Digest, lo: nat, hi: nat, s: Seg) {
    Find(base, d, lo, hi) == Find(base, d, s.offset, s.End())
  }

  predicate AllFoundIn(base: seq<byte>, pairs: seq<DigestPair>, lo: nat, hi: nat, s: Seg) {
    pairs != [] ==> FoundIn(base, pairs[0].0, lo, hi, s) && AllFoundIn(base, pairs[1..], lo, hi, s)
  }

  lemma {:induction false} ReplaceAllNarrow(base: seq<byte>, out: seq<byte>, pairs: seq<DigestPair>, lo: nat, hi: nat, s: Seg)
    requires AllFoundIn(base, pairs, lo, hi, s)
    ensures ReplaceAll(base, out, pairs, lo, hi) == ReplaceAll(base, out, pairs, s.offset, s.End())
    decreases pairs
  {
    if pairs != [] {
      var hit := Find(base, pairs[0].0, lo, hi);
      ReplaceAllNarrow(base, if hit.Some? then Put(out, hit.value, pairs[0].1) else out, pairs[1..], lo, hi, s);
    }
  }

  /** A segment that is itself searched. */
  lemma {:induction false} FoundInSelf(base: seq<byte>, pairs: seq<DigestPair>, s: Seg)
    ensures AllFoundIn(base, pairs, s.offset, s.End(), s)
    decreases pairs
  {
    if pairs != [] {
      FoundInSelf(base, pairs[1..], s);
    }
  }

  lemma NarrowWithin(x: seq<byte>, pairs: seq<DigestPair>, lo: nat, hi: nat, s: Seg, r: seq<byte>)
    requires AllFoundIn(x, pairs, lo, hi, s) && r == ReplaceAll(x, x, pairs, lo, hi)
    ensures |r| == |x| && SameOutside(x, r, Clamp(s.offset, |x|), Clamp(s.End(), |x|))
  {
    ReplaceAllNarrow(x, x, pairs, lo, hi, s);
    ReplaceAllWithin(x, x, pairs, s.offset, s.End());
  }

  // ---------------------------------------------------------------------
  // Segments that are not hit
  // ---------------------------------------------------------------------

  /** A digest found at `hit` does not overlap segment `s`. */
  predicate Misses(hit: Option<nat>, s: Seg) {
    hit.None? || hit.value + 48 <= s.offset || s.End() <= hit.value
  }

  predicate AllMiss(base: seq<byte>, pairs: seq<DigestPair>, lo: nat, hi: nat, s: Seg) {
    pairs != [] ==> Misses(Find(base, pairs[0].0, lo, hi), s) && AllMiss(base, pairs[1..], lo, hi, s)
  }

  lemma PutMisses(out: seq<byte>, p: nat, d: Digest, s: Seg)
    requires p + 48 <= |out| && Misses(Some(p), s)
    ensures |Put(out, p, d)| == |out| && SegData(Put(out, p, d), s) == SegData(out, s)
  {
    PutInside(out, p, d);
    KeepsSegment(out, Put(out, p, d), p, p + 48, s);
  }

  /** Every digest is found elsewhere: the segment keeps its bytes. */
  lemma {:induction false} MissedKept(base: seq<byte>, out: seq<byte>, pairs: seq<DigestPair>, lo: nat, hi: nat, s: Seg)
    requires |out| == |base| && AllMiss(base, pairs, lo, hi, s)
    ensures |ReplaceAll(base, out, pairs, lo, hi)| == |base|
    ensures SegData(ReplaceAll(base, out, pairs, lo, hi), s) == SegData(out, s)
    decreases pairs
  {
    if pairs != [] {
      var hit := Find(base, pairs[0].0, lo, hi);
      if hit.Some? {
        PutMisses(out, hit.value, pairs[0].1, s);
      }
      MissedKept(base, if hit.Some? then Put(out, hit.value, pairs[0].1) else out, pairs[1..], lo, hi, s);
    }
  }

  predicate Apart(s: Seg, o: Seg) {
    s.End() <= o.offset || o.End() <= s.offset
  }

  /** What is found in `h` or nowhere is not found in a segment apart from `h`. */
  lemma {:induction false} FoundInMisses(base: seq<byte>, pairs: seq<DigestPair>, lo: nat, hi: nat, h: Seg, s: Seg)
    requires AllFoundIn(base, pairs, lo, hi, h) && Apart(s, h)
    ensures AllMiss(base, pairs, lo, hi, s)
    decreases pairs
  {
    if pairs != [] {
      FoundInMisses(base, pairs[1..], lo, hi, h, s);
    }
  }

  // ---------------------------------------------------------------------
  // Exactly which segments change
  // ---------------------------------------------------------------------

  /** A digest found at `hit` lies in segment `s` or does not overlap it. */
  predicate Undivided(hit: Option<nat>, s: Seg) {
    Misses(hit, s) || (s.offset <= hit.value && hit.value + 48 <= s.End())
  }

  /** Two different pairs are found apart from each other, if both are found. */
  predicate HitsApart(base: seq<byte>, p: DigestPair, q: DigestPair, lo: nat, hi: nat) {
    var a, b := Find(base, p.0, lo, hi), Find(base, q.0, lo, hi);
    p == q || a.None? || b.None? || a.value + 48 <= b.value || b.value + 48 <= a.value
  }

  predicate Disjoint(base: seq<byte>, pairs: seq<DigestPair>, lo: nat, hi: nat) {
    forall p, q :: p in pairs && q in pairs ==> HitsApart(base, p, q, lo, hi)
  }

  /** The pair changes nothing in `s`: found elsewhere or nowhere, or the digest stays. */
  predicate Harmless(base: seq<byte>, p: DigestPair, lo: nat, hi: nat, s: Seg) {
    Misses(Find(base, p.0, lo, hi), s) || p.0 == p.1
  }

  /** What stands at `at` once `d` has been written there stays, if every pair still to
      come writes the same there or is found apart from it. */
  lemma {:induction false} HitStays(base: seq<byte>, out: seq<byte>, pairs: seq<DigestPair>, lo: nat, hi: nat,
                                    p: DigestPair, at: nat)
    requires |out| == |base| && Find(base, p.0, lo, hi) == Some(at) && out[at..at + 48] == p.1
    requires forall q :: q in pairs ==> HitsApart(base, p, q, lo, hi)
    ensures var r := ReplaceAll(base, out, pairs, lo, hi);
            |r| == |base| && r[at..at + 48] == p.1
    decreases pairs
  {
    if pairs != [] {
      var hit := Find(base, pairs[0].0, lo, hi);
      var next := if hit.Some? then Put(out, hit.value, pairs[0].1) else out;
      assert HitsApart(base, p, pairs[0], lo, hi);
      if hit.Some? {
        PutInside(out, hit.value, pairs[0].1);
      }
      HitStays(base, next, pairs[1..], lo, hi, p, at);
    }
  }

  /** Where an old digest is found the new one stands in the end. */
  lemma {:induction false} HitHolds(base: seq<byte>, out: seq<byte>, pairs: seq<DigestPair>, lo: nat, hi: nat,
                                    p: DigestPair, at: nat)
    requires |out| == |base| && p in pairs && Disjoint(base, pairs, lo, hi)
    requires Find(base, p.0, lo, hi) == Some(at)
    ensures var r := ReplaceAll(base, out, pairs, lo, hi);
            |r| == |base| && r[at..at + 48] == p.1
    decreases pairs
  {
    var hit := Find(base, pairs[0].0, lo, hi);
    var next := if hit.Some? then Put(out, hit.value, pairs[0].1) else out;
    if hit.Some? {
      PutInside(out, hit.value, pairs[0].1);
    }
    if p == pairs[0] {
      HitStays(base, next, pairs[1..], lo, hi, p, at);
    } else {
      HitHolds(base, next, pairs[1..], lo, hi, p, at);
    }
  }

  lemma PutSelf(base: seq<byte>, out: seq<byte>, p: nat, s: Seg)
    requires |out| == |base| && p + 48 <= |base| && SegData(out, s) == SegData(base, s)
    ensures SegData(Put(out, p, base[p..p + 48]), s) == SegData(base, s)
  {
    var d := base[p..p + 48];
    var next := Put(out, p, d);
    var a, b := Clamp(s.offset, |base|), Clamp(s.End(), |base|);
    PutInside(out, p, d);
    assert SegData(out, s) == out[a..b] && SegData(base, s) == base[a..b];
    forall i | a <= i < b
      ensures next[i] == base[i]
    {
      assert out[a..b][i - a] == base[a..b][i - a];
      if p <= i < p + 48 {
        assert d[i - p] == base[i];
      }
    }
    assert next[a..b] == base[a..b];
  }

  lemma {:induction false} HarmlessKept(base: seq<byte>, out: seq<byte>, pairs: seq<DigestPair>, lo: nat, hi: nat, s: Seg)
    requires |out| == |base| && SegData(out, s) == SegData(base, s)
    requires forall p :: p in pairs ==> Harmless(base, p, lo, hi, s)
    ensures SegData(ReplaceAll(base, out, pairs, lo, hi), s) == SegData(base, s)
    decreases pairs
  {
    if pairs != [] {
      var hit := Find(base, pairs[0].0, lo, hi);
      var next := if hit.Some? then Put(out, hit.value, pairs[0].1) else out;
      assert Harmless(base, pairs[0], lo, hi, s);
      if hit.Some? {
        if pairs[0].0 == pairs[0].1 {
          PutSelf(base, out, hit.value, s);
        } else {
          PutMisses(out, hit.value, pairs[0].1, s);
        }
      }
      HarmlessKept(base, next, pairs[1..], lo, hi, s);
    }
  }

  /** A changed digest found in a segment changes the segment. */
  lemma HarmShows(base: seq<byte>, r: seq<byte>, at: nat, p: DigestPair, s: Seg)
    requires |r| == |base| && at + 48 <= |base| && s.offset <= at && at + 48 <= s.End()
    requires base[at..at + 48] == p.0 && r[at..at + 48] == p.1 && p.0 != p.1
    ensures SegData(r, s) != SegData(base, s)
  {
    if SegData(r, s) == SegData(base, s) {
      SubSlice(r, base, s.offset, Clamp(s.End(), |base|), at, at + 48);
    }
  }

  /** Digest writes leave a segment as it was if and only if no digest that changes is
      found in it. */
  lemma KeptIff(base: seq<byte>, pairs: seq<DigestPair>, lo: nat, hi: nat, s: Seg)
    requires Disjoint(base, pairs, lo, hi)
    requires forall p :: p in pairs ==> Undivided(Find(base, p.0, lo, hi), s)
    ensures SegData(ReplaceAll(base, base, pairs, lo, hi), s) == SegData(base, s)
            <==> forall p :: p in pairs ==> Harmless(base, p, lo, hi, s)
  {
    if p :| p in pairs && !Harmless(base, p, lo, hi, s) {
      var hit := Find(base, p.0, lo, hi);
      HitHolds(base, base, pairs, lo, hi, p, hit.value);
      HarmShows(base, ReplaceAll(base, base, pairs, lo, hi), hit.value, p, s);
    } else {
      HarmlessKept(base, base, pairs, lo, hi, s);
    }
  }
}
