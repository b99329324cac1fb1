// When a whole run of `_patch_uefi_dtbs` keeps the table of digests right, said of
// the image before the run: its PT_NULL segment, its segments and its digests.
module UefiTable {
  import opened Bytes
  import opened SegmentRebuild
  import opened RebuildScan
  import opened ElfImage
  import opened UefiDtbs
  import opened DigestSlots
  import opened UefiHashes

  /** The image before the run, its PT_NULL segment `h`, the slots there, and the digests that
      the header segment has in the course of the run. */
  datatype Start = Start(tools: Tools, raw: seq<byte>, elf: Elf, h: nat, slots: set<Slot>, heads: set<Digest>)

  // ---------------------------------------------------------------------
  // What the slots may hold
  // ---------------------------------------------------------------------

  /** What segment `t` holds before the run. */
  function Data0(st: Start, t: nat): seq<byte> {
    if t < |st.elf.segs| then SegData(st.raw, st.elf.segs[t]) else []
  }

  function FinalOf(tools: Tools, u: Subject, c: seq<byte>): seq<byte> {
    if u.Whole? then Rebuilt(tools, c) else After(tools, c)
  }

  /** The digests that a subject can have in the course of the run: of what it is before, of
      what it becomes, or one of those of the header segment. */
  predicate May(st: Start, u: Subject, d: Digest) {
    if u == Whole(0) then d in st.heads
    else
      var c := Content(st.raw, st.elf, u);
      c.Some? && (d == st.tools.sha384(c.value) || d == st.tools.sha384(FinalOf(st.tools, u, c.value)))
  }

  /** Byte `i` of the table is in no slot. */
  predicate Between(slots: set<Slot>, i: nat) {
    forall s :: s in slots ==> i < s.at || s.at + 48 <= i
  }

  /** The table differs from `was` in slots only. */
  ghost predicate SameBetween(slots: set<Slot>, was: seq<byte>, hashes: seq<byte>) {
    |hashes| == |was| && forall i: nat :: i < |was| && Between(slots, i) ==> hashes[i] == was[i]
  }

  /** A table that the run may come upon: slots hold digests that they may hold. */
  ghost predicate Variant(st: Start, hashes: seq<byte>) {
    && SameBetween(st.slots, Data0(st, st.h), hashes)
    && (forall s :: s in st.slots ==> s.at + 48 <= |hashes| && May(st, s.of, hashes[s.at..s.at + 48]))
  }

  // ---------------------------------------------------------------------
  // What is asked of the digests
  // ---------------------------------------------------------------------

  function ChangesOf(st: Start, t: nat): seq<Change> {
    SegmentChanges(st.tools, Data0(st, t), t)
  }

  /** `d` is looked up for a listed segment or for the headers. */
  predicate LookedUp(st: Start, ts: seq<nat>, d: Digest) {
    d in st.heads || exists t, c :: t in ts && IsTouched(st.tools, Data0(st, t)) && c in ChangesOf(st, t) && c.old_ == d
  }

  predicate AtSlot(slots: set<Slot>, q: nat) {
    exists s :: s in slots && s.at == q
  }

  /** Whatever of their digests the slots hold, those looked up occur at slots only. */
  ghost predicate OnlyAtSlots(st: Start, ts: seq<nat>) {
    forall hashes: seq<byte>, d: Digest, q: nat ::
      Variant(st, hashes) && LookedUp(st, ts, d) && OccursAt(hashes, d, q) ==> AtSlot(st.slots, q)
  }

  /** A digest looked up for segment `t` can stand in one slot at most, and that is of a subject
      which changes alike. */
  ghost predicate OneHome(st: Start, t: nat) {
    forall c, s :: c in ChangesOf(st, t) && s in st.slots && May(st, s.of, c.old_) ==>
                     (exists o :: o in ChangesOf(st, t) && o.of == s.of && Alike(c, o)) && OnlySlot(st, c.old_, s)
  }

  predicate OnlySlot(st: Start, d: Digest, s: Slot) {
    forall o :: o in st.slots && May(st, o.of, d) ==> o == s
  }

  /** A digest of the header segment can stand in its own slot only. */
  ghost predicate HeadsApart(st: Start) {
    forall d, s :: d in st.heads && s in st.slots && May(st, s.of, d) ==> s.of == Whole(0)
  }

  // ---------------------------------------------------------------------
  // One table
  // ---------------------------------------------------------------------

  /** Every old digest is found at a slot or not at all. */
  ghost predicate Inside(hashes: seq<byte>, cs: seq<Change>, slots: set<Slot>) {
    forall c :: c in cs ==> Hit(hashes, c.old_).None? || AtSlot(slots, Hit(hashes, c.old_).value)
  }

  /** The slots of subjects that change hold their old digests. */
  ghost predicate Current(hashes: seq<byte>, cs: seq<Change>, slots: set<Slot>) {
    forall c, s :: c in cs && s in slots && s.of == c.of ==> OccursAt(hashes, c.old_, s.at)
  }

  /** The slot at which a digest is found may hold it. */
  lemma FoundAt(st: Start, ts: seq<nat>, hashes: seq<byte>, d: Digest) returns (s: Slot)
    requires OnlyAtSlots(st, ts) && Variant(st, hashes) && LookedUp(st, ts, d) && Hit(hashes, d).Some?
    ensures s in st.slots && s.at == Hit(hashes, d).value && May(st, s.of, d)
  {
    var q := Hit(hashes, d).value;
    assert OccursAt(hashes, d, q);
    assert AtSlot(st.slots, q);
    s :| s in st.slots && s.at == q;
  }

  /** A digest that has one home, in whose slot it stands, is found there. */
  lemma FoundHome(st: Start, ts: seq<nat>, hashes: seq<byte>, d: Digest, s: Slot)
    requires OnlyAtSlots(st, ts) && Variant(st, hashes) && LookedUp(st, ts, d)
    requires s in st.slots && OccursAt(hashes, d, s.at)
    requires OnlySlot(st, d, s)
    ensures Hit(hashes, d) == Some(s.at)
  {
    var o := FoundAt(st, ts, hashes, d);
  }

  /** Segment `t` in a table the run may come upon. */
  lemma SegmentOccurs(st: Start, ts: seq<nat>, t: nat, hashes: seq<byte>)
    requires OnlyAtSlots(st, ts) && Variant(st, hashes) && t in ts && IsTouched(st.tools, Data0(st, t)) && OneHome(st, t)
    requires Current(hashes, ChangesOf(st, t), st.slots)
    ensures OccurInSlots(hashes, ChangesOf(st, t), st.slots) && Inside(hashes, ChangesOf(st, t), st.slots)
  {
    var cs := ChangesOf(st, t);
    forall c | c in cs
      ensures HitOk(hashes, c, cs, st.slots) && (Hit(hashes, c.old_).None? || AtSlot(st.slots, Hit(hashes, c.old_).value))
    {
      SegmentHit(st, ts, t, hashes, c);
    }
    forall s | s in st.slots
      ensures Reached(hashes, cs, s)
    {
      SegmentReached(st, ts, t, hashes, s);
    }
  }

  lemma SegmentHit(st: Start, ts: seq<nat>, t: nat, hashes: seq<byte>, c: Change)
    requires OnlyAtSlots(st, ts) && Variant(st, hashes) && t in ts && IsTouched(st.tools, Data0(st, t))
    requires OneHome(st, t) && c in ChangesOf(st, t)
    ensures HitOk(hashes, c, ChangesOf(st, t), st.slots)
    ensures Hit(hashes, c.old_).None? || AtSlot(st.slots, Hit(hashes, c.old_).value)
  {
    if Hit(hashes, c.old_).Some? {
      var s := FoundAt(st, ts, hashes, c.old_);
      var o :| o in ChangesOf(st, t) && o.of == s.of && Alike(c, o);
      assert Slot(s.at, o.of) == s;
    }
  }

  lemma SegmentReached(st: Start, ts: seq<nat>, t: nat, hashes: seq<byte>, s: Slot)
    requires OnlyAtSlots(st, ts) && Variant(st, hashes) && t in ts && IsTouched(st.tools, Data0(st, t))
    requires OneHome(st, t) && s in st.slots
    requires Current(hashes, ChangesOf(st, t), st.slots)
    ensures Reached(hashes, ChangesOf(st, t), s)
  {
    forall c | c in ChangesOf(st, t) && c.of == s.of
      ensures Hit(hashes, c.old_) == Some(s.at)
    {
      SegmentFound(st, ts, t, hashes, s, c);
    }
  }

  lemma SegmentFound(st: Start, ts: seq<nat>, t: nat, hashes: seq<byte>, s: Slot, c: Change)
    requires OnlyAtSlots(st, ts) && Variant(st, hashes) && s in st.slots && OccursAt(hashes, c.old_, s.at)
    requires t in ts && IsTouched(st.tools, Data0(st, t)) && OneHome(st, t) && c in ChangesOf(st, t)
    ensures Hit(hashes, c.old_) == Some(s.at)
  {
    assert May(st, s.of, c.old_);
    FoundHome(st, ts, hashes, c.old_, s);
  }

  /** The header segment in a table the run may come upon. */
  lemma HeadOccurs(st: Start, ts: seq<nat>, hashes: seq<byte>, c: Change)
    requires OnlyAtSlots(st, ts) && Variant(st, hashes) && HeadsApart(st) && Spaced(st.slots)
    requires c.of == Whole(0) && c.old_ in st.heads && Current(hashes, [c], st.slots)
    ensures OccurInSlots(hashes, [c], st.slots) && Inside(hashes, [c], st.slots)
  {
    if Hit(hashes, c.old_).Some? {
      var s := FoundAt(st, ts, hashes, c.old_);
      assert Slot(s.at, c.of) == s && c in [c];
    }
    forall s | s in st.slots
      ensures Reached(hashes, [c], s)
    {
      if s.of == c.of {
        assert c in [c];
        assert OccursAt(hashes, c.old_, s.at);
        FoundHome(st, ts, hashes, c.old_, s);
      }
    }
  }
}
