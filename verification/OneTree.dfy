// Digests of a segment that is exactly one device tree: the program looks the same
// digest up twice, once for the tree and once for the segment.
module OneTree {
  import opened Bytes
  import opened DtbScan
  import opened SegmentRebuild
  import opened ElfImage
  import opened DigestSlots
  import opened UefiHashes

  /** `data` is one device tree, which is patched. */
  predicate IsOneTree(tools: Tools, data: seq<byte>, new_: seq<byte>) {
    Scan(data) == [Dtb(0, |data|)] && tools.patchDtb(data) == Patched(new_)
  }

  /** Both subjects change alike. */
  lemma OneTreeChanges(tools: Tools, data: seq<byte>, new_: seq<byte>, t: nat)
    requires IsOneTree(tools, data, new_)
    ensures Rebuilt(tools, data) == new_
    ensures var was, is_ := tools.sha384(data), tools.sha384(new_);
            SegmentChanges(tools, data, t) == [Change(Tree(t, 0), was, is_), Change(Whole(t), was, is_)]
  {
    var d := Dtb(0, |data|);
    ScanInOrder(data);
    assert Body(data, d) == data && [d][1..] == [];
    assert RebuildFrom(tools, data, [d], 0) == data[0..0] + new_ + data[|data|..];
    assert TreeChanges(tools, data, [d], 0, t, 0)
        == [Change(Tree(t, 0), tools.sha384(data), tools.sha384(new_))] + [];
  }

  /** The slot is for the segment or for its tree. */
  predicate OfTree(s: Slot, t: nat) {
    s.of == Whole(t) || s.of == Tree(t, 0)
  }

  /** If the digest of the tree is found in a slot, no slot is left out if and only if there
      is no other slot for it, or the digest stays the same. */
  lemma OneTreeIff(tools: Tools, hashes: seq<byte>, data: seq<byte>, new_: seq<byte>, t: nat, slots: set<Slot>, s: Slot)
    requires IsOneTree(tools, data, new_) && Spaced(slots)
    requires s in slots && OfTree(s, t) && Hit(hashes, tools.sha384(data)) == Some(s.at)
    ensures OccurInSlots(hashes, SegmentChanges(tools, data, t), slots)
       <==> tools.sha384(data) == tools.sha384(new_) || forall o :: o in slots && OfTree(o, t) ==> o == s
  {
    var was, is_ := tools.sha384(data), tools.sha384(new_);
    var a, b, cs := Change(Tree(t, 0), was, is_), Change(Whole(t), was, is_), SegmentChanges(tools, data, t);
    OneTreeChanges(tools, data, new_, t);
    assert a in cs && b in cs;
    HitsAlike(hashes, cs, slots, s, if s.of == a.of then a else b);
    forall o | o in slots
      ensures Reached(hashes, cs, o) <==> !OfTree(o, t) || was == is_ || o == s
    {
      OneReached(hashes, cs, a, b, o, s, slots);
    }
  }

  lemma HitsAlike(hashes: seq<byte>, cs: seq<Change>, slots: set<Slot>, s: Slot, o: Change)
    requires s in slots && o in cs && o.of == s.of && Hit(hashes, o.old_) == Some(s.at)
    requires forall c :: c in cs ==> Alike(c, o)
    ensures HitsOk(hashes, cs, slots)
  {
    forall c | c in cs
      ensures HitOk(hashes, c, cs, slots)
    {
      assert Slot(s.at, o.of) == s;
    }
  }

  lemma OneReached(hashes: seq<byte>, cs: seq<Change>, a: Change, b: Change, o: Slot, s: Slot, slots: set<Slot>)
    requires cs == [a, b] && Alike(a, b) && Hit(hashes, a.old_) == Some(s.at) && o in slots && s in slots && Spaced(slots)
    ensures Reached(hashes, cs, o) <==> (o.of != a.of && o.of != b.of) || a.old_ == a.new_ || o == s
  {
    assert a in cs && b in cs;
  }

  /** The header segment's digest is looked up with those of the segment. */
  lemma OccurBoth(hashes: seq<byte>, a: seq<Change>, b: seq<Change>, slots: set<Slot>)
    requires OccurInSlots(hashes, a, slots) && OccurInSlots(hashes, b, slots)
    ensures OccurInSlots(hashes, a + b, slots)
  {
    forall c | c in a + b
      ensures HitOk(hashes, c, a + b, slots)
    {
      if c in a {
        assert HitOk(hashes, c, a, slots);
      } else {
        assert HitOk(hashes, c, b, slots);
      }
    }
  }

  /** A segment that is one device tree, with one slot that is found, is fit for a step: so is
      its size kept; if it grows, the digest of segment 0 must be found too. */
  lemma OneTreeFits(tools: Tools, raw: seq<byte>, fixed: seq<byte>, ph0: Seg, hashes: seq<byte>, data: seq<byte>,
                    new_: seq<byte>, t: nat, slots: set<Slot>, s: Slot)
    requires IsOneTree(tools, data, new_) && Spaced(slots)
    requires s in slots && OfTree(s, t) && Hit(hashes, tools.sha384(data)) == Some(s.at)
    requires forall o :: o in slots && OfTree(o, t) ==> o == s
    requires OccurInSlots(hashes, HeadChange(tools, raw, fixed, ph0, |new_| != |data|), slots)
    ensures OccurInSlots(hashes, Changes(tools, raw, fixed, ph0, data, t), slots)
  {
    OneTreeChanges(tools, data, new_, t);
    OneTreeIff(tools, hashes, data, new_, t, slots, s);
    OccurBoth(hashes, SegmentChanges(tools, data, t), HeadChange(tools, raw, fixed, ph0, |new_| != |data|), slots);
  }
}
