// Finding the flattened device trees inside a segment (`_scan_dtbs`).
module DtbScan {
  import opened Bytes

  const DTB_MAGIC: nat := 0xD00DFEED

  datatype Dtb = Dtb(off: nat, size: nat) {
    function End(): nat { off + size }
  }

  /** The big-endian 32-bit word at `i`. */
  function WordAt(data: seq<byte>, i: nat): nat
    requires i + 4 <= |data|
  {
    var a: nat, b: nat, c: nat, d: nat := data[i], data[i + 1], data[i + 2], data[i + 3];
    0x100_0000 * a + 0x1_0000 * b + 0x100 * c + d
  }

  /** A magic word with room for the size field behind it. */
  predicate MagicAt(data: seq<byte>, i: nat) {
    i + 8 <= |data| && WordAt(data, i) == DTB_MAGIC
  }

  /** A device tree the scanner accepts. */
  predicate ValidAt(data: seq<byte>, i: nat) {
    MagicAt(data, i) && 8 <= WordAt(data, i + 4) && i + WordAt(data, i + 4) <= |data|
  }

  /** The four bytes D0 0D FE ED, then the size, big endian, of at least 8 bytes that are there. */
  lemma ValidIff(data: seq<byte>, i: nat)
    ensures ValidAt(data, i) <==>
            && i + 8 <= |data|
            && data[i] == 0xD0 && data[i + 1] == 0x0D && data[i + 2] == 0xFE && data[i + 3] == 0xED
            && var size := 0x100_0000 * data[i + 4] as int + 0x1_0000 * data[i + 5] as int
                           + 0x100 * data[i + 6] as int + data[i + 7] as int;
               8 <= size && i + size <= |data|
  {
  }

  // Multiples of four, and rounding up to one, by counting in fours.

  predicate Aligned(n: int)
    decreases if n < 0 then 0 else n
  {
    n == 0 || (n >= 4 && Aligned(n - 4))
  }

  function Align4(n: nat): (r: nat)
    ensures n <= r
  {
    if n == 0 then 0 else if n <= 4 then 4 else 4 + Align4(n - 4)
  }

  lemma {:induction false} AlignedIsMultiple(n: nat)
    ensures Aligned(n) <==> n % 4 == 0
  {
    if n >= 4 {
      AlignedIsMultiple(n - 4);
    }
  }

  /** `Align4` is `(n + 3) & ~3`, the first multiple of 4 from `n` on. */
  lemma {:induction false} Align4IsMask(n: nat)
    ensures Align4(n) == (n + 3) / 4 * 4
    ensures n <= Align4(n) < n + 4
  {
    if n > 4 {
      Align4IsMask(n - 4);
    }
  }

  lemma {:induction false} AlignUp(n: nat)
    ensures Aligned(Align4(n))
  {
    if n > 4 {
      AlignUp(n - 4);
    }
  }

  lemma {:induction false} AlignStep(n: nat, p: nat)
    requires Aligned(p) && n <= p
    ensures Align4(n) <= p
  {
    if n > 4 {
      AlignStep(n - 4, p - 4);
    }
  }

  lemma {:induction false} AlignedGap(p: nat, q: nat)
    requires Aligned(p) && Aligned(q) && p < q
    ensures p + 4 <= q
  {
    if p >= 4 {
      AlignedGap(p - 4, q - 4);
    }
  }

  lemma {:induction false} AlignedShift(p: nat, m: int)
    requires p + 4 * m >= 0
    ensures Aligned(p + 4 * m) <==> Aligned(p)
    decreases if m < 0 then -m else m
  {
    if m > 0 {
      AlignedShift(p, m - 1);
    } else if m < 0 {
      AlignedShift(p, m + 1);
    }
  }

  lemma {:induction false} Align4Shift(p: nat, m: int)
    requires p + 4 * m >= 0
    ensures Align4(p + 4 * m) == Align4(p) + 4 * m
    decreases if m < 0 then -m else m
  {
    if m > 0 {
      Align4Shift(p, m - 1);
      if p + 4 * (m - 1) == 0 {
        assert Align4(4) == 4;
      }
    } else if m < 0 {
      Align4Shift(p, m + 1);
      if p + 4 * m == 0 {
        assert Align4(4) == 4;
      }
    }
  }

  function ScanFrom(data: seq<byte>, i: nat): seq<Dtb>
    decreases Max(0, |data| - i)
  {
    if i + 8 > |data| then []
    else if ValidAt(data, i) then
      [Dtb(i, WordAt(data, i + 4))] + ScanFrom(data, Align4(i + WordAt(data, i + 4)))
    else ScanFrom(data, i + 4)
  }

  function Scan(data: seq<byte>): seq<Dtb> {
    ScanFrom(data, 0)
  }

  method ScanDtbs(data: seq<byte>) returns (results: seq<Dtb>)
    ensures results == Scan(data)
  {
    results := [];
    var i: nat := 0;
    while i + 8 <= |data|
      invariant results + ScanFrom(data, i) == Scan(data)
      decreases Max(0, |data| - i)
    {
      ghost var before := results;
      if WordAt(data, i) == DTB_MAGIC {
        var size := WordAt(data, i + 4);
        if size >= 8 && i + size <= |data| {
          results := results + [Dtb(i, size)];
          assert before + ScanFrom(data, i) == results + ScanFrom(data, Align4(i + size));
          i := Align4(i + size);
          continue;
        }
      }
      i := i + 4;
    }
    assert results + [] == results;
  }

  // ---------------------------------------------------------------------
  // What the scanner reports, said without the cursor
  // ---------------------------------------------------------------------

  /** No aligned position in `data[lo..hi]` starts a device tree the scanner accepts. */
  predicate NoneValid(data: seq<byte>, lo: nat, hi: nat) {
    forall p: nat {:trigger ValidAt(data, p)} :: lo <= p < hi && Aligned(p) ==> !ValidAt(data, p)
  }

  /** `ds` are the first valid device tree at or after `lo`, the first valid one at or
      after its aligned end, and so on until there is none. */
  predicate IsScan(data: seq<byte>, lo: nat, ds: seq<Dtb>)
    decreases ds
  {
    if ds == [] then NoneValid(data, lo, |data|)
    else
      && lo <= ds[0].off && Aligned(ds[0].off)
      && NoneValid(data, lo, ds[0].off)
      && ValidAt(data, ds[0].off) && ds[0].size == WordAt(data, ds[0].off + 4)
      && IsScan(data, Align4(ds[0].End()), ds[1..])
  }

  lemma {:induction false} ScanIsScan(data: seq<byte>, i: nat)
    requires Aligned(i)
    ensures IsScan(data, i, ScanFrom(data, i))
    decreases Max(0, |data| - i)
  {
    var ds := ScanFrom(data, i);
    if i + 8 <= |data| {
      if ValidAt(data, i) {
        var next := Align4(i + WordAt(data, i + 4));
        AlignUp(i + WordAt(data, i + 4));
        ScanIsScan(data, next);
        assert ds[1..] == ScanFrom(data, next);
      } else {
        ScanIsScan(data, i + 4);
        WidenScan(data, i, ds);
      }
    }
  }

  lemma WidenScan(data: seq<byte>, i: nat, ds: seq<Dtb>)
    requires Aligned(i) && !ValidAt(data, i) && IsScan(data, i + 4, ds)
    ensures IsScan(data, i, ds)
  {
    forall p: nat | i <= p < (if ds == [] then |data| else ds[0].off) && Aligned(p)
      ensures !ValidAt(data, p)
    {
      if i < p {
        AlignedGap(i, p);
      }
    }
  }

  lemma {:induction false} ScanSkips(data: seq<byte>, lo: nat, hi: nat)
    requires lo <= hi && Aligned(lo) && Aligned(hi) && NoneValid(data, lo, hi)
    ensures ScanFrom(data, lo) == ScanFrom(data, hi)
    decreases hi - lo
  {
    if lo < hi {
      assert !ValidAt(data, lo);
      AlignedGap(lo, hi);
      ScanSkips(data, lo + 4, hi);
    }
  }

  lemma {:induction false} ScanEnds(data: seq<byte>, lo: nat)
    requires Aligned(lo) && NoneValid(data, lo, |data|)
    ensures ScanFrom(data, lo) == []
    decreases Max(0, |data| - lo)
  {
    if lo + 8 <= |data| {
      assert !ValidAt(data, lo);
      ScanEnds(data, lo + 4);
    }
  }

  lemma {:induction false} ScanUnique(data: seq<byte>, lo: nat, ds: seq<Dtb>)
    requires Aligned(lo) && IsScan(data, lo, ds)
    ensures ds == ScanFrom(data, lo)
    decreases ds
  {
    if ds == [] {
      ScanEnds(data, lo);
    } else {
      AlignUp(ds[0].End());
      ScanUnique(data, Align4(ds[0].End()), ds[1..]);
      ScanCons(data, lo, ds[0], ds[1..]);
    }
  }

  lemma ScanCons(data: seq<byte>, lo: nat, d: Dtb, rest: seq<Dtb>)
    requires Aligned(lo) && lo <= d.off && Aligned(d.off) && NoneValid(data, lo, d.off)
    requires ValidAt(data, d.off) && d.size == WordAt(data, d.off + 4)
    requires rest == ScanFrom(data, Align4(d.End()))
    ensures [d] + rest == ScanFrom(data, lo)
  {
    ScanSkips(data, lo, d.off);
    ScanOne(data, d.off, d.size);
  }

  lemma ScanOne(data: seq<byte>, o: nat, n: nat)
    requires ValidAt(data, o) && WordAt(data, o + 4) == n
    ensures ScanFrom(data, o) == [Dtb(o, n)] + ScanFrom(data, Align4(o + n))
  {
  }

  /** `_scan_dtbs` reports exactly the greedy sequence of valid device trees. */
  lemma ScanExact(data: seq<byte>, ds: seq<Dtb>)
    ensures ds == Scan(data) <==> IsScan(data, 0, ds)
  {
    ScanIsScan(data, 0);
    if IsScan(data, 0, ds) {
      ScanUnique(data, 0, ds);
    }
  }

  // ---------------------------------------------------------------------
  // Order, alignment, bounds
  // ---------------------------------------------------------------------

  /** The geometry alone: in order from `lo` on, disjoint, ending by `n`. */
  predicate InOrder(ds: seq<Dtb>, lo: nat, n: nat) {
    && lo <= n
    && (ds != [] ==> lo <= ds[0].off && ds[0].End() <= n && InOrder(ds[1..], ds[0].End(), n))
  }

  lemma {:induction false} IsScanInOrder(data: seq<byte>, lo: nat, ds: seq<Dtb>, e: nat)
    requires IsScan(data, lo, ds) && e <= lo && e <= |data|
    ensures InOrder(ds, e, |data|)
    decreases ds
  {
    if ds != [] {
      AlignUp(ds[0].End());
      IsScanInOrder(data, Align4(ds[0].End()), ds[1..], ds[0].End());
    }
  }

  lemma ScanInOrder(data: seq<byte>)
    ensures InOrder(Scan(data), 0, |data|)
  {
    ScanIsScan(data, 0);
    IsScanInOrder(data, 0, Scan(data), 0);
  }

  lemma {:induction false} IsScanAt(data: seq<byte>, lo: nat, ds: seq<Dtb>, k: nat)
    requires IsScan(data, lo, ds) && k < |ds|
    ensures lo <= ds[k].off && Aligned(ds[k].off)
    ensures ValidAt(data, ds[k].off) && ds[k].size == WordAt(data, ds[k].off + 4)
    decreases ds
  {
    if k > 0 {
      AlignUp(ds[0].End());
      IsScanAt(data, Align4(ds[0].End()), ds[1..], k - 1);
    }
  }

  lemma {:induction false} IsScanApart(data: seq<byte>, lo: nat, ds: seq<Dtb>, j: nat, k: nat)
    requires IsScan(data, lo, ds) && j < k < |ds|
    ensures ds[j].End() <= ds[k].off
    decreases ds
  {
    AlignUp(ds[0].End());
    if j == 0 {
      IsScanAt(data, Align4(ds[0].End()), ds[1..], k - 1);
    } else {
      IsScanApart(data, Align4(ds[0].End()), ds[1..], j - 1, k - 1);
    }
  }

  /** Everything `_scan_dtbs` reports is an aligned, in-bounds device tree of the size
      it declares, and the reports are strictly ordered and disjoint. */
  lemma ScanSound(data: seq<byte>)
    ensures forall k :: 0 <= k < |Scan(data)| ==>
              var d := Scan(data)[k];
              Aligned(d.off) && ValidAt(data, d.off) && d.size == WordAt(data, d.off + 4)
    ensures forall j, k :: 0 <= j < k < |Scan(data)| ==> Scan(data)[j].End() <= Scan(data)[k].off
  {
    var ds := Scan(data);
    ScanIsScan(data, 0);
    forall k | 0 <= k < |ds|
      ensures Aligned(ds[k].off) && ValidAt(data, ds[k].off) && ds[k].size == WordAt(data, ds[k].off + 4)
    {
      IsScanAt(data, 0, ds, k);
    }
    forall j, k | 0 <= j < k < |ds|
      ensures ds[j].End() <= ds[k].off
    {
      IsScanApart(data, 0, ds, j, k);
    }
  }

  // ---------------------------------------------------------------------
  // Completeness
  // ---------------------------------------------------------------------

  predicate Covers(ds: seq<Dtb>, p: nat) {
    exists k :: 0 <= k < |ds| && ds[k].off <= p < ds[k].End()
  }

  /** No aligned, valid header is missed, except inside a reported device tree. */
  lemma ScanComplete(data: seq<byte>, p: nat)
    requires Aligned(p) && ValidAt(data, p)
    ensures Covers(Scan(data), p)
  {
    ScanIsScan(data, 0);
    IsScanComplete(data, 0, Scan(data), p);
  }

  lemma {:induction false} IsScanComplete(data: seq<byte>, lo: nat, ds: seq<Dtb>, p: nat)
    requires IsScan(data, lo, ds) && lo <= p && Aligned(p) && ValidAt(data, p)
    ensures Covers(ds, p)
    decreases ds
  {
    if p < ds[0].End() {
      assert ds[0].off <= p;
    } else {
      AlignStep(ds[0].End(), p);
      IsScanComplete(data, Align4(ds[0].End()), ds[1..], p);
      var k :| 0 <= k < |ds[1..]| && ds[1..][k].off <= p < ds[1..][k].End();
      assert ds[k + 1] == ds[1..][k];
    }
  }
}
