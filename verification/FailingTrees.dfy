// Two segments of device trees that the patcher does not leave as it should: one
// in which a grown device tree turns a gap into another one, and one of two
// device trees on the path that reads its segment once.
module FailingTrees {
  import opened Bytes
  import opened DtbScan
  import opened SegmentRebuild
  import opened RebuildScan
  import opened LastTree
  import opened CertTrees

  // ---------------------------------------------------------------------
  // Scanning
  // ---------------------------------------------------------------------

  lemma CertFound(data: seq<byte>, at: nat, d: seq<byte>)
    requires at + |d| <= |data| && data[at..at + |d|] == d && IsDtb(d)
    ensures ValidAt(data, at) && WordAt(data, at + 4) == |d|
  {
    WordMoved(data, at, d, 0);
    WordMoved(data, at, d, 4);
  }

  lemma WordMoved(data: seq<byte>, at: nat, d: seq<byte>, p: nat)
    requires at + |d| <= |data| && data[at..at + |d|] == d && p + 4 <= |d|
    ensures WordAt(data, at + p) == WordAt(d, p)
  {
    forall i | p <= i < p + 4
      ensures data[at + i] == d[i]
    {
      assert data[at..at + |d|][i] == data[at + i];
    }
  }

  /** A device tree at an aligned place is found, and the scan goes on behind it. */
  lemma ScanOver(data: seq<byte>, at: nat, n: nat)
    requires ValidAt(data, at) && WordAt(data, at + 4) == n && (at + n) % 4 == 0
    ensures ScanFrom(data, at) == [Dtb(at, n)] + ScanFrom(data, at + n)
  {
    AlignSame(at + n);
    ScanOne(data, at, n);
  }

  lemma AlignSame(n: nat)
    requires n % 4 == 0
    ensures Align4(n) == n
  {
    Align4IsMask(n);
  }

  lemma ScanStops(data: seq<byte>, at: nat)
    requires at % 4 == 0 && NoneValid(data, at, |data|)
    ensures ScanFrom(data, at) == []
  {
    AlignedIsMultiple(at);
    ScanEnds(data, at);
  }

  lemma ScanPast(data: seq<byte>, at: nat)
    requires at % 4 == 0 && !ValidAt(data, at) && !ValidAt(data, at + 4) && at + 16 <= |data|
    ensures ScanFrom(data, at) == ScanFrom(data, at + 8)
  {
    assert ScanFrom(data, at) == ScanFrom(data, at + 4);
  }

  // ---------------------------------------------------------------------
  // A gap that becomes a device tree
  // ---------------------------------------------------------------------

  /** The start of a device tree of 200 bytes. */
  function Broken(): (b: seq<byte>)
    ensures |b| == 8
  {
    [0xD0, 0x0D, 0xFE, 0xED, 0, 0, 0, 200]
  }

  /** Such a start, though the segment ends after 120 bytes, and a device tree. */
  function HiddenHeader(): (data: seq<byte>)
    ensures |data| == 120
  {
    Broken() + CertTree(0)
  }

  lemma BrokenWords(data: seq<byte>, d: seq<byte>)
    requires data == Broken() + d
    ensures WordAt(data, 0) == DTB_MAGIC && WordAt(data, 4) == 200
  {
    WordIs(data, 0, 0xD0, 0x0D, 0xFE, 0xED);
    WordIs(data, 4, 0, 0, 0, 200);
  }

  /** The broken start is passed over if the segment is too short for it. */
  lemma BrokenPassed(data: seq<byte>, d: seq<byte>)
    requires data == Broken() + d && IsDtb(d) && |d| % 4 == 0 && |data| < 200
    ensures Scan(data) == [Dtb(8, |d|)] && !ValidAt(data, 0) && !ValidAt(data, 4)
  {
    BrokenWords(data, d);
    assert data[8..8 + |d|] == d;
    CertFound(data, 8, d);
    ScanPast(data, 0);
    ScanOver(data, 8, |d|);
    ScanStops(data, 8 + |d|);
  }

  /** Otherwise it hides the device tree behind it. */
  lemma BrokenFound(data: seq<byte>, d: seq<byte>)
    requires data == Broken() + d && |data| >= 200 && NoneValid(data, 200, |data|)
    ensures Scan(data) == [Dtb(0, 200)]
  {
    BrokenWords(data, d);
    ScanOver(data, 0, 200);
    ScanStops(data, 200);
  }

  /** Behind its 200th byte the grown segment has only zeros. */
  lemma ZerosBehind(new_: seq<byte>)
    requires new_ == Broken() + GrownTree(1)
    ensures NoneValid(new_, 200, |new_|)
  {
    forall p: nat | 200 <= p < |new_| && Aligned(p)
      ensures !ValidAt(new_, p)
    {
      assert new_[p] == GrownTree(1)[p - 8] == 0;
    }
  }

  /** A segment of a gap and one device tree, rebuilt. */
  lemma OneRebuilt(tools: Tools, data: seq<byte>, gap: seq<byte>, d: seq<byte>, new_: seq<byte>)
    requires data == gap + d && Scan(data) == [Dtb(|gap|, |d|)] && tools.patchDtb(d) == Patched(new_)
    ensures Rebuilt(tools, data) == gap + new_
    ensures Body(data, Scan(data)[0]) == d
  {
    var x := Dtb(|gap|, |d|);
    ScanInOrder(data);
    assert [x][1..] == [] && Body(data, x) == d && data[0..|gap|] == gap && data[|data|..] == [];
    assert RebuildFrom(tools, data, [], |data|) == [];
    assert Rebuilt(tools, data) == data[0..|gap|] + new_ + [];
  }

  /** No gap of this segment holds a valid header, yet when its device tree grows the broken
      header in front becomes one and hides it. */
  lemma HiddenHeaderFound(tools: Tools, data: seq<byte>)
    requires data == HiddenHeader() && GrowsTree(tools)
    ensures HeaderOk(CertTree(0)) && HeaderOk(GrownTree(1))
    ensures Scan(data) == [Dtb(8, 112)] && !ValidAt(data, 0) && !ValidAt(data, 4)
    ensures GoodPatches(tools, data, Scan(data))
    ensures Scan(Rebuilt(tools, data)) == [Dtb(0, 200)]
  {
    TreeHeader(112, 8, 0);
    TreeHeader(1136, 12, 1);
    BrokenPassed(data, CertTree(0));
    OneRebuilt(tools, data, Broken(), CertTree(0), GrownTree(1));
    AlignedBy(1024);
    ZerosBehind(Broken() + GrownTree(1));
    BrokenFound(Broken() + GrownTree(1), GrownTree(1));
  }

  lemma AlignedBy(n: nat)
    requires n % 4 == 0
    ensures Aligned(n)
  {
    AlignedIsMultiple(n);
  }

  // ---------------------------------------------------------------------
  // Two device trees
  // ---------------------------------------------------------------------

  lemma TwoFound(data: seq<byte>, d: seq<byte>)
    requires data == d + d && IsDtb(d) && |d| % 4 == 0
    ensures Scan(data) == [Dtb(0, |d|), Dtb(|d|, |d|)]
  {
    assert data[0..|d|] == d && data[|d|..|d| + |d|] == d;
    CertFound(data, 0, d);
    CertFound(data, |d|, d);
    TwoScanned(data, |d|);
  }

  lemma TwoScanned(data: seq<byte>, n: nat)
    requires |data| == n + n && n % 4 == 0 && ValidAt(data, 0) && ValidAt(data, n)
    requires WordAt(data, 4) == WordAt(data, n + 4) == n
    ensures Scan(data) == [Dtb(0, n), Dtb(n, n)]
  {
    var e := |data|;
    TwiceFour(n, e);
    ScanOver(data, 0, n);
    ScanOver(data, n, n);
    ScanStops(data, e);
  }

  lemma TwiceFour(n: nat, e: nat)
    requires n % 4 == 0 && e == n + n
    ensures e % 4 == 0
  {
  }

  /** Of two equal device trees the first is not patched in the end, unless patching
      changes nothing. */
  lemma FirstOfTwoLost(tools: Tools, data: seq<byte>, d: seq<byte>, new_: seq<byte>)
    requires data == d + d && IsDtb(d) && |d| % 4 == 0
    requires tools.patchDtb(d) == Patched(new_) && |new_| >= |d| && new_ != d
    ensures FinalData(tools, data) != Rebuilt(tools, data)
  {
    var a, b := Dtb(0, |d|), Dtb(|d|, |d|);
    TwoFound(data, d);
    assert [a, b][1..] == [b] && [b][1..] == [];
    assert Body(data, a) == Body(data, b) == d;
    FinalIsRebuiltIff(tools, data);
  }

  /** So with the same certificate-bearing device tree twice. */
  lemma FirstTreeLost(tools: Tools, data: seq<byte>)
    requires data == CertTree(0) + CertTree(0) && (SetsCert(tools) || GrowsTree(tools))
    ensures HeaderOk(CertTree(0)) && HeaderOk(CertTree(1)) && HeaderOk(GrownTree(1))
    ensures FinalData(tools, data) != Rebuilt(tools, data)
  {
    TreeHeader(112, 8, 0);
    TreeHeader(112, 8, 1);
    TreeHeader(1136, 12, 1);
    CertDiffers();
    FirstOfTwoLost(tools, data, CertTree(0), if SetsCert(tools) then CertTree(1) else GrownTree(1));
  }
}
