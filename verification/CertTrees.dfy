// A small device tree that libfdt accepts, with the certificate property in its
// root node: the 40-byte header of version 17 of the flattened device tree
// format, an empty memory reservation block, the structure block and the name of
// the property.
module CertTrees {
  import opened Bytes
  import opened DtbScan
  import opened SegmentRebuild
  import opened RebuildScan

  /** `QcCapsuleRootCert`, with the zero byte that ends it. */
  const NAME: seq<byte> := [0x51, 0x63, 0x43, 0x61, 0x70, 0x73, 0x75, 0x6C, 0x65,
                            0x52, 0x6F, 0x6F, 0x74, 0x43, 0x65, 0x72, 0x74, 0]

  /** The header: size of the tree, where the structure block (at 56), the names and the
      reservations (at 40) start, the versions, the sizes of the names and of the
      structure block. */
  function FdtHeadByte(i: nat, total: nat, n: byte): byte
    requires total < 0x10000 && n <= 100
  {
    if i == 0 then 0xD0 else if i == 1 then 0x0D else if i == 2 then 0xFE else if i == 3 then 0xED
    else if i == 6 then total / 256 else if i == 7 then total % 256
    else if i == 11 then 56 else if i == 15 then 84 + n else if i == 19 then 40
    else if i == 23 then 17 else if i == 27 then 16
    else if i == 35 then 18 else if i == 39 then 28 + n else 0
  }

  /** The structure block: a node, its property of `n` bytes (the length of a certificate of
      `n - 4` bytes, then the certificate, which is `c` behind zeros), the ends of the
      node and of the block. */
  function BodyByte(i: nat, n: byte, c: byte): byte
    requires 4 < n <= 100
  {
    if i == 3 then 1 else if i == 11 then 3 else if i == 15 then n
    else if i == 23 then n - 4 else if i == 19 + n then c
    else if i == 23 + n then 2 else if i == 27 + n then 9 else 0
  }

  function TreeByte(i: nat, total: nat, n: byte, c: byte): byte
    requires total < 0x10000 && 4 < n <= 100
  {
    if i < 40 then FdtHeadByte(i, total, n)
    else if i < 56 then 0
    else if i < 84 + n then BodyByte(i - 56, n, c)
    else if i < 102 + n then NAME[i - (84 + n)]
    else 0
  }

  function FdtOf(total: nat, n: byte, c: byte): (d: seq<byte>)
    requires total < 0x10000 && 4 < n <= 100
    ensures |d| == total && forall i :: 0 <= i < total ==> d[i] == TreeByte(i, total, n, c)
  {
    seq(total, i requires 0 <= i < total => TreeByte(i, total, n, c))
  }

  /** A tree of 112 bytes, the last two of them free; the certificate has 4 bytes. */
  function CertTree(c: byte): (d: seq<byte>)
    ensures |d| == 112
  {
    FdtOf(112, 8, c)
  }

  /** The same tree with a certificate of 8 bytes. It did not fit, so 1024 bytes were added. */
  function GrownTree(c: byte): (d: seq<byte>)
    ensures |d| == 1136
  {
    FdtOf(1136, 12, c)
  }

  /** What libfdt asks of a header before it looks at anything else: magic word, versions,
      and three blocks that lie in the tree, aligned. */
  predicate HeaderOk(d: seq<byte>) {
    && |d| >= 40 && WordAt(d, 0) == DTB_MAGIC && WordAt(d, 4) == |d|
    && WordAt(d, 20) == 17 && WordAt(d, 24) == 16
    && 40 <= WordAt(d, 16) <= WordAt(d, 8) && WordAt(d, 16) % 8 == 0 && WordAt(d, 8) % 4 == 0
    && WordAt(d, 8) + WordAt(d, 36) <= WordAt(d, 12) && WordAt(d, 12) + WordAt(d, 32) <= |d|
  }

  lemma TreeHeader(total: nat, n: byte, c: byte)
    requires 4 < n <= 100 && 102 + n <= total < 0x10000
    ensures HeaderOk(FdtOf(total, n, c)) && IsDtb(FdtOf(total, n, c))
  {
    var d := FdtOf(total, n, c);
    forall i | 0 <= i < 40
      ensures d[i] == FdtHeadByte(i, total, n)
    {
    }
    WordIs(d, 0, 0xD0, 0x0D, 0xFE, 0xED);
    WordIs(d, 4, 0, 0, total / 256, total % 256);
    WordIs(d, 8, 0, 0, 0, 56);
    WordIs(d, 12, 0, 0, 0, 84 + n);
    WordIs(d, 16, 0, 0, 0, 40);
    WordIs(d, 20, 0, 0, 0, 17);
    WordIs(d, 24, 0, 0, 0, 16);
    WordIs(d, 32, 0, 0, 0, 18);
    WordIs(d, 36, 0, 0, 0, 28 + n);
  }

  lemma WordIs(d: seq<byte>, p: nat, a: byte, b: byte, c: byte, e: byte)
    requires p + 4 <= |d| && d[p] == a && d[p + 1] == b && d[p + 2] == c && d[p + 3] == e
    ensures WordAt(d, p) == 0x100_0000 * a + 0x1_0000 * b + 0x100 * c + e
  {
  }

  /** The tools set this certificate in these two trees as libfdt does: in place if it has
      the length of the one that is there, else behind 1024 more bytes. */
  predicate SetsCert(tools: Tools) {
    tools.patchDtb(CertTree(0)) == Patched(CertTree(1))
  }

  predicate GrowsTree(tools: Tools) {
    tools.patchDtb(CertTree(0)) == Patched(GrownTree(1))
  }

  /** The certificates differ. */
  lemma CertDiffers()
    ensures CertTree(0) != CertTree(1)
  {
    assert CertTree(0)[83] == 0 && CertTree(1)[83] == 1;
  }
}
