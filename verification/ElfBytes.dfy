// The view of an ELF file in the byte positions of the ELF specification, for
// both classes and both byte orders.
module ElfBytes {
  import opened Bytes
  import opened Tables
  import opened ElfImage
  import opened ElfSplice

  // ---------------------------------------------------------------------
  // Numbers
  // ---------------------------------------------------------------------

  lemma TwoBytes(s: seq<byte>)
    requires |s| == 2
    ensures FromLe(s) == s[0] as int + 0x100 * s[1] as int
    ensures FromBe(s) == 0x100 * s[0] as int + s[1] as int
  {
    assert FromLe(s[1..]) == s[1] + 256 * FromLe(s[1..][1..]);
    assert FromBe(s[..1]) == 256 * FromBe(s[..1][..0]) + s[0];
  }

  lemma FourBytesLittle(s: seq<byte>)
    requires |s| == 4
    ensures FromLe(s) == s[0] as int + 0x100 * s[1] as int + 0x1_0000 * s[2] as int + 0x100_0000 * s[3] as int
  {
    TwoBytes(s[2..]);
    assert s[1..][1..] == s[2..];
    assert FromLe(s[1..]) == s[1] + 256 * FromLe(s[2..]);
  }

  lemma FourBytesBig(s: seq<byte>)
    requires |s| == 4
    ensures FromBe(s) == 0x100_0000 * s[0] as int + 0x1_0000 * s[1] as int + 0x100 * s[2] as int + s[3] as int
  {
    TwoBytes(s[..2]);
    assert s[..3][..2] == s[..2];
    assert FromBe(s[..3]) == 256 * FromBe(s[..2]) + s[2];
  }

  /** `w` bytes of the file at `p` in the order byte 5 names. */
  function Word(raw: seq<byte>, p: nat, w: nat): nat
    requires 6 <= |raw| && p + w <= |raw|
  {
    if raw[5] == 1 then FromLe(raw[p..p + w]) else FromBe(raw[p..p + w])
  }

  lemma FieldWord(raw: seq<byte>, pos: nat, size: nat, f: Field, little: bool)
    requires 6 <= |raw| && pos + size <= |raw| && f.off + f.size <= size && little == (raw[5] == 1)
    ensures GetField(raw[pos..pos + size], f, little) == Word(raw, pos + f.off, f.size)
  {
    FieldIs(raw, pos, size, f, little);
  }

  // ---------------------------------------------------------------------
  // The file header
  // ---------------------------------------------------------------------

  /** A file that is parsed has the magic bytes, class 1 (32 bits) or 2 (64 bits) and byte order
      1 (little endian) or 2 (big endian). */
  lemma Identification(raw: seq<byte>, elf: Elf)
    requires ParseElf(raw) == Some(elf)
    ensures 52 <= |raw| && raw[..4] == [0x7F, 0x45, 0x4C, 0x46] && (raw[4] == 2 ==> 64 <= |raw|)
    ensures (raw[4] == 1 || raw[4] == 2) && (raw[5] == 1 || raw[5] == 2)
    ensures elf.h.is64 == (raw[4] == 2) && elf.h.little == (raw[5] == 1)
  {
    assert ReadHeader(raw) == Some(elf.h);
  }

  lemma Words32(raw: seq<byte>, little: bool)
    requires 52 <= |raw| && little == (raw[5] == 1)
    ensures HeaderOf(raw[0..52], false, little)
         == Header(false, little, Word(raw, 28, 4), Word(raw, 42, 2), Word(raw, 44, 2),
                   Word(raw, 32, 4), Word(raw, 46, 2), Word(raw, 48, 2))
  {
    FieldWord(raw, 0, 52, Field(28, 4), little);
    FieldWord(raw, 0, 52, Field(32, 4), little);
    FieldWord(raw, 0, 52, Field(42, 2), little);
    FieldWord(raw, 0, 52, Field(44, 2), little);
    FieldWord(raw, 0, 52, Field(46, 2), little);
    FieldWord(raw, 0, 52, Field(48, 2), little);
  }

  lemma Words64(raw: seq<byte>, little: bool)
    requires 64 <= |raw| && little == (raw[5] == 1)
    ensures HeaderOf(raw[0..64], true, little)
         == Header(true, little, Word(raw, 32, 8), Word(raw, 54, 2), Word(raw, 56, 2),
                   Word(raw, 40, 8), Word(raw, 58, 2), Word(raw, 60, 2))
  {
    FieldWord(raw, 0, 64, Field(32, 8), little);
    FieldWord(raw, 0, 64, Field(40, 8), little);
    FieldWord(raw, 0, 64, Field(54, 2), little);
    FieldWord(raw, 0, 64, Field(56, 2), little);
    FieldWord(raw, 0, 64, Field(58, 2), little);
    FieldWord(raw, 0, 64, Field(60, 2), little);
  }

  /** The header fields of a 32-bit file. */
  lemma Header32(raw: seq<byte>, elf: Elf)
    requires ParseElf(raw) == Some(elf) && raw[4] == 1
    ensures 52 <= |raw| && elf.h.phoff == Word(raw, 28, 4) && elf.h.shoff == Word(raw, 32, 4)
    ensures elf.h.phentsize == Word(raw, 42, 2) && elf.h.phnum == Word(raw, 44, 2)
    ensures elf.h.shentsize == Word(raw, 46, 2) && elf.h.shnum == Word(raw, 48, 2)
  {
    Identification(raw, elf);
    HeaderIs(raw, elf, 52);
    Words32(raw, elf.h.little);
  }

  /** The header fields of a 64-bit file. */
  lemma Header64(raw: seq<byte>, elf: Elf)
    requires ParseElf(raw) == Some(elf) && raw[4] == 2
    ensures 64 <= |raw| && elf.h.phoff == Word(raw, 32, 8) && elf.h.shoff == Word(raw, 40, 8)
    ensures elf.h.phentsize == Word(raw, 54, 2) && elf.h.phnum == Word(raw, 56, 2)
    ensures elf.h.shentsize == Word(raw, 58, 2) && elf.h.shnum == Word(raw, 60, 2)
  {
    Identification(raw, elf);
    HeaderIs(raw, elf, 64);
    Words64(raw, elf.h.little);
  }

  lemma HeaderIs(raw: seq<byte>, elf: Elf, n: nat)
    requires ParseElf(raw) == Some(elf) && n == EhSize(elf.h.is64)
    ensures n <= |raw| && elf.h == HeaderOf(raw[0..n], elf.h.is64, elf.h.little)
  {
    assert ReadHeader(raw) == Some(elf.h);
    assert raw[..n] == raw[0..n];
  }

  // ---------------------------------------------------------------------
  // The tables
  // ---------------------------------------------------------------------

  lemma {:induction false} EntryRead<T>(raw: seq<byte>, pos: nat, ent: nat, size: nat, read: seq<byte> -> T,
                                        items: seq<T>, k: nat)
    requires k < |items| && HasTable(raw, pos, ent, size, read, items)
    ensures var p := pos + k * ent; p + size <= |raw| && read(raw[p..p + size]) == items[k]
    decreases k
  {
    if k > 0 {
      assert k * ent == ent + (k - 1) * ent;
      EntryRead(raw, pos + ent, ent, size, read, items[1..], k - 1);
    }
  }

  /** There are as many segments as the header says, and as many sections unless it has no
      section table. */
  lemma TableSizes(raw: seq<byte>, elf: Elf)
    requires ParseElf(raw) == Some(elf)
    ensures |elf.segs| == elf.h.phnum && |elf.secs| == if elf.h.shoff == 0 then 0 else elf.h.shnum
  {
    var h := elf.h;
    ReadTableIff(raw, h.phoff, h.phentsize, h.phnum, PhSize(h.is64), SegReader(h.is64, h.little), elf.segs);
    ReadTableIff(raw, h.shoff, h.shentsize, if h.shoff == 0 then 0 else h.shnum, ShSize(h.is64),
                 SecReader(h.is64, h.little), elf.secs);
  }

  lemma SegmentRead(raw: seq<byte>, elf: Elf, k: nat, p: nat, size: nat)
    requires ParseElf(raw) == Some(elf) && k < |elf.segs| && p == elf.h.phoff + k * elf.h.phentsize
    requires size == PhSize(elf.h.is64)
    ensures p + size <= |raw| && SegOf(raw[p..p + size], elf.h.is64, elf.h.little) == elf.segs[k]
  {
    var h := elf.h;
    var read := SegReader(h.is64, h.little);
    ReadTableIff(raw, h.phoff, h.phentsize, h.phnum, size, read, elf.segs);
    EntryRead(raw, h.phoff, h.phentsize, size, read, elf.segs, k);
  }

  lemma SegmentWords(raw: seq<byte>, p: nat, size: nat, is64: bool, little: bool)
    requires 6 <= |raw| && size == PhSize(is64) && p + size <= |raw| && little == (raw[5] == 1)
    ensures SegOf(raw[p..p + size], is64, little)
         == if is64 then Seg(Word(raw, p, 4), Word(raw, p + 8, 8), Word(raw, p + 32, 8), Word(raw, p + 40, 8))
            else Seg(Word(raw, p, 4), Word(raw, p + 4, 4), Word(raw, p + 16, 4), Word(raw, p + 20, 4))
  {
    FieldWord(raw, p, size, PH_TYPE, little);
    FieldWord(raw, p, size, PhOffsetField(is64), little);
    FieldWord(raw, p, size, PhFileszField(is64), little);
    FieldWord(raw, p, size, PhMemszField(is64), little);
  }

  /** Program header `k`: type, offset, size in the file and size in memory. */
  lemma SegmentFields(raw: seq<byte>, elf: Elf, k: nat, p: nat)
    requires ParseElf(raw) == Some(elf) && k < |elf.segs| && p == elf.h.phoff + k * elf.h.phentsize
    ensures 6 <= |raw| && p + (if raw[4] == 2 then 56 else 32) <= |raw|
    ensures elf.segs[k] == if raw[4] == 2
                           then Seg(Word(raw, p, 4), Word(raw, p + 8, 8), Word(raw, p + 32, 8), Word(raw, p + 40, 8))
                           else Seg(Word(raw, p, 4), Word(raw, p + 4, 4), Word(raw, p + 16, 4), Word(raw, p + 20, 4))
  {
    Identification(raw, elf);
    var size := PhSize(elf.h.is64);
    SegmentRead(raw, elf, k, p, size);
    SegmentWords(raw, p, size, elf.h.is64, elf.h.little);
  }

  lemma SectionRead(raw: seq<byte>, elf: Elf, k: nat, p: nat, size: nat)
    requires ParseElf(raw) == Some(elf) && k < |elf.secs| && p == elf.h.shoff + k * elf.h.shentsize
    requires size == ShSize(elf.h.is64)
    ensures p + size <= |raw| && SecReader(elf.h.is64, elf.h.little)(raw[p..p + size]) == elf.secs[k]
  {
    var h := elf.h;
    var read, n := SecReader(h.is64, h.little), if h.shoff == 0 then 0 else h.shnum;
    ReadTableIff(raw, h.shoff, h.shentsize, n, size, read, elf.secs);
    EntryRead(raw, h.shoff, h.shentsize, size, read, elf.secs, k);
  }

  /** Section header `k`: the offset. */
  lemma SectionFields(raw: seq<byte>, elf: Elf, k: nat, p: nat)
    requires ParseElf(raw) == Some(elf) && k < |elf.secs| && p == elf.h.shoff + k * elf.h.shentsize
    ensures 6 <= |raw| && p + (if raw[4] == 2 then 64 else 40) <= |raw|
    ensures elf.secs[k] == if raw[4] == 2 then Word(raw, p + 24, 8) else Word(raw, p + 16, 4)
  {
    Identification(raw, elf);
    var size := ShSize(elf.h.is64);
    SectionRead(raw, elf, k, p, size);
    FieldWord(raw, p, size, ShOffsetField(elf.h.is64), elf.h.little);
  }

  // ---------------------------------------------------------------------
  // Which files are parsed
  // ---------------------------------------------------------------------

  lemma {:induction false} TableReadIff<T>(raw: seq<byte>, pos: nat, ent: nat, n: nat, size: nat, read: seq<byte> -> T)
    ensures ReadTable(raw, pos, ent, n, size, read).Some? <==> TableInside(raw, pos, ent, n, size)
    decreases n
  {
    if n > 0 {
      TableReadIff(raw, pos + ent, ent, n - 1, size, read);
      InsideNext(raw, pos, ent, n, size);
    }
  }

  /** Each of `n` entries of `size` bytes, `ent` bytes apart, ends within the file. */
  predicate TableInside(raw: seq<byte>, pos: nat, ent: nat, n: nat, size: nat) {
    forall k :: 0 <= k < n ==> pos + k * ent + size <= |raw|
  }

  lemma InsideNext(raw: seq<byte>, pos: nat, ent: nat, n: nat, size: nat)
    requires n > 0
    ensures TableInside(raw, pos, ent, n, size) <==> pos + size <= |raw| && TableInside(raw, pos + ent, ent, n - 1, size)
  {
    if TableInside(raw, pos, ent, n, size) {
      assert pos + 0 * ent + size <= |raw|;
      forall k | 0 <= k < n - 1
        ensures pos + ent + k * ent + size <= |raw|
      {
        assert pos + (k + 1) * ent + size <= |raw|;
        Distribute(k, ent);
      }
    } else {
      var k :| 0 <= k < n && pos + k * ent + size > |raw|;
      if k > 0 {
        Distribute(k - 1, ent);
        assert pos + ent + (k - 1) * ent + size > |raw|;
      }
    }
  }

  lemma Distribute(k: nat, ent: nat)
    ensures (k + 1) * ent == k * ent + ent
  {
  }

  /** A 32-bit file is parsed if and only if both tables lie within it; a file without a
      section table needs none. */
  lemma Parses32Iff(raw: seq<byte>)
    requires 52 <= |raw| && raw[..4] == [0x7F, 0x45, 0x4C, 0x46] && raw[4] == 1 && (raw[5] == 1 || raw[5] == 2)
    ensures ParseElf(raw).Some?
       <==> && TableInside(raw, Word(raw, 28, 4), Word(raw, 42, 2), Word(raw, 44, 2), 32)
            && (Word(raw, 32, 4) == 0 || TableInside(raw, Word(raw, 32, 4), Word(raw, 46, 2), Word(raw, 48, 2), 40))
  {
    Words32(raw, raw[5] == 1);
    assert raw[..52] == raw[0..52];
    ParsesIff(raw, HeaderOf(raw[0..52], false, raw[5] == 1));
  }

  /** The same for a 64-bit file. */
  lemma Parses64Iff(raw: seq<byte>)
    requires 64 <= |raw| && raw[..4] == [0x7F, 0x45, 0x4C, 0x46] && raw[4] == 2 && (raw[5] == 1 || raw[5] == 2)
    ensures ParseElf(raw).Some?
       <==> && TableInside(raw, Word(raw, 32, 8), Word(raw, 54, 2), Word(raw, 56, 2), 56)
            && (Word(raw, 40, 8) == 0 || TableInside(raw, Word(raw, 40, 8), Word(raw, 58, 2), Word(raw, 60, 2), 64))
  {
    Words64(raw, raw[5] == 1);
    assert raw[..64] == raw[0..64];
    ParsesIff(raw, HeaderOf(raw[0..64], true, raw[5] == 1));
  }

  lemma ParsesIff(raw: seq<byte>, h: Header)
    requires ReadHeader(raw) == Some(h)
    ensures ParseElf(raw).Some?
       <==> && TableInside(raw, h.phoff, h.phentsize, h.phnum, PhSize(h.is64))
            && (h.shoff == 0 || TableInside(raw, h.shoff, h.shentsize, h.shnum, ShSize(h.is64)))
  {
    TableReadIff(raw, h.phoff, h.phentsize, h.phnum, PhSize(h.is64), SegReader(h.is64, h.little));
    TableReadIff(raw, h.shoff, h.shentsize, if h.shoff == 0 then 0 else h.shnum, ShSize(h.is64),
                 SecReader(h.is64, h.little));
  }
}
