// The ELF view of an image, and the header fields the patcher rewrites.
//
// `ParseElf` reads what the patcher uses of an ELF file: the identification,
// the positions of the two header tables, and of each entry the fields that
// matter. Field positions of program and section headers are those of
// patch_capsule_cert.py; the others are those of the ELF specification.
module ElfImage {
  import opened Bytes
  import opened Tables

  // ---------------------------------------------------------------------
  // Numbers in the file's own byte order
  // ---------------------------------------------------------------------

  function Decode(s: seq<byte>, little: bool): nat {
    if little then FromLe(s) else FromBe(s)
  }

  function Encode(v: nat, w: nat, little: bool): (s: seq<byte>)
    ensures |s| == w
  {
    if little then Le(v, w) else Be(v, w)
  }

  lemma EncodeRoundTrip(v: nat, w: nat, little: bool)
    requires v < Pow256(w)
    ensures Decode(Encode(v, w, little), little) == v
  {
    if little {
      LeRoundTrip(v, w);
    } else {
      BeRoundTrip(v, w);
    }
  }

  /** Writing one field; a value that does not fit is `struct.error`. */
  function WriteField(raw: seq<byte>, pos: nat, w: nat, v: int, little: bool): Option<seq<byte>> {
    if 0 <= v < Pow256(w) then Some(Put(raw, pos, Encode(v, w, little))) else None
  }

  // ---------------------------------------------------------------------
  // Layout of the headers
  // ---------------------------------------------------------------------

  datatype Field = Field(off: nat, size: nat)

  function EhSize(is64: bool): nat { if is64 then 64 else 52 }
  function PhSize(is64: bool): nat { if is64 then 56 else 32 }
  function ShSize(is64: bool): nat { if is64 then 64 else 40 }

  const PH_TYPE := Field(0, 4)
  function PhOffsetField(is64: bool): Field { if is64 then Field(8, 8) else Field(4, 4) }
  function PhFileszField(is64: bool): Field { if is64 then Field(0x20, 8) else Field(0x10, 4) }
  function PhMemszField(is64: bool): Field { if is64 then Field(0x28, 8) else Field(0x14, 4) }
  function ShOffsetField(is64: bool): Field { if is64 then Field(24, 8) else Field(16, 4) }
  function EPhoffField(is64: bool): Field { if is64 then Field(0x20, 8) else Field(0x1C, 4) }
  function EShoffField(is64: bool): Field { if is64 then Field(0x28, 8) else Field(0x20, 4) }
  function EPhentsizeField(is64: bool): Field { if is64 then Field(0x36, 2) else Field(0x2A, 2) }
  function EPhnumField(is64: bool): Field { if is64 then Field(0x38, 2) else Field(0x2C, 2) }
  function EShentsizeField(is64: bool): Field { if is64 then Field(0x3A, 2) else Field(0x2E, 2) }
  function EShnumField(is64: bool): Field { if is64 then Field(0x3C, 2) else Field(0x30, 2) }

  const PT_NULL: nat := 0

  datatype Header = Header(
    is64: bool, little: bool,
    phoff: nat, phentsize: nat, phnum: nat,
    shoff: nat, shentsize: nat, shnum: nat)

  datatype Seg = Seg(ptype: nat, offset: nat, filesz: nat, memsz: nat) {
    function End(): nat { offset + filesz }
  }

  /** The header, the segments, and the file offsets of the sections. */
  datatype Elf = Elf(h: Header, segs: seq<Seg>, secs: seq<nat>)

  /** A field of a table entry, given the entry's bytes. */
  function GetField(entry: seq<byte>, f: Field, little: bool): nat {
    Decode(Slice(entry, f.off, f.off + f.size), little)
  }

  /** The header, given its `EhSize` bytes. */
  function HeaderOf(e: seq<byte>, is64: bool, little: bool): Header {
    Header(is64, little,
           GetField(e, EPhoffField(is64), little), GetField(e, EPhentsizeField(is64), little),
           GetField(e, EPhnumField(is64), little), GetField(e, EShoffField(is64), little),
           GetField(e, EShentsizeField(is64), little), GetField(e, EShnumField(is64), little))
  }

  function ReadHeader(raw: seq<byte>): Option<Header> {
    if |raw| < 6 || raw[..4] != [0x7F, 0x45, 0x4C, 0x46] || raw[4] !in {1, 2} || raw[5] !in {1, 2} then None
    else
      var is64 := raw[4] == 2;
      if |raw| < EhSize(is64) then None else Some(HeaderOf(raw[..EhSize(is64)], is64, raw[5] == 1))
  }

  function SegOf(entry: seq<byte>, is64: bool, little: bool): Seg {
    Seg(GetField(entry, PH_TYPE, little), GetField(entry, PhOffsetField(is64), little),
        GetField(entry, PhFileszField(is64), little), GetField(entry, PhMemszField(is64), little))
  }

  function SegReader(is64: bool, little: bool): seq<byte> -> Seg {
    entry => SegOf(entry, is64, little)
  }

  /** Of a section header only `sh_offset` is used. */
  function SecReader(is64: bool, little: bool): seq<byte> -> nat {
    entry => GetField(entry, ShOffsetField(is64), little)
  }

  function ParseElf(raw: seq<byte>): Option<Elf> {
    var h :- ReadHeader(raw);
    var segs :- ReadTable(raw, h.phoff, h.phentsize, h.phnum, PhSize(h.is64), SegReader(h.is64, h.little));
    var secs :- ReadTable(raw, h.shoff, h.shentsize, if h.shoff == 0 then 0 else h.shnum,
                          ShSize(h.is64), SecReader(h.is64, h.little));
    Some(Elf(h, segs, secs))
  }

  /** The bytes of a segment, cut off by the end of the file. */
  function SegData(raw: seq<byte>, s: Seg): seq<byte> {
    Slice(raw, s.offset, s.offset + s.filesz)
  }

  // ---------------------------------------------------------------------
  // The header writes
  // ---------------------------------------------------------------------

  function WritePhField(raw: seq<byte>, h: Header, i: nat, f: Field, v: int): Option<seq<byte>> {
    WriteField(raw, EntryPos(h.phoff, h.phentsize, i) + f.off, f.size, v, h.little)
  }

  /** `p_offset` of a segment beyond the splice point moves by `grow`. */
  function SegEdit(h: Header, splice: nat, grow: int): (seq<byte>, nat, Seg) -> Option<seq<byte>> {
    var f := PhOffsetField(h.is64);
    (raw: seq<byte>, pos: nat, s: Seg) =>
      if s.offset > splice then WriteField(raw, pos + f.off, f.size, s.offset + grow, h.little) else Some(raw)
  }

  /** `sh_offset` of a section beyond the splice point moves by `grow`. */
  function SecEdit(h: Header, splice: nat, grow: int): (seq<byte>, nat, nat) -> Option<seq<byte>> {
    var f := ShOffsetField(h.is64);
    (raw: seq<byte>, pos: nat, offset: nat) =>
      if offset > splice then WriteField(raw, pos + f.off, f.size, offset + grow, h.little) else Some(raw)
  }

  function MoveShoff(raw: seq<byte>, h: Header, splice: nat, grow: int): Option<seq<byte>> {
    var f := EShoffField(h.is64);
    if h.shoff > splice then WriteField(raw, f.off, f.size, h.shoff + grow, h.little) else Some(raw)
  }

  /** All of `_update_elf_headers_for_growth`. */
  function UpdateForGrowth(raw: seq<byte>, elf: Elf, splice: nat, grow: int): Option<seq<byte>> {
    var a :- EditTable(raw, elf.segs, elf.h.phoff, elf.h.phentsize, SegEdit(elf.h, splice, grow));
    var b :- EditTable(a, elf.secs, elf.h.shoff, elf.h.shentsize, SecEdit(elf.h, splice, grow));
    MoveShoff(b, elf.h, splice, grow)
  }

  /** `p_filesz` and then `p_memsz` of segment `t` become `size`. */
  function WriteSizes(raw: seq<byte>, h: Header, t: nat, size: nat): Option<seq<byte>> {
    var a :- WritePhField(raw, h, t, PhFileszField(h.is64), size);
    WritePhField(a, h, t, PhMemszField(h.is64), size)
  }
}
