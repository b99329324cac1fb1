// What the header writes mean: after a segment has changed size, parsing the
// image gives the old view with every offset moved, and every segment still
// holds its bytes.
module ElfSplice {
  import opened Bytes
  import opened Tables
  import opened ElfImage

  // ---------------------------------------------------------------------
  // One field of one entry
  // ---------------------------------------------------------------------

  /** Bytes changed inside one entry, seen from that entry. */
  lemma InsideEntry(raw: seq<byte>, r: seq<byte>, pos: nat, size: nat, off: nat, w: nat)
    requires pos + size <= |raw| && off + w <= size && SameOutside(raw, r, pos + off, pos + off + w)
    ensures SameOutside(raw, r, pos, pos + size)
    ensures SameOutside(raw[pos..pos + size], r[pos..pos + size], off, off + w)
    ensures r[pos..pos + size][off..off + w] == r[pos + off..pos + off + w]
  {
    var old_, new_, end := raw[pos..pos + size], r[pos..pos + size], pos + off + w;
    SameOutsideWiden(raw, r, pos + off, end, pos, pos + size);
    SubSlice(r, raw, 0, pos + off, pos, pos + off);
    SubSlice(r, raw, end, |raw|, end, pos + size);
    assert new_[..off] == r[pos..pos + off] && old_[..off] == raw[pos..pos + off];
    assert new_[off + w..] == r[end..pos + size] && old_[off + w..] == raw[end..pos + size];
    PartOfCopy(new_, 0, r, pos, size, off, w);
  }

  lemma PutPlaces(raw: seq<byte>, p: nat, e: seq<byte>, r: seq<byte>)
    requires p + |e| <= |raw| && r == Put(raw, p, e)
    ensures SameOutside(raw, r, p, p + |e|) && r[p..p + |e|] == e
  {
  }

  lemma WritePlaces(raw: seq<byte>, p: nat, w: nat, v: int, little: bool, r: seq<byte>)
    requires p + w <= |raw| && WriteField(raw, p, w, v, little) == Some(r)
    ensures 0 <= v && SameOutside(raw, r, p, p + w) && Decode(r[p..p + w], little) == v
  {
    PutPlaces(raw, p, Encode(v, w, little), r);
    EncodeRoundTrip(v, w, little);
  }

  /** Writing field `f` of the entry at `pos`. */
  lemma FieldWritten(raw: seq<byte>, pos: nat, size: nat, f: Field, v: int, little: bool, r: seq<byte>)
    requires pos + size <= |raw| && f.off + f.size <= size
    requires WriteField(raw, pos + f.off, f.size, v, little) == Some(r)
    ensures SameOutside(raw, r, pos, pos + size) && 0 <= v
    ensures SameOutside(raw[pos..pos + size], r[pos..pos + size], f.off, f.off + f.size)
    ensures GetField(r[pos..pos + size], f, little) == v
  {
    WritePlaces(raw, pos + f.off, f.size, v, little, r);
    InsideEntry(raw, r, pos, size, f.off, f.size);
    FieldIs(r, pos, size, f, little);
  }

  lemma FieldIs(r: seq<byte>, pos: nat, size: nat, f: Field, little: bool)
    requires pos + size <= |r| && f.off + f.size <= size
    ensures GetField(r[pos..pos + size], f, little) == Decode(r[pos + f.off..pos + f.off + f.size], little)
  {
    var entry := r[pos..pos + size];
    PartOfCopy(entry, 0, r, pos, size, f.off, f.size);
    assert Slice(entry, f.off, f.off + f.size) == entry[f.off..f.off + f.size];
  }

  /** Another field of an entry of which only field `f` was written. */
  lemma OtherField(old_: seq<byte>, new_: seq<byte>, f: Field, g: Field, little: bool)
    requires SameOutside(old_, new_, f.off, f.off + f.size) && g.off + g.size <= |old_|
    requires g.off + g.size <= f.off || f.off + f.size <= g.off
    ensures GetField(new_, g, little) == GetField(old_, g, little)
  {
    if g.off + g.size <= f.off {
      SubSlice(new_, old_, 0, f.off, g.off, g.off + g.size);
    } else {
      SubSlice(new_, old_, f.off + f.size, |old_|, g.off, g.off + g.size);
    }
  }

  lemma OffsetWritten(raw: seq<byte>, pos: nat, is64: bool, little: bool, s: Seg, v: int, r: seq<byte>)
    requires pos + PhSize(is64) <= |raw| && SegReader(is64, little)(raw[pos..pos + PhSize(is64)]) == s
    requires WriteField(raw, pos + PhOffsetField(is64).off, PhOffsetField(is64).size, v, little) == Some(r)
    ensures 0 <= v
    ensures EditedAt(raw, r, pos, PhSize(is64), SegReader(is64, little), s.(offset := v))
  {
    var f, size := PhOffsetField(is64), PhSize(is64);
    var old_, new_ := raw[pos..pos + size], r[pos..pos + size];
    FieldWritten(raw, pos, size, f, v, little, r);
    OtherField(old_, new_, f, PH_TYPE, little);
    OtherField(old_, new_, f, PhFileszField(is64), little);
    OtherField(old_, new_, f, PhMemszField(is64), little);
    assert SegOf(new_, is64, little) == SegOf(old_, is64, little).(offset := v);
  }

  lemma FileszWritten(raw: seq<byte>, pos: nat, is64: bool, little: bool, s: Seg, v: int, r: seq<byte>)
    requires pos + PhSize(is64) <= |raw| && SegReader(is64, little)(raw[pos..pos + PhSize(is64)]) == s
    requires WriteField(raw, pos + PhFileszField(is64).off, PhFileszField(is64).size, v, little) == Some(r)
    ensures 0 <= v
    ensures EditedAt(raw, r, pos, PhSize(is64), SegReader(is64, little), s.(filesz := v))
  {
    var f, size := PhFileszField(is64), PhSize(is64);
    var old_, new_ := raw[pos..pos + size], r[pos..pos + size];
    FieldWritten(raw, pos, size, f, v, little, r);
    OtherField(old_, new_, f, PH_TYPE, little);
    OtherField(old_, new_, f, PhOffsetField(is64), little);
    OtherField(old_, new_, f, PhMemszField(is64), little);
    assert SegOf(new_, is64, little) == SegOf(old_, is64, little).(filesz := v);
  }

  lemma MemszWritten(raw: seq<byte>, pos: nat, is64: bool, little: bool, s: Seg, v: int, r: seq<byte>)
    requires pos + PhSize(is64) <= |raw| && SegReader(is64, little)(raw[pos..pos + PhSize(is64)]) == s
    requires WriteField(raw, pos + PhMemszField(is64).off, PhMemszField(is64).size, v, little) == Some(r)
    ensures 0 <= v
    ensures EditedAt(raw, r, pos, PhSize(is64), SegReader(is64, little), s.(memsz := v))
  {
    var f, size := PhMemszField(is64), PhSize(is64);
    var old_, new_ := raw[pos..pos + size], r[pos..pos + size];
    FieldWritten(raw, pos, size, f, v, little, r);
    OtherField(old_, new_, f, PH_TYPE, little);
    OtherField(old_, new_, f, PhOffsetField(is64), little);
    OtherField(old_, new_, f, PhFileszField(is64), little);
    assert SegOf(new_, is64, little) == SegOf(old_, is64, little).(memsz := v);
  }

  // ---------------------------------------------------------------------
  // The moved view
  // ---------------------------------------------------------------------

  function Moved(offset: nat, splice: nat, grow: int): nat {
    if offset > splice then Max(0, offset + grow) else offset
  }

  function MoveSeg(splice: nat, grow: int): Seg -> Seg {
    (s: Seg) => s.(offset := Moved(s.offset, splice, grow))
  }

  function MoveSec(splice: nat, grow: int): nat -> nat {
    (offset: nat) => Moved(offset, splice, grow)
  }

  /** What becomes of one program header ... */
  lemma SegEditAt(h: Header, splice: nat, grow: int, raw: seq<byte>, pos: nat, s: Seg, size: nat, r: seq<byte>)
    requires size == PhSize(h.is64) && pos + size <= |raw| && SegReader(h.is64, h.little)(raw[pos..pos + size]) == s
    requires SegEdit(h, splice, grow)(raw, pos, s) == Some(r)
    ensures EditedAt(raw, r, pos, size, SegReader(h.is64, h.little), MoveSeg(splice, grow)(s))
  {
    if s.offset > splice {
      OffsetWritten(raw, pos, h.is64, h.little, s, s.offset + grow, r);
    }
  }

  lemma SegEditOk(h: Header, splice: nat, grow: int)
    ensures EditOk(PhSize(h.is64), SegReader(h.is64, h.little), SegEdit(h, splice, grow), MoveSeg(splice, grow))
  {
    var size, read, edit := PhSize(h.is64), SegReader(h.is64, h.little), SegEdit(h, splice, grow);
    forall raw: seq<byte>, pos: nat, s: Seg |
      pos + size <= |raw| && read(raw[pos..pos + size]) == s && edit(raw, pos, s).Some?
      ensures EditedAt(raw, edit(raw, pos, s).value, pos, size, read, MoveSeg(splice, grow)(s))
    {
      SegEditAt(h, splice, grow, raw, pos, s, size, edit(raw, pos, s).value);
    }
  }

  /** ... and of one section header. */
  lemma SecEditAt(h: Header, splice: nat, grow: int, raw: seq<byte>, pos: nat, x: nat, size: nat, r: seq<byte>)
    requires size == ShSize(h.is64) && pos + size <= |raw| && SecReader(h.is64, h.little)(raw[pos..pos + size]) == x
    requires SecEdit(h, splice, grow)(raw, pos, x) == Some(r)
    ensures EditedAt(raw, r, pos, size, SecReader(h.is64, h.little), MoveSec(splice, grow)(x))
  {
    if x > splice {
      FieldWritten(raw, pos, size, ShOffsetField(h.is64), x + grow, h.little, r);
    }
  }

  lemma SecEditOk(h: Header, splice: nat, grow: int)
    ensures EditOk(ShSize(h.is64), SecReader(h.is64, h.little), SecEdit(h, splice, grow), MoveSec(splice, grow))
  {
    var size, read, edit := ShSize(h.is64), SecReader(h.is64, h.little), SecEdit(h, splice, grow);
    forall raw: seq<byte>, pos: nat, x: nat |
      pos + size <= |raw| && read(raw[pos..pos + size]) == x && edit(raw, pos, x).Some?
      ensures EditedAt(raw, edit(raw, pos, x).value, pos, size, read, MoveSec(splice, grow)(x))
    {
      SecEditAt(h, splice, grow, raw, pos, x, size, edit(raw, pos, x).value);
    }
  }

  // ---------------------------------------------------------------------
  // Where the headers stand
  // ---------------------------------------------------------------------

  function SecCount(h: Header): nat {
    if h.shoff == 0 then 0 else h.shnum
  }

  predicate HasSegs(raw: seq<byte>, h: Header, segs: seq<Seg>) {
    HasTable(raw, h.phoff, h.phentsize, PhSize(h.is64), SegReader(h.is64, h.little), segs)
  }

  predicate HasSecs(raw: seq<byte>, h: Header, secs: seq<nat>) {
    HasTable(raw, h.shoff, h.shentsize, ShSize(h.is64), SecReader(h.is64, h.little), secs)
  }

  predicate HasElf(raw: seq<byte>, elf: Elf) {
    && ReadHeader(raw) == Some(elf.h)
    && |elf.segs| == elf.h.phnum && HasSegs(raw, elf.h, elf.segs)
    && |elf.secs| == SecCount(elf.h) && HasSecs(raw, elf.h, elf.secs)
  }

  lemma ParseIff(raw: seq<byte>, elf: Elf)
    ensures ParseElf(raw) == Some(elf) <==> HasElf(raw, elf)
  {
    var h := elf.h;
    ReadTableIff(raw, h.phoff, h.phentsize, h.phnum, PhSize(h.is64), SegReader(h.is64, h.little), elf.segs);
    ReadTableIff(raw, h.shoff, h.shentsize, SecCount(h), ShSize(h.is64), SecReader(h.is64, h.little), elf.secs);
  }

  function PhEnd(elf: Elf): nat {
    EntryPos(elf.h.phoff, elf.h.phentsize, |elf.segs|)
  }

  function ShEnd(elf: Elf): nat {
    EntryPos(elf.h.shoff, elf.h.shentsize, |elf.secs|)
  }

  /** Everything the headers occupy ends here. */
  function Top(elf: Elf): nat {
    if elf.secs == [] then PhEnd(elf) else Max(PhEnd(elf), ShEnd(elf))
  }

  /** Entries are at least as long as their structure, and the ELF header and the
      two tables do not overlap. */
  predicate TablesApart(elf: Elf) {
    && PhSize(elf.h.is64) <= elf.h.phentsize && EhSize(elf.h.is64) <= elf.h.phoff
    && elf.h.phoff <= PhEnd(elf)
    && (elf.secs != [] ==>
          && ShSize(elf.h.is64) <= elf.h.shentsize && EhSize(elf.h.is64) <= elf.h.shoff
          && elf.h.shoff <= ShEnd(elf)
          && (ShEnd(elf) <= elf.h.phoff || PhEnd(elf) <= elf.h.shoff))
  }

  // ---------------------------------------------------------------------
  // Parsing depends on the header bytes only
  // ---------------------------------------------------------------------

  lemma HeaderLocal(s: seq<byte>, t: seq<byte>, h: Header, n: nat)
    requires ReadHeader(s) == Some(h) && EhSize(h.is64) <= n <= |s| && n <= |t| && s[..n] == t[..n]
    ensures ReadHeader(t) == Some(h)
  {
    SubSlice(s, t, 0, n, 0, EhSize(h.is64));
    SubSlice(s, t, 0, n, 0, 4);
    SubSlice(s, t, 0, n, 4, 5);
    SubSlice(s, t, 0, n, 5, 6);
    assert s[4..5][0] == t[4..5][0] && s[5..6][0] == t[5..6][0];
  }

  lemma ParseLocal(s: seq<byte>, t: seq<byte>, elf: Elf)
    requires HasElf(s, elf) && TablesApart(elf) && Top(elf) <= |s| && Top(elf) <= |t|
    requires s[..Top(elf)] == t[..Top(elf)]
    ensures HasElf(t, elf)
  {
    var h, n := elf.h, Top(elf);
    HeaderLocal(s, t, h, n);
    TableLocal(s, t, 0, n, h.phoff, h.phentsize, PhSize(h.is64), SegReader(h.is64, h.little), elf.segs);
    if elf.secs != [] {
      TableLocal(s, t, 0, n, h.shoff, h.shentsize, ShSize(h.is64), SecReader(h.is64, h.little), elf.secs);
    }
  }

  // ---------------------------------------------------------------------
  // The writes, one table at a time
  // ---------------------------------------------------------------------

  /** An edit confined to the program header table. */
  lemma SegsEdited(x: seq<byte>, r: seq<byte>, elf: Elf, segs: seq<Seg>)
    requires HasElf(x, elf) && TablesApart(elf) && Top(elf) <= |x|
    requires SameOutside(x, r, elf.h.phoff, PhEnd(elf)) && |segs| == |elf.segs| && HasSegs(r, elf.h, segs)
    ensures HasElf(r, elf.(segs := segs))
  {
    var h := elf.h;
    HeaderLocal(x, r, h, h.phoff);
    if elf.secs != [] {
      var lo, hi := h.shoff, ShEnd(elf);
      if hi <= h.phoff {
        SubSlice(x, r, 0, h.phoff, lo, hi);
      } else {
        SubSlice(x, r, PhEnd(elf), |x|, lo, hi);
      }
      TableLocal(x, r, lo, hi, h.shoff, h.shentsize, ShSize(h.is64), SecReader(h.is64, h.little), elf.secs);
    }
  }

  /** An edit confined to the section header table. */
  lemma SecsEdited(x: seq<byte>, r: seq<byte>, elf: Elf, secs: seq<nat>)
    requires HasElf(x, elf) && TablesApart(elf) && Top(elf) <= |x| && elf.secs != []
    requires SameOutside(x, r, elf.h.shoff, ShEnd(elf)) && |secs| == |elf.secs| && HasSecs(r, elf.h, secs)
    ensures HasElf(r, elf.(secs := secs))
  {
    var h := elf.h;
    HeaderLocal(x, r, h, h.shoff);
    var lo, hi := h.phoff, PhEnd(elf);
    if hi <= h.shoff {
      SubSlice(x, r, 0, h.shoff, lo, hi);
    } else {
      SubSlice(x, r, ShEnd(elf), |x|, lo, hi);
    }
    TableLocal(x, r, lo, hi, h.phoff, h.phentsize, PhSize(h.is64), SegReader(h.is64, h.little), elf.segs);
  }

  lemma SegsMoved(x: seq<byte>, r: seq<byte>, elf: Elf, splice: nat, grow: int)
    requires HasElf(x, elf) && TablesApart(elf) && Top(elf) <= |x|
    requires EditTable(x, elf.segs, elf.h.phoff, elf.h.phentsize, SegEdit(elf.h, splice, grow)) == Some(r)
    ensures SameOutside(x, r, elf.h.phoff, PhEnd(elf))
    ensures HasElf(r, elf.(segs := MapSeq(MoveSeg(splice, grow), elf.segs)))
  {
    var h := elf.h;
    SegEditOk(h, splice, grow);
    EditTableEffect(x, elf.segs, h.phoff, h.phentsize, PhSize(h.is64), SegReader(h.is64, h.little),
                    SegEdit(h, splice, grow), MoveSeg(splice, grow), r, PhEnd(elf));
    SegsEdited(x, r, elf, MapSeq(MoveSeg(splice, grow), elf.segs));
  }

  lemma SecsMoved(x: seq<byte>, r: seq<byte>, elf: Elf, splice: nat, grow: int)
    requires HasElf(x, elf) && TablesApart(elf) && Top(elf) <= |x|
    requires EditTable(x, elf.secs, elf.h.shoff, elf.h.shentsize, SecEdit(elf.h, splice, grow)) == Some(r)
    ensures SameTail(x, r, Top(elf))
    ensures HasElf(r, elf.(secs := MapSeq(MoveSec(splice, grow), elf.secs)))
  {
    if elf.secs != [] {
      SecTableMoved(x, r, elf, splice, grow);
      SameTailFrom(x, r, elf.h.shoff, ShEnd(elf), Top(elf));
    } else {
      assert elf.(secs := []) == elf;
    }
  }

  lemma SecTableMoved(x: seq<byte>, r: seq<byte>, elf: Elf, splice: nat, grow: int)
    requires HasElf(x, elf) && TablesApart(elf) && Top(elf) <= |x| && elf.secs != []
    requires EditTable(x, elf.secs, elf.h.shoff, elf.h.shentsize, SecEdit(elf.h, splice, grow)) == Some(r)
    ensures SameOutside(x, r, elf.h.shoff, ShEnd(elf))
    ensures HasElf(r, elf.(secs := MapSeq(MoveSec(splice, grow), elf.secs)))
  {
    var h := elf.h;
    SecEditOk(h, splice, grow);
    EditTableEffect(x, elf.secs, h.shoff, h.shentsize, ShSize(h.is64), SecReader(h.is64, h.little),
                    SecEdit(h, splice, grow), MoveSec(splice, grow), r, ShEnd(elf));
    SecsEdited(x, r, elf, MapSeq(MoveSec(splice, grow), elf.secs));
  }

  /** `e_shoff` itself moves only when there is no section table before the splice. */
  lemma ShoffMoved(x: seq<byte>, r: seq<byte>, elf: Elf, splice: nat, grow: int)
    requires HasElf(x, elf) && TablesApart(elf) && Top(elf) <= |x| && Top(elf) <= splice
    requires MoveShoff(x, elf.h, splice, grow) == Some(r)
    ensures SameTail(x, r, Top(elf))
    ensures HasElf(r, elf.(h := elf.h.(shoff := Moved(elf.h.shoff, splice, grow))))
  {
    var shoff, m := elf.h.shoff, Moved(elf.h.shoff, splice, grow);
    if shoff > splice {
      NoSecTable(elf, splice);
      ShoffRewritten(x, r, elf, shoff + grow, m);
    } else {
      SameShoff(elf, m);
    }
  }

  lemma SameShoff(elf: Elf, shoff: nat)
    requires shoff == elf.h.shoff
    ensures elf.(h := elf.h.(shoff := shoff)) == elf
  {
  }

  lemma ShoffRewritten(x: seq<byte>, r: seq<byte>, elf: Elf, v: int, m: nat)
    requires HasElf(x, elf) && TablesApart(elf) && Top(elf) <= |x| && elf.secs == [] && elf.h.shoff != 0
    requires WriteField(x, EShoffField(elf.h.is64).off, EShoffField(elf.h.is64).size, v, elf.h.little) == Some(r)
    requires 0 <= v ==> m == v
    ensures SameTail(x, r, Top(elf)) && HasElf(r, elf.(h := elf.h.(shoff := m)))
  {
    ShoffWritten(x, elf.h, v, r);
    SameTailFrom(x, r, 0, EhSize(elf.h.is64), Top(elf));
    ShoffEdited(x, r, elf, m);
  }

  /** A section table is before the splice, or there is none. */
  lemma NoSecTable(elf: Elf, splice: nat)
    requires TablesApart(elf) && Top(elf) <= splice < elf.h.shoff
    ensures elf.secs == []
  {
  }

  lemma ShoffEdited(x: seq<byte>, r: seq<byte>, elf: Elf, shoff: nat)
    requires HasElf(x, elf) && TablesApart(elf) && Top(elf) <= |x| && elf.secs == [] && elf.h.shoff != 0
    requires SameOutside(x, r, 0, EhSize(elf.h.is64)) && ReadHeader(r) == Some(elf.h.(shoff := shoff))
    ensures HasElf(r, elf.(h := elf.h.(shoff := shoff)))
  {
    var h, n := elf.h, EhSize(elf.h.is64);
    TailSlice(x, r, 0, n);
    TableLocal(x, r, n, |x|, h.phoff, h.phentsize, PhSize(h.is64), SegReader(h.is64, h.little), elf.segs);
  }

  lemma TailSlice(x: seq<byte>, r: seq<byte>, lo: nat, hi: nat)
    requires SameOutside(x, r, lo, hi)
    ensures x[hi..|x|] == r[hi..|x|]
  {
  }

  lemma ShoffWritten(x: seq<byte>, h: Header, v: int, r: seq<byte>)
    requires ReadHeader(x) == Some(h)
    requires WriteField(x, EShoffField(h.is64).off, EShoffField(h.is64).size, v, h.little) == Some(r)
    ensures 0 <= v && SameOutside(x, r, 0, EhSize(h.is64))
    ensures ReadHeader(r) == Some(h.(shoff := v))
  {
    var f, n := EShoffField(h.is64), EhSize(h.is64);
    FieldWritten(x, 0, n, f, v, h.little, r);
    var old_, new_ := x[0..n], r[0..n];
    assert old_ == x[..n] && new_ == r[..n];
    HeaderFieldWritten(old_, new_, h.is64, h.little, v);
    IdentKept(x, r, f.off) by {
      SubSlice(new_, old_, 0, f.off, 0, f.off);
      assert x[..f.off] == old_[..f.off] && r[..f.off] == new_[..f.off];
    }
  }

  lemma IdentKept(x: seq<byte>, r: seq<byte>, n: nat)
    requires 6 <= n <= |x| && n <= |r| && x[..n] == r[..n]
    ensures x[..4] == r[..4] && x[4] == r[4] && x[5] == r[5]
  {
    SubSlice(x, r, 0, n, 0, 4);
    assert x[4] == x[..n][4] && r[4] == r[..n][4] && x[5] == x[..n][5] && r[5] == r[..n][5];
  }

  lemma HeaderFieldWritten(old_: seq<byte>, new_: seq<byte>, is64: bool, little: bool, v: nat)
    requires |old_| == EhSize(is64)
    requires SameOutside(old_, new_, EShoffField(is64).off, EShoffField(is64).off + EShoffField(is64).size)
    requires GetField(new_, EShoffField(is64), little) == v
    ensures HeaderOf(new_, is64, little) == HeaderOf(old_, is64, little).(shoff := v)
  {
    var f := EShoffField(is64);
    OtherField(old_, new_, f, EPhoffField(is64), little);
    OtherField(old_, new_, f, EPhentsizeField(is64), little);
    OtherField(old_, new_, f, EPhnumField(is64), little);
    OtherField(old_, new_, f, EShentsizeField(is64), little);
    OtherField(old_, new_, f, EShnumField(is64), little);
  }

  /** Both size fields of one entry. */
  lemma EntrySizes(x: seq<byte>, y: seq<byte>, r: seq<byte>, p: nat, h: Header, size: nat, s: Seg)
    requires PhSize(h.is64) <= h.phentsize && p + h.phentsize <= |x|
    requires SegReader(h.is64, h.little)(x[p..p + PhSize(h.is64)]) == s
    requires WriteField(x, p + PhFileszField(h.is64).off, PhFileszField(h.is64).size, size, h.little) == Some(y)
    requires WriteField(y, p + PhMemszField(h.is64).off, PhMemszField(h.is64).size, size, h.little) == Some(r)
    ensures SameOutside(x, r, p, p + h.phentsize)
    ensures SegReader(h.is64, h.little)(r[p..p + PhSize(h.is64)]) == s.(filesz := size, memsz := size)
  {
    var n, read := PhSize(h.is64), SegReader(h.is64, h.little);
    FileszWritten(x, p, h.is64, h.little, s, size, y);
    MemszWritten(y, p, h.is64, h.little, s.(filesz := size), size, r);
    BothSizes(x, y, r, p, n, h.phentsize, read, s, size);
  }

  lemma BothSizes(x: seq<byte>, y: seq<byte>, r: seq<byte>, p: nat, n: nat, ent: nat, read: seq<byte> -> Seg,
                  s: Seg, size: nat)
    requires n <= ent && p + ent <= |x| && read(x[p..p + n]) == s
    requires EditedAt(x, y, p, n, read, s.(filesz := size))
    requires EditedAt(y, r, p, n, read, s.(filesz := size).(memsz := size))
    ensures SameOutside(x, r, p, p + ent)
    ensures read(r[p..p + n]) == s.(filesz := size, memsz := size)
  {
    SameOutsideWiden(x, y, p, p + n, p, p + ent);
    SameOutsideWiden(y, r, p, p + n, p, p + ent);
  }

  /** `p_filesz` and `p_memsz` of segment `t`. */
  lemma SizesSet(x: seq<byte>, r: seq<byte>, elf: Elf, t: nat, size: nat)
    requires HasElf(x, elf) && TablesApart(elf) && Top(elf) <= |x| && t < |elf.segs|
    requires WriteSizes(x, elf.h, t, size) == Some(r)
    ensures SameOutside(x, r, elf.h.phoff, PhEnd(elf))
    ensures HasElf(r, elf.(segs := elf.segs[t := elf.segs[t].(filesz := size, memsz := size)]))
  {
    var h, new_ := elf.h, elf.segs[t].(filesz := size, memsz := size);
    SizesTable(x, r, h, elf.segs, t, size, new_, PhEnd(elf));
    SegsEdited(x, r, elf, elf.segs[t := new_]);
  }

  lemma SizesTable(x: seq<byte>, r: seq<byte>, h: Header, segs: seq<Seg>, t: nat, size: nat, new_: Seg, end: nat)
    requires PhSize(h.is64) <= h.phentsize && HasSegs(x, h, segs) && t < |segs|
    requires end == EntryPos(h.phoff, h.phentsize, |segs|) <= |x|
    requires new_ == segs[t].(filesz := size, memsz := size) && WriteSizes(x, h, t, size) == Some(r)
    ensures SameOutside(x, r, h.phoff, end) && HasSegs(r, h, segs[t := new_])
  {
    SizesWritten(x, r, h, segs, t, size, end);
    EntryEdited(x, r, h.phoff, h.phentsize, PhSize(h.is64), SegReader(h.is64, h.little), segs, t, new_, end);
  }

  lemma SizesWritten(x: seq<byte>, r: seq<byte>, h: Header, segs: seq<Seg>, t: nat, size: nat, end: nat)
    requires PhSize(h.is64) <= h.phentsize && HasSegs(x, h, segs) && t < |segs|
    requires end == EntryPos(h.phoff, h.phentsize, |segs|) <= |x| && WriteSizes(x, h, t, size) == Some(r)
    ensures var p := EntryPos(h.phoff, h.phentsize, t);
            && p + h.phentsize <= end
            && SameOutside(x, r, p, p + h.phentsize)
            && SegReader(h.is64, h.little)(r[p..p + PhSize(h.is64)]) == segs[t].(filesz := size, memsz := size)
  {
    var p := EntryPlace(x, h, segs, t, end);
    EntryWritten(x, r, p, h, t, size, segs[t]);
  }

  lemma EntryPlace(x: seq<byte>, h: Header, segs: seq<Seg>, t: nat, end: nat) returns (p: nat)
    requires PhSize(h.is64) <= h.phentsize && HasSegs(x, h, segs) && t < |segs|
    requires end == EntryPos(h.phoff, h.phentsize, |segs|) <= |x|
    ensures p == EntryPos(h.phoff, h.phentsize, t) && p + h.phentsize <= end
    ensures SegReader(h.is64, h.little)(x[p..p + PhSize(h.is64)]) == segs[t]
  {
    p := EntryPos(h.phoff, h.phentsize, t);
    EntryAt(x, h.phoff, h.phentsize, PhSize(h.is64), SegReader(h.is64, h.little), segs, t);
  }

  lemma EntryWritten(x: seq<byte>, r: seq<byte>, p: nat, h: Header, t: nat, size: nat, s: Seg)
    requires PhSize(h.is64) <= h.phentsize && p + h.phentsize <= |x| && p == EntryPos(h.phoff, h.phentsize, t)
    requires SegReader(h.is64, h.little)(x[p..p + PhSize(h.is64)]) == s && WriteSizes(x, h, t, size) == Some(r)
    ensures SameOutside(x, r, p, p + h.phentsize)
    ensures SegReader(h.is64, h.little)(r[p..p + PhSize(h.is64)]) == s.(filesz := size, memsz := size)
  {
    var y := SizeStages(x, h, t, p, size, r);
    EntrySizes(x, y, r, p, h, size, s);
  }

  lemma SizeStages(x: seq<byte>, h: Header, t: nat, p: nat, size: nat, r: seq<byte>) returns (y: seq<byte>)
    requires WriteSizes(x, h, t, size) == Some(r) && p == EntryPos(h.phoff, h.phentsize, t)
    ensures WriteField(x, p + PhFileszField(h.is64).off, PhFileszField(h.is64).size, size, h.little) == Some(y)
    ensures WriteField(y, p + PhMemszField(h.is64).off, PhMemszField(h.is64).size, size, h.little) == Some(r)
  {
    y := WritePhField(x, h, t, PhFileszField(h.is64), size).value;
  }
}
