// What becomes of a section header table that stands behind the splice: its
// entries are written where the table was, not where it has moved to.
module StaleSections {
  import opened Bytes
  import opened Tables
  import opened ElfImage
  import opened ElfSplice
  import opened Resize

  /** `edit` changes nothing outside the entry it is given. */
  ghost predicate Confined<T(!new)>(size: nat, edit: (seq<byte>, nat, T) -> Option<seq<byte>>) {
    forall raw: seq<byte>, pos: nat, x: T ::
      pos + size <= |raw| && edit(raw, pos, x).Some? ==> SameOutside(raw, edit(raw, pos, x).value, pos, pos + size)
  }

  lemma {:induction false} EditTableWithin<T(!new)>(
    raw: seq<byte>, items: seq<T>, pos: nat, ent: nat, size: nat,
    edit: (seq<byte>, nat, T) -> Option<seq<byte>>, r: seq<byte>, end: nat)
    requires size <= ent && end == EntryPos(pos, ent, |items|) && pos <= end <= |raw|
    requires Confined(size, edit) && EditTable(raw, items, pos, ent, edit) == Some(r)
    ensures SameOutside(raw, r, pos, end)
    decreases items
  {
    if items != [] {
      var next := pos + ent;
      EntryPosGrows(next, ent, |items| - 1);
      var x := edit(raw, pos, items[0]).value;
      assert SameOutside(raw, x, pos, pos + size);
      SameOutsideWiden(raw, x, pos, pos + size, pos, next);
      EditTableWithin(x, items[1..], next, ent, size, edit, r, end);
      SameOutsideTrans(raw, x, r, pos, next, end);
    }
  }

  lemma SegEditConfined(h: Header, splice: nat, grow: int)
    ensures Confined(PhSize(h.is64), SegEdit(h, splice, grow))
  {
    var size, edit, f := PhSize(h.is64), SegEdit(h, splice, grow), PhOffsetField(h.is64);
    forall raw: seq<byte>, pos: nat, s: Seg | pos + size <= |raw| && edit(raw, pos, s).Some?
      ensures SameOutside(raw, edit(raw, pos, s).value, pos, pos + size)
    {
      if s.offset > splice {
        FieldWritten(raw, pos, size, f, s.offset + grow, h.little, edit(raw, pos, s).value);
      }
    }
  }

  lemma SecEditConfined(h: Header, splice: nat, grow: int)
    ensures Confined(ShSize(h.is64), SecEdit(h, splice, grow))
  {
    var size, edit, f := ShSize(h.is64), SecEdit(h, splice, grow), ShOffsetField(h.is64);
    forall raw: seq<byte>, pos: nat, x: nat | pos + size <= |raw| && edit(raw, pos, x).Some?
      ensures SameOutside(raw, edit(raw, pos, x).value, pos, pos + size)
    {
      if x > splice {
        FieldWritten(raw, pos, size, f, x + grow, h.little, edit(raw, pos, x).value);
      }
    }
  }

  /** A table and its copy `d` bytes further on hold the same entries. */
  lemma {:induction false} TableShifted<T>(s: seq<byte>, t: seq<byte>, d: nat, pos: nat, ent: nat, size: nat,
                                           read: seq<byte> -> T, items: seq<T>, end: nat)
    requires size <= ent && end == EntryPos(pos, ent, |items|) && pos <= end <= |s| && end + d <= |t|
    requires s[pos..end] == t[pos + d..end + d] && HasTable(s, pos, ent, size, read, items)
    ensures HasTable(t, pos + d, ent, size, read, items)
    decreases items
  {
    if items != [] {
      EntryPosGrows(pos + ent, ent, |items| - 1);
      PartOfCopy(s, pos, t, pos + d, end - pos, ent, end - pos - ent);
      PartOfCopy(s, pos, t, pos + d, end - pos, 0, size);
      TableShifted(s, t, d, pos + ent, ent, size, read, items[1..], end);
    }
  }

  /** A section table behind the spliced segment of a file. */
  predicate TableBehind(elf: Elf, splice: nat, end: nat, n: nat) {
    && elf.secs != [] && PhSize(elf.h.is64) <= elf.h.phentsize && ShSize(elf.h.is64) <= elf.h.shentsize
    && EhSize(elf.h.is64) <= elf.h.phoff <= PhEnd(elf) <= splice
    && splice < end <= elf.h.shoff <= ShEnd(elf) <= n
  }

  lemma GrowthParts(img: seq<byte>, elf: Elf, splice: nat, grow: int, r: seq<byte>)
    returns (a: seq<byte>, b: seq<byte>)
    requires UpdateForGrowth(img, elf, splice, grow) == Some(r) && splice < elf.h.shoff
    ensures EditTable(img, elf.segs, elf.h.phoff, elf.h.phentsize, SegEdit(elf.h, splice, grow)) == Some(a)
    ensures EditTable(a, elf.secs, elf.h.shoff, elf.h.shentsize, SecEdit(elf.h, splice, grow)) == Some(b)
    ensures var f := EShoffField(elf.h.is64);
            WriteField(b, f.off, f.size, elf.h.shoff + grow, elf.h.little) == Some(r)
  {
    a := EditTable(img, elf.segs, elf.h.phoff, elf.h.phentsize, SegEdit(elf.h, splice, grow)).value;
    b := EditTable(a, elf.secs, elf.h.shoff, elf.h.shentsize, SecEdit(elf.h, splice, grow)).value;
  }

  /** The writes leave alone what is behind the old place of the table ... */
  lemma TailKept(img: seq<byte>, elf: Elf, splice: nat, end: nat, n: nat, grow: nat, r: seq<byte>,
                 a: seq<byte>, b: seq<byte>)
    requires TableBehind(elf, splice, end, n) && n <= |img| && ReadHeader(b) == Some(elf.h)
    requires SameOutside(img, a, elf.h.phoff, PhEnd(elf)) && SameOutside(a, b, elf.h.shoff, ShEnd(elf))
    requires var f := EShoffField(elf.h.is64);
             WriteField(b, f.off, f.size, elf.h.shoff + grow, elf.h.little) == Some(r)
    ensures SameTail(img, r, ShEnd(elf)) && ReadHeader(r) == Some(elf.h.(shoff := elf.h.shoff + grow))
  {
    ShoffWritten(b, elf.h, elf.h.shoff + grow, r);
    TailThrough(img, a, b, r, elf.h.phoff, PhEnd(elf), elf.h.shoff, ShEnd(elf), EhSize(elf.h.is64));
  }

  lemma HeaderThrough(img: seq<byte>, a: seq<byte>, b: seq<byte>, h: Header, phEnd: nat, shEnd: nat)
    requires ReadHeader(img) == Some(h) && EhSize(h.is64) <= h.phoff && EhSize(h.is64) <= h.shoff
    requires SameOutside(img, a, h.phoff, phEnd) && SameOutside(a, b, h.shoff, shEnd)
    ensures ReadHeader(b) == Some(h)
  {
    HeaderKept(img, a, h, h.phoff, phEnd);
    HeaderKept(a, b, h, h.shoff, shEnd);
  }

  /** ... and move `e_shoff`. */
  lemma WritesInFront(img: seq<byte>, elf: Elf, splice: nat, end: nat, n: nat, grow: nat, r: seq<byte>)
    requires TableBehind(elf, splice, end, n) && n <= |img| && ReadHeader(img) == Some(elf.h)
    requires UpdateForGrowth(img, elf, splice, grow) == Some(r)
    ensures SameTail(img, r, ShEnd(elf)) && ReadHeader(r) == Some(elf.h.(shoff := elf.h.shoff + grow))
  {
    var a, b := GrowthParts(img, elf, splice, grow, r);
    BothWithin(img, elf, splice, end, n, grow, a, b);
    HeaderThrough(img, a, b, elf.h, PhEnd(elf), ShEnd(elf));
    TailKept(img, elf, splice, end, n, grow, r, a, b);
  }

  lemma BothWithin(img: seq<byte>, elf: Elf, splice: nat, end: nat, n: nat, grow: nat, a: seq<byte>, b: seq<byte>)
    requires TableBehind(elf, splice, end, n) && n <= |img|
    requires EditTable(img, elf.segs, elf.h.phoff, elf.h.phentsize, SegEdit(elf.h, splice, grow)) == Some(a)
    requires EditTable(a, elf.secs, elf.h.shoff, elf.h.shentsize, SecEdit(elf.h, splice, grow)) == Some(b)
    ensures SameOutside(img, a, elf.h.phoff, PhEnd(elf)) && SameOutside(a, b, elf.h.shoff, ShEnd(elf))
  {
    SegsWithin(img, elf, splice, grow, a);
    SecsWithin(a, elf, splice, grow, b);
  }

  lemma SegsWithin(img: seq<byte>, elf: Elf, splice: nat, grow: nat, a: seq<byte>)
    requires PhSize(elf.h.is64) <= elf.h.phentsize && elf.h.phoff <= PhEnd(elf) <= |img|
    requires EditTable(img, elf.segs, elf.h.phoff, elf.h.phentsize, SegEdit(elf.h, splice, grow)) == Some(a)
    ensures SameOutside(img, a, elf.h.phoff, PhEnd(elf))
  {
    SegEditConfined(elf.h, splice, grow);
    EditTableWithin(img, elf.segs, elf.h.phoff, elf.h.phentsize, PhSize(elf.h.is64),
                    SegEdit(elf.h, splice, grow), a, PhEnd(elf));
  }

  lemma SecsWithin(a: seq<byte>, elf: Elf, splice: nat, grow: nat, b: seq<byte>)
    requires ShSize(elf.h.is64) <= elf.h.shentsize && elf.h.shoff <= ShEnd(elf) <= |a|
    requires EditTable(a, elf.secs, elf.h.shoff, elf.h.shentsize, SecEdit(elf.h, splice, grow)) == Some(b)
    ensures SameOutside(a, b, elf.h.shoff, ShEnd(elf))
  {
    SecEditConfined(elf.h, splice, grow);
    EditTableWithin(a, elf.secs, elf.h.shoff, elf.h.shentsize, ShSize(elf.h.is64),
                    SecEdit(elf.h, splice, grow), b, ShEnd(elf));
  }

  lemma HeaderKept(x: seq<byte>, y: seq<byte>, h: Header, lo: nat, hi: nat)
    requires ReadHeader(x) == Some(h) && SameOutside(x, y, lo, hi) && EhSize(h.is64) <= lo
    ensures ReadHeader(y) == Some(h)
  {
    HeaderLocal(x, y, h, lo);
  }

  lemma TailThrough(img: seq<byte>, a: seq<byte>, b: seq<byte>, r: seq<byte>,
                    lo: nat, hi: nat, lo': nat, hi': nat, n: nat)
    requires SameOutside(img, a, lo, hi) && SameOutside(a, b, lo', hi') && SameOutside(b, r, 0, n)
    requires hi <= hi' && n <= hi'
    ensures SameTail(img, r, hi')
  {
    SameTailFrom(img, a, lo, hi, hi');
    SameTailFrom(a, b, lo', hi', hi');
    SameTailFrom(b, r, 0, n, hi');
    SameTailTrans(img, a, b, hi');
    SameTailTrans(img, b, r, hi');
  }

  lemma TableMoved(raw: seq<byte>, img: seq<byte>, elf: Elf, splice: nat, orig: nat, new_: seq<byte>, grow: nat)
    requires HasSecs(raw, elf.h, elf.secs) && TableBehind(elf, splice, splice + orig, |raw|)
    requires Relaid(raw, img, splice, orig, new_, grow)
    ensures HasTable(img, elf.h.shoff + grow, elf.h.shentsize, ShSize(elf.h.is64), SecReader(elf.h.is64, elf.h.little), elf.secs)
    ensures img[elf.h.shoff + grow..ShEnd(elf) + grow] == raw[elf.h.shoff..ShEnd(elf)]
  {
    var base := splice + orig;
    assert raw[base..] == raw[base..|raw|];
    PartOfCopy(raw, base, img, base + grow, |raw| - base, elf.h.shoff - base, ShEnd(elf) - elf.h.shoff);
    TableShifted(raw, img, grow, elf.h.shoff, elf.h.shentsize, ShSize(elf.h.is64),
                 SecReader(elf.h.is64, elf.h.little), elf.secs, ShEnd(elf));
  }

  /** When the table has moved by at least its own length, `e_shoff` finds it in its new
      place with every `sh_offset` as it was before the splice: no section has followed
      its contents. */
  lemma SectionsLeftBehind(raw: seq<byte>, img: seq<byte>, elf: Elf, splice: nat, orig: nat, new_: seq<byte>,
                           grow: nat, r: seq<byte>)
    requires HasElf(raw, elf) && TableBehind(elf, splice, splice + orig, |raw|)
    requires Relaid(raw, img, splice, orig, new_, grow) && ShEnd(elf) <= elf.h.shoff + grow
    requires UpdateForGrowth(img, elf, splice, grow) == Some(r)
    ensures ReadHeader(r) == Some(elf.h.(shoff := elf.h.shoff + grow))
    ensures HasSecs(r, elf.h.(shoff := elf.h.shoff + grow), elf.secs)
  {
    HeaderLocal(raw, img, elf.h, splice);
    WritesInFront(img, elf, splice, splice + orig, |raw|, grow, r);
    TableMoved(raw, img, elf, splice, orig, new_, grow);
    TableStays(img, r, elf, grow);
  }

  lemma TableStays(img: seq<byte>, r: seq<byte>, elf: Elf, grow: nat)
    requires SameTail(img, r, ShEnd(elf)) && ShEnd(elf) <= elf.h.shoff + grow && elf.h.shoff <= ShEnd(elf)
    requires ShEnd(elf) + grow <= |img| && ShSize(elf.h.is64) <= elf.h.shentsize
    requires HasTable(img, elf.h.shoff + grow, elf.h.shentsize, ShSize(elf.h.is64),
                      SecReader(elf.h.is64, elf.h.little), elf.secs)
    ensures HasSecs(r, elf.h.(shoff := elf.h.shoff + grow), elf.secs)
  {
    var h := elf.h;
    TailSame(img, r, ShEnd(elf), h.shoff + grow, ShEnd(elf) + grow);
    EntryPosShift(h.shoff, h.shentsize, |elf.secs|, grow);
    TableLocal(img, r, h.shoff + grow, ShEnd(elf) + grow, h.shoff + grow, h.shentsize, ShSize(h.is64),
               SecReader(h.is64, h.little), elf.secs);
  }

  lemma TailSame(x: seq<byte>, r: seq<byte>, n: nat, lo: nat, hi: nat)
    requires SameTail(x, r, n) && n <= lo <= hi <= |x|
    ensures x[lo..hi] == r[lo..hi]
  {
    SubSlice(x, r, n, |x|, lo, hi);
  }

  lemma {:induction false} EntryPosShift(pos: nat, ent: nat, i: nat, d: nat)
    ensures EntryPos(pos + d, ent, i) == EntryPos(pos, ent, i) + d
    decreases i
  {
    if i > 0 {
      EntryPosShift(pos + ent, ent, i - 1, d);
    }
  }
}
