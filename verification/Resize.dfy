// Changing the size of one segment: the header writes taken together, and
// what every segment holds afterwards.
module Resize {
  import opened Bytes
  import opened Tables
  import opened ElfImage
  import opened ElfSplice

  /** Offsets moved by `shift` (unless it is zero), then the two sizes of segment `t`. */
  function HeaderWrites(img: seq<byte>, elf: Elf, t: nat, splice: nat, shift: int, size: nat): Option<seq<byte>> {
    var a :- if shift != 0 then UpdateForGrowth(img, elf, splice, shift) else Some(img);
    WriteSizes(a, elf.h, t, size)
  }

  function MovedElf(elf: Elf, splice: nat, shift: int): Elf {
    Elf(elf.h.(shoff := Moved(elf.h.shoff, splice, shift)),
        MapSeq(MoveSeg(splice, shift), elf.segs),
        MapSeq(MoveSec(splice, shift), elf.secs))
  }

  /** The view after segment `t` has been resized and what lies behind moved. */
  function Resized(elf: Elf, t: nat, splice: nat, shift: int, size: nat): Elf
    requires t < |elf.segs|
  {
    var m := MovedElf(elf, splice, shift);
    m.(segs := m.segs[t := m.segs[t].(filesz := size, memsz := size)])
  }

  lemma ResizedAt(elf: Elf, t: nat, splice: nat, shift: int, size: nat, i: nat)
    requires t < |elf.segs| && i < |elf.segs|
    ensures var s := elf.segs[i].(offset := Moved(elf.segs[i].offset, splice, shift));
            Resized(elf, t, splice, shift, size).segs[i]
            == if i == t then s.(filesz := size, memsz := size) else s
  {
    MapSeqAt(MoveSeg(splice, shift), elf.segs, i);
  }

  // ---------------------------------------------------------------------
  // Parsing the image again
  // ---------------------------------------------------------------------

  lemma SameShape(elf: Elf, elf': Elf)
    requires TablesApart(elf) && |elf'.segs| == |elf.segs| && |elf'.secs| == |elf.secs|
    requires elf'.h == elf.h || (elf'.h == elf.h.(shoff := elf'.h.shoff) && elf.secs == [])
    ensures TablesApart(elf') && Top(elf') == Top(elf)
  {
  }

  lemma ShoffStays(elf: Elf, splice: nat, shift: int)
    requires TablesApart(elf) && Top(elf) <= splice
    ensures Moved(elf.h.shoff, splice, shift) == elf.h.shoff || elf.secs == []
  {
  }

  lemma GrowthFixed(x: seq<byte>, r: seq<byte>, elf: Elf, splice: nat, shift: int)
    requires HasElf(x, elf) && TablesApart(elf) && Top(elf) <= |x| && Top(elf) <= splice
    requires UpdateForGrowth(x, elf, splice, shift) == Some(r)
    ensures SameTail(x, r, Top(elf))
    ensures HasElf(r, MovedElf(elf, splice, shift))
  {
    var h := elf.h;
    var a := EditTable(x, elf.segs, h.phoff, h.phentsize, SegEdit(h, splice, shift)).value;
    var elf1 := elf.(segs := MapSeq(MoveSeg(splice, shift), elf.segs));
    SegsMoved(x, a, elf, splice, shift);
    SameTailFrom(x, a, h.phoff, PhEnd(elf), Top(elf));
    SameShape(elf, elf1);
    GrowthRest(a, r, elf1, splice, shift);
    SameTailTrans(x, a, r, Top(elf));
  }

  lemma GrowthRest(a: seq<byte>, r: seq<byte>, elf: Elf, splice: nat, shift: int)
    requires HasElf(a, elf) && TablesApart(elf) && Top(elf) <= |a| && Top(elf) <= splice
    requires var b := EditTable(a, elf.secs, elf.h.shoff, elf.h.shentsize, SecEdit(elf.h, splice, shift));
             b.Some? && MoveShoff(b.value, elf.h, splice, shift) == Some(r)
    ensures SameTail(a, r, Top(elf))
    ensures HasElf(r, Elf(elf.h.(shoff := Moved(elf.h.shoff, splice, shift)), elf.segs,
                         MapSeq(MoveSec(splice, shift), elf.secs)))
  {
    var b := EditTable(a, elf.secs, elf.h.shoff, elf.h.shentsize, SecEdit(elf.h, splice, shift)).value;
    var elf2 := elf.(secs := MapSeq(MoveSec(splice, shift), elf.secs));
    SecsMoved(a, b, elf, splice, shift);
    SameShape(elf, elf2);
    ShoffMoved(b, r, elf2, splice, shift);
    SameTailTrans(a, b, r, Top(elf));
  }

  lemma {:induction false} NoShift(segs: seq<Seg>, splice: nat)
    ensures MapSeq(MoveSeg(splice, 0), segs) == segs
  {
    if segs != [] {
      NoShift(segs[1..], splice);
      assert segs == [segs[0]] + segs[1..];
    }
  }

  lemma {:induction false} NoShiftSecs(secs: seq<nat>, splice: nat)
    ensures MapSeq(MoveSec(splice, 0), secs) == secs
  {
    if secs != [] {
      NoShiftSecs(secs[1..], splice);
      assert secs == [secs[0]] + secs[1..];
    }
  }

  lemma MovedByNothing(elf: Elf, splice: nat)
    ensures MovedElf(elf, splice, 0) == elf
  {
    NoShift(elf.segs, splice);
    NoShiftSecs(elf.secs, splice);
  }

  lemma OffsetsFixed(raw: seq<byte>, img: seq<byte>, a: seq<byte>, elf: Elf, splice: nat, shift: int)
    requires HasElf(raw, elf) && TablesApart(elf) && Top(elf) <= splice
    requires Top(elf) <= |raw| && Top(elf) <= |img| && raw[..Top(elf)] == img[..Top(elf)]
    requires (if shift != 0 then UpdateForGrowth(img, elf, splice, shift) else Some(img)) == Some(a)
    ensures SameTail(img, a, Top(elf)) && HasElf(a, MovedElf(elf, splice, shift))
    ensures TablesApart(MovedElf(elf, splice, shift)) && Top(MovedElf(elf, splice, shift)) == Top(elf)
  {
    ParseLocal(raw, img, elf);
    if shift != 0 {
      GrowthFixed(img, a, elf, splice, shift);
    } else {
      MovedByNothing(elf, splice);
    }
    ShoffStays(elf, splice, shift);
    SameShape(elf, MovedElf(elf, splice, shift));
  }

  lemma SizesFixed(a: seq<byte>, r: seq<byte>, m: Elf, t: nat, size: nat)
    requires HasElf(a, m) && TablesApart(m) && Top(m) <= |a| && t < |m.segs|
    requires WriteSizes(a, m.h, t, size) == Some(r)
    ensures var m' := m.(segs := m.segs[t := m.segs[t].(filesz := size, memsz := size)]);
            SameTail(a, r, Top(m)) && HasElf(r, m') && TablesApart(m') && Top(m') == Top(m)
  {
    SizesSet(a, r, m, t, size);
    SameTailFrom(a, r, m.h.phoff, PhEnd(m), Top(m));
    SameShape(m, m.(segs := m.segs[t := m.segs[t].(filesz := size, memsz := size)]));
  }

  /** After the header writes the image parses to the resized view, and no byte behind
      the headers has changed: for any shift, and with the headers before the splice. */
  lemma HeadersFixed(raw: seq<byte>, img: seq<byte>, r: seq<byte>, elf: Elf, t: nat, splice: nat, shift: int, size: nat)
    requires HasElf(raw, elf) && TablesApart(elf) && t < |elf.segs| && Top(elf) <= splice
    requires Top(elf) <= |raw| && Top(elf) <= |img| && raw[..Top(elf)] == img[..Top(elf)]
    requires HeaderWrites(img, elf, t, splice, shift, size) == Some(r)
    ensures SameTail(img, r, Top(elf))
    ensures HasElf(r, Resized(elf, t, splice, shift, size))
    ensures TablesApart(Resized(elf, t, splice, shift, size))
    ensures Top(Resized(elf, t, splice, shift, size)) == Top(elf)
  {
    var a := WriteStages(img, elf, t, splice, shift, size, r);
    OffsetsFixed(raw, img, a, elf, splice, shift);
    SizesAfterOffsets(img, a, r, elf, t, splice, shift, size);
  }

  lemma WriteStages(img: seq<byte>, elf: Elf, t: nat, splice: nat, shift: int, size: nat, r: seq<byte>)
    returns (a: seq<byte>)
    requires HeaderWrites(img, elf, t, splice, shift, size) == Some(r)
    ensures (if shift != 0 then UpdateForGrowth(img, elf, splice, shift) else Some(img)) == Some(a)
    ensures WriteSizes(a, elf.h, t, size) == Some(r)
  {
    a := if shift != 0 then UpdateForGrowth(img, elf, splice, shift).value else img;
  }

  lemma SizesAfterOffsets(img: seq<byte>, a: seq<byte>, r: seq<byte>, elf: Elf, t: nat, splice: nat, shift: int, size: nat)
    requires SameTail(img, a, Top(elf)) && HasElf(a, MovedElf(elf, splice, shift)) && t < |elf.segs|
    requires TablesApart(MovedElf(elf, splice, shift)) && Top(MovedElf(elf, splice, shift)) == Top(elf)
    requires WriteSizes(a, elf.h, t, size) == Some(r)
    ensures SameTail(img, r, Top(elf))
    ensures HasElf(r, Resized(elf, t, splice, shift, size))
    ensures TablesApart(Resized(elf, t, splice, shift, size))
    ensures Top(Resized(elf, t, splice, shift, size)) == Top(elf)
  {
    var m := MovedElf(elf, splice, shift);
    SameWrites(a, elf.h, m.h, t, size);
    SizesFixed(a, r, m, t, size);
    SameTailTrans(img, a, r, Top(elf));
  }

  /** Where the program headers are does not depend on `e_shoff`. */
  lemma SameWrites(a: seq<byte>, h: Header, k: Header, t: nat, size: nat)
    requires k == h.(shoff := k.shoff)
    ensures WriteSizes(a, h, t, size) == WriteSizes(a, k, t, size)
  {
  }

  lemma FrontSame(raw: seq<byte>, img: seq<byte>, off: nat, top: nat)
    requires top <= off <= |raw| && off <= |img| && img[..off] == raw[..off]
    ensures raw[..top] == img[..top]
  {
    SubSlice(img, raw, 0, off, 0, top);
  }

  /** The image parses to `elf`. */
  predicate IsElf(raw: seq<byte>, elf: Elf) { ParseElf(raw) == Some(elf) }

  /** The same for images that parse. */
  lemma HeadersParse(raw: seq<byte>, img: seq<byte>, r: seq<byte>, elf: Elf, t: nat, splice: nat, shift: int, size: nat)
    requires IsElf(raw, elf) && TablesApart(elf) && t < |elf.segs| && Top(elf) <= splice
    requires Top(elf) <= |raw| && Top(elf) <= |img| && raw[..Top(elf)] == img[..Top(elf)]
    requires HeaderWrites(img, elf, t, splice, shift, size) == Some(r)
    ensures SameTail(img, r, Top(elf))
    ensures IsElf(r, Resized(elf, t, splice, shift, size))
    ensures TablesApart(Resized(elf, t, splice, shift, size))
    ensures Top(Resized(elf, t, splice, shift, size)) == Top(elf)
  {
    ParseIff(raw, elf);
    HeadersFixed(raw, img, r, elf, t, splice, shift, size);
    ParseIff(r, Resized(elf, t, splice, shift, size));
  }

  /** An image with the same header bytes parses alike. */
  lemma FrontParses(s: seq<byte>, t: seq<byte>, elf: Elf)
    requires IsElf(s, elf) && TablesApart(elf) && Top(elf) <= |s| && Top(elf) <= |t|
    requires s[..Top(elf)] == t[..Top(elf)]
    ensures IsElf(t, elf)
  {
    ParseIff(s, elf);
    ParseLocal(s, t, elf);
    ParseIff(t, elf);
  }

  // ---------------------------------------------------------------------
  // What the segments hold
  // ---------------------------------------------------------------------

  /** `img` is `raw` with the `orig` bytes at `off` replaced by `new_`, and what came
      behind them `shift` bytes further on. */
  predicate Relaid(raw: seq<byte>, img: seq<byte>, off: nat, orig: nat, new_: seq<byte>, shift: int) {
    && off + orig <= |raw| && |new_| <= orig + shift && |raw| + shift <= |img|
    && img[..off] == raw[..off]
    && img[off..off + |new_|] == new_
    && img[off + orig + shift..|raw| + shift] == raw[off + orig..]
  }

  lemma TailBytes(x: seq<byte>, r: seq<byte>, top: nat, lo: nat, hi: nat)
    requires SameTail(x, r, top) && top <= lo <= hi <= |x|
    ensures r[lo..hi] == x[lo..hi]
  {
    SubSlice(r, x, top, |x|, lo, hi);
  }

  /** The resized segment holds exactly the new bytes. */
  lemma TargetHolds(raw: seq<byte>, img: seq<byte>, r: seq<byte>, top: nat,
                    off: nat, orig: nat, new_: seq<byte>, shift: int, s: Seg)
    requires Relaid(raw, img, off, orig, new_, shift) && SameTail(img, r, top) && top <= off
    requires s.offset == off && s.filesz == |new_|
    ensures SegData(r, s) == new_ && s.End() <= |r|
  {
    TailBytes(img, r, top, off, off + |new_|);
  }

  /** A segment apart from the resized one and from the headers reads back the same
      bytes through its new offset. */
  lemma OtherHolds(raw: seq<byte>, img: seq<byte>, r: seq<byte>, top: nat,
                   off: nat, orig: nat, new_: seq<byte>, shift: int, s: Seg)
    requires Relaid(raw, img, off, orig, new_, shift) && SameTail(img, r, top) && top <= off && orig > 0
    requires top <= s.offset && (s.End() <= off || off + orig <= s.offset)
    requires |img| == |raw| + shift || s.End() <= |raw|
    ensures SegData(r, s.(offset := Moved(s.offset, off, shift))) == SegData(raw, s)
  {
    if s.End() <= off {
      TailBytes(img, r, top, s.offset, s.End());
      SubSlice(img, raw, 0, off, s.offset, s.End());
    } else {
      var lo := Min(s.offset, |raw|);
      var hi := Max(lo, Min(s.End(), |raw|));
      BehindHolds(raw, img, r, top, off, orig, shift, lo, hi);
    }
  }

  lemma BehindHolds(raw: seq<byte>, img: seq<byte>, r: seq<byte>, top: nat,
                    off: nat, orig: nat, shift: int, lo: nat, hi: nat)
    requires SameTail(img, r, top) && top <= off <= off + orig + shift && off + orig <= lo <= hi <= |raw|
    requires |raw| + shift <= |img| && img[off + orig + shift..|raw| + shift] == raw[off + orig..]
    ensures r[lo + shift..hi + shift] == raw[lo..hi]
  {
    var base, n := off + orig, |raw| - off - orig;
    TailBytes(img, r, top, lo + shift, hi + shift);
    assert raw[base..] == raw[base..base + n];
    PartOfCopy(img, base + shift, raw, base, n, lo - base, hi - lo);
  }
}
