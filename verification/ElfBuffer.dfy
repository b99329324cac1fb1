// The mutable image and the patcher's writes into it. Every write is described
// twice: as a function of the bytes, and by what the image parses to afterwards.
module ElfBuffer {
  import opened Bytes
  import opened Tables
  import opened ElfImage
  import opened ElfSplice
  import opened Resize

  /** The image parses to `elf`, whose header tables are in order and lie in the file. */
  predicate Shows(raw: seq<byte>, elf: Elf) {
    ParseElf(raw) == Some(elf) && TablesApart(elf) && Top(elf) <= |raw|
  }

  /** The bytes of a field after a write, and that no others have changed. */
  predicate FieldIsNow(raw: seq<byte>, r: seq<byte>, pos: nat, w: nat, v: int, little: bool) {
    pos + w <= |raw| ==> SameOutside(raw, r, pos, pos + w) && Decode(r[pos..pos + w], little) == v
  }

  lemma Written(raw: seq<byte>, pos: nat, w: nat, v: int, little: bool, r: seq<byte>)
    requires WriteField(raw, pos, w, v, little) == Some(r)
    ensures FieldIsNow(raw, r, pos, w, v, little)
  {
    if pos + w <= |raw| {
      WritePlaces(raw, pos, w, v, little, r);
    }
  }

  lemma SegsShown(x: seq<byte>, elf: Elf, splice: nat, grow: int, r: seq<byte>)
    requires Shows(x, elf)
    requires EditTable(x, elf.segs, elf.h.phoff, elf.h.phentsize, SegEdit(elf.h, splice, grow)) == Some(r)
    ensures SameOutside(x, r, elf.h.phoff, PhEnd(elf))
    ensures ParseElf(r) == Some(elf.(segs := MapSeq(MoveSeg(splice, grow), elf.segs)))
  {
    ParseIff(x, elf);
    SegsMoved(x, r, elf, splice, grow);
    ParseIff(r, elf.(segs := MapSeq(MoveSeg(splice, grow), elf.segs)));
  }

  lemma SecsShown(x: seq<byte>, elf: Elf, splice: nat, grow: int, r: seq<byte>)
    requires Shows(x, elf)
    requires EditTable(x, elf.secs, elf.h.shoff, elf.h.shentsize, SecEdit(elf.h, splice, grow)) == Some(r)
    ensures SameTail(x, r, Top(elf))
    ensures ParseElf(r) == Some(elf.(secs := MapSeq(MoveSec(splice, grow), elf.secs)))
  {
    ParseIff(x, elf);
    SecsMoved(x, r, elf, splice, grow);
    ParseIff(r, elf.(secs := MapSeq(MoveSec(splice, grow), elf.secs)));
  }

  lemma GrowthShown(x: seq<byte>, elf: Elf, splice: nat, grow: int, r: seq<byte>)
    requires Shows(x, elf) && Top(elf) <= splice && UpdateForGrowth(x, elf, splice, grow) == Some(r)
    ensures SameTail(x, r, Top(elf)) && ParseElf(r) == Some(MovedElf(elf, splice, grow))
  {
    ParseIff(x, elf);
    GrowthFixed(x, r, elf, splice, grow);
    ParseIff(r, MovedElf(elf, splice, grow));
  }

  /** The view with both sizes of segment `t` set. */
  function Sized(elf: Elf, t: nat, size: nat): Elf
    requires t < |elf.segs|
  {
    elf.(segs := elf.segs[t := elf.segs[t].(filesz := size, memsz := size)])
  }

  lemma SizesShown(x: seq<byte>, elf: Elf, t: nat, size: nat, r: seq<byte>)
    requires Shows(x, elf) && t < |elf.segs| && WriteSizes(x, elf.h, t, size) == Some(r)
    ensures SameOutside(x, r, elf.h.phoff, PhEnd(elf)) && ParseElf(r) == Some(Sized(elf, t, size))
  {
    ParseIff(x, elf);
    SizesSet(x, r, elf, t, size);
    ParseIff(r, Sized(elf, t, size));
  }

  /** A `bytearray` holding an ELF file, and the patcher's writes into it. `ok` is
      false when packing a value raises, which abandons the image. */
  class Image {
    var data: seq<byte>

    constructor (raw: seq<byte>)
      ensures data == raw
    {
      data := raw;
    }

    method Write(pos: nat, w: nat, v: int, little: bool) returns (ok: bool)
      modifies this
      ensures WriteField(old(data), pos, w, v, little) == if ok then Some(data) else None
      ensures ok <==> 0 <= v < Pow256(w)
      ensures ok ==> FieldIsNow(old(data), data, pos, w, v, little)
      ensures !ok ==> data == old(data)
    {
      ok := 0 <= v < Pow256(w);
      if ok {
        ghost var raw := data;
        data := Put(data, pos, Encode(v, w, little));
        Written(raw, pos, w, v, little, data);
      }
    }

    method WritePh(h: Header, i: nat, f: Field, v: int) returns (ok: bool)
      modifies this
      ensures WritePhField(old(data), h, i, f, v) == if ok then Some(data) else None
      ensures ok <==> 0 <= v < Pow256(f.size)
      ensures ok ==> FieldIsNow(old(data), data, h.phoff + i * h.phentsize + f.off, f.size, v, h.little)
    {
      EntryPosIsProduct(h.phoff, h.phentsize, i);
      ok := Write(h.phoff + i * h.phentsize + f.off, f.size, v, h.little);
    }

    /** Behind the header tables nothing changes; the image parses to the moved view. */
    method UpdateHeadersForGrowth(elf: Elf, splice: nat, grow: int) returns (ok: bool)
      modifies this
      ensures UpdateForGrowth(old(data), elf, splice, grow) == if ok then Some(data) else None
      ensures ok && Shows(old(data), elf) && Top(elf) <= splice ==>
                SameTail(old(data), data, Top(elf)) && ParseElf(data) == Some(MovedElf(elf, splice, grow))
    {
      ghost var raw := data;
      ok := MoveOffsets(elf, splice, grow);
      if ok && Shows(raw, elf) && Top(elf) <= splice {
        GrowthShown(raw, elf, splice, grow, data);
      }
    }

    /** Program headers, section headers, `e_shoff`. */
    method MoveOffsets(elf: Elf, splice: nat, grow: int) returns (ok: bool)
      modifies this
      ensures UpdateForGrowth(old(data), elf, splice, grow) == if ok then Some(data) else None
    {
      ok := MoveSegments(elf, splice, grow);
      if ok {
        ok := MoveSections(elf, splice, grow);
      }
      if ok && elf.h.shoff > splice {
        var f := EShoffField(elf.h.is64);
        ok := Write(f.off, f.size, elf.h.shoff + grow, elf.h.little);
      }
    }

    /** The image parses to the view with every segment behind the splice moved. */
    method MoveSegments(elf: Elf, splice: nat, grow: int) returns (ok: bool)
      modifies this
      ensures EditTable(old(data), elf.segs, elf.h.phoff, elf.h.phentsize, SegEdit(elf.h, splice, grow))
           == if ok then Some(data) else None
      ensures ok && Shows(old(data), elf) ==>
                && SameOutside(old(data), data, elf.h.phoff, PhEnd(elf))
                && ParseElf(data) == Some(elf.(segs := MapSeq(MoveSeg(splice, grow), elf.segs)))
    {
      var f := PhOffsetField(elf.h.is64);
      var pos: nat := elf.h.phoff;
      ghost var raw, edit := data, SegEdit(elf.h, splice, grow);
      ghost var goal := EditTable(data, elf.segs, pos, elf.h.phentsize, edit);
      for i := 0 to |elf.segs|
        invariant EditTable(data, elf.segs[i..], pos, elf.h.phentsize, edit) == goal
      {
        assert elf.segs[i..][1..] == elf.segs[i + 1..];
        if elf.segs[i].offset > splice {
          ok := Write(pos + f.off, f.size, elf.segs[i].offset + grow, elf.h.little);
          if !ok {
            return;
          }
        }
        pos := pos + elf.h.phentsize;
      }
      ok := true;
      if Shows(raw, elf) {
        SegsShown(raw, elf, splice, grow, data);
      }
    }

    /** The image parses to the view with every section behind the splice moved. */
    method MoveSections(elf: Elf, splice: nat, grow: int) returns (ok: bool)
      modifies this
      ensures EditTable(old(data), elf.secs, elf.h.shoff, elf.h.shentsize, SecEdit(elf.h, splice, grow))
           == if ok then Some(data) else None
      ensures ok && Shows(old(data), elf) ==>
                && SameTail(old(data), data, Top(elf))
                && ParseElf(data) == Some(elf.(secs := MapSeq(MoveSec(splice, grow), elf.secs)))
    {
      var f := ShOffsetField(elf.h.is64);
      var pos: nat := elf.h.shoff;
      ghost var raw, edit := data, SecEdit(elf.h, splice, grow);
      ghost var goal := EditTable(data, elf.secs, pos, elf.h.shentsize, edit);
      for i := 0 to |elf.secs|
        invariant EditTable(data, elf.secs[i..], pos, elf.h.shentsize, edit) == goal
      {
        assert elf.secs[i..][1..] == elf.secs[i + 1..];
        if elf.secs[i] > splice {
          ok := Write(pos + f.off, f.size, elf.secs[i] + grow, elf.h.little);
          if !ok {
            return;
          }
        }
        pos := pos + elf.h.shentsize;
      }
      ok := true;
      if Shows(raw, elf) {
        SecsShown(raw, elf, splice, grow, data);
      }
    }

    /** The image parses to the view with the two sizes set. */
    method SetSizes(elf: Elf, t: nat, size: nat) returns (ok: bool)
      modifies this
      ensures WriteSizes(old(data), elf.h, t, size) == if ok then Some(data) else None
      ensures ok && Shows(old(data), elf) && t < |elf.segs| ==>
                && SameOutside(old(data), data, elf.h.phoff, PhEnd(elf))
                && ParseElf(data) == Some(Sized(elf, t, size))
    {
      ghost var raw := data;
      ok := WritePh(elf.h, t, PhFileszField(elf.h.is64), size);
      if ok {
        ok := WritePh(elf.h, t, PhMemszField(elf.h.is64), size);
      }
      if ok && Shows(raw, elf) && t < |elf.segs| {
        SizesShown(raw, elf, t, size, data);
      }
    }
  }

  lemma HeadersShown(x: seq<byte>, elf: Elf, t: nat, splice: nat, shift: int, size: nat, r: seq<byte>)
    requires Shows(x, elf) && t < |elf.segs| && Top(elf) <= splice
    requires HeaderWrites(x, elf, t, splice, shift, size) == Some(r)
    ensures SameTail(x, r, Top(elf)) && ParseElf(r) == Some(Resized(elf, t, splice, shift, size))
  {
    HeadersParse(x, x, r, elf, t, splice, shift, size);
  }

  /** All header writes of a resizing: the image parses to the moved and resized view. */
  method FixHeaders(image: Image, elf: Elf, t: nat, splice: nat, shift: int, size: nat) returns (ok: bool)
    modifies image
    ensures HeaderWrites(old(image.data), elf, t, splice, shift, size) == if ok then Some(image.data) else None
    ensures ok && Shows(old(image.data), elf) && t < |elf.segs| && Top(elf) <= splice ==>
              && SameTail(old(image.data), image.data, Top(elf))
              && ParseElf(image.data) == Some(Resized(elf, t, splice, shift, size))
  {
    ghost var raw := image.data;
    ok := true;
    if shift != 0 {
      ok := image.UpdateHeadersForGrowth(elf, splice, shift);
    }
    if ok {
      ok := image.SetSizes(elf, t, size);
    }
    if ok && Shows(raw, elf) && t < |elf.segs| && Top(elf) <= splice {
      HeadersShown(raw, elf, t, splice, shift, size, image.data);
    }
  }
}
