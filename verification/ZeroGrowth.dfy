// Writing a size that is already there: when the header writes of a patch
// step that does not change the segment's size leave the headers alone.
module ZeroGrowth {
  import opened Bytes
  import opened Tables
  import opened ElfImage
  import opened ElfSplice

  lemma EncodeDecoded(s: seq<byte>, little: bool)
    ensures Encode(Decode(s, little), |s|, little) == s
    ensures Decode(s, little) < Pow256(|s|)
  {
    if little {
      FromLeRoundTrip(s);
      FromLeBound(s);
    } else {
      FromBeRoundTrip(s);
      FromBeBound(s);
    }
  }

  lemma PutSame(raw: seq<byte>, pos: nat, w: nat)
    requires pos + w <= |raw|
    ensures Put(raw, pos, raw[pos..pos + w]) == raw
  {
  }

  /** Writing a field's own value changes nothing. */
  lemma SameValueWritten(raw: seq<byte>, pos: nat, size: nat, f: Field, v: nat, little: bool)
    requires pos + size <= |raw| && f.off + f.size <= size
    requires GetField(raw[pos..pos + size], f, little) == v
    ensures WriteField(raw, pos + f.off, f.size, v, little) == Some(raw)
  {
    var s := FieldBytes(raw, pos, size, f);
    EncodeDecoded(s, little);
    PutSame(raw, pos + f.off, f.size);
  }

  lemma FieldBytes(raw: seq<byte>, pos: nat, size: nat, f: Field) returns (s: seq<byte>)
    requires pos + size <= |raw| && f.off + f.size <= size
    ensures s == raw[pos + f.off..pos + f.off + f.size] == Slice(raw[pos..pos + size], f.off, f.off + f.size)
  {
    var entry := raw[pos..pos + size];
    s := raw[pos + f.off..pos + f.off + f.size];
    PartOfCopy(raw, pos, entry, 0, size, f.off, f.size);
  }

  lemma SizeFieldsOf(x: seq<byte>, p: nat, h: Header, s: Seg)
    requires p + PhSize(h.is64) <= |x| && SegReader(h.is64, h.little)(x[p..p + PhSize(h.is64)]) == s
    ensures GetField(x[p..p + PhSize(h.is64)], PhFileszField(h.is64), h.little) == s.filesz
    ensures GetField(x[p..p + PhSize(h.is64)], PhMemszField(h.is64), h.little) == s.memsz
  {
  }

  lemma SizesUnchanged(x: seq<byte>, elf: Elf, t: nat, size: nat)
    requires HasElf(x, elf) && TablesApart(elf) && t < |elf.segs|
    requires elf.segs[t].filesz == size && elf.segs[t].memsz == size
    ensures WriteSizes(x, elf.h, t, size) == Some(x)
  {
    var h := elf.h;
    EntryAt(x, h.phoff, h.phentsize, PhSize(h.is64), SegReader(h.is64, h.little), elf.segs, t);
    EntryUnchanged(x, h, t, EntryPos(h.phoff, h.phentsize, t), elf.segs[t], size);
  }

  lemma EntryUnchanged(x: seq<byte>, h: Header, t: nat, p: nat, s: Seg, size: nat)
    requires p == EntryPos(h.phoff, h.phentsize, t) && p + PhSize(h.is64) <= |x|
    requires SegReader(h.is64, h.little)(x[p..p + PhSize(h.is64)]) == s && s.filesz == size && s.memsz == size
    ensures WriteSizes(x, h, t, size) == Some(x)
  {
    SizeFieldsOf(x, p, h, s);
    SameValueWritten(x, p, PhSize(h.is64), PhFileszField(h.is64), size, h.little);
    SameValueWritten(x, p, PhSize(h.is64), PhMemszField(h.is64), size, h.little);
  }

  lemma OneView(x: seq<byte>, a: Elf, b: Elf)
    requires HasElf(x, a) && HasElf(x, b)
    ensures a == b
  {
    ParseIff(x, a);
    ParseIff(x, b);
  }

  /** Writing the sizes of a segment leaves the image alone exactly when both the file
      and the memory size are already what is written. */
  lemma SizesUnchangedIff(x: seq<byte>, r: seq<byte>, elf: Elf, t: nat, size: nat)
    requires HasElf(x, elf) && TablesApart(elf) && Top(elf) <= |x| && t < |elf.segs|
    requires WriteSizes(x, elf.h, t, size) == Some(r)
    ensures r == x <==> elf.segs[t].filesz == size && elf.segs[t].memsz == size
  {
    if elf.segs[t].filesz == size && elf.segs[t].memsz == size {
      SizesUnchanged(x, elf, t, size);
    } else if r == x {
      SizesSet(x, r, elf, t, size);
      OneView(x, elf, elf.(segs := elf.segs[t := elf.segs[t].(filesz := size, memsz := size)]));
    }
  }

  /** The same, seen through a segment that holds the program headers. */
  lemma HeadUnchangedIff(x: seq<byte>, r: seq<byte>, elf: Elf, t: nat, size: nat, ph0: Seg)
    requires HasElf(x, elf) && TablesApart(elf) && Top(elf) <= |x| && t < |elf.segs|
    requires WriteSizes(x, elf.h, t, size) == Some(r)
    requires ph0.offset <= elf.h.phoff && PhEnd(elf) <= ph0.End()
    ensures SegData(r, ph0) == SegData(x, ph0) <==> elf.segs[t].filesz == size && elf.segs[t].memsz == size
  {
    SizesUnchangedIff(x, r, elf, t, size);
    SizesSet(x, r, elf, t, size);
    SameThrough(x, r, elf.h.phoff, PhEnd(elf), ph0);
  }

  lemma SameThrough(x: seq<byte>, r: seq<byte>, lo: nat, hi: nat, s: Seg)
    requires SameOutside(x, r, lo, hi) && s.offset <= lo && hi <= s.End()
    ensures SegData(r, s) == SegData(x, s) <==> r == x
  {
    if SegData(r, s) == SegData(x, s) {
      var a, b := s.offset, Min(s.End(), |x|);
      SubSlice(r, x, a, b, lo, hi);
      assert r == r[..lo] + r[lo..hi] + r[hi..];
      assert x == x[..lo] + x[lo..hi] + x[hi..];
    }
  }
}
