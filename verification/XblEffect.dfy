// What one call of `_replace_ph` leaves behind: the contents of every segment,
// and the agreement between metadata and program headers.
module XblEffect {
  import opened Bytes
  import opened Tables
  import opened SegmentRebuild
  import opened ElfImage
  import opened ElfSplice
  import opened Resize
  import opened DigestWrites
  import opened UefiRun
  import opened Layout
  import opened XblMetadata
  import opened XblConfig
  import opened XblReplace

  // ---------------------------------------------------------------------
  // The metadata blob
  // ---------------------------------------------------------------------

  function BlobItems(blob: seq<byte>): Option<seq<MetaItem>> {
    var h :- ParseMetaHeader(blob);
    ItemsFrom(blob, META_HEADER_SIZE, h.entries)
  }

  lemma MetaItemsOfBlob(raw: seq<byte>, elf: Elf, meta: nat)
    requires meta < |elf.segs|
    ensures MetaItems(raw, elf, meta) == BlobItems(SegData(raw, elf.segs[meta]))
  {
  }

  /** The blob with the `item_size` of item `k` overwritten, if it exists and the size fits. */
  function NewBlob(blob: seq<byte>, k: nat, size: nat): seq<byte> {
    var items := BlobItems(blob);
    if items.Some? && k < |items.value| && size < Pow256(4)
    then Put(blob, items.value[k].startOff + ITEM_SIZE_FIELD, Le(size, 4)) else blob
  }

  function NewItems(items: seq<MetaItem>, k: nat, size: nat): seq<MetaItem> {
    if k < |items| && size < Pow256(4) then items[k := WithSize(items[k], size)] else items
  }

  lemma ItemInBlob(blob: seq<byte>, items: seq<MetaItem>, k: nat)
    requires BlobItems(blob) == Some(items) && k < |items|
    ensures META_HEADER_SIZE <= items[k].startOff && items[k].startOff + 32 <= |blob|
  {
    ItemsTile(blob, META_HEADER_SIZE, ParseMetaHeader(blob).value.entries, items);
    TilesOrder(blob, items, META_HEADER_SIZE, k);
  }

  lemma HeaderKept(s: seq<byte>, t: seq<byte>, p: nat)
    requires 12 <= p && p + 4 <= |s| && SameOutside(s, t, p, p + 4)
    ensures ParseMetaHeader(t) == ParseMetaHeader(s)
  {
    NumLocal(s, t, p, p + 4, 6, 2);
    NumLocal(s, t, p, p + 4, 8, 4);
    SubSlice(s, t, 0, p, 0, 4);
    SubSlice(s, t, 0, p, 4, 5);
    SubSlice(s, t, 0, p, 5, 6);
    assert s[4..5][0] == t[4..5][0] && s[5..6][0] == t[5..6][0];
  }

  lemma SizeWritten(blob: seq<byte>, p: nat, size: nat)
    requires p + 4 <= |blob| && size < Pow256(4)
    ensures SameOutside(blob, Put(blob, p, Le(size, 4)), p, p + 4)
    ensures Num(Put(blob, p, Le(size, 4)), p, 4) == size
  {
    PutInside(blob, p, Le(size, 4));
    NumAt(Put(blob, p, Le(size, 4)), p, size, 4);
  }

  /** The new blob parses to the same items but for that size. */
  lemma NewBlobItems(blob: seq<byte>, items: seq<MetaItem>, k: nat, size: nat)
    requires BlobItems(blob) == Some(items)
    ensures |NewBlob(blob, k, size)| == |blob|
    ensures BlobItems(NewBlob(blob, k, size)) == Some(NewItems(items, k, size))
  {
    if k < |items| && size < Pow256(4) {
      var p := items[k].startOff + ITEM_SIZE_FIELD;
      ItemInBlob(blob, items, k);
      SizeWritten(blob, p, size);
      BlobOverwritten(blob, NewBlob(blob, k, size), items, k, size, p);
    }
  }

  lemma BlobOverwritten(blob: seq<byte>, new_: seq<byte>, items: seq<MetaItem>, k: nat, size: nat, p: nat)
    requires BlobItems(blob) == Some(items) && k < |items| && p == items[k].startOff + ITEM_SIZE_FIELD
    requires 12 <= p && p + 4 <= |blob| && SameOutside(blob, new_, p, p + 4) && Num(new_, p, 4) == size
    ensures BlobItems(new_) == Some(items[k := WithSize(items[k], size)])
  {
    HeaderKept(blob, new_, p);
    SizeOverwritten(blob, new_, META_HEADER_SIZE, ParseMetaHeader(blob).value.entries, items, k, size, p);
  }

  // ---------------------------------------------------------------------
  // The metadata write
  // ---------------------------------------------------------------------

  lemma PutInWindow(x: seq<byte>, lo: nat, hi: nat, blob: seq<byte>, p: nat, v: seq<byte>, y: seq<byte>)
    requires lo <= hi <= |x| && blob == x[lo..hi] && p + |v| <= |blob| && y == Put(x, lo + p, v)
    ensures |y| == |x| && y[lo..hi] == Put(blob, p, v)
  {
    var w := Put(blob, p, v);
    assert |w| == hi - lo;
    forall i | lo <= i < hi
      ensures y[i] == w[i - lo]
    {
    }
  }

  lemma PutInSegment(x: seq<byte>, s: Seg, blob: seq<byte>, p: nat, v: seq<byte>, y: seq<byte>)
    requires blob == SegData(x, s) && p + |v| <= |blob| && s.offset <= |x| && y == Put(x, s.offset + p, v)
    ensures |y| == |x| && SegData(y, s) == Put(blob, p, v)
    ensures SameOutside(x, y, Clamp(s.offset, |x|), Clamp(s.End(), |x|))
  {
    PutInWindow(x, s.offset, Min(s.End(), |x|), blob, p, v, y);
    PutWithin(x, s.offset + p, v, s.offset, Min(s.End(), |x|));
  }

  /** Where the metadata write goes, in terms of the blob. */
  lemma ItemSizePlace(raw: seq<byte>, elf: Elf, t: nat, meta: nat, blob: seq<byte>, k: nat)
    requires meta < t < |elf.segs| && blob == SegData(raw, elf.segs[meta]) && k == t - (meta + 1)
    ensures var items := BlobItems(blob);
            ItemSizePos(raw, elf, t, meta)
            == if items.None? || k >= |items.value| then None
               else Some(elf.segs[meta].offset + (items.value[k].startOff + ITEM_SIZE_FIELD))
  {
    MetaItemsOfBlob(raw, elf, meta);
  }

  /** The metadata write turns the blob into the new one and changes nothing outside. */
  lemma ItemSizeEffect(raw: seq<byte>, fixed: seq<byte>, elf: Elf, t: nat, meta: nat, size: nat,
                       s: Seg, blob: seq<byte>, k: nat, sized: seq<byte>)
    requires meta < t < |elf.segs| && s == elf.segs[meta] && k == t - (meta + 1) && s.offset <= |fixed|
    requires blob == SegData(raw, s) == SegData(fixed, s) && sized == WriteItemSize(raw, fixed, elf, t, meta, size)
    ensures |sized| == |fixed| && SegData(sized, s) == NewBlob(blob, k, size)
    ensures SameOutside(fixed, sized, Clamp(s.offset, |fixed|), Clamp(s.End(), |fixed|))
  {
    ItemSizePlace(raw, elf, t, meta, blob, k);
    var items := BlobItems(blob);
    if items.Some? && k < |items.value| && size < Pow256(4) {
      ItemInBlob(blob, items.value, k);
      PutInSegment(fixed, s, blob, items.value[k].startOff + ITEM_SIZE_FIELD, Le(size, 4), sized);
    }
  }

  // ---------------------------------------------------------------------
  // The whole call
  // ---------------------------------------------------------------------

  /** The stages of a call that succeeds. */
  predicate Stages(tools: Tools, raw: seq<byte>, elf: Elf, t: nat, meta: nat, new_: seq<byte>,
                   fixed: seq<byte>, sized: seq<byte>, r: seq<byte>)
    requires t < |elf.segs|
  {
    && HeadersWritten(raw, elf, t, new_, fixed)
    && sized == WriteItemSize(raw, fixed, elf, t, meta, |new_|)
    && r == ReplaceDigests(tools, raw, sized, elf, t, new_, meta)
  }

  lemma StageOne(raw: seq<byte>, elf: Elf, t: nat, meta: nat, new_: seq<byte>, fixed: seq<byte>)
    requires IsElf(raw, elf) && Replaceable(elf, t, meta, |raw|) && new_ != []
    requires HeadersWritten(raw, elf, t, new_, fixed)
    ensures var elf' := NewElf(elf, t, |new_|);
            && IsElf(fixed, elf') && GoodLayout(elf') && Payload(elf', meta)
            && Top(elf') <= |fixed| && elf'.segs[meta] == elf.segs[meta]
  {
    WrittenParses(raw, elf, t, new_, fixed);
    NewLayout(elf, t, meta, |raw|, |new_|);
  }

  lemma MetaUntouched(raw: seq<byte>, elf: Elf, t: nat, meta: nat, new_: seq<byte>, fixed: seq<byte>)
    requires IsElf(raw, elf) && Replaceable(elf, t, meta, |raw|) && new_ != []
    requires HeadersWritten(raw, elf, t, new_, fixed)
    ensures SegData(fixed, elf.segs[meta]) == SegData(raw, elf.segs[meta])
    ensures elf.segs[meta].offset <= |fixed|
  {
    WrittenOther(raw, elf, t, new_, fixed, meta);
    WrittenParses(raw, elf, t, new_, fixed);
    NewLayout(elf, t, meta, |raw|, |new_|);
  }

  lemma StageTwo(raw: seq<byte>, elf: Elf, t: nat, meta: nat, new_: seq<byte>, fixed: seq<byte>, sized: seq<byte>,
                 s: Seg, k: nat)
    requires IsElf(raw, elf) && Replaceable(elf, t, meta, |raw|) && new_ != []
    requires HeadersWritten(raw, elf, t, new_, fixed) && sized == WriteItemSize(raw, fixed, elf, t, meta, |new_|)
    requires s == elf.segs[meta] && k == t - (meta + 1)
    ensures |sized| == |fixed| && SegData(sized, s) == NewBlob(SegData(raw, s), k, |new_|)
    ensures SameOutside(fixed, sized, Clamp(s.offset, |fixed|), Clamp(s.End(), |fixed|))
  {
    MetaUntouched(raw, elf, t, meta, new_, fixed);
    MetaWritten(raw, elf, t, meta, |new_|, fixed, sized, s, k);
  }

  lemma MetaWritten(raw: seq<byte>, elf: Elf, t: nat, meta: nat, size: nat, fixed: seq<byte>, sized: seq<byte>,
                    s: Seg, k: nat)
    requires meta < t < |elf.segs| && s == elf.segs[meta] && k == t - (meta + 1) && s.offset <= |fixed|
    requires SegData(fixed, s) == SegData(raw, s) && sized == WriteItemSize(raw, fixed, elf, t, meta, size)
    ensures |sized| == |fixed| && SegData(sized, s) == NewBlob(SegData(raw, s), k, size)
    ensures SameOutside(fixed, sized, Clamp(s.offset, |fixed|), Clamp(s.End(), |fixed|))
  {
    ItemSizeEffect(raw, fixed, elf, t, meta, size, s, SegData(raw, s), k, sized);
  }

  /** The headers come through the metadata write. */
  lemma SizedParses(fixed: seq<byte>, sized: seq<byte>, elf: Elf, ms: Seg)
    requires IsElf(fixed, elf) && TablesApart(elf) && Top(elf) <= |fixed| == |sized| && Top(elf) <= ms.offset
    requires SameOutside(fixed, sized, Clamp(ms.offset, |fixed|), Clamp(ms.End(), |fixed|))
    ensures IsElf(sized, elf)
  {
    ParseBehind(fixed, sized, elf, Clamp(ms.offset, |fixed|), Clamp(ms.End(), |fixed|));
  }

  /** The image parses to the new view, laid out as well as before, if no digest is found in
      the headers. */
  lemma ReplaceParses(tools: Tools, raw: seq<byte>, elf: Elf, t: nat, meta: nat, new_: seq<byte>,
                      fixed: seq<byte>, sized: seq<byte>, r: seq<byte>, elf': Elf)
    requires IsElf(raw, elf) && Replaceable(elf, t, meta, |raw|) && new_ != [] && elf' == NewElf(elf, t, |new_|)
    requires Stages(tools, raw, elf, t, meta, new_, fixed, sized, r)
    requires ReplaceSpares(tools, raw, sized, elf, t, new_, meta, Front(elf')) == true
    ensures IsElf(r, elf') && GoodLayout(elf')
  {
    StageOne(raw, elf, t, meta, new_, fixed);
    StageTwo(raw, elf, t, meta, new_, fixed, sized, elf.segs[meta], t - (meta + 1));
    SizedParses(fixed, sized, elf', elf.segs[meta]);
    SparedInReplace(tools, raw, sized, elf, t, new_, meta, r, Front(elf'));
    FrontKept(sized, r, elf');
  }

  /** The metadata segment holds the new blob, if no digest is found in it. */
  lemma ReplaceMeta(tools: Tools, raw: seq<byte>, elf: Elf, t: nat, meta: nat, new_: seq<byte>,
                    fixed: seq<byte>, sized: seq<byte>, r: seq<byte>, elf': Elf, k: nat)
    requires IsElf(raw, elf) && Replaceable(elf, t, meta, |raw|) && new_ != []
    requires Stages(tools, raw, elf, t, meta, new_, fixed, sized, r) == true
    requires ReplaceSpares(tools, raw, sized, elf, t, new_, meta, elf.segs[meta]) == true
    requires elf' == NewElf(elf, t, |new_|) && k == t - (meta + 1)
    ensures meta < |elf'.segs| && elf'.segs[meta] == elf.segs[meta]
    ensures SegData(r, elf.segs[meta]) == NewBlob(SegData(raw, elf.segs[meta]), k, |new_|)
  {
    var s := elf.segs[meta];
    MetaInPlace(tools, raw, elf, t, meta, new_, fixed, sized, r, elf');
    MetaHolds(tools, raw, elf, t, meta, new_, fixed, sized, r, s, k, NewBlob(SegData(raw, s), k, |new_|));
  }

  lemma MetaInPlace(tools: Tools, raw: seq<byte>, elf: Elf, t: nat, meta: nat, new_: seq<byte>,
                    fixed: seq<byte>, sized: seq<byte>, r: seq<byte>, elf': Elf)
    requires IsElf(raw, elf) && Replaceable(elf, t, meta, |raw|) && new_ != []
    requires Stages(tools, raw, elf, t, meta, new_, fixed, sized, r) == true && elf' == NewElf(elf, t, |new_|)
    ensures meta < |elf'.segs| && elf'.segs[meta] == elf.segs[meta]
  {
    StageOne(raw, elf, t, meta, new_, fixed);
  }

  lemma MetaHolds(tools: Tools, raw: seq<byte>, elf: Elf, t: nat, meta: nat, new_: seq<byte>,
                  fixed: seq<byte>, sized: seq<byte>, r: seq<byte>, s: Seg, k: nat, blob: seq<byte>)
    requires IsElf(raw, elf) && Replaceable(elf, t, meta, |raw|) && new_ != []
    requires Stages(tools, raw, elf, t, meta, new_, fixed, sized, r) == true
    requires ReplaceSpares(tools, raw, sized, elf, t, new_, meta, s) == true
    requires s == elf.segs[meta] && k == t - (meta + 1) && blob == NewBlob(SegData(raw, s), k, |new_|)
    ensures SegData(r, s) == blob
  {
    StageTwo(raw, elf, t, meta, new_, fixed, sized, s, k);
    SparedInReplace(tools, raw, sized, elf, t, new_, meta, r, s);
  }

  /** The target holds exactly the new bytes, and any other segment behind the headers
      reads back the same bytes through its new offset, if no digest is found in it. */
  lemma ReplaceContents(tools: Tools, raw: seq<byte>, elf: Elf, t: nat, meta: nat, new_: seq<byte>,
                        fixed: seq<byte>, sized: seq<byte>, r: seq<byte>, elf': Elf, i: nat)
    requires IsElf(raw, elf) && Replaceable(elf, t, meta, |raw|) && new_ != [] && elf' == NewElf(elf, t, |new_|)
    requires Stages(tools, raw, elf, t, meta, new_, fixed, sized, r) == true
    requires Payload(elf, i) && elf.segs[i].End() <= |raw| && i != meta
    requires ReplaceSpares(tools, raw, sized, elf, t, new_, meta, elf'.segs[i]) == true
    ensures Payload(elf', i) && SegData(r, elf'.segs[i]) == if i == t then new_ else SegData(raw, elf.segs[i])
  {
    BeforeRounds(raw, elf, t, meta, new_, fixed, sized, elf', i);
    SparedInReplace(tools, raw, sized, elf, t, new_, meta, r, elf'.segs[i]);
  }

  /** What the segment holds before digests are written. */
  lemma BeforeRounds(raw: seq<byte>, elf: Elf, t: nat, meta: nat, new_: seq<byte>,
                     fixed: seq<byte>, sized: seq<byte>, elf': Elf, i: nat)
    requires IsElf(raw, elf) && Replaceable(elf, t, meta, |raw|) && new_ != [] && elf' == NewElf(elf, t, |new_|)
    requires HeadersWritten(raw, elf, t, new_, fixed) && sized == WriteItemSize(raw, fixed, elf, t, meta, |new_|)
    requires Payload(elf, i) && elf.segs[i].End() <= |raw| && i != meta
    ensures Payload(elf', i) && SegData(sized, elf'.segs[i]) == if i == t then new_ else SegData(raw, elf.segs[i])
  {
    StageOne(raw, elf, t, meta, new_, fixed);
    NewPayload(elf, t, meta, |raw|, |new_|, i);
    StageTwo(raw, elf, t, meta, new_, fixed, sized, elf.segs[meta], t - (meta + 1));
    WrittenContents(raw, elf, t, new_, fixed, i);
    ApartIn(elf', i, meta);
    KeepsSegment(fixed, sized, elf.segs[meta].offset, elf.segs[meta].End(), elf'.segs[i]);
  }

  lemma NewPayload(elf: Elf, t: nat, meta: nat, n: nat, m: nat, i: nat)
    requires Replaceable(elf, t, meta, n) && 0 < m && Top(NewElf(elf, t, m)) == Top(elf) && Payload(elf, i)
    ensures Payload(NewElf(elf, t, m), i)
  {
    var k := Min(elf.segs[t].filesz, m);
    assert ShiftFor(elf.segs[t].filesz, m) == m - k;
    StillPayload(elf, t, k, m, i);
  }

  lemma WrittenContents(raw: seq<byte>, elf: Elf, t: nat, new_: seq<byte>, fixed: seq<byte>, i: nat)
    requires IsElf(raw, elf) && GoodLayout(elf) && Payload(elf, t) && elf.segs[t].End() <= |raw|
    requires HeadersWritten(raw, elf, t, new_, fixed) && 0 < elf.segs[t].filesz
    requires Payload(elf, i) && elf.segs[i].End() <= |raw|
    ensures SegData(fixed, NewElf(elf, t, |new_|).segs[i]) == if i == t then new_ else SegData(raw, elf.segs[i])
  {
    if i == t {
      WrittenTarget(raw, elf, t, new_, fixed);
    } else {
      ApartIn(elf, i, t);
      WrittenOther(raw, elf, t, new_, fixed, i);
    }
  }
}
