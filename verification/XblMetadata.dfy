// The XBLConfig metadata blob, version 2: a 12-byte header, then items of 32
// bytes and a name each, padded to eight. Names are kept as raw bytes.
module XblMetadata {
  import opened Bytes
  import opened Layout
  import opened Tables

  const META_HEADER_SIZE: nat := 12
  const META_ITEM_SIZE: nat := 32
  const ITEM_SIZE_FIELD: nat := 8

  datatype MetaHeader = MetaHeader(xcfgType: seq<byte>, major: byte, minor: byte, entries: nat, metaSize: nat)

  /** What an item says. */
  datatype Entry = Entry(attributes: nat, offsetFromMetaStart: nat, itemSize: nat,
                         chipinfo: nat, platforminfo: nat, name: seq<byte>)

  /** An item and where it stands in the blob. */
  datatype MetaItem = MetaItem(entry: Entry, startOff: nat, endOff: nat)

  /** `x` rounded up to a multiple of `a`. */
  function AlignUp(x: nat, a: nat): (r: nat)
    requires a > 0
    ensures x <= r < x + a
  {
    var r := x % a;
    if r == 0 then x else x + (a - r)
  }

  lemma AlignUpToEight(x: nat)
    ensures AlignUp(x, 8) % 8 == 0
  {
  }

  // ---------------------------------------------------------------------
  // Parsing
  // ---------------------------------------------------------------------

  /** The header; None when it is truncated. */
  function ParseMetaHeader(blob: seq<byte>): Option<MetaHeader> {
    if META_HEADER_SIZE > |blob| then None
    else Some(MetaHeader(blob[..4], blob[4], blob[5], Num(blob, 6, 2), Num(blob, 8, 4)))
  }

  /** Length of an item with a name of `n` bytes, padding included. */
  function ItemLen(n: nat): nat { AlignUp(META_ITEM_SIZE + n, 8) }

  function NameLenAt(blob: seq<byte>, cur: nat): nat { Num(blob, cur + 28, 4) }

  function EntryAt(blob: seq<byte>, cur: nat): Entry {
    Entry(Num(blob, cur, 4), Num(blob, cur + 4, 4), Num(blob, cur + 8, 4),
          Num(blob, cur + 12, 8), Num(blob, cur + 20, 8),
          Slice(blob, cur + 32, cur + 32 + NameLenAt(blob, cur)))
  }

  /** The item at `cur`; None when its fixed part or its name is truncated. */
  function ItemAt(blob: seq<byte>, cur: nat): Option<MetaItem> {
    if cur + 32 > |blob| || cur + 32 + NameLenAt(blob, cur) > |blob| then None
    else Some(MetaItem(EntryAt(blob, cur), cur, cur + ItemLen(NameLenAt(blob, cur))))
  }

  /** Where the numbers of the header stand. */
  lemma HeaderFields(blob: seq<byte>, h: MetaHeader)
    requires ParseMetaHeader(blob) == Some(h)
    ensures 12 <= |blob| && h.xcfgType == blob[..4] && h.major == blob[4] && h.minor == blob[5]
    ensures h.entries == FromLe(blob[6..8]) && h.metaSize == FromLe(blob[8..12])
  {
  }

  /** A header or an item is read if and only if all of it, its name included, is there. */
  lemma ReadIff(blob: seq<byte>, cur: nat)
    ensures ParseMetaHeader(blob).Some? <==> 12 <= |blob|
    ensures ItemAt(blob, cur).Some?
       <==> cur + 32 <= |blob| && cur + 32 + FromLe(blob[cur + 28..cur + 32]) <= |blob|
  {
  }

  /** Where the fields of an item stand: three words, two double words, the length of the name
      and the name; the next item is at the next multiple of eight bytes. */
  lemma ItemFields(blob: seq<byte>, cur: nat, item: MetaItem)
    requires ItemAt(blob, cur) == Some(item)
    ensures cur + 32 <= |blob| && item.startOff == cur
    ensures item.entry.attributes == FromLe(blob[cur..cur + 4])
    ensures item.entry.offsetFromMetaStart == FromLe(blob[cur + 4..cur + 8])
    ensures item.entry.itemSize == FromLe(blob[cur + 8..cur + 12])
    ensures item.entry.chipinfo == FromLe(blob[cur + 12..cur + 20])
    ensures item.entry.platforminfo == FromLe(blob[cur + 20..cur + 28])
    ensures var n := FromLe(blob[cur + 28..cur + 32]);
            && cur + 32 + n <= |blob| && item.entry.name == blob[cur + 32..cur + 32 + n]
            && item.endOff == cur + (32 + n + 7) / 8 * 8
  {
  }

  type Reader = (seq<byte>, nat) -> Option<MetaItem>

  function ItemReader(): Reader {
    (blob: seq<byte>, cur: nat) => ItemAt(blob, cur)
  }

  /** `count` items, each found where the one before it ends. */
  function ListFrom(read: Reader, blob: seq<byte>, cur: nat, count: nat): Option<seq<MetaItem>>
    decreases count
  {
    if count == 0 then Some([])
    else
      var item :- read(blob, cur);
      var rest :- ListFrom(read, blob, item.endOff, count - 1);
      Some([item] + rest)
  }

  function ItemsFrom(blob: seq<byte>, cur: nat, count: nat): Option<seq<MetaItem>> {
    ListFrom(ItemReader(), blob, cur, count)
  }

  method ParseMetaItems(blob: seq<byte>, off: nat, count: nat) returns (items: Option<seq<MetaItem>>)
    ensures items == ItemsFrom(blob, off, count)
  {
    var done: seq<MetaItem> := [];
    var cur := off;
    ghost var goal := ItemsFrom(blob, off, count);
    Prepended(done, goal);
    for idx := 0 to count
      invariant goal == Prepend(done, ListFrom(ItemReader(), blob, cur, count - idx))
    {
      var item := ItemAt(blob, cur);
      if item.None? {
        return None;
      }
      PrependNext(done, item.value, ListFrom(ItemReader(), blob, item.value.endOff, count - idx - 1));
      done := done + [item.value];
      cur := item.value.endOff;
    }
    assert done + [] == done;
    items := Some(done);
  }

  function Prepend<T>(a: seq<T>, b: Option<seq<T>>): Option<seq<T>> {
    if b.None? then None else Some(a + b.value)
  }

  lemma Prepended<T>(a: seq<T>, b: Option<seq<T>>)
    requires a == []
    ensures Prepend(a, b) == b
  {
    if b.Some? {
      assert a + b.value == b.value;
    }
  }

  lemma PrependNext<T>(a: seq<T>, x: T, b: Option<seq<T>>)
    ensures Prepend(a + [x], b) == Prepend(a, Prepend([x], b))
  {
    if b.Some? {
      assert a + [x] + b.value == a + ([x] + b.value);
    }
  }

  // ---------------------------------------------------------------------
  // Items tile the blob
  // ---------------------------------------------------------------------

  /** A well-placed item: it starts where it was looked for, what it holds is in the
      blob, and it is the least multiple of eight long that has room for it. */
  predicate Placed(blob: seq<byte>, cur: nat, item: MetaItem) {
    && item.startOff == cur
    && cur + 32 + |item.entry.name| <= |blob|
    && (item.endOff - cur) % 8 == 0
    && 32 + |item.entry.name| <= item.endOff - cur < 40 + |item.entry.name|
  }

  /** One item after the other from `cur` on. */
  predicate Tiles(blob: seq<byte>, items: seq<MetaItem>, cur: nat)
    decreases items
  {
    items != [] ==> Placed(blob, cur, items[0]) && Tiles(blob, items[1..], items[0].endOff)
  }

  ghost predicate Places(read: Reader, blob: seq<byte>) {
    forall cur: nat :: read(blob, cur).Some? ==> Placed(blob, cur, read(blob, cur).value)
  }

  lemma ItemReaderPlaces(blob: seq<byte>)
    ensures Places(ItemReader(), blob)
  {
    forall cur: nat | ItemReader()(blob, cur).Some?
      ensures Placed(blob, cur, ItemReader()(blob, cur).value)
    {
      ItemPlaced(blob, cur);
    }
  }

  lemma ItemPlaced(blob: seq<byte>, cur: nat)
    requires ItemAt(blob, cur).Some?
    ensures Placed(blob, cur, ItemAt(blob, cur).value)
  {
    AlignUpToEight(32 + NameLenAt(blob, cur));
  }

  /** Lists come one item at a time. */
  lemma ListCons(read: Reader, blob: seq<byte>, cur: nat, count: nat, items: seq<MetaItem>)
    requires count > 0
    ensures ListFrom(read, blob, cur, count) == Some(items)
       <==> items != [] && read(blob, cur) == Some(items[0])
            && ListFrom(read, blob, items[0].endOff, count - 1) == Some(items[1..])
  {
    if items != [] {
      assert items == [items[0]] + items[1..];
    }
    var item := read(blob, cur);
    if item.Some? && ListFrom(read, blob, item.value.endOff, count - 1).Some? {
      var rest := ListFrom(read, blob, item.value.endOff, count - 1).value;
      assert ([item.value] + rest)[0] == item.value && ([item.value] + rest)[1..] == rest;
    }
  }

  lemma {:induction false} ListTiles(read: Reader, blob: seq<byte>, cur: nat, count: nat, items: seq<MetaItem>)
    requires Places(read, blob) && ListFrom(read, blob, cur, count) == Some(items)
    ensures |items| == count && Tiles(blob, items, cur)
    decreases count
  {
    if count > 0 {
      ListCons(read, blob, cur, count, items);
      ListTiles(read, blob, items[0].endOff, count - 1, items[1..]);
    }
  }

  /** Items tile the blob: `count` of them, end to end from `cur`. */
  lemma ItemsTile(blob: seq<byte>, cur: nat, count: nat, items: seq<MetaItem>)
    requires ItemsFrom(blob, cur, count) == Some(items)
    ensures |items| == count && Tiles(blob, items, cur)
  {
    ItemReaderPlaces(blob);
    ListTiles(ItemReader(), blob, cur, count, items);
  }

  lemma {:induction false} TilesOrder(blob: seq<byte>, items: seq<MetaItem>, cur: nat, k: nat)
    requires Tiles(blob, items, cur) && k < |items|
    ensures cur <= items[k].startOff && items[k].startOff + 32 <= |blob|
    ensures k > 0 ==> items[0].endOff <= items[k].startOff
    decreases k
  {
    if k > 0 {
      TilesOrder(blob, items[1..], items[0].endOff, k - 1);
    }
  }

  // ---------------------------------------------------------------------
  // Writing one item size
  // ---------------------------------------------------------------------

  /** The fixed part of an item, with bytes changed elsewhere. */
  lemma FixedPartLocal(s: seq<byte>, t: seq<byte>, lo: nat, hi: nat, cur: nat)
    requires SameOutside(s, t, lo, hi) && (cur + 32 <= lo || hi <= cur)
    ensures Num(t, cur, 4) == Num(s, cur, 4) && Num(t, cur + 4, 4) == Num(s, cur + 4, 4)
    ensures Num(t, cur + 8, 4) == Num(s, cur + 8, 4) && Num(t, cur + 12, 8) == Num(s, cur + 12, 8)
    ensures Num(t, cur + 20, 8) == Num(s, cur + 20, 8) && NameLenAt(t, cur) == NameLenAt(s, cur)
  {
    NumLocal(s, t, lo, hi, cur + 28, 4);
    NumLocal(s, t, lo, hi, cur, 4);
    NumLocal(s, t, lo, hi, cur + 4, 4);
    NumLocal(s, t, lo, hi, cur + 8, 4);
    NumLocal(s, t, lo, hi, cur + 12, 8);
    NumLocal(s, t, lo, hi, cur + 20, 8);
  }

  /** Bytes changed elsewhere leave an item alone. */
  lemma ItemElsewhere(s: seq<byte>, t: seq<byte>, lo: nat, hi: nat, cur: nat)
    requires SameOutside(s, t, lo, hi) && ItemAt(s, cur).Some?
    requires cur + 32 + |ItemAt(s, cur).value.entry.name| <= lo || hi <= cur
    ensures ItemAt(t, cur) == ItemAt(s, cur)
  {
    FixedPartLocal(s, t, lo, hi, cur);
    NumLocal(s, t, lo, hi, cur + 32, NameLenAt(s, cur));
    SameItem(s, t, cur, NameLenAt(s, cur));
  }

  lemma SameItem(s: seq<byte>, t: seq<byte>, cur: nat, n: nat)
    requires |s| == |t| && n == NameLenAt(s, cur) == NameLenAt(t, cur)
    requires Num(t, cur, 4) == Num(s, cur, 4) && Num(t, cur + 4, 4) == Num(s, cur + 4, 4)
    requires Num(t, cur + 8, 4) == Num(s, cur + 8, 4) && Num(t, cur + 12, 8) == Num(s, cur + 12, 8)
    requires Num(t, cur + 20, 8) == Num(s, cur + 20, 8)
    requires Slice(t, cur + 32, cur + 32 + n) == Slice(s, cur + 32, cur + 32 + n)
    ensures ItemAt(t, cur) == ItemAt(s, cur)
  {
  }

  /** The item whose size field has been overwritten. */
  lemma ItemResized(s: seq<byte>, t: seq<byte>, cur: nat, size: nat)
    requires ItemAt(s, cur).Some? && SameOutside(s, t, cur + 8, cur + 12) && Num(t, cur + 8, 4) == size
    ensures ItemAt(t, cur) == Some(WithSize(ItemAt(s, cur).value, size))
  {
    NumLocal(s, t, cur + 8, cur + 12, cur + 28, 4);
    NumLocal(s, t, cur + 8, cur + 12, cur, 4);
    NumLocal(s, t, cur + 8, cur + 12, cur + 4, 4);
    NumLocal(s, t, cur + 8, cur + 12, cur + 12, 8);
    NumLocal(s, t, cur + 8, cur + 12, cur + 20, 8);
    NumLocal(s, t, cur + 8, cur + 12, cur + 32, NameLenAt(s, cur));
  }

  function WithSize(item: MetaItem, size: nat): MetaItem {
    item.(entry := item.entry.(itemSize := size))
  }

  /** Bytes changed between `lo` and `hi` leave the items on either side alone. */
  ghost predicate Unaffected(read: Reader, s: seq<byte>, t: seq<byte>, lo: nat, hi: nat) {
    forall cur: nat ::
      read(s, cur).Some? && (cur + 32 + |read(s, cur).value.entry.name| <= lo || hi <= cur) ==>
        read(t, cur) == read(s, cur)
  }

  lemma ItemReaderUnaffected(s: seq<byte>, t: seq<byte>, lo: nat, hi: nat)
    requires SameOutside(s, t, lo, hi)
    ensures Unaffected(ItemReader(), s, t, lo, hi)
  {
    var read := ItemReader();
    forall cur: nat |
      read(s, cur).Some? && (cur + 32 + |read(s, cur).value.entry.name| <= lo || hi <= cur)
      ensures read(t, cur) == read(s, cur)
    {
      ItemElsewhere(s, t, lo, hi, cur);
    }
  }

  lemma {:induction false} ListBehind(read: Reader, s: seq<byte>, t: seq<byte>, lo: nat, hi: nat,
                                      cur: nat, count: nat, items: seq<MetaItem>)
    requires Unaffected(read, s, t, lo, hi) && Places(read, s) && hi <= cur
    requires ListFrom(read, s, cur, count) == Some(items)
    ensures ListFrom(read, t, cur, count) == Some(items)
    decreases count
  {
    if count > 0 {
      ListCons(read, s, cur, count, items);
      ListBehind(read, s, t, lo, hi, items[0].endOff, count - 1, items[1..]);
      ListCons(read, t, cur, count, items);
    }
  }

  lemma {:induction false} ListOverwritten(read: Reader, s: seq<byte>, t: seq<byte>, cur: nat, count: nat,
                                           items: seq<MetaItem>, k: nat, new_: MetaItem)
    requires Places(read, s) && ListFrom(read, s, cur, count) == Some(items) && k < |items|
    requires Unaffected(read, s, t, items[k].startOff + 8, items[k].startOff + 12)
    requires read(t, items[k].startOff) == Some(new_) && new_.endOff == items[k].endOff
    ensures ListFrom(read, t, cur, count) == Some(items[k := new_])
    decreases count
  {
    var p, after := items[k].startOff, items[k := new_];
    ListCons(read, s, cur, count, items);
    if k == 0 {
      ListBehind(read, s, t, p + 8, p + 12, items[0].endOff, count - 1, items[1..]);
      assert after[1..] == items[1..];
    } else {
      ListTiles(read, s, cur, count, items);
      TilesOrder(s, items, cur, k);
      ListOverwritten(read, s, t, items[0].endOff, count - 1, items[1..], k - 1, new_);
      assert after[1..] == items[1..][k - 1 := new_];
    }
    ListCons(read, t, cur, count, after);
  }

  lemma {:induction false} ListReads(read: Reader, blob: seq<byte>, cur: nat, count: nat, items: seq<MetaItem>, k: nat)
    requires Places(read, blob) && ListFrom(read, blob, cur, count) == Some(items) && k < |items|
    ensures read(blob, items[k].startOff) == Some(items[k])
    decreases count
  {
    ListCons(read, blob, cur, count, items);
    if k > 0 {
      ListReads(read, blob, items[0].endOff, count - 1, items[1..], k - 1);
    }
  }

  /** Overwriting the four bytes at `start_off + 8` of item `k` changes, on parsing the
      blob again, the `item_size` of that item and nothing else. */
  lemma SizeOverwritten(s: seq<byte>, t: seq<byte>, cur: nat, count: nat,
                        items: seq<MetaItem>, k: nat, size: nat, p: nat)
    requires ItemsFrom(s, cur, count) == Some(items) && k < |items| && p == items[k].startOff + ITEM_SIZE_FIELD
    requires p + 4 <= |s| && SameOutside(s, t, p, p + 4) && Num(t, p, 4) == size
    ensures ItemsFrom(t, cur, count) == Some(items[k := WithSize(items[k], size)])
  {
    var read := ItemReader();
    ItemReaderPlaces(s);
    ItemReaderUnaffected(s, t, p, p + 4);
    ListReads(read, s, cur, count, items, k);
    ItemResized(s, t, items[k].startOff, size);
    ListOverwritten(read, s, t, cur, count, items, k, WithSize(items[k], size));
  }

  // ---------------------------------------------------------------------
  // Printing
  // ---------------------------------------------------------------------

  /** The fields of an entry have their widths. */
  predicate Fits(e: Entry) {
    && e.attributes < Pow256(4) && e.offsetFromMetaStart < Pow256(4) && e.itemSize < Pow256(4)
    && e.chipinfo < Pow256(8) && e.platforminfo < Pow256(8) && |e.name| < Pow256(4)
  }

  function PrintFixed(e: Entry): (s: seq<byte>)
    ensures |s| == 32
  {
    (Le(e.attributes, 4) + Le(e.offsetFromMetaStart, 4) + Le(e.itemSize, 4))
    + (Le(e.chipinfo, 8) + Le(e.platforminfo, 8) + Le(|e.name|, 4))
  }

  /** An item in the version 2 layout, padded with zeros. */
  function PrintEntry(e: Entry): (s: seq<byte>)
    ensures |s| == ItemLen(|e.name|)
  {
    PrintFixed(e) + e.name + Fill(ItemLen(|e.name|) - 32 - |e.name|, 0)
  }

  function PrintEntries(es: seq<Entry>): seq<byte> {
    if es == [] then [] else PrintEntry(es[0]) + PrintEntries(es[1..])
  }

  /** The entries, end to end from `cur` on. */
  function Positions(es: seq<Entry>, cur: nat): seq<MetaItem> {
    if es == [] then []
    else
      var end := cur + ItemLen(|es[0].name|);
      [MetaItem(es[0], cur, end)] + Positions(es[1..], end)
  }

  predicate FieldsAt(blob: seq<byte>, cur: nat, e: Entry) {
    && cur + 32 <= |blob|
    && blob[cur..cur + 4] == Le(e.attributes, 4)
    && blob[cur + 4..cur + 8] == Le(e.offsetFromMetaStart, 4)
    && blob[cur + 8..cur + 12] == Le(e.itemSize, 4)
    && blob[cur + 12..cur + 20] == Le(e.chipinfo, 8)
    && blob[cur + 20..cur + 28] == Le(e.platforminfo, 8)
    && blob[cur + 28..cur + 32] == Le(|e.name|, 4)
  }

  lemma PrintedFields(blob: seq<byte>, cur: nat, e: Entry)
    requires cur + 32 <= |blob| && blob[cur..cur + 32] == PrintFixed(e)
    ensures FieldsAt(blob, cur, e)
  {
    TwoParts(blob, cur, Le(e.attributes, 4) + Le(e.offsetFromMetaStart, 4) + Le(e.itemSize, 4),
             Le(e.chipinfo, 8) + Le(e.platforminfo, 8) + Le(|e.name|, 4));
    ThreeParts(blob, cur, Le(e.attributes, 4), Le(e.offsetFromMetaStart, 4), Le(e.itemSize, 4));
    ThreeParts(blob, cur + 12, Le(e.chipinfo, 8), Le(e.platforminfo, 8), Le(|e.name|, 4));
  }

  lemma ReadFields(blob: seq<byte>, cur: nat, e: Entry)
    requires FieldsAt(blob, cur, e) && Fits(e) && cur + 32 + |e.name| <= |blob|
    requires blob[cur + 32..cur + 32 + |e.name|] == e.name
    ensures EntryAt(blob, cur) == e && NameLenAt(blob, cur) == |e.name|
  {
    NumAt(blob, cur, e.attributes, 4);
    NumAt(blob, cur + 4, e.offsetFromMetaStart, 4);
    NumAt(blob, cur + 8, e.itemSize, 4);
    NumAt(blob, cur + 12, e.chipinfo, 8);
    NumAt(blob, cur + 20, e.platforminfo, 8);
    NumAt(blob, cur + 28, |e.name|, 4);
  }

  /** The printed form of `e` stands at `cur`. */
  predicate IsPrinted(blob: seq<byte>, cur: nat, e: Entry) {
    && Fits(e) && cur + ItemLen(|e.name|) <= |blob|
    && blob[cur..cur + ItemLen(|e.name|)] == PrintEntry(e)
  }

  lemma PrintedItem(blob: seq<byte>, cur: nat, e: Entry)
    requires IsPrinted(blob, cur, e)
    ensures ItemAt(blob, cur) == Some(MetaItem(e, cur, cur + ItemLen(|e.name|)))
  {
    ThreeParts(blob, cur, PrintFixed(e), e.name, Fill(ItemLen(|e.name|) - 32 - |e.name|, 0));
    PrintedFields(blob, cur, e);
    ReadFields(blob, cur, e);
  }

  /** What is printed is read back. */
  ghost predicate ReadsPrinted(read: Reader) {
    forall blob: seq<byte>, cur: nat, e: Entry ::
      IsPrinted(blob, cur, e) ==> read(blob, cur) == Some(MetaItem(e, cur, cur + ItemLen(|e.name|)))
  }

  lemma ItemReaderReadsPrinted()
    ensures ReadsPrinted(ItemReader())
  {
    forall blob: seq<byte>, cur: nat, e: Entry | IsPrinted(blob, cur, e)
      ensures ItemReader()(blob, cur) == Some(MetaItem(e, cur, cur + ItemLen(|e.name|)))
    {
      PrintedItem(blob, cur, e);
    }
  }

  predicate AllFit(es: seq<Entry>) {
    es != [] ==> Fits(es[0]) && AllFit(es[1..])
  }

  lemma Pieces(pre: seq<byte>, a: seq<byte>, b: seq<byte>, post: seq<byte>, blob: seq<byte>)
    requires blob == pre + (a + b) + post
    ensures blob == (pre + a) + b + post
    ensures |pre| + |a| <= |blob| && blob[|pre|..|pre| + |a|] == a
  {
  }

  lemma {:induction false} PrintedList(read: Reader, pre: seq<byte>, es: seq<Entry>, post: seq<byte>, blob: seq<byte>)
    requires ReadsPrinted(read) && AllFit(es) && blob == pre + PrintEntries(es) + post
    ensures ListFrom(read, blob, |pre|, |es|) == Some(Positions(es, |pre|))
    decreases es
  {
    if es != [] {
      var pre' := PrintedFirst(pre, es[0], PrintEntries(es[1..]), post, blob);
      PrintedList(read, pre', es[1..], post, blob);
      PositionsCons(read, blob, es, |pre|, |pre'|);
    }
  }

  /** Parsing undoes printing, wherever in a blob the items stand. */
  lemma PrintedItems(pre: seq<byte>, es: seq<Entry>, post: seq<byte>, blob: seq<byte>)
    requires AllFit(es) && blob == pre + PrintEntries(es) + post
    ensures ItemsFrom(blob, |pre|, |es|) == Some(Positions(es, |pre|))
  {
    ItemReaderReadsPrinted();
    PrintedList(ItemReader(), pre, es, post, blob);
  }

  lemma PositionsCons(read: Reader, blob: seq<byte>, es: seq<Entry>, cur: nat, next: nat)
    requires es != [] && next == cur + ItemLen(|es[0].name|)
    requires read(blob, cur) == Some(MetaItem(es[0], cur, next))
    requires ListFrom(read, blob, next, |es| - 1) == Some(Positions(es[1..], next))
    ensures ListFrom(read, blob, cur, |es|) == Some(Positions(es, cur))
  {
    var items := Positions(es, cur);
    assert items == [MetaItem(es[0], cur, next)] + Positions(es[1..], next);
    assert items[1..] == Positions(es[1..], next);
    ListCons(read, blob, cur, |es|, items);
  }

  lemma PrintedFirst(pre: seq<byte>, e: Entry, rest: seq<byte>, post: seq<byte>, blob: seq<byte>)
    returns (pre': seq<byte>)
    requires Fits(e) && blob == pre + (PrintEntry(e) + rest) + post
    ensures IsPrinted(blob, |pre|, e)
    ensures |pre'| == |pre| + ItemLen(|e.name|) && blob == pre' + rest + post
  {
    pre' := pre + PrintEntry(e);
    Pieces(pre, PrintEntry(e), rest, post, blob);
  }

  function PrintMetaHeader(h: MetaHeader): seq<byte> {
    h.xcfgType + [h.major, h.minor] + Le(h.entries, 2) + Le(h.metaSize, 4)
  }

  lemma PrintedHeader(h: MetaHeader, post: seq<byte>)
    requires |h.xcfgType| == 4 && h.entries < Pow256(2) && h.metaSize < Pow256(4)
    ensures ParseMetaHeader(PrintMetaHeader(h) + post) == Some(h)
  {
    var blob := PrintMetaHeader(h) + post;
    NumAt(blob, 6, h.entries, 2);
    NumAt(blob, 8, h.metaSize, 4);
    assert blob[..4] == h.xcfgType;
  }

  /** The whole blob: header, items, and whatever follows. */
  lemma PrintedBlob(h: MetaHeader, es: seq<Entry>, post: seq<byte>)
    requires |h.xcfgType| == 4 && |es| == h.entries < Pow256(2) && h.metaSize < Pow256(4) && AllFit(es)
    ensures var blob := PrintMetaHeader(h) + PrintEntries(es) + post;
            && ParseMetaHeader(blob) == Some(h)
            && ItemsFrom(blob, META_HEADER_SIZE, h.entries) == Some(Positions(es, META_HEADER_SIZE))
  {
    var blob := PrintMetaHeader(h) + PrintEntries(es) + post;
    assert blob == PrintMetaHeader(h) + (PrintEntries(es) + post);
    PrintedHeader(h, PrintEntries(es) + post);
    PrintedItems(PrintMetaHeader(h), es, post, blob);
  }
}
