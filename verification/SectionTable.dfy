// Exactly when the section headers are right after a splice in front of their
// table. Each `sh_offset` is written where its entry was before the splice, so
// what the moved entry holds depends on how far the table has moved.
module SectionTable {
  import opened Bytes
  import opened Tables
  import opened ElfImage
  import opened ElfSplice
  import opened Resize
  import opened ZeroGrowth
  import opened StaleSections

  // ---------------------------------------------------------------------
  // One entry
  // ---------------------------------------------------------------------

  /** A write of `v`, `grow` bytes in front of a field that holds `x`, as the field
      shows it: the last bytes of `v` over the first of `x`. */
  function Overlaid(x: nat, v: nat, grow: nat, w: nat, little: bool): nat
    requires grow <= w
  {
    Decode(Encode(v, w, little)[grow..] + Encode(x, w, little)[w - grow..], little)
  }

  /** What the moved entry reads when its old place is overwritten. */
  function MovedReading(x: nat, splice: nat, grow: nat, w: nat, little: bool): nat {
    if x > splice && grow < w then Overlaid(x, x + grow, grow, w, little) else x
  }

  /** Writing `v` at `p` seen through the window at `q`, `grow` bytes further on. */
  lemma WindowOverlaid(raw: seq<byte>, r: seq<byte>, p: nat, w: nat, v: int, little: bool, grow: nat, q: nat, end: nat)
    requires q == p + grow && end == p + w && q + w <= |raw| && grow < w && WriteField(raw, p, w, v, little) == Some(r)
    ensures 0 <= v && |r| == |raw|
    ensures r[q..q + w] == Encode(v, w, little)[grow..] + raw[end..q + w]
  {
    var e := Encode(v, w, little);
    PutInside(raw, p, e);
    CutAcross(r, p, e, grow, q, end);
    assert r[end..q + w] == raw[end..q + w];
  }

  lemma CutAcross(r: seq<byte>, p: nat, e: seq<byte>, grow: nat, q: nat, end: nat)
    requires grow <= |e| && p + |e| + grow <= |r| && r[p..p + |e|] == e && q == p + grow && end == p + |e|
    ensures r[q..q + |e|] == e[grow..] + r[end..q + |e|]
  {
    PartOfCopy(r, p, e, 0, |e|, grow, |e| - grow);
    assert e[grow..|e|] == e[grow..];
    assert r[q..q + |e|] == r[q..end] + r[end..q + |e|];
  }

  /** Writing elsewhere does not show in the window. */
  lemma WindowKept(raw: seq<byte>, r: seq<byte>, lo: nat, hi: nat, q: nat, w: nat)
    requires SameOutside(raw, r, lo, hi) && q + w <= |raw| && (hi <= q || q + w <= lo)
    ensures r[q..q + w] == raw[q..q + w]
  {
    if hi <= q {
      SubSlice(r, raw, hi, |raw|, q, q + w);
    } else {
      SubSlice(r, raw, 0, lo, q, q + w);
    }
  }

  // ---------------------------------------------------------------------
  // The loop over section headers
  // ---------------------------------------------------------------------

  /** One turn changes only the field. */
  lemma SecWriteWithin(raw: seq<byte>, h: Header, splice: nat, grow: nat, pos: nat, x: nat, lo: nat, hi: nat, r: seq<byte>)
    requires SecEdit(h, splice, grow)(raw, pos, x) == Some(r)
    requires lo == pos + ShOffsetField(h.is64).off && hi == lo + ShOffsetField(h.is64).size <= |raw|
    ensures SameOutside(raw, r, lo, hi) && |r| == |raw|
  {
    if x > splice {
      WritePlaces(raw, lo, hi - lo, x + grow, h.little, r);
    }
  }

  /** Sections in front of the splice are not written. */
  lemma {:induction false} NothingWritten(raw: seq<byte>, secs: seq<nat>, h: Header, splice: nat, grow: nat, pos: nat, ent: nat)
    requires forall k :: 0 <= k < |secs| ==> secs[k] <= splice
    ensures EditTable(raw, secs, pos, ent, SecEdit(h, splice, grow)) == Some(raw)
    decreases secs
  {
    if secs != [] {
      NothingWritten(raw, secs[1..], h, splice, grow, pos + ent, ent);
    }
  }

  /** The number in the `w` bytes at `q`. */
  function NumberAt(raw: seq<byte>, q: nat, w: nat, little: bool): Option<nat> {
    if q + w <= |raw| then Some(Decode(raw[q..q + w], little)) else None
  }

  /** The field of entry `j` in the moved table, after the loop. Either the table has moved
      so little that only the entry's own write reaches it, or `j` is the last entry that
      is written at all. */
  lemma {:induction false} FieldAfter(raw: seq<byte>, secs: seq<nat>, h: Header, splice: nat, grow: nat,
                                      pos: nat, ent: nat, r: seq<byte>, j: nat, q: nat, w: nat, end: nat)
    requires EditTable(raw, secs, pos, ent, SecEdit(h, splice, grow)) == Some(r)
    requires j < |secs| && ShSize(h.is64) <= ent && end == EntryPos(pos, ent, |secs|) && pos <= end <= |raw|
    requires q == EntryPos(pos, ent, j) + ShOffsetField(h.is64).off + grow && w == ShOffsetField(h.is64).size
    requires grow > 0 && (grow < w || forall k :: j < k < |secs| ==> secs[k] <= splice)
    requires NumberAt(raw, q, w, h.little) == Some(secs[j])
    ensures |r| == |raw| && NumberAt(r, q, w, h.little) == Some(MovedReading(secs[j], splice, grow, w, h.little))
    decreases j
  {
    var lo := pos + ShOffsetField(h.is64).off;
    var x := SecEdit(h, splice, grow)(raw, pos, secs[0]).value;
    EntryPosGrows(pos + ent, ent, |secs| - 1);
    SecWriteWithin(raw, h, splice, grow, pos, secs[0], lo, lo + w, x);
    if j == 0 {
      FirstField(raw, x, secs[0], h, splice, grow, pos, q, w);
      RestOfLoop(x, secs[1..], h, splice, grow, pos + ent, ent, r, q, w, end);
    } else {
      EntryPosGrows(pos + ent, ent, j - 1);
      WindowKept(raw, x, lo, lo + w, q, w);
      FieldAfter(x, secs[1..], h, splice, grow, pos + ent, ent, r, j - 1, q, w, end);
    }
  }

  lemma FirstField(raw: seq<byte>, x: seq<byte>, sec: nat, h: Header, splice: nat, grow: nat, pos: nat, q: nat, w: nat)
    requires SecEdit(h, splice, grow)(raw, pos, sec) == Some(x) && grow > 0
    requires q == pos + ShOffsetField(h.is64).off + grow && w == ShOffsetField(h.is64).size
    requires NumberAt(raw, q, w, h.little) == Some(sec)
    ensures |x| == |raw| && NumberAt(x, q, w, h.little) == Some(MovedReading(sec, splice, grow, w, h.little))
  {
    if sec > splice {
      OwnWrite(raw, x, q - grow, w, sec, sec + grow, h.little, grow, q);
    }
  }

  lemma OwnWrite(raw: seq<byte>, x: seq<byte>, p: nat, w: nat, sec: nat, v: nat, little: bool, grow: nat, q: nat)
    requires WriteField(raw, p, w, v, little) == Some(x) && q == p + grow
    requires NumberAt(raw, q, w, little) == Some(sec)
    ensures |x| == |raw|
    ensures NumberAt(x, q, w, little) == Some(if grow < w then Overlaid(sec, v, grow, w, little) else sec)
  {
    if grow < w {
      OverOwnField(raw, x, p, w, sec, v, little, grow, q, p + w);
    } else {
      BeforeField(raw, x, p, w, v, little, q);
    }
  }

  lemma BeforeField(raw: seq<byte>, x: seq<byte>, p: nat, w: nat, v: nat, little: bool, q: nat)
    requires WriteField(raw, p, w, v, little) == Some(x) && p + w <= q && q + w <= |raw|
    ensures |x| == |raw| && x[q..q + w] == raw[q..q + w]
  {
    WritePlaces(raw, p, w, v, little, x);
    WindowKept(raw, x, p, p + w, q, w);
  }

  lemma OverOwnField(raw: seq<byte>, x: seq<byte>, p: nat, w: nat, sec: nat, v: nat, little: bool, grow: nat,
                     q: nat, end: nat)
    requires WriteField(raw, p, w, v, little) == Some(x) && grow < w && q == p + grow && end == p + w
    requires q + w <= |raw| && Decode(raw[q..q + w], little) == sec
    ensures |x| == |raw| && Decode(x[q..q + w], little) == Overlaid(sec, v, grow, w, little)
  {
    WindowOverlaid(raw, x, p, w, v, little, grow, q, end);
    EncodeDecoded(raw[q..q + w], little);
    TailOfField(raw, q, w, Encode(sec, w, little), grow, end);
  }

  lemma TailOfField(raw: seq<byte>, q: nat, w: nat, e: seq<byte>, grow: nat, end: nat)
    requires q + w <= |raw| && raw[q..q + w] == e && grow <= w && end == q + w - grow
    ensures raw[end..q + w] == e[w - grow..]
  {
    PartOfCopy(raw, q, e, 0, w, w - grow, grow);
    assert e[w - grow..w] == e[w - grow..];
  }

  /** The later entries do not reach a window in front of them, or are not written. */
  lemma RestOfLoop(x: seq<byte>, secs: seq<nat>, h: Header, splice: nat, grow: nat, pos: nat, ent: nat, r: seq<byte>,
                   q: nat, w: nat, end: nat)
    requires EditTable(x, secs, pos, ent, SecEdit(h, splice, grow)) == Some(r) && q + w <= |x|
    requires ShSize(h.is64) <= ent && end == EntryPos(pos, ent, |secs|) && pos <= end <= |x|
    requires q + w <= pos || forall k :: 0 <= k < |secs| ==> secs[k] <= splice
    ensures |r| == |x| && r[q..q + w] == x[q..q + w]
  {
    if q + w <= pos {
      SecEditConfined(h, splice, grow);
      EditTableWithin(x, secs, pos, ent, ShSize(h.is64), SecEdit(h, splice, grow), r, end);
      WindowKept(x, r, pos, end, q, w);
    } else {
      NothingWritten(x, secs, h, splice, grow, pos, ent);
    }
  }

  // ---------------------------------------------------------------------
  // The whole fix-up
  // ---------------------------------------------------------------------

  /** Where the offset field of entry `j` of the table is. */
  function FieldPos(h: Header, j: nat): nat {
    EntryPos(h.shoff, h.shentsize, j) + ShOffsetField(h.is64).off
  }

  /** The header writes do not reach the table: only its own loop does. */
  lemma LoopOnly(img: seq<byte>, elf: Elf, splice: nat, end: nat, n: nat, grow: nat, r: seq<byte>)
    returns (a: seq<byte>, b: seq<byte>)
    requires TableBehind(elf, splice, end, n) && n <= |img| && ReadHeader(img) == Some(elf.h)
    requires UpdateForGrowth(img, elf, splice, grow) == Some(r)
    ensures EditTable(a, elf.secs, elf.h.shoff, elf.h.shentsize, SecEdit(elf.h, splice, grow)) == Some(b)
    ensures SameOutside(img, a, elf.h.phoff, PhEnd(elf)) && SameOutside(b, r, 0, EhSize(elf.h.is64))
    ensures |img| == |a| == |b| == |r|
  {
    a, b := GrowthParts(img, elf, splice, grow, r);
    BothWithin(img, elf, splice, end, n, grow, a, b);
    LastWrite(img, a, b, elf.h, PhEnd(elf), ShEnd(elf), elf.h.shoff + grow, r);
  }

  lemma LastWrite(img: seq<byte>, a: seq<byte>, b: seq<byte>, h: Header, phEnd: nat, shEnd: nat, v: nat, r: seq<byte>)
    requires ReadHeader(img) == Some(h) && EhSize(h.is64) <= h.phoff && EhSize(h.is64) <= h.shoff
    requires SameOutside(img, a, h.phoff, phEnd) && SameOutside(a, b, h.shoff, shEnd)
    requires WriteField(b, EShoffField(h.is64).off, EShoffField(h.is64).size, v, h.little) == Some(r)
    ensures SameOutside(b, r, 0, EhSize(h.is64))
  {
    HeaderThrough(img, a, b, h, phEnd, shEnd);
    ShoffWritten(b, h, v, r);
  }

  lemma {:induction false} EntryInTable(pos: nat, ent: nat, n: nat, j: nat)
    requires j < n
    ensures pos <= EntryPos(pos, ent, j) && EntryPos(pos, ent, j) + ent <= EntryPos(pos, ent, n)
    decreases j
  {
    if j > 0 {
      EntryInTable(pos + ent, ent, n - 1, j - 1);
    } else {
      EntryPosGrows(pos + ent, ent, n - 1);
    }
  }

  /** What the offset field of entry `j` holds ... */
  lemma FieldHolds(raw: seq<byte>, h: Header, secs: seq<nat>, j: nat, p: nat, w: nat)
    requires HasSecs(raw, h, secs) && ShSize(h.is64) <= h.shentsize && j < |secs|
    requires p == FieldPos(h, j) && w == ShOffsetField(h.is64).size
    ensures NumberAt(raw, p, w, h.little) == Some(secs[j])
  {
    EntryAt(raw, h.shoff, h.shentsize, ShSize(h.is64), SecReader(h.is64, h.little), secs, j);
    FieldIs(raw, p - ShOffsetField(h.is64).off, ShSize(h.is64), ShOffsetField(h.is64), h.little);
  }

  /** ... it holds in its new place. */
  lemma FieldMoved(raw: seq<byte>, img: seq<byte>, splice: nat, orig: nat, new_: seq<byte>, grow: nat,
                   p: nat, w: nat, little: bool, x: nat)
    requires Relaid(raw, img, splice, orig, new_, grow) && splice + orig <= p && NumberAt(raw, p, w, little) == Some(x)
    ensures NumberAt(img, p + grow, w, little) == Some(x)
  {
    var base := splice + orig;
    assert raw[base..] == raw[base..|raw|];
    PartOfCopy(raw, base, img, base + grow, |raw| - base, p - base, w);
  }

  // `P(..) == true` in a requires clause keeps callers from unfolding `P`.

  /** A segment in front of the section table has grown from `orig` bytes by `grow`, and
      the headers have been fixed up. */
  predicate FixedUp(raw: seq<byte>, img: seq<byte>, elf: Elf, splice: nat, orig: nat, new_: seq<byte>, grow: nat,
                    r: seq<byte>)
  {
    && HasElf(raw, elf) && TableBehind(elf, splice, splice + orig, |raw|) && grow > 0
    && Relaid(raw, img, splice, orig, new_, grow) && UpdateForGrowth(img, elf, splice, grow) == Some(r)
  }

  lemma LoopIn(raw: seq<byte>, img: seq<byte>, elf: Elf, splice: nat, orig: nat, new_: seq<byte>, grow: nat, r: seq<byte>)
    returns (a: seq<byte>, b: seq<byte>)
    requires FixedUp(raw, img, elf, splice, orig, new_, grow, r)
    ensures EditTable(a, elf.secs, elf.h.shoff, elf.h.shentsize, SecEdit(elf.h, splice, grow)) == Some(b)
    ensures SameOutside(img, a, elf.h.phoff, PhEnd(elf)) && SameOutside(b, r, 0, EhSize(elf.h.is64))
  {
    HeaderLocal(raw, img, elf.h, splice);
    a, b := LoopOnly(img, elf, splice, splice + orig, |raw|, grow, r);
  }

  lemma FieldReady(raw: seq<byte>, img: seq<byte>, elf: Elf, splice: nat, orig: nat, new_: seq<byte>, grow: nat, j: nat, w: nat)
    requires HasSecs(raw, elf.h, elf.secs) && TableBehind(elf, splice, splice + orig, |raw|)
    requires Relaid(raw, img, splice, orig, new_, grow) && j < |elf.secs| && w == ShOffsetField(elf.h.is64).size
    ensures NumberAt(img, FieldPos(elf.h, j) + grow, w, elf.h.little) == Some(elf.secs[j])
  {
    EntryInTable(elf.h.shoff, elf.h.shentsize, |elf.secs|, j);
    FieldHolds(raw, elf.h, elf.secs, j, FieldPos(elf.h, j), w);
    FieldMoved(raw, img, splice, orig, new_, grow, FieldPos(elf.h, j), w, elf.h.little, elf.secs[j]);
  }

  lemma FieldThrough(img: seq<byte>, a: seq<byte>, b: seq<byte>, r: seq<byte>, h: Header, secs: seq<nat>,
                     splice: nat, grow: nat, j: nat, q: nat, w: nat, phEnd: nat, shEnd: nat)
    requires EditTable(a, secs, h.shoff, h.shentsize, SecEdit(h, splice, grow)) == Some(b)
    requires SameOutside(img, a, h.phoff, phEnd) && SameOutside(b, r, 0, EhSize(h.is64))
    requires phEnd <= q && EhSize(h.is64) <= q && grow > 0 && j < |secs|
    requires q == FieldPos(h, j) + grow && w == ShOffsetField(h.is64).size && ShSize(h.is64) <= h.shentsize
    requires shEnd == EntryPos(h.shoff, h.shentsize, |secs|) && h.shoff <= shEnd <= |img|
    requires grow < w || forall k :: j < k < |secs| ==> secs[k] <= splice
    requires NumberAt(img, q, w, h.little) == Some(secs[j])
    ensures |r| == |img| && NumberAt(r, q, w, h.little) == Some(MovedReading(secs[j], splice, grow, w, h.little))
  {
    WindowKept(img, a, h.phoff, phEnd, q, w);
    FieldAfter(a, secs, h, splice, grow, h.shoff, h.shentsize, b, j, q, w, shEnd);
    WindowKept(b, r, 0, EhSize(h.is64), q, w);
  }

  // ---------------------------------------------------------------------
  // The table as a whole
  // ---------------------------------------------------------------------

  /** Entry `k` of the table at `pos`. */
  function EntryRead<T>(raw: seq<byte>, pos: nat, ent: nat, size: nat, read: seq<byte> -> T, k: nat): Option<T> {
    var p := EntryPos(pos, ent, k);
    if p + size <= |raw| then Some(read(raw[p..p + size])) else None
  }

  /** A table holds `items` if every entry reads as its item. */
  lemma {:induction false} TablePointwise<T>(raw: seq<byte>, pos: nat, ent: nat, size: nat, read: seq<byte> -> T, items: seq<T>)
    requires forall k: nat :: k < |items| ==> EntryRead(raw, pos, ent, size, read, k) == Some(items[k])
    ensures HasTable(raw, pos, ent, size, read, items)
    decreases items
  {
    if items != [] {
      forall k: nat | k < |items| - 1
        ensures EntryRead(raw, pos + ent, ent, size, read, k) == Some(items[1..][k])
      {
        assert EntryRead(raw, pos, ent, size, read, k + 1) == Some(items[k + 1]);
      }
      assert EntryRead(raw, pos, ent, size, read, 0) == Some(items[0]);
      TablePointwise(raw, pos + ent, ent, size, read, items[1..]);
    }
  }

  /** The last of the sections that lie behind the splice. */
  lemma {:induction false} LastBehind(secs: seq<nat>, splice: nat) returns (j: nat)
    requires exists k :: 0 <= k < |secs| && secs[k] > splice
    ensures j < |secs| && secs[j] > splice && forall k :: j < k < |secs| ==> secs[k] <= splice
    decreases |secs|
  {
    j := |secs| - 1;
    if secs[j] <= splice {
      var front := secs[..j];
      var k :| 0 <= k < |secs| && secs[k] > splice;
      assert front[k] > splice;
      j := LastBehind(front, splice);
      assert forall k :: j < k < |front| ==> secs[k] == front[k];
    }
  }

  /** Whether the moved entry of a section shows the right offset. */
  predicate EntryRight(x: nat, splice: nat, grow: nat, w: nat, little: bool) {
    x <= splice || (grow < w && Overlaid(x, x + grow, grow, w, little) == x + grow)
  }

  predicate EntriesRight(secs: seq<nat>, splice: nat, grow: nat, w: nat, little: bool) {
    forall k :: 0 <= k < |secs| ==> EntryRight(secs[k], splice, grow, w, little)
  }

  // From here on reading an entry is a parameter.

  /** The entries of the table at `pos`, as far as they are known one by one. */
  predicate EntriesRead(r: seq<byte>, pos: nat, ent: nat, size: nat, read: seq<byte> -> nat,
                        secs: seq<nat>, splice: nat, grow: nat, w: nat, little: bool)
  {
    forall j: nat :: j < |secs| && (grow < w || forall k :: j < k < |secs| ==> secs[k] <= splice) ==>
                       EntryRead(r, pos, ent, size, read, j) == Some(MovedReading(secs[j], splice, grow, w, little))
  }

  /** The fields of the moved table hold what they held. */
  predicate FieldsHold(img: seq<byte>, h: Header, secs: seq<nat>, grow: nat, w: nat) {
    forall j: nat :: j < |secs| ==> NumberAt(img, FieldPos(h, j) + grow, w, h.little) == Some(secs[j])
  }

  /** The image between the header writes: `a` and `b` are before and after the loop over
      section headers, and the moved table is still as it was. */
  predicate Between(img: seq<byte>, a: seq<byte>, b: seq<byte>, r: seq<byte>, h: Header, secs: seq<nat>,
                    splice: nat, grow: nat, w: nat, phEnd: nat, shEnd: nat)
  {
    && EditTable(a, secs, h.shoff, h.shentsize, SecEdit(h, splice, grow)) == Some(b)
    && SameOutside(img, a, h.phoff, phEnd) && SameOutside(b, r, 0, EhSize(h.is64))
    && phEnd <= h.shoff && EhSize(h.is64) <= h.shoff && ShSize(h.is64) <= h.shentsize && grow > 0
    && shEnd == EntryPos(h.shoff, h.shentsize, |secs|) && h.shoff <= shEnd && shEnd + grow <= |img|
    && w == ShOffsetField(h.is64).size && FieldsHold(img, h, secs, grow, w)
  }

  lemma MovedEntry(img: seq<byte>, a: seq<byte>, b: seq<byte>, r: seq<byte>, h: Header, secs: seq<nat>,
                   splice: nat, grow: nat, w: nat, phEnd: nat, shEnd: nat, j: nat)
    requires Between(img, a, b, r, h, secs, splice, grow, w, phEnd, shEnd) == true && j < |secs|
    requires grow < w || forall k :: j < k < |secs| ==> secs[k] <= splice
    ensures EntryRead(r, h.shoff + grow, h.shentsize, ShSize(h.is64), SecReader(h.is64, h.little), j)
         == Some(MovedReading(secs[j], splice, grow, w, h.little))
  {
    var e := EntryPos(h.shoff, h.shentsize, j);
    EntryInTable(h.shoff, h.shentsize, |secs|, j);
    FieldThrough(img, a, b, r, h, secs, splice, grow, j, FieldPos(h, j) + grow, w, phEnd, shEnd);
    EntryPosShift(h.shoff, h.shentsize, j, grow);
    FieldOfEntry(r, h, e + grow, w, MovedReading(secs[j], splice, grow, w, h.little));
  }

  lemma FieldOfEntry(r: seq<byte>, h: Header, e: nat, w: nat, x: nat)
    requires e + ShSize(h.is64) <= |r| && w == ShOffsetField(h.is64).size
    requires NumberAt(r, e + ShOffsetField(h.is64).off, w, h.little) == Some(x)
    ensures SecReader(h.is64, h.little)(r[e..e + ShSize(h.is64)]) == x
  {
    FieldIs(r, e, ShSize(h.is64), ShOffsetField(h.is64), h.little);
  }

  lemma AllEntries(img: seq<byte>, a: seq<byte>, b: seq<byte>, r: seq<byte>, h: Header, secs: seq<nat>,
                   splice: nat, grow: nat, w: nat, phEnd: nat, shEnd: nat, read: seq<byte> -> nat)
    requires Between(img, a, b, r, h, secs, splice, grow, w, phEnd, shEnd) == true
    requires read == SecReader(h.is64, h.little)
    ensures EntriesRead(r, h.shoff + grow, h.shentsize, ShSize(h.is64), read, secs, splice, grow, w, h.little)
  {
    forall j: nat | j < |secs| && (grow < w || forall k :: j < k < |secs| ==> secs[k] <= splice)
      ensures EntryRead(r, h.shoff + grow, h.shentsize, ShSize(h.is64), read, j)
           == Some(MovedReading(secs[j], splice, grow, w, h.little))
    {
      MovedEntry(img, a, b, r, h, secs, splice, grow, w, phEnd, shEnd, j);
    }
  }

  lemma EntryShows(r: seq<byte>, pos: nat, ent: nat, size: nat, read: seq<byte> -> nat,
                   secs: seq<nat>, splice: nat, grow: nat, w: nat, little: bool, j: nat)
    requires EntriesRead(r, pos, ent, size, read, secs, splice, grow, w, little) && size <= ent
    requires HasTable(r, pos, ent, size, read, MapSeq(MoveSec(splice, grow), secs))
    requires j < |secs| && secs[j] > splice && (grow < w || forall k :: j < k < |secs| ==> secs[k] <= splice)
    ensures MovedReading(secs[j], splice, grow, w, little) == secs[j] + grow
  {
    TableRead(r, pos, ent, size, read, MapSeq(MoveSec(splice, grow), secs), j);
    MapSeqAt(MoveSec(splice, grow), secs, j);
  }

  lemma TableRead<T>(raw: seq<byte>, pos: nat, ent: nat, size: nat, read: seq<byte> -> T, items: seq<T>, j: nat)
    requires HasTable(raw, pos, ent, size, read, items) && size <= ent && j < |items|
    ensures EntryRead(raw, pos, ent, size, read, j) == Some(items[j])
  {
    EntryAt(raw, pos, ent, size, read, items, j);
  }

  lemma RightIfFixed(r: seq<byte>, pos: nat, ent: nat, size: nat, read: seq<byte> -> nat,
                     secs: seq<nat>, splice: nat, grow: nat, w: nat, little: bool)
    requires EntriesRead(r, pos, ent, size, read, secs, splice, grow, w, little) && size <= ent && grow > 0
    requires HasTable(r, pos, ent, size, read, MapSeq(MoveSec(splice, grow), secs))
    ensures EntriesRight(secs, splice, grow, w, little)
  {
    if grow < w {
      forall k | 0 <= k < |secs|
        ensures EntryRight(secs[k], splice, grow, w, little)
      {
        if secs[k] > splice {
          EntryShows(r, pos, ent, size, read, secs, splice, grow, w, little, k);
        }
      }
    } else if exists k :: 0 <= k < |secs| && secs[k] > splice {
      var j := LastBehind(secs, splice);
      EntryShows(r, pos, ent, size, read, secs, splice, grow, w, little, j);
    }
  }

  lemma FixedIfRight(r: seq<byte>, pos: nat, ent: nat, size: nat, read: seq<byte> -> nat,
                     secs: seq<nat>, splice: nat, grow: nat, w: nat, little: bool)
    requires EntriesRead(r, pos, ent, size, read, secs, splice, grow, w, little)
    requires EntriesRight(secs, splice, grow, w, little)
    ensures HasTable(r, pos, ent, size, read, MapSeq(MoveSec(splice, grow), secs))
  {
    var moved := MapSeq(MoveSec(splice, grow), secs);
    forall k: nat | k < |moved|
      ensures EntryRead(r, pos, ent, size, read, k) == Some(moved[k])
    {
      assert EntryRight(secs[k], splice, grow, w, little);
      if grow >= w {
        assert forall i :: k < i < |secs| ==> EntryRight(secs[i], splice, grow, w, little);
      }
      MapSeqAt(MoveSec(splice, grow), secs, k);
    }
    TablePointwise(r, pos, ent, size, read, moved);
  }

  lemma FixedExactly(r: seq<byte>, pos: nat, ent: nat, size: nat, read: seq<byte> -> nat,
                     secs: seq<nat>, splice: nat, grow: nat, w: nat, little: bool)
    requires EntriesRead(r, pos, ent, size, read, secs, splice, grow, w, little) && size <= ent && grow > 0
    ensures HasTable(r, pos, ent, size, read, MapSeq(MoveSec(splice, grow), secs))
       <==> EntriesRight(secs, splice, grow, w, little)
  {
    if EntriesRight(secs, splice, grow, w, little) {
      FixedIfRight(r, pos, ent, size, read, secs, splice, grow, w, little);
    } else if HasTable(r, pos, ent, size, read, MapSeq(MoveSec(splice, grow), secs)) {
      RightIfFixed(r, pos, ent, size, read, secs, splice, grow, w, little);
    }
  }

  /** `e_shoff` follows the table. */
  lemma HeaderFound(raw: seq<byte>, img: seq<byte>, elf: Elf, splice: nat, orig: nat, new_: seq<byte>,
                    grow: nat, r: seq<byte>)
    requires FixedUp(raw, img, elf, splice, orig, new_, grow, r)
    ensures ReadHeader(r) == Some(elf.h.(shoff := elf.h.shoff + grow))
  {
    HeaderLocal(raw, img, elf.h, splice);
    WritesInFront(img, elf, splice, splice + orig, |raw|, grow, r);
  }

  lemma BetweenWrites(raw: seq<byte>, img: seq<byte>, elf: Elf, splice: nat, orig: nat, new_: seq<byte>,
                      grow: nat, r: seq<byte>, w: nat)
    returns (a: seq<byte>, b: seq<byte>)
    requires FixedUp(raw, img, elf, splice, orig, new_, grow, r) == true && w == ShOffsetField(elf.h.is64).size
    ensures Between(img, a, b, r, elf.h, elf.secs, splice, grow, w, PhEnd(elf), ShEnd(elf)) == true
  {
    a, b := LoopIn(raw, img, elf, splice, orig, new_, grow, r);
    FieldsReady(raw, img, elf, splice, orig, new_, grow, w);
  }

  lemma FieldsReady(raw: seq<byte>, img: seq<byte>, elf: Elf, splice: nat, orig: nat, new_: seq<byte>, grow: nat, w: nat)
    requires HasSecs(raw, elf.h, elf.secs) && TableBehind(elf, splice, splice + orig, |raw|)
    requires Relaid(raw, img, splice, orig, new_, grow) && w == ShOffsetField(elf.h.is64).size
    ensures FieldsHold(img, elf.h, elf.secs, grow, w) == true
  {
    forall j: nat | j < |elf.secs|
      ensures NumberAt(img, FieldPos(elf.h, j) + grow, w, elf.h.little) == Some(elf.secs[j])
    {
      FieldReady(raw, img, elf, splice, orig, new_, grow, j, w);
    }
  }

  /** What `_update_elf_headers_for_growth` makes of a section table behind the splice:
      its entries show the moved offsets exactly if every section is in front of the
      splice or its offset, half overwritten, happens to come out right. */
  lemma SectionsFixedIff(raw: seq<byte>, img: seq<byte>, elf: Elf, splice: nat, orig: nat, new_: seq<byte>,
                         grow: nat, r: seq<byte>)
    requires FixedUp(raw, img, elf, splice, orig, new_, grow, r) == true
    ensures HasSecs(r, elf.h.(shoff := elf.h.shoff + grow), MapSeq(MoveSec(splice, grow), elf.secs))
       <==> EntriesRight(elf.secs, splice, grow, ShOffsetField(elf.h.is64).size, elf.h.little)
  {
    var w := ShOffsetField(elf.h.is64).size;
    var a, b := BetweenWrites(raw, img, elf, splice, orig, new_, grow, r, w);
    FixedBetween(img, a, b, r, elf.h, elf.h.(shoff := elf.h.shoff + grow), elf.secs, splice, grow, w, PhEnd(elf), ShEnd(elf));
  }

  lemma FixedBetween(img: seq<byte>, a: seq<byte>, b: seq<byte>, r: seq<byte>, h: Header, h': Header, secs: seq<nat>,
                     splice: nat, grow: nat, w: nat, phEnd: nat, shEnd: nat)
    requires Between(img, a, b, r, h, secs, splice, grow, w, phEnd, shEnd) == true
    requires h' == h.(shoff := h.shoff + grow)
    ensures HasSecs(r, h', MapSeq(MoveSec(splice, grow), secs)) <==> EntriesRight(secs, splice, grow, w, h.little)
  {
    AllEntries(img, a, b, r, h, secs, splice, grow, w, phEnd, shEnd, SecReader(h.is64, h.little));
    SectionsShown(r, h', secs, splice, grow, w);
  }

  lemma SectionsShown(r: seq<byte>, h: Header, secs: seq<nat>, splice: nat, grow: nat, w: nat)
    requires EntriesRead(r, h.shoff, h.shentsize, ShSize(h.is64), SecReader(h.is64, h.little), secs, splice, grow, w, h.little)
    requires ShSize(h.is64) <= h.shentsize && grow > 0
    ensures HasSecs(r, h, MapSeq(MoveSec(splice, grow), secs)) <==> EntriesRight(secs, splice, grow, w, h.little)
  {
    FixedExactly(r, h.shoff, h.shentsize, ShSize(h.is64), SecReader(h.is64, h.little), secs, splice, grow, w, h.little);
  }

  // ---------------------------------------------------------------------
  // In files of ordinary size
  // ---------------------------------------------------------------------

  /** Dropping the low bytes of a number makes it smaller. */
  lemma {:induction false} LowBytesDropped(v: nat, w: nat, g: nat)
    requires 0 < v < Pow256(w) && 0 < g <= w
    ensures FromLe(Le(v, w)[g..]) < v
    decreases g
  {
    assert Le(v, w)[g..] == Le(v / 256, w - 1)[g - 1..];
    if v / 256 == 0 {
      ZeroBytes(w - 1, g - 1);
    } else if g == 1 {
      LeRoundTrip(v / 256, w - 1);
    } else {
      LowBytesDropped(v / 256, w - 1, g - 1);
    }
  }

  lemma {:induction false} ZeroBytes(w: nat, g: nat)
    requires g <= w
    ensures FromLe(Le(0, w)[g..]) == 0
    decreases w
  {
    if g > 0 {
      assert Le(0, w)[g..] == Le(0, w - 1)[g - 1..];
      ZeroBytes(w - 1, g - 1);
    } else if w > 0 {
      assert Le(0, w)[0..] == [0] + Le(0, w - 1)[0..];
      ZeroBytes(w - 1, 0);
    }
  }

  /** The high bytes of a small number are zero. */
  lemma {:induction false} HighBytesZero(x: nat, w: nat, g: nat)
    requires g <= w && x < Pow256(g)
    ensures FromLe(Le(x, w)[g..]) == 0
    decreases g
  {
    if g == 0 {
      ZeroBytes(w, 0);
    } else {
      assert Le(x, w)[g..] == Le(x / 256, w - 1)[g - 1..];
      HighBytesZero(x / 256, w - 1, g - 1);
    }
  }

  lemma {:induction false} ZerosBehind(a: seq<byte>, b: seq<byte>)
    requires FromLe(b) == 0
    ensures FromLe(a + b) == FromLe(a)
  {
    if a == [] {
      assert a + b == b;
    } else {
      assert (a + b)[1..] == a[1..] + b;
      ZerosBehind(a[1..], b);
    }
  }

  /** The low bytes of a small number are all of it. */
  lemma {:induction false} LowBytesSuffice(v: nat, w: nat, g: nat)
    requires g <= w && v < Pow256(w - g)
    ensures FromBe(Be(v, w)[g..]) == v
    decreases w
  {
    if g < w {
      var front := Be(v / 256, w - 1)[g..];
      assert Be(v, w)[g..] == front + [v % 256];
      assert (front + [v % 256])[..|front|] == front;
      LowBytesSuffice(v / 256, w - 1, g);
    }
  }

  lemma {:induction false} BytesBehind(a: seq<byte>, b: seq<byte>)
    requires b != []
    ensures FromBe(a + b) >= 256 * FromBe(a)
    decreases |b|
  {
    var front := b[..|b| - 1];
    assert (a + b)[..|a + b| - 1] == a + front;
    if front == [] {
      assert a + front == a;
    } else {
      BytesBehind(a, front);
    }
  }

  /** A small offset never comes out right. */
  lemma OverlaidMisses(x: nat, v: nat, grow: nat, w: nat, little: bool)
    requires 0 < grow < w && 0 < v < Pow256(w) && x < Pow256(w - grow) && v < Pow256(w - grow)
    ensures Overlaid(x, v, grow, w, little) != v
  {
    if little {
      LowBytesDropped(v, w, grow);
      HighBytesZero(x, w, w - grow);
      ZerosBehind(Le(v, w)[grow..], Le(x, w)[w - grow..]);
    } else {
      LowBytesSuffice(v, w, grow);
      BytesBehind(Be(v, w)[grow..], Be(x, w)[w - grow..]);
    }
  }

  lemma {:induction false} Pow256Grows(m: nat, n: nat)
    requires m <= n
    ensures Pow256(m) <= Pow256(n)
  {
    if m < n {
      Pow256Grows(m, n - 1);
    }
  }

  /** No section lies behind the splice. */
  predicate NoneBehind(secs: seq<nat>, splice: nat) {
    forall k :: 0 <= k < |secs| ==> secs[k] <= splice
  }

  /** The offsets leave `grow` of their `w` bytes unused, if that is fewer than all. */
  predicate RoomAbove(secs: seq<nat>, grow: nat, w: nat) {
    grow < w ==> forall k :: 0 <= k < |secs| ==> secs[k] + grow < Pow256(w - grow)
  }

  lemma NoneBehindIff(secs: seq<nat>, splice: nat, grow: nat, w: nat, little: bool)
    requires grow > 0 && RoomAbove(secs, grow, w)
    ensures EntriesRight(secs, splice, grow, w, little) <==> NoneBehind(secs, splice)
  {
    forall k | 0 <= k < |secs|
      ensures EntryRight(secs[k], splice, grow, w, little) <==> secs[k] <= splice
    {
      RightIffInFront(secs[k], splice, grow, w, little);
    }
  }

  lemma RightIffInFront(x: nat, splice: nat, grow: nat, w: nat, little: bool)
    requires grow > 0 && (grow < w ==> x + grow < Pow256(w - grow))
    ensures EntryRight(x, splice, grow, w, little) <==> x <= splice
  {
    if grow < w && x > splice {
      Pow256Grows(w - grow, w);
      OverlaidMisses(x, x + grow, grow, w, little);
    }
  }

  /** Where offsets have room above them, as 64-bit offsets have in a file under 4 GiB when
      a segment grows by 4, and always when it grows by 8 or more, the section headers are
      right exactly if no section lies behind the splice. */
  lemma SectionsFixedIffNoneBehind(raw: seq<byte>, img: seq<byte>, elf: Elf, splice: nat, orig: nat, new_: seq<byte>,
                                   grow: nat, r: seq<byte>)
    requires FixedUp(raw, img, elf, splice, orig, new_, grow, r) == true
    requires grow > 0 && RoomAbove(elf.secs, grow, ShOffsetField(elf.h.is64).size) == true
    ensures HasSecs(r, elf.h.(shoff := elf.h.shoff + grow), MapSeq(MoveSec(splice, grow), elf.secs))
       <==> NoneBehind(elf.secs, splice)
  {
    NoneBehindIff(elf.secs, splice, grow, ShOffsetField(elf.h.is64).size, elf.h.little);
    SectionsFixedIff(raw, img, elf, splice, orig, new_, grow, r);
  }
}
