// Tables of fixed-size entries inside an image, and editing them in place.
//
// An entry is decoded by `read` from its first `size` bytes; entries stand
// `ent` bytes apart. Nothing here knows what an entry means.
module Tables {
  import opened Bytes

  /** Position of entry `i`: `pos + i * ent`. */
  function EntryPos(pos: nat, ent: nat, i: nat): nat
    decreases i
  {
    if i == 0 then pos else EntryPos(pos + ent, ent, i - 1)
  }

  lemma {:induction false} EntryPosIsProduct(pos: nat, ent: nat, i: nat)
    ensures EntryPos(pos, ent, i) == pos + i * ent
    decreases i
  {
    if i > 0 {
      EntryPosIsProduct(pos + ent, ent, i - 1);
      assert i * ent == ent + (i - 1) * ent;
    }
  }

  lemma {:induction false} EntryPosGrows(pos: nat, ent: nat, i: nat)
    ensures pos <= EntryPos(pos, ent, i)
    decreases i
  {
    if i > 0 {
      EntryPosGrows(pos + ent, ent, i - 1);
    }
  }

  /** `n` entries; None when one does not lie within the image. */
  function ReadTable<T>(raw: seq<byte>, pos: nat, ent: nat, n: nat, size: nat, read: seq<byte> -> T): Option<seq<T>>
    decreases n
  {
    if n == 0 then Some([])
    else if pos + size > |raw| then None
    else
      var rest :- ReadTable(raw, pos + ent, ent, n - 1, size, read);
      Some([read(raw[pos..pos + size])] + rest)
  }

  /** `edit` applied to every entry in turn, with the value read from it beforehand. */
  function EditTable<T>(raw: seq<byte>, items: seq<T>, pos: nat, ent: nat,
                        edit: (seq<byte>, nat, T) -> Option<seq<byte>>): Option<seq<byte>>
    decreases items
  {
    if items == [] then Some(raw)
    else
      var r :- edit(raw, pos, items[0]);
      EditTable(r, items[1..], pos + ent, ent, edit)
  }

  function MapSeq<T>(f: T -> T, s: seq<T>): (r: seq<T>)
    ensures |r| == |s|
  {
    if s == [] then [] else [f(s[0])] + MapSeq(f, s[1..])
  }

  lemma {:induction false} MapSeqAt<T>(f: T -> T, s: seq<T>, i: nat)
    requires i < |s|
    ensures MapSeq(f, s)[i] == f(s[i])
  {
    if i > 0 {
      MapSeqAt(f, s[1..], i - 1);
    }
  }

  // ---------------------------------------------------------------------
  // Bytes that stay
  // ---------------------------------------------------------------------

  lemma SubSlice(s: seq<byte>, t: seq<byte>, lo: nat, hi: nat, a: nat, b: nat)
    requires lo <= a <= b <= hi <= |s| && hi <= |t| && s[lo..hi] == t[lo..hi]
    ensures s[a..b] == t[a..b]
  {
    forall i | a <= i < b
      ensures s[i] == t[i]
    {
      assert s[i] == s[lo..hi][i - lo] && t[i] == t[lo..hi][i - lo];
    }
  }

  /** Corresponding parts of equal stretches are equal. */
  lemma PartOfCopy(s: seq<byte>, p: nat, t: seq<byte>, q: nat, len: nat, a: nat, n: nat)
    requires p + len <= |s| && q + len <= |t| && s[p..p + len] == t[q..q + len] && a + n <= len
    ensures s[p + a..p + a + n] == t[q + a..q + a + n]
  {
    forall i | p + a <= i < p + a + n
      ensures s[i] == t[i - p + q]
    {
      assert s[i] == s[p..p + len][i - p] && t[i - p + q] == t[q..q + len][i - p];
    }
  }

  /** Only `raw[lo..hi]` changes. */
  predicate SameOutside(raw: seq<byte>, r: seq<byte>, lo: nat, hi: nat) {
    && lo <= hi <= |raw| == |r|
    && r[..lo] == raw[..lo] && r[hi..] == raw[hi..]
  }

  lemma SameOutsideTrans(a: seq<byte>, b: seq<byte>, c: seq<byte>, lo: nat, mid: nat, hi: nat)
    requires SameOutside(a, b, lo, mid) && SameOutside(b, c, mid, hi)
    ensures SameOutside(a, c, lo, hi)
  {
    SubSlice(c, b, 0, mid, 0, lo);
    SubSlice(b, a, mid, |a|, hi, |a|);
  }

  lemma SameOutsideWiden(a: seq<byte>, b: seq<byte>, lo: nat, hi: nat, lo': nat, hi': nat)
    requires SameOutside(a, b, lo, hi) && lo' <= lo && hi <= hi' <= |a|
    ensures SameOutside(a, b, lo', hi')
  {
    SubSlice(b, a, 0, lo, 0, lo');
    SubSlice(b, a, hi, |a|, hi', |a|);
  }

  /** Nothing from `n` on changes. */
  predicate SameTail(raw: seq<byte>, r: seq<byte>, n: nat) {
    n <= |raw| == |r| && r[n..] == raw[n..]
  }

  lemma SameTailFrom(raw: seq<byte>, r: seq<byte>, lo: nat, hi: nat, n: nat)
    requires SameOutside(raw, r, lo, hi) && hi <= n <= |raw|
    ensures SameTail(raw, r, n)
  {
    SubSlice(r, raw, hi, |raw|, n, |raw|);
  }

  lemma SameTailTrans(a: seq<byte>, b: seq<byte>, c: seq<byte>, n: nat)
    requires SameTail(a, b, n) && SameTail(b, c, n)
    ensures SameTail(a, c, n)
  {
  }

  // ---------------------------------------------------------------------
  // Tables that hold given values
  // ---------------------------------------------------------------------

  predicate HasTable<T(==)>(raw: seq<byte>, pos: nat, ent: nat, size: nat, read: seq<byte> -> T, items: seq<T>)
    decreases items
  {
    items != [] ==>
      && pos + size <= |raw|
      && read(raw[pos..pos + size]) == items[0]
      && HasTable(raw, pos + ent, ent, size, read, items[1..])
  }

  lemma {:induction false} ReadTableIff<T>(raw: seq<byte>, pos: nat, ent: nat, n: nat, size: nat,
                                           read: seq<byte> -> T, items: seq<T>)
    ensures ReadTable(raw, pos, ent, n, size, read) == Some(items)
       <==> |items| == n && HasTable(raw, pos, ent, size, read, items)
    decreases n
  {
    if n > 0 && items != [] {
      ReadTableIff(raw, pos + ent, ent, n - 1, size, read, items[1..]);
      if pos + size <= |raw| && ReadTable(raw, pos, ent, n, size, read).Some? {
        var rest := ReadTable(raw, pos + ent, ent, n - 1, size, read).value;
        var one := [read(raw[pos..pos + size])];
        assert (one + rest)[1..] == rest && (one + rest)[0] == one[0];
        assert items == [items[0]] + items[1..];
      }
    }
  }

  /** The table is read from its own bytes only. */
  lemma {:induction false} TableLocal<T>(s: seq<byte>, t: seq<byte>, lo: nat, hi: nat, pos: nat, ent: nat,
                                         size: nat, read: seq<byte> -> T, items: seq<T>)
    requires size <= ent && lo <= pos && EntryPos(pos, ent, |items|) <= hi
    requires lo <= hi <= |s| && hi <= |t| && s[lo..hi] == t[lo..hi] && HasTable(s, pos, ent, size, read, items)
    ensures HasTable(t, pos, ent, size, read, items)
    decreases items
  {
    if items != [] {
      EntryPosGrows(pos + ent, ent, |items| - 1);
      TableLocal(s, t, lo, hi, pos + ent, ent, size, read, items[1..]);
      SubSlice(s, t, lo, hi, pos, pos + size);
    }
  }

  lemma {:induction false} EntryAt<T>(raw: seq<byte>, pos: nat, ent: nat, size: nat, read: seq<byte> -> T,
                                      items: seq<T>, i: nat)
    requires size <= ent && i < |items| && HasTable(raw, pos, ent, size, read, items)
    ensures var p := EntryPos(pos, ent, i);
            && pos <= p && p + ent <= EntryPos(pos, ent, |items|)
            && p + size <= |raw| && read(raw[p..p + size]) == items[i]
    decreases i
  {
    if i > 0 {
      EntryAt(raw, pos + ent, ent, size, read, items[1..], i - 1);
    } else {
      EntryPosGrows(pos + ent, ent, |items| - 1);
    }
  }

  /** Replacing one entry in place. */
  lemma {:induction false} ReplaceEntry<T>(raw: seq<byte>, r: seq<byte>, pos: nat, ent: nat, size: nat,
                                           read: seq<byte> -> T, items: seq<T>, i: nat, x: T)
    requires size <= ent && i < |items| && HasTable(raw, pos, ent, size, read, items)
    requires EntryPos(pos, ent, |items|) <= |raw|
    requires var p := EntryPos(pos, ent, i);
             && p + size <= |r| && SameOutside(raw, r, p, p + ent) && read(r[p..p + size]) == x
    ensures HasTable(r, pos, ent, size, read, items[i := x])
    decreases i
  {
    var next := pos + ent;
    EntryPosGrows(next, ent, |items| - 1);
    if i == 0 {
      assert items[i := x][1..] == items[1..];
      TableLocal(raw, r, next, |raw|, next, ent, size, read, items[1..]);
    } else {
      EntryPosGrows(next, ent, i - 1);
      assert items[i := x][1..] == items[1..][i - 1 := x];
      ReplaceEntry(raw, r, next, ent, size, read, items[1..], i - 1, x);
      SubSlice(raw, r, 0, EntryPos(next, ent, i - 1), pos, pos + size);
    }
  }

  lemma EntryEdited<T>(raw: seq<byte>, r: seq<byte>, pos: nat, ent: nat, size: nat, read: seq<byte> -> T,
                       items: seq<T>, i: nat, x: T, end: nat)
    requires size <= ent && i < |items| && HasTable(raw, pos, ent, size, read, items)
    requires end == EntryPos(pos, ent, |items|) <= |raw|
    requires var p := EntryPos(pos, ent, i);
             && p + size <= |r| && SameOutside(raw, r, p, p + ent) && read(r[p..p + size]) == x
    ensures SameOutside(raw, r, pos, end) && HasTable(r, pos, ent, size, read, items[i := x])
  {
    var p := EntryPos(pos, ent, i);
    EntryAt(raw, pos, ent, size, read, items, i);
    ReplaceEntry(raw, r, pos, ent, size, read, items, i, x);
    SameOutsideWiden(raw, r, p, p + ent, pos, end);
  }

  /** `edit` stays within the entry and turns the value `x` read from it into `f(x)`. */
  ghost predicate EditOk<T(!new)>(size: nat, read: seq<byte> -> T,
                                  edit: (seq<byte>, nat, T) -> Option<seq<byte>>, f: T -> T)
  {
    forall raw: seq<byte>, pos: nat, x: T ::
      pos + size <= |raw| && read(raw[pos..pos + size]) == x && edit(raw, pos, x).Some? ==>
        EditedAt(raw, edit(raw, pos, x).value, pos, size, read, f(x))
  }

  predicate EditedAt<T(==)>(raw: seq<byte>, r: seq<byte>, pos: nat, size: nat, read: seq<byte> -> T, y: T) {
    SameOutside(raw, r, pos, pos + size) && read(r[pos..pos + size]) == y
  }

  /** Editing every entry edits the table in place and nothing else. */
  lemma {:induction false} EditTableEffect<T(!new)>(
    raw: seq<byte>, items: seq<T>, pos: nat, ent: nat, size: nat, read: seq<byte> -> T,
    edit: (seq<byte>, nat, T) -> Option<seq<byte>>, f: T -> T, r: seq<byte>, end: nat)
    requires size <= ent && end == EntryPos(pos, ent, |items|) && pos <= end <= |raw|
    requires HasTable(raw, pos, ent, size, read, items) && EditOk(size, read, edit, f)
    requires EditTable(raw, items, pos, ent, edit) == Some(r)
    ensures SameOutside(raw, r, pos, end)
    ensures HasTable(r, pos, ent, size, read, MapSeq(f, items))
    decreases items
  {
    if items != [] {
      var next := pos + ent;
      EntryPosGrows(next, ent, |items| - 1);
      var x := edit(raw, pos, items[0]).value;
      assert EditedAt(raw, x, pos, size, read, f(items[0]));
      SameOutsideWiden(raw, x, pos, pos + size, pos, next);
      TableLocal(raw, x, next, |raw|, next, ent, size, read, items[1..]);
      EditTableEffect(x, items[1..], next, ent, size, read, edit, f, r, end);
      SameOutsideTrans(raw, x, r, pos, next, end);
      SubSlice(r, x, 0, next, pos, pos + size);
    }
  }
}
