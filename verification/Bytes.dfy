// Bytes, fixed-width integers in both byte orders, and the three operations
// the image engines perform on a `bytearray`: slicing, slice assignment, search.
module Bytes {

  type byte = i: int | 0 <= i < 256

  datatype Option<+T> = None | Some(value: T) {
    predicate IsFailure() { None? }
    function PropagateFailure<U>(): Option<U>
      requires None?
    {
      None
    }
    function Extract(): T
      requires Some?
    {
      value
    }
  }

  function Min(a: int, b: int): int { if a < b then a else b }

  function Max(a: int, b: int): int { if a < b then b else a }

  function Pow256(w: nat): (p: nat)
    ensures p > 0
  {
    if w == 0 then 1 else 256 * Pow256(w - 1)
  }

  // ---------------------------------------------------------------------
  // Little endian
  // ---------------------------------------------------------------------

  /** The low `w` bytes of `v`, least significant first. */
  function Le(v: nat, w: nat): (s: seq<byte>)
    ensures |s| == w
  {
    if w == 0 then [] else [v % 256] + Le(v / 256, w - 1)
  }

  function FromLe(s: seq<byte>): nat {
    if s == [] then 0 else s[0] + 256 * FromLe(s[1..])
  }

  lemma {:induction false} FromLeBound(s: seq<byte>)
    ensures FromLe(s) < Pow256(|s|)
  {
    if s != [] {
      FromLeBound(s[1..]);
    }
  }

  lemma {:induction false} LeRoundTrip(v: nat, w: nat)
    requires v < Pow256(w)
    ensures FromLe(Le(v, w)) == v
  {
    if w > 0 {
      LeRoundTrip(v / 256, w - 1);
      assert Le(v, w)[1..] == Le(v / 256, w - 1);
    }
  }

  lemma {:induction false} FromLeRoundTrip(s: seq<byte>)
    ensures Le(FromLe(s), |s|) == s
  {
    if s != [] {
      FromLeRoundTrip(s[1..]);
      assert FromLe(s) % 256 == s[0] && FromLe(s) / 256 == FromLe(s[1..]);
    }
  }

  lemma FromLeInjective(s: seq<byte>, t: seq<byte>)
    requires |s| == |t| && FromLe(s) == FromLe(t)
    ensures s == t
  {
    FromLeRoundTrip(s);
    FromLeRoundTrip(t);
  }

  // ---------------------------------------------------------------------
  // Big endian
  // ---------------------------------------------------------------------

  /** The low `w` bytes of `v`, most significant first. */
  function Be(v: nat, w: nat): (s: seq<byte>)
    ensures |s| == w
  {
    if w == 0 then [] else Be(v / 256, w - 1) + [v % 256]
  }

  function FromBe(s: seq<byte>): nat {
    if s == [] then 0 else 256 * FromBe(s[..|s| - 1]) + s[|s| - 1]
  }

  lemma {:induction false} FromBeBound(s: seq<byte>)
    ensures FromBe(s) < Pow256(|s|)
  {
    if s != [] {
      FromBeBound(s[..|s| - 1]);
    }
  }

  lemma {:induction false} BeRoundTrip(v: nat, w: nat)
    requires v < Pow256(w)
    ensures FromBe(Be(v, w)) == v
  {
    if w > 0 {
      BeRoundTrip(v / 256, w - 1);
      assert Be(v, w)[..w - 1] == Be(v / 256, w - 1);
    }
  }

  lemma {:induction false} FromBeRoundTrip(s: seq<byte>)
    ensures Be(FromBe(s), |s|) == s
  {
    if s != [] {
      FromBeRoundTrip(s[..|s| - 1]);
      assert FromBe(s) % 256 == s[|s| - 1] && FromBe(s) / 256 == FromBe(s[..|s| - 1]);
    }
  }

  // ---------------------------------------------------------------------
  // Slices, slice assignment and search, with Python's clamping
  // ---------------------------------------------------------------------

  /** `s[lo:hi]` */
  function Slice<T>(s: seq<T>, lo: nat, hi: nat): seq<T> {
    var l := Min(lo, |s|);
    s[l..Max(l, Min(hi, |s|))]
  }

  /** `s[lo:hi] = t` */
  function Splice<T>(s: seq<T>, lo: nat, hi: nat, t: seq<T>): seq<T> {
    var l := Min(lo, |s|);
    s[..l] + t + s[Max(l, Min(hi, |s|))..]
  }

  /** `s[pos:pos + len(t)] = t` */
  function Put<T>(s: seq<T>, pos: nat, t: seq<T>): seq<T> {
    Splice(s, pos, pos + |t|, t)
  }

  function Fill(n: nat, b: byte): (s: seq<byte>)
    ensures |s| == n && forall i :: 0 <= i < n ==> s[i] == b
  {
    seq(n, _ => b)
  }

  predicate OccursAt(s: seq<byte>, pat: seq<byte>, p: int) {
    0 <= p && p + |pat| <= |s| && s[p..p + |pat|] == pat
  }

  /** `s.find(pat, lo, hi)`: the first occurrence lying in `s[lo:hi]`, or None. */
  function Find(s: seq<byte>, pat: seq<byte>, lo: nat, hi: nat): (r: Option<nat>)
    ensures r.Some? ==> lo <= r.value && r.value + |pat| <= hi && OccursAt(s, pat, r.value)
    ensures r.Some? ==> forall p :: lo <= p < r.value ==> !OccursAt(s, pat, p)
    ensures r.None? ==> forall p :: lo <= p && p + |pat| <= hi ==> !OccursAt(s, pat, p)
    decreases Max(0, hi - lo + 1)
  {
    if lo + |pat| > hi then None
    else if OccursAt(s, pat, lo) then Some(lo)
    else Find(s, pat, lo + 1, hi)
  }

  /** An in-bounds `Put` replaces exactly its range. */
  lemma PutInside<T>(s: seq<T>, pos: nat, t: seq<T>)
    requires pos + |t| <= |s|
    ensures |Put(s, pos, t)| == |s|
    ensures Put(s, pos, t) == s[..pos] + t + s[pos + |t|..]
    ensures forall lo, hi :: 0 <= lo <= hi <= pos ==> Put(s, pos, t)[lo..hi] == s[lo..hi]
    ensures forall lo, hi :: pos + |t| <= lo <= hi <= |s| ==> Put(s, pos, t)[lo..hi] == s[lo..hi]
    ensures Put(s, pos, t)[pos..pos + |t|] == t
  {
  }
}
