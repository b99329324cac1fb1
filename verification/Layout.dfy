// Little-endian numbers at known positions of a buffer.
module Layout {
  import opened Bytes
  import opened Tables

  /** The number in the `w` bytes at `pos`. */
  function Num(blob: seq<byte>, pos: nat, w: nat): nat {
    FromLe(Slice(blob, pos, pos + w))
  }

  /** A number in the middle of a blob. */
  lemma NumAt(blob: seq<byte>, pos: nat, v: nat, w: nat)
    requires v < Pow256(w) && pos + w <= |blob| && blob[pos..pos + w] == Le(v, w)
    ensures Num(blob, pos, w) == v
  {
    LeRoundTrip(v, w);
  }

  /** A part of a part. */
  lemma Within(blob: seq<byte>, cur: nat, f: seq<byte>, a: nat, b: nat)
    requires cur + |f| <= |blob| && blob[cur..cur + |f|] == f && a <= b <= |f|
    ensures blob[cur + a..cur + b] == f[a..b]
  {
    forall i | cur + a <= i < cur + b
      ensures blob[i] == f[i - cur]
    {
      assert blob[cur..cur + |f|][i - cur] == blob[i];
    }
  }

  // Where the parts of a concatenation stand in a blob that holds it at `cur`.

  lemma TwoParts(blob: seq<byte>, cur: nat, a: seq<byte>, b: seq<byte>)
    requires cur + |a| + |b| <= |blob| && blob[cur..cur + |a| + |b|] == a + b
    ensures blob[cur..cur + |a|] == a && blob[cur + |a|..cur + |a| + |b|] == b
  {
    Within(blob, cur, a + b, 0, |a|);
    Within(blob, cur, a + b, |a|, |a| + |b|);
  }

  lemma ThreeParts(blob: seq<byte>, cur: nat, a: seq<byte>, b: seq<byte>, c: seq<byte>)
    requires cur + |a| + |b| + |c| <= |blob| && blob[cur..cur + |a| + |b| + |c|] == a + b + c
    ensures blob[cur..cur + |a|] == a && blob[cur + |a|..cur + |a| + |b|] == b
    ensures blob[cur + |a| + |b|..cur + |a| + |b| + |c|] == c
  {
    TwoParts(blob, cur, a + b, c);
    TwoParts(blob, cur, a, b);
  }

  /** Bytes changed elsewhere do not show. */
  lemma NumLocal(s: seq<byte>, t: seq<byte>, lo: nat, hi: nat, pos: nat, w: nat)
    requires SameOutside(s, t, lo, hi) && (pos + w <= lo || hi <= pos)
    ensures Slice(t, pos, pos + w) == Slice(s, pos, pos + w)
  {
    var a, b := Min(pos, |s|), Min(pos + w, |s|);
    if pos + w <= lo {
      SubSlice(s, t, 0, lo, a, b);
    } else {
      SubSlice(s, t, hi, |s|, a, b);
    }
  }
}
