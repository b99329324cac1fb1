// Pairing primary and backup partitions (`find_base_names`), and exactly when
// the pairing is complete without using a name twice.
module PartitionPairs {
  import opened Bytes
  import opened Partitions

  datatype Pair = Pair(base: string, primary: string, backup: string)

  const SUFFIX_A: string := "_a"
  const SUFFIX_B: string := "_b"
  const SUFFIX_BACKUP: string := "_BACKUP"

  predicate EndsWith(s: string, suffix: string) {
    |suffix| <= |s| && s[|s| - |suffix|..] == suffix
  }

  /** `name[:-2]` */
  function BaseOf(name: string): string { name[..Max(0, |name| - 2)] }

  /** The pair that a name starts, if any: `<base>_a` with `<base>_b`, or else any name that
      is not itself a backup with `<name>_BACKUP`. */
  function PairOf(all: set<string>, name: string): Option<Pair> {
    if EndsWith(name, SUFFIX_A) && BaseOf(name) + SUFFIX_B in all then
      Some(Pair(BaseOf(name), name, BaseOf(name) + SUFFIX_B))
    else if EndsWith(name, SUFFIX_BACKUP) then None
    else if name + SUFFIX_BACKUP in all then Some(Pair(name, name, name + SUFFIX_BACKUP))
    else None
  }

  /** The loop: names that are part of an earlier pair are passed over. */
  function PairsFrom(all: set<string>, names: seq<string>, seen: set<string>): seq<Pair>
    decreases names
  {
    if names == [] then []
    else
      var p := PairOf(all, names[0]);
      if names[0] in seen || p.None? then PairsFrom(all, names[1..], seen)
      else [p.value] + PairsFrom(all, names[1..], seen + {p.value.primary, p.value.backup})
  }

  function KeySet(names: seq<string>): set<string> { set n | n in names }

  function FindBaseNames(names: seq<string>): seq<Pair> {
    PairsFrom(KeySet(names), names, {})
  }

  /** What a name that has not been seen adds. */
  method StartPair(all: set<string>, name: string) returns (p: Option<Pair>)
    ensures p == PairOf(all, name)
  {
    if EndsWith(name, SUFFIX_A) {
      var backupName := BaseOf(name) + SUFFIX_B;
      if backupName in all {
        return Some(Pair(BaseOf(name), name, backupName));
      }
    }
    if EndsWith(name, SUFFIX_BACKUP) {
      return None;
    }
    var backupName := name + SUFFIX_BACKUP;
    p := if backupName in all then Some(Pair(name, name, backupName)) else None;
  }

  method CollectPairs(names: seq<string>) returns (pairs: seq<Pair>)
    ensures pairs == FindBaseNames(names)
  {
    pairs := [];
    var all := KeySet(names);
    var seen: set<string> := {};
    for k := 0 to |names|
      invariant pairs + PairsFrom(all, names[k..], seen) == PairsFrom(all, names, {})
    {
      assert names[k..][1..] == names[k + 1..];
      if names[k] in seen {
        continue;
      }
      var p := StartPair(all, names[k]);
      if p.Some? {
        pairs := pairs + [p.value];
        seen := seen + {p.value.primary, p.value.backup};
      }
    }
    assert pairs + [] == pairs;
  }

  // ---------------------------------------------------------------------
  // Every matching pair
  // ---------------------------------------------------------------------

  /** The pairs that the names start, none passed over. */
  function AllPairs(all: set<string>, names: seq<string>): seq<Pair> {
    if names == [] then []
    else
      var p := PairOf(all, names[0]);
      (if p.Some? then [p.value] else []) + AllPairs(all, names[1..])
  }

  /** No `x_a`, `x_b` and `x_b_BACKUP` together. */
  predicate NoConflict(all: set<string>) {
    forall n :: n in all && EndsWith(n, SUFFIX_A) ==> !Clash(all, BaseOf(n))
  }

  predicate Clash(all: set<string>, x: string) {
    x + SUFFIX_B in all && x + SUFFIX_B + SUFFIX_BACKUP in all
  }

  predicate Apart(p: Pair, q: Pair) {
    && p.primary != q.primary && p.primary != q.backup
    && p.backup != q.primary && p.backup != q.backup
  }

  /** No name is used twice. */
  predicate NoReuse(ps: seq<Pair>) {
    ps != [] ==>
      && ps[0].primary != ps[0].backup
      && (forall q :: q in ps[1..] ==> Apart(ps[0], q))
      && NoReuse(ps[1..])
  }

  // Suffixes.

  lemma LastChar(s: string, suffix: string)
    requires EndsWith(s, suffix) && suffix != ""
    ensures s != "" && s[|s| - 1] == suffix[|suffix| - 1]
  {
    assert s[|s| - |suffix|..][|suffix| - 1] == s[|s| - 1];
  }

  lemma OneSuffix(s: string)
    ensures !(EndsWith(s, SUFFIX_A) && EndsWith(s, SUFFIX_BACKUP))
    ensures !(EndsWith(s, SUFFIX_B) && EndsWith(s, SUFFIX_BACKUP))
    ensures !(EndsWith(s, SUFFIX_A) && EndsWith(s, SUFFIX_B))
  {
    if EndsWith(s, SUFFIX_A) {
      LastChar(s, SUFFIX_A);
    }
    if EndsWith(s, SUFFIX_B) {
      LastChar(s, SUFFIX_B);
    }
    if EndsWith(s, SUFFIX_BACKUP) {
      LastChar(s, SUFFIX_BACKUP);
    }
  }

  lemma Suffixed(x: string, suffix: string)
    ensures EndsWith(x + suffix, suffix)
  {
  }

  lemma Rejoin(name: string)
    requires EndsWith(name, SUFFIX_A)
    ensures name == BaseOf(name) + SUFFIX_A
  {
    assert name == name[..|name| - 2] + name[|name| - 2..];
  }

  lemma RejoinBackup(name: string)
    requires EndsWith(name, SUFFIX_BACKUP)
    ensures exists x: string :: name == x + "_BACKUP"
  {
    assert name == name[..|name| - 7] + "_BACKUP";
  }

  lemma CutSuffix(x: string, y: string, suffix: string)
    requires x + suffix == y + suffix
    ensures x == y
  {
    assert |x| == |y|;
    assert x == (x + suffix)[..|x|] == (y + suffix)[..|y|] == y;
  }

  /** A backup starts no pair of its own, unless there is a clash. */
  lemma BackupStartsNone(all: set<string>, name: string, p: Pair)
    requires NoConflict(all) && name in all && PairOf(all, name) == Some(p)
    ensures PairOf(all, p.backup).None?
  {
    Suffixed(BaseOf(name), SUFFIX_B);
    Suffixed(name, SUFFIX_BACKUP);
    OneSuffix(p.backup);
  }

  lemma NotABackup(all: set<string>, n: string, m: string, p: Pair, q: Pair)
    requires NoConflict(all) && m in all && PairOf(all, n) == Some(p) && PairOf(all, m) == Some(q)
    ensures n != q.backup && p.primary == n
  {
    BackupStartsNone(all, m, q);
  }

  lemma BackupsDiffer(all: set<string>, n: string, m: string, p: Pair, q: Pair)
    requires n != m && PairOf(all, n) == Some(p) && PairOf(all, m) == Some(q)
    ensures p.backup != q.backup
  {
    if p.backup == q.backup {
      SameBackup(all, n, m, p, q);
    }
  }

  /** Two names start pairs that are apart. */
  lemma PairsApart(all: set<string>, n: string, m: string, p: Pair, q: Pair)
    requires NoConflict(all) && n in all && m in all && n != m
    requires PairOf(all, n) == Some(p) && PairOf(all, m) == Some(q)
    ensures Apart(p, q)
  {
    NotABackup(all, n, m, p, q);
    NotABackup(all, m, n, q, p);
    BackupsDiffer(all, n, m, p, q);
  }

  lemma SameBackup(all: set<string>, n: string, m: string, p: Pair, q: Pair)
    requires PairOf(all, n) == Some(p) && PairOf(all, m) == Some(q) && p.backup == q.backup
    ensures n == m
  {
    BackupForm(all, n, p);
    BackupForm(all, m, q);
    OneSuffix(p.backup);
    if EndsWith(p.backup, SUFFIX_B) {
      CutSuffix(BaseOf(n), BaseOf(m), SUFFIX_B);
      Rejoin(n);
      Rejoin(m);
    } else {
      CutSuffix(n, m, SUFFIX_BACKUP);
    }
  }

  /** A backup says how its primary is named. */
  lemma BackupForm(all: set<string>, n: string, p: Pair)
    requires PairOf(all, n) == Some(p)
    ensures EndsWith(p.backup, SUFFIX_B) ==> EndsWith(n, SUFFIX_A) && p.backup == BaseOf(n) + SUFFIX_B
    ensures !EndsWith(p.backup, SUFFIX_B) ==> p.backup == n + SUFFIX_BACKUP
  {
    OneSuffix(p.backup);
    if p.backup == n + SUFFIX_BACKUP {
      Suffixed(n, SUFFIX_BACKUP);
    } else {
      Suffixed(BaseOf(n), SUFFIX_B);
    }
  }

  lemma NotItsOwnBackup(all: set<string>, name: string, p: Pair)
    requires NoConflict(all) && name in all && PairOf(all, name) == Some(p)
    ensures p.primary == name && p.primary != p.backup
  {
    BackupStartsNone(all, name, p);
  }

  lemma {:induction false} FromName(all: set<string>, names: seq<string>, q: Pair)
    requires q in AllPairs(all, names)
    ensures q.primary in names && PairOf(all, q.primary) == Some(q)
  {
    var p := PairOf(all, names[0]);
    if p.None? || q != p.value {
      assert q in AllPairs(all, names[1..]);
      FromName(all, names[1..], q);
    }
  }

  lemma {:induction false} AllPairsApart(all: set<string>, names: seq<string>)
    requires NoConflict(all) && Distinct(names) && forall n :: n in names ==> n in all
    ensures NoReuse(AllPairs(all, names))
    decreases names
  {
    if names != [] {
      var p, rest := PairOf(all, names[0]), AllPairs(all, names[1..]);
      AllPairsApart(all, names[1..]);
      if p.Some? {
        NotItsOwnBackup(all, names[0], p.value);
        assert ([p.value] + rest)[1..] == rest;
        forall q | q in rest
          ensures Apart(p.value, q)
        {
          FromName(all, names[1..], q);
          HeadDiffers(names, q.primary);
          PairsApart(all, names[0], q.primary, p.value, q);
        }
      } else {
        assert [] + rest == rest;
      }
    }
  }

  lemma HeadDiffers(names: seq<string>, n: string)
    requires Distinct(names) && names != [] && n in names[1..]
    ensures n != names[0]
  {
  }

  /** `seen` holds only names that start no pair, apart from those already done. */
  lemma {:induction false} NothingLost(all: set<string>, names: seq<string>, seen: set<string>)
    requires NoConflict(all) && Distinct(names) && forall n :: n in names ==> n in all
    requires forall n :: n in names && n in seen ==> PairOf(all, n).None?
    ensures PairsFrom(all, names, seen) == AllPairs(all, names)
    decreases names
  {
    if names != [] {
      var p := PairOf(all, names[0]);
      if p.Some? {
        BackupStartsNone(all, names[0], p.value);
        NotItsOwnBackup(all, names[0], p.value);
        NothingLost(all, names[1..], seen + {p.value.primary, p.value.backup});
      } else {
        NothingLost(all, names[1..], seen);
      }
    }
  }

  lemma {:induction false} InAllPairs(all: set<string>, names: seq<string>, n: string)
    requires n in names && PairOf(all, n).Some?
    ensures PairOf(all, n).value in AllPairs(all, names)
  {
    if n != names[0] {
      InAllPairs(all, names[1..], n);
    }
  }

  lemma {:induction false} ReuseFound(ps: seq<Pair>, p: Pair, q: Pair)
    requires p in ps && q in ps && p.backup == q.primary
    ensures !NoReuse(ps)
  {
    if p != ps[0] {
      assert p in ps[1..];
      if q != ps[0] {
        ReuseFound(ps[1..], p, q);
      } else {
        assert !Apart(ps[0], p);
      }
    } else if q != ps[0] {
      assert q in ps[1..] && !Apart(ps[0], q);
    }
  }

  /** Three names that clash start two pairs with a name in common. */
  lemma ClashReuses(names: seq<string>, n: string)
    requires n in names && EndsWith(n, SUFFIX_A) && Clash(KeySet(names), BaseOf(n))
    ensures !NoReuse(AllPairs(KeySet(names), names))
  {
    var all, b := KeySet(names), BaseOf(n) + SUFFIX_B;
    Suffixed(BaseOf(n), SUFFIX_B);
    OneSuffix(b);
    InAllPairs(all, names, n);
    InAllPairs(all, names, b);
    ReuseFound(AllPairs(all, names), PairOf(all, n).value, PairOf(all, b).value);
  }

  /** `find_base_names` yields every matching pair with no name in two pairs exactly if no
      `x_a`, `x_b` and `x_b_BACKUP` coexist. */
  lemma PairingIff(names: seq<string>)
    requires Distinct(names)
    ensures FindBaseNames(names) == AllPairs(KeySet(names), names) && NoReuse(FindBaseNames(names))
       <==> NoConflict(KeySet(names))
  {
    var all := KeySet(names);
    if NoConflict(all) {
      NothingLost(all, names, {});
      AllPairsApart(all, names);
    } else {
      var n :| n in all && EndsWith(n, SUFFIX_A) && Clash(all, BaseOf(n));
      ClashReuses(names, n);
    }
  }

  // ---------------------------------------------------------------------
  // The pairs in terms of the names
  // ---------------------------------------------------------------------

  /** `x_a` with `x_b`; the base is `x`. */
  predicate SlotPair(names: seq<string>, p: Pair) {
    p.primary == p.base + "_a" && p.backup == p.base + "_b" && p.primary in names && p.backup in names
  }

  /** `x` with `x_BACKUP`, where `x` is neither a backup itself nor the first of two slots; the
      base is `x`. */
  ghost predicate BackupPair(names: seq<string>, p: Pair) {
    && p.primary == p.base && p.backup == p.base + "_BACKUP" && p.primary in names && p.backup in names
    && (forall x: string :: p.base != x + "_BACKUP")
    && (forall x: string :: p.base == x + "_a" ==> x + "_b" !in names)
  }

  /** The matching pairs are those two kinds. */
  lemma AllPairsAre(names: seq<string>, p: Pair)
    ensures p in AllPairs(KeySet(names), names) <==> SlotPair(names, p) || BackupPair(names, p)
  {
    var all := KeySet(names);
    if p in AllPairs(all, names) {
      FromName(all, names, p);
      PairIs(names, p.primary, p);
    }
    if SlotPair(names, p) || BackupPair(names, p) {
      IsPair(names, p);
      InAllPairs(all, names, p.primary);
    }
  }

  lemma PairIs(names: seq<string>, n: string, p: Pair)
    requires n in names && PairOf(KeySet(names), n) == Some(p)
    ensures SlotPair(names, p) || BackupPair(names, p)
  {
    if EndsWith(n, SUFFIX_A) {
      Rejoin(n);
    }
    if p.primary == p.base {
      forall x: string
        ensures n != x + "_BACKUP"
      {
        if n == x + "_BACKUP" {
          Suffixed(x, SUFFIX_BACKUP);
          OneSuffix(n);
        }
      }
      forall x: string | n == x + "_a"
        ensures x + "_b" !in names
      {
        Suffixed(x, SUFFIX_A);
        assert BaseOf(n) == x;
      }
    }
  }

  lemma IsPair(names: seq<string>, p: Pair)
    requires SlotPair(names, p) || BackupPair(names, p)
    ensures PairOf(KeySet(names), p.primary) == Some(p)
  {
    if SlotPair(names, p) {
      Suffixed(p.base, SUFFIX_A);
      assert BaseOf(p.primary) == p.base;
    } else {
      if EndsWith(p.base, SUFFIX_A) {
        Rejoin(p.base);
      }
      if EndsWith(p.base, SUFFIX_BACKUP) {
        RejoinBackup(p.base);
      }
    }
  }

  // ---------------------------------------------------------------------
  // With clashes
  // ---------------------------------------------------------------------

  predicate Uses(p: Pair, n: string) { n == p.primary || n == p.backup }

  /** Whatever the names: a pair is reported only if its primary is in no earlier pair. */
  lemma {:induction false} PrimariesFresh(all: set<string>, names: seq<string>, seen: set<string>, i: nat, j: nat)
    requires i < j < |PairsFrom(all, names, seen)|
    ensures !Uses(PairsFrom(all, names, seen)[i], PairsFrom(all, names, seen)[j].primary)
    decreases names
  {
    var p := PairOf(all, names[0]);
    if names[0] in seen || p.None? {
      PrimariesFresh(all, names[1..], seen, i, j);
    } else if i > 0 {
      PrimariesFresh(all, names[1..], seen + {p.value.primary, p.value.backup}, i - 1, j - 1);
    } else {
      PrimariesUnseen(all, names[1..], seen + {p.value.primary, p.value.backup}, j - 1);
    }
  }

  lemma {:induction false} PrimariesUnseen(all: set<string>, names: seq<string>, seen: set<string>, j: nat)
    requires j < |PairsFrom(all, names, seen)|
    ensures PairsFrom(all, names, seen)[j].primary !in seen
    decreases names
  {
    var p := PairOf(all, names[0]);
    if names[0] in seen || p.None? {
      PrimariesUnseen(all, names[1..], seen, j);
    } else if j > 0 {
      PrimariesUnseen(all, names[1..], seen + {p.value.primary, p.value.backup}, j - 1);
    } else {
      PrimaryIsName(all, names[0], p.value);
    }
  }

  lemma PrimaryIsName(all: set<string>, n: string, p: Pair)
    requires PairOf(all, n) == Some(p)
    ensures p.primary == n
  {
  }

  /** And a pair is left out only if its primary is in one that is reported. */
  lemma {:induction false} LeftOutUsed(all: set<string>, names: seq<string>, seen: set<string>, q: Pair)
    requires q in AllPairs(all, names)
    ensures var ps := PairsFrom(all, names, seen);
            q in ps || q.primary in seen || exists p :: p in ps && Uses(p, q.primary)
    decreases names
  {
    var p := PairOf(all, names[0]);
    if p.Some? && q == p.value {
      PrimaryIsName(all, names[0], q);
    } else if names[0] in seen || p.None? {
      LeftOutUsed(all, names[1..], seen, q);
    } else {
      var rest := PairsFrom(all, names[1..], seen + {p.value.primary, p.value.backup});
      LeftOutUsed(all, names[1..], seen + {p.value.primary, p.value.backup}, q);
      assert PairsFrom(all, names, seen) == [p.value] + rest;
      assert p.value in [p.value] + rest && forall r :: r in rest ==> r in [p.value] + rest;
      if !(q.primary in seen) && Uses(p.value, q.primary) {
        assert p.value in PairsFrom(all, names, seen) && Uses(p.value, q.primary);
      }
    }
  }
}
