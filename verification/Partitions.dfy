// Which line of partitions.conf is kept for each partition name: the fold of
// `parse_partition_info`, after a line has been matched by its pattern.
module Partitions {
  import opened Bytes

  /** The groups of a matched line. */
  datatype Line = Line(lun: Option<string>, name: string, guid: string, filename: Option<string>)

  datatype Entry = Entry(lun: Option<string>, guid: string, filename: string)

  /** A dictionary with its keys in insertion order. */
  datatype Table = Table(names: seq<string>, entries: map<string, Entry>)

  /** Lines without an image are passed over; UFS lines need LUN 1, 2 or 4, others none. */
  predicate Accepts(ufs: bool, l: Line) {
    && l.filename.Some? && l.filename.value != ""
    && if ufs then l.lun in {Some("1"), Some("2"), Some("4")} else l.lun.None?
  }

  function EntryOf(ufs: bool, l: Line): Entry
    requires Accepts(ufs, l)
  {
    Entry(if ufs then l.lun else None, l.guid, l.filename.value)
  }

  /** `t[name] = entry` */
  function Assign(t: Table, name: string, entry: Entry): Table {
    Table(if name in t.entries then t.names else t.names + [name], t.entries[name := entry])
  }

  /** Whether an accepted UFS line gives way to the entry recorded for its name. */
  predicate GivesWay(old_: Entry, l: Line) {
    old_.lun == Some("1") || l.lun != Some("1")
  }

  /** One turn of the loop. */
  function Step(ufs: bool, t: Table, l: Line): Table {
    if !Accepts(ufs, l) then t
    else if ufs && l.name in t.entries && GivesWay(t.entries[l.name], l) then t
    else Assign(t, l.name, EntryOf(ufs, l))
  }

  function FoldLines(ufs: bool, lines: seq<Line>): Table {
    if lines == [] then Table([], map[])
    else Step(ufs, FoldLines(ufs, lines[..|lines| - 1]), lines[|lines| - 1])
  }

  method ParsePartitionInfo(ufs: bool, lines: seq<Line>) returns (t: Table)
    ensures t == FoldLines(ufs, lines)
  {
    t := Table([], map[]);
    for k := 0 to |lines|
      invariant t == FoldLines(ufs, lines[..k])
    {
      assert lines[..k + 1][..k] == lines[..k] && lines[..k + 1][k] == lines[k];
      var l := lines[k];
      if !Accepts(ufs, l) {
        continue;
      }
      if ufs && l.name in t.entries {
        if t.entries[l.name].lun == Some("1") {
          continue;
        }
        if l.lun != Some("1") {
          continue;
        }
      }
      t := Assign(t, l.name, EntryOf(ufs, l));
    }
    assert lines[..|lines|] == lines;
  }

  // ---------------------------------------------------------------------
  // What is kept
  // ---------------------------------------------------------------------

  /** The first line that satisfies `p`. */
  function FirstWhere(lines: seq<Line>, p: Line -> bool): (r: Option<nat>)
    ensures r.Some? ==> r.value < |lines| && p(lines[r.value]) && forall j :: 0 <= j < r.value ==> !p(lines[j])
    ensures r.None? ==> forall j :: 0 <= j < |lines| ==> !p(lines[j])
  {
    if lines == [] then None
    else
      var r := FirstWhere(lines[..|lines| - 1], p);
      if r.Some? then r else if p(lines[|lines| - 1]) then Some(|lines| - 1) else None
  }

  /** The last line that satisfies `p`. */
  function LastWhere(lines: seq<Line>, p: Line -> bool): (r: Option<nat>)
    ensures r.Some? ==> r.value < |lines| && p(lines[r.value]) && forall j :: r.value < j < |lines| ==> !p(lines[j])
    ensures r.None? ==> forall j :: 0 <= j < |lines| ==> !p(lines[j])
  {
    if lines == [] then None
    else if p(lines[|lines| - 1]) then Some(|lines| - 1)
    else LastWhere(lines[..|lines| - 1], p)
  }

  /** Accepted lines of a name. */
  function Named(ufs: bool, name: string): Line -> bool {
    (l: Line) => Accepts(ufs, l) && l.name == name
  }

  function NamedOnLun1(ufs: bool, name: string): Line -> bool {
    (l: Line) => Accepts(ufs, l) && l.name == name && l.lun == Some("1")
  }

  /** The line kept for a name: on UFS its first line on LUN 1, or failing that its first
      line; elsewhere its last line. */
  function Kept(ufs: bool, lines: seq<Line>, name: string): Option<nat> {
    if !ufs then LastWhere(lines, Named(ufs, name))
    else
      var one := FirstWhere(lines, NamedOnLun1(ufs, name));
      if one.Some? then one else FirstWhere(lines, Named(ufs, name))
  }

  lemma KeptIsAccepted(ufs: bool, lines: seq<Line>, name: string)
    ensures var k := Kept(ufs, lines, name);
            k.Some? ==> k.value < |lines| && Accepts(ufs, lines[k.value]) && lines[k.value].name == name
  {
  }

  function Lookup(t: Table, name: string): Option<Entry> {
    if name in t.entries then Some(t.entries[name]) else None
  }

  function EntryAt(ufs: bool, lines: seq<Line>, k: Option<nat>): Option<Entry> {
    if k.Some? && k.value < |lines| && Accepts(ufs, lines[k.value]) then Some(EntryOf(ufs, lines[k.value])) else None
  }

  /** Whatever the interleaving, the table holds for each name the entry of the line that
      `Kept` names, and nothing for a name without one. */
  lemma {:induction false} TableKeeps(ufs: bool, lines: seq<Line>, name: string)
    ensures Lookup(FoldLines(ufs, lines), name) == EntryAt(ufs, lines, Kept(ufs, lines, name))
  {
    if lines != [] {
      var before, l := lines[..|lines| - 1], lines[|lines| - 1];
      TableKeeps(ufs, before, name);
      KeptIsAccepted(ufs, before, name);
      if Accepts(ufs, l) && l.name == name {
        KeptStep(ufs, lines, before, l, name);
      } else {
        KeptSame(ufs, lines, before, l, name);
      }
    }
  }

  lemma KeptSame(ufs: bool, lines: seq<Line>, before: seq<Line>, l: Line, name: string)
    requires lines == before + [l] && !(Accepts(ufs, l) && l.name == name)
    ensures Kept(ufs, lines, name) == Kept(ufs, before, name)
  {
    assert lines[..|lines| - 1] == before;
  }

  lemma KeptStep(ufs: bool, lines: seq<Line>, before: seq<Line>, l: Line, name: string)
    requires lines == before + [l] && Accepts(ufs, l) && l.name == name
    ensures var was := Kept(ufs, before, name);
            Kept(ufs, lines, name)
            == if ufs && was.Some? && (before[was.value].lun == Some("1") || l.lun != Some("1")) then was
               else Some(|before|)
  {
    assert lines[..|lines| - 1] == before;
    KeptIsAccepted(ufs, before, name);
  }

  // ---------------------------------------------------------------------
  // The order of names
  // ---------------------------------------------------------------------

  predicate Distinct(names: seq<string>) {
    forall i, j :: 0 <= i < j < |names| ==> names[i] != names[j]
  }

  /** The keys are listed once each. */
  lemma {:induction false} NamesAreKeys(ufs: bool, lines: seq<Line>)
    ensures var t := FoldLines(ufs, lines);
            Distinct(t.names) && forall n :: n in t.names <==> n in t.entries
  {
    if lines != [] {
      NamesAreKeys(ufs, lines[..|lines| - 1]);
    }
  }

  /** Names keep their place: those of the first lines come first, in the same order. */
  lemma {:induction false} NamesInOrder(ufs: bool, lines: seq<Line>, k: nat)
    requires k <= |lines|
    ensures FoldLines(ufs, lines[..k]).names <= FoldLines(ufs, lines).names
  {
    if k == |lines| {
      assert lines[..k] == lines;
    } else {
      NamesInOrder(ufs, lines[..|lines| - 1], k);
      assert lines[..|lines| - 1][..k] == lines[..k];
    }
  }

  // ---------------------------------------------------------------------
  // The kept entry, field by field
  // ---------------------------------------------------------------------

  /** A line for `name` that counts: with an image, and on UFS for LUN 1, 2 or 4, elsewhere
      for none. */
  predicate Counts(ufs: bool, l: Line, name: string) {
    && l.name == name && l.filename.Some? && l.filename.value != ""
    && (ufs ==> l.lun == Some("1") || l.lun == Some("2") || l.lun == Some("4"))
    && (!ufs ==> l.lun == None)
  }

  predicate OnLun1(ufs: bool, l: Line, name: string) { Counts(ufs, l, name) && l.lun == Some("1") }

  /** A name is in the table exactly if some line for it counts. */
  lemma ListedIff(ufs: bool, lines: seq<Line>, name: string)
    ensures name in FoldLines(ufs, lines).entries <==> exists k :: 0 <= k < |lines| && Counts(ufs, lines[k], name)
  {
    TableKeeps(ufs, lines, name);
    KeptIsAccepted(ufs, lines, name);
    var k := Kept(ufs, lines, name);
    if k.Some? {
      assert Counts(ufs, lines[k.value], name);
    }
    if j :| 0 <= j < |lines| && Counts(ufs, lines[j], name) {
      assert Named(ufs, name)(lines[j]);
    }
  }

  /** Line `k` for `name` counts, and: on UFS it is the first on LUN 1, or none is on LUN 1 and
      it is the first; elsewhere it is the last. Then the entry has its fields. */
  lemma KeptFields(ufs: bool, lines: seq<Line>, name: string, k: nat)
    requires k < |lines| && Counts(ufs, lines[k], name)
    requires !ufs ==> forall j :: k < j < |lines| ==> !Counts(ufs, lines[j], name)
    requires ufs ==>
               if lines[k].lun == Some("1") then forall j :: 0 <= j < k ==> !OnLun1(ufs, lines[j], name)
               else (forall j :: 0 <= j < |lines| ==> !OnLun1(ufs, lines[j], name))
                    && forall j :: 0 <= j < k ==> !Counts(ufs, lines[j], name)
    ensures var t := FoldLines(ufs, lines); name in t.entries
    ensures var e := FoldLines(ufs, lines).entries[name];
            e.lun == lines[k].lun && e.guid == lines[k].guid && Some(e.filename) == lines[k].filename
  {
    TableKeeps(ufs, lines, name);
    KeptIs(ufs, lines, name, k);
  }

  lemma KeptIs(ufs: bool, lines: seq<Line>, name: string, k: nat)
    requires k < |lines| && Counts(ufs, lines[k], name)
    requires !ufs ==> forall j :: k < j < |lines| ==> !Counts(ufs, lines[j], name)
    requires ufs ==>
               if lines[k].lun == Some("1") then forall j :: 0 <= j < k ==> !OnLun1(ufs, lines[j], name)
               else (forall j :: 0 <= j < |lines| ==> !OnLun1(ufs, lines[j], name))
                    && forall j :: 0 <= j < k ==> !Counts(ufs, lines[j], name)
    ensures Kept(ufs, lines, name) == Some(k)
  {
    var r := Kept(ufs, lines, name);
    assert Named(ufs, name)(lines[k]);
    KeptIsAccepted(ufs, lines, name);
    assert Counts(ufs, lines[r.value], name);
    if ufs && lines[k].lun == Some("1") {
      assert NamedOnLun1(ufs, name)(lines[k]) && OnLun1(ufs, lines[r.value], name);
    }
  }
}
