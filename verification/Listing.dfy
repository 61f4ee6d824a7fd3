/** What a directory lists: its directories and files, sorted by name. */
module Listing {
  import opened PathAlgebra
  import opened DirForest
  import opened DirSpec
  import opened DirTree
  import opened Namespace

  datatype Entry = Entry(name: string, isDir: bool)

  // ----- sorted entries

  predicate Ascending(s: seq<Entry>) {
    forall i, j :: 0 <= i < j < |s| ==> Less(s[i].name, s[j].name)
  }

  predicate DifferentNames(s: seq<Entry>) {
    forall i, j :: 0 <= i < j < |s| ==> s[i].name != s[j].name
  }

  /** The same entries, sorted. */
  ghost predicate IsSorted(shown: seq<Entry>, all: seq<Entry>) {
    Ascending(shown) && |shown| == |all| && forall x :: x in shown <==> x in all
  }

  /** Where a new name belongs. */
  predicate GoesAt(shown: seq<Entry>, name: string, at: nat) {
    && at <= |shown|
    && (forall i :: 0 <= i < at ==> Less(shown[i].name, name))
    && (forall i :: at <= i < |shown| ==> Less(name, shown[i].name))
  }

  lemma SortedMore(shown: seq<Entry>, all: seq<Entry>, e: Entry, at: nat)
    requires IsSorted(shown, all) && GoesAt(shown, e.name, at)
    ensures IsSorted(shown[..at] + [e] + shown[at..], all + [e])
  {
    var more := shown[..at] + [e] + shown[at..];
    hide Less;
    forall x
      ensures x in more <==> x in all + [e]
    {
      assert shown == shown[..at] + shown[at..];
      assert x in shown <==> x in all;
    }
  }

  /** A scan that stops at a name that is not less has found the place, unless the name is there. */
  lemma GoesHere(shown: seq<Entry>, name: string, at: nat)
    requires Ascending(shown) && at <= |shown|
    requires forall i :: 0 <= i < at ==> Less(shown[i].name, name)
    requires at < |shown| ==> !Less(shown[at].name, name) && shown[at].name != name
    ensures GoesAt(shown, name, at)
  {
    if at < |shown| {
      LessTotal(shown[at].name, name);
      forall i | at < i < |shown|
        ensures Less(name, shown[i].name)
      {
        LessTransitive(name, shown[at].name, shown[i].name);
      }
    }
    hide Less;
  }

  // ----- the entries of a directory

  function DirEntries(names: seq<string>): (r: seq<Entry>)
    ensures |r| == |names| && forall i :: 0 <= i < |r| ==> r[i] == Entry(names[i], true)
  {
    seq(|names|, i requires 0 <= i < |names| => Entry(names[i], true))
  }

  /** The paths of the seeds that no written file hides, in order. */
  function SeedPaths(seeds: seq<Seed>, slots: seq<Slot>): seq<seq<string>> {
    if seeds == [] then []
    else
      var last := seeds[|seeds| - 1];
      SeedPaths(seeds[..|seeds| - 1], slots) + if SlotOf(slots, Print(last.names, true)).None? then [last.names] else []
  }

  function SlotPaths(slots: seq<Slot>): seq<seq<string>> {
    if slots == [] then []
    else
      var last := slots[|slots| - 1];
      SlotPaths(slots[..|slots| - 1]) + if last.used then [Names(last)] else []
  }

  predicate IsIn(path: seq<string>, dir: seq<string>) {
    path != [] && Parent(path) == dir
  }

  /** The entries of the files that are in a directory. */
  function FileEntries(paths: seq<seq<string>>, dir: seq<string>): seq<Entry> {
    if paths == [] then []
    else
      var last := paths[|paths| - 1];
      FileEntries(paths[..|paths| - 1], dir) + if IsIn(last, dir) then [Entry(last[|last| - 1], false)] else []
  }

  function AllPaths(seeds: seq<Seed>, slots: seq<Slot>): seq<seq<string>> {
    SeedPaths(seeds, slots) + SlotPaths(slots)
  }

  function Entries(names: seq<string>, seeds: seq<Seed>, slots: seq<Slot>, dir: seq<string>): seq<Entry> {
    DirEntries(names) + FileEntries(AllPaths(seeds, slots), dir)
  }

  // ----- the files are all the files

  lemma {:induction false} InSeedPaths(seeds: seq<Seed>, slots: seq<Slot>, t: seq<string>)
    ensures t in SeedPaths(seeds, slots) <==> SeedOf(seeds, t).Some? && SlotOf(slots, Print(t, true)).None?
  {
    if seeds != [] {
      InSeedPaths(seeds[..|seeds| - 1], slots, t);
    }
  }

  lemma {:induction false} InSlotPaths(slots: seq<Slot>, dirs: PathSet, t: seq<string>)
    requires SlotsOk(slots, dirs) && AreNames(t)
    ensures t in SlotPaths(slots) <==> SlotOf(slots, Print(t, true)).Some?
  {
    if slots != [] {
      var n := |slots| - 1;
      InSlotPaths(slots[..n], dirs, t);
      assert SlotOk(slots[n], dirs);
      if slots[n].used {
        if Print(Names(slots[n]), true) == Print(t, true) {
          PrintInjective(Names(slots[n]), t);
        }
      }
      hide Print, SlotsOk;
    }
  }

  /** A path is in the list of files exactly when there is a file. */
  lemma InAllPaths(seeds: seq<Seed>, slots: seq<Slot>, dirs: PathSet, t: seq<string>)
    requires SlotsOk(slots, dirs) && AreNames(t)
    ensures t in AllPaths(seeds, slots) <==> IsFile(seeds, slots, t)
  {
    InSeedPaths(seeds, slots, t);
    InSlotPaths(slots, dirs, t);
    hide SeedPaths, SlotPaths, Print;
  }

  predicate Distinct(paths: seq<seq<string>>) {
    forall i, j :: 0 <= i < j < |paths| ==> paths[i] != paths[j]
  }

  lemma {:induction false} SeedPathsDistinct(seeds: seq<Seed>, slots: seq<Slot>)
    requires forall i, j :: 0 <= i < j < |seeds| ==> seeds[i].names != seeds[j].names
    ensures Distinct(SeedPaths(seeds, slots))
  {
    if seeds != [] {
      var n := |seeds| - 1;
      SeedPathsDistinct(seeds[..n], slots);
      InSeedPaths(seeds[..n], slots, seeds[n].names);
    }
  }

  lemma {:induction false} SlotPathsDistinct(slots: seq<Slot>, dirs: PathSet)
    requires SlotsOk(slots, dirs)
    ensures Distinct(SlotPaths(slots))
    ensures forall t :: t in SlotPaths(slots) ==> AreNames(t)
  {
    if slots != [] {
      var n := |slots| - 1;
      SlotPathsDistinct(slots[..n], dirs);
      assert SlotOk(slots[n], dirs);
      if slots[n].used {
        InSlotPaths(slots[..n], dirs, Names(slots[n]));
      }
    }
  }

  /** No path is listed twice. */
  lemma PathsDistinct(seeds: seq<Seed>, slots: seq<Slot>, dirs: PathSet)
    requires SeedsOk(seeds, dirs) && SlotsOk(slots, dirs)
    ensures Distinct(AllPaths(seeds, slots))
    ensures forall t :: t in AllPaths(seeds, slots) ==> AreNames(t)
  {
    SeedPathsDistinct(seeds, slots);
    SlotPathsDistinct(slots, dirs);
    var s, d := SeedPaths(seeds, slots), SlotPaths(slots);
    forall t | t in s
      ensures AreNames(t)
    {
      InSeedPaths(seeds, slots, t);
      var i := SeedOf(seeds, t).value;
      assert Stands(seeds[i].names, dirs);
    }
    forall i, j | 0 <= i < |s| && 0 <= j < |d|
      ensures s[i] != d[j]
    {
      assert s[i] in s && d[j] in d;
      InSeedPaths(seeds, slots, s[i]);
      InSlotPaths(slots, dirs, s[i]);
    }
    hide SeedPaths, SlotPaths;
  }

  // ----- the entries are the children

  lemma {:induction false} InFileEntries(paths: seq<seq<string>>, dir: seq<string>, e: Entry)
    ensures e in FileEntries(paths, dir) <==> !e.isDir && dir + [e.name] in paths
  {
    if paths != [] {
      var n := |paths| - 1;
      InFileEntries(paths[..n], dir, e);
      var last := paths[n];
      if IsIn(last, dir) {
        assert last == dir + [last[|last| - 1]];
      }
      assert last == dir + [e.name] ==> IsIn(last, dir) && last[|last| - 1] == e.name;
      assert paths == paths[..n] + [last];
    }
  }

  /** A directory lists exactly its directories and its files. */
  lemma EntriesAreChildren(names: seq<string>, seeds: seq<Seed>, slots: seq<Slot>, dirs: PathSet, dir: seq<string>,
                           e: Entry)
    requires SeedsOk(seeds, dirs) && SlotsOk(slots, dirs) && Lists(names, dir, dirs)
    ensures e in Entries(names, seeds, slots, dir) <==>
            if e.isDir then dir + [e.name] in dirs else dir + [e.name] in AllPaths(seeds, slots)
  {
    InFileEntries(AllPaths(seeds, slots), dir, e);
    var d := DirEntries(names);
    assert e in d <==> e.isDir && e.name in names by {
      if e.isDir && e.name in names {
        var i :| 0 <= i < |names| && names[i] == e.name;
        assert d[i] == e;
      }
    }
    hide FileEntries, AllPaths, DirEntries;
  }

  lemma {:induction false} FileNamesDiffer(paths: seq<seq<string>>, dir: seq<string>)
    requires Distinct(paths)
    ensures DifferentNames(FileEntries(paths, dir))
  {
    if paths != [] {
      var n := |paths| - 1;
      FileNamesDiffer(paths[..n], dir);
      var last, before := paths[n], FileEntries(paths[..n], dir);
      if IsIn(last, dir) {
        assert last == dir + [last[|last| - 1]];
        forall i | 0 <= i < |before|
          ensures before[i].name != last[|last| - 1]
        {
          assert before[i] in before;
          InFileEntries(paths[..n], dir, before[i]);
          assert dir + [before[i].name] in paths[..n];
        }
      }
    }
  }

  /** No name is listed twice, since no path is both a directory and a file. */
  lemma NamesDiffer(names: seq<string>, seeds: seq<Seed>, slots: seq<Slot>, dirs: PathSet, dir: seq<string>)
    requires SeedsOk(seeds, dirs) && SlotsOk(slots, dirs) && Lists(names, dir, dirs)
    ensures DifferentNames(Entries(names, seeds, slots, dir))
  {
    var paths := AllPaths(seeds, slots);
    var d, f := DirEntries(names), FileEntries(AllPaths(seeds, slots), dir);
    PathsDistinct(seeds, slots, dirs);
    FileNamesDiffer(paths, dir);
    forall i, j | 0 <= i < j < |d|
      ensures d[i].name != d[j].name
    {
      LessIrreflexive(names[i]);
    }
    forall i, j | 0 <= i < |d| && 0 <= j < |f|
      ensures d[i].name != f[j].name
    {
      assert f[j] in f && names[i] in names;
      InFileEntries(paths, dir, f[j]);
      var t := dir + [f[j].name];
      InAllPaths(seeds, slots, dirs, t);
      FilesStand(seeds, slots, dirs, t);
    }
    hide FileEntries, AllPaths, Less;
  }

  // ----- listings in progress

  function PlaceOf(shown: seq<Entry>, name: string): (at: nat)
    ensures at <= |shown|
    ensures forall i :: 0 <= i < at ==> Less(shown[i].name, name)
    ensures at < |shown| ==> !Less(shown[at].name, name)
  {
    if shown == [] || !Less(shown[0].name, name) then 0 else 1 + PlaceOf(shown[1..], name)
  }

  /** An entry put where its name belongs. */
  function Inserted(shown: seq<Entry>, e: Entry): seq<Entry> {
    var at := PlaceOf(shown, e.name);
    shown[..at] + [e] + shown[at..]
  }

  lemma InsertedSorts(shown: seq<Entry>, all: seq<Entry>, e: Entry)
    requires IsSorted(shown, all) && DifferentNames(all + [e])
    ensures IsSorted(Inserted(shown, e), all + [e]) && GoesAt(shown, e.name, PlaceOf(shown, e.name))
  {
    forall i | 0 <= i < |shown|
      ensures shown[i].name != e.name
    {
      assert shown[i] in shown;
      var j :| 0 <= j < |all| && all[j] == shown[i];
      assert (all + [e])[j].name != (all + [e])[|all|].name;
    }
    GoesHere(shown, e.name, PlaceOf(shown, e.name));
    SortedMore(shown, all, e, PlaceOf(shown, e.name));
  }

  lemma {:induction false} FilePrefix(p: seq<seq<string>>, q: seq<seq<string>>, dir: seq<string>)
    ensures FileEntries(p, dir) <= FileEntries(p + q, dir)
    decreases |q|
  {
    if q == [] {
      assert p + q == p;
    } else {
      var n := |q| - 1;
      FilePrefix(p, q[..n], dir);
      assert (p + q)[..|p + q| - 1] == p + q[..n];
    }
  }

  lemma {:induction false} SeedPrefix(seeds: seq<Seed>, slots: seq<Slot>, i: nat)
    requires i <= |seeds|
    ensures SeedPaths(seeds[..i], slots) <= SeedPaths(seeds, slots)
    decreases |seeds|
  {
    if i == |seeds| {
      assert seeds[..i] == seeds;
    } else {
      SeedPrefix(seeds[..|seeds| - 1], slots, i);
      assert seeds[..|seeds| - 1][..i] == seeds[..i];
    }
  }

  lemma {:induction false} SlotPrefix(slots: seq<Slot>, i: nat)
    requires i <= |slots|
    ensures SlotPaths(slots[..i]) <= SlotPaths(slots)
    decreases |slots|
  {
    if i == |slots| {
      assert slots[..i] == slots;
    } else {
      SlotPrefix(slots[..|slots| - 1], i);
      assert slots[..|slots| - 1][..i] == slots[..i];
    }
  }

  /** The entries of a directory as far as the first seeds and slots go. */
  function EntriesUpTo(names: seq<string>, seeds: seq<Seed>, slots: seq<Slot>, dir: seq<string>, i: nat,
                       j: nat): seq<Entry>
    requires i <= |seeds| && j <= |slots|
  {
    DirEntries(names) + FileEntries(SeedPaths(seeds[..i], slots) + SlotPaths(slots[..j]), dir)
  }

  /** They come first among all the entries, so their names differ. */
  lemma PartialEntries(names: seq<string>, seeds: seq<Seed>, slots: seq<Slot>, dir: seq<string>, i: nat, j: nat)
    requires i <= |seeds| && j <= |slots| && (j > 0 ==> i == |seeds|)
    requires DifferentNames(Entries(names, seeds, slots, dir))
    ensures EntriesUpTo(names, seeds, slots, dir, i, j) <= Entries(names, seeds, slots, dir)
    ensures DifferentNames(EntriesUpTo(names, seeds, slots, dir, i, j))
  {
    SeedPrefix(seeds, slots, i);
    SlotPrefix(slots, j);
    assert slots[..0] == [] && seeds[..|seeds|] == seeds;
    var part := SeedPaths(seeds[..i], slots) + SlotPaths(slots[..j]);
    var all := AllPaths(seeds, slots);
    assert part <= all;
    assert all == part + all[|part|..];
    FilePrefix(part, all[|part|..], dir);
    hide FileEntries, SeedPaths, SlotPaths, AllPaths;
  }

  lemma SeedStep(names: seq<string>, seeds: seq<Seed>, slots: seq<Slot>, dir: seq<string>, i: nat)
    requires i < |seeds|
    ensures var t := seeds[i].names;
            EntriesUpTo(names, seeds, slots, dir, i + 1, 0) ==
            EntriesUpTo(names, seeds, slots, dir, i, 0)
            + if SlotOf(slots, Print(t, true)).None? && IsIn(t, dir) then [Entry(t[|t| - 1], false)] else []
  {
    assert slots[..0] == [] && seeds[..i + 1][..i] == seeds[..i];
    var p := SeedPaths(seeds[..i], slots);
    assert p + [] == p && (p + [seeds[i].names])[..|p|] == p && p + [seeds[i].names] + [] == p + [seeds[i].names];
    assert SeedPaths(seeds[..i + 1], slots) == p + if SlotOf(slots, Print(seeds[i].names, true)).None?
           then [seeds[i].names] else [];
    hide SeedPaths, Print, SlotOf;
  }

  lemma SlotStep(names: seq<string>, seeds: seq<Seed>, slots: seq<Slot>, dir: seq<string>, j: nat)
    requires j < |slots|
    ensures var t := Names(slots[j]);
            EntriesUpTo(names, seeds, slots, dir, |seeds|, j + 1) ==
            EntriesUpTo(names, seeds, slots, dir, |seeds|, j)
            + if slots[j].used && IsIn(t, dir) then [Entry(t[|t| - 1], false)] else []
  {
    assert slots[..j + 1][..j] == slots[..j];
    var t := Names(slots[j]);
    var p, s := SeedPaths(seeds[..|seeds|], slots), SlotPaths(slots[..j]);
    assert SlotPaths(slots[..j + 1]) == s + if slots[j].used then [t] else [];
    hide SeedPaths, SlotPaths, Names;
    assert p + (s + [t]) == p + s + [t] && (p + s + [t])[..|p + s|] == p + s;
    assert s + [] == s;
  }

  lemma AllStages(names: seq<string>, seeds: seq<Seed>, slots: seq<Slot>, dir: seq<string>)
    ensures EntriesUpTo(names, seeds, slots, dir, 0, 0) == DirEntries(names)
    ensures EntriesUpTo(names, seeds, slots, dir, |seeds|, |slots|) == Entries(names, seeds, slots, dir)
  {
    assert slots[..0] == [] && seeds[..0] == [] && slots[..|slots|] == slots && seeds[..|seeds|] == seeds;
    assert SeedPaths([], slots) + SlotPaths([]) == [];
    assert DirEntries(names) + [] == DirEntries(names);
  }

  // ----- what a finished listing is

  /** Exactly the directories and files in a directory, strictly ascending. */
  ghost predicate IsListing(shown: seq<Entry>, seeds: seq<Seed>, slots: seq<Slot>, dirs: PathSet, dir: seq<string>) {
    Ascending(shown)
    && forall e :: e in shown <==> if e.isDir then dir + [e.name] in dirs else dir + [e.name] in AllPaths(seeds, slots)
  }

  lemma SortedIsListing(shown: seq<Entry>, names: seq<string>, seeds: seq<Seed>, slots: seq<Slot>, dirs: PathSet,
                        dir: seq<string>)
    requires SeedsOk(seeds, dirs) && SlotsOk(slots, dirs) && Lists(names, dir, dirs)
    requires IsSorted(shown, Entries(names, seeds, slots, dir))
    ensures IsListing(shown, seeds, slots, dirs, dir)
  {
    forall e
      ensures e in shown <==> if e.isDir then dir + [e.name] in dirs else dir + [e.name] in AllPaths(seeds, slots)
    {
      EntriesAreChildren(names, seeds, slots, dirs, dir, e);
    }
    hide Entries, AllPaths, Less;
  }

  /** A directory has only one listing; so every call that succeeds, counting only or not, returns
      the same count. */
  lemma {:induction false} SameListing(s: seq<Entry>, t: seq<Entry>)
    requires Ascending(s) && Ascending(t) && forall e :: e in s <==> e in t
    ensures s == t
    decreases |s|
  {
    assert t != [] ==> t[0] in t;
    if s != [] {
      var n, m := |s| - 1, |t| - 1;
      assert s[n] in t && m >= 0;
      LastIsSame(s, t);
      forall e
        ensures e in s[..n] <==> e in t[..m]
      {
        WithoutLast(s, e);
        WithoutLast(t, e);
      }
      SameListing(s[..n], t[..m]);
      assert s == s[..n] + [s[n]] && t == t[..m] + [t[m]];
    }
  }

  lemma LastIsSame(s: seq<Entry>, t: seq<Entry>)
    requires s != [] && t != [] && Ascending(s) && Ascending(t) && forall e :: e in s <==> e in t
    ensures s[|s| - 1] == t[|t| - 1]
  {
    var a, b := s[|s| - 1], t[|t| - 1];
    assert a in t && b in s;
    var i :| 0 <= i < |t| && t[i] == a;
    var j :| 0 <= j < |s| && s[j] == b;
    if a != b {
      assert Less(a.name, b.name) && Less(b.name, a.name);
      LessTransitive(a.name, b.name, a.name);
      LessIrreflexive(a.name);
    }
  }

  lemma WithoutLast(s: seq<Entry>, e: Entry)
    requires s != [] && Ascending(s)
    ensures e in s[..|s| - 1] <==> e in s && e != s[|s| - 1]
  {
    LessIrreflexive(e.name);
  }
}
