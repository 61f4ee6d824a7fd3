/** The shell's default view of the file system: a directory tree with files laid over it. */
module PathStates {
  import opened Words
  import opened PathAlgebra
  import opened FsPath
  import opened DirForest
  import opened DirSpec
  import opened DirTree
  import opened Namespace
  import opened Listing
  import opened CdTargets
  import opened ShellRuns
  import opened PathParts
  import opened EntryArrays

  const MAX_NODES: nat := 128

  // ----- paths given to the shell

  lemma PlaceFits(t: seq<string>)
    requires IsPlace(t)
    ensures |Print(t, true)| < PATH_MAX
  {
  }

  lemma ParentIsPlace(t: seq<string>)
    requires IsPlace(t) && t != []
    ensures IsPlace(Parent(t))
  {
    JoinedPrefix(t, |t| - 1);
  }

  ghost const START_DIRS: PathSet := {[], ["etc"], ["home"], ["tmp"]}

  const SEED_FILES: seq<Seed> := [
    Seed(["hello.txt"], "hello from shell fs\n"),
    Seed(["etc", "motd"], "openTiger shell filesystem\n"),
    Seed(["home", "readme.txt"], "use ls, cat, pwd, cd, mkdir\n")
  ]

  /** With a path all its prefixes exist, so making it with its parents adds none. */
  lemma AlreadyThere(nodes: seq<Node>, kids: seq<seq<nat>>, t: seq<string>)
    requires IsTree(nodes, kids) && t in Paths(nodes)
    ensures AllShort(t) && Prefixes(t, 0, |t|) - Paths(nodes) == {}
            && Paths(nodes) + Prefixes(t, 0, |t|) == Paths(nodes)
  {
    TreePaths(nodes, kids);
    hide Paths;
    assert Prefixes(t, 0, |t|) <= Paths(nodes);
  }

  class PathState {
    const tree: DirTree
    const files: array<Slot>
    const seeds: seq<Seed>

    /** The three directories, and those of the seeded files, which are among them. */
    constructor Init(seeds: seq<Seed>)
      requires SeedsOk(seeds, START_DIRS)
      ensures Valid() && tree.Dirs() == START_DIRS && tree.Here() == [] && this.seeds == seeds
      ensures files.Length == FILES_MAX && forall i :: 0 <= i < FILES_MAX ==> files[i] == FREE_SLOT
      ensures fresh(tree) && fresh(tree.table) && fresh(files)
    {
      tree := new DirTree.Init(MAX_NODES);
      files := new Slot[FILES_MAX](_ => FREE_SLOT);
      this.seeds := seeds;
      new;
      hide *;
      MakeStartDirs();
      MakeParents();
      ValidAtStart();
    }

    lemma ValidAtStart()
      requires tree.Valid() && files as object != tree.table && tree.table.Length <= MAX_NODES
               && SeedsOk(seeds, tree.Dirs())
      requires forall i :: 0 <= i < files.Length ==> files[i] == FREE_SLOT
      ensures Valid()
    {
    }

    method MakeStartDirs()
      requires tree.Valid() && tree.Here() == [] && tree.Dirs() == {[]} && tree.count == 1
               && tree.table.Length == MAX_NODES
      modifies tree`count, tree`kids, tree.table
      ensures tree.Valid() && tree.Here() == [] && tree.Dirs() == START_DIRS
    {
      hide IsTree, PathOf, Paths, Target, Print;
      MakeStart("etc");
      MakeStart("home");
      MakeStart("tmp");
    }

    method MakeParents()
      requires tree.Valid() && tree.Here() == [] && SeedsOk(seeds, tree.Dirs())
      modifies tree`count, tree`kids, tree.table
      ensures tree.Valid() && tree.Here() == [] && tree.Dirs() == old(tree.Dirs())
    {
      hide IsTree, PathOf, Paths, Stands;
      var i := 0;
      while i < |seeds|
        invariant 0 <= i <= |seeds| && tree.Valid() && tree.Dirs() == old(tree.Dirs()) && tree.Here() == []
      {
        MakeParent(i);
        i := i + 1;
      }
    }

    method MakeStart(name: CString)
      requires tree.Valid() && tree.Here() == [] && [] in tree.Dirs() && [name] !in tree.Dirs() && tree.Left() > 0
      requires IsDirName(name)
      modifies tree`count, tree`kids, tree.table
      ensures tree.Valid() && tree.Here() == [] && tree.Dirs() == old(tree.Dirs()) + {[name]}
              && tree.Left() == old(tree.Left()) - 1
    {
      var path := "/" + name;
      assert path == Print([name], true) && IsPlace([name]) && IsPlace([]);
      TargetOfPlace([], [name]);
      assert Parent([name]) == [];
      hide IsTree, PathOf, Paths, Target, Print;
      var ok := tree.Mkdir(path);
    }

    /** Making a seed's directory changes nothing when it is there. */
    method MakeParent(i: nat)
      requires tree.Valid() && i < |seeds| && Stands(seeds[i].names, tree.Dirs()) && tree.Here() == []
      modifies tree`count, tree`kids, tree.table
      ensures tree.Valid() && tree.Here() == [] && tree.Dirs() == old(tree.Dirs())
    {
      ghost var t := seeds[i].names;
      ghost var up := Parent(t);
      ParentIsPlace(t);
      assert IsPlace([]) && NoNul(Print(t, true));
      TargetOfPlace([], up);
      RootOnly(up);
      AlreadyThere(tree.table[..tree.count], tree.kids, up);
      var path := Print(seeds[i].names, true);
      hide IsTree, PathOf, Paths, Target, Print, IsPlace, Prefixes, AllShort;
      var parent := ParentOf(path, t);
      if parent != "/" {
        var ok := tree.MkdirP(parent);
      }
    }

    ghost predicate Valid()
      reads this, tree, tree.table, files
    {
      && tree.Valid() && files as object != tree.table && tree.table.Length <= MAX_NODES
      && SeedsOk(seeds, tree.Dirs()) && SlotsOk(files[..], tree.Dirs())
    }

    /** Where a path leads from the current directory. */
    ghost function Leads(path: string): Option<seq<string>>
      requires tree.Valid()
      reads tree, tree.table
    {
      LeadsFrom(tree.Here(), path)
    }

    method ResolveAbsolute(path: CString) returns (ok: bool, absolute: CString)
      requires tree.Valid()
      ensures ok == Leads(path).Some?
      ensures ok ==> absolute == Print(Leads(path).value, true) && IsPlace(Leads(path).value)
    {
      hide *;
      var dotted: CString := if path == "" then "." else path;
      assert dotted == Dotted(path) by { DottedIs(path); }
      LeadsIs(path);
      ok, absolute := tree.TargetOf(dotted);
    }

    lemma LeadsIs(path: string)
      requires tree.Valid()
      ensures Leads(path) == Target(tree.Here(), Dotted(path))
    {
    }

    /** The slot of a written file. */
    method DynamicIndex(path: CString) returns (index: Option<nat>)
      requires forall i :: 0 <= i < files.Length && files[i].used ==> NoNul(files[i].path)
      ensures index == SlotOf(files[..], path)
    {
      var i := 0;
      assert files[..0] == [];
      while i < files.Length
        invariant 0 <= i <= files.Length && SlotOf(files[..i], path) == None
      {
        if files[i].used {
          var same := StrCmp(files[i].path, path);
          if same == 0 {
            SlotFirst(files[..], path, i);
            return Some(i);
          }
        }
        assert files[..i + 1][..i] == files[..i];
        i := i + 1;
      }
      assert files[..files.Length] == files[..];
      return None;
    }

    method SeedIndex(path: CString, ghost t: seq<string>) returns (index: Option<nat>)
      requires path == Print(t, true) && AreNames(t)
      requires forall i :: 0 <= i < |seeds| ==> IsFilePath(seeds[i].names)
      ensures index == SeedOf(seeds, t)
    {
      hide Print, IsFilePath, IsPlace;
      var i := 0;
      while i < |seeds|
        invariant 0 <= i <= |seeds| && SeedOf(seeds[..i], t) == None
      {
        SeedIsThere(seeds, i);
        var same := StrCmp(Print(seeds[i].names, true), path);
        if same == 0 {
          PrintInjective(seeds[i].names, t);
          SeedFirst(seeds, t, i);
          return Some(i);
        }
        assert seeds[..i + 1][..i] == seeds[..i];
        i := i + 1;
      }
      assert seeds[..|seeds|] == seeds;
      return None;
    }

    lemma FilesNoNul()
      requires Valid()
      ensures forall i :: 0 <= i < files.Length && files[i].used ==> NoNul(files[i].path)
      ensures forall i :: 0 <= i < |seeds| ==> IsFilePath(seeds[i].names)
    {
      forall i | 0 <= i < files.Length && files[i].used
        ensures NoNul(files[i].path)
      {
        assert SlotOk(files[..][i], tree.Dirs());
      }
    }

    // ----- the operations

    /** The state that a run works on. */
    ghost function View(): Shell
      requires Valid()
      reads this, tree, tree.table, files
    {
      Shell(tree.Dirs(), tree.Left(), tree.Here(), files[..])
    }

    /** Whatever was done, the files and directories are in order. */
    lemma ViewInOrder()
      requires Valid()
      ensures InOrder(seeds, View())
    {
      HereIsPlace();
      assert tree.Here() in tree.Dirs();
    }

    /** The new current path is the old one resolved against the argument. */
    method Cd(path: CString) returns (ok: bool)
      requires Valid()
      modifies tree`cwd
      ensures Valid() && tree.Dirs() == old(tree.Dirs()) && files[..] == old(files[..])
      ensures ok == (Target(old(tree.Here()), path).Some? && Target(old(tree.Here()), path).value in tree.Dirs())
      ensures tree.Here() == if ok then Target(old(tree.Here()), path).value else old(tree.Here())
      ensures View() == Do(seeds, old(View()), ChangeDir(path))
    {
      hide IsTree, PathOf, Paths, Target, SeedsOk, SlotsOk;
      ok := tree.Cd(path);
    }

    /** Whether a path leads to a file, and its normal form. */
    method FindFile(absolute: CString, ghost t: seq<string>) returns (isFile: bool)
      requires Valid() && AreNames(t) && absolute == Print(t, true)
      ensures isFile == IsFile(seeds, files[..], t)
    {
      FilesNoNul();
      hide SlotOf, SeedOf;
      var seed := SeedIndex(absolute, t);
      if seed.Some? {
        return true;
      }
      var dynamic := DynamicIndex(absolute);
      return dynamic.Some?;
    }

    /** Adds exactly one directory, never where a file is. */
    method Mkdir(path: CString) returns (ok: bool)
      requires Valid()
      modifies tree`count, tree`kids, tree.table
      ensures Valid() && tree.Here() == old(tree.Here()) && files[..] == old(files[..])
      ensures var t := old(Leads(path));
              && ok == (t.Some? && CanMake(old(tree.Dirs()), old(tree.Left()), t.value)
                        && !IsFile(seeds, files[..], t.value))
              && tree.Dirs() == if ok then old(tree.Dirs()) + {t.value} else old(tree.Dirs())
      ensures View() == Do(seeds, old(View()), MakeDir(path))
    {
      hide IsTree, PathOf, Paths, Target, SeedsOk, SlotsOk, IsFile, CanMake, Print, IsPlace;
      var absolute;
      ok, absolute := ResolveAbsolute(path);
      if !ok {
        return;
      }
      ghost var t := Leads(path).value;
      IsRoot(t);
      if absolute == "/" {
        assert !CanMake(tree.Dirs(), tree.Left(), t) by { RootIsThere(tree.Dirs(), tree.Left()); }
        return false;
      }
      var isFile := FindFile(absolute, t);
      if isFile {
        return false;
      }
      HereIsPlace();
      TargetOfPlace(tree.Here(), t);
      MkdirAmongFiles(seeds, files[..], tree.Dirs(), t);
      ok := tree.Mkdir(absolute);
    }

    lemma HereIsPlace()
      requires tree.Valid()
      ensures IsPlace(tree.Here())
    {
      PathIsPlace(tree.table[..tree.count], tree.kids, tree.cwd);
    }

    /** A file's text: what was written last, or what it was seeded with. */
    method Cat(path: CString) returns (content: Option<string>)
      requires Valid()
      ensures content == if Leads(path).None? then None else ContentAt(seeds, files[..], Leads(path).value)
    {
      FilesNoNul();
      hide IsTree, PathOf, Paths, Target, SeedsOk, SlotsOk, Print, IsPlace, SlotOf, SeedOf;
      var ok, absolute := ResolveAbsolute(path);
      if !ok {
        return None;
      }
      ghost var t := Leads(path).value;
      IsRoot(t);
      var dynamic := DynamicIndex(absolute);
      if dynamic.Some? {
        return Some(files[dynamic.value].content);
      }
      var seed := SeedIndex(absolute, t);
      if seed.None? {
        return None;
      }
      return Some(seeds[seed.value].content);
    }

    /** Take the first free slot for a new, empty file. */
    method AllocSlot(path: CString) returns (index: Option<nat>)
      modifies files
      ensures index == FirstFree(old(files[..]))
      ensures files[..] == if index.Some? then old(files[..])[index.value := Slot(true, path, "")] else old(files[..])
    {
      var i := 0;
      assert files[..0] == [];
      while i < files.Length
        invariant 0 <= i <= files.Length && files[..] == old(files[..]) && FirstFree(files[..i]) == None
      {
        if !files[i].used {
          FreeFirst(files[..], i);
          files[i] := Slot(true, path, "");
          return Some(i);
        }
        assert files[..i + 1][..i] == files[..i];
        i := i + 1;
      }
      assert files[..files.Length] == files[..];
      return None;
    }

    /** Put the text into a slot: after what the write starts from, when it fits. */
    method Store(i: nat, created: bool, absolute: CString, content: string, append: bool, ghost t: seq<string>,
                 ghost was: seq<Slot>)
      returns (ok: bool)
      requires i < files.Length && AreNames(t) && absolute == Print(t, true) && SlotFor(was, Print(t, true)) == Some(i)
      requires forall k :: 0 <= k < |seeds| ==> IsFilePath(seeds[k].names) && |seeds[k].content| < CONTENT_MAX
      requires files[..] == if created then was[i := Slot(true, absolute, "")] else was
      requires created == (SlotOf(was, absolute) == None)
      modifies files
      ensures files[..] == Written(seeds, was, t, content, append)
      ensures var before := ContentAt(seeds, was, t);
              ok == ((if append && before.Some? then |before.value| else 0) + |content| < CONTENT_MAX)
    {
      hide SlotOf, SeedOf, FirstFree, Print, IsFilePath, AreNames;
      if append && created {
        var seed := SeedIndex(absolute, t);
        if seed.Some? {
          files[i] := files[i].(content := seeds[seed.value].content);
        }
      }
      if !append {
        files[i] := files[i].(content := "");
      }
      assert files[i] == Slot(true, absolute, Base(seeds, was, t, append));
      ok := |files[i].content| + |content| + 1 <= CONTENT_MAX;
      if ok && |content| > 0 {
        files[i] := files[i].(content := files[i].content + content);
      }
      assert content == "" ==> Base(seeds, was, t, append) + content == Base(seeds, was, t, append);
      assert files[..] == was[i := files[i]];
    }

    /** A path that a write can use: a file or a free place in a directory, and a slot for it. */
    ghost predicate CanWrite(path: string)
      requires Valid()
      reads this, tree, tree.table, files
    {
      ShellRuns.CanWrite(View(), path)
    }

    /** The place of a file, checked against the directories. */
    method FindPlace(path: CString) returns (ok: bool, absolute: CString)
      requires Valid()
      ensures ok == (Leads(path).Some? && Stands(Leads(path).value, tree.Dirs()))
      ensures ok ==> absolute == Print(Leads(path).value, true)
    {
      hide IsTree, PathOf, Paths, Target, SeedsOk, SlotsOk, Print, IsPlace;
      ok, absolute := ResolveAbsolute(path);
      if !ok {
        return;
      }
      ghost var t := Leads(path).value;
      IsRoot(t);
      if absolute == "/" {
        return false, absolute;
      }
      HereIsPlace();
      ParentIsPlace(t);
      TargetOfPlace(tree.Here(), Parent(t));
      TargetOfPlace(tree.Here(), t);
      assert |absolute| < PATH_MAX by { PlaceFits(t); }
      var parent := ParentOf(absolute, t);
      var found, index := tree.Walk(parent);
      if !found {
        return false, absolute;
      }
      var taken, _ := tree.Walk(absolute);
      ok := !taken;
    }

    /** The slot for a file: its own, or a new one. */
    method TakeSlot(absolute: CString, ghost was: seq<Slot>) returns (index: Option<nat>, created: bool)
      requires files[..] == was && forall i :: 0 <= i < |was| && was[i].used ==> NoNul(was[i].path)
      modifies files
      ensures index == SlotFor(was, absolute) && created == (SlotOf(was, absolute) == None && index.Some?)
      ensures files[..] == if created then was[index.value := Slot(true, absolute, "")] else was
    {
      hide SlotOf, FirstFree;
      created := false;
      index := DynamicIndex(absolute);
      if index.None? {
        index := AllocSlot(absolute);
        created := index.Some?;
      }
    }

    /** Write or append. What is refused for its size has still made the file, or emptied it. */
    method WriteFile(path: CString, content: string, append: bool) returns (ok: bool)
      requires Valid()
      modifies files
      ensures Valid() && tree.Dirs() == old(tree.Dirs()) && tree.Here() == old(tree.Here())
      ensures old(CanWrite(path)) ==>
                var t := Leads(path).value;
                var was := ContentAt(seeds, old(files[..]), t);
                var start := if append && was.Some? then was.value else "";
                && ok == (|start| + |content| < CONTENT_MAX)
                && ContentAt(seeds, files[..], t) == Some(if ok then start + content else start)
      ensures !old(CanWrite(path)) ==> !ok && files[..] == old(files[..])
      ensures files[..] == if old(CanWrite(path))
                           then Written(seeds, old(files[..]), Leads(path).value, content, append)
                           else old(files[..])
      ensures View() == Do(seeds, old(View()), Write(path, content, append))
    {
      hide IsTree, PathOf, Paths, Target, SlotOf, FirstFree, Print, IsPlace, Base, Fits, Written, Stands, SlotFor,
        SeedsOk, SlotsOk;
      FilesNoNul();
      SeedsAreFiles();
      ghost var was, t := files[..], Leads(path);
      var absolute;
      ok, absolute := FindPlace(path);
      if !ok {
        return;
      }
      StandsNames(t.value, tree.Dirs());
      if SlotFor(was, absolute).Some? {
        WrittenKeeps(seeds, was, tree.Dirs(), t.value, content, append);
      }
      var index, created := TakeSlot(absolute, was);
      if index.None? {
        return false;
      }
      ok := Store(index.value, created, absolute, content, append, t.value, was);
      assert tree.Dirs() == old(tree.Dirs());
      WrittenContent(seeds, was, tree.Dirs(), t.value, content, append, t.value);
    }

    lemma SeedsAreFiles()
      requires Valid()
      ensures forall k :: 0 <= k < |seeds| ==> IsFilePath(seeds[k].names) && |seeds[k].content| < CONTENT_MAX
    {
    }

    // ----- listing

    /** The entry of a seed, unless a written file hides it or it is elsewhere. */
    method ListSeed(i: nat, dir: CString, entries: array?<Entry>, max: nat, count: nat, ghost shown: seq<Entry>,
                    ghost names: seq<string>, ghost t: seq<string>)
      returns (ok: bool, total: nat, ghost more: seq<Entry>)
      requires Valid() && AreNames(t) && dir == Print(t, true) && Separate(entries) && i < |seeds|
      requires DifferentNames(Entries(names, seeds, files[..], t))
      requires Progress(entries, max, count, shown, EntriesUpTo(names, seeds, files[..], t, i, 0))
      modifies entries
      ensures files[..] == old(files[..])
      ensures ok ==> Progress(entries, max, total, more, EntriesUpTo(names, seeds, files[..], t, i + 1, 0))
      ensures !ok ==> !Listable(Entries(names, seeds, files[..], t), entries != null, max)
    {
      hide IsTree, PathOf, Paths, SeedsOk, SlotsOk, EntriesUpTo, Entries, DifferentNames, Progress, Listable,
        IsFilePath, Print, SlotOf;
      ghost var slots := files[..];
      FilesNoNul();
      SeedIsThere(seeds, i);
      SeedStep(names, seeds, slots, t, i);
      PartialEntries(names, seeds, slots, t, i + 1, 0);
      ghost var before, after :=
        EntriesUpTo(names, seeds, slots, t, i, 0), EntriesUpTo(names, seeds, slots, t, i + 1, 0);
      var path := Print(seeds[i].names, true);
      var hidden := DynamicIndex(path);
      if hidden.Some? {
        assert before + [] == before;
        return true, count, shown;
      }
      ok, total, more := ListFile(path, seeds[i].names, dir, entries, max, count, shown, before, after, t);
      if !ok {
        NotListable(after, Entries(names, seeds, slots, t), entries != null, max);
      }
    }

    /** The entries of the seeds that are in the directory. */
    method ListSeeds(dir: CString, entries: array?<Entry>, max: nat, count: nat, ghost shown: seq<Entry>,
                     ghost names: seq<string>,
                     ghost t: seq<string>)
      returns (ok: bool, total: nat, ghost more: seq<Entry>)
      requires Valid() && AreNames(t) && dir == Print(t, true) && Separate(entries)
      requires DifferentNames(Entries(names, seeds, files[..], t))
      requires Progress(entries, max, count, shown, EntriesUpTo(names, seeds, files[..], t, 0, 0))
      modifies entries
      ensures Valid() && files[..] == old(files[..])
      ensures ok ==> Progress(entries, max, total, more, EntriesUpTo(names, seeds, files[..], t, |seeds|, 0))
      ensures !ok ==> !Listable(Entries(names, seeds, files[..], t), entries != null, max)
    {
      hide IsTree, PathOf, Paths, SeedsOk, SlotsOk, EntriesUpTo, Entries, DifferentNames, Progress, Listable, AreNames,
        Print;
      ghost var slots := files[..];
      ok, total, more := true, count, shown;
      var i := 0;
      while i < |seeds|
        invariant 0 <= i <= |seeds| && ok && Valid() && files[..] == slots
        invariant Progress(entries, max, total, more, EntriesUpTo(names, seeds, slots, t, i, 0))
      {
        ok, total, more := ListSeed(i, dir, entries, max, total, more, names, t);
        if !ok {
          return;
        }
        i := i + 1;
      }
    }

    /** The entry of a written file, unless it is elsewhere. */
    method ListSlot(i: nat, dir: CString, entries: array?<Entry>, max: nat, count: nat, ghost shown: seq<Entry>,
                    ghost names: seq<string>, ghost t: seq<string>)
      returns (ok: bool, total: nat, ghost more: seq<Entry>)
      requires Valid() && AreNames(t) && dir == Print(t, true) && Separate(entries) && i < files.Length
      requires DifferentNames(Entries(names, seeds, files[..], t))
      requires Progress(entries, max, count, shown, EntriesUpTo(names, seeds, files[..], t, |seeds|, i))
      modifies entries
      ensures files[..] == old(files[..])
      ensures ok ==> Progress(entries, max, total, more, EntriesUpTo(names, seeds, files[..], t, |seeds|, i + 1))
      ensures !ok ==> !Listable(Entries(names, seeds, files[..], t), entries != null, max)
    {
      hide IsTree, PathOf, Paths, SeedsOk, SlotsOk, EntriesUpTo, Entries, DifferentNames, Progress, Listable,
        IsFilePath, Print, SlotOf,
        Names;
      ghost var slots := files[..];
      SlotStep(names, seeds, slots, t, i);
      PartialEntries(names, seeds, slots, t, |seeds|, i + 1);
      ghost var before, after :=
        EntriesUpTo(names, seeds, slots, t, |seeds|, i), EntriesUpTo(names, seeds, slots, t, |seeds|, i + 1);
      if !files[i].used {
        assert before + [] == before;
        return true, count, shown;
      }
      SlotIsThere(slots, tree.Dirs(), i);
      ok, total, more := ListFile(files[i].path, Names(slots[i]), dir, entries, max, count, shown, before, after, t);
      if !ok {
        NotListable(after, Entries(names, seeds, slots, t), entries != null, max);
      }
    }

    /** The entries of the written files that are in the directory. */
    method ListSlots(dir: CString, entries: array?<Entry>, max: nat, count: nat, ghost shown: seq<Entry>,
                     ghost names: seq<string>,
                     ghost t: seq<string>)
      returns (ok: bool, total: nat, ghost more: seq<Entry>)
      requires Valid() && AreNames(t) && dir == Print(t, true) && Separate(entries)
      requires DifferentNames(Entries(names, seeds, files[..], t))
      requires Progress(entries, max, count, shown, EntriesUpTo(names, seeds, files[..], t, |seeds|, 0))
      modifies entries
      ensures Valid() && files[..] == old(files[..])
      ensures ok ==> Progress(entries, max, total, more, EntriesUpTo(names, seeds, files[..], t, |seeds|, files.Length))
      ensures !ok ==> !Listable(Entries(names, seeds, files[..], t), entries != null, max)
    {
      hide IsTree, PathOf, Paths, SeedsOk, SlotsOk, EntriesUpTo, Entries, DifferentNames, Progress, Listable, AreNames,
        Print;
      ghost var slots := files[..];
      ok, total, more := true, count, shown;
      var i := 0;
      while i < files.Length
        invariant 0 <= i <= files.Length && ok && Valid() && files[..] == slots
        invariant Progress(entries, max, total, more, EntriesUpTo(names, seeds, slots, t, |seeds|, i))
      {
        ok, total, more := ListSlot(i, dir, entries, max, total, more, names, t);
        if !ok {
          return;
        }
        i := i + 1;
      }
    }

    /** The names of a directory's directories, all of them. */
    method ReadNames(absolute: CString, ghost t: seq<string>, names: array<string>)
      returns (ok: bool, n: nat, ghost list: seq<string>)
      requires Valid() && IsPlace(t) && absolute == Print(t, true)
      requires names.Length == MAX_NODES && names as object != tree.table && names as object != files
      modifies names
      ensures Valid() && tree.Dirs() == old(tree.Dirs()) && files[..] == old(files[..])
      ensures ok == (t in tree.Dirs())
      ensures ok ==> Lists(list, t, tree.Dirs()) && n == |list| <= names.Length && names[..n] == list
    {
      HereIsPlace();
      TargetOfPlace(tree.Here(), t);
      DirsCount(tree.table[..tree.count], tree.kids);
      hide IsTree, PathOf, Paths, Target, SeedsOk, SlotsOk, Lists;
      ghost var dirs := tree.Dirs();
      ok, n := tree.Readdir(absolute, names, MAX_NODES);
      if t in dirs {
        list :| Lists(list, t, dirs) && n == |list| && ok == (n <= MAX_NODES)
                && forall j :: 0 <= j < |list| && j < MAX_NODES ==> names[j] == list[j];
        ListsFew(list, t, dirs);
        AllRead(list, names, n);
      } else {
        list := [];
      }
    }

    lemma DirFacts(names: seq<string>, t: seq<string>)
      requires Valid() && Lists(names, t, tree.Dirs())
      ensures DifferentNames(Entries(names, seeds, files[..], t)) && DifferentNames(DirEntries(names))
              && EntryNames(DirEntries(names))
      ensures DirEntries(names) <= Entries(names, seeds, files[..], t)
      ensures EntriesUpTo(names, seeds, files[..], t, 0, 0) == DirEntries(names)
    {
      NamesDiffer(names, seeds, files[..], tree.Dirs(), t);
      AllStages(names, seeds, files[..], t);
      PartialEntries(names, seeds, files[..], t, 0, 0);
      forall i | 0 <= i < |names|
        ensures |names[i]| <= NAME_MAX && NoNul(names[i])
      {
        assert names[i] in names;
        DirNameOk(tree.table[..tree.count], tree.kids, t, names[i]);
      }
    }

    /** What a directory lists: its directories, and then its files, inserted in order of their names. */
    method ListDirectory(absolute: CString, ghost t: seq<string>, entries: array?<Entry>, max: nat)
      returns (ok: bool, total: nat, ghost shown: seq<Entry>)
      requires Valid() && IsPlace(t) && absolute == Print(t, true) && Separate(entries)
               && (entries != null ==> max <= entries.Length)
      modifies entries
      ensures Valid() && files[..] == old(files[..])
      ensures t !in tree.Dirs() ==> !ok
      ensures t in tree.Dirs() ==>
                exists names :: Lists(names, t, tree.Dirs())
                                && ok == Listable(Entries(names, seeds, files[..], t), entries != null, max)
                                && (ok ==> Progress(entries, max, total, shown, Entries(names, seeds, files[..], t)))
    {
      IsRoot(t);
      assert tree.Valid();
      hide *;
      ghost var slots := files[..];
      ok, total, shown := false, 0, [];
      var names := new string[MAX_NODES](_ => "");
      var n;
      ghost var list;
      ok, n, list := ReadNames(absolute, t, names);
      if !ok {
        return;
      }
      DirFacts(list, t);
      ok, total, shown := ListDirs(names, n, entries, max, list);
      if !ok {
        NotListable(DirEntries(list), Entries(list, seeds, slots, t), entries != null, max);
        return;
      }
      ok, total, shown := ListSeeds(absolute, entries, max, total, shown, list, t);
      if !ok {
        return;
      }
      ok, total, shown := ListSlots(absolute, entries, max, total, shown, list, t);
      if ok {
        AllStages(list, seeds, slots, t);
        ProgressListable(entries, max, total, shown, Entries(list, seeds, slots, t));
      }
    }

    /** List a path: a file lists itself; a directory lists exactly its directories and files, strictly
        ascending. Without an array the entries are only counted. */
    method Ls(path: CString, entries: array?<Entry>, max: nat) returns (ok: bool, total: nat)
      requires Valid() && Separate(entries) && (entries != null ==> max <= entries.Length)
      modifies entries
      ensures Valid() && files[..] == old(files[..]) && tree.Dirs() == old(tree.Dirs())
      ensures !ok ==> total == 0
      ensures var t := Leads(path);
              if t.None? then !ok
              else if IsFile(seeds, files[..], t.value) then
                var name := if t.value == [] then "" else t.value[|t.value| - 1];
                && ok == (|name| <= NAME_MAX && (entries == null || max > 0))
                && (ok ==> total == 1 && (entries != null ==> entries[0] == Entry(name, false)))
              else if t.value !in tree.Dirs() then !ok
              else
                && (exists names :: Lists(names, t.value, tree.Dirs())
                                    && ok == Listable(Entries(names, seeds, files[..], t.value), entries != null, max))
                && (ok ==> exists shown :: IsListing(shown, seeds, files[..], tree.Dirs(), t.value)
                                           && total == |shown|
                                           && (entries != null ==> total <= max && entries[..total] == shown))
    {
      hide IsTree, PathOf, Paths, Target, SeedsOk, SlotsOk, IsFile, Print, IsPlace, Lists, Listable, IsListing,
        Progress, Entries;
      ok, total := false, 0;
      ghost var slots, dirs := files[..], tree.Dirs();
      var known, absolute := ResolveAbsolute(path);
      if !known {
        return;
      }
      ghost var t := Leads(path).value;
      IsRoot(t);
      var isFile := FindFile(absolute, t);
      if isFile {
        FilesStand(seeds, slots, dirs, t);
        ok, total := ListOneFile(absolute, t, entries, max);
        return;
      }
      var n;
      ghost var shown;
      ok, n, shown := ListDirectory(absolute, t, entries, max);
      assert tree.Dirs() == dirs && Leads(path) == Some(t);
      if ok {
        total := n;
        ghost var names :| Lists(names, t, dirs) && Progress(entries, max, n, shown, Entries(names, seeds, slots, t));
        ListingDone(entries, max, n, shown, names, seeds, slots, dirs, t);
      }
    }

    /** The array of entries is not part of the state. */
    ghost predicate Separate(entries: array?<Entry>) {
      entries as object? != files && entries as object? != tree.table
    }
  }

  lemma SeedIsThere(seeds: seq<Seed>, i: nat)
    requires i < |seeds| && forall k :: 0 <= k < |seeds| ==> IsFilePath(seeds[k].names)
    ensures seeds[i].names != [] && AreNames(seeds[i].names) && NoNul(Print(seeds[i].names, true))
            && |Print(seeds[i].names, true)| < PATH_MAX
  {
  }

  lemma SlotIsThere(slots: seq<Slot>, dirs: PathSet, i: nat)
    requires SlotsOk(slots, dirs) && i < |slots| && slots[i].used
    ensures Names(slots[i]) != [] && AreNames(Names(slots[i])) && slots[i].path == Print(Names(slots[i]), true)
            && NoNul(slots[i].path) && |slots[i].path| < PATH_MAX
  {
    assert SlotOk(slots[i], dirs);
  }

  /** A directory has no more children than there are directories. */
  lemma ListsFew(names: seq<string>, t: seq<string>, dirs: PathSet)
    requires Lists(names, t, dirs)
    ensures |names| <= |dirs|
  {
    forall i | 0 <= i < |names|
      ensures t + [names[i]] in dirs
    {
      assert names[i] in names;
    }
    forall i, j | 0 <= i < j < |names|
      ensures names[i] != names[j]
    {
      LessIrreflexive(names[i]);
    }
    FewPaths(names, t, dirs);
  }

  lemma {:induction false} FewPaths(names: seq<string>, t: seq<string>, dirs: PathSet)
    requires forall i :: 0 <= i < |names| ==> t + [names[i]] in dirs
    requires forall i, j :: 0 <= i < j < |names| ==> names[i] != names[j]
    ensures |names| <= |dirs|
    decreases |names|
  {
    if names != [] {
      var n := |names| - 1;
      var last := t + [names[n]];
      assert last[|t|] == names[n];
      forall i | 0 <= i < n
        ensures t + [names[i]] in dirs - {last}
      {
        assert (t + [names[i]])[|t|] == names[i];
      }
      FewPaths(names[..n], t, dirs - {last});
    }
  }

  lemma AllRead(list: seq<string>, names: array<string>, n: nat)
    requires n == |list| <= names.Length && forall j :: 0 <= j < |list| && j < MAX_NODES ==> names[j] == list[j]
    requires n <= MAX_NODES
    ensures names[..n] == list
  {
  }

  lemma DirNameOk(nodes: seq<Node>, kids: seq<seq<nat>>, t: seq<string>, n: string)
    requires IsTree(nodes, kids) && t + [n] in Paths(nodes)
    ensures IsDirName(n)
  {
    var i: int :| 0 <= i < |nodes| && PathOf(nodes, i) == t + [n];
    PathNames(nodes, kids, i);
    assert (t + [n])[|t|] == n;
  }

  lemma ListingDone(entries: array?<Entry>, max: nat, count: nat, shown: seq<Entry>, names: seq<string>,
                    seeds: seq<Seed>,
                    slots: seq<Slot>, dirs: PathSet, dir: seq<string>)
    requires SeedsOk(seeds, dirs) && SlotsOk(slots, dirs) && Lists(names, dir, dirs)
    requires Progress(entries, max, count, shown, Entries(names, seeds, slots, dir))
    ensures IsListing(shown, seeds, slots, dirs, dir) && count == |shown|
    ensures entries != null ==> count <= max <= entries.Length && entries[..count] == shown
  {
    SortedIsListing(shown, names, seeds, slots, dirs, dir);
  }

  lemma StandsNames(t: seq<string>, dirs: PathSet)
    requires Stands(t, dirs)
    ensures AreNames(t)
  {
  }

  lemma {:induction false} FreeFirst(slots: seq<Slot>, i: nat)
    requires i < |slots| && !slots[i].used && FirstFree(slots[..i]) == None
    ensures FirstFree(slots) == Some(i)
    decreases |slots|
  {
    var n := |slots| - 1;
    if i < n {
      assert slots[..n][..i] == slots[..i];
      FreeFirst(slots[..n], i);
    }
  }

  lemma RootIsThere(dirs: PathSet, left: nat)
    ensures !CanMake(dirs, left, [])
  {
  }

  lemma StandsAtTop(n: string)
    requires IsDirName(n) && n != "etc" && n != "home" && n != "tmp"
    ensures Stands([n], START_DIRS)
  {
    assert Parent([n]) == [] && [n][0] == n;
  }

  lemma StandsBelow(dir: string, n: string)
    requires IsDirName(dir) && IsDirName(n) && [dir] in START_DIRS
    ensures Stands([dir, n], START_DIRS)
  {
    var t := [dir, n];
    assert Parent(t) == [dir] && |t| == 2;
    assert t[1..] == [n] && Joined([n]) == n;
    assert Joined(t) == dir + "/" + Joined(t[1..]) == dir + "/" + n;
    assert |Print(t, true)| == |dir| + |n| + 2;
    assert forall c :: c in Print(t, true) ==> c == '/' || c in dir || c in n;
  }

  /** The files the shell starts with stand where they may. */
  lemma DefaultSeedsOk()
    ensures SeedsOk(SEED_FILES, START_DIRS)
  {
    StandsAtTop("hello.txt");
    StandsBelow("etc", "motd");
    StandsBelow("home", "readme.txt");
    assert ["hello.txt"][0] != "etc" && |["hello.txt"]| == 1;
    hide Stands;
    assert ["etc", "motd"][0] != ["home", "readme.txt"][0];
  }

  /** On a fresh shell a text appended to a seeded file follows the seeded text. */
  lemma AppendToSeed(slots: seq<Slot>)
    requires slots != [] && forall i :: 0 <= i < |slots| ==> slots[i] == FREE_SLOT
    ensures var t := ["etc", "motd"];
            && SlotFor(slots, Print(t, true)).Some?
            && ContentAt(SEED_FILES, Written(SEED_FILES, slots, t, "hi", true), t)
               == Some("openTiger shell filesystem\n" + "hi")
  {
    var t := ["etc", "motd"];
    DefaultSeedsOk();
    assert SlotsOk(slots, START_DIRS) && Stands(SEED_FILES[1].names, START_DIRS);
    assert FirstFree(slots).Some? && SlotOf(slots, Print(t, true)).None?;
    ContentMeans(SEED_FILES, slots, START_DIRS, t, SEED_FILES[1].content);
    assert SEED_FILES[1] == Seed(t, "openTiger shell filesystem\n") && SEED_FILES[1] in SEED_FILES;
    WrittenContent(SEED_FILES, slots, START_DIRS, t, "hi", true, t);
    hide Written, ContentAt, SeedsOk, SlotsOk, Stands;
  }

  lemma DottedIs(path: string)
    ensures Dotted(path) == if path == "" then "." else path
  {
  }

  lemma {:induction false} SlotFirst(slots: seq<Slot>, path: string, i: nat)
    requires i < |slots| && slots[i].used && slots[i].path == path && SlotOf(slots[..i], path) == None
    ensures SlotOf(slots, path) == Some(i)
    decreases |slots|
  {
    var n := |slots| - 1;
    if i < n {
      assert slots[..n][..i] == slots[..i];
      SlotFirst(slots[..n], path, i);
    }
  }

  lemma {:induction false} SeedFirst(seeds: seq<Seed>, t: seq<string>, i: nat)
    requires i < |seeds| && seeds[i].names == t && SeedOf(seeds[..i], t) == None
    ensures SeedOf(seeds, t) == Some(i)
    decreases |seeds|
  {
    var n := |seeds| - 1;
    if i < n {
      assert seeds[..n][..i] == seeds[..i];
      SeedFirst(seeds[..n], t, i);
    }
  }
}
