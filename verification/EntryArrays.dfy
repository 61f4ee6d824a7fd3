/** The array of entries a listing fills in, kept sorted by insertion. */
module EntryArrays {
  import opened Words
  import opened PathAlgebra
  import opened DirForest
  import opened DirTree
  import opened Namespace
  import opened Listing
  import opened PathParts

  /** What can be listed: names that fit an entry, and no more entries than there is room for. */
  ghost predicate Listable(all: seq<Entry>, stored: bool, max: nat) {
    (forall i :: 0 <= i < |all| ==> |all[i].name| <= NAME_MAX) && (stored ==> |all| <= max)
  }

  lemma NotListable(part: seq<Entry>, all: seq<Entry>, stored: bool, max: nat)
    requires part <= all && !Listable(part, stored, max)
    ensures !Listable(all, stored, max)
  {
    assert forall i :: 0 <= i < |part| ==> part[i] == all[i];
  }

  ghost predicate EntryNames(all: seq<Entry>) {
    forall i :: 0 <= i < |all| ==> |all[i].name| <= NAME_MAX && NoNul(all[i].name)
  }

  /** The entries so far, sorted, counted, and in the array unless they are only counted. */
  ghost predicate Progress(entries: array?<Entry>, max: nat, count: nat, shown: seq<Entry>, all: seq<Entry>)
    reads entries
  {
    && IsSorted(shown, all) && count == |shown| && EntryNames(all) && EntryNames(shown)
    && (entries != null ==> count <= max <= entries.Length && entries[..count] == shown)
  }

  method ScanEntries(entries: array<Entry>, count: nat, name: CString, ghost shown: seq<Entry>) returns (at: nat)
    requires count <= entries.Length && entries[..count] == shown && EntryNames(shown)
    ensures at == PlaceOf(shown, name)
  {
    at := 0;
    assert shown[0..] == shown;
    while at < count
      invariant 0 <= at <= count && PlaceOf(shown, name) == at + PlaceOf(shown[at..], name)
    {
      assert entries[at] == shown[at] && shown[at..][1..] == shown[at + 1..];
      var order := StrCmp(entries[at].name, name);
      if order >= 0 {
        return;
      }
      at := at + 1;
    }
  }

  /** Make room for an entry. */
  method ShiftUp(entries: array<Entry>, count: nat, at: nat)
    requires at <= count < entries.Length
    modifies entries
    ensures forall i :: 0 <= i < at ==> entries[i] == old(entries[i])
    ensures forall i :: at < i <= count ==> entries[i] == old(entries[i - 1])
  {
    var i := count;
    while i > at
      invariant at <= i <= count
      invariant forall k :: 0 <= k <= i ==> entries[k] == old(entries[k])
      invariant forall k :: i < k <= count ==> entries[k] == old(entries[k - 1])
    {
      entries[i] := entries[i - 1];
      i := i - 1;
    }
  }

  predicate HasName(shown: seq<Entry>, name: string) {
    exists i :: 0 <= i < |shown| && shown[i].name == name
  }

  lemma NameAtPlace(shown: seq<Entry>, name: string)
    requires Ascending(shown)
    ensures var at := PlaceOf(shown, name); HasName(shown, name) <==> at < |shown| && shown[at].name == name
  {
    LessIrreflexive(name);
    var at := PlaceOf(shown, name);
    if at < |shown| && shown[at].name != name {
      GoesHere(shown, name, at);
    }
  }

  /** Insert a name into the sorted entries, unless it is there already; a full array and an
      overlong name are refused. */
  method InsertSorted(entries: array<Entry>, count: nat, max: nat, name: CString, isDir: bool, ghost shown: seq<Entry>)
    returns (ok: bool, newCount: nat)
    requires count <= max <= entries.Length && entries[..count] == shown && Ascending(shown) && EntryNames(shown)
    modifies entries
    ensures ok == (count < max && |name| <= NAME_MAX)
    ensures !ok || HasName(shown, name) ==> newCount == count && entries[..count] == shown
    ensures ok && !HasName(shown, name) ==>
              newCount == count + 1 && entries[..newCount] == Inserted(shown, Entry(name, isDir))
  {
    hide Less, PlaceOf, Ascending, EntryNames;
    if count >= max || |name| > NAME_MAX {
      return false, count;
    }
    var at := ScanEntries(entries, count, name, shown);
    NameAtPlace(shown, name);
    if at < count && entries[at].name == name {
      return true, count;
    }
    ShiftUp(entries, count, at);
    entries[at] := Entry(name, isDir);
    assert entries[..count + 1] == shown[..at] + [Entry(name, isDir)] + shown[at..];
    return true, count + 1;
  }

  /** One more entry, inserted or only counted. */
  method AddEntry(entries: array?<Entry>, max: nat, count: nat, name: CString, isDir: bool, ghost shown: seq<Entry>,
                  ghost all: seq<Entry>)
    returns (ok: bool, total: nat, ghost more: seq<Entry>)
    requires Progress(entries, max, count, shown, all) && DifferentNames(all + [Entry(name, isDir)])
             && |name| <= NAME_MAX
    modifies entries
    ensures ok ==> Progress(entries, max, total, more, all + [Entry(name, isDir)])
    ensures !ok ==> !Listable(all + [Entry(name, isDir)], entries != null, max)
  {
    hide Less, PlaceOf, EntryNames, DifferentNames, Inserted;
    ghost var e := Entry(name, isDir);
    InsertedSorts(shown, all, e);
    NamesMore(shown, all, e);
    GoesMeansAbsent(shown, name);
    more := Inserted(shown, e);
    if entries == null {
      return true, count + 1, more;
    }
    ok, total := InsertSorted(entries, count, max, name, isDir, shown);
  }

  lemma GoesMeansAbsent(shown: seq<Entry>, name: string)
    requires GoesAt(shown, name, PlaceOf(shown, name))
    ensures !HasName(shown, name)
  {
    LessIrreflexive(name);
  }

  lemma NamesMore(shown: seq<Entry>, all: seq<Entry>, e: Entry)
    requires EntryNames(shown) && EntryNames(all) && |e.name| <= NAME_MAX && NoNul(e.name)
    ensures EntryNames(all + [e]) && EntryNames(Inserted(shown, e)) && |Inserted(shown, e)| == |shown| + 1
  {
    hide PlaceOf;
  }

  /** A file's entry, when the file is in the directory. */
  method ListFile(path: CString, ghost f: seq<string>, dir: CString, entries: array?<Entry>, max: nat, count: nat,
                  ghost shown: seq<Entry>, ghost before: seq<Entry>, ghost after: seq<Entry>, ghost t: seq<string>)
    returns (ok: bool, total: nat, ghost more: seq<Entry>)
    requires AreNames(f) && f != [] && path == Print(f, true) && |path| < PATH_MAX
    requires AreNames(t) && dir == Print(t, true)
    requires after == before + (if IsIn(f, t) then [Entry(f[|f| - 1], false)] else [])
    requires Progress(entries, max, count, shown, before) && DifferentNames(after)
    modifies entries
    ensures ok ==> Progress(entries, max, total, more, after)
    ensures !ok ==> !Listable(after, entries != null, max)
  {
    hide Progress, DifferentNames, Print;
    ParentNames(f);
    var parent := ParentOf(path, f);
    var same := StrCmp(parent, dir);
    if same != 0 {
      assert before + [] == before;
      return true, count, shown;
    }
    PrintInjective(Parent(f), t);
    var name;
    ok, name := NameOf(path, f);
    if !ok {
      assert after[|after| - 1].name == f[|f| - 1];
      return false, count, shown;
    }
    ok, total, more := AddEntry(entries, max, count, name, false, shown, before);
  }

  lemma ParentNames(f: seq<string>)
    requires AreNames(f) && f != []
    ensures AreNames(Parent(f))
  {
  }

  /** The entries of the directories that are in a directory. */
  method ListDirs(found: array<string>, n: nat, entries: array?<Entry>, max: nat, ghost names: seq<string>)
    returns (ok: bool, total: nat, ghost shown: seq<Entry>)
    requires n == |names| <= found.Length && found[..n] == names && found as object? != entries
    requires DifferentNames(DirEntries(names)) && EntryNames(DirEntries(names))
             && (entries != null ==> max <= entries.Length)
    modifies entries
    ensures ok ==> Progress(entries, max, total, shown, DirEntries(names))
    ensures !ok ==> !Listable(DirEntries(names), entries != null, max)
  {
    hide DifferentNames, EntryNames, Progress, Listable;
    ok, total, shown := true, 0, [];
    NoEntries(entries, max);
    var i := 0;
    while i < n
      invariant 0 <= i <= n && ok && found[..n] == names
      invariant Progress(entries, max, total, shown, DirEntries(names[..i]))
    {
      DirPrefix(names, i);
      ok, total, shown := AddEntry(entries, max, total, found[i], true, shown, DirEntries(names[..i]));
      if !ok {
        NotListable(DirEntries(names[..i + 1]), DirEntries(names), entries != null, max);
        return;
      }
      i := i + 1;
    }
    assert names[..i] == names;
  }

  lemma NoEntries(entries: array?<Entry>, max: nat)
    requires entries != null ==> max <= entries.Length
    ensures Progress(entries, max, 0, [], DirEntries([]))
  {
  }

  lemma DirPrefix(names: seq<string>, i: nat)
    requires i < |names| && DifferentNames(DirEntries(names)) && EntryNames(DirEntries(names))
    ensures DirEntries(names[..i + 1]) == DirEntries(names[..i]) + [Entry(names[i], true)]
    ensures DirEntries(names[..i + 1]) <= DirEntries(names)
    ensures DifferentNames(DirEntries(names[..i + 1])) && |names[i]| <= NAME_MAX && NoNul(names[i])
  {
    assert DirEntries(names)[i].name == names[i];
  }

  /** A file lists itself. */
  method ListOneFile(absolute: CString, ghost t: seq<string>, entries: array?<Entry>, max: nat)
    returns (ok: bool, total: nat)
    requires AreNames(t) && t != [] && absolute == Print(t, true) && (entries != null ==> max <= entries.Length)
    modifies entries
    ensures ok == (|t[|t| - 1]| <= NAME_MAX && (entries == null || max > 0))
    ensures if ok then total == 1 && (entries != null ==> entries[0] == Entry(t[|t| - 1], false)) else total == 0
  {
    var name;
    ok, name := NameOf(absolute, t);
    if !ok {
      return false, 0;
    }
    if entries == null {
      return true, 1;
    }
    var count;
    ok, count := InsertSorted(entries, 0, max, name, false, []);
    if !ok {
      return false, 0;
    }
    assert Inserted([], Entry(name, false)) == [Entry(name, false)];
    assert entries[..1][0] == entries[0];
    return true, 1;
  }

  lemma ProgressListable(entries: array?<Entry>, max: nat, count: nat, shown: seq<Entry>, all: seq<Entry>)
    requires Progress(entries, max, count, shown, all)
    ensures Listable(all, entries != null, max)
  {
  }
}
