/** Whole runs of the shell's file operations, on the directories and files they leave. */
module ShellRuns {
  import opened Words
  import opened PathAlgebra
  import opened DirSpec
  import opened DirTree
  import opened CdTargets
  import opened Namespace

  datatype Shell = Shell(dirs: PathSet, left: nat, here: seq<string>, slots: seq<Slot>)

  datatype Op = MakeDir(path: CString) | ChangeDir(path: CString) | Write(path: CString, content: string, append: bool)

  /** An empty path stands for the current directory. */
  function Dotted(path: string): string {
    if path == "" then "." else path
  }

  ghost function LeadsFrom(here: seq<string>, path: string): Option<seq<string>> {
    Target(here, Dotted(path))
  }

  lemma NothingIsDot(here: seq<string>)
    ensures LeadsFrom(here, "") == Target(here, ".")
  {
  }

  ghost function Leads(s: Shell, path: string): Option<seq<string>> {
    LeadsFrom(s.here, path)
  }

  /** A path that a write can use: a file or a free place in a directory, and a slot for it. */
  ghost predicate CanWrite(s: Shell, path: string) {
    var t := Leads(s, path);
    t.Some? && Stands(t.value, s.dirs) && SlotFor(s.slots, Print(t.value, true)).Some?
  }

  /** A write can go where the path leads exactly when no directory is there, its parent is one, and
      the file has a slot already or some slot is free. */
  lemma CanWriteIff(s: Shell, path: string)
    requires IsPlace(s.here) && forall t :: Leads(s, path) == Some(t) ==> NoNul(Print(t, true))
    ensures CanWrite(s, path) <==>
            && Leads(s, path).Some?
            && var t := Leads(s, path).value;
               && t != [] && t !in s.dirs && t[..|t| - 1] in s.dirs
               && exists i :: 0 <= i < |s.slots| && (!s.slots[i].used || s.slots[i].path == Print(t, true))
  {
    if Leads(s, path).Some? {
      LeadsToPlace(s, Dotted(path));
      var t := Leads(s, path).value;
      assert SlotFor(s.slots, Print(t, true)).Some? <==>
             exists i :: 0 <= i < |s.slots| && (!s.slots[i].used || s.slots[i].path == Print(t, true));
    }
    hide Target, Print, IsPlace, SlotOf, FirstFree;
  }

  ghost function Do(seeds: seq<Seed>, s: Shell, op: Op): Shell {
    match op
    case MakeDir(path) =>
      var t := Leads(s, path);
      if t.Some? && CanMake(s.dirs, s.left, t.value) && !IsFile(seeds, s.slots, t.value)
      then s.(dirs := s.dirs + {t.value}, left := s.left - 1) else s
    case ChangeDir(path) =>
      var t := Target(s.here, path);
      if t.Some? && t.value in s.dirs then s.(here := t.value) else s
    case Write(path, content, append) =>
      if CanWrite(s, path) then s.(slots := Written(seeds, s.slots, Leads(s, path).value, content, append)) else s
  }

  ghost function Run(seeds: seq<Seed>, s: Shell, ops: seq<Op>): Shell
    decreases |ops|
  {
    if ops == [] then s else Do(seeds, Run(seeds, s, ops[..|ops| - 1]), ops[|ops| - 1])
  }

  /** Files stand apart from directories, each in a directory that is there; so does the shell. */
  ghost predicate InOrder(seeds: seq<Seed>, s: Shell) {
    SeedsOk(seeds, s.dirs) && SlotsOk(s.slots, s.dirs) && s.here in s.dirs && IsPlace(s.here)
  }

  /** What one operation leaves in place. */
  lemma DoKeeps(seeds: seq<Seed>, s: Shell, op: Op)
    requires InOrder(seeds, s)
    ensures var r := Do(seeds, s, op); InOrder(seeds, r) && s.dirs <= r.dirs && |r.slots| == |s.slots|
  {
    hide SeedsOk, SlotsOk, CanMake, IsFile, Written, Stands, IsPlace;
    match op
    case MakeDir(path) =>
      var t := Leads(s, path);
      if t.Some? {
        LeadsToPlace(s, Dotted(path));
        if !IsFile(seeds, s.slots, t.value) {
          MkdirAmongFiles(seeds, s.slots, s.dirs, t.value);
        }
      }
    case ChangeDir(path) =>
      if Target(s.here, path).Some? {
        LeadsToPlace(s, path);
      }
    case Write(path, content, append) =>
      if CanWrite(s, path) {
        var t := Leads(s, path).value;
        WrittenKeeps(seeds, s.slots, s.dirs, t, content, append);
        assert |Written(seeds, s.slots, t, content, append)| == |s.slots| by {
          WrittenLength(seeds, s.slots, t, content, append);
        }
      }
  }

  lemma WrittenLength(seeds: seq<Seed>, slots: seq<Slot>, t: seq<string>, content: string, append: bool)
    requires SlotFor(slots, Print(t, true)).Some?
    ensures |Written(seeds, slots, t, content, append)| == |slots|
  {
  }

  lemma LeadsToPlace(s: Shell, path: string)
    requires IsPlace(s.here) && Target(s.here, path).Some?
    ensures IsPlace(Target(s.here, path).value) && AreNames(Target(s.here, path).value)
  {
    ResolvedIsPlace(s.here, path, PATH_MAX);
  }

  /** In every run no path becomes both a directory and a file, the files' paths stay different, and
      every file's directory stays. */
  lemma {:induction false} RunKeepsOrder(seeds: seq<Seed>, s: Shell, ops: seq<Op>)
    requires InOrder(seeds, s)
    ensures InOrder(seeds, Run(seeds, s, ops)) && s.dirs <= Run(seeds, s, ops).dirs
    decreases |ops|
  {
    if ops != [] {
      RunKeepsOrder(seeds, s, ops[..|ops| - 1]);
      DoKeeps(seeds, Run(seeds, s, ops[..|ops| - 1]), ops[|ops| - 1]);
      hide InOrder, Do;
    }
  }

  lemma NeverBoth(seeds: seq<Seed>, s: Shell, ops: seq<Op>, t: seq<string>)
    requires InOrder(seeds, s) && AreNames(t)
    ensures var r := Run(seeds, s, ops);
            !(t in r.dirs && IsFile(seeds, r.slots, t))
            && (IsFile(seeds, r.slots, t) ==> t != [] && Parent(t) in r.dirs)
  {
    RunKeepsOrder(seeds, s, ops);
    var r := Run(seeds, s, ops);
    if IsFile(seeds, r.slots, t) {
      FilesStand(seeds, r.slots, r.dirs, t);
    }
  }

  /** A write is refused when it cannot go where it leads, or does not fit there. */
  ghost predicate Refused(seeds: seq<Seed>, s: Shell, path: CString, content: string, append: bool) {
    CanWrite(s, path) ==>
      var was := ContentAt(seeds, s.slots, Leads(s, path).value);
      (if append && was.Some? then |was.value| else 0) + |content| >= CONTENT_MAX
  }

  /** A refused write leaves the shell as it was exactly when it could not go there at all, or the
      file was written before, and is appended to or empty. */
  lemma RefusedKeepsShellIff(seeds: seq<Seed>, s: Shell, path: CString, content: string, append: bool)
    requires Refused(seeds, s, path, content, append)
    ensures Do(seeds, s, Write(path, content, append)) == s <==>
            !CanWrite(s, path) ||
            (var i := SlotOf(s.slots, Print(Leads(s, path).value, true));
             i.Some? && (append || s.slots[i.value].content == ""))
  {
    if CanWrite(s, path) {
      RefusedKeepsIff(seeds, s.slots, Leads(s, path).value, content, append);
    }
    hide Leads, Written, Base, Fits, Stands, SlotOf, SlotFor;
  }

  lemma FileA()
    ensures Print(["a"], true) == "/a" && IsFilePath(["a"]) && Parent(["a"]) == []
    ensures Target([], "/a") == Some(["a"])
  {
    assert Print(["a"], true) == "/a";
    TargetOfPlace([], ["a"]);
  }

  /** A refused write that does leave something: on an empty shell, too long a text for a new file
      makes the file, without a text. */
  lemma RefusedWriteMakesFile()
    ensures var s, content := Shell({[]}, 0, [], [FREE_SLOT]), seq(CONTENT_MAX, _ => 'x');
            && InOrder([], s) && Refused([], s, "/a", content, false)
            && Do([], s, Write("/a", content, false)).slots == [Slot(true, "/a", "")]
  {
    var s, content := Shell({[]}, 0, [], [FREE_SLOT]), seq(CONTENT_MAX, _ => 'x');
    FileA();
    assert IsPlace([]);
    hide Print, IsFilePath, Target, IsPlace;
    assert SlotOf(s.slots, "/a") == None && FirstFree(s.slots) == Some(0);
    assert CanWrite(s, "/a");
    assert Base([], s.slots, ["a"], false) == "" && !Fits("", content);
    assert Written([], s.slots, ["a"], content, false) == [Slot(true, "/a", "")];
  }

  /** Whether an operation writes at a path. */
  ghost predicate Touches(s: Shell, op: Op, t: seq<string>) {
    op.Write? && CanWrite(s, op.path) && Leads(s, op.path) == Some(t)
  }

  ghost predicate NeverTouches(seeds: seq<Seed>, s: Shell, ops: seq<Op>, t: seq<string>)
    decreases |ops|
  {
    ops != [] ==>
      NeverTouches(seeds, s, ops[..|ops| - 1], t) && !Touches(Run(seeds, s, ops[..|ops| - 1]), ops[|ops| - 1], t)
  }

  lemma DoLeaves(seeds: seq<Seed>, s: Shell, op: Op, t: seq<string>)
    requires InOrder(seeds, s) && AreNames(t) && !Touches(s, op, t)
    ensures ContentAt(seeds, Do(seeds, s, op).slots, t) == ContentAt(seeds, s.slots, t)
  {
    if op.Write? && CanWrite(s, op.path) {
      WrittenContent(seeds, s.slots, s.dirs, Leads(s, op.path).value, op.content, op.append, t);
    }
    hide SeedsOk, SlotsOk, Written, ContentAt, Stands, CanMake, IsFile;
  }

  /** A file's text changes only by writing at its own path. */
  lemma {:induction false} RunLeaves(seeds: seq<Seed>, s: Shell, ops: seq<Op>, t: seq<string>)
    requires InOrder(seeds, s) && AreNames(t) && NeverTouches(seeds, s, ops, t)
    ensures ContentAt(seeds, Run(seeds, s, ops).slots, t) == ContentAt(seeds, s.slots, t)
    decreases |ops|
  {
    if ops != [] {
      var n := |ops| - 1;
      RunLeaves(seeds, s, ops[..n], t);
      RunKeepsOrder(seeds, s, ops[..n]);
      DoLeaves(seeds, Run(seeds, s, ops[..n]), ops[n], t);
      hide InOrder, Do, ContentAt, Touches;
    }
  }

  /** What was written is what is read, until something else is written there: the text alone, or
      after the file's old text (or the seeded text) when appending, or just what the write started
      from when the whole does not fit. */
  lemma ReadsBack(seeds: seq<Seed>, s: Shell, path: CString, content: string, append: bool, ops: seq<Op>)
    requires InOrder(seeds, s) && CanWrite(s, path)
    requires NeverTouches(seeds, Do(seeds, s, Write(path, content, append)), ops, Leads(s, path).value)
    ensures var t := Leads(s, path).value;
            var was := ContentAt(seeds, s.slots, t);
            var start := if append && was.Some? then was.value else "";
            ContentAt(seeds, Run(seeds, Do(seeds, s, Write(path, content, append)), ops).slots, t)
            == Some(if |start| + |content| < CONTENT_MAX then start + content else start)
  {
    var t := Leads(s, path).value;
    DoKeeps(seeds, s, Write(path, content, append));
    assert AreNames(t);
    RunLeaves(seeds, Do(seeds, s, Write(path, content, append)), ops, t);
    WrittenContent(seeds, s.slots, s.dirs, t, content, append, t);
    hide InOrder, ContentAt, NeverTouches, Run, Written;
  }
}
