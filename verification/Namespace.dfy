/** Files laid over a tree of directories, as values. */
module Namespace {
  import opened Words
  import opened PathAlgebra
  import opened DirSpec

  const FILES_MAX: nat := 32
  const CONTENT_MAX: nat := 512

  /** A file that is there from the start. */
  datatype Seed = Seed(names: seq<string>, content: string)

  /** A place for a file that was written. */
  datatype Slot = Slot(used: bool, path: string, content: string)

  const FREE_SLOT: Slot := Slot(false, "", "")

  // ----- the invariant

  /** A path at which a file can be: not the root, and of a form that resolving produces. */
  predicate IsFilePath(t: seq<string>) {
    t != [] && IsPlace(t) && NoNul(Print(t, true))
  }

  function Parent(t: seq<string>): seq<string>
    requires t != []
  {
    t[..|t| - 1]
  }

  function Names(slot: Slot): seq<string> {
    Components(slot.path)
  }

  /** A file stands where no directory is, in a directory that is there. */
  ghost predicate Stands(t: seq<string>, dirs: PathSet) {
    IsFilePath(t) && t !in dirs && Parent(t) in dirs
  }

  ghost predicate SlotOk(slot: Slot, dirs: PathSet) {
    slot.used ==> slot.path == Print(Names(slot), true) && Stands(Names(slot), dirs) && |slot.content| < CONTENT_MAX
  }

  ghost predicate SlotsOk(slots: seq<Slot>, dirs: PathSet) {
    && (forall i :: 0 <= i < |slots| ==> SlotOk(slots[i], dirs))
    && (forall i, j :: 0 <= i < j < |slots| && slots[i].used && slots[j].used ==> slots[i].path != slots[j].path)
  }

  ghost predicate SeedsOk(seeds: seq<Seed>, dirs: PathSet) {
    && (forall i :: 0 <= i < |seeds| ==> Stands(seeds[i].names, dirs) && |seeds[i].content| < CONTENT_MAX)
    && (forall i, j :: 0 <= i < j < |seeds| ==> seeds[i].names != seeds[j].names)
  }

  // ----- files by path

  function SlotOf(slots: seq<Slot>, path: string): (r: Option<nat>)
    ensures r.Some? ==> r.value < |slots| && slots[r.value].used && slots[r.value].path == path
    ensures r.None? ==> forall i :: 0 <= i < |slots| ==> !slots[i].used || slots[i].path != path
  {
    if slots == [] then None
    else
      var n := |slots| - 1;
      if SlotOf(slots[..n], path).Some? then SlotOf(slots[..n], path)
      else if slots[n].used && slots[n].path == path then Some(n)
      else None
  }

  function SeedOf(seeds: seq<Seed>, t: seq<string>): (r: Option<nat>)
    ensures r.Some? ==> r.value < |seeds| && seeds[r.value].names == t
    ensures r.None? ==> forall i :: 0 <= i < |seeds| ==> seeds[i].names != t
  {
    if seeds == [] then None
    else
      var n := |seeds| - 1;
      if SeedOf(seeds[..n], t).Some? then SeedOf(seeds[..n], t) else if seeds[n].names == t then Some(n) else None
  }

  /** What a file holds: what was written last, or what it was seeded with. */
  function ContentAt(seeds: seq<Seed>, slots: seq<Slot>, t: seq<string>): Option<string> {
    var i := SlotOf(slots, Print(t, true));
    if i.Some? then Some(slots[i.value].content)
    else match SeedOf(seeds, t)
      case None => None
      case Some(k) => Some(seeds[k].content)
  }

  predicate IsFile(seeds: seq<Seed>, slots: seq<Slot>, t: seq<string>) {
    ContentAt(seeds, slots, t).Some?
  }

  /** What a file holds, told by the tables: the text of the slot in use under its path, or without
      one the text of its seed. */
  lemma ContentMeans(seeds: seq<Seed>, slots: seq<Slot>, dirs: PathSet, t: seq<string>, content: string)
    requires SeedsOk(seeds, dirs) && SlotsOk(slots, dirs)
    ensures var written := exists i :: 0 <= i < |slots| && slots[i].used && slots[i].path == Print(t, true);
            ContentAt(seeds, slots, t) == Some(content) <==>
            if written then Slot(true, Print(t, true), content) in slots else Seed(t, content) in seeds
  {
    var i := SlotOf(slots, Print(t, true));
    if i.Some? {
      assert slots[i.value] == Slot(true, Print(t, true), slots[i.value].content);
      assert forall j :: 0 <= j < |slots| && slots[j].used && slots[j].path == Print(t, true) ==> j == i.value;
    } else {
      var k := SeedOf(seeds, t);
      if k.Some? {
        assert seeds[k.value] == Seed(t, seeds[k.value].content);
        assert forall j :: 0 <= j < |seeds| && seeds[j].names == t ==> j == k.value;
      }
    }
    hide Print, Stands, SlotOf, SeedOf;
  }

  /** No path is both a directory and a file, and every file's parent is a directory. */
  lemma FilesStand(seeds: seq<Seed>, slots: seq<Slot>, dirs: PathSet, t: seq<string>)
    requires SeedsOk(seeds, dirs) && SlotsOk(slots, dirs) && AreNames(t) && IsFile(seeds, slots, t)
    ensures t !in dirs && t != [] && Parent(t) in dirs
  {
    var i := SlotOf(slots, Print(t, true));
    if i.Some? {
      assert SlotOk(slots[i.value], dirs);
      ComponentsOfPrint(t, true);
    }
  }

  /** A slot is found by its path, and only it. */
  lemma SlotFound(slots: seq<Slot>, dirs: PathSet, i: nat)
    requires SlotsOk(slots, dirs) && i < |slots| && slots[i].used
    ensures SlotOf(slots, slots[i].path) == Some(i)
  {
    var r := SlotOf(slots, slots[i].path);
    assert r.Some?;
  }

  // ----- making a directory among files

  /** A new directory leaves the files where they are, unless one stands in its place. */
  lemma MkdirAmongFiles(seeds: seq<Seed>, slots: seq<Slot>, dirs: PathSet, t: seq<string>)
    requires SeedsOk(seeds, dirs) && SlotsOk(slots, dirs) && AreNames(t) && !IsFile(seeds, slots, t)
    ensures SeedsOk(seeds, dirs + {t}) && SlotsOk(slots, dirs + {t})
  {
    forall i | 0 <= i < |slots|
      ensures SlotOk(slots[i], dirs + {t})
    {
      assert SlotOk(slots[i], dirs);
    }
  }

  // ----- writing

  /** What a write starts from. */
  function Base(seeds: seq<Seed>, slots: seq<Slot>, t: seq<string>, append: bool): string {
    if append && IsFile(seeds, slots, t) then ContentAt(seeds, slots, t).value else ""
  }

  predicate Fits(base: string, content: string) {
    |base| + |content| < CONTENT_MAX
  }

  /** The slot a write goes to: the file's, or the first free one. */
  function FirstFree(slots: seq<Slot>): (r: Option<nat>)
    ensures r.Some? ==> r.value < |slots| && !slots[r.value].used
    ensures r.Some? ==> forall i :: 0 <= i < r.value ==> slots[i].used
    ensures r.None? ==> forall i :: 0 <= i < |slots| ==> slots[i].used
  {
    if slots == [] then None
    else
      var n := |slots| - 1;
      if FirstFree(slots[..n]).Some? then FirstFree(slots[..n]) else if !slots[n].used then Some(n) else None
  }

  function SlotFor(slots: seq<Slot>, path: string): (r: Option<nat>)
    ensures r.Some? ==> r.value < |slots|
  {
    if SlotOf(slots, path).Some? then SlotOf(slots, path) else FirstFree(slots)
  }

  /** The table after a write to a slot: the whole text when it fits, else only what it started from. */
  function Written(seeds: seq<Seed>, slots: seq<Slot>, t: seq<string>, content: string, append: bool): seq<Slot>
    requires SlotFor(slots, Print(t, true)).Some?
  {
    var base := Base(seeds, slots, t, append);
    slots[SlotFor(slots, Print(t, true)).value :=
          Slot(true, Print(t, true), if Fits(base, content) then base + content else base)]
  }

  lemma BaseFits(seeds: seq<Seed>, slots: seq<Slot>, dirs: PathSet, t: seq<string>, append: bool)
    requires SeedsOk(seeds, dirs) && SlotsOk(slots, dirs)
    ensures |Base(seeds, slots, t, append)| < CONTENT_MAX
  {
    var i := SlotOf(slots, Print(t, true));
    if i.Some? {
      assert SlotOk(slots[i.value], dirs);
    }
  }

  /** Writing keeps the namespace in order. */
  lemma WrittenKeeps(seeds: seq<Seed>, slots: seq<Slot>, dirs: PathSet, t: seq<string>, content: string, append: bool)
    requires SeedsOk(seeds, dirs) && SlotsOk(slots, dirs) && Stands(t, dirs) && SlotFor(slots, Print(t, true)).Some?
    ensures SlotsOk(Written(seeds, slots, t, content, append), dirs)
  {
    BaseFits(seeds, slots, dirs, t, append);
    ComponentsOfPrint(t, true);
    var after := Written(seeds, slots, t, content, append);
    var w := SlotFor(slots, Print(t, true)).value;
    assert forall i :: 0 <= i < |slots| && i != w ==> after[i] == slots[i];
    if SlotOf(slots, Print(t, true)).Some? {
      forall i | 0 <= i < |slots| && i != w && slots[i].used
        ensures slots[i].path != Print(t, true)
      {
        assert slots[w].path == Print(t, true);
      }
    }
    hide Written, Base, SlotFor, Fits, Print;
    assert SlotOk(after[w], dirs) by {
      WrittenSlot(seeds, slots, t, content, append);
    }
    forall i | 0 <= i < |after|
      ensures SlotOk(after[i], dirs)
    {
      assert SlotOk(slots[i], dirs);
    }
    assert after[w].path == Print(t, true) by {
      WrittenSlot(seeds, slots, t, content, append);
    }
  }

  lemma WrittenSlot(seeds: seq<Seed>, slots: seq<Slot>, t: seq<string>, content: string, append: bool)
    requires SlotFor(slots, Print(t, true)).Some?
    ensures var base := Base(seeds, slots, t, append);
            Written(seeds, slots, t, content, append)[SlotFor(slots, Print(t, true)).value]
            == Slot(true, Print(t, true), if Fits(base, content) then base + content else base)
  {
  }

  /** After a write, the file holds the old text (or the seed's) and the new when appending, the new
      text alone otherwise, or, when that does not fit, what the write started from; every other
      file is as it was. */
  lemma WrittenContent(seeds: seq<Seed>, slots: seq<Slot>, dirs: PathSet, t: seq<string>, content: string,
                       append: bool, u: seq<string>)
    requires SeedsOk(seeds, dirs) && SlotsOk(slots, dirs) && Stands(t, dirs) && SlotFor(slots, Print(t, true)).Some?
    requires AreNames(u)
    ensures var was := ContentAt(seeds, slots, t);
            var start := if append && was.Some? then was.value else "";
            ContentAt(seeds, Written(seeds, slots, t, content, append), u) ==
            if u != t then ContentAt(seeds, slots, u)
            else Some(if |start| + |content| < CONTENT_MAX then start + content else start)
  {
    var after := Written(seeds, slots, t, content, append);
    var w := SlotFor(slots, Print(t, true)).value;
    WrittenKeeps(seeds, slots, dirs, t, content, append);
    WrittenSlot(seeds, slots, t, content, append);
    SlotFound(after, dirs, w);
    if u != t {
      if Print(u, true) == Print(t, true) {
        PrintInjective(u, t);
      }
      assert forall i :: 0 <= i < |slots| && i != w ==> after[i] == slots[i];
      OtherSlot(slots, after, dirs, w, Print(t, true), Print(u, true));
    }
    hide Written, SlotFor, Print, SlotsOk;
  }

  /** A write that does not fit leaves the table as it was exactly when its file has a slot already,
      and is appended to or empty. */
  lemma RefusedKeepsIff(seeds: seq<Seed>, slots: seq<Slot>, t: seq<string>, content: string, append: bool)
    requires SlotFor(slots, Print(t, true)).Some?
    requires var was := ContentAt(seeds, slots, t);
             (if append && was.Some? then |was.value| else 0) + |content| >= CONTENT_MAX
    ensures var i := SlotOf(slots, Print(t, true));
            Written(seeds, slots, t, content, append) == slots <==>
            i.Some? && (append || slots[i.value].content == "")
  {
    var i, w := SlotOf(slots, Print(t, true)), SlotFor(slots, Print(t, true)).value;
    var after := Written(seeds, slots, t, content, append);
    assert after[w] == Slot(true, Print(t, true), Base(seeds, slots, t, append));
    if i.Some? && (append || slots[i.value].content == "") {
      assert after == slots;
    }
  }

  lemma OtherSlot(slots: seq<Slot>, after: seq<Slot>, dirs: PathSet, w: nat, path: string, other: string)
    requires SlotsOk(slots, dirs) && SlotsOk(after, dirs) && |slots| == |after| && w < |slots|
    requires forall i :: 0 <= i < |slots| && i != w ==> after[i] == slots[i]
    requires (slots[w].used ==> slots[w].path == path) && after[w].used && after[w].path == path && path != other
    ensures SlotOf(after, other) == SlotOf(slots, other)
  {
    var r, q := SlotOf(after, other), SlotOf(slots, other);
    if r.Some? {
      assert slots[r.value] == after[r.value];
      SlotFound(slots, dirs, r.value);
    }
  }
}
