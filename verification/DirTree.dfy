/** The directory tree: a table of nodes, a count and a current directory. */
module DirTree {
  import opened Words
  import opened PathAlgebra
  import opened FsPath
  import opened DirForest
  import opened DirSpec

  /** Compare as C strings: negative, zero or positive. */
  method StrCmp(a: CString, b: CString) returns (r: int)
    ensures r < 0 <==> Less(a, b)
    ensures r < 0 <==> Before(a, b)
    ensures r == 0 <==> a == b
  {
    hide Before;
    LessMeans(a, b);
    var i := 0;
    while i < |a| && i < |b|
      invariant 0 <= i <= |a| && i <= |b| && a[..i] == b[..i]
      invariant Less(a, b) == Less(a[i..], b[i..])
    {
      if a[i] != b[i] {
        return a[i] as int - b[i] as int;
      }
      assert a[..i + 1] == b[..i + 1];
      assert a[i..][1..] == a[i + 1..] && b[i..][1..] == b[i + 1..];
      i := i + 1;
    }
    assert a[..|a|] == a && b[..|b|] == b;
    r := (if i < |a| then a[i] as int else 0) - if i < |b| then b[i] as int else 0;
    assert i < |a| ==> a[i] in a;
    assert i < |b| ==> b[i] in b;
  }

  class DirTree {
    const table: array<Node>
    var count: nat
    var cwd: nat
    ghost var kids: seq<seq<nat>>

    ghost predicate Valid()
      reads this, table
    {
      count <= table.Length && IsTree(table[..count], kids) && cwd < count
    }

    ghost function Nodes(): seq<Node>
      requires count <= table.Length
      reads this, table
    {
      table[..count]
    }

    /** The directories that exist. */
    ghost function Dirs(): PathSet
      requires Valid()
      reads this, table
    {
      Paths(Nodes())
    }

    /** The current directory. */
    ghost function Here(): seq<string>
      requires Valid()
      reads this, table
    {
      PathOf(Nodes(), cwd)
    }

    constructor Init(capacity: nat)
      requires capacity > 0
      ensures Valid() && fresh(table) && table.Length == capacity && count == 1
      ensures Dirs() == {[]} && Here() == []
    {
      table := new Node[capacity](_ => Node("", -1, -1, -1, false));
      count, cwd, kids := 1, 0, [[]];
      new;
      table[0] := Node("", -1, -1, -1, true);
      OneNode(table[..1]);
    }

    static lemma OneNode(nodes: seq<Node>)
      requires nodes == [Node("", -1, -1, -1, true)]
      ensures IsTree(nodes, [[]]) && Paths(nodes) == {[]} && PathOf(nodes, 0) == []
    {
      var kids: seq<seq<nat>> := [[]];
      assert FirstOk(nodes, kids, 0);
      assert PathOf(nodes, 0) == [] && |Print([], true)| == 1;
    }

    /** Walk a sibling list for a name. */
    method FindChild(parent: nat, name: CString) returns (child: int)
      requires Valid() && parent < count
      ensures match ChildOf(Nodes(), kids, parent, name)
              case None => child < 0
              case Some(c) => child == c
    {
      hide IsTree, Linked, Rooted, Sorted, Fitting, Less;
      ghost var nodes := Nodes();
      TreeLists(nodes, kids, parent);
      ghost var list := kids[parent];
      child := table[parent].firstChild;
      ghost var j := 0;
      while child >= 0
        invariant 0 <= j <= |list|
        invariant child == if j < |list| then list[j] else -1
        invariant ChildNamed(nodes, list[j..], name) == ChildNamed(nodes, list, name)
        decreases |list| - j
      {
        var same := StrCmp(table[child].name, name);
        if same == 0 {
          return;
        }
        assert NextOk(nodes, list, j);
        child := table[child].nextSibling;
        j := j + 1;
      }
      return -1;
    }

    /** A cleared node at the end of the table, not linked to anything yet. */
    method AllocNode() returns (index: int)
      requires count <= table.Length
      modifies this`count, table
      ensures old(count) >= table.Length ==> index < 0 && count == old(count) && table[..] == old(table[..])
      ensures old(count) < table.Length ==>
                index == old(count) && count == old(count) + 1 && table[index] == Node("", -1, -1, -1, true)
                && table[..index] == old(table[..count])
    {
      if count >= table.Length {
        return -1;
      }
      index := count;
      table[index] := Node("", -1, -1, -1, true);
      count := count + 1;
    }

    /** Find the place of a new node in its parent's list. */
    method FindPlace(parent: nat, name: CString) returns (prev: int, ghost at: nat)
      requires 0 < count <= table.Length && parent < count - 1
      requires IsTree(table[..count - 1], kids)
      requires ChildNamed(table[..count - 1], kids[parent], name) == None
      ensures Belongs(table[..count - 1], kids[parent], name, at)
      ensures prev == if at == 0 then -1 else kids[parent][at - 1]
    {
      hide IsTree, Linked, Rooted, Sorted, Fitting, Less, Belongs, ChildNamed, AllBefore;
      ghost var nodes := table[..count - 1];
      TreeLists(nodes, kids, parent);
      ghost var list := kids[parent];
      assert AllBefore(nodes, list, name, 0) by { BeforeStep(nodes, list, name, 0); }
      prev := -1;
      at := 0;
      var cur := table[parent].firstChild;
      while cur >= 0
        invariant 0 <= at <= |list|
        invariant cur == if at < |list| then list[at] else -1
        invariant prev == if at == 0 then -1 else list[at - 1]
        invariant AllBefore(nodes, list, name, at)
        decreases |list| - at
      {
        var order := StrCmp(table[cur].name, name);
        if order >= 0 {
          break;
        }
        assert NextOk(nodes, list, at);
        BeforeStep(nodes, list, name, at);
        prev := cur;
        cur := table[cur].nextSibling;
        at := at + 1;
      }
      PlaceFound(nodes, list, name, at);
    }

    /** Link a new node into its parent's list, in its place. */
    method InsertChildSorted(parent: nat, child: nat, name: CString) returns (ghost at: nat)
      requires 0 < count <= table.Length && child == count - 1 && parent < child
      requires IsTree(table[..child], kids)
      requires table[child] == Node(name, parent, -1, -1, true)
      requires ChildNamed(table[..child], kids[parent], name) == None
      modifies table
      ensures Belongs(old(table[..child]), kids[parent], name, at)
      ensures table[..count] == Added(old(table[..child]), kids[parent], parent, name, at)
    {
      hide IsTree, Linked, Rooted, Sorted, Fitting, Belongs, ChildNamed;
      ghost var nodes := table[..child];
      TreeLists(nodes, kids, parent);
      ghost var list := kids[parent];
      var prev;
      prev, at := FindPlace(parent, name);
      LinkOf(nodes, kids, parent, name, at);
      LinkIn(parent, child, prev, if at < |list| then list[at] else -1);
      assert at > 0 ==> prev == list[at - 1];
    }

    method LinkIn(parent: nat, child: nat, prev: int, ghost next: int)
      requires 0 < count <= table.Length && child == count - 1 && parent < child && prev < child
      requires next == if prev < 0 then table[parent].firstChild else table[prev].nextSibling
      modifies table
      ensures table[..count] ==
              (if prev < 0 then old(table[..child])[parent := old(table[parent]).(firstChild := child)]
               else old(table[..child])[prev := old(table[prev]).(nextSibling := child)])
              + [old(table[child]).(nextSibling := next)]
    {
      if prev < 0 {
        table[child] := table[child].(nextSibling := table[parent].firstChild);
        table[parent] := table[parent].(firstChild := child);
      } else {
        table[child] := table[child].(nextSibling := table[prev].nextSibling);
        table[prev] := table[prev].(nextSibling := child);
      }
    }

    /** A new child in its place, when there is a node left for it. */
    method MakeChild(parent: nat, name: CString) returns (index: int)
      requires Valid() && parent < count && IsDirName(name) && ChildOf(Nodes(), kids, parent, name) == None
      requires |Print(PathOf(Nodes(), parent) + [name], true)| < PATH_MAX
      modifies this`count, this`kids, table
      ensures Valid()
      ensures old(count) == table.Length ==>
                index < 0 && count == old(count) && Nodes() == old(Nodes()) && kids == old(kids)
      ensures old(count) < table.Length ==>
                && index == old(count) && count == index + 1
                && PathOf(Nodes(), index) == old(PathOf(Nodes(), parent)) + [name]
                && Dirs() == old(Dirs()) + {old(PathOf(Nodes(), parent)) + [name]}
                && forall i :: 0 <= i < old(count) ==> PathOf(Nodes(), i) == old(PathOf(Nodes(), i))
    {
      hide IsTree, Linked, Rooted, Sorted, Fitting, Belongs, ChildNamed, PathOf, Paths, Added, AddedKids, IsDirName;
      ghost var nodes := Nodes();
      TreeLists(nodes, kids, parent);
      ghost var list := kids[parent];
      index := AllocNode();
      if index < 0 {
        assert table[..count] == nodes;
        return;
      }
      table[index] := table[index].(name := name);
      table[index] := table[index].(parent := parent);
      table[index] := table[index].(firstChild := -1);
      table[index] := table[index].(nextSibling := -1);
      assert table[..index] == nodes;
      ghost var at := InsertChildSorted(parent, index, name);
      AddedKeepsTree(nodes, kids, parent, name, at);
      BelongsWithin(nodes, list, name, at);
      kids := AddedKids(kids, parent, at);
    }

    /** The nodes from a node up to the root. */
    method Ancestors(index: nat) returns (stack: array<nat>, depth: nat)
      requires Valid() && index < count
      ensures fresh(stack) && depth == |PathOf(Nodes(), index)|
              && Climb(Nodes(), stack[..], depth, PathOf(Nodes(), index))
    {
      hide IsTree, Linked, Rooted, Sorted, Fitting, PathOf;
      ghost var nodes := Nodes();
      ghost var path := PathOf(nodes, index);
      PathStep(nodes, kids, index);
      stack := new nat[table.Length](_ => 0);
      depth := 0;
      var cur := index;
      while cur > 0
        invariant 0 <= cur <= index - depth && depth <= |path|
        invariant PathOf(nodes, cur) == path[..|path| - depth]
        invariant Climb(nodes, stack[..], depth, path)
        decreases cur
      {
        PathStep(nodes, kids, cur);
        ghost var before := stack[..];
        var here: nat := cur;
        stack[depth] := here;
        ClimbStep(nodes, before, depth, path, here);
        assert stack[..] == before[depth := here];
        depth := depth + 1;
        cur := table[cur].parent;
      }
      PathStep(nodes, kids, 0);
    }

    method EmitAncestors(stack: array<nat>, depth: nat, ghost path: seq<string>, out: array<char>, size: nat)
      returns (ok: bool)
      requires count <= table.Length && out as object != table && out as object != stack
      requires depth == |path| > 0 && AreNames(path) && Climb(Nodes(), stack[..], depth, path)
      requires 2 <= size <= out.Length && out[..1] == "/"
      modifies out
      ensures ok == (|Print(path, true)| < size)
      ensures ok ==> HoldsText(out[..], Print(path, true))
    {
      hide Print, Emitted, AreNames, Climb;
      EmittedFirst(path);
      ghost var nodes := Nodes();
      var used, left := 1, depth;
      while left > 0
        invariant 0 <= left <= depth && Nodes() == nodes && Climb(nodes, stack[..], depth, path)
        invariant used == |Emitted(path, depth - left)| < size && out[..used] == Emitted(path, depth - left)
      {
        left := left - 1;
        ClimbAt(nodes, stack[..], depth, path, left);
        EmittedNext(path, depth - left - 1);
        assert table[stack[left]] == nodes[stack[left]];
        ok, used := EmitThen(out, size, used, table[stack[left]].name, left > 0, Emitted(path, depth - left - 1));
        if !ok {
          return;
        }
      }
      EmittedAll(path);
      Terminate(out, used, Print(path, true));
      return true;
    }

    /** A node's path, in a buffer; only the buffer's size can be in the way. */
    method PathFromIndex(index: nat, out: array<char>, size: nat) returns (ok: bool)
      requires Valid() && index < count && size <= out.Length && out as object != table
      modifies out
      ensures Valid() && Nodes() == old(Nodes())
      ensures ok == (|Print(PathOf(Nodes(), index), true)| < size)
      ensures ok ==> HoldsText(out[..], Print(PathOf(Nodes(), index), true))
    {
      ghost var nodes := Nodes();
      ghost var path := PathOf(nodes, index);
      PathStep(nodes, kids, index);
      PathNames(nodes, kids, index);
      hide IsTree, Linked, Rooted, Sorted, Fitting, PathOf, AreNames, IsCanonical, IsDirName;
      if index == 0 {
        assert Print(path, true) == "/";
        if size < 2 {
          return false;
        }
        out[0], out[1] := '/', '\0';
        assert out[..1] == "/";
        return true;
      }
      var stack, depth := Ancestors(index);
      PrintIs(path, true);
      if size < 2 {
        return false;
      }
      hide Print;
      out[0] := '/';
      assert out[..1] == "/" && Nodes() == nodes;
      ok := EmitAncestors(stack, depth, path, out, size);
      assert Nodes() == nodes;
    }

    /** A path seen from the current directory. */
    method ResolveHere(path: CString, out: array<char>, size: nat) returns (ok: bool)
      requires Valid() && size <= out.Length && out as object != table
      modifies out
      ensures Valid() && Nodes() == old(Nodes())
      ensures ok == Resolve(Print(Here(), true), path, size).Some?
      ensures ok ==> HoldsText(out[..], Resolve(Print(Here(), true), path, size).value)
    {
      ghost var nodes := Nodes();
      ghost var here := PathOf(nodes, cwd);
      PathIsPlace(nodes, kids, cwd);
      PathNoNul(nodes, kids, cwd);
      hide IsTree, Linked, Rooted, Sorted, Fitting, PathOf, Print, Resolve;
      if size == 0 {
        assert Resolve(Print(here, true), path, 0) == None by { NoRoom(Print(here, true), path); }
        return false;
      }
      var buffer := new char[PATH_MAX](_ => '\0');
      assert Nodes() == nodes;
      ok := PathFromIndex(cwd, buffer, PATH_MAX);
      var text := ReadText(buffer, Print(here, true));
      ok := ResolvePath(text, path, out, size);
      assert Nodes() == nodes;
    }

    /** Follow the names of an absolute text from the root. */
    method LookupAbsolute(absolute: CString) returns (index: int)
      requires Valid()
      ensures match LookupText(Nodes(), kids, absolute)
              case None => index < 0
              case Some(i) => index == i
    {
      ghost var nodes := Nodes();
      assert Rooted(nodes, kids);
      hide IsTree, Linked, Rooted, Sorted, Fitting, Lookup, ChildOf, Pieces, FirstName, AfterName, LookupFrom;
      if absolute == "" || absolute[0] != '/' {
        return -1;
      }
      var cur, i := 0, 1;
      while i < |absolute|
        invariant 1 <= i <= |absolute| && 0 <= cur < count
        invariant LookupFrom(nodes, kids, cur, absolute[i..]) == LookupText(nodes, kids, absolute)
      {
        LookupStep(nodes, kids, cur, absolute[i..]);
        if absolute[i] == '/' {
          return -1;
        }
        var end := NameEnd(absolute, i);
        if end - i > NAME_MAX {
          return -1;
        }
        var child := FindChild(cur, absolute[i..end]);
        if child < 0 {
          return -1;
        }
        cur := child;
        assert end < |absolute| ==> absolute[end..][1..] == absolute[end + 1..];
        i := if end < |absolute| && absolute[end] == '/' then end + 1 else end;
      }
      LookupDone(nodes, kids, cur);
      assert absolute[i..] == "";
      return cur;
    }

    /** The normal form of a path seen from the current directory, and the names in it. */
    method TargetOf(path: CString) returns (ok: bool, absolute: CString)
      requires Valid()
      ensures ok == Target(Here(), path).Some?
      ensures ok ==> absolute == Print(Target(Here(), path).value, true) && IsPlace(Target(Here(), path).value)
    {
      ghost var nodes := Nodes();
      ghost var here := PathOf(nodes, cwd);
      PathIsPlace(nodes, kids, cwd);
      PathNames(nodes, kids, cwd);
      TargetIs(here, path);
      hide IsTree, Linked, Rooted, Sorted, Fitting, PathOf, Print, Resolve, Target, IsPlace;
      absolute := "";
      var buffer := new char[PATH_MAX](_ => '\0');
      assert Nodes() == nodes && Here() == here;
      ok := ResolveHere(path, buffer, PATH_MAX);
      if ok {
        absolute := ReadText(buffer, Resolve(Print(here, true), path, PATH_MAX).value);
      }
    }

    /** How many nodes are left. */
    ghost function Left(): nat
      requires count <= table.Length
      reads this
    {
      table.Length - count
    }

    /** Where making a path stands: at the node of its first k names, and on the way to the outcome. */
    ghost predicate Making(t: seq<string>, k: nat, cur: nat, create: bool, outcome: (PathSet, bool))
      reads this, table
    {
      && Valid() && cur < count && k <= |t| && PathOf(Nodes(), cur) == t[..k]
      && Grown(Dirs(), Left(), t, k, create) == outcome
    }

    /** A missing name is made when that is asked for, or when it is the last, and a node is left. */
    method MakeMissing(ghost t: seq<string>, ghost k: nat, cur: nat, create: bool, name: CString, last: bool,
                       ghost outcome: (PathSet, bool))
      returns (ok: bool, next: nat)
      requires Making(t, k, cur, create, outcome) && k < |t| && IsPlace(t) && name == t[k] && last == (k + 1 == |t|)
      requires |name| <= NAME_MAX && t[..k + 1] !in Dirs() && ChildOf(Nodes(), kids, cur, name) == None
      modifies this`count, this`kids, table
      ensures Valid() && Here() == old(Here())
      ensures if ok then Making(t, k + 1, next, create, outcome) else outcome == (Dirs(), false)
      ensures !ok ==> Nodes() == old(Nodes()) && kids == old(kids)
      ensures ok ==> create || last
    {
      hide IsTree, Linked, Rooted, Sorted, Fitting, PathOf, Paths, Grown, ChildOf, Print, IsPlace, IsDirName;
      PlacePrefix(t, k);
      GrownStep(Dirs(), Left(), t, k, create);
      if !create && !last {
        return false, cur;
      }
      var made := MakeChild(cur, name);
      if made < 0 {
        return false, cur;
      }
      return true, made;
    }

    /** One name of the path: found, or made. */
    method MakeName(ghost t: seq<string>, ghost k: nat, cur: nat, create: bool, name: CString, last: bool,
                    ghost outcome: (PathSet, bool))
      returns (ok: bool, next: nat, created: bool)
      requires Making(t, k, cur, create, outcome) && k < |t| && IsPlace(t) && name == t[k] && last == (k + 1 == |t|)
      modifies this`count, this`kids, table
      ensures Valid() && Here() == old(Here())
      ensures !ok ==> outcome == (Dirs(), false)
      ensures ok ==> Making(t, k + 1, next, create, outcome)
      ensures ok && last && !create ==> created
      ensures created ==> ok && (create || last)
      ensures !created ==> Nodes() == old(Nodes()) && kids == old(kids)
    {
      hide IsTree, Linked, Rooted, Sorted, Fitting, PathOf, Paths, Grown, Print, IsPlace, ChildOf;
      PlacePrefix(t, k);
      GrownStep(Dirs(), Left(), t, k, create);
      ChildOnPath(Nodes(), kids, cur, t, k);
      if |name| > NAME_MAX {
        return false, cur, false;
      }
      var child := FindChild(cur, name);
      if child >= 0 {
        if last && !create {
          return false, cur, false;
        }
        return true, child, false;
      }
      ok, next := MakeMissing(t, k, cur, create, name, last, outcome);
      return ok, next, ok;
    }

    /** The loop over the names: what it has read and made, and that nothing changed before it made
        something. */
    ghost predicate Underway(absolute: string, i: nat, t: seq<string>, k: nat, cur: nat, create: bool, createdAny: bool,
                             outcome: (PathSet, bool), here: seq<string>, nodes: seq<Node>, lists: seq<seq<nat>>)
      reads this, table
    {
      && i <= |absolute| && k <= |t| && Scanned(absolute, i, t, k)
      && Valid() && Making(t, k, cur, create, outcome) && Here() == here
      && (!create ==> (createdAny <==> k == |t|))
      && (!createdAny ==> Nodes() == nodes && kids == lists)
    }

    /** One turn of the loop. */
    method MakeNext(absolute: CString, i: nat, ghost t: seq<string>, ghost k: nat, cur: nat, create: bool,
                    createdAny: bool,
                    ghost outcome: (PathSet, bool), ghost here: seq<string>, ghost nodes: seq<Node>,
                      ghost lists: seq<seq<nat>>)
      returns (ok: bool, next: nat, at: nat, some: bool)
      requires Underway(absolute, i, t, k, cur, create, createdAny, outcome, here, nodes, lists) && i < |absolute|
               && IsPlace(t)
      modifies this`count, this`kids, table
      ensures ok ==> k < |t| && Underway(absolute, at, t, k + 1, next, create, some, outcome, here, nodes, lists)
      ensures !ok ==>
                Valid() && Here() == here && outcome == (Dirs(), false)
                && (!create ==> Nodes() == nodes && kids == lists)
    {
      hide Valid, Making, Scanned, Here, Nodes, Dirs, IsPlace, IsTree;
      assert count <= table.Length by { StillMaking(t, k, cur, create, outcome); }
      var name, last, created;
      name, last, at := NextName(absolute, i, t, k);
      ok, next, created := MakeName(t, k, cur, create, name, last, outcome);
      some := createdAny || created;
      if ok {
        StillMaking(t, k + 1, next, create, outcome);
      } else {
        StillValid();
      }
    }

    lemma StillValid()
      requires Valid()
      ensures count <= table.Length
    {
    }

    /** Name after name, from the root on. */
    method MakeNames(absolute: CString, create: bool, ghost t: seq<string>, ghost outcome: (PathSet, bool))
      returns (ok: bool)
      requires Valid() && Making(t, 0, 0, create, outcome) && IsPlace(t) && t != [] && Scanned(absolute, 1, t, 0)
      modifies this`count, this`kids, table
      ensures Valid() && Here() == old(Here()) && outcome == (Dirs(), ok)
      ensures !ok && !create ==> Nodes() == old(Nodes()) && kids == old(kids)
    {
      StillMaking(t, 0, 0, create, outcome);
      ghost var here, nodes, lists := Here(), Nodes(), kids;
      var cur, i, createdAny := 0, 1, false;
      ghost var k := 0;
      assert |absolute| >= 1 && Underway(absolute, i, t, k, cur, create, createdAny, outcome, here, nodes, lists);
      hide *;
      while i < |absolute|
        invariant 0 <= i && k <= |t| && 0 <= cur
        invariant Underway(absolute, i, t, k, cur, create, createdAny, outcome, here, nodes, lists)
        decreases |t| - k
      {
        ok, cur, i, createdAny := MakeNext(absolute, i, t, k, cur, create, createdAny, outcome, here, nodes, lists);
        if !ok {
          return;
        }
        k := k + 1;
      }
      AllMade(absolute, i, t, k, cur, create, createdAny, outcome, here, nodes, lists);
      if !create && !createdAny {
        return false;
      }
      return true;
    }

    lemma AllMade(absolute: string, i: nat, t: seq<string>, k: nat, cur: nat, create: bool, createdAny: bool,
                  outcome: (PathSet, bool), here: seq<string>, nodes: seq<Node>, lists: seq<seq<nat>>)
      requires Underway(absolute, i, t, k, cur, create, createdAny, outcome, here, nodes, lists) && i >= |absolute|
      ensures Valid() && Here() == here && outcome == (Dirs(), true) && (!create ==> createdAny)
    {
      hide Valid, Making, Here, Nodes, Dirs, Scanned;
      ScanEnd(absolute, t, k);
      Ends(t, cur, create, outcome);
    }

    /** Make a directory, with its parents when that is asked for: what the specification says of the
        paths, with the current directory as it was. */
    method MkdirInternal(path: CString, create: bool) returns (ok: bool)
      requires Valid()
      modifies this`count, this`kids, table
      ensures Valid() && Here() == old(Here())
      ensures var target := Target(old(Here()), path);
              if target.None? || target.value == [] then !ok && Nodes() == old(Nodes())
              else (Dirs(), ok) == Grown(old(Dirs()), old(Left()), target.value, 0, create)
      ensures !ok && !create ==> Nodes() == old(Nodes()) && kids == old(kids)
    {
      assert count <= table.Length;
      hide *;
      var absolute;
      ok, absolute := TargetOf(path);
      if !ok {
        return;
      }
      ghost var t := Target(Here(), path).value;
      IsRoot(t);
      if absolute == "/" {
        return false;
      }
      ghost var outcome := Grown(Dirs(), Left(), t, 0, create);
      Begins(t, create, outcome);
      ScanStart(absolute, t);
      ok := MakeNames(absolute, create, t, outcome);
    }

    lemma StillMaking(t: seq<string>, k: nat, cur: nat, create: bool, outcome: (PathSet, bool))
      requires Making(t, k, cur, create, outcome)
      ensures Valid() && count <= table.Length && k <= |t|
    {
    }

    /** Adds exactly the path it is given; refused, it changes nothing. */
    method Mkdir(path: CString) returns (ok: bool)
      requires Valid()
      modifies this`count, this`kids, table
      ensures Valid() && Here() == old(Here())
      ensures var target := Target(old(Here()), path);
              && ok == (target.Some? && CanMake(old(Dirs()), old(Left()), target.value))
              && (ok ==> Dirs() == old(Dirs()) + {target.value} && Left() == old(Left()) - 1)
      ensures !ok ==> Nodes() == old(Nodes()) && kids == old(kids)
    {
      ghost var target, paths, left := Target(Here(), path), Dirs(), Left();
      RootThere(Nodes(), kids);
      if target.Some? && target.value != [] {
        MkdirMakesOne(paths, left, target.value);
      }
      hide IsTree, PathOf, Paths, Grown, Target, PrefixClosed, ShortNames;
      ok := MkdirInternal(path, false);
      DirsCount(Nodes(), kids);
      assert ok ==> target.Some? && target.value != [];
    }

    /** Adds exactly the missing prefixes of the path; when it fails, those before the first that
        cannot be made. */
    method MkdirP(path: CString) returns (ok: bool)
      requires Valid()
      modifies this`count, this`kids, table
      ensures Valid() && Here() == old(Here())
      ensures var target, paths := Target(old(Here()), path), old(Dirs());
              && ok == (target.Some? && target.value != [] && AllShort(target.value)
                        && |Prefixes(target.value, 0, |target.value|) - paths| <= old(Left()))
              && (ok ==> Dirs() == paths + Prefixes(target.value, 0, |target.value|))
              && (!ok && (target.None? || target.value == []) ==> Dirs() == paths)
              && (!ok && target.Some? && target.value != [] ==>
                  && (exists j :: StopsAt(paths, old(Left()), target.value, 0, j, Dirs()))
                  && (Dirs() == paths <==> exists n :: BlockedAt(paths, old(Left()), target.value, n)))
    {
      ghost var target, paths, left := Target(Here(), path), Dirs(), Left();
      ghost var j := 0;
      if target.Some? && target.value != [] {
        MkdirPMakesAll(paths, left, target.value, 0);
        assert target.value[0..] == target.value;
        if !Grown(paths, left, target.value, 0, true).1 {
          j := MkdirPStopsAt(paths, left, target.value, 0);
          RootThere(Nodes(), kids);
          FailedMkdirPKeepsIff(paths, left, target.value);
        }
      }
      hide IsTree, PathOf, Paths, Grown, Target, Prefixes, AllShort, StopsAt, BlockedAt;
      ok := MkdirInternal(path, true);
    }

    lemma Begins(t: seq<string>, create: bool, outcome: (PathSet, bool))
      requires Valid() && outcome == Grown(Dirs(), Left(), t, 0, create)
      ensures Making(t, 0, 0, create, outcome)
    {
      assert PathOf(Nodes(), 0) == [] == t[..0];
    }

    lemma Ends(t: seq<string>, cur: nat, create: bool, outcome: (PathSet, bool))
      requires Making(t, |t|, cur, create, outcome)
      ensures Valid() && outcome == (Dirs(), true)
    {
    }

    /** Find the directory a path leads to. */
    method Walk(path: CString) returns (ok: bool, index: nat)
      requires Valid()
      ensures ok == (Target(Here(), path).Some? && Target(Here(), path).value in Dirs())
      ensures ok ==> index < count && PathOf(Nodes(), index) == Target(Here(), path).value
    {
      ghost var nodes := Nodes();
      index := 0;
      var absolute;
      ok, absolute := TargetOf(path);
      if !ok {
        return;
      }
      ghost var target := Target(Here(), path).value;
      LookupInPaths(nodes, kids, target);
      LookupPrint(nodes, kids, target);
      var found := LookupAbsolute(absolute);
      if found < 0 {
        return false, 0;
      }
      LookupIff(nodes, kids, target, found);
      return true, found;
    }

    /** Change to a directory that exists; the new path is the old one resolved against the argument. */
    method Cd(path: CString) returns (ok: bool)
      requires Valid()
      modifies this`cwd
      ensures Valid() && Nodes() == old(Nodes()) && kids == old(kids)
      ensures ok == (Target(old(Here()), path).Some? && Target(old(Here()), path).value in Dirs())
      ensures ok ==> Here() == Target(old(Here()), path).value
      ensures ok ==> Resolve(old(Print(Here(), true)), path, PATH_MAX) == Some(Print(Here(), true))
      ensures !ok ==> Here() == old(Here())
    {
      PathIsPlace(Nodes(), kids, cwd);
      PathNames(Nodes(), kids, cwd);
      TargetIs(Here(), path);
      hide IsTree, PathOf, Print, Resolve, Target, Paths;
      var index;
      ok, index := Walk(path);
      if ok {
        cwd := index;
      }
    }

    /** With a full-size buffer the current path can always be printed. */
    method Pwd(out: array<char>, size: nat) returns (ok: bool)
      requires Valid() && size <= out.Length && out as object != table
      modifies out
      ensures Valid() && Nodes() == old(Nodes())
      ensures ok == (|Print(Here(), true)| < size)
      ensures size >= PATH_MAX ==> ok
      ensures ok ==> HoldsText(out[..], Print(Here(), true))
    {
      ghost var nodes := Nodes();
      PathIsPlace(nodes, kids, cwd);
      hide IsTree, PathOf, Print;
      if size == 0 {
        return false;
      }
      ok := PathFromIndex(cwd, out, size);
    }

    /** Copy the names of a list as far as there is room, and count them all. */
    method ListChildren(index: nat, entries: array?<string>, max: nat) returns (overflow: bool, total: nat)
      requires Valid() && index < count && (entries != null ==> max <= entries.Length) && entries as object? != table
      modifies entries
      ensures Valid() && Nodes() == old(Nodes())
      ensures Listed(NamesOf(Nodes(), kids[index]), entries, max, total)
      ensures overflow == (entries != null && total > max) && total == |kids[index]|
    {
      hide IsTree, Linked, Rooted, Sorted, Fitting, Listed;
      ghost var nodes := Nodes();
      TreeLists(nodes, kids, index);
      ghost var list := kids[index];
      ghost var names := NamesOf(nodes, list);
      assert Listed(names, entries, max, 0) by { ListedNone(names, entries, max); }
      total := 0;
      var cur := table[index].firstChild;
      overflow := false;
      while cur >= 0
        invariant 0 <= total <= |list| && Nodes() == nodes
        invariant cur == if total < |list| then list[total] else -1
        invariant overflow == (entries != null && total > max)
        invariant Listed(names, entries, max, total)
        decreases |list| - total
      {
        assert NextOk(nodes, list, total) && table[cur] == nodes[cur];
        CopyEntry(names, entries, max, total, table[cur].name);
        if entries != null && total >= max {
          overflow := true;
        }
        assert Nodes() == nodes;
        total := total + 1;
        cur := table[cur].nextSibling;
      }
    }

    /** List a directory: all its names in ascending order, as far as there is room for them; the
        count is complete in any case. */
    method Readdir(path: CString, entries: array?<string>, max: nat) returns (ok: bool, total: nat)
      requires Valid() && (entries != null ==> max <= entries.Length) && entries as object? != table
      modifies entries
      ensures Valid() && Nodes() == old(Nodes())
      ensures Target(Here(), path).None? || Target(Here(), path).value !in Dirs() ==> !ok && total == 0
      ensures Target(Here(), path).Some? && Target(Here(), path).value in Dirs() ==>
                exists names :: Lists(names, Target(Here(), path).value, Dirs())
                                && total == |names|
                                && (entries != null ==>
                                    forall j :: 0 <= j < |names| && j < max ==> entries[j] == names[j])
                                && ok == (entries == null || total <= max)
    {
      ghost var nodes := Nodes();
      total := 0;
      var index;
      ok, index := Walk(path);
      if !ok {
        return;
      }
      ListsChildren(nodes, kids, index);
      TreeLists(nodes, kids, index);
      ghost var names := NamesOf(nodes, kids[index]);
      assert Lists(names, Target(Here(), path).value, Dirs());
      hide IsTree, PathOf, Paths, Target, Lists, Listed, NamesOf;
      var overflow;
      overflow, total := ListChildren(index, entries, max);
      ListedOut(names, entries, max, total);
      ok := !overflow;
    }
  }

  /** The names that extend a path to a directory, strictly ascending. */
  ghost predicate Lists(names: seq<string>, path: seq<string>, dirs: PathSet) {
    && (forall n :: n in names <==> path + [n] in dirs)
    && (forall i, j :: 0 <= i < j < |names| ==> Less(names[i], names[j]))
  }

  /** As many of the first names as were counted and as fit are in the array. */
  ghost predicate Listed(names: seq<string>, entries: array?<string>, max: nat, total: nat)
    requires entries != null ==> max <= entries.Length
    reads entries
  {
    total <= |names| && (entries != null ==> forall j :: 0 <= j < total && j < max ==> entries[j] == names[j])
  }

  lemma ListedOut(names: seq<string>, entries: array?<string>, max: nat, total: nat)
    requires entries != null ==> max <= entries.Length
    requires Listed(names, entries, max, total) && total == |names|
    ensures entries != null ==> forall j :: 0 <= j < |names| && j < max ==> entries[j] == names[j]
  {
  }

  lemma ListedNone(names: seq<string>, entries: array?<string>, max: nat)
    requires entries != null ==> max <= entries.Length
    ensures Listed(names, entries, max, 0)
  {
  }

  method CopyEntry(ghost names: seq<string>, entries: array?<string>, max: nat, total: nat, name: string)
    requires entries != null ==> max <= entries.Length
    requires Listed(names, entries, max, total) && total < |names| && name == names[total]
    modifies entries
    ensures Listed(names, entries, max, total + 1)
  {
    if entries != null && total < max {
      entries[total] := name;
    }
  }

  /** Where a path leads from a directory. */
  ghost function Target(here: seq<string>, path: string): Option<seq<string>> {
    if Resolve(Print(here, true), path, PATH_MAX).None? then None
    else Some(GoAll(if IsAbsolute(path) then [] else here, Components(path), true))
  }

  lemma TargetIs(here: seq<string>, path: CString)
    requires IsPlace(here)
    requires forall i :: 0 <= i < |here| ==> IsDirName(here[i])
    ensures Target(here, path).Some? == Resolve(Print(here, true), path, PATH_MAX).Some?
    ensures Target(here, path).Some? ==>
              var t := Target(here, path).value;
              && Resolve(Print(here, true), path, PATH_MAX) == Some(Print(t, true)) && IsPlace(t)
              && NoNuls(t) && NoNul(Print(t, true))
  {
    ResolveWalks(here, path, PATH_MAX);
    if Target(here, path).Some? {
      ResolvedIsPlace(here, path, PATH_MAX);
      var from := if IsAbsolute(path) then [] else here;
      ComponentsNoNul(path);
      GoAllNoNul(from, Components(path), true);
      JoinedNoNul(GoAll(from, Components(path), true));
    }
    hide Resolve, GoAll, Components;
  }

  /** A path that is not the root starts its scan right. */
  lemma IsRoot(t: seq<string>)
    requires IsPlace(t)
    ensures AreNames(t) && (Print(t, true) == "/" <==> t == []) && 1 <= |Print(t, true)|
  {
    RootOnly(t);
  }

  lemma PlacePrefix(t: seq<string>, k: nat)
    requires IsPlace(t) && k < |t|
    ensures t[..k + 1] == t[..k] + [t[k]] && |Print(t[..k + 1], true)| < PATH_MAX
    ensures NoNul(t[k]) && |t[k]| <= NAME_MAX ==> IsDirName(t[k])
  {
    JoinedPrefix(t, k + 1);
  }

  lemma ChildOnPath(nodes: seq<Node>, kids: seq<seq<nat>>, p: nat, t: seq<string>, k: nat)
    requires IsTree(nodes, kids) && p < |nodes| && k < |t| && PathOf(nodes, p) == t[..k]
    ensures ChildOf(nodes, kids, p, t[k]).Some? <==> t[..k + 1] in Paths(nodes)
    ensures ChildOf(nodes, kids, p, t[k]).Some? ==> PathOf(nodes, ChildOf(nodes, kids, p, t[k]).value) == t[..k + 1]
  {
    ChildInPaths(nodes, kids, p, t[k]);
    assert t[..k + 1] == t[..k] + [t[k]];
  }

  lemma RootThere(nodes: seq<Node>, kids: seq<seq<nat>>)
    requires IsTree(nodes, kids)
    ensures PrefixClosed(Paths(nodes)) && ShortNames(Paths(nodes)) && [] in Paths(nodes) && |Paths(nodes)| == |nodes|
  {
    TreePaths(nodes, kids);
    DirsCount(nodes, kids);
  }

  /** There are as many paths as nodes. */
  lemma DirsCount(nodes: seq<Node>, kids: seq<seq<nat>>)
    requires IsTree(nodes, kids)
    ensures |Paths(nodes)| == |nodes|
  {
    forall i, j | 0 <= i < |nodes| && 0 <= j < |nodes| && PathOf(nodes, i) == PathOf(nodes, j)
      ensures i == j
    {
      PathsDiffer(nodes, kids, i, j);
    }
    CountPaths(nodes, |nodes|);
    assert Paths(nodes) == FirstPaths(nodes, |nodes|);
  }

  ghost function FirstPaths(nodes: seq<Node>, n: nat): PathSet
    requires n <= |nodes|
  {
    set i: int | 0 <= i < n :: PathOf(nodes, i)
  }

  lemma {:induction false} CountPaths(nodes: seq<Node>, n: nat)
    requires n <= |nodes|
    requires forall i, j :: 0 <= i < |nodes| && 0 <= j < |nodes| && PathOf(nodes, i) == PathOf(nodes, j) ==> i == j
    ensures |FirstPaths(nodes, n)| == n
  {
    hide PathOf;
    if n > 0 {
      CountPaths(nodes, n - 1);
      var before, last := FirstPaths(nodes, n - 1), PathOf(nodes, n - 1);
      forall s | s in before + {last}
        ensures s in FirstPaths(nodes, n)
      {
        if s in before {
          var i: int :| 0 <= i < n - 1 && PathOf(nodes, i) == s;
          assert PathOf(nodes, i) in FirstPaths(nodes, n);
        }
      }
      assert FirstPaths(nodes, n) == before + {last};
      assert last !in before;
    }
  }

  lemma GrownStep(paths: PathSet, room: nat, t: seq<string>, k: nat, create: bool)
    requires k < |t|
    ensures Grown(paths, room, t, k, create) ==
            if |t[k]| > NAME_MAX then (paths, false)
            else if t[..k + 1] in paths then
              if k + 1 == |t| && !create then (paths, false) else Grown(paths, room, t, k + 1, create)
            else if (k + 1 < |t| && !create) || room == 0 then (paths, false)
            else Grown(paths + {t[..k + 1]}, room - 1, t, k + 1, create)
  {
  }

  lemma NoRoom(cwd: string, path: string)
    ensures Resolve(cwd, path, 0) == None
  {
  }

  lemma PathNoNul(nodes: seq<Node>, kids: seq<seq<nat>>, i: nat)
    requires Rooted(nodes, kids) && i < |nodes|
    ensures NoNul(Print(PathOf(nodes, i), true))
  {
    PathNames(nodes, kids, i);
    JoinedNoNul(PathOf(nodes, i));
  }

  lemma JoinedCons(name: string, rest: seq<string>)
    requires rest != []
    ensures Joined([name] + rest) == name + ("/" + Joined(rest))
  {
    var names := [name] + rest;
    assert names[1..] == rest && |names| > 1;
    assert Joined(names) == name + "/" + Joined(rest);
    hide Joined;
    assert name + "/" + Joined(rest) == name + ("/" + Joined(rest));
  }

  lemma JoinedTail(names: seq<string>)
    requires AreNames(names) && names != []
    ensures Joined(names) == names[0] + if |names| == 1 then "" else "/" + Joined(names[1..])
    ensures IsName(names[0]) && (|names| == 1 ==> Joined(names[1..]) == "")
  {
    if |names| == 1 {
      assert names[0] + "" == names[0];
    } else {
      assert names == [names[0]] + names[1..];
      JoinedCons(names[0], names[1..]);
    }
  }

  /** The first name of a joined path, and the rest after a slash. */
  lemma JoinedSplits(names: seq<string>)
    requires AreNames(names) && Joined(names) != ""
    ensures names != [] && FirstName(Joined(names)) == names[0] && StartsName(Joined(names))
    ensures AfterName(Joined(names)) == if |names| == 1 then "" else "/" + Joined(names[1..])
    ensures |names| == 1 ==> Joined(names[1..]) == ""
  {
    assert names != [];
    hide Joined, FirstName, AfterName;
    JoinedTail(names);
    if |names| == 1 {
      FirstNameOf(names[0], "");
    } else {
      FirstNameOf(names[0], "/" + Joined(names[1..]));
    }
  }

  /** Where a scan of a path stands: at the first of the remaining names. */
  ghost predicate Scanned(text: string, i: nat, names: seq<string>, k: nat) {
    i <= |text| && k <= |names| && AreNames(names) && text[i..] == Joined(names[k..])
  }

  /** The next name, up to `end`, and the place after the slash that may follow. */
  lemma ScanStep(text: string, i: nat, names: seq<string>, k: nat)
    requires Scanned(text, i, names, k) && i < |text|
    ensures k < |names| && text[i] != '/' && FirstName(text[i..]) == names[k] && IsName(names[k])
    ensures forall end: nat :: i <= end <= |text| && text[end..] == AfterName(text[i..]) ==>
              && (end == |text| <==> k + 1 == |names|) && (end < |text| ==> text[end] == '/')
              && Scanned(text, if end < |text| then end + 1 else end, names, k + 1)
  {
    var rest := names[k..];
    JoinedSplits(rest);
    assert rest[1..] == names[k + 1..] && rest[0] == names[k] && IsName(names[k]);
    hide Joined, FirstName, AfterName;
    forall end: nat | i <= end <= |text| && text[end..] == AfterName(text[i..])
      ensures (end == |text| <==> k + 1 == |names|) && (end < |text| ==> text[end] == '/')
      ensures Scanned(text, if end < |text| then end + 1 else end, names, k + 1)
    {
      if end < |text| {
        assert text[end..][1..] == text[end + 1..];
      }
    }
  }

  /** Read a name, and skip the slash that follows unless it is the last. */
  method NextName(text: CString, i: nat, ghost names: seq<string>, ghost k: nat)
    returns (name: CString, last: bool, next: nat)
    requires Scanned(text, i, names, k) && i < |text|
    ensures k < |names| && name == names[k] && IsName(name) && last == (k + 1 == |names|)
    ensures next <= |text| && Scanned(text, next, names, k + 1) && (next == |text| <== last)
  {
    hide Scanned, FirstName, AfterName;
    ScanStep(text, i, names, k);
    next := NameEnd(text, i);
    name := text[i..next];
    last := next == |text|;
    if next < |text| && text[next] == '/' {
      next := next + 1;
    }
  }

  lemma ScanStart(text: string, names: seq<string>)
    requires AreNames(names) && text == Print(names, true)
    ensures Scanned(text, 1, names, 0)
  {
    assert text[1..] == Joined(names) && names[0..] == names;
  }

  lemma ScanEnd(text: string, names: seq<string>, k: nat)
    requires Scanned(text, |text|, names, k)
    ensures k == |names|
  {
    JoinedEmpty(names[k..]);
  }

  lemma JoinedEmpty(names: seq<string>)
    requires AreNames(names) && Joined(names) == ""
    ensures names == []
  {
    assert names != [] ==> IsName(names[0]);
  }

  // ----- looking up a text

  /** The names of a text with single slashes between them; one more may follow. */
  ghost function Pieces(text: string): Option<seq<string>>
    decreases |text|
  {
    if text == "" then Some([])
    else if text[0] == '/' then None
    else
      var rest := AfterName(text);
      match Pieces(if rest == "" then "" else rest[1..])
      case None => None
      case Some(names) => Some([FirstName(text)] + names)
  }

  ghost function LookupFrom(nodes: seq<Node>, kids: seq<seq<nat>>, from: nat, text: string): (r: Option<nat>)
    requires Rooted(nodes, kids) && from < |nodes|
    ensures r.Some? ==> r.value < |nodes|
  {
    match Pieces(text)
    case None => None
    case Some(names) => Lookup(nodes, kids, from, names)
  }

  /** The node an absolute text leads to, if it is one and the node is there. */
  ghost function LookupText(nodes: seq<Node>, kids: seq<seq<nat>>, text: string): Option<nat>
    requires Rooted(nodes, kids)
  {
    if IsAbsolute(text) then LookupFrom(nodes, kids, 0, text[1..]) else None
  }

  lemma LookupStep(nodes: seq<Node>, kids: seq<seq<nat>>, from: nat, text: string)
    requires Rooted(nodes, kids) && from < |nodes| && text != ""
    ensures text[0] == '/' ==> LookupFrom(nodes, kids, from, text) == None
    ensures text[0] != '/' ==>
              var rest := AfterName(text);
              && (rest != "" ==> rest[0] == '/')
              && LookupFrom(nodes, kids, from, text) ==
                 match ChildOf(nodes, kids, from, FirstName(text))
                 case None => None
                 case Some(c) => LookupFrom(nodes, kids, c, if rest == "" then "" else rest[1..])
    ensures |FirstName(text)| > NAME_MAX ==> ChildOf(nodes, kids, from, FirstName(text)) == None
  {
  }

  lemma LookupDone(nodes: seq<Node>, kids: seq<seq<nat>>, from: nat)
    requires Rooted(nodes, kids) && from < |nodes|
    ensures LookupFrom(nodes, kids, from, "") == Some(from)
  {
  }

  lemma {:induction false} PiecesOfJoined(names: seq<string>)
    requires AreNames(names)
    ensures Pieces(Joined(names)) == Some(names)
  {
    if names == [] {
      assert Joined(names) == "";
    } else {
      JoinedTail(names);
      assert names == [names[0]] + names[1..];
      hide Joined, Pieces;
      if |names| > 1 {
        PiecesThen(names[0], Joined(names[1..]));
        PiecesOfJoined(names[1..]);
      } else {
        PieceAlone(names[0]);
        assert names[0] + "" == names[0] && names == [names[0]];
      }
    }
  }

  lemma PieceAlone(n: string)
    requires IsName(n)
    ensures Pieces(n) == Some([n])
  {
    FirstNameOf(n, "");
    assert n + "" == n && Pieces("") == Some([]) && [n] + [] == [n];
    hide FirstName, AfterName;
  }

  lemma PiecesThen(n: string, rest: string)
    requires IsName(n)
    ensures Pieces(n + ("/" + rest)) == match Pieces(rest) case None => None case Some(names) => Some([n] + names)
  {
    FirstNameOf(n, "/" + rest);
    assert ("/" + rest)[1..] == rest && (n + ("/" + rest))[0] == n[0];
    hide FirstName, AfterName;
  }

  /** The printed form of names leads where the names lead. */
  lemma LookupPrint(nodes: seq<Node>, kids: seq<seq<nat>>, names: seq<string>)
    requires Rooted(nodes, kids) && AreNames(names)
    ensures LookupText(nodes, kids, Print(names, true)) == Lookup(nodes, kids, 0, names)
  {
    PiecesOfJoined(names);
    assert ("/" + Joined(names))[1..] == Joined(names);
  }

  /** A stack of nodes spells a path from its end. */
  ghost predicate Climb(nodes: seq<Node>, stack: seq<nat>, depth: nat, path: seq<string>) {
    && depth <= |stack| && depth <= |path|
    && forall k :: 0 <= k < depth ==> stack[k] < |nodes| && nodes[stack[k]].name == path[|path| - 1 - k]
  }

  lemma ClimbStep(nodes: seq<Node>, stack: seq<nat>, depth: nat, path: seq<string>, cur: nat)
    requires Climb(nodes, stack, depth, path) && depth < |stack| && depth < |path|
    requires cur < |nodes| && nodes[cur].name == path[|path| - 1 - depth]
    ensures Climb(nodes, stack[depth := cur], depth + 1, path)
  {
  }

  lemma ClimbAt(nodes: seq<Node>, stack: seq<nat>, depth: nat, path: seq<string>, k: nat)
    requires Climb(nodes, stack, depth, path) && k < depth == |path| && AreNames(path)
    ensures k < |stack| && stack[k] < |nodes| && nodes[stack[k]].name == path[depth - 1 - k]
            && IsName(path[depth - 1 - k])
  {
  }

  /** What is printed after some names: with a slash when another follows. */
  ghost function Emitted(path: seq<string>, n: nat): string
    requires n <= |path|
  {
    Printed(path, n, true) + if 0 < n < |path| then "/" else ""
  }

  lemma EmittedFirst(path: seq<string>)
    ensures Emitted(path, 0) == "/"
  {
    assert path[..0] == [];
    assert Printed(path, 0, true) == "/" + "";
  }

  lemma EmittedNext(path: seq<string>, n: nat)
    requires n < |path| && AreNames(path)
    ensures Emitted(path, n + 1) == Emitted(path, n) + path[n] + if n + 1 < |path| then "/" else ""
    ensures |Emitted(path, n + 1)| <= |Print(path, true)|
  {
    PrintedNext(path, n, true);
    var so := Printed(path, n, true);
    if n + 1 < |path| {
      PrintedNext(path, n + 1, true);
      assert IsName(path[n + 1]);
    }
    hide Print, Printed;
    assert so + "" == so;
  }

  lemma EmittedAll(path: seq<string>)
    requires path != []
    ensures Emitted(path, |path|) == Print(path, true)
  {
    AllPrinted(path, true);
    hide Print, Printed;
    assert Print(path, true) + "" == Print(path, true);
  }

  /** A name, and a slash when another follows. */
  method EmitThen(out: array<char>, size: nat, at: nat, name: string, more: bool, ghost text: string)
    returns (ok: bool, next: nat)
    requires size <= out.Length && at == |text| < size && out[..at] == text && IsName(name)
    modifies out
    ensures var longer := text + name + if more then "/" else "";
            && ok == (|longer| < size)
            && (ok ==> next == |longer| && out[..next] == longer)
  {
    next := at;
    if next + |name| + 1 > size {
      return false, next;
    }
    CopyInto(out, next, name);
    assert out[..next + |name|] == out[..next] + out[next..next + |name|];
    next := next + |name|;
    assert out[..next] == text + name == text + name + "";
    if more {
      if next + 2 > size {
        return false, next;
      }
      out[next] := '/';
      next := next + 1;
    }
    return true, next;
  }

  /** A path is the parent's path and the name. */
  lemma PathStep(nodes: seq<Node>, kids: seq<seq<nat>>, i: nat)
    requires IsTree(nodes, kids) && i < |nodes|
    ensures |PathOf(nodes, i)| <= i
    ensures i == 0 ==> PathOf(nodes, i) == []
    ensures i > 0 ==> 0 <= nodes[i].parent < i && PathOf(nodes, i) == PathOf(nodes, nodes[i].parent) + [nodes[i].name]
  {
    PathShort(nodes, i);
  }

  lemma {:induction false} PathShort(nodes: seq<Node>, i: nat)
    requires i < |nodes|
    ensures |PathOf(nodes, i)| <= i
    decreases i
  {
    if i > 0 && 0 <= nodes[i].parent < i {
      PathShort(nodes, nodes[i].parent);
    }
  }

  lemma BelongsWithin(nodes: seq<Node>, list: seq<nat>, name: string, at: nat)
    requires Belongs(nodes, list, name, at)
    ensures at <= |list|
  {
  }

  ghost predicate AllBefore(nodes: seq<Node>, list: seq<nat>, name: string, at: nat)
    requires at <= |list| && forall j :: 0 <= j < |list| ==> list[j] < |nodes|
  {
    forall k :: 0 <= k < at ==> Less(nodes[list[k]].name, name)
  }

  lemma BeforeStep(nodes: seq<Node>, list: seq<nat>, name: string, at: nat)
    requires at <= |list| && forall j :: 0 <= j < |list| ==> list[j] < |nodes|
    ensures AllBefore(nodes, list, name, 0)
    ensures at < |list| && AllBefore(nodes, list, name, at) && Less(nodes[list[at]].name, name) ==>
              AllBefore(nodes, list, name, at + 1)
  {
  }

  lemma PlaceFound(nodes: seq<Node>, list: seq<nat>, name: string, at: nat)
    requires at <= |list| && forall j :: 0 <= j < |list| ==> list[j] < |nodes|
    requires forall i, j :: 0 <= i < j < |list| ==> Less(nodes[list[i]].name, nodes[list[j]].name)
    requires AllBefore(nodes, list, name, at)
    requires at < |list| ==> !Less(nodes[list[at]].name, name)
    requires ChildNamed(nodes, list, name) == None
    ensures Belongs(nodes, list, name, at)
  {
    if at < |list| {
      LessTotal(nodes[list[at]].name, name);
      forall j | at < j < |list|
        ensures Less(name, nodes[list[j]].name)
      {
        LessTransitive(name, nodes[list[at]].name, nodes[list[j]].name);
      }
    }
    hide Less, ChildNamed;
  }

  /** The link that a new node takes over. */
  lemma LinkOf(nodes: seq<Node>, kids: seq<seq<nat>>, p: nat, name: string, at: nat)
    requires IsTree(nodes, kids) && p < |nodes| && Belongs(nodes, kids[p], name, at)
    ensures var list := kids[p];
            && (forall j :: 0 <= j < |list| ==> list[j] < |nodes|) && at <= |list|
            && (if at == 0 then nodes[p].firstChild else nodes[list[at - 1]].nextSibling)
               == (if at < |list| then list[at] else -1)
  {
    TreeLists(nodes, kids, p);
    if at > 0 {
      assert NextOk(nodes, kids[p], at - 1);
    }
  }

  /** What a tree says about the list of one node. */
  lemma TreeLists(nodes: seq<Node>, kids: seq<seq<nat>>, p: nat)
    requires IsTree(nodes, kids) && p < |nodes|
    ensures |kids| == |nodes|
    ensures nodes[p].firstChild == if kids[p] == [] then -1 else kids[p][0]
    ensures forall j :: 0 <= j < |kids[p]| ==> NextOk(nodes, kids[p], j)
    ensures forall j :: 0 <= j < |kids[p]| ==> 0 < kids[p][j] < |nodes| && NoNul(nodes[kids[p][j]].name)
    ensures forall i, j :: 0 <= i < j < |kids[p]| ==> Less(nodes[kids[p][i]].name, nodes[kids[p][j]].name)
  {
    assert FirstOk(nodes, kids, p);
  }
}
