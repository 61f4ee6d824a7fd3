/** A tree of named directories in one table: first-child and next-sibling links. */
module DirForest {
  import opened Words
  import opened PathAlgebra

  const NAME_MAX: nat := 31

  datatype Node = Node(name: string, parent: int, firstChild: int, nextSibling: int, used: bool)

  // ----- the order of names

  /** Byte by byte, a shorter name before its extensions. */
  predicate Less(a: string, b: string) {
    b != "" && (a == "" || a[0] < b[0] || (a[0] == b[0] && Less(a[1..], b[1..])))
  }

  /** The texts agree up to a place, where the first ends or has the smaller character. */
  predicate DiffersAt(a: string, b: string, k: int) {
    0 <= k <= |a| && k < |b| && a[..k] == b[..k] && (k == |a| || a[k] < b[k])
  }

  /** The first text comes before the second in a dictionary by character codes. */
  ghost predicate Before(a: string, b: string) {
    exists k :: 0 <= k <= |a| && k < |b| && a[..k] == b[..k] && (k == |a| || a[k] < b[k])
  }

  /** The order is decided at the first place where two names differ. */
  lemma LessMeans(a: string, b: string)
    ensures Less(a, b) <==> Before(a, b)
  {
    if Less(a, b) {
      var k := LessDiffers(a, b);
    } else if k :| 0 <= k <= |a| && k < |b| && a[..k] == b[..k] && (k == |a| || a[k] < b[k]) {
      DiffersLess(a, b, k);
    }
  }

  lemma {:induction false} LessDiffers(a: string, b: string) returns (k: nat)
    requires Less(a, b)
    ensures DiffersAt(a, b, k)
  {
    k := 0;
    if a != "" && a[0] == b[0] {
      var j := LessDiffers(a[1..], b[1..]);
      k := j + 1;
      assert a[..k] == [a[0]] + a[1..][..j] && b[..k] == [b[0]] + b[1..][..j];
    }
  }

  lemma {:induction false} DiffersLess(a: string, b: string, k: nat)
    requires DiffersAt(a, b, k)
    ensures Less(a, b)
  {
    if k > 0 {
      assert a[..k][0] == b[..k][0];
      assert a[1..][..k - 1] == a[..k][1..] && b[1..][..k - 1] == b[..k][1..];
      DiffersLess(a[1..], b[1..], k - 1);
    }
  }

  lemma {:induction false} LessIrreflexive(a: string)
    ensures !Less(a, a)
  {
    if a != "" {
      LessIrreflexive(a[1..]);
    }
  }

  lemma {:induction false} LessTransitive(a: string, b: string, c: string)
    requires Less(a, b) && Less(b, c)
    ensures Less(a, c)
  {
    if a != "" && a[0] == b[0] == c[0] {
      LessTransitive(a[1..], b[1..], c[1..]);
    }
  }

  lemma {:induction false} LessTotal(a: string, b: string)
    ensures Less(a, b) || Less(b, a) || a == b
  {
    if a != "" && b != "" && a[0] == b[0] {
      LessTotal(a[1..], b[1..]);
      assert a == [a[0]] + a[1..] && b == [b[0]] + b[1..];
    }
  }

  // ----- the tree in the table

  predicate IsDirName(n: string) {
    IsName(n) && NoNul(n) && |n| <= NAME_MAX && n != "." && n != ".."
  }

  /** The link at a place of a list leads to the next place, or ends the list. */
  ghost predicate NextOk(nodes: seq<Node>, list: seq<nat>, j: nat) {
    && j < |list| && list[j] < |nodes|
    && nodes[list[j]].nextSibling == if j + 1 < |list| then list[j + 1] else -1
  }

  ghost predicate FirstOk(nodes: seq<Node>, kids: seq<seq<nat>>, p: nat) {
    p < |kids| == |nodes| && nodes[p].firstChild == if kids[p] == [] then -1 else kids[p][0]
  }

  /** The links spell out the lists of children. */
  ghost predicate Linked(nodes: seq<Node>, kids: seq<seq<nat>>) {
    && |kids| == |nodes|
    && (forall p :: 0 <= p < |kids| ==> FirstOk(nodes, kids, p))
    && (forall p, j :: 0 <= p < |kids| && 0 <= j < |kids[p]| ==> NextOk(nodes, kids[p], j))
  }

  /** Every node but the root is in the list of its parent, which comes before it, and in no other. */
  ghost predicate Rooted(nodes: seq<Node>, kids: seq<seq<nat>>) {
    && |kids| == |nodes| > 0 && nodes[0].name == "" && nodes[0].parent == -1
    && (forall i :: 0 <= i < |nodes| ==> nodes[i].used)
    && (forall i :: 0 < i < |nodes| ==> 0 <= nodes[i].parent < i && IsDirName(nodes[i].name))
    && (forall i :: 0 < i < |nodes| ==> i in kids[nodes[i].parent])
    && (forall p, j :: 0 <= p < |kids| && 0 <= j < |kids[p]| ==>
          0 < kids[p][j] < |nodes| && nodes[kids[p][j]].parent == p)
  }

  /** Each list is strictly sorted by name. */
  ghost predicate Sorted(nodes: seq<Node>, kids: seq<seq<nat>>) {
    && |kids| == |nodes|
    && (forall p, j :: 0 <= p < |kids| && 0 <= j < |kids[p]| ==> kids[p][j] < |nodes|)
    && (forall p, i, j :: 0 <= p < |kids| && 0 <= i < j < |kids[p]| ==>
        Less(nodes[kids[p][i]].name, nodes[kids[p][j]].name))
  }

  /** The names from the root to a node. */
  ghost function PathOf(nodes: seq<Node>, i: nat): seq<string>
    requires i < |nodes|
    decreases i
  {
    if i == 0 || !(0 <= nodes[i].parent < i) then [] else PathOf(nodes, nodes[i].parent) + [nodes[i].name]
  }

  /** Every path fits a path buffer. */
  ghost predicate Fitting(nodes: seq<Node>) {
    forall i :: 0 <= i < |nodes| ==> |Print(PathOf(nodes, i), true)| < PATH_MAX
  }

  ghost predicate IsTree(nodes: seq<Node>, kids: seq<seq<nat>>) {
    Linked(nodes, kids) && Rooted(nodes, kids) && Sorted(nodes, kids) && Fitting(nodes)
  }

  ghost function Paths(nodes: seq<Node>): set<seq<string>> {
    set i: int | 0 <= i < |nodes| :: PathOf(nodes, i)
  }

  // ----- paths name nodes

  lemma {:induction false} PathNames(nodes: seq<Node>, kids: seq<seq<nat>>, i: nat)
    requires Rooted(nodes, kids) && i < |nodes|
    ensures AreNames(PathOf(nodes, i)) && IsCanonical(PathOf(nodes, i), true)
    ensures forall k :: 0 <= k < |PathOf(nodes, i)| ==> IsDirName(PathOf(nodes, i)[k])
    decreases i
  {
    if i > 0 {
      PathNames(nodes, kids, nodes[i].parent);
    }
  }

  /** A node's path is a directory in normal form. */
  lemma PathIsPlace(nodes: seq<Node>, kids: seq<seq<nat>>, i: nat)
    requires IsTree(nodes, kids) && i < |nodes|
    ensures IsPlace(PathOf(nodes, i))
  {
    PathNames(nodes, kids, i);
  }

  /** The child with a name, along a list. */
  ghost function ChildNamed(nodes: seq<Node>, list: seq<nat>, name: string): (r: Option<nat>)
    requires forall j :: 0 <= j < |list| ==> list[j] < |nodes|
    ensures r.Some? ==> r.value in list && nodes[r.value].name == name
    ensures r.None? ==> forall j :: 0 <= j < |list| ==> nodes[list[j]].name != name
  {
    if list == [] then None
    else if nodes[list[0]].name == name then Some(list[0])
    else ChildNamed(nodes, list[1..], name)
  }

  ghost function ChildOf(nodes: seq<Node>, kids: seq<seq<nat>>, p: nat, name: string): (r: Option<nat>)
    requires Rooted(nodes, kids) && p < |nodes|
    ensures r.Some? ==> 0 < r.value < |nodes| && nodes[r.value].parent == p && nodes[r.value].name == name
  {
    ChildNamed(nodes, kids[p], name)
  }

  /** Following names from a node. */
  ghost function Lookup(nodes: seq<Node>, kids: seq<seq<nat>>, from: nat, names: seq<string>): (r: Option<nat>)
    requires Rooted(nodes, kids) && from < |nodes|
    ensures r.Some? ==> r.value < |nodes|
    decreases |names|
  {
    if names == [] then Some(from)
    else match ChildOf(nodes, kids, from, names[0])
      case None => None
      case Some(c) => Lookup(nodes, kids, c, names[1..])
  }

  lemma {:induction false} LookupMore(nodes: seq<Node>, kids: seq<seq<nat>>, from: nat, names: seq<string>,
                                      name: string)
    requires Rooted(nodes, kids) && from < |nodes|
    ensures Lookup(nodes, kids, from, names + [name]) ==
            match Lookup(nodes, kids, from, names) case None => None case Some(c) => ChildOf(nodes, kids, c, name)
    decreases |names|
  {
    var more := names + [name];
    if names == [] {
      assert more[1..] == [];
    } else {
      assert more[1..] == names[1..] + [name] && more[0] == names[0];
      match ChildOf(nodes, kids, from, names[0])
      case None =>
      case Some(c) => LookupMore(nodes, kids, c, names[1..], name);
    }
  }

  lemma ChildIsUnique(nodes: seq<Node>, kids: seq<seq<nat>>, i: nat)
    requires Rooted(nodes, kids) && Sorted(nodes, kids) && 0 < i < |nodes|
    ensures ChildOf(nodes, kids, nodes[i].parent, nodes[i].name) == Some(i)
  {
    var p := nodes[i].parent;
    var list := kids[p];
    var r := ChildNamed(nodes, list, nodes[i].name);
    var a :| 0 <= a < |list| && list[a] == i;
    assert r.Some?;
    var b :| 0 <= b < |list| && list[b] == r.value;
    NamesApart(nodes, kids, p, a, b);
  }

  /** Different places of a directory's list hold different names. */
  lemma NamesApart(nodes: seq<Node>, kids: seq<seq<nat>>, p: nat, a: nat, b: nat)
    requires Rooted(nodes, kids) && Sorted(nodes, kids) && p < |nodes| && a < |kids[p]| && b < |kids[p]|
    ensures nodes[kids[p][a]].name == nodes[kids[p][b]].name ==> a == b
  {
    LessIrreflexive(nodes[kids[p][a]].name);
    assert a < b ==> Less(nodes[kids[p][a]].name, nodes[kids[p][b]].name);
    assert b < a ==> Less(nodes[kids[p][b]].name, nodes[kids[p][a]].name);
  }

  /** Looking up a node's path finds the node. */
  lemma {:induction false} LookupFinds(nodes: seq<Node>, kids: seq<seq<nat>>, i: nat)
    requires Rooted(nodes, kids) && Sorted(nodes, kids) && i < |nodes|
    ensures Lookup(nodes, kids, 0, PathOf(nodes, i)) == Some(i)
    decreases i
  {
    if i > 0 {
      var p := nodes[i].parent;
      LookupFinds(nodes, kids, p);
      LookupMore(nodes, kids, 0, PathOf(nodes, p), nodes[i].name);
      ChildIsUnique(nodes, kids, i);
      hide Lookup, ChildOf;
    }
  }

  lemma {:induction false} FoundHasPath(nodes: seq<Node>, kids: seq<seq<nat>>, from: nat, names: seq<string>)
    requires Rooted(nodes, kids) && from < |nodes| && Lookup(nodes, kids, from, names).Some?
    ensures PathOf(nodes, Lookup(nodes, kids, from, names).value) == PathOf(nodes, from) + names
    decreases |names|
  {
    if names == [] {
      assert PathOf(nodes, from) + [] == PathOf(nodes, from);
    } else {
      var c := ChildOf(nodes, kids, from, names[0]).value;
      FoundHasPath(nodes, kids, c, names[1..]);
      assert PathOf(nodes, c) == PathOf(nodes, from) + [names[0]];
      assert PathOf(nodes, from) + [names[0]] + names[1..] == PathOf(nodes, from) + names;
    }
  }

  /** Printing a node's path and looking it up are inverse: a path leads to a node exactly when it is
      the node's path. */
  lemma LookupIff(nodes: seq<Node>, kids: seq<seq<nat>>, names: seq<string>, i: nat)
    requires Rooted(nodes, kids) && Sorted(nodes, kids) && i < |nodes|
    ensures Lookup(nodes, kids, 0, names) == Some(i) <==> PathOf(nodes, i) == names
  {
    LookupFinds(nodes, kids, i);
    if Lookup(nodes, kids, 0, names) == Some(i) {
      FoundHasPath(nodes, kids, 0, names);
      assert PathOf(nodes, 0) + names == names;
    }
    hide Lookup;
  }

  lemma LookupInPaths(nodes: seq<Node>, kids: seq<seq<nat>>, names: seq<string>)
    requires Rooted(nodes, kids) && Sorted(nodes, kids)
    ensures Lookup(nodes, kids, 0, names).Some? <==> names in Paths(nodes)
  {
    match Lookup(nodes, kids, 0, names)
    case Some(i) => LookupIff(nodes, kids, names, i);
    case None =>
      forall i | 0 <= i < |nodes| ensures PathOf(nodes, i) != names {
        LookupIff(nodes, kids, names, i);
      }
  }

  /** Different nodes have different paths. */
  lemma PathsDiffer(nodes: seq<Node>, kids: seq<seq<nat>>, i: nat, j: nat)
    requires Rooted(nodes, kids) && Sorted(nodes, kids) && i < |nodes| && j < |nodes|
    ensures PathOf(nodes, i) == PathOf(nodes, j) <==> i == j
  {
    LookupFinds(nodes, kids, i);
    LookupFinds(nodes, kids, j);
  }

  /** With a path all its prefixes are there. */
  lemma PrefixThere(nodes: seq<Node>, kids: seq<seq<nat>>, names: seq<string>, n: nat)
    requires Rooted(nodes, kids) && names in Paths(nodes) && n <= |names|
    ensures names[..n] in Paths(nodes)
    decreases |names|
  {
    if n == |names| {
      assert names[..n] == names;
    } else {
      var i: int :| 0 <= i < |nodes| && PathOf(nodes, i) == names;
      var p := nodes[i].parent;
      assert PathOf(nodes, p) == names[..|names| - 1];
      PrefixThere(nodes, kids, names[..|names| - 1], n);
      assert names[..|names| - 1][..n] == names[..n];
    }
  }

  // ----- adding a directory

  /** The table after a node was added at a place in its parent's list. */
  ghost function Added(nodes: seq<Node>, list: seq<nat>, p: nat, name: string, at: nat): seq<Node>
    requires p < |nodes| && at <= |list| && forall j :: 0 <= j < |list| ==> list[j] < |nodes|
  {
    var c := |nodes|;
    var new_ := Node(name, p, -1, if at < |list| then list[at] else -1, true);
    if at == 0 then nodes[p := nodes[p].(firstChild := c)] + [new_]
    else nodes[list[at - 1] := nodes[list[at - 1]].(nextSibling := c)] + [new_]
  }

  ghost function AddedKids(kids: seq<seq<nat>>, p: nat, at: nat): seq<seq<nat>>
    requires p < |kids| && at <= |kids[p]|
  {
    kids[p := kids[p][..at] + [|kids|] + kids[p][at..]] + [[]]
  }

  /** Where a name belongs in a sorted list. */
  ghost predicate Belongs(nodes: seq<Node>, list: seq<nat>, name: string, at: nat) {
    && at <= |list| && (forall j :: 0 <= j < |list| ==> list[j] < |nodes|)
    && (forall j :: 0 <= j < at ==> Less(nodes[list[j]].name, name))
    && (forall j :: at <= j < |list| ==> Less(name, nodes[list[j]].name))
  }

  /** Adding changes one link and appends one node. */
  lemma AddedIs(nodes: seq<Node>, list: seq<nat>, p: nat, name: string, at: nat)
    requires p < |nodes| && at <= |list| && forall j :: 0 <= j < |list| ==> list[j] < |nodes|
    ensures var after, c := Added(nodes, list, p, name, at), |nodes|;
            && |after| == c + 1
            && after[c] == Node(name, p, -1, if at < |list| then list[at] else -1, true)
            && forall i :: 0 <= i < c ==>
                 && after[i].name == nodes[i].name && after[i].parent == nodes[i].parent
                 && after[i].used == nodes[i].used
                 && after[i].firstChild == (if at == 0 && i == p then c else nodes[i].firstChild)
                 && after[i].nextSibling == (if at > 0 && i == list[at - 1] then c else nodes[i].nextSibling)
  {
  }

  /** A node stands in one place of one list. */
  lemma OnePlace(nodes: seq<Node>, kids: seq<seq<nat>>, p: nat, i: nat, q: nat, j: nat)
    requires Rooted(nodes, kids) && Sorted(nodes, kids) && p < |kids| && i < |kids[p]| && q < |kids| && j < |kids[q]|
    requires kids[p][i] == kids[q][j]
    ensures p == q && i == j
  {
    LessIrreflexive(nodes[kids[p][i]].name);
  }

  lemma KidsAfter(kids: seq<seq<nat>>, p: nat, at: nat, q: nat, j: nat)
    requires p < |kids| && at <= |kids[p]|
    ensures var after := AddedKids(kids, p, at);
            && |after| == |kids| + 1
            && (q < |kids| && q != p ==> after[q] == kids[q])
            && (q == p ==> |after[q]| == |kids[p]| + 1
                           && (j <= |kids[p]| ==> after[q][j] == if j < at then kids[p][j] else if j == at then |kids|
                               else kids[p][j - 1]))
            && after[|kids|] == []
  {
  }

  lemma AddedFirst(nodes: seq<Node>, kids: seq<seq<nat>>, p: nat, name: string, at: nat, q: nat)
    requires Linked(nodes, kids) && Rooted(nodes, kids) && p < |nodes| && at <= |kids[p]| && q <= |nodes|
    ensures FirstOk(Added(nodes, kids[p], p, name, at), AddedKids(kids, p, at), q)
  {
    AddedIs(nodes, kids[p], p, name, at);
    KidsAfter(kids, p, at, q, 0);
    assert q < |nodes| ==> FirstOk(nodes, kids, q);
    hide Added, AddedKids, Linked;
  }

  /** The link of a node that is in a list, in terms of its place in the old list. */
  lemma LinkAfter(nodes: seq<Node>, kids: seq<seq<nat>>, p: nat, name: string, at: nat, q: nat, k: nat)
    requires Rooted(nodes, kids) && Sorted(nodes, kids) && p < |nodes| && at <= |kids[p]|
    requires q < |kids| && k < |kids[q]| && NextOk(nodes, kids[q], k)
    ensures Added(nodes, kids[p], p, name, at)[kids[q][k]].nextSibling ==
            if q == p && k + 1 == at then |nodes| else if k + 1 < |kids[q]| then kids[q][k + 1] else -1
  {
    AddedIs(nodes, kids[p], p, name, at);
    if at > 0 && kids[q][k] == kids[p][at - 1] {
      OnePlace(nodes, kids, q, k, p, at - 1);
    }
    hide Added, Rooted, Sorted;
  }

  lemma AddedNext(nodes: seq<Node>, kids: seq<seq<nat>>, p: nat, name: string, at: nat, q: nat, j: nat)
    requires Linked(nodes, kids) && Rooted(nodes, kids) && Sorted(nodes, kids) && p < |nodes| && at <= |kids[p]|
    requires q <= |nodes| && j < |AddedKids(kids, p, at)[q]|
    ensures NextOk(Added(nodes, kids[p], p, name, at), AddedKids(kids, p, at)[q], j)
  {
    KidsAfter(kids, p, at, q, j);
    KidsAfter(kids, p, at, q, j + 1);
    AddedIs(nodes, kids[p], p, name, at);
    assert q < |nodes|;
    if q != p || j != at {
      var k := if q == p && j > at then j - 1 else j;
      assert NextOk(nodes, kids[q], k);
      LinkAfter(nodes, kids, p, name, at, q, k);
    }
    hide Added, AddedKids, Rooted, Sorted, Linked;
  }

  lemma AddedLinked(nodes: seq<Node>, kids: seq<seq<nat>>, p: nat, name: string, at: nat)
    requires Linked(nodes, kids) && Rooted(nodes, kids) && Sorted(nodes, kids) && p < |nodes| && at <= |kids[p]|
    ensures Linked(Added(nodes, kids[p], p, name, at), AddedKids(kids, p, at))
  {
    var after, more := Added(nodes, kids[p], p, name, at), AddedKids(kids, p, at);
    AddedIs(nodes, kids[p], p, name, at);
    assert |more| == |after| == |nodes| + 1;
    forall q | 0 <= q < |more|
      ensures FirstOk(after, more, q)
    {
      AddedFirst(nodes, kids, p, name, at, q);
    }
    forall q, j | 0 <= q < |more| && 0 <= j < |more[q]|
      ensures NextOk(after, more[q], j)
    {
      AddedNext(nodes, kids, p, name, at, q, j);
    }
    hide Added, AddedKids, Rooted, Sorted, NextOk, FirstOk;
  }

  lemma AddedParent(nodes: seq<Node>, kids: seq<seq<nat>>, p: nat, name: string, at: nat, i: nat)
    requires Rooted(nodes, kids) && p < |nodes| && at <= |kids[p]| && 0 < i <= |nodes|
    ensures var after, more := Added(nodes, kids[p], p, name, at), AddedKids(kids, p, at);
            0 <= after[i].parent < i && i in more[after[i].parent]
  {
    AddedIs(nodes, kids[p], p, name, at);
    var q, k := p, at;
    if i < |nodes| {
      q := nodes[i].parent;
      var j :| 0 <= j < |kids[q]| && kids[q][j] == i;
      k := if q == p && j >= at then j + 1 else j;
    }
    KidsAfter(kids, p, at, q, k);
    assert AddedKids(kids, p, at)[q][k] == i;
    hide Added, AddedKids;
  }

  lemma AddedChild(nodes: seq<Node>, kids: seq<seq<nat>>, p: nat, name: string, at: nat, q: nat, j: nat)
    requires Rooted(nodes, kids) && p < |nodes| && at <= |kids[p]|
    requires q <= |nodes| && j < |AddedKids(kids, p, at)[q]|
    ensures var after, more := Added(nodes, kids[p], p, name, at), AddedKids(kids, p, at);
            0 < more[q][j] < |after| && after[more[q][j]].parent == q
  {
    AddedIs(nodes, kids[p], p, name, at);
    KidsAfter(kids, p, at, q, j);
    hide Added, AddedKids;
  }

  lemma AddedRooted(nodes: seq<Node>, kids: seq<seq<nat>>, p: nat, name: string, at: nat)
    requires Rooted(nodes, kids) && p < |nodes| && at <= |kids[p]| && IsDirName(name)
    ensures Rooted(Added(nodes, kids[p], p, name, at), AddedKids(kids, p, at))
  {
    var after, more := Added(nodes, kids[p], p, name, at), AddedKids(kids, p, at);
    AddedIs(nodes, kids[p], p, name, at);
    assert |more| == |after| == |nodes| + 1;
    forall i | 0 < i < |after|
      ensures 0 <= after[i].parent < i && i in more[after[i].parent]
    {
      AddedParent(nodes, kids, p, name, at, i);
    }
    forall q, j | 0 <= q < |more| && 0 <= j < |more[q]|
      ensures 0 < more[q][j] < |after| && after[more[q][j]].parent == q
    {
      AddedChild(nodes, kids, p, name, at, q, j);
    }
    hide Added, AddedKids, IsDirName;
  }

  lemma AddedSorted(nodes: seq<Node>, kids: seq<seq<nat>>, p: nat, name: string, at: nat)
    requires Sorted(nodes, kids) && p < |nodes| && Belongs(nodes, kids[p], name, at)
    ensures Sorted(Added(nodes, kids[p], p, name, at), AddedKids(kids, p, at))
  {
    var after, more, c := Added(nodes, kids[p], p, name, at), AddedKids(kids, p, at), |nodes|;
    AddedIs(nodes, kids[p], p, name, at);
    KidsAfter(kids, p, at, p, at);
    hide Added, AddedKids, Less;
    forall q, j | 0 <= q < |more| && 0 <= j < |more[q]|
      ensures more[q][j] < |after|
    {
      KidsAfter(kids, p, at, q, j);
    }
    forall q, i, j | 0 <= q < |more| && 0 <= i < j < |more[q]|
      ensures Less(after[more[q][i]].name, after[more[q][j]].name)
    {
      KidsAfter(kids, p, at, q, i);
      KidsAfter(kids, p, at, q, j);
    }
  }

  lemma {:induction false} AddedPath(nodes: seq<Node>, kids: seq<seq<nat>>, p: nat, name: string, at: nat, i: nat)
    requires Rooted(nodes, kids) && p < |nodes| && at <= |kids[p]| && i <= |nodes|
    ensures PathOf(Added(nodes, kids[p], p, name, at), i) == if i < |nodes| then PathOf(nodes, i)
            else PathOf(nodes, p) + [name]
    decreases i
  {
    AddedIs(nodes, kids[p], p, name, at);
    hide Added;
    if i == |nodes| {
      AddedPath(nodes, kids, p, name, at, p);
    } else if i > 0 {
      AddedPath(nodes, kids, p, name, at, nodes[i].parent);
    }
  }

  lemma AddedPaths(nodes: seq<Node>, after: seq<Node>, path: seq<string>)
    requires |after| == |nodes| + 1
    requires forall i :: 0 <= i <= |nodes| ==> PathOf(after, i) == if i < |nodes| then PathOf(nodes, i) else path
    ensures Paths(after) == Paths(nodes) + {path}
    ensures Fitting(nodes) && |Print(path, true)| < PATH_MAX ==> Fitting(after)
  {
    hide PathOf, Print;
    forall s | s in Paths(nodes) + {path}
      ensures s in Paths(after)
    {
      if s in Paths(nodes) {
        var i: int :| 0 <= i < |nodes| && PathOf(nodes, i) == s;
        assert PathOf(after, i) == s;
      } else {
        assert PathOf(after, |nodes|) == s;
      }
    }
  }

  /** Adding a directory in its place keeps the tree and adds its path, and nothing else. */
  lemma AddedKeepsTree(nodes: seq<Node>, kids: seq<seq<nat>>, p: nat, name: string, at: nat)
    requires IsTree(nodes, kids) && p < |nodes| && IsDirName(name) && Belongs(nodes, kids[p], name, at)
    requires |Print(PathOf(nodes, p) + [name], true)| < PATH_MAX
    ensures var after := Added(nodes, kids[p], p, name, at);
            && IsTree(after, AddedKids(kids, p, at))
            && Paths(after) == Paths(nodes) + {PathOf(nodes, p) + [name]}
            && |after| == |nodes| + 1 && PathOf(after, |nodes|) == PathOf(nodes, p) + [name]
            && forall i :: 0 <= i < |nodes| ==> PathOf(after, i) == PathOf(nodes, i)
  {
    var after := Added(nodes, kids[p], p, name, at);
    AddedLinked(nodes, kids, p, name, at);
    AddedRooted(nodes, kids, p, name, at);
    AddedSorted(nodes, kids, p, name, at);
    AddedIs(nodes, kids[p], p, name, at);
    forall i | 0 <= i <= |nodes|
      ensures PathOf(after, i) == if i < |nodes| then PathOf(nodes, i) else PathOf(nodes, p) + [name]
    {
      AddedPath(nodes, kids, p, name, at, i);
    }
    AddedPaths(nodes, after, PathOf(nodes, p) + [name]);
    hide Linked, Rooted, Sorted, Added, AddedKids, PathOf, Print, Fitting, Paths;
  }
}
