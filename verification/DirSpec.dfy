/** Making directories, on the set of paths that exist. */
module DirSpec {
  import opened DirForest

  type PathSet = set<seq<string>>

  /** What making a path does from its k-th name on: the paths afterwards, and whether it succeeded. */
  ghost function Grown(paths: PathSet, room: nat, t: seq<string>, k: nat, create: bool): (PathSet, bool)
    requires k <= |t|
    decreases |t| - k
  {
    if k == |t| then (paths, true)
    else if |t[k]| > NAME_MAX then (paths, false)
    else if t[..k + 1] in paths then
      if k + 1 == |t| && !create then (paths, false) else Grown(paths, room, t, k + 1, create)
    else if (k + 1 < |t| && !create) || room == 0 then (paths, false)
    else Grown(paths + {t[..k + 1]}, room - 1, t, k + 1, create)
  }

  ghost predicate PrefixClosed(paths: PathSet) {
    forall s, n :: s in paths && 0 <= n <= |s| ==> s[..n] in paths
  }

  ghost predicate ShortNames(paths: PathSet) {
    forall s, i :: s in paths && 0 <= i < |s| ==> |s[i]| <= NAME_MAX
  }

  predicate AllShort(t: seq<string>) {
    forall i :: 0 <= i < |t| ==> |t[i]| <= NAME_MAX
  }

  // ----- one directory

  /** A path can be made as a single directory when only its last name is missing. */
  ghost predicate CanMake(paths: PathSet, room: nat, t: seq<string>) {
    t != [] && t !in paths && t[..|t| - 1] in paths && |t[|t| - 1]| <= NAME_MAX && room > 0
  }

  lemma {:induction false} MkdirFrom(paths: PathSet, room: nat, t: seq<string>, k: nat)
    requires PrefixClosed(paths) && ShortNames(paths) && k < |t|
    ensures Grown(paths, room, t, k, false) == if t[..k] in paths && CanMake(paths, room, t) then (paths + {t}, true)
                                               else if t[..k] in paths then (paths, false)
                                               else Grown(paths, room, t, k, false)
    decreases |t| - k
  {
    if t[..k] in paths {
      assert t[..|t|] == t;
      assert k + 1 < |t| ==> t[..|t| - 1][..k + 1] == t[..k + 1];
      assert t[..k + 1] in paths ==> |t[..k + 1][k]| <= NAME_MAX;
      if k + 1 < |t| && t[..k + 1] in paths {
        MkdirFrom(paths, room, t, k + 1);
      }
    }
  }

  /** Making one directory adds exactly its path, and succeeds exactly when the path is absent, its
      parent is there, its last name is short enough and a node is left; else nothing changes. */
  lemma MkdirMakesOne(paths: PathSet, room: nat, t: seq<string>)
    requires PrefixClosed(paths) && ShortNames(paths) && [] in paths && t != []
    ensures Grown(paths, room, t, 0, false) == if CanMake(paths, room, t) then (paths + {t}, true) else (paths, false)
    ensures CanMake(paths, room, t) <==>
            t !in paths && t[..|t| - 1] in paths && |t[|t| - 1]| <= 31 && room > 0
  {
    assert t[..0] == [];
    MkdirFrom(paths, room, t, 0);
    hide CanMake;
  }

  // ----- a directory and its parents

  /** The first prefixes of a path, from one length to another. */
  ghost function Prefixes(t: seq<string>, from: nat, to: nat): PathSet
    requires from <= to <= |t|
  {
    set n: int | from < n <= to :: t[..n]
  }

  lemma PrefixesStep(t: seq<string>, from: nat, to: nat)
    requires from < to <= |t|
    ensures Prefixes(t, from, to) == Prefixes(t, from + 1, to) + {t[..from + 1]}
    ensures t[..from + 1] !in Prefixes(t, from + 1, to)
  {
    forall s | s in Prefixes(t, from, to)
      ensures s in Prefixes(t, from + 1, to) + {t[..from + 1]}
    {
      var n: int :| from < n <= to && t[..n] == s;
    }
    assert |t[..from + 1]| == from + 1;
  }

  lemma PartialStep(paths: PathSet, t: seq<string>, k: nat, j: nat)
    requires k < j <= |t|
    ensures var all, rest, first := Prefixes(t, k, j), Prefixes(t, k + 1, j), t[..k + 1];
            && paths + all == paths + {first} + rest
            && (first in paths ==> all - paths == rest - paths && paths + all == paths + rest)
            && (first !in paths ==> |all - paths| == |rest - (paths + {first})| + 1)
  {
    PrefixesStep(t, k, j);
    var all, rest, first := Prefixes(t, k, j), Prefixes(t, k + 1, j), t[..k + 1];
    hide Prefixes;
    if first in paths {
      assert all - paths == rest - paths;
    } else {
      assert all - paths == (rest - (paths + {first})) + {first};
    }
  }

  /** Making the path from its k-th name on succeeds exactly when its names are short enough and there
      are nodes for the missing prefixes; then it adds exactly those. */
  ghost predicate MakesAll(paths: PathSet, room: nat, t: seq<string>, k: nat, r: (PathSet, bool))
    requires k <= |t|
  {
    var all := Prefixes(t, k, |t|);
    && (r.1 <==> AllShort(t[k..]) && |all - paths| <= room)
    && (r.1 ==> r.0 == paths + all)
  }

  lemma MakesMore(paths: PathSet, room: nat, t: seq<string>, k: nat, r: (PathSet, bool))
    requires k < |t| && |t[k]| <= NAME_MAX
    requires if t[..k + 1] in paths then MakesAll(paths, room, t, k + 1, r)
             else room > 0 && MakesAll(paths + {t[..k + 1]}, room - 1, t, k + 1, r)
    ensures MakesAll(paths, room, t, k, r)
  {
    PartialStep(paths, t, k, |t|);
    ShortStep(t, k);
    hide Prefixes, AllShort;
  }

  lemma MakesNothing(paths: PathSet, room: nat, t: seq<string>, k: nat)
    requires k < |t| && (|t[k]| > NAME_MAX || (t[..k + 1] !in paths && room == 0))
    ensures MakesAll(paths, room, t, k, (paths, false))
  {
    PartialStep(paths, t, k, |t|);
    ShortStep(t, k);
    hide Prefixes, AllShort;
  }

  lemma {:induction false} MkdirPMakesAll(paths: PathSet, room: nat, t: seq<string>, k: nat)
    requires k <= |t|
    ensures MakesAll(paths, room, t, k, Grown(paths, room, t, k, true))
    decreases |t| - k
  {
    if k == |t| {
      assert Prefixes(t, k, |t|) == {};
    } else {
      hide MakesAll;
      var first := t[..k + 1];
      if |t[k]| > NAME_MAX || (first !in paths && room == 0) {
        MakesNothing(paths, room, t, k);
      } else if first in paths {
        MkdirPMakesAll(paths, room, t, k + 1);
        MakesMore(paths, room, t, k, Grown(paths, room, t, k, true));
      } else {
        MkdirPMakesAll(paths + {first}, room - 1, t, k + 1);
        MakesMore(paths, room, t, k, Grown(paths, room, t, k, true));
      }
    }
  }

  lemma ShortStep(t: seq<string>, k: nat)
    requires k < |t|
    ensures AllShort(t[k..]) <==> |t[k]| <= NAME_MAX && AllShort(t[k + 1..])
  {
    var u, v := t[k..], t[k + 1..];
    assert u[0] == t[k] && forall i :: 0 <= i < |v| ==> v[i] == u[i + 1];
  }

  /** The first k names could be made, the next could not. */
  ghost predicate StopsAt(paths: PathSet, room: nat, t: seq<string>, k: nat, j: nat, after: PathSet)
    requires k <= |t|
  {
    && k <= j < |t| && after == paths + Prefixes(t, k, j)
    && (|t[j]| > NAME_MAX || (t[..j + 1] !in after && |Prefixes(t, k, j) - paths| == room))
  }

  lemma StopsLater(paths: PathSet, room: nat, t: seq<string>, k: nat, j: nat, after: PathSet)
    requires k < j < |t|
    requires if t[..k + 1] in paths then StopsAt(paths, room, t, k + 1, j, after)
             else room > 0 && StopsAt(paths + {t[..k + 1]}, room - 1, t, k + 1, j, after)
    ensures StopsAt(paths, room, t, k, j, after)
  {
    PartialStep(paths, t, k, j);
    hide Prefixes;
  }

  lemma StopsHere(paths: PathSet, room: nat, t: seq<string>, k: nat)
    requires k < |t| && (|t[k]| > NAME_MAX || (t[..k + 1] !in paths && room == 0))
    ensures StopsAt(paths, room, t, k, k, paths)
  {
    assert Prefixes(t, k, k) == {};
    assert Prefixes(t, k, k) - paths == {};
  }

  /** When it fails it has added the prefixes before the one that could not be made. */
  lemma {:induction false} MkdirPStopsAt(paths: PathSet, room: nat, t: seq<string>, k: nat) returns (j: nat)
    requires k <= |t| && !Grown(paths, room, t, k, true).1
    ensures StopsAt(paths, room, t, k, j, Grown(paths, room, t, k, true).0)
    decreases |t| - k
  {
    hide StopsAt;
    var first := t[..k + 1];
    if |t[k]| > NAME_MAX || (first !in paths && room == 0) {
      j := k;
      StopsHere(paths, room, t, k);
    } else {
      if first in paths {
        j := MkdirPStopsAt(paths, room, t, k + 1);
      } else {
        j := MkdirPStopsAt(paths + {first}, room - 1, t, k + 1);
      }
      assert k < j < |t| by { StopsBounds(t, k + 1, j); }
      StopsLater(paths, room, t, k, j, Grown(paths, room, t, k, true).0);
    }
  }

  lemma StopsBounds(t: seq<string>, k: nat, j: nat)
    requires k <= |t| && exists paths, room, after :: StopsAt(paths, room, t, k, j, after)
    ensures k <= j < |t|
  {
  }

  /** The name of a path at which making it can stop before anything is made: the first that is
      missing, too long for a name or without a node left for it. */
  ghost predicate BlockedAt(paths: PathSet, room: nat, t: seq<string>, n: int) {
    0 <= n < |t| && t[..n] in paths && t[..n + 1] !in paths && (|t[n]| > NAME_MAX || room == 0)
  }

  lemma {:induction false} GrownOnly(paths: PathSet, room: nat, t: seq<string>, k: nat, create: bool)
    requires k <= |t|
    ensures paths <= Grown(paths, room, t, k, create).0
    decreases |t| - k
  {
    if k < |t| && |t[k]| <= NAME_MAX {
      if t[..k + 1] in paths {
        GrownOnly(paths, room, t, k + 1, create);
      } else if room > 0 {
        GrownOnly(paths + {t[..k + 1]}, room - 1, t, k + 1, create);
      }
    }
  }

  lemma NoneBelow(paths: PathSet, t: seq<string>, k: nat)
    requires PrefixClosed(paths) && k < |t| && t[..k + 1] !in paths
    ensures forall n :: k < n <= |t| ==> t[..n] !in paths
  {
    forall n | k < n <= |t| ensures t[..n] !in paths {
      assert t[..n][..k + 1] == t[..k + 1];
    }
  }

  lemma {:induction false} FailureKeepsFrom(paths: PathSet, room: nat, t: seq<string>, k: nat)
    requires PrefixClosed(paths) && ShortNames(paths) && k <= |t| && t[..k] in paths
    requires !Grown(paths, room, t, k, true).1
    ensures Grown(paths, room, t, k, true).0 == paths <==> exists n :: k <= n && BlockedAt(paths, room, t, n)
    decreases |t| - k
  {
    if t[..k + 1] in paths {
      assert |t[..k + 1][k]| <= NAME_MAX;
      FailureKeepsFrom(paths, room, t, k + 1);
    } else {
      NoneBelow(paths, t, k);
      if |t[k]| > NAME_MAX || room == 0 {
        assert BlockedAt(paths, room, t, k);
      } else {
        GrownOnly(paths + {t[..k + 1]}, room - 1, t, k + 1, true);
      }
    }
  }

  /** A failure leaves the directories as they were exactly when the first missing name is the one
      that cannot be made. */
  lemma FailedMkdirPKeepsIff(paths: PathSet, room: nat, t: seq<string>)
    requires PrefixClosed(paths) && ShortNames(paths) && [] in paths && !Grown(paths, room, t, 0, true).1
    ensures Grown(paths, room, t, 0, true).0 == paths <==> exists n :: BlockedAt(paths, room, t, n)
  {
    assert t[..0] == [];
    FailureKeepsFrom(paths, room, t, 0);
    hide Grown, PrefixClosed, ShortNames;
  }

  /** A failure that does make something: the first name is made, the second is too long. */
  lemma FailedMkdirPMakesSome(room: nat)
    requires room > 0
    ensures var t := ["a", seq(NAME_MAX + 1, _ => 'x')];
            Grown({[]}, room, t, 0, true) == ({[], ["a"]}, false)
  {
    var t := ["a", seq(NAME_MAX + 1, _ => 'x')];
    var root: PathSet := {[]};
    assert t[..1] == ["a"] && |t[0]| == 1 && t[..1] !in root;
    assert root + {t[..1]} == {[], ["a"]};
    assert Grown(root + {t[..1]}, room - 1, t, 1, true) == (root + {t[..1]}, false);
  }

  // ----- the paths of a table

  lemma TreePaths(nodes: seq<Node>, kids: seq<seq<nat>>)
    requires Rooted(nodes, kids)
    ensures [] in Paths(nodes) && PrefixClosed(Paths(nodes)) && ShortNames(Paths(nodes))
  {
    assert PathOf(nodes, 0) == [];
    forall s, n | s in Paths(nodes) && 0 <= n <= |s|
      ensures s[..n] in Paths(nodes)
    {
      PrefixThere(nodes, kids, s, n);
    }
    forall s, i | s in Paths(nodes) && 0 <= i < |s|
      ensures |s[i]| <= NAME_MAX
    {
      var k: int :| 0 <= k < |nodes| && PathOf(nodes, k) == s;
      PathNames(nodes, kids, k);
    }
  }

  /** A node has a child with a name exactly when that longer path exists. */
  lemma ChildInPaths(nodes: seq<Node>, kids: seq<seq<nat>>, p: nat, name: string)
    requires Rooted(nodes, kids) && Sorted(nodes, kids) && p < |nodes|
    ensures ChildOf(nodes, kids, p, name).Some? <==> PathOf(nodes, p) + [name] in Paths(nodes)
    ensures ChildOf(nodes, kids, p, name).Some? ==>
              PathOf(nodes, ChildOf(nodes, kids, p, name).value) == PathOf(nodes, p) + [name]
  {
    var path := PathOf(nodes, p);
    LookupFinds(nodes, kids, p);
    LookupMore(nodes, kids, 0, path, name);
    LookupInPaths(nodes, kids, path + [name]);
    hide Lookup;
  }

  // ----- listing

  ghost function NamesOf(nodes: seq<Node>, list: seq<nat>): (names: seq<string>)
    requires forall j :: 0 <= j < |list| ==> list[j] < |nodes|
    ensures |names| == |list| && forall j :: 0 <= j < |list| ==> names[j] == nodes[list[j]].name
  {
    seq(|list|, j requires 0 <= j < |list| => nodes[list[j]].name)
  }

  /** The list of a directory holds exactly the names that extend its path, strictly ascending. */
  lemma ListsChildren(nodes: seq<Node>, kids: seq<seq<nat>>, p: nat)
    requires Rooted(nodes, kids) && Sorted(nodes, kids) && p < |nodes|
    ensures var names := NamesOf(nodes, kids[p]);
            && (forall n :: n in names <==> PathOf(nodes, p) + [n] in Paths(nodes))
            && (forall i, j :: 0 <= i < j < |names| ==> Less(names[i], names[j]))
  {
    var names := NamesOf(nodes, kids[p]);
    forall n
      ensures n in names <==> PathOf(nodes, p) + [n] in Paths(nodes)
    {
      ChildInPaths(nodes, kids, p, n);
      var r := ChildOf(nodes, kids, p, n);
      if r.Some? {
        var j :| 0 <= j < |kids[p]| && kids[p][j] == r.value;
        assert names[j] == n;
      }
      hide Paths, PathOf;
    }
  }
}
