/** The directory part and the name part of a path. */
module PathParts {
  import opened Words
  import opened PathAlgebra
  import opened FsPath
  import opened DirForest
  import opened Namespace

  /** The text of a file's path: its directory's, a slash and its name. */
  lemma LastSlash(t: seq<string>)
    requires AreNames(t) && t != []
    ensures var up := if |t| == 1 then "" else Print(Parent(t), true);
            Print(t, true) == up + "/" + t[|t| - 1]
  {
    var n := |t| - 1;
    assert t == t[..n] + [t[n]];
    JoinedMore(t[..n], t[n]);
    if n == 0 {
      assert t[..0] == [] && "/" + t[0] == "" + "/" + t[0];
    } else {
      var up := Joined(t[..n]);
      assert "/" + (up + "/" + t[n]) == "/" + up + "/" + t[n];
    }
  }

  predicate IsLastSlash(path: string, at: int) {
    0 <= at < |path| && path[at] == '/' && forall i :: at < i < |path| ==> path[i] != '/'
  }

  method FindLastSlash(path: CString) returns (at: nat)
    requires IsAbsolute(path)
    ensures forall k :: IsLastSlash(path, k) <==> k == at
  {
    at := 0;
    var i := 0;
    while i < |path|
      invariant 0 <= i <= |path| && at < |path| && path[at] == '/'
      invariant forall j :: at < j < i ==> path[j] != '/'
    {
      if path[i] == '/' {
        at := i;
      }
      i := i + 1;
    }
  }

  /** The text before the last slash of an absolute path, or the root's; for the path of a file that
      is the path of its directory. */
  method PathParent(path: CString, outLen: nat) returns (ok: bool, parent: CString)
    ensures ok ==> IsAbsolute(path)
    ensures forall at :: IsAbsolute(path) && IsLastSlash(path, at) ==>
              && ok == (if at == 0 then outLen >= 2 else at + 1 <= outLen)
              && (ok ==> parent == if at == 0 then "/" else path[..at])
  {
    parent := "";
    if outLen == 0 || !IsAbsolute(path) {
      return false, parent;
    }
    var at := FindLastSlash(path);
    assert IsLastSlash(path, at);
    if at == 0 {
      return outLen >= 2, "/";
    }
    if at + 1 > outLen {
      return false, parent;
    }
    parent := path[..at];
    return true, parent;
  }

  /** The text after the last slash of an absolute path, unless there is none. */
  method PathBasename(path: CString, outLen: nat) returns (ok: bool, name: CString)
    ensures ok ==> IsAbsolute(path)
    ensures forall at :: IsAbsolute(path) && IsLastSlash(path, at) ==>
              && ok == (at + 1 < |path| && |path| - (at + 1) < outLen)
              && (ok ==> name == path[at + 1..])
  {
    name := "";
    if outLen == 0 || !IsAbsolute(path) {
      return false, name;
    }
    var at := FindLastSlash(path);
    assert IsLastSlash(path, at);
    if at + 1 >= |path| || |path| - (at + 1) >= outLen {
      return false, name;
    }
    return true, path[at + 1..];
  }

  /** On the path of a file these are its directory's path and its name. */
  lemma PartsOfPrint(t: seq<string>) returns (at: nat)
    requires AreNames(t) && t != []
    ensures var path := Print(t, true);
            && IsAbsolute(path) && IsLastSlash(path, at)
            && (if at == 0 then "/" else path[..at]) == Print(Parent(t), true)
            && path[at + 1..] == t[|t| - 1] && at + 1 < |path|
  {
    LastSlash(t);
    var name, up := t[|t| - 1], if |t| == 1 then "" else Print(Parent(t), true);
    assert IsName(name);
    at := |up|;
    SlashBetween(up, name);
    PrintsSome(t);
    PrintsSome(Parent(t));
    hide Print, Joined, IsName;
    assert |t| == 1 ==> Parent(t) == [];
  }

  lemma SlashBetween(up: string, name: string)
    requires IsName(name)
    ensures var path := up + "/" + name;
            && IsLastSlash(path, |up|) && path[..|up|] == up && path[|up| + 1..] == name && |up| + 1 < |path|
  {
    var path := up + "/" + name;
    assert forall i :: |up| < i < |path| ==> path[i] == name[i - |up| - 1];
  }

  lemma PrintsSome(t: seq<string>)
    ensures IsAbsolute(Print(t, true)) && (t == [] ==> Print(t, true) == "/")
  {
  }

  method ParentOf(path: CString, ghost t: seq<string>) returns (parent: CString)
    requires AreNames(t) && t != [] && path == Print(t, true) && |path| < PATH_MAX
    ensures parent == Print(Parent(t), true)
  {
    ghost var at := PartsOfPrint(t);
    var ok;
    ok, parent := PathParent(path, PATH_MAX);
  }

  method NameOf(path: CString, ghost t: seq<string>) returns (ok: bool, name: CString)
    requires AreNames(t) && t != [] && path == Print(t, true)
    ensures ok == (|t[|t| - 1]| <= NAME_MAX)
    ensures ok ==> name == t[|t| - 1]
  {
    ghost var at := PartsOfPrint(t);
    ok, name := PathBasename(path, NAME_MAX + 1);
  }
}
