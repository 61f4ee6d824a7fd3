/** Paths as sequences of names: reading, folding and printing them. */
module PathAlgebra {
  import opened Words

  const PATH_MAX: nat := 256
  const SEGMENT_MAX: nat := 128

  // ----- reading

  predicate StartsName(s: string) {
    s != "" && s[0] != '/'
  }

  /** The text up to the next slash, and the text from there. */
  function FirstName(s: string): (n: string)
    ensures forall i :: 0 <= i < |n| ==> n[i] != '/'
    ensures n != "" <==> StartsName(s)
    ensures |n| <= |s|
  {
    if StartsName(s) then [s[0]] + FirstName(s[1..]) else ""
  }

  function AfterName(s: string): (t: string)
    ensures !StartsName(t)
    ensures |t| <= |s| && (StartsName(s) ==> |t| < |s|)
  {
    if StartsName(s) then AfterName(s[1..]) else s
  }

  /** The names between the slashes; empty ones do not count. */
  function Components(s: string): seq<string>
    decreases |s|
  {
    if s == "" then []
    else if s[0] == '/' then Components(s[1..])
    else [FirstName(s)] + Components(AfterName(s))
  }

  // ----- folding

  /** Going from a place along one name. */
  function Go(stack: seq<string>, name: string, absolute: bool): seq<string> {
    if name == "." then stack
    else if name == ".." && stack != [] && stack[|stack| - 1] != ".." then stack[..|stack| - 1]
    else if name == ".." && absolute then stack
    else stack + [name]
  }

  function GoAll(stack: seq<string>, names: seq<string>, absolute: bool): seq<string>
    decreases |names|
  {
    if names == [] then stack else GoAll(Go(stack, names[0], absolute), names[1..], absolute)
  }

  /** Every pushed name takes room in a fixed pool, and popping gives none back. */
  function Room(stack: seq<string>, name: string, absolute: bool): nat {
    if |Go(stack, name, absolute)| > |stack| then |name| + 1 else 0
  }

  function RoomAll(stack: seq<string>, names: seq<string>, absolute: bool): nat
    decreases |names|
  {
    if names == [] then 0
    else Room(stack, names[0], absolute) + RoomAll(Go(stack, names[0], absolute), names[1..], absolute)
  }

  // ----- printing

  function Joined(stack: seq<string>): string {
    if stack == [] then ""
    else if |stack| == 1 then stack[0]
    else stack[0] + "/" + Joined(stack[1..])
  }

  function Print(stack: seq<string>, absolute: bool): (s: string)
    ensures s == "" ==> !absolute && stack != []
  {
    if absolute then "/" + Joined(stack)
    else if stack == [] then "."
    else Joined(stack)
  }

  predicate IsAbsolute(path: string) {
    path != "" && path[0] == '/'
  }

  /** The normal form of a path, when it and the way to it fit. */
  function Normalize(path: string, size: nat): (r: Option<string>) {
    if path == "" then None
    else
      var absolute, names := IsAbsolute(path), Components(path);
      var out := Print(GoAll([], names, absolute), absolute);
      if RoomAll([], names, absolute) <= PATH_MAX && |out| < size then Some(out) else None
  }

  function Beside(cwd: string, path: string): string {
    if cwd == "/" then "/" + path else cwd + "/" + path
  }

  /** A path seen from a directory. */
  function Resolve(cwd: string, path: string, size: nat): (r: Option<string>) {
    var here := Normalize(cwd, PATH_MAX);
    if size == 0 || here.None? || !IsAbsolute(here.value) then None
    else if IsAbsolute(path) then Normalize(path, size)
    else if path == "" then Normalize(here.value, size)
    else if |here.value| + |path| + 2 > PATH_MAX then None
    else Normalize(Beside(here.value, path), size)
  }

  // ----- reading what was printed

  predicate IsName(n: string) {
    n != "" && forall i :: 0 <= i < |n| ==> n[i] != '/'
  }

  predicate AreNames(names: seq<string>) {
    forall i :: 0 <= i < |names| ==> IsName(names[i])
  }

  lemma {:induction false} ComponentsAreNames(s: string)
    ensures AreNames(Components(s))
    decreases |s|
  {
    if s == "" {
    } else if s[0] == '/' {
      ComponentsAreNames(s[1..]);
    } else {
      ComponentsAreNames(AfterName(s));
    }
  }

  lemma {:induction false} FirstNameOf(n: string, t: string)
    requires forall i :: 0 <= i < |n| ==> n[i] != '/'
    requires !StartsName(t)
    ensures FirstName(n + t) == n && AfterName(n + t) == t
  {
    if n == "" {
      assert n + t == t;
    } else {
      assert (n + t)[1..] == n[1..] + t;
      FirstNameOf(n[1..], t);
    }
  }

  lemma NameThen(n: string, t: string)
    requires IsName(n) && !StartsName(t)
    ensures Components(n + t) == [n] + Components(t)
  {
    FirstNameOf(n, t);
    hide FirstName, AfterName;
  }

  lemma SlashThen(t: string)
    ensures Components("/" + t) == Components(t)
  {
    assert ("/" + t)[1..] == t;
  }

  lemma {:induction false} ComponentsOfJoined(names: seq<string>)
    requires AreNames(names)
    ensures Components(Joined(names)) == names
  {
    if names == [] {
    } else if |names| == 1 {
      NameThen(names[0], "");
      assert names[0] + "" == names[0];
    } else {
      ComponentsOfJoined(names[1..]);
      var rest := Joined(names[1..]);
      NameThen(names[0], "/" + rest);
      SlashThen(rest);
      assert Joined(names) == names[0] + "/" + rest == names[0] + ("/" + rest);
      hide Components, Joined;
    }
  }

  /** What was printed reads back as it was. */
  lemma ComponentsOfPrint(stack: seq<string>, absolute: bool)
    requires AreNames(stack)
    ensures Components(Print(stack, absolute)) == if !absolute && stack == [] then ["."] else stack
  {
    ComponentsOfJoined(stack);
    SlashThen(Joined(stack));
    if !absolute && stack == [] {
      NameThen(".", "");
      assert "." + "" == ".";
    }
    hide Components, Joined;
  }

  /** The names of two paths put side by side. */
  lemma {:induction false} ComponentsBeside(s: string, t: string)
    ensures Components(s + ("/" + t)) == Components(s) + Components(t)
    decreases |s|
  {
    var u := s + ("/" + t);
    if s == "" {
      assert u == "/" + t && [] + Components(t) == Components(t);
      SlashThen(t);
    } else if s[0] == '/' {
      assert u[1..] == s[1..] + ("/" + t);
      ComponentsBeside(s[1..], t);
    } else {
      var n, rest := FirstName(s), AfterName(s);
      NameSplits(s);
      ComponentsBeside(rest, t);
      assert u == n + (rest + ("/" + t)) by {
        assert n + rest == s;
      }
      NameThen(n, rest + ("/" + t));
      assert Components(s) == [n] + Components(rest);
      hide Components, FirstName, AfterName;
      assert [n] + Components(rest) + Components(t) == [n] + (Components(rest) + Components(t));
    }
  }

  lemma {:induction false} NameSplits(s: string)
    ensures FirstName(s) + AfterName(s) == s
  {
    if StartsName(s) {
      NameSplits(s[1..]);
    }
  }

  // ----- the canonical form

  /** Proper names only; in a relative path also `..`, but only as a leading run. */
  predicate IsCanonical(stack: seq<string>, absolute: bool) {
    && AreNames(stack)
    && (forall i :: 0 <= i < |stack| ==> stack[i] != ".")
    && (absolute ==> forall i :: 0 <= i < |stack| ==> stack[i] != "..")
    && (forall i :: 0 < i < |stack| && stack[i] == ".." ==> stack[i - 1] == "..")
  }

  lemma GoKeepsCanonical(stack: seq<string>, name: string, absolute: bool)
    requires IsCanonical(stack, absolute) && IsName(name)
    ensures IsCanonical(Go(stack, name, absolute), absolute)
  {
  }

  lemma {:induction false} GoAllKeepsCanonical(stack: seq<string>, names: seq<string>, absolute: bool)
    requires IsCanonical(stack, absolute) && AreNames(names)
    ensures IsCanonical(GoAll(stack, names, absolute), absolute)
    decreases |names|
  {
    if names != [] {
      GoKeepsCanonical(stack, names[0], absolute);
      GoAllKeepsCanonical(Go(stack, names[0], absolute), names[1..], absolute);
    }
  }

  /** The room a stack takes when it is built name by name. */
  function StackRoom(stack: seq<string>): nat {
    if stack == [] then 0 else StackRoom(stack[..|stack| - 1]) + |stack[|stack| - 1]| + 1
  }

  /** Walking along a canonical stack builds it. */
  lemma {:induction false} GoAlongStack(stack: seq<string>, absolute: bool)
    requires IsCanonical(stack, absolute)
    ensures GoAll([], stack, absolute) == stack && RoomAll([], stack, absolute) == StackRoom(stack)
  {
    if stack != [] {
      var n := |stack| - 1;
      GoAlongStack(stack[..n], absolute);
      assert stack == stack[..n] + [stack[n]];
      GoAllSplits([], stack[..n], [stack[n]], absolute);
      assert Go(stack[..n], stack[n], absolute) == stack;
      GoOne(stack[..n], stack[n], absolute);
    }
  }

  lemma GoOne(stack: seq<string>, name: string, absolute: bool)
    ensures GoAll(stack, [name], absolute) == Go(stack, name, absolute)
    ensures RoomAll(stack, [name], absolute) == Room(stack, name, absolute)
  {
    assert [name][1..] == [];
  }

  lemma {:induction false} GoAllSplits(stack: seq<string>, a: seq<string>, b: seq<string>, absolute: bool)
    ensures GoAll(stack, a + b, absolute) == GoAll(GoAll(stack, a, absolute), b, absolute)
    ensures RoomAll(stack, a + b, absolute) == RoomAll(stack, a, absolute) + RoomAll(GoAll(stack, a, absolute), b,
            absolute)
    decreases |a|
  {
    if a == [] {
      assert a + b == b;
    } else {
      assert (a + b)[0] == a[0] && (a + b)[1..] == a[1..] + b;
      GoAllSplits(Go(stack, a[0], absolute), a[1..], b, absolute);
    }
  }

  /** A stack never takes more room than was used to reach it. */
  lemma {:induction false} RoomBoundsStack(stack: seq<string>, names: seq<string>, absolute: bool)
    ensures StackRoom(GoAll(stack, names, absolute)) <= StackRoom(stack) + RoomAll(stack, names, absolute)
    decreases |names|
  {
    if names != [] {
      var next := Go(stack, names[0], absolute);
      RoomBoundsStack(next, names[1..], absolute);
      if |next| > |stack| {
        assert next[..|next| - 1] == stack;
      }
    }
  }

  lemma {:induction false} JoinedLength(stack: seq<string>)
    ensures |Joined(stack)| + (if stack == [] then 0 else 1) == StackRoom(stack)
  {
    if |stack| == 1 {
      assert stack[..0] == [];
    } else if |stack| > 1 {
      JoinedLength(stack[1..]);
      StackRoomFront(stack);
    }
  }

  lemma {:induction false} StackRoomFront(stack: seq<string>)
    requires stack != []
    ensures StackRoom(stack) == |stack[0]| + 1 + StackRoom(stack[1..])
  {
    if |stack| > 1 {
      var n := |stack| - 1;
      StackRoomFront(stack[..n]);
      assert stack[..n][1..] == stack[1..][..n - 1];
    }
  }

  // ----- the laws

  /** What normalising prints: a canonical stack, the fold of the path's names. */
  lemma NormalizeFolds(path: string, size: nat)
    requires Normalize(path, size).Some?
    ensures var absolute := IsAbsolute(path);
            var stack := GoAll([], Components(path), absolute);
            && Normalize(path, size).value == Print(stack, absolute) && |Print(stack, absolute)| < size
            && IsCanonical(stack, absolute) && StackRoom(stack) <= PATH_MAX
            && IsAbsolute(Normalize(path, size).value) == absolute
  {
    var absolute, names := IsAbsolute(path), Components(path);
    ComponentsAreNames(path);
    assert IsCanonical([], absolute);
    GoAllKeepsCanonical([], names, absolute);
    RoomBoundsStack([], names, absolute);
    RelativePrint(GoAll([], names, absolute), absolute);
  }

  lemma RelativePrint(stack: seq<string>, absolute: bool)
    requires AreNames(stack)
    ensures IsAbsolute(Print(stack, absolute)) == absolute && Print(stack, absolute) != ""
  {
    if stack != [] {
      assert IsName(stack[0]);
    }
  }

  /** A canonical path is its own normal form, in any buffer that holds it. */
  lemma CanonicalIsNormal(stack: seq<string>, absolute: bool, size: nat)
    requires IsCanonical(stack, absolute) && StackRoom(stack) <= PATH_MAX && |Print(stack, absolute)| < size
    ensures Normalize(Print(stack, absolute), size) == Some(Print(stack, absolute))
  {
    ComponentsOfPrint(stack, absolute);
    RelativePrint(stack, absolute);
    GoAlongStack(stack, absolute);
    if !absolute && stack == [] {
      GoOne([], ".", absolute);
    }
    hide Components, Print, StackRoom;
  }

  /** Normalising again changes nothing, whatever the buffers. */
  lemma NormalizeTwice(path: string, size: nat, again: nat)
    requires Normalize(path, size).Some? && |Normalize(path, size).value| < again
    ensures Normalize(Normalize(path, size).value, again) == Normalize(path, size)
  {
    NormalizeFolds(path, size);
    CanonicalIsNormal(GoAll([], Components(path), IsAbsolute(path)), IsAbsolute(path), again);
  }

  // ----- the laws, on texts

  lemma OneName(n: string)
    requires IsName(n)
    ensures Components(n) == [n]
  {
    NameThen(n, "");
    assert n + "" == n && Components("") == [] && [n] + [] == [n];
  }

  /** One more name after a path in normal form. */
  lemma OneMore(t: seq<string>, n: string, absolute: bool, size: nat)
    requires IsCanonical(t, absolute) && IsName(n)
    requires StackRoom(t) + Room(t, n, absolute) <= PATH_MAX && |Print(Go(t, n, absolute), absolute)| < size
    ensures Normalize(Print(t, absolute) + ("/" + n), size) == Some(Print(Go(t, n, absolute), absolute))
  {
    var path := Print(t, absolute);
    RelativePrint(t, absolute);
    ComponentsBeside(path, n);
    ComponentsOfPrint(t, absolute);
    OneName(n);
    var names := Components(path);
    GoAlongStack(t, absolute);
    if !absolute && t == [] {
      GoOne([], ".", absolute);
    }
    GoAllSplits([], names, [n], absolute);
    GoOne(t, n, absolute);
    hide Components, Print, StackRoom, GoAll, RoomAll;
    assert (path + ("/" + n))[0] == path[0];
  }

  /** `.` stays where it is. */
  lemma DotStays(t: seq<string>, absolute: bool, size: nat)
    requires IsCanonical(t, absolute) && StackRoom(t) <= PATH_MAX && |Print(t, absolute)| < size
    ensures Normalize(Print(t, absolute) + "/.", size) == Some(Print(t, absolute))
  {
    OneMore(t, ".", absolute, size);
    assert "/." == "/" + ".";
    hide Normalize, Print, StackRoom, IsCanonical;
  }

  /** `..` takes back the last name, whatever is before it. */
  lemma UpTakesBack(t: seq<string>, n: string, absolute: bool, size: nat)
    requires IsCanonical(t + [n], absolute) && n != ".."
    requires StackRoom(t + [n]) <= PATH_MAX && |Print(t, absolute)| < size
    ensures Normalize(Print(t + [n], absolute) + "/..", size) == Some(Print(t, absolute))
  {
    var u := t + [n];
    assert u[..|u| - 1] == t && u[|u| - 1] == n;
    assert Go(u, "..", absolute) == t && Room(u, "..", absolute) == 0;
    assert "/.." == "/" + "..";
    hide Normalize, Print, StackRoom, IsCanonical, Go, Room;
    OneMore(u, "..", absolute, size);
  }

  /** At the root it stays at the root. Nothing at all is no path. */
  lemma UpAtRoot(size: nat)
    requires size > 1
    ensures Normalize("/..", size) == Some("/") && Normalize("", size) == None
  {
    SlashThen("..");
    OneName("..");
    assert "/.." == "/" + "..";
    GoOne([], "..", true);
    assert Print([], true) == "/";
    hide Components, GoAll, RoomAll;
  }

  /** In a relative path with no name to take back it stays in the path. */
  lemma UpStaysUp(t: seq<string>, size: nat)
    requires forall i :: 0 <= i < |t| ==> t[i] == ".."
    requires StackRoom(t) + 3 <= PATH_MAX && |Print(t + [".."], false)| < size
    ensures Normalize(Print(t, false) + "/..", size) == Some(Print(t + [".."], false))
  {
    OneMore(t, "..", false, size);
    assert "/.." == "/" + "..";
    hide Normalize, Print, StackRoom, IsCanonical;
  }

  /** Any other name is added at the end. */
  lemma NameGoesDown(t: seq<string>, n: string, absolute: bool, size: nat)
    requires IsCanonical(t, absolute) && IsName(n) && n != "." && n != ".."
    requires StackRoom(t) + |n| + 1 <= PATH_MAX && |Print(t + [n], absolute)| < size
    ensures Normalize(Print(t, absolute) + ("/" + n), size) == Some(Print(t + [n], absolute))
  {
    OneMore(t, n, absolute, size);
    hide Normalize, Print, StackRoom, IsCanonical;
  }

  /** More slashes than one, or one at the end, make no difference. */
  lemma SlashesMerge(a: string, b: string, size: nat)
    requires a != ""
    ensures Normalize(a + ("/" + ("/" + b)), size) == Normalize(a + ("/" + b), size)
    ensures Normalize(a + "/", size) == Normalize(a, size)
  {
    ComponentsBeside(a, "/" + b);
    SlashThen(b);
    ComponentsBeside(a, b);
    ComponentsBeside(a, "");
    assert Components("") == [] && Components(a) + [] == Components(a) && "/" + "" == "/";
    hide Components, GoAll, RoomAll, Print;
    assert (a + ("/" + ("/" + b)))[0] == (a + ("/" + b))[0] == (a + "/")[0] == a[0];
  }

  /** The printed form: names with single slashes between them, after one slash if absolute; a dot
      when there is nothing else. */
  lemma {:induction false} PrintMeans(t: seq<string>, n: string)
    ensures Print([], true) == "/" && Print([], false) == "."
    ensures Print(t + [n], true) == (if t == [] then "/" else Print(t, true) + "/") + n
    ensures Print(t + [n], false) == (if t == [] then "" else Print(t, false) + "/") + n
    decreases |t|
  {
    if t == [] {
      assert t + [n] == [n];
    } else {
      var more := t + [n];
      assert more[1..] == t[1..] + [n] && more[0] == t[0];
      PrintMeans(t[1..], n);
      if |t| == 1 {
        assert t[1..] == [] && [] + [n] == [n];
      } else {
        var rest := Joined(t[1..]);
        assert Joined(t[1..] + [n]) == rest + "/" + n;
        assert t[0] + "/" + (rest + "/" + n) == (t[0] + "/" + rest) + "/" + n;
      }
      assert Joined(more) == Joined(t) + "/" + n;
      assert "/" + (Joined(t) + "/" + n) == ("/" + Joined(t)) + "/" + n;
    }
  }

  /** A directory in normal form. */
  predicate IsPlace(stack: seq<string>) {
    IsCanonical(stack, true) && |Print(stack, true)| < PATH_MAX
  }

  lemma PlaceRoom(stack: seq<string>)
    ensures |Print(stack, true)| == if stack == [] then 1 else StackRoom(stack)
  {
    JoinedLength(stack);
  }

  /** Resolving a path against a directory is walking the path's names from the directory's stack;
      it fails exactly when the joined text, the pool or the buffer is too small. */
  lemma ResolveWalks(cwd: seq<string>, path: string, size: nat)
    requires IsPlace(cwd)
    ensures var here := Print(cwd, true);
            var from := if IsAbsolute(path) then [] else cwd;
            var stack := GoAll(from, Components(path), true);
            var fits := && (IsAbsolute(path) || path == "" || |here| + |path| + 2 <= PATH_MAX)
                        && StackRoom(from) + RoomAll(from, Components(path), true) <= PATH_MAX
                        && |Print(stack, true)| < size;
            Resolve(here, path, size) == if fits then Some(Print(stack, true)) else None
  {
    var here := Print(cwd, true);
    PlaceRoom(cwd);
    CanonicalIsNormal(cwd, true, PATH_MAX);
    RelativePrint(cwd, true);
    if IsAbsolute(path) {
    } else if path == "" {
      ComponentsOfPrint(cwd, true);
      GoAlongStack(cwd, true);
    } else {
      BesideNames(cwd, path);
      var names := Components(path);
      GoAlongStack(cwd, true);
      GoAllSplits([], cwd, names, true);
    }
    hide Components, GoAll, RoomAll, StackRoom, Print, Beside;
  }

  lemma BesideNames(cwd: seq<string>, path: string)
    requires IsPlace(cwd) && path != ""
    ensures Components(Beside(Print(cwd, true), path)) == cwd + Components(path)
    ensures IsAbsolute(Beside(Print(cwd, true), path))
  {
    var here := Print(cwd, true);
    RelativePrint(cwd, true);
    ComponentsOfPrint(cwd, true);
    RootOnly(cwd);
    if cwd == [] {
      SlashThen(path);
      assert [] + Components(path) == Components(path);
    } else {
      ComponentsBeside(here, path);
      assert here + "/" + path == here + ("/" + path);
    }
    hide Components, Print;
  }

  lemma RootOnly(stack: seq<string>)
    requires AreNames(stack)
    ensures Print(stack, true) == "/" <==> stack == []
  {
    if stack != [] {
      assert IsName(stack[0]);
      assert |Joined(stack)| > 0;
    }
  }

  /** The result of resolving is a directory in normal form again. */
  lemma ResolvedIsPlace(cwd: seq<string>, path: string, size: nat)
    requires IsPlace(cwd) && size <= PATH_MAX && Resolve(Print(cwd, true), path, size).Some?
    ensures IsPlace(GoAll(if IsAbsolute(path) then [] else cwd, Components(path), true))
  {
    ResolveWalks(cwd, path, size);
    ComponentsAreNames(path);
    GoAllKeepsCanonical(if IsAbsolute(path) then [] else cwd, Components(path), true);
    hide Components, GoAll, Resolve, RoomAll;
  }

  /** Different stacks print differently. */
  lemma PrintInjective(s: seq<string>, t: seq<string>)
    requires AreNames(s) && AreNames(t) && Print(s, true) == Print(t, true)
    ensures s == t
  {
    ComponentsOfPrint(s, true);
    ComponentsOfPrint(t, true);
  }

  // ----- what the pool costs

  /** A path taken some times over. */
  function Rounds(path: string, n: nat): string {
    if n == 0 then "" else Rounds(path, n - 1) + ("/" + path)
  }

  /** A path leads back when walking it from the root ends at the root. */
  predicate LeadsBack(path: string) {
    GoAll([], Components(path), true) == []
  }

  lemma {:induction false} RoundsRoom(path: string, n: nat)
    requires LeadsBack(path)
    ensures LeadsBack(Rounds(path, n))
            && RoomAll([], Components(Rounds(path, n)), true) == n * RoomAll([], Components(path), true)
    ensures n > 0 ==> IsAbsolute(Rounds(path, n))
  {
    if n > 0 {
      RoundsRoom(path, n - 1);
      var before := Rounds(path, n - 1);
      ComponentsBeside(before, path);
      GoAllSplits([], Components(before), Components(path), true);
      hide Components, GoAll, RoomAll;
      var room := RoomAll([], Components(path), true);
      assert (n - 1) * room + room == n * room;
    } else {
      assert Components("") == [];
    }
  }

  /** Going back gives no room back: taken often enough, a path to the root is refused although its
      normal form is just the root. */
  lemma RoundsFail(path: string, n: nat)
    requires LeadsBack(path) && n > 0
    ensures Normalize(Rounds(path, n), PATH_MAX)
            == if n * RoomAll([], Components(path), true) <= PATH_MAX then Some("/") else None
  {
    RoundsRoom(path, n);
    assert Print([], true) == "/";
    hide Components, GoAll, RoomAll, Rounds;
  }

  lemma OneRound()
    ensures LeadsBack("a/..") && RoomAll([], Components("a/.."), true) == 2
  {
    NameThen("a", "/..");
    SlashThen("..");
    NameThen("..", "");
    assert "a" + "/.." == "a/.." && "/" + ".." == "/.." && ".." + "" == "..";
    assert Components("a/..") == ["a"] + [".."];
    GoAllSplits([], ["a"], [".."], true);
    GoOne([], "a", true);
    GoOne(["a"], "..", true);
  }

  // ----- no terminator appears in a name

  predicate NoNul(s: string) {
    '\0' !in s
  }

  predicate NoNuls(names: seq<string>) {
    forall i :: 0 <= i < |names| ==> NoNul(names[i])
  }

  lemma {:induction false} ComponentsNoNul(s: string)
    requires NoNul(s)
    ensures NoNuls(Components(s))
    decreases |s|
  {
    if s == "" {
    } else if s[0] == '/' {
      ComponentsNoNul(s[1..]);
    } else {
      NameSplits(s);
      assert forall c :: c in FirstName(s) || c in AfterName(s) ==> c in FirstName(s) + AfterName(s);
      ComponentsNoNul(AfterName(s));
    }
  }

  lemma {:induction false} GoAllNoNul(stack: seq<string>, names: seq<string>, absolute: bool)
    requires NoNuls(stack) && NoNuls(names)
    ensures NoNuls(GoAll(stack, names, absolute))
    decreases |names|
  {
    if names != [] {
      hide NoNul;
      GoAllNoNul(Go(stack, names[0], absolute), names[1..], absolute);
    }
  }

  lemma {:induction false} JoinedNoNul(stack: seq<string>)
    requires NoNuls(stack)
    ensures NoNul(Joined(stack))
  {
    if |stack| > 1 {
      JoinedNoNul(stack[1..]);
    }
  }

  lemma NormalizeNoNul(path: string, size: nat)
    requires NoNul(path) && Normalize(path, size).Some?
    ensures NoNul(Normalize(path, size).value)
  {
    var absolute := IsAbsolute(path);
    ComponentsNoNul(path);
    GoAllNoNul([], Components(path), absolute);
    JoinedNoNul(GoAll([], Components(path), absolute));
  }
}
