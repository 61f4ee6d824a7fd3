/** Where single names lead from a directory, and where its own path does. */
module CdTargets {
  import opened Words
  import opened PathAlgebra
  import opened DirForest
  import opened DirTree

  /** A path in normal form leads where it says, from anywhere. */
  lemma TargetOfPlace(here: seq<string>, t: seq<string>)
    requires IsPlace(here) && IsPlace(t)
    ensures Target(here, Print(t, true)) == Some(t)
  {
    ResolveWalks(here, Print(t, true), PATH_MAX);
    RelativePrint(t, true);
    ComponentsOfPrint(t, true);
    GoAlongStack(t, true);
    PlaceRoom(t);
    assert StackRoom([]) == 0;
    assert t == [] ==> StackRoom(t) == 0;
    hide Resolve, GoAll, Components, StackRoom, RoomAll;
  }

  /** `..` leads to the parent exactly when the path of the directory leaves room for it. */
  lemma UpLeadsToParentIff(up: seq<string>, n: string)
    requires IsPlace(up + [n])
    ensures Target(up + [n], "..") == if |Print(up + [n], true)| + 4 <= PATH_MAX then Some(up) else None
  {
    var here := up + [n];
    assert here[..|here| - 1] == up && here[|here| - 1] == n;
    OneName("..");
    GoOne(here, "..", true);
    PlaceRoom(here);
    PlaceRoom(up);
    StackRoomUp(up, n);
    assert Go(here, "..", true) == up && Room(here, "..", true) == 0;
    ResolveWalks(here, "..", PATH_MAX);
    hide GoAll, RoomAll, StackRoom, Components, Resolve, Go, Room, Print, IsPlace;
  }

  lemma StackRoomUp(up: seq<string>, n: string)
    ensures StackRoom(up + [n]) == StackRoom(up) + |n| + 1
  {
    assert (up + [n])[..|up|] == up;
  }

  /** At the root it leads to the root. */
  lemma RootLeadsToRoot()
    ensures Target([], "..") == Some([])
  {
    OneName("..");
    GoOne([], "..", true);
    PlaceRoom([]);
    ResolveWalks([], "..", PATH_MAX);
    hide Resolve;
  }

  /** `.` leads to where one is, if there is room. */
  lemma DotLeadsHereIff(here: seq<string>)
    requires IsPlace(here)
    ensures Target(here, ".") == if |Print(here, true)| + 3 <= PATH_MAX then Some(here) else None
  {
    OneName(".");
    GoOne(here, ".", true);
    PlaceRoom(here);
    ResolveWalks(here, ".", PATH_MAX);
    hide GoAll, RoomAll, StackRoom, Components, Resolve, Print;
  }

  /** Any other single name leads to the place of that name below, if there is room. */
  lemma NameLeadsBelowIff(here: seq<string>, n: string)
    requires IsPlace(here) && IsName(n) && n != "." && n != ".."
    ensures Target(here, n) == if |Print(here, true)| + |n| + 2 <= PATH_MAX then Some(here + [n]) else None
  {
    OneName(n);
    GoOne(here, n, true);
    PlaceRoom(here);
    PlaceRoom(here + [n]);
    StackRoomUp(here, n);
    assert Go(here, n, true) == here + [n] && Room(here, n, true) == |n| + 1;
    assert here == [] ==> StackRoom(here) == 0;
    ResolveWalks(here, n, PATH_MAX);
    hide GoAll, RoomAll, StackRoom, Components, Resolve, Go, Room, Print, IsPlace;
  }

  lemma {:induction false} SameNamesRoom(n: nat, w: string)
    ensures StackRoom(seq(n, _ => w)) == n * (|w| + 1)
  {
    var s := seq(n, _ => w);
    if n > 0 {
      assert s[..n - 1] == seq(n - 1, _ => w);
      SameNamesRoom(n - 1, w);
    }
  }

  /** A directory so deep that one cannot go up from it by `..`, with names that mkdir takes. */
  lemma DeepCannotGoUp()
    ensures var up, n := seq(7, _ => seq(NAME_MAX, _ => 'a')), seq(28, _ => 'a');
            && IsPlace(up + [n]) && (forall i :: 0 <= i < |up| ==> IsDirName(up[i])) && IsDirName(n)
            && Target(up + [n], "..") == None
  {
    var w, n := seq(NAME_MAX, _ => 'a'), seq(28, _ => 'a');
    var up := seq(7, _ => w);
    assert w[0] != '.' && n[0] != '.';
    assert IsDirName(w) && IsDirName(n);
    assert "."[0] == '.' && ".."[0] == '.';
    SameNamesRoom(7, w);
    StackRoomUp(up, n);
    PlaceRoom(up + [n]);
    assert StackRoom(up + [n]) == 7 * 32 + 29;
    hide StackRoom, Print;
    assert IsPlace(up + [n]);
    UpLeadsToParentIff(up, n);
  }
}
