/** The stack of windows, back to front, in a fixed table. */
module Layers {
  import opened Words
  import opened WmWindow

  const MAX_WINDOWS: nat := 8

  class Window {
    var frame: Rect
    var style: Style
    var titleHash: u32

    constructor Init(titleHash: u32, x: u32, y: u32, width: u32, height: u32)
      ensures Shown() == Look(Rect(x, y, width, height), Style(0xd8d8d8, 0x39699f, 0xf2f4f8, 1, 18), titleHash)
    {
      this.titleHash := titleHash;
      frame := Rect(x, y, width, height);
      style := Style(0xd8d8d8, 0x39699f, 0xf2f4f8, 1, 18);
    }

    function Shown(): Look
      reads this
    {
      Look(frame, style, titleHash)
    }
  }

  // ----- the stack as a sequence

  predicate Distinct<T(==)>(s: seq<T>) {
    forall i, j :: 0 <= i < j < |s| ==> s[i] != s[j]
  }

  function IndexIn<T(==)>(s: seq<T>, x: T): (r: Option<nat>)
    ensures r.Some? <==> x in s
    ensures r.Some? ==> r.value < |s| && s[r.value] == x && x !in s[..r.value]
  {
    if s == [] then None
    else if s[0] == x then Some(0)
    else match IndexIn(s[1..], x)
      case None => None
      case Some(i) => Some(i + 1)
  }

  /** The element at `i` moved to the end, the others in order. */
  function Lifted<T>(s: seq<T>, i: nat): seq<T>
    requires i < |s|
  {
    s[..i] + s[i + 1..] + [s[i]]
  }

  lemma LiftedKeeps<T>(s: seq<T>, i: nat)
    requires i < |s|
    ensures multiset(Lifted(s, i)) == multiset(s)
    ensures Distinct(s) ==> Distinct(Lifted(s, i))
    ensures forall x :: x in Lifted(s, i) <==> x in s
  {
    assert s == s[..i] + [s[i]] + s[i + 1..];
  }

  lemma LiftedLength<T>(s: seq<T>, i: nat)
    requires i < |s|
    ensures |Lifted(s, i)| == |s|
  {
  }

  lemma LiftedIs<T>(s: seq<T>, i: nat, t: seq<T>)
    requires i < |s| == |t|
    requires forall j :: 0 <= j < i ==> t[j] == s[j]
    requires forall j :: i <= j < |s| - 1 ==> t[j] == s[j + 1]
    requires t[|s| - 1] == s[i]
    ensures t == Lifted(s, i)
  {
  }

  class LayerStack {
    const windows: array<Window?>
    var count: nat

    ghost predicate Valid()
      reads this, windows
    {
      && windows.Length == MAX_WINDOWS && count <= MAX_WINDOWS
      && forall i :: 0 <= i < count ==> windows[i] != null
    }

    /** The windows in the stack, back to front. */
    function Stack(): (s: seq<Window>)
      requires Valid()
      reads this, windows
      ensures |s| == count && forall i :: 0 <= i < count ==> s[i] == windows[i]
    {
      seq(count, i requires 0 <= i < count && Valid() reads this, windows => windows[i] as Window)
    }

    constructor Reset()
      ensures Valid() && Stack() == [] && fresh(windows)
    {
      windows := new Window?[MAX_WINDOWS](_ => null);
      count := 0;
    }

    method PushBack(window: Window) returns (ok: bool)
      requires Valid()
      modifies this, windows
      ensures Valid() && ok == (|old(Stack())| < MAX_WINDOWS)
      ensures Stack() == if ok then old(Stack()) + [window] else old(Stack())
    {
      if count >= MAX_WINDOWS {
        return false;
      }
      windows[count] := window;
      count := count + 1;
      return true;
    }

    method IndexOf(window: Window) returns (index: Option<nat>)
      requires Valid()
      ensures index == IndexIn(Stack(), window)
    {
      var i := 0;
      while i < count
        invariant 0 <= i <= count && window !in Stack()[..i]
      {
        if windows[i] == window {
          FirstIndex(Stack(), window, i);
          return Some(i);
        }
        i := i + 1;
      }
      assert Stack()[..i] == Stack();
      return None;
    }

    /** Shift the windows above a place down by one. */
    method ShiftDown(index: nat)
      requires Valid() && index < count
      modifies windows
      ensures Valid()
      ensures forall j :: index <= j < count - 1 ==> Stack()[j] == old(Stack())[j + 1]
      ensures forall j :: 0 <= j < index || j == count - 1 ==> Stack()[j] == old(Stack())[j]
    {
      ghost var was := Stack();
      var i := index;
      while i < count - 1
        invariant index <= i <= count - 1 && Valid()
        invariant forall j :: index <= j < i ==> windows[j] == was[j + 1]
        invariant forall j :: 0 <= j < index || i <= j < count ==> windows[j] == was[j]
      {
        windows[i] := windows[i + 1];
        i := i + 1;
      }
    }

    /** Shift the windows above a place down and put the window on top. */
    method LiftAt(index: nat)
      requires Valid() && index < count
      modifies windows
      ensures Valid() && Stack() == Lifted(old(Stack()), index)
    {
      hide Lifted;
      ghost var was := Stack();
      var moving := windows[index];
      ShiftDown(index);
      windows[count - 1] := moving;
      LiftedIs(was, index, Stack());
    }

    method MoveToFront(window: Window) returns (ok: bool)
      requires Valid()
      modifies windows
      ensures Valid() && ok == (window in old(Stack()))
      ensures Stack() == if ok then Lifted(old(Stack()), IndexIn(old(Stack()), window).value) else old(Stack())
    {
      if count == 0 {
        return false;
      }
      var found := IndexOf(window);
      hide IndexIn, Lifted;
      if found.None? {
        return false;
      }
      if found.value == count - 1 {
        LiftedIs(Stack(), count - 1, Stack());
        return true;
      }
      LiftAt(found.value);
      return true;
    }
  }

  lemma FirstIndex<T>(s: seq<T>, x: T, i: nat)
    requires i < |s| && s[i] == x && x !in s[..i]
    ensures IndexIn(s, x) == Some(i)
  {
  }
}
