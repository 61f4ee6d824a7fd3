/** Painting the stack and finding the window under a point. */
module Compositors {
  import opened Words
  import opened WmWindow
  import opened Framebuffers
  import opened Layers

  // ----- the picture

  /** The colour of a point after all windows were painted, back to front. */
  function Painted(looks: seq<Look>, background: u32, x: nat, y: nat): u32 {
    if looks == [] then background
    else Over(looks[|looks| - 1], x, y, Painted(looks[..|looks| - 1], background, x, y))
  }

  /** The frontmost window whose frame holds the point. */
  function TopAt(looks: seq<Look>, x: nat, y: nat): (r: Option<nat>)
    ensures r.Some? ==> r.value < |looks| && InRect(looks[r.value].frame, x, y)
    ensures r.Some? ==> forall i :: r.value < i < |looks| ==> !InRect(looks[i].frame, x, y)
    ensures r.None? ==> forall i :: 0 <= i < |looks| ==> !InRect(looks[i].frame, x, y)
  {
    if looks == [] then None
    else if InRect(looks[|looks| - 1].frame, x, y) then Some(|looks| - 1)
    else TopAt(looks[..|looks| - 1], x, y)
  }

  predicate Proper(look: Look) {
    IsValid(look) && AccentStays(look)
  }

  /** What a user sees is what a click hits: each point shows the background where no window is hit,
      and otherwise what the window hit alone would paint there. */
  lemma {:induction false} PaintedIsHit(looks: seq<Look>, background: u32, x: u32, y: u32)
    requires forall i :: 0 <= i < |looks| ==> Proper(looks[i])
    ensures Painted(looks, background, x, y) ==
            match TopAt(looks, x, y)
            case None => background
            case Some(i) => Shade(looks[i], x, y)
  {
    if looks != [] {
      var below := looks[..|looks| - 1];
      PaintedIsHit(below, background, x, y);
      OverIff(looks[|looks| - 1]);
    }
  }

  /** A window whose accent line wraps around breaks this: one such window alone paints a point
      that is not hit. */
  lemma WrappedAccentIsNotHit(look: Look)
    requires IsValid(look) && !AccentStays(look)
    ensures exists x: u32, y: u32, background: u32 ::
              TopAt([look], x, y) == None && Painted([look], background, x, y) != background
  {
    WrappedOutside(look);
    var x, y := Accent(look).x, Accent(look).y;
    assert [look][..0] == [];
    assert TopAt([look], x, y) == None && Painted([look], 0, x, y) != 0;
  }

  /** There is such a window: at the right edge of the 32-bit range. */
  lemma WrappedAccentExists()
    ensures var look := Look(Rect(0xfffffffd, 0, 40, 40), Style(1, 2, 3, 1, 18), 0); IsValid(look) && !AccentStays(look)
  {
  }

  // ----- raising a window

  lemma {:induction false} TopOfAppend(looks: seq<Look>, top: Look, x: nat, y: nat)
    ensures TopAt(looks + [top], x, y) == if InRect(top.frame, x, y) then Some(|looks|) else TopAt(looks, x, y)
  {
    assert (looks + [top])[..|looks|] == looks;
  }

  /** Raising the window that was hit keeps it the one that is hit there, now in front. */
  lemma RaisedIsHit(looks: seq<Look>, i: nat, x: nat, y: nat)
    requires TopAt(looks, x, y) == Some(i)
    ensures TopAt(Lifted(looks, i), x, y) == Some(|looks| - 1) && Lifted(looks, i)[|looks| - 1] == looks[i]
  {
    TopOfAppend(looks[..i] + looks[i + 1..], looks[i], x, y);
  }

  /** Raising a window changes the picture only inside its frame. */
  lemma RaisedElsewhere(looks: seq<Look>, background: u32, i: nat, x: u32, y: u32)
    requires i < |looks| && !InRect(looks[i].frame, x, y)
    requires forall j :: 0 <= j < |looks| ==> Proper(looks[j])
    ensures Painted(Lifted(looks, i), background, x, y) == Painted(looks, background, x, y)
  {
    RemoveUnseen(looks, background, i, x, y);
    var rest := looks[..i] + looks[i + 1..];
    assert Lifted(looks, i)[..|rest|] == rest;
    OverIff(looks[i]);
  }

  lemma {:induction false} RemoveUnseen(looks: seq<Look>, background: u32, i: nat, x: u32, y: u32)
    requires i < |looks| && !InRect(looks[i].frame, x, y) && Proper(looks[i])
    ensures Painted(looks[..i] + looks[i + 1..], background, x, y) == Painted(looks, background, x, y)
  {
    var last := |looks| - 1;
    OverIff(looks[i]);
    if i == last {
      assert looks[..i] + looks[i + 1..] == looks[..last];
    } else {
      var below, rest := looks[..last], looks[..i] + looks[i + 1..];
      RemoveUnseen(below, background, i, x, y);
      assert rest[..|rest| - 1] == below[..i] + below[i + 1..];
    }
  }

  // ----- the compositor

  class Compositor {
    const layers: LayerStack
    const fb: Framebuffer
    var background: u32
    var active: Window?

    ghost predicate Valid()
      reads this, layers, layers.windows
    {
      && layers.Valid() && fb.Valid()
      && Distinct(layers.Stack())
      && (active != null ==> active in layers.Stack())
    }

    ghost function Looks(): (looks: seq<Look>)
      requires layers.Valid()
      reads this, layers, layers.windows, layers.Stack()
      ensures |looks| == |layers.Stack()| && forall i :: 0 <= i < |looks| ==> looks[i] == layers.Stack()[i].Shown()
    {
      var stack := layers.Stack();
      seq(|stack|, i requires 0 <= i < |stack| reads stack => stack[i].Shown())
    }

    constructor Init(fb: Framebuffer, background: u32)
      requires fb.Valid()
      ensures Valid() && this.fb == fb && this.background == background
      ensures layers.Stack() == [] && active == null && fresh(layers) && fresh(layers.windows)
    {
      this.fb, this.background, active := fb, background, null;
      layers := new LayerStack.Reset();
    }

    /** Refused: a window that cannot be drawn, one that is there already, one too many. */
    method AddWindow(window: Window) returns (ok: bool)
      requires Valid()
      modifies this`active, layers, layers.windows
      ensures Valid()
      ensures ok <==> IsValid(window.Shown()) && window !in old(layers.Stack()) && |old(layers.Stack())| < MAX_WINDOWS
      ensures ok ==> layers.Stack() == old(layers.Stack()) + [window] && active == window
      ensures !ok ==> layers.Stack() == old(layers.Stack()) && active == old(active)
    {
      if !IsValid(window.Shown()) {
        return false;
      }
      var present := layers.IndexOf(window);
      if present.Some? {
        return false;
      }
      var pushed := layers.PushBack(window);
      if !pushed {
        return false;
      }
      active := window;
      return true;
    }

    method ActivateWindow(window: Window) returns (ok: bool)
      requires Valid()
      modifies this`active, layers.windows
      ensures Valid() && ok == (window in old(layers.Stack()))
      ensures ok ==>
                layers.Stack() == Lifted(old(layers.Stack()), IndexIn(old(layers.Stack()), window).value)
                && active == window
      ensures !ok ==> layers.Stack() == old(layers.Stack()) && active == old(active)
    {
      hide Lifted, Distinct, IndexIn;
      ghost var stack := layers.Stack();
      if window in stack {
        LiftedKeeps(stack, IndexIn(stack, window).value);
      }
      var moved := layers.MoveToFront(window);
      if !moved {
        return false;
      }
      active := window;
      return true;
    }

    /** Top down: the first window whose frame holds the point. */
    method HitTest(x: u32, y: u32) returns (hit: Window?)
      requires Valid()
      ensures hit == match TopAt(Looks(), x, y) case None => null case Some(i) => layers.Stack()[i]
    {
      hide TopAt;
      var i := layers.count;
      while i > 0
        invariant 0 <= i <= |Looks()|
        invariant TopAt(Looks(), x, y) == TopAt(Looks()[..i], x, y)
      {
        i := i - 1;
        hit := layers.windows[i];
        if InRect(hit.frame, x, y) {
          return;
        }
      }
      hit := null;
    }

    /** Frame, title bar, content and accent line, each over the one before. */
    method DrawWindow(window: Window)
      requires fb.Valid()
      modifies fb.pixels
      ensures forall k :: 0 <= k < fb.pixels.Length ==>
                fb.pixels[k] == if fb.OnScreen(k)
                                then Over(window.Shown(), Column(k, fb.stride), Row(k, fb.stride), old(fb.pixels[k]))
                                else old(fb.pixels[k])
    {
      var look := window.Shown();
      if !IsValid(look) {
        return;
      }
      hide TitleBar, Content, Row, Column, AccentWidth, AccentColor, InRect;
      fb.FillRect(look.frame, look.style.borderColor);
      var titleBar := TitleBar(look);
      if titleBar.width != 0 && titleBar.height != 0 {
        fb.FillRect(titleBar, look.style.titleBarColor);
      }
      var content := Content(look);
      if content.width != 0 && content.height != 0 {
        fb.FillRect(content, look.style.contentColor);
      }
      if HasAccent(look) {
        fb.FillRect(Accent(look), AccentColor(look));
      }
    }

    /** Clear the screen, then draw the windows back to front. */
    method PaintAll()
      requires Valid()
      modifies fb.pixels
      ensures forall k :: 0 <= k < fb.pixels.Length ==>
                fb.pixels[k] == if fb.OnScreen(k)
                                then Painted(Looks(), background, Column(k, fb.stride), Row(k, fb.stride))
                                else old(fb.pixels[k])
    {
      hide Row, Column, Over, Distinct;
      ghost var looks, was := Looks(), fb.pixels[..];
      fb.FillRect(Rect(0, 0, fb.width, fb.height), background);
      var i := 0;
      while i < layers.count
        invariant 0 <= i <= |looks| && Looks() == looks
        invariant forall k :: 0 <= k < fb.pixels.Length ==>
                    fb.pixels[k] == if fb.OnScreen(k)
                      then Painted(looks[..i], background, Column(k, fb.stride), Row(k, fb.stride))
                                    else was[k]
      {
        assert looks[..i + 1][..i] == looks[..i];
        DrawWindow(layers.windows[i]);
        i := i + 1;
      }
      assert looks[..i] == looks;
    }

    /** Every pixel of the screen shows the picture, and when no accent line wraps around the
        picture is the one hit testing sees. */
    method Render()
      requires Valid()
      modifies fb.pixels
      ensures forall k :: 0 <= k < fb.pixels.Length ==>
                fb.pixels[k] == if fb.OnScreen(k)
                                then Painted(Looks(), background, Column(k, fb.stride), Row(k, fb.stride))
                                else old(fb.pixels[k])
      ensures (forall i :: 0 <= i < |Looks()| ==> Proper(Looks()[i])) ==>
                forall x, y :: 0 <= x < fb.width && 0 <= y < fb.height ==>
                  fb.Pixel(x, y) == match TopAt(Looks(), x, y)
                                    case None => background
                                    case Some(i) => Shade(Looks()[i], x, y)
    {
      hide Row, Column, Over, Proper, Shade, TopAt, Painted, Distinct;
      PaintAll();
      ghost var looks := Looks();
      if forall i :: 0 <= i < |looks| ==> Proper(looks[i]) {
        forall x, y | 0 <= x < fb.width && 0 <= y < fb.height
          ensures fb.Pixel(x, y) == match TopAt(looks, x, y)
                                    case None => background
                                    case Some(i) => Shade(looks[i], x, y)
        {
          PlaceOf(x, y, fb.stride);
          RowFits(y, x + 1, fb.stride, fb.height, fb.pixels.Length);
          PaintedIsHit(looks, background, x, y);
        }
      }
    }

    /** Raise the window at a place of the stack. */
    method ActivatePlace(ghost i: nat, window: Window)
      requires Valid() && i < |layers.Stack()| && window == layers.Stack()[i]
      modifies this`active, layers.windows
      ensures Valid() && layers.Stack() == Lifted(old(layers.Stack()), i) && active == window
      ensures Looks() == Lifted(old(Looks()), i)
    {
      ghost var looks, stack := Looks(), layers.Stack();
      DistinctIndex(stack, i);
      hide Lifted, IndexIn;
      var ok := ActivateWindow(window);
      hide LayerStack.Valid, Compositor.Valid, Distinct;
      LooksLifted(stack, looks, i);
    }

    /** A click raises the window it hits, which then is the one in front and the active one. */
    method ActivateAt(x: u32, y: u32) returns (ok: bool)
      requires Valid()
      modifies this`active, layers.windows
      ensures Valid()
      ensures match old(TopAt(Looks(), x, y))
              case None => !ok && layers.Stack() == old(layers.Stack()) && active == old(active)
              case Some(i) => ok && layers.Stack() == Lifted(old(layers.Stack()), i) && active == old(layers.Stack())[i]
      ensures ok ==> TopAt(Looks(), x, y) == Some(|layers.Stack()| - 1)
    {
      hide TopAt, Lifted, Distinct;
      ghost var looks := Looks();
      var window := HitTest(x, y);
      if window == null {
        return false;
      }
      ghost var i := TopAt(looks, x, y).value;
      ActivatePlace(i, window);
      RaisedIsHit(looks, i, x, y);
      LiftedLength(looks, i);
      return true;
    }

    /** When the windows were reordered, so were the looks. */
    lemma LooksLifted(stack: seq<Window>, looks: seq<Look>, i: nat)
      requires layers.Valid() && i < |stack| == |looks| && layers.Stack() == Lifted(stack, i)
      requires forall j :: 0 <= j < |stack| ==> looks[j] == stack[j].Shown()
      ensures Looks() == Lifted(looks, i)
    {
    }
  }

  lemma DistinctIndex<T>(s: seq<T>, i: nat)
    requires Distinct(s) && i < |s|
    ensures IndexIn(s, s[i]) == Some(i)
  {
    FirstIndex(s, s[i], i);
  }
}
