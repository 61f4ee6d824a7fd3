/** Windows: frame, style, and the rectangles and colours they give. */
module WmWindow {
  import opened Words

  datatype Rect = Rect(x: u32, y: u32, width: u32, height: u32)

  datatype Style = Style(borderColor: u32, titleBarColor: u32, contentColor: u32, borderThickness: u32,
                         titleBarHeight: u32)

  /** All of a window that drawing and hit testing look at. The hash of the title is any 32-bit
      number here. */
  datatype Look = Look(frame: Rect, style: Style, titleHash: u32)

  /** The pixels a rectangle covers, with edges that do not wrap. */
  predicate InRect(r: Rect, x: nat, y: nat) {
    r.x <= x < r.x + r.width && r.y <= y < r.y + r.height
  }

  function SaturatingAdd(a: u32, b: u32): (r: u32)
    ensures r == Min(a + b, U32_LIMIT - 1)
  {
    if (a + b) % U32_LIMIT < a then U32_LIMIT - 1 else (a + b) % U32_LIMIT
  }

  function SafeSub(value: u32, subtractor: u32): (r: u32)
    ensures r == Max(value - subtractor, 0)
  {
    if value <= subtractor then 0 else value - subtractor
  }

  function EffectiveBorder(look: Look): (border: u32)
    ensures 2 * border <= look.frame.width && 2 * border <= look.frame.height
  {
    Min(look.style.borderThickness, Min(look.frame.width / 2, look.frame.height / 2))
  }

  function TitleBar(look: Look): Rect {
    if look.frame.width == 0 || look.frame.height == 0 then Rect(0, 0, 0, 0)
    else
      var border := EffectiveBorder(look);
      Rect(SaturatingAdd(look.frame.x, border),
           SaturatingAdd(look.frame.y, border),
           SafeSub(SafeSub(look.frame.width, border), border),
           Min(look.style.titleBarHeight, SafeSub(SafeSub(look.frame.height, border), border)))
  }

  function Content(look: Look): Rect {
    if look.frame.height == 0 then Rect(0, 0, 0, 0)
    else
      var bar, border := TitleBar(look), EffectiveBorder(look);
      Rect(bar.x, SaturatingAdd(bar.y, bar.height), bar.width,
           SafeSub(SafeSub(SafeSub(look.frame.height, border), border), bar.height))
  }

  predicate IsValid(look: Look) {
    && look.frame.width != 0 && look.frame.height != 0
    && TitleBar(look).width != 0 && TitleBar(look).height != 0
    && Content(look).width != 0 && Content(look).height != 0
  }

  predicate HasAccent(look: Look) {
    TitleBar(look).width > 8 && TitleBar(look).height > 4
  }

  function AccentWidth(look: Look): (width: u32)
    requires HasAccent(look)
    ensures 8 <= width < TitleBar(look).width
  {
    8 + look.titleHash % (TitleBar(look).width - 8)
  }

  /** The accent line under the top of the title bar; its corner is computed without care for
      wrap-around. */
  function Accent(look: Look): Rect
    requires HasAccent(look)
  {
    var bar := TitleBar(look);
    Rect((bar.x + 4) % U32_LIMIT, (bar.y + 4) % U32_LIMIT, AccentWidth(look) - 4, 1)
  }

  /** The colour bits of the accent line. */
  function AccentColor(look: Look): u32 {
    var h := look.titleHash;
    // 0x00202020 | (h & 0x000f0f0f): the low half of each of three bytes, over a fixed high half.
    (0x20 + h / 0x10000 % 16) * 0x10000 + (0x20 + h / 0x100 % 16) * 0x100 + (0x20 + h % 16)
  }

  // ----- colours

  predicate InAccent(look: Look, x: nat, y: nat) {
    HasAccent(look) && InRect(Accent(look), x, y)
  }

  /** The colour a window gives a point of its frame. */
  function Shade(look: Look, x: nat, y: nat): u32 {
    if InAccent(look, x, y) then AccentColor(look)
    else if InRect(Content(look), x, y) then look.style.contentColor
    else if InRect(TitleBar(look), x, y) then look.style.titleBarColor
    else look.style.borderColor
  }

  /** The colour of a point after a window was drawn over the colour `under`. */
  function Over(look: Look, x: nat, y: nat, under: u32): u32 {
    if !IsValid(look) then under
    else if InAccent(look, x, y) then AccentColor(look)
    else if InRect(Content(look), x, y) then look.style.contentColor
    else if InRect(TitleBar(look), x, y) then look.style.titleBarColor
    else if InRect(look.frame, x, y) then look.style.borderColor
    else under
  }

  // ----- where the parts lie

  lemma TitleBarLies(look: Look)
    requires look.frame.width != 0 && look.frame.height != 0
    ensures var bar, border := TitleBar(look), EffectiveBorder(look);
            && bar.x == Min(look.frame.x + border, U32_LIMIT - 1)
            && bar.y == Min(look.frame.y + border, U32_LIMIT - 1)
            && bar.width == look.frame.width - 2 * border
            && bar.height <= look.frame.height - 2 * border
  {
    hide SaturatingAdd, SafeSub, EffectiveBorder;
  }

  lemma ContentLies(look: Look)
    requires look.frame.width != 0 && look.frame.height != 0
    ensures var bar, content, border := TitleBar(look), Content(look), EffectiveBorder(look);
            && content.x == bar.x && content.width == bar.width
            && content.y == Min(bar.y + bar.height, U32_LIMIT - 1)
            && content.height == look.frame.height - 2 * border - bar.height
  {
    TitleBarLies(look);
    hide SaturatingAdd, SafeSub, EffectiveBorder, TitleBar;
  }

  // ----- what a window looks like, from its frame and style alone

  /** A window is valid exactly when its style asks for a title bar and its frame has room, inside
      the border, for the whole bar and something below it. */
  lemma ValidIff(look: Look)
    ensures var f, t := look.frame, look.style.borderThickness;
            var border := Min(t, Min(f.width / 2, f.height / 2));
            IsValid(look) <==>
              && look.style.titleBarHeight > 0
              && f.width > 2 * border && f.height > 2 * border + look.style.titleBarHeight
  {
  }

  /** The border of a valid window is as thick as its style asks, but no thicker than half the
      frame; then comes the title bar over the whole width, and below it the content. */
  lemma PartsAre(look: Look)
    requires IsValid(look)
    ensures var f := look.frame;
            var border := Min(look.style.borderThickness, Min(f.width / 2, f.height / 2));
            var bar, content := TitleBar(look), Content(look);
            && 2 * border <= f.width && 2 * border <= f.height
            && bar.x == Min(f.x + border, U32_LIMIT - 1) && bar.y == Min(f.y + border, U32_LIMIT - 1)
            && bar.width == f.width - 2 * border && bar.height == look.style.titleBarHeight
            && content.x == bar.x && content.width == bar.width
            && content.y == Min(bar.y + bar.height, U32_LIMIT - 1)
            && content.height == f.height - 2 * border - bar.height
  {
    ValidIff(look);
    TitleBarLies(look);
    ContentLies(look);
    hide IsValid, Content, SaturatingAdd;
  }

  /** Where the corners of the parts are 32-bit numbers. */
  predicate CornersFit(look: Look) {
    var border := Min(look.style.borderThickness, Min(look.frame.width / 2, look.frame.height / 2));
    look.frame.x + border < U32_LIMIT && look.frame.y + border + look.style.titleBarHeight < U32_LIMIT
  }

  /** The parts as the style asks for them: title bar and content at these distances from the edges
      of the frame, and between them and the edges the border. */
  predicate PartsAt(look: Look, x: nat, y: nat)
    requires InRect(look.frame, x, y)
  {
    var f, s := look.frame, look.style;
    var border := Min(s.borderThickness, Min(f.width / 2, f.height / 2));
    var within, below := border <= x - f.x < f.width - border, y - f.y - border;
    && (InRect(TitleBar(look), x, y) <==> within && 0 <= below < s.titleBarHeight)
    && (InRect(Content(look), x, y) <==> within && s.titleBarHeight <= below < f.height - 2 * border)
  }

  /** They lie so, for every point of the frame, exactly when their corners are 32-bit numbers;
      otherwise a corner is moved to the last coordinate there is, into the border. */
  lemma PartsAtIff(look: Look)
    requires IsValid(look)
    ensures CornersFit(look) <==> forall x: u32, y: u32 :: InRect(look.frame, x, y) ==> PartsAt(look, x, y)
  {
    PartsAre(look);
    var bar, content := TitleBar(look), Content(look);
    hide TitleBar, Content, IsValid;
    if !CornersFit(look) {
      assert InRect(look.frame, bar.x, bar.y) && InRect(look.frame, bar.x, content.y);
      assert !PartsAt(look, bar.x, bar.y) || !PartsAt(look, bar.x, content.y);
    }
  }

  /** A valid window, without an accent line, whose corners do not fit. */
  lemma CornersNeedNotFit()
    ensures var look := Look(Rect(0xfffffffe, 0, 40, 40), Style(1, 2, 3, 4, 4), 0);
            IsValid(look) && AccentStays(look) && !CornersFit(look)
  {
  }

  /** The colour at each distance from the edges of the frame, as long as the corners of the parts
      are 32-bit numbers: a border all around, the title bar with its accent line, the content. */
  lemma ShadeMeans(look: Look, dx: nat, dy: nat)
    requires IsValid(look) && dx < look.frame.width && dy < look.frame.height
    requires CornersFit(look) && AccentStays(look)
    ensures var f, s := look.frame, look.style;
            var border := Min(s.borderThickness, Min(f.width / 2, f.height / 2));
            var inner := f.width - 2 * border;
            Shade(look, f.x + dx, f.y + dy) ==
              if dx < border || f.width - dx <= border || dy < border || f.height - dy <= border then s.borderColor
              else if dy >= border + s.titleBarHeight then s.contentColor
              else if && inner > 8 && s.titleBarHeight > 4 && dy == border + 4
                      && border + 4 <= dx < border + 8 + look.titleHash % (inner - 8) then AccentColor(look)
              else s.titleBarColor
  {
    PartsAre(look);
    InAccentMeans(look, look.frame.x + dx, look.frame.y + dy);
    hide TitleBar, Content, IsValid, AccentColor, InAccent, AccentWidth, AccentStays;
  }

  lemma InAccentMeans(look: Look, x: nat, y: nat)
    requires AccentStays(look)
    ensures var bar := TitleBar(look);
            InAccent(look, x, y) <==>
              bar.width > 8 && bar.height > 4 && y == bar.y + 4
              && bar.x + 4 <= x < bar.x + 8 + look.titleHash % (bar.width - 8)
  {
    hide TitleBar;
  }

  /** The colour of the accent line is a dark one: each of its three bytes is 0x20 and some, by the
      low half of the same byte of the title's hash. */
  lemma AccentColorMeans(look: Look)
    ensures var c, h := AccentColor(look), look.titleHash;
            && c < 0x100_0000
            && 0x20 <= c % 0x100 < 0x30 && c % 0x10 == h % 0x10
            && 0x20 <= c / 0x100 % 0x100 < 0x30 && c / 0x100 % 0x10 == h / 0x100 % 0x10
            && 0x20 <= c / 0x1_0000 < 0x30 && c / 0x1_0000 % 0x10 == h / 0x1_0000 % 0x10
  {
    var h := look.titleHash;
    var high, mid, low := h / 0x1_0000 % 0x10, h / 0x100 % 0x10, h % 0x10;
    assert AccentColor(look) == (0x20 + high) * 0x1_0000 + (0x20 + mid) * 0x100 + (0x20 + low);
    hide AccentColor;
    BytesOf(0x20 + high, 0x20 + mid, 0x20 + low);
    LowHalf(high);
    LowHalf(mid);
    LowHalf(low);
  }

  lemma BytesOf(high: nat, mid: nat, low: nat)
    requires high < 0x100 && mid < 0x100 && low < 0x100
    ensures var c := high * 0x1_0000 + mid * 0x100 + low;
            && c < 0x100_0000 && c % 0x100 == low && c / 0x100 % 0x100 == mid && c / 0x1_0000 == high
            && c % 0x10 == low % 0x10 && c / 0x100 % 0x10 == mid % 0x10
  {
    var c := high * 0x1_0000 + mid * 0x100 + low;
    assert c / 0x100 == high * 0x100 + mid;
  }

  lemma LowHalf(n: nat)
    requires n < 0x10
    ensures (0x20 + n) % 0x10 == n
  {
  }

  /** Title bar and content lie inside the frame. */
  lemma PartsInside(look: Look, x: u32, y: u32)
    requires IsValid(look)
    ensures InRect(TitleBar(look), x, y) ==> InRect(look.frame, x, y)
    ensures InRect(Content(look), x, y) ==> InRect(look.frame, x, y)
  {
    TitleBarLies(look);
    ContentLies(look);
    hide TitleBar, Content, EffectiveBorder;
  }

  /** The corner of the accent line does not wrap. */
  predicate AccentStays(look: Look) {
    HasAccent(look) ==> TitleBar(look).x + 4 < U32_LIMIT && TitleBar(look).y + 4 < U32_LIMIT
  }

  /** A frame whose right and bottom edges are 32-bit numbers is enough for that. */
  lemma EdgesFitStays(look: Look)
    requires look.frame.x + look.frame.width <= U32_LIMIT && look.frame.y + look.frame.height <= U32_LIMIT
    ensures AccentStays(look)
  {
  }

  lemma AccentInTitleBar(look: Look, x: nat, y: nat)
    requires AccentStays(look) && InAccent(look, x, y)
    ensures InRect(TitleBar(look), x, y)
  {
    hide TitleBar, AccentWidth;
  }

  /** A corner that wraps lands outside the frame. */
  lemma WrappedOutside(look: Look)
    requires HasAccent(look) && !AccentStays(look)
    ensures InAccent(look, Accent(look).x, Accent(look).y)
    ensures !InRect(look.frame, Accent(look).x, Accent(look).y)
  {
    var bar, corner := TitleBar(look), Accent(look);
    TitleBarLies(look);
    FourOn(bar.x);
    FourOn(bar.y);
    assert corner.x == (bar.x + 4) % U32_LIMIT && corner.y == (bar.y + 4) % U32_LIMIT;
    assert corner.width >= 4 && corner.height == 1;
    hide AccentWidth, TitleBar, EffectiveBorder, Accent;
  }

  lemma FourOn(x: u32)
    ensures (x + 4) % U32_LIMIT == if x + 4 < U32_LIMIT then x + 4 else x + 4 - U32_LIMIT
  {
  }

  /** What a window paints stays inside its frame exactly when the accent line's corner does not
      wrap around. */
  lemma AccentInsideIff(look: Look)
    requires IsValid(look)
    ensures AccentStays(look) <==> forall x: u32, y: u32 :: InAccent(look, x, y) ==> InRect(look.frame, x, y)
  {
    if AccentStays(look) {
      forall x: u32, y: u32 | InAccent(look, x, y) ensures InRect(look.frame, x, y) {
        AccentInTitleBar(look, x, y);
        PartsInside(look, x, y);
      }
    } else {
      WrappedOutside(look);
    }
  }

  lemma Leaks(look: Look, x: u32, y: u32, under: u32)
    requires IsValid(look) && InAccent(look, x, y) && !InRect(look.frame, x, y) && under != AccentColor(look)
    ensures Over(look, x, y, under) != if InRect(look.frame, x, y) then Shade(look, x, y) else under
  {
  }

  /** Drawing a valid window changes exactly the points of its frame, to its own colours, whatever
      lies below, if and only if the accent line's corner does not wrap around. */
  lemma OverIff(look: Look)
    requires IsValid(look)
    ensures AccentStays(look) <==>
            forall x: u32, y: u32, under: u32 ::
              Over(look, x, y, under) == if InRect(look.frame, x, y) then Shade(look, x, y) else under
  {
    AccentInsideIff(look);
    if AccentStays(look) {
      forall x: u32, y: u32, under: u32
        ensures Over(look, x, y, under) == if InRect(look.frame, x, y) then Shade(look, x, y) else under
      {
        hide Content, TitleBar, IsValid, AccentStays, InAccent;
        PartsInside(look, x, y);
      }
    } else {
      WrappedOutside(look);
      Leaks(look, Accent(look).x, Accent(look).y, 0);
    }
  }
}
