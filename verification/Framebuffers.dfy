/** A strided pixel buffer. */
module Framebuffers {
  import opened Words
  import opened WmWindow

  /** Row and column of a place in the buffer. */
  function Row(k: nat, stride: nat): nat
    requires 0 < stride
  {
    k / stride
  }

  function Column(k: nat, stride: nat): nat
    requires 0 < stride
  {
    k % stride
  }

  function Place(x: nat, y: nat, stride: nat): nat {
    y * stride + x
  }

  /** Places and points correspond one to one. */
  lemma PlaceOf(x: nat, y: nat, stride: nat)
    requires x < stride
    ensures Row(Place(x, y, stride), stride) == y && Column(Place(x, y, stride), stride) == x
  {
    var k := y * stride + x;
    var q := k / stride;
    assert k == q * stride + k % stride;
    if q < y {
      TimesGrows(q + 1, y, stride);
    } else if q > y {
      TimesGrows(y + 1, q, stride);
    }
  }

  lemma PlaceBack(k: nat, stride: nat)
    requires 0 < stride
    ensures k == Place(Column(k, stride), Row(k, stride), stride) && Column(k, stride) < stride
  {
  }

  /** A run of places in one row. */
  lemma RunInRow(k: nat, stride: nat, row: nat, left: nat, right: nat)
    requires left <= right <= stride && 0 < stride
    ensures row * stride + left <= k < row * stride + right <==>
            Row(k, stride) == row && left <= Column(k, stride) < right
  {
    PlaceBack(k, stride);
    if row * stride + left <= k < row * stride + right {
      PlaceOf(k - row * stride, row, stride);
    }
  }

  lemma RowFits(row: nat, x: nat, stride: nat, height: nat, length: nat)
    requires row < height && x <= stride && height * stride <= length
    ensures row * stride + x <= length
  {
    assert (row + 1) * stride <= height * stride;
  }

  class Framebuffer {
    const pixels: array<u32>
    const width: u32
    const height: u32
    const stride: u32

    constructor Init(width: u32, height: u32, stride: u32)
      requires 0 < width <= stride && 0 < height && height * stride < U32_LIMIT
      ensures Valid() && fresh(pixels)
      ensures this.width == width && this.height == height && this.stride == stride
    {
      this.width, this.height, this.stride := width, height, stride;
      pixels := new u32[height * stride](_ => 0);
    }

    predicate Valid() {
      0 < width <= stride && 0 < height && height * stride <= pixels.Length < U32_LIMIT
    }

    predicate OnScreen(k: nat) {
      0 < stride && Column(k, stride) < width && Row(k, stride) < height
    }

    /** The pixel of a point of the screen. */
    function Pixel(x: nat, y: nat): u32
      requires Valid() && x < width && y < height
      reads pixels
    {
      RowFits(y, x + 1, stride, height, pixels.Length);
      pixels[Place(x, y, stride)]
    }

    /** Clip, then fill row by row: exactly the pixels of the rectangle that are on the screen
        change; the places between the rows do not. */
    method FillRect(r: Rect, color: u32)
      requires Valid()
      modifies pixels
      ensures forall k :: 0 <= k < pixels.Length ==>
                pixels[k] == if OnScreen(k) && InRect(r, Column(k, stride), Row(k, stride)) then color
                  else old(pixels[k])
    {
      hide Row, Column;
      if r.width == 0 || r.height == 0 {
        return;
      }
      if r.x >= width || r.y >= height {
        return;
      }
      var maxX := (r.x + r.width) % U32_LIMIT;
      if maxX < r.x || maxX > width {
        maxX := width;
      }
      var maxY := (r.y + r.height) % U32_LIMIT;
      if maxY < r.y || maxY > height {
        maxY := height;
      }
      assert maxX == Min(r.x + r.width, width) && maxY == Min(r.y + r.height, height);
      ghost var was := pixels[..];
      var row := r.y;
      while row < maxY
        invariant r.y <= row <= maxY
        invariant forall k :: 0 <= k < pixels.Length ==>
                    pixels[k] == if r.y <= Row(k, stride) < row && r.x <= Column(k, stride) < maxX then color
                      else was[k]
      {
        FillRun(row, r.x, maxX, color);
        row := row + 1;
      }
    }

    /** One row of a rectangle. */
    method FillRun(row: nat, left: nat, right: nat, color: u32)
      requires Valid() && row < height && left <= right <= width
      modifies pixels
      ensures forall k :: 0 <= k < pixels.Length ==>
                pixels[k] == if Row(k, stride) == row && left <= Column(k, stride) < right then color
                  else old(pixels[k])
    {
      hide Row, Column;
      RowFits(row, right, stride, height, pixels.Length);
      var base := row * stride % U32_LIMIT;
      var start := row * stride;
      assert base == start;
      var col := left;
      while col < right
        invariant left <= col <= right
        invariant forall k :: 0 <= k < pixels.Length ==>
                    pixels[k] == if start + left <= k < start + col then color else old(pixels[k])
      {
        pixels[base + col] := color;
        col := col + 1;
      }
      forall k | 0 <= k < pixels.Length
        ensures start + left <= k < start + right <==> Row(k, stride) == row && left <= Column(k, stride) < right
      {
        RunInRow(k, stride, row, left, right);
      }
    }
  }
}
