/** The canvas of jgl.c and the routines that paint into it. A canvas views a
    caller-owned pixel buffer as `height` rows of `width` pixels, each row
    starting `stride` slots after the previous one; pixel (x, y) is the slot
    y*stride + x. Every routine clips to the canvas and leaves every other
    slot of the buffer alone. */
module Raster {
  import opened CInt
  import opened Color
  import opened Shapes

  /** Slot y*stride + x decomposes back into column x and row y. */
  lemma SlotOf(x: int, y: int, stride: int)
    requires 0 <= x < stride && 0 <= y
    ensures (y * stride + x) % stride == x && (y * stride + x) / stride == y
  {
    DivUnique(y * stride + x, stride, y, x);
  }

  class Canvas {
    const pixels: array<u32>
    const width: nat
    const height: nat
    const stride: nat

    /** jgl_canvas: wraps the buffer; nothing is copied or checked. */
    constructor (pixels: array<u32>, width: nat, height: nat, stride: nat)
      ensures this.pixels == pixels && this.width == width
      ensures this.height == height && this.stride == stride
    {
      this.pixels := pixels;
      this.width := width;
      this.height := height;
      this.stride := stride;
    }

    /** What the routines assume of a canvas: rows do not overlap, the last
        row ends inside the buffer, and the sizes survive the routines' casts
        to `int`. */
    ghost predicate Valid() {
      width <= stride && width <= IntMax && height <= IntMax &&
      (height > 0 ==> (height - 1) * stride + width <= pixels.Length)
    }

    function X(i: int): int
      requires stride > 0
    {
      i % stride
    }

    function Y(i: int): int
      requires stride > 0
    {
      i / stride
    }

    /** Slot i holds a pixel of the canvas (and not row padding or a slot
        past the last row). */
    predicate IsPixel(i: int) {
      stride > 0 && 0 <= i && 0 <= X(i) < width && 0 <= Y(i) < height
    }

    /** PIXEL(c, x, y): the slot of an on-canvas pixel is in the buffer and
        maps back to that pixel. */
    lemma Slot(x: int, y: int)
      requires Valid() && 0 <= x < width && 0 <= y < height
      ensures 0 <= y * stride + x < pixels.Length
      ensures IsPixel(y * stride + x) && X(y * stride + x) == x && Y(y * stride + x) == y
    {
      SlotOf(x, y, stride);
      MulLe(y, height - 1, stride);
    }

    /** The only pixel slot at the column and row of slot k is k itself. */
    lemma SameSlot(k: int)
      requires IsPixel(k)
      ensures forall i :: IsPixel(i) && X(i) == X(k) && Y(i) == Y(k) ==> i == k
    {
      forall i | IsPixel(i) && X(i) == X(k) && Y(i) == Y(k)
        ensures i == k
      {
        assert i == Y(i) * stride + X(i);
        assert k == Y(k) * stride + X(k);
      }
    }

    /** jgl_fill: every pixel of the canvas becomes `color`. */
    method Fill(color: u32)
      requires Valid()
      modifies pixels
      ensures forall i :: 0 <= i < pixels.Length ==>
        pixels[i] == if IsPixel(i) then color else old(pixels[i])
    {
      var y := 0;
      while y < height
        invariant 0 <= y <= height
        invariant forall i :: 0 <= i < pixels.Length ==>
          pixels[i] == if IsPixel(i) && Y(i) < y then color else old(pixels[i])
      {
        var x := 0;
        while x < width
          invariant 0 <= x <= width
          invariant forall i :: 0 <= i < pixels.Length ==>
            pixels[i] == if IsPixel(i) && (Y(i) < y || (Y(i) == y && X(i) < x))
                         then color else old(pixels[i])
        {
          Slot(x, y);
          pixels[y * stride + x] := color;
          SameSlot(y * stride + x);
          x := x + 1;
        }
        y := y + 1;
      }
    }

    /** jgl_fill_rect: blends `color` over the pixels of the w by h rectangle
        at (x0, y0) that lie on the canvas. */
    method FillRect(x0: int, y0: int, w: nat, h: nat, color: u32)
      requires Valid()
      requires w <= IntMax && h <= IntMax
      requires IsInt(x0) && IsInt(y0) && IsInt(x0 + w) && IsInt(y0 + h)
      modifies pixels
      ensures forall i :: 0 <= i < pixels.Length ==>
        pixels[i] == if IsPixel(i) && InRect(x0, y0, w, h, X(i), Y(i))
                     then Blend(old(pixels[i]), color) else old(pixels[i])
    {
      var dy := 0;
      while dy < h
        invariant 0 <= dy <= h
        invariant forall i :: 0 <= i < pixels.Length ==>
          pixels[i] == if IsPixel(i) && InRect(x0, y0, w, h, X(i), Y(i)) && Y(i) < y0 + dy
                       then Blend(old(pixels[i]), color) else old(pixels[i])
      {
        var y := y0 + dy;
        if 0 <= y && y < height {
          var dx := 0;
          while dx < w
            invariant 0 <= dx <= w
            invariant forall i :: 0 <= i < pixels.Length ==>
              pixels[i] == if IsPixel(i) && InRect(x0, y0, w, h, X(i), Y(i)) &&
                              (Y(i) < y || (Y(i) == y && X(i) < x0 + dx))
                           then Blend(old(pixels[i]), color) else old(pixels[i])
          {
            var x := x0 + dx;
            if 0 <= x && x < width {
              Slot(x, y);
              BlendColors(pixels, y * stride + x, color);
              SameSlot(y * stride + x);
            }
            dx := dx + 1;
          }
        }
        dy := dy + 1;
      }
    }
    /** One row of jgl_fill_circle: scans columns cx-r..cx+r of row y and
        blends `color` over the on-canvas pixels inside the disc. */
    method BlendDiscRow(cx: int, cy: int, r: nat, y: int, color: u32)
      requires Valid() && 0 <= y < height
      requires IsCoord(cx) && IsCoord(cy) && r <= CoordMax
      modifies pixels
      ensures forall i :: 0 <= i < pixels.Length ==>
        pixels[i] == if IsPixel(i) && Y(i) == y && InDisc(cx, cy, r, X(i), y)
                     then Blend(old(pixels[i]), color) else old(pixels[i])
    {
      DiscInSquare(cx, cy, r);
      var x := cx - r;
      while x <= cx + r
        invariant cx - r <= x <= cx + r + 1
        invariant forall i :: 0 <= i < pixels.Length ==>
          pixels[i] == if IsPixel(i) && Y(i) == y && InDisc(cx, cy, r, X(i), y) && X(i) < x
                       then Blend(old(pixels[i]), color) else old(pixels[i])
      {
        if 0 <= x && x < width {
          var dx := x - cx;
          var dy := y - cy;
          Slot(x, y);
          assert InDisc(cx, cy, r, x, y) <==> dx * dx + dy * dy <= r * r;
          if dx * dx + dy * dy <= r * r {
            BlendColors(pixels, y * stride + x, color);
            SameSlot(y * stride + x);
          }
        }
        x := x + 1;
      }
    }

    /** jgl_fill_circle: blends `color` over the canvas pixels at distance at
        most r from (cx, cy), scanning the square of side 2r+1 around it row
        by row. */
    method FillCircle(cx: int, cy: int, r: nat, color: u32)
      requires Valid()
      requires IsCoord(cx) && IsCoord(cy) && r <= CoordMax
      modifies pixels
      ensures forall i :: 0 <= i < pixels.Length ==>
        pixels[i] == if IsPixel(i) && InDisc(cx, cy, r, X(i), Y(i))
                     then Blend(old(pixels[i]), color) else old(pixels[i])
    {
      DiscInSquare(cx, cy, r);
      var y := cy - r;
      while y <= cy + r
        invariant cy - r <= y <= cy + r + 1
        invariant forall i :: 0 <= i < pixels.Length ==>
          pixels[i] == if IsPixel(i) && InDisc(cx, cy, r, X(i), Y(i)) && Y(i) < y
                       then Blend(old(pixels[i]), color) else old(pixels[i])
      {
        if 0 <= y && y < height {
          BlendDiscRow(cx, cy, r, y, color);
        }
        y := y + 1;
      }
    }

    /** One row of jgl_circlez: the on-canvas pixels of row y inside the disc
        are overwritten with zbits. */
    method WriteDiscRow(cx: int, cy: int, r: nat, y: int, zbits: u32)
      requires Valid() && 0 <= y < height
      requires IsCoord(cx) && IsCoord(cy) && r <= CoordMax
      modifies pixels
      ensures forall i :: 0 <= i < pixels.Length ==>
        pixels[i] == if IsPixel(i) && Y(i) == y && InDisc(cx, cy, r, X(i), y)
                     then zbits else old(pixels[i])
    {
      DiscInSquare(cx, cy, r);
      var x := cx - r;
      while x <= cx + r
        invariant cx - r <= x <= cx + r + 1
        invariant forall i :: 0 <= i < pixels.Length ==>
          pixels[i] == if IsPixel(i) && Y(i) == y && InDisc(cx, cy, r, X(i), y) && X(i) < x
                       then zbits else old(pixels[i])
      {
        if 0 <= x && x < width {
          var dx := x - cx;
          var dy := y - cy;
          Slot(x, y);
          if dx * dx + dy * dy <= r * r {
            pixels[y * stride + x] := zbits;
            SameSlot(y * stride + x);
          }
        }
        x := x + 1;
      }
    }

    /** jgl_circlez: the same disc, but every pixel of it is overwritten with
        the bit pattern of the depth value z (passed here as those 32 bits). */
    method CircleZ(cx: int, cy: int, r: nat, zbits: u32)
      requires Valid()
      requires IsCoord(cx) && IsCoord(cy) && r <= CoordMax
      modifies pixels
      ensures forall i :: 0 <= i < pixels.Length ==>
        pixels[i] == if IsPixel(i) && InDisc(cx, cy, r, X(i), Y(i)) then zbits else old(pixels[i])
    {
      DiscInSquare(cx, cy, r);
      var y := cy - r;
      while y <= cy + r
        invariant cy - r <= y <= cy + r + 1
        invariant forall i :: 0 <= i < pixels.Length ==>
          pixels[i] == if IsPixel(i) && InDisc(cx, cy, r, X(i), Y(i)) && Y(i) < y
                       then zbits else old(pixels[i])
      {
        if 0 <= y && y < height {
          WriteDiscRow(cx, cy, r, y, zbits);
        }
        y := y + 1;
      }
    }

    /** One span of jgl_fill_triangle: blends `color` over the on-canvas
        pixels of row y in columns lo..hi. */
    method BlendSpan(y: int, lo: int, hi: int, color: u32)
      requires Valid() && 0 <= y < height
      modifies pixels
      ensures forall i :: 0 <= i < pixels.Length ==>
        pixels[i] == if IsPixel(i) && Y(i) == y && lo <= X(i) <= hi
                     then Blend(old(pixels[i]), color) else old(pixels[i])
    {
      var x := lo;
      while x <= hi
        invariant lo <= x
        invariant forall i :: 0 <= i < pixels.Length ==>
          pixels[i] == if IsPixel(i) && Y(i) == y && lo <= X(i) < x && X(i) <= hi
                       then Blend(old(pixels[i]), color) else old(pixels[i])
      {
        if 0 <= x && x < width {
          Slot(x, y);
          BlendColors(pixels, y * stride + x, color);
          SameSlot(y * stride + x);
        }
        x := x + 1;
      }
    }

    /** jgl_fill_triangle: sorts the vertices by y, then blends `color` over
        one span per row, rows y1 <= y < y2 between edges 1-2 and 1-3 and rows
        y2 <= y <= y3 between edges 2-3 and 1-3. */
    method FillTriangle(x1: int, y1: int, x2: int, y2: int, x3: int, y3: int, color: u32)
      requires Valid()
      requires IsCoord(x1) && IsCoord(y1) && IsCoord(x2) && IsCoord(y2)
      requires IsCoord(x3) && IsCoord(y3)
      modifies pixels
      ensures forall i :: 0 <= i < pixels.Length ==>
        pixels[i] == if IsPixel(i) && TriangleCovers(Tri(Pt(x1, y1), Pt(x2, y2), Pt(x3, y3)), X(i), Y(i))
                     then Blend(old(pixels[i]), color) else old(pixels[i])
    {
      ghost var t := Tri(Pt(x1, y1), Pt(x2, y2), Pt(x3, y3));
      var sx1, sy1, sx2, sy2, sx3, sy3 := SortTrianglePtsByY(x1, y1, x2, y2, x3, y3);
      ghost var s := Tri(Pt(sx1, sy1), Pt(sx2, sy2), Pt(sx3, sy3));

      var dx12 := sx2 - sx1;
      var dy12 := sy2 - sy1;
      var dx13 := sx3 - sx1;
      var dy13 := sy3 - sy1;
      var dx23 := sx3 - sx2;
      var dy23 := sy3 - sy2;

      var y := sy1;
      while y < sy2
        invariant sy1 <= y <= sy2
        invariant forall i :: 0 <= i < pixels.Length ==>
          pixels[i] == if IsPixel(i) && UpperCovers(s, X(i), Y(i)) && Y(i) < y
                       then Blend(old(pixels[i]), color) else old(pixels[i])
      {
        if 0 <= y && y < height {
          var s1 := if dy12 != 0 then TDiv((y - sy1) * dx12, dy12) + sx1 else sx1;
          var s2 := if dy13 != 0 then TDiv((y - sy1) * dx13, dy13) + sx1 else sx1;
          if s1 > s2 {
            s1, s2 := SwapInt(s1, s2);
          }
          assert s1 == Min(EdgeX(sx1, sy1, dx12, dy12, y), EdgeX(sx1, sy1, dx13, dy13, y));
          assert s2 == Max(EdgeX(sx1, sy1, dx12, dy12, y), EdgeX(sx1, sy1, dx13, dy13, y));
          assert forall x :: UpperCovers(s, x, y) <==> s1 <= x <= s2;
          BlendSpan(y, s1, s2, color);
        }
        y := y + 1;
      }

      y := sy2;
      while y <= sy3
        invariant sy2 <= y <= sy3 + 1
        invariant forall i :: 0 <= i < pixels.Length ==>
          pixels[i] == if IsPixel(i) && (UpperCovers(s, X(i), Y(i)) || (LowerCovers(s, X(i), Y(i)) && Y(i) < y))
                       then Blend(old(pixels[i]), color) else old(pixels[i])
      {
        if 0 <= y && y < height {
          // The source falls back to x3 here, which drops vertex 2 from a
          // flat bottom row; the model takes vertex 2's column instead.
          var s1 := if dy23 != 0 then TDiv((y - sy3) * dx23, dy23) + sx3 else sx2;
          var s2 := if dy13 != 0 then TDiv((y - sy3) * dx13, dy13) + sx3 else sx3;
          if s1 > s2 {
            s1, s2 := SwapInt(s1, s2);
          }
          assert s1 == Min(LowerEdgeX(s, y), EdgeX(sx3, sy3, dx13, dy13, y));
          assert s2 == Max(LowerEdgeX(s, y), EdgeX(sx3, sy3, dx13, dy13, y));
          assert forall x :: !UpperCovers(s, x, y) && (LowerCovers(s, x, y) <==> s1 <= x <= s2);
          BlendSpan(y, s1, s2, color);
        }
        y := y + 1;
      }
    }
  }

  // ------------------------------------------------------------ draw_line

  /** Slot i of a buffer of `height` rows of `width` pixels, packed without
      padding, holds a pixel. */
  predicate InBuffer(i: int, width: nat, height: nat) {
    width > 0 && 0 <= i && 0 <= i / width < height
  }

  /** pixels[y*width + x] is in the buffer and maps back to (x, y). */
  lemma BufferSlot(pixels: array<u32>, width: nat, height: nat, x: int, y: int)
    requires width * height <= pixels.Length
    requires 0 <= x < width && 0 <= y < height
    ensures 0 <= y * width + x < pixels.Length && InBuffer(y * width + x, width, height)
    ensures (y * width + x) % width == x && (y * width + x) / width == y
  {
    SlotOf(x, y, width);
    MulLe(y, height - 1, width);
    assert (height - 1) * width + width == width * height;
  }

  /** The only buffer slot at the column and row of slot k is k itself. */
  lemma SameBufferSlot(width: nat, height: nat, k: int)
    requires InBuffer(k, width, height)
    ensures forall i ::
      InBuffer(i, width, height) && i % width == k % width && i / width == k / width ==> i == k
  {
    forall i | InBuffer(i, width, height) && i % width == k % width && i / width == k / width
      ensures i == k
    {
      assert i == i / width * width + i % width;
      assert k == k / width * width + k % width;
    }
  }

  /** One column of jgl_draw_line: rows lo..hi of column x that lie in the
      buffer become `color`. */
  method PaintColumn(pixels: array<u32>, width: nat, height: nat, x: int, lo: int, hi: int, color: u32)
    requires width * height <= pixels.Length && 0 <= x < width
    modifies pixels
    ensures forall i :: 0 <= i < pixels.Length ==>
      pixels[i] == if InBuffer(i, width, height) && i % width == x && lo <= i / width <= hi
                   then color else old(pixels[i])
  {
    var y := lo;
    while y <= hi
      invariant lo <= y
      invariant forall i :: 0 <= i < pixels.Length ==>
        pixels[i] == if InBuffer(i, width, height) && i % width == x && lo <= i / width < y && i / width <= hi
                     then color else old(pixels[i])
    {
      if 0 <= y && y < height {
        BufferSlot(pixels, width, height, x, y);
        pixels[y * width + x] := color;
        SameBufferSlot(width, height, y * width + x);
      }
      y := y + 1;
    }
  }

  /** One column x of a sloped jgl_draw_line, where c is the intercept
      y1 - dy*x1/dx: the column's run of the segment becomes `color`. */
  method LineColumn(pixels: array<u32>, pxWidth: nat, pxHeight: nat,
                    x1: int, y1: int, x2: int, y2: int, c: int, x: int, color: u32)
    requires pxWidth * pxHeight <= pixels.Length && 0 <= x < pxWidth
    requires x1 != x2 && Min(x1, x2) <= x <= Max(x1, x2)
    requires c == y1 - TDiv((y2 - y1) * x1, x2 - x1)
    modifies pixels
    ensures forall i :: 0 <= i < pixels.Length ==>
      pixels[i] == if InBuffer(i, pxWidth, pxHeight) && i % pxWidth == x && OnSegment(x1, y1, x2, y2, x, i / pxWidth)
                   then color else old(pixels[i])
  {
    var dx, dy := x2 - x1, y2 - y1;
    var sy1 := TDiv(dy * x, dx) + c;
    var sy2 := TDiv(dy * (x + 1), dx) + c;
    if sy1 > sy2 {
      sy1, sy2 := SwapInt(sy1, sy2);
    }
    // The source stops at sy2 even in the last column, where sy2 is the
    // line's row one column past the end; the model cuts each run to the
    // rows between the endpoints.
    if sy1 < Min(y1, y2) {
      sy1 := Min(y1, y2);
    }
    if sy2 > Max(y1, y2) {
      sy2 := Max(y1, y2);
    }
    assert forall y :: OnSegment(x1, y1, x2, y2, x, y) <==> sy1 <= y <= sy2;
    PaintColumn(pixels, pxWidth, pxHeight, x, sy1, sy2, color);
  }

  /** jgl_draw_line: colours the pixels of OnSegment(x1, y1, x2, y2) that
      lie in the width by height buffer (rows packed px_width apart) and
      nothing else. The endpoints' coordinates need not be on the buffer. */
  method DrawLine(pixels: array<u32>, pxWidth: nat, pxHeight: nat,
                  x1: int, y1: int, x2: int, y2: int, color: u32)
    requires pxWidth * pxHeight <= pixels.Length
    requires pxWidth <= IntMax && pxHeight <= IntMax
    requires IsCoord(x1) && IsCoord(y1) && IsCoord(x2) && IsCoord(y2)
    modifies pixels
    ensures forall i :: 0 <= i < pixels.Length ==>
      pixels[i] == if InBuffer(i, pxWidth, pxHeight) && OnSegment(x1, y1, x2, y2, i % pxWidth, i / pxWidth)
                   then color else old(pixels[i])
  {
    var dx := x2 - x1;
    var dy := y2 - y1;
    if dx != 0 {
      var c := y1 - TDiv(dy * x1, dx);
      // The C code swaps its own copies of x1 and x2; the model keeps them
      // for the specification and swaps the loop bounds instead.
      var xa, xb := x1, x2;
      if xa > xb {
        xa, xb := SwapInt(xa, xb);
      }
      var x := xa;
      while x <= xb
        invariant xa <= x <= xb + 1
        invariant forall i :: 0 <= i < pixels.Length ==>
          pixels[i] == if InBuffer(i, pxWidth, pxHeight) && OnSegment(x1, y1, x2, y2, i % pxWidth, i / pxWidth) &&
                          i % pxWidth < x
                       then color else old(pixels[i])
      {
        if 0 <= x && x < pxWidth {
          LineColumn(pixels, pxWidth, pxHeight, x1, y1, x2, y2, c, x, color);
        }
        x := x + 1;
      }
    } else {
      var x := x1;
      if 0 <= x && x < pxWidth {
        var ya, yb := y1, y2;
        if ya > yb {
          ya, yb := SwapInt(ya, yb);
        }
        PaintColumn(pixels, pxWidth, pxHeight, x, ya, yb, color);
      }
    }
  }

  // ------------------------------------------------------------ scenarios

  /** The 45-degree line from (0,0) to (4,4) in a zeroed 5 by 5 buffer
      colours every (i, i) and leaves the corner (0, 4) alone. */
  method DiagonalScenario(color: u32) returns (pixels: array<u32>)
    ensures pixels.Length == 25
    ensures forall i :: 0 <= i < 5 ==> pixels[i * 5 + i] == color
    ensures pixels[4 * 5 + 0] == 0
  {
    pixels := new u32[25](_ => 0);
    DrawLine(pixels, 5, 5, 0, 0, 4, 4, color);
    forall i | 0 <= i < 5
      ensures pixels[i * 5 + i] == color
    {
      DiagonalLine(i);
      BufferSlot(pixels, 5, 5, i, i);
    }
    DiagonalLine(0);
    BufferSlot(pixels, 5, 5, 0, 4);
  }

  /** fillRect(2, 2, 4, 4) of opaque red 0xFF0000FF on a zeroed 10 by 10
      canvas: pixels (2,2)..(5,5) become red but keep the canvas's zero alpha,
      0x000000FF rather than 0xFF0000FF, and every other pixel, (6,6)
      included, stays zero. Slot i holds pixel (i % 10, i / 10). */
  method OpaqueRectScenario() returns (c: Canvas)
    ensures c.width == 10 && c.height == 10 && c.stride == 10 && c.pixels.Length == 100
    ensures forall i :: 0 <= i < 100 ==>
      c.pixels[i] == if 2 <= i % 10 < 6 && 2 <= i / 10 < 6 then 0x0000_00FF else 0
  {
    var buffer := new u32[100](_ => 0);
    c := new Canvas(buffer, 10, 10, 10);
    c.FillRect(2, 2, 4, 4, 0xFF00_00FF);
    assert forall i :: 0 <= i < 100 ==>
      c.pixels[i] == if 2 <= i % 10 < 6 && 2 <= i / 10 < 6 then Blend(0, 0xFF00_00FF) else 0;
    OpaqueOverZero();
  }

  /** Opaque red over the zero pixel is red with zero alpha. */
  lemma OpaqueOverZero()
    ensures Blend(0, 0xFF00_00FF) == 0x0000_00FF
  {
    assert Red(0xFF00_00FF) == 0xFF && Green(0xFF00_00FF) == 0 && Blue(0xFF00_00FF) == 0;
    assert Alpha(0xFF00_00FF) == 0xFF && Alpha(0) == 0 && Rgba(0xFF, 0, 0, 0) == 0xFF;
    BlendOpaque(0, 0xFF00_00FF);
  }
}
