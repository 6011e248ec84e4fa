/** The point sets the drawing routines of jgl.c cover: rectangles, discs,
    scan-converted lines and triangles, and the clipped bounding box of a
    triangle. All coordinates are C `int`s, all divisions C's truncating `/`. */
module Shapes {
  import opened CInt

  datatype Option<T> = None | Some(value: T)

  datatype Pt = Pt(x: int, y: int)

  datatype Tri = Tri(p1: Pt, p2: Pt, p3: Pt)

  /** The inclusive pixel box lx..hx by ly..hy. */
  datatype Box = Box(lx: int, hx: int, ly: int, hy: int)

  predicate InBox(b: Box, x: int, y: int) {
    b.lx <= x <= b.hx && b.ly <= y <= b.hy
  }

  // ---------------------------------------------------------------- rectangle

  /** The w by h rectangle whose top-left pixel is (x0, y0). */
  predicate InRect(x0: int, y0: int, w: nat, h: nat, x: int, y: int) {
    x0 <= x < x0 + w && y0 <= y < y0 + h
  }

  // --------------------------------------------------------------------- disc

  /** Pixel (x, y) is at most r away from the centre (cx, cy). */
  predicate InDisc(cx: int, cy: int, r: nat, x: int, y: int) {
    (x - cx) * (x - cx) + (y - cy) * (y - cy) <= r * r
  }

  /** A disc lies inside the square of side 2r+1 around its centre, which is the
      square the circle routines scan. */
  lemma DiscInSquare(cx: int, cy: int, r: nat)
    ensures forall x, y :: InDisc(cx, cy, r, x, y) ==>
      cx - r <= x <= cx + r && cy - r <= y <= cy + r
  {
    forall x, y | InDisc(cx, cy, r, x, y)
      ensures cx - r <= x <= cx + r && cy - r <= y <= cy + r
    {
      SquareBound(x - cx, (y - cy) * (y - cy), r);
      SquareBound(y - cy, (x - cx) * (x - cx), r);
    }
  }

  lemma SquareBound(d: int, e: int, r: nat)
    requires 0 <= e && d * d + e <= r * r
    ensures -(r as int) <= d <= r
  {
    var a := Abs(d);
    assert a * a == d * d;
    SquareMono(r + 1, a);
    assert (r + 1) * (r + 1) == r * r + 2 * r + 1;
  }

  lemma SquareMono(a: nat, b: nat)
    ensures a <= b ==> a * a <= b * b
  {
    if a <= b {
      MulLe(a, b, a);
      MulLe(a, b, b);
    }
  }

  // ----------------------------------------------------------------- triangle

  function MinX(t: Tri): int { Min(Min(t.p1.x, t.p2.x), t.p3.x) }
  function MaxX(t: Tri): int { Max(Max(t.p1.x, t.p2.x), t.p3.x) }
  function MinY(t: Tri): int { Min(Min(t.p1.y, t.p2.y), t.p3.y) }
  function MaxY(t: Tri): int { Max(Max(t.p1.y, t.p2.y), t.p3.y) }

  predicate SortedByY(t: Tri) { t.p1.y <= t.p2.y <= t.p3.y }

  /** sort_triangle_pts_by_y: three compare-and-swap steps on the y
      coordinates, each swap moving the whole point. */
  function SortByY(t: Tri): (s: Tri)
    ensures SortedByY(s)
  {
    var a := if t.p1.y > t.p2.y then Tri(t.p2, t.p1, t.p3) else t;
    var b := if a.p2.y > a.p3.y then Tri(a.p1, a.p3, a.p2) else a;
    if b.p1.y > b.p2.y then Tri(b.p2, b.p1, b.p3) else b
  }

  /** Sorting only reorders the three points. */
  lemma SortByYPermutes(t: Tri)
    ensures var s := SortByY(t);
      multiset{s.p1, s.p2, s.p3} == multiset{t.p1, t.p2, t.p3}
  {
  }

  /** Sorting leaves an already sorted triangle alone and keeps the extents. */
  lemma SortByYFacts(t: Tri)
    ensures SortedByY(t) ==> SortByY(t) == t
    ensures var s := SortByY(t);
      MinX(s) == MinX(t) && MaxX(s) == MaxX(t) && MinY(s) == MinY(t) && MaxY(s) == MaxY(t)
    ensures SortByY(t).p1.y == MinY(t) && SortByY(t).p3.y == MaxY(t)
  {
  }

  /** The imperative sort: the six coordinates are updated in place through
      swap_int. */
  method SortTrianglePtsByY(x1: int, y1: int, x2: int, y2: int, x3: int, y3: int)
    returns (sx1: int, sy1: int, sx2: int, sy2: int, sx3: int, sy3: int)
    ensures Tri(Pt(sx1, sy1), Pt(sx2, sy2), Pt(sx3, sy3))
         == SortByY(Tri(Pt(x1, y1), Pt(x2, y2), Pt(x3, y3)))
  {
    sx1, sy1, sx2, sy2, sx3, sy3 := x1, y1, x2, y2, x3, y3;
    if sy1 > sy2 {
      sx1, sx2 := SwapInt(sx1, sx2);
      sy1, sy2 := SwapInt(sy1, sy2);
    }
    if sy2 > sy3 {
      sx2, sx3 := SwapInt(sx2, sx3);
      sy2, sy3 := SwapInt(sy2, sy3);
    }
    if sy1 > sy2 {
      sx1, sx2 := SwapInt(sx1, sx2);
      sy1, sy2 := SwapInt(sy1, sy2);
    }
  }

  /** Column where the edge leaving (ex, ey) with slope dx/dy crosses row y;
      a horizontal edge (dy == 0) falls back to ex. */
  function EdgeX(ex: int, ey: int, dx: int, dy: int, y: int): int {
    if dy != 0 then TDiv((y - ey) * dx, dy) + ex else ex
  }

  predicate InSpan(a: int, b: int, x: int) { Min(a, b) <= x <= Max(a, b) }

  /** Rows y1 <= y < y2 of a triangle sorted by y: the span between edges
      1-2 and 1-3, both measured from vertex 1. */
  predicate UpperCovers(s: Tri, x: int, y: int) {
    var dx12, dy12 := s.p2.x - s.p1.x, s.p2.y - s.p1.y;
    var dx13, dy13 := s.p3.x - s.p1.x, s.p3.y - s.p1.y;
    s.p1.y <= y < s.p2.y &&
    InSpan(EdgeX(s.p1.x, s.p1.y, dx12, dy12, y), EdgeX(s.p1.x, s.p1.y, dx13, dy13, y), x)
  }

  /** Column of edge 2-3 at row y, measured back from vertex 3. A horizontal
      edge 2-3 lies on the bottom row itself, so it falls back to vertex 2's
      column and the row spans from vertex 2 to edge 1-3. */
  function LowerEdgeX(s: Tri, y: int): int {
    var dx23, dy23 := s.p3.x - s.p2.x, s.p3.y - s.p2.y;
    if dy23 != 0 then EdgeX(s.p3.x, s.p3.y, dx23, dy23, y) else s.p2.x
  }

  /** Rows y2 <= y <= y3: the span between edges 2-3 and 1-3, both measured
      from vertex 3. */
  predicate LowerCovers(s: Tri, x: int, y: int) {
    var dx13, dy13 := s.p3.x - s.p1.x, s.p3.y - s.p1.y;
    s.p2.y <= y <= s.p3.y &&
    InSpan(LowerEdgeX(s, y), EdgeX(s.p3.x, s.p3.y, dx13, dy13, y), x)
  }

  /** The pixels the triangle fill blends for the triangle t. */
  predicate TriangleCovers(t: Tri, x: int, y: int) {
    var s := SortByY(t);
    UpperCovers(s, x, y) || LowerCovers(s, x, y)
  }

  /** The two halves of the scan never share a row, so no pixel is blended twice. */
  lemma HalvesDisjoint(s: Tri, x: int, y: int, x': int)
    ensures !(UpperCovers(s, x, y) && LowerCovers(s, x', y))
  {
  }

  /** Along an edge measured from its start, the column stays between the
      edge's end columns. */
  lemma EdgeFromBase(ex: int, ey: int, dx: int, dy: int, y: int)
    requires 0 <= y - ey <= dy
    ensures Min(ex, ex + dx) <= EdgeX(ex, ey, dx, dy, y) <= Max(ex, ex + dx)
  {
    if dy != 0 {
      TDivBetween(y - ey, dx, dy);
    }
  }

  /** The same for an edge measured back from its end (ey is the lower end). */
  lemma EdgeToBase(ex: int, ey: int, dx: int, dy: int, y: int)
    requires 0 <= ey - y <= dy
    ensures Min(ex - dx, ex) <= EdgeX(ex, ey, dx, dy, y) <= Max(ex - dx, ex)
  {
    if dy != 0 {
      TDivBetween(y - ey, dx, dy);
    }
  }

  /** Every pixel of a sorted triangle's scan, with either fallback for a
      horizontal edge 2-3, lies in the triangle's bounding box. */
  lemma ScanWithinExtents(s: Tri, x: int, y: int)
    requires SortedByY(s)
    requires UpperCovers(s, x, y) || LowerCovers(s, x, y) || WrittenLowerCovers(s, x, y)
    ensures MinX(s) <= x <= MaxX(s) && MinY(s) <= y <= MaxY(s)
  {
    if WrittenLowerCovers(s, x, y) {
      WrittenLowerWithinLower(s, x, y);
    }
    var dx12, dy12 := s.p2.x - s.p1.x, s.p2.y - s.p1.y;
    var dx13, dy13 := s.p3.x - s.p1.x, s.p3.y - s.p1.y;
    var dx23, dy23 := s.p3.x - s.p2.x, s.p3.y - s.p2.y;
    if UpperCovers(s, x, y) {
      EdgeFromBase(s.p1.x, s.p1.y, dx12, dy12, y);
      EdgeFromBase(s.p1.x, s.p1.y, dx13, dy13, y);
    } else {
      if dy23 != 0 {
        EdgeToBase(s.p3.x, s.p3.y, dx23, dy23, y);
      }
      EdgeToBase(s.p3.x, s.p3.y, dx13, dy13, y);
    }
  }

  /** So every pixel jgl_fill_triangle touches lies in the bounding box of its
      three vertices, whatever their order. */
  lemma TriangleWithinExtents(t: Tri, x: int, y: int)
    requires TriangleCovers(t, x, y) || WrittenTriangleCovers(t, x, y)
    ensures MinX(t) <= x <= MaxX(t) && MinY(t) <= y <= MaxY(t)
  {
    SortByYFacts(t);
    ScanWithinExtents(SortByY(t), x, y);
  }

  /** jgl_normalize_triangle: the triangle's bounding box clipped to the
      width by height canvas, or None when the two do not meet. */
  function NormalizeTriangle(width: nat, height: nat, t: Tri): (r: Option<Box>)
    ensures r.Some? <==>
      0 < width && MinX(t) < width && 0 <= MaxX(t) &&
      0 < height && MinY(t) < height && 0 <= MaxY(t)
    ensures r.Some? ==>
      0 <= r.value.lx <= r.value.hx < width && 0 <= r.value.ly <= r.value.hy < height
  {
    var lx := Max(MinX(t), 0);
    if lx >= width || MaxX(t) < 0 then None
    else
      var hx := if MaxX(t) >= width then width - 1 else MaxX(t);
      var ly := Max(MinY(t), 0);
      if ly >= height || MaxY(t) < 0 then None
      else
        var hy := if MaxY(t) >= height then height - 1 else MaxY(t);
        Some(Box(lx, hx, ly, hy))
  }

  /** The box is exactly the set of canvas pixels inside the triangle's
      bounding box. */
  lemma NormalizeIsClip(width: nat, height: nat, t: Tri, x: int, y: int)
    requires NormalizeTriangle(width, height, t).Some?
    ensures InBox(NormalizeTriangle(width, height, t).value, x, y) <==>
      0 <= x < width && 0 <= y < height &&
      MinX(t) <= x <= MaxX(t) && MinY(t) <= y <= MaxY(t)
  {
  }

  /** Every canvas pixel the triangle fill covers, as written or corrected,
      lies in the normalized box, which in particular exists. */
  lemma FillWithinNormalized(width: nat, height: nat, t: Tri, x: int, y: int)
    requires TriangleCovers(t, x, y) || WrittenTriangleCovers(t, x, y)
    requires 0 <= x < width && 0 <= y < height
    ensures NormalizeTriangle(width, height, t).Some?
    ensures InBox(NormalizeTriangle(width, height, t).value, x, y)
  {
    TriangleWithinExtents(t, x, y);
  }

  // ------------------------------------------------- triangle: flat bottom

  /** The lower half as the source writes it: a horizontal edge 2-3 falls
      back to vertex 3's column, so the bottom row spans from vertex 3 to
      edge 1-3 only. */
  predicate WrittenLowerCovers(s: Tri, x: int, y: int) {
    var dx23, dy23 := s.p3.x - s.p2.x, s.p3.y - s.p2.y;
    var dx13, dy13 := s.p3.x - s.p1.x, s.p3.y - s.p1.y;
    s.p2.y <= y <= s.p3.y &&
    InSpan(EdgeX(s.p3.x, s.p3.y, dx23, dy23, y), EdgeX(s.p3.x, s.p3.y, dx13, dy13, y), x)
  }

  predicate WrittenTriangleCovers(t: Tri, x: int, y: int) {
    var s := SortByY(t);
    UpperCovers(s, x, y) || WrittenLowerCovers(s, x, y)
  }

  /** The correction only adds pixels: with a horizontal edge 2-3 the
      written bottom row is the single pixel under vertex 3, which the
      corrected row from vertex 2 to vertex 3 contains. */
  lemma WrittenLowerWithinLower(s: Tri, x: int, y: int)
    requires SortedByY(s) && WrittenLowerCovers(s, x, y)
    ensures LowerCovers(s, x, y)
  {
    var dx13, dy13 := s.p3.x - s.p1.x, s.p3.y - s.p1.y;
    if s.p3.y == s.p2.y {
      assert y == s.p3.y;
      if dy13 != 0 {
        TDivExact(0, dy13);
        assert (y - s.p3.y) * dx13 == 0 * dy13;
      }
      assert EdgeX(s.p3.x, s.p3.y, dx13, dy13, y) == s.p3.x;
    }
  }

  /** Every pixel the triangle fill as written blends is blended by the
      corrected fill too. */
  lemma WrittenWithinCorrected(t: Tri, x: int, y: int)
    requires WrittenTriangleCovers(t, x, y)
    ensures TriangleCovers(t, x, y)
  {
    SortByYFacts(t);
    var s := SortByY(t);
    if !UpperCovers(s, x, y) {
      WrittenLowerWithinLower(s, x, y);
    }
  }

  /** As written, the flat-bottomed triangle (0,0), (0,4), (4,4) leaves its
      vertex (0,4) undrawn: the bottom row holds only the pixel under vertex
      3. With the fallback at vertex 2 that vertex is drawn. */
  lemma FlatBottomDropsVertex()
    ensures !WrittenTriangleCovers(Tri(Pt(0, 0), Pt(0, 4), Pt(4, 4)), 0, 4)
    ensures WrittenTriangleCovers(Tri(Pt(0, 0), Pt(0, 4), Pt(4, 4)), 4, 4)
    ensures TriangleCovers(Tri(Pt(0, 0), Pt(0, 4), Pt(4, 4)), 0, 4)
  {
    var t := Tri(Pt(0, 0), Pt(0, 4), Pt(4, 4));
    assert SortByY(t) == t;
    TDivExact(0, 4);
    assert (4 - 4) * 4 == 0 * 4;
  }

  /** Every vertex of a triangle that is not flat in y is drawn. */
  lemma CoversVertices(t: Tri)
    requires MinY(t) < MaxY(t)
    ensures TriangleCovers(t, t.p1.x, t.p1.y)
    ensures TriangleCovers(t, t.p2.x, t.p2.y)
    ensures TriangleCovers(t, t.p3.x, t.p3.y)
  {
    var s := SortByY(t);
    SortByYFacts(t);
    SortByYPermutes(t);
    SortedVertices(s);
    assert t.p1 in multiset{s.p1, s.p2, s.p3};
    assert t.p2 in multiset{s.p1, s.p2, s.p3};
    assert t.p3 in multiset{s.p1, s.p2, s.p3};
  }

  lemma SortedVertices(s: Tri)
    requires SortedByY(s) && s.p1.y < s.p3.y
    ensures UpperCovers(s, s.p1.x, s.p1.y) || LowerCovers(s, s.p1.x, s.p1.y)
    ensures UpperCovers(s, s.p2.x, s.p2.y) || LowerCovers(s, s.p2.x, s.p2.y)
    ensures LowerCovers(s, s.p3.x, s.p3.y)
  {
    var dx12, dy12 := s.p2.x - s.p1.x, s.p2.y - s.p1.y;
    var dx13, dy13 := s.p3.x - s.p1.x, s.p3.y - s.p1.y;
    var dx23, dy23 := s.p3.x - s.p2.x, s.p3.y - s.p2.y;
    // Each edge evaluated at its own start row gives that vertex's column.
    TDivExact(0, dy13);
    assert (s.p3.y - s.p3.y) * dx13 == 0 * dy13;
    if dy23 != 0 {
      TDivExact(0, dy23);
      assert (s.p3.y - s.p3.y) * dx23 == 0 * dy23;
      TDivExact(-dx23, dy23);
      assert (s.p2.y - s.p3.y) * dx23 == (-dx23) * dy23;
    }
    if dy12 != 0 {
      TDivExact(0, dy12);
      assert (s.p1.y - s.p1.y) * dx12 == 0 * dy12;
      assert (s.p1.y - s.p1.y) * dx13 == 0 * dy13;
    } else {
      TDivExact(-dx13, dy13);
      assert (s.p1.y - s.p3.y) * dx13 == (-dx13) * dy13;
    }
  }

  // --------------------------------------------------------------------- line

  /** The row jgl_draw_line assigns to column x: dy*x/dx plus the intercept
      y1 - dy*x1/dx, each quotient truncated. */
  function LineRow(x1: int, y1: int, dx: int, dy: int, x: int): int
    requires dx != 0
  {
    TDiv(dy * x, dx) + (y1 - TDiv(dy * x1, dx))
  }

  /** The pixels the source's jgl_draw_line colours for (x1, y1)-(x2, y2):
      for a vertical segment the rows between the endpoints; otherwise, in
      every column between the endpoints, the rows from the line's row at
      that column to its row at the next column, the last column included. */
  predicate OnLine(x1: int, y1: int, x2: int, y2: int, x: int, y: int) {
    var dx, dy := x2 - x1, y2 - y1;
    if dx != 0 then
      var a, b := LineRow(x1, y1, dx, dy, x), LineRow(x1, y1, dx, dy, x + 1);
      Min(x1, x2) <= x <= Max(x1, x2) && InSpan(a, b, y)
    else
      x == x1 && Min(y1, y2) <= y <= Max(y1, y2)
  }

  /** The pixels of the segment as drawn by the model: each column's run cut
      to the rows between the endpoints. */
  predicate OnSegment(x1: int, y1: int, x2: int, y2: int, x: int, y: int) {
    OnLine(x1, y1, x2, y2, x, y) && Min(y1, y2) <= y <= Max(y1, y2)
  }

  /** The diagonal from (0,0) to (4,4) holds every (i, i) and misses (0, 4),
      as written and with the cut runs. */
  lemma DiagonalLine(i: int)
    requires 0 <= i <= 4
    ensures OnSegment(0, 0, 4, 4, i, i)
    ensures !OnLine(0, 0, 4, 4, 0, 4) && !OnSegment(0, 0, 4, 4, 0, 4)
  {
    TDivExact(i, 4);
    TDivExact(i + 1, 4);
    TDivExact(0, 4);
    TDivExact(1, 4);
    assert 4 * i == i * 4 && 4 * (i + 1) == (i + 1) * 4;
  }

  // ---------------------------------------------------- line: last column

  /** As written, the steep segment (0,0)-(1,10) is drawn down to (1,20):
      the last column runs to the line's row at the column after the end.
      The segment with its runs cut does not reach that pixel. */
  lemma LineOvershoots()
    ensures OnLine(0, 0, 1, 10, 1, 20)
    ensures !OnSegment(0, 0, 1, 10, 1, 20)
  {
    TDivExact(10, 1);
    TDivExact(20, 1);
    TDivExact(0, 1);
    assert 10 * 2 == 20 * 1;
  }

  /** The second endpoint is not always drawn: the intercept y1 - dy*x1/dx
      is truncated toward zero, so the segment (-3,0)-(3,1) reaches only row
      0 in column 3, with or without the cut runs. */
  lemma InterceptMissesEnd()
    ensures OnLine(-3, 0, 3, 1, -3, 0)
    ensures !OnLine(-3, 0, 3, 1, 3, 1) && !OnSegment(-3, 0, 3, 1, 3, 1)
  {
    assert TDiv(-3, 6) == 0 && TDiv(3, 6) == 0 && TDiv(4, 6) == 0 && TDiv(-2, 6) == 0;
  }

  /** The corrected segment stays inside its endpoints' box, still contains
      the first endpoint and every column's line row, and only removes
      pixels from the drawing as written. */
  lemma SegmentWithinEndpoints(x1: int, y1: int, x2: int, y2: int, x: int, y: int)
    requires IsCoord(x1) && IsCoord(y1) && IsCoord(x2) && IsCoord(y2)
    ensures OnSegment(x1, y1, x2, y2, x1, y1)
    ensures OnSegment(x1, y1, x2, y2, x, y) ==>
      OnLine(x1, y1, x2, y2, x, y) &&
      Min(x1, x2) <= x <= Max(x1, x2) && Min(y1, y2) <= y <= Max(y1, y2)
    ensures x1 != x2 && Min(x1, x2) <= x <= Max(x1, x2) ==>
      OnSegment(x1, y1, x2, y2, x, LineRow(x1, y1, x2 - x1, y2 - y1, x))
  {
    if x1 != x2 && Min(x1, x2) <= x <= Max(x1, x2) {
      var dx, dy := x2 - x1, y2 - y1;
      LineRowBetween(x1, y1, dx, dy, x);
    }
  }

  /** Cutting the runs changes only the last column: in every other column
      between the endpoints the run as written already stays within the
      endpoints' rows. */
  lemma InnerColumnsUncut(x1: int, y1: int, x2: int, y2: int, x: int, y: int)
    requires x1 != x2 && Min(x1, x2) <= x < Max(x1, x2)
    ensures OnLine(x1, y1, x2, y2, x, y) <==> OnSegment(x1, y1, x2, y2, x, y)
  {
    var dx, dy := x2 - x1, y2 - y1;
    LineRowBetween(x1, y1, dx, dy, x);
    LineRowBetween(x1, y1, dx, dy, x + 1);
  }

  /** Inside the segment's columns the line's row stays between the
      endpoints' rows (with the truncations of both quotients). */
  lemma LineRowBetween(x1: int, y1: int, dx: int, dy: int, x: int)
    requires dx != 0 && Min(x1, x1 + dx) <= x <= Max(x1, x1 + dx)
    ensures Min(y1, y1 + dy) <= LineRow(x1, y1, dx, dy, x) <= Max(y1, y1 + dy)
  {
    if dx > 0 {
      var s := x - x1;
      assert dy * x == dy * x1 + dy * s;
      QuotientStep(dy * x1, dy, s, dx);
    } else {
      var n, s := -dx, x1 - x;
      assert dy * x == dy * x1 + (-dy) * s;
      QuotientStep(dy * x1, -dy, s, n);
      TDivNegDivisor(dy * x, n);
      TDivNegDivisor(dy * x1, n);
    }
  }
}
