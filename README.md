# jgl rasterizer and compositor, modelled in Dafny

This project models the drawing core of `jgl.c`. That core is a small
integer-only rasterization library that draws into a `uint32_t` pixel
buffer owned by the caller. The model covers:

- **Colour model** (module `Color`).
  - A colour is a 32-bit word with red in the least-significant byte, then
    green, blue and alpha.
  - `unpack_rgba32` and `pack_rgba32` move between a word and its four lanes.
  - The `JGL_RED/GREEN/BLUE/ALPHA/RGBA` macros extract and build lanes.
  - `jgl_mix_comps` and `jgl_mix_colors` interpolate channels with C's
    truncating division.
  - `blend_colors` composites one colour "over" a pixel in place. It keeps
    the pixel's own alpha.
- **C integer helpers** (module `CInt`).
  - `TDiv` is C's signed division, which truncates toward zero. Lemmas
    relate it to Dafny's Euclidean division.
  - `SwapInt` models `swap_int`.
- **Geometry** (module `Shapes`).
  - The pixel sets each primitive covers.
  - The three-point sort `sort_triangle_pts_by_y`.
  - The two-half scanline coverage of `jgl_fill_triangle`.
  - The bounding-box clip `jgl_normalize_triangle`.
  - The column-by-column coverage of `jgl_draw_line`.
- **Canvas and rasterizers** (module `Raster`).
  - `Canvas` is a class over an `array<u32>` with `width`, `height` and
    `stride`. The pixel at (x, y) is slot `y*stride + x`, as in `PIXEL`.
  - `Fill`, `FillRect`, `FillCircle`, `CircleZ` and `FillTriangle` are the
    source's nested loops. Each is proved to change exactly the covered
    pixels, to the right value, and to leave every other slot unchanged,
    row padding included.
  - `DrawLine` is proved the same way. It works on a bare buffer with rows
    packed `px_width` apart.

C's `int` arithmetic is modelled with unbounded integers. Callers must keep
coordinates within ±2^14 (`CInt.IsCoord`) or within the C `int` range
(`CInt.IsInt`), as each routine needs. Under those bounds no product the
source computes can overflow.

The source keeps the base pixel's alpha when it blends. So an opaque red
`0xFF0000FF` blended over a zero pixel gives `0x000000FF`, not
`0xFF0000FF`. The model follows the code. `Raster.OpaqueRectScenario` shows
this on a 10 by 10 canvas.

Two routines are modelled with a correction, both listed under Findings.
`FillTriangle` takes vertex 2's column for a horizontal lower edge, where the
source takes vertex 3's. `DrawLine` cuts each column's run to the rows
between the endpoints, which changes only the last column
(`Shapes.InnerColumnsUncut`). The code as written is kept beside each correction as
the predicates `Shapes.WrittenTriangleCovers` and `Shapes.OnLine`, and a
lemma exhibits where each one differs.

## Model

| member | source | states |
|---|---|---|
| CInt.SwapInt | jgl.c:198-203 | the two values come back exchanged |
| CInt.TDiv | jgl.c:60 | C's `/` on int: the quotient of a by b truncated toward zero (TDivRemainder states its remainder) |
| CInt.TDivRemainder | jgl.c:60 | C's division leaves a remainder a - q*b smaller than the divisor in magnitude that is zero or has the dividend's sign, i.e. the quotient is truncated toward zero |
| CInt.TDivBetween | jgl.c:445-446 | a truncated edge offset (t*d)/n with 0 <= t <= n lies between 0 and d |
| CInt.QuotientStep | jgl.c:250-251 | moving the dividend by e*s with 0 <= s <= n moves the truncated quotient by at most e, in e's direction |
| Color.LaneAt | jgl.c:65-68 | lane i of a word is (c >> 8i) & 0xFF |
| Color.RgbaLanes | jgl.c:65-69 | each lane of JGL_RGBA(r,g,b,a) is the low 8 bits of the matching argument |
| Color.RgbaLanes8 | jgl.c:65-69 | on 8-bit arguments, the lanes of JGL_RGBA are exactly r, g, b, a |
| Color.RgbaOfLanes | jgl.c:65-69 | JGL_RGBA of a word's four lanes is that word |
| Color.UnpackThenPack | jgl.c:41-56 | unpack_rgba32 into an array, then pack_rgba32 of that array, returns the original word |
| Color.PackThenUnpack | jgl.c:41-56 | pack_rgba32 of a 4-byte array, then unpack_rgba32 of the word, returns those four bytes |
| Color.Red | jgl.c:65 | JGL_RED: lane 0 of the word, its low 8 bits |
| Color.Green | jgl.c:66 | JGL_GREEN: lane 1 of the word, bits 8 to 15 |
| Color.Blue | jgl.c:67 | JGL_BLUE: lane 2 of the word, bits 16 to 23 |
| Color.Alpha | jgl.c:68 | JGL_ALPHA: lane 3 of the word, its high 8 bits |
| Color.Rgba | jgl.c:69 | JGL_RGBA: the word whose lanes 0 to 3 are the low 8 bits of r, g, b and a |
| Color.UnpackRgba32 | jgl.c:41-47 | comp[0..3] holds the red, green, blue and alpha lanes of c |
| Color.PackRgba32 | jgl.c:49-56 | the accumulated OR of the shifted lanes is JGL_RGBA(comp[0..3]) and fits in 32 bits |
| Color.PackStep | jgl.c:52-53 | before lane i is ORed in, the accumulator is below 256^i, so OR equals addition and the result stays below 2^32 |
| Color.PackedIsRgba | jgl.c:49-56 | the four-step accumulator equals JGL_RGBA of the four bytes |
| Color.MixCompsEnds | jgl.c:58-61 | weight 0 yields c1 and weight 255 yields c2 |
| Color.MixCompsBetween | jgl.c:58-61 | the mixed channel lies between c1 and c2 |
| Color.MixComps | jgl.c:58-61 | jgl_mix_comps: c1 + (c2 - c1)*a/255 with C's truncating division, stored into a uint8_t (reduced mod 256) |
| Color.MixColors | jgl.c:90-105 | the result is the per-channel mix of c1 towards c2, weighted by c2's alpha, and keeps c1's alpha |
| Color.MixColorTransparent | jgl.c:90-105 | an overlay with alpha 0 gives back c1 |
| Color.MixColorOpaque | jgl.c:90-105 | an overlay with alpha 255 takes c2's red, green and blue and keeps c1's alpha |
| Color.OverChannelEnds | jgl.c:83-85 | the over formula gives the base channel at alpha 0 and the overlay channel at alpha 255 |
| Color.OverChannelBetween | jgl.c:83-85 | the over formula lies between the two channels and never exceeds 255, so the clamp never fires |
| Color.BlendChannels | jgl.c:71-88 | each blended RGB lane is the over formula on that lane, and the alpha lane is the base's alpha |
| Color.BlendTransparent | jgl.c:71-88 | blending an overlay with alpha 0 leaves the pixel unchanged |
| Color.BlendOpaque | jgl.c:71-88 | blending an opaque overlay takes the overlay's RGB and keeps the base alpha |
| Color.OverVersusMix | jgl.c:58-88 | blend_colors' channel and jgl_mix_comps' channel for the same weight differ by at most one, and are equal when the overlay channel is not below the base |
| Color.BlendColors | jgl.c:71-88 | slot k becomes Blend(old slot k, c2), and no other slot changes |
| Shapes.DiscInSquare | jgl.c:156-168 | every pixel with (x-cx)²+(y-cy)² <= r² lies in the square [cx-r, cx+r]×[cy-r, cy+r] that the loops scan |
| Shapes.SortByY | jgl.c:212-228 | the three-swap network leaves the points ordered by y |
| Shapes.SortByYPermutes | jgl.c:212-228 | the sorted points are a permutation of the input points, each (x, y) pair kept together |
| Shapes.SortByYFacts | jgl.c:212-228 | an already-sorted triangle is unchanged; the x and y extents are kept; the first point has the least y and the last the greatest |
| Shapes.SortTrianglePtsByY | jgl.c:212-228 | the six out-values are the points of SortByY of the inputs |
| Shapes.HalvesDisjoint | jgl.c:443-466 | no row is scanned by both the upper and the lower span loop, so no pixel is blended twice |
| Shapes.EdgeFromBase | jgl.c:445-446 | an edge interpolated from its base vertex lies between the base x and the far x on the rows between them |
| Shapes.EdgeToBase | jgl.c:457-458 | an edge interpolated back from vertex 3 lies between the two vertices' x on the rows between them |
| Shapes.ScanWithinExtents | jgl.c:443-466 | every pixel the two span loops reach on a sorted triangle, with the x2 or the written x3 fallback, is inside the triangle's x and y extents |
| Shapes.TriangleWithinExtents | jgl.c:428-466 | every pixel jgl_fill_triangle covers, as written or corrected, lies within the triangle's bounding box |
| Shapes.NormalizeTriangle | jgl.c:274-299 | a box is returned iff both extents meet the canvas; when it is, 0 <= lx <= hx < width and 0 <= ly <= hy < height |
| Shapes.NormalizeIsClip | jgl.c:274-299 | the returned box holds exactly the canvas pixels within the triangle's extents, i.e. lx = max(0, min x), hx = min(width-1, max x), and likewise for y |
| Shapes.FillWithinNormalized | jgl.c:274-299 | every canvas pixel the triangle fill covers, as written or corrected, lies in the normalized box, which then exists |
| Shapes.FlatBottomDropsVertex | jgl.c:457 | as written (WrittenTriangleCovers), the triangle (0,0), (0,4), (4,4) leaves its vertex (0,4) undrawn but draws (4,4); with the corrected fallback (TriangleCovers) (0,4) is drawn |
| Shapes.WrittenTriangleCovers | jgl.c:428-466 | the pixels jgl_fill_triangle blends as written: the upper span between edges 1-2 and 1-3, the lower span between edges 2-3 and 1-3 with x3 as the horizontal-edge fallback |
| Shapes.WrittenLowerWithinLower | jgl.c:455-466 | on a sorted triangle, every pixel of the lower span as written is in the corrected lower span |
| Shapes.WrittenWithinCorrected | jgl.c:457 | the corrected fallback only adds pixels: whatever the fill as written blends, the corrected fill blends too |
| Shapes.CoversVertices | jgl.c:455-466 | with the horizontal-edge fallback taken at vertex 2, all three vertices of any triangle that is not flat in y are covered |
| Shapes.DiagonalLine | jgl.c:239-272 | the segment (0,0)-(4,4) covers each (i,i); neither the line as written nor the cut segment covers (0,4) |
| Shapes.LineRowBetween | jgl.c:245-250 | between the endpoints, the row the line equation gives lies between y1 and y2 |
| Shapes.OnLine | jgl.c:239-272 | the pixels jgl_draw_line colours as written: for a vertical segment the rows between the endpoints; otherwise, in each column from x1 to x2, the rows between the line's truncated row at x and at x+1 |
| Shapes.InnerColumnsUncut | jgl.c:248-259 | in every column from Min(x1,x2) up to but excluding Max(x1,x2), a pixel is on the line as written exactly when it is on the cut segment |
| Shapes.LineOvershoots | jgl.c:251 | as written (OnLine), the line (0,0)-(1,10) covers (1,20), ten rows past its last endpoint; the segment with clamped runs (OnSegment) does not |
| Shapes.InterceptMissesEnd | jgl.c:245-251 | because the intercept y1 - dy*x1/dx is truncated toward zero, the line (-3,0)-(3,1) covers its first endpoint but never reaches (3,1), as written and with clamped runs |
| Shapes.SegmentWithinEndpoints | jgl.c:248-259 | with each column's run clamped to the endpoints' rows, the segment stays inside the endpoints' box, covers its first endpoint and, in every column between the endpoints, the line's row there, and covers only pixels the code as written covers |
| Raster.SlotOf | jgl.c:20 | the slot y*stride + x of a pixel with 0 <= x < stride maps back to column x and row y |
| Raster.Canvas.constructor | jgl.c:22-31 | the canvas holds the given buffer, width, height and stride |
| Raster.Canvas.Slot | jgl.c:20 | PIXEL(c,x,y) of an on-canvas pixel is inside the buffer and maps back to (x, y) |
| Raster.Canvas.SameSlot | jgl.c:20 | distinct on-canvas pixels occupy distinct slots |
| Raster.Canvas.Fill | jgl.c:132-139 | every on-canvas pixel becomes color; padding and slots past the last row are unchanged |
| Raster.Canvas.FillRect | jgl.c:141-154 | exactly the on-canvas pixels of [x0,x0+w)×[y0,y0+h) are blended once with color; every other slot is unchanged |
| Raster.Canvas.BlendDiscRow | jgl.c:164-172 | on one on-canvas row, exactly the pixels with (x-cx)²+(y-cy)² <= r² are blended once |
| Raster.Canvas.FillCircle | jgl.c:156-175 | exactly the on-canvas pixels with (x-cx)²+(y-cy)² <= r² are blended once with color; every other slot is unchanged |
| Raster.Canvas.WriteDiscRow | jgl.c:185-193 | on one on-canvas row, exactly the pixels of the disc are overwritten with the depth word |
| Raster.Canvas.CircleZ | jgl.c:177-196 | exactly the same pixel set as FillCircle is overwritten with the depth word; every other slot is unchanged |
| Raster.Canvas.BlendSpan | jgl.c:448-452 | on one on-canvas row, exactly the pixels lo..hi that lie on the canvas are blended once |
| Raster.Canvas.FillTriangle | jgl.c:428-466 | exactly the on-canvas pixels of TriangleCovers (upper and lower spans of the y-sorted triangle, with the flat-bottom fallback at vertex 2) are blended once with color; every other slot is unchanged |
| Raster.PaintColumn | jgl.c:253-257 | rows lo..hi of column x that lie in the buffer become color; nothing else changes |
| Raster.LineColumn | jgl.c:249-258 | for one column between the endpoints, exactly the in-buffer rows of the segment's run in that column become color |
| Raster.DrawLine | jgl.c:239-272 | exactly the in-buffer pixels of OnSegment become color (written, not blended), including the vertical case dx == 0, which colours the rows between y1 and y2 of column x1; every other slot is unchanged |
| Raster.DiagonalScenario | jgl.c:239-272 | in a zeroed 5 by 5 buffer, the segment (0,0)-(4,4) colours each (i,i) and leaves (0,4) zero |
| Raster.OpaqueRectScenario | jgl.c:141-154 | on a zeroed 10 by 10 canvas, fillRect(2,2,4,4) of opaque red 0xFF0000FF makes every pixel (2,2)..(5,5) 0x000000FF (the base alpha is kept) and leaves every other pixel, (6,6) included, at 0 |
| Raster.OpaqueOverZero | jgl.c:71-88 | opaque red blended over 0 is 0x000000FF, because the base alpha is kept |

## Left out

- `barycentric`, `mix_colors3`, `jgl_triangle3c` and `jgl_triangle3z` (jgl.c:107-130, 230-237, 302-426) are not modelled. They work with floating-point weights and float-to-integer conversions.
- The PPM writer `jgl_save_to_ppm` (jgl.c:469-503) is not modelled. It is file I/O and is commented out.
- `trinket.c` and `test.c` are not part of this model. They hold a window and event loop, float vector and camera maths, a mesh arena and a platform UI demo.
- `swap_float` is not modelled. It is used only by the float routines.
- Color.MixComps: its parameters are 8-bit lanes. The C function takes `uint16_t` parameters, but every caller passes 8-bit lanes.
- Color.PackRgba32: the `|=` of each shifted lane is modelled as `+`. `Color.PackStep` proves the lanes never overlap, so the two agree.
- Color.BlendColors: `blend_colors` is declared to return `uint32_t` but returns nothing. The model is a method with no result, and callers never use the value.
- Raster.Canvas.CircleZ: takes the depth float's bit pattern as a 32-bit word, because the source only reinterprets those bits.
- Raster.Canvas.FillRect: requires w, h, x0, y0, x0+w and y0+h to fit a C `int`. For w or h above INT_MAX the source's `(int) w` / `(int) h` casts turn negative on common targets and nothing is drawn; the model does not cover those sizes. It also requires the canvas to be `Valid`: rows do not overlap, the last row ends in the buffer, and the sizes fit a C `int`. The source states none of these but relies on them.
- Raster.Canvas.FillCircle: requires the centre and radius within ±2^14, so dx*dx + dy*dy cannot overflow. It also requires a `Valid` canvas.
- Raster.Canvas.CircleZ: the same bounds as FillCircle.
- Raster.Canvas.FillTriangle: requires all coordinates within ±2^14, so the edge products cannot overflow. It also requires a `Valid` canvas. A horizontal edge 2-3 falls back to x2, not to x3 as in the source; see Findings.
- Raster.LineColumn: cuts the column's run to the rows between the endpoints, which jgl.c:252-257 does not do; see the jgl.c:251 row under Findings.
- Shapes.SegmentWithinEndpoints: promises that the first endpoint is drawn but not the second, because the source does not always draw it (Shapes.InterceptMissesEnd).
- Raster.DrawLine: requires coordinates within ±2^14 and px_width*px_height <= buffer length. It clamps each column's run to the endpoints' rows; see Findings.
- Color.PackRgba32: in C, `comp[3] << 24` shifts into the sign bit of an `int` when the byte is at least 0x80. The model takes the unsigned result that the code relies on.
- Shapes.NormalizeTriangle: it returns an optional box rather than writing four out-parameters. When it rejects a triangle, the partial values the C function has already written to the out-parameters are not modelled.
- The canvas's aliasing with other buffers is not modelled. Each routine modifies only its own `pixels` array.

## Findings

| source | as written | input that shows it | evidently intended | confidence | as-written member | corrected member |
|---|---|---|---|---|---|---|
| jgl.c:457 | when edge 2-3 is horizontal (dy23 == 0), the lower span's edge falls back to x3 | the triangle (0,0), (0,4), (4,4): the bottom row y = 4 spans only x = 4, so the vertex (0,4) is never drawn | the fallback should be x2, so the bottom row spans from vertex 2 to vertex 3 | not executed | Shapes.FlatBottomDropsVertex | Shapes.CoversVertices |
| jgl.c:251 | each column's run goes from the line's row at x to its row at x+1, including the last column x2 | the line (0,0)-(1,10) colours column 1 down to row 20, ten rows past the endpoint (1,10) | runs should be clamped to the endpoints' rows, so a segment never leaves its endpoints' box | not executed | Shapes.LineOvershoots | Shapes.SegmentWithinEndpoints |
