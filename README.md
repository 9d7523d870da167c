# Bresenham line rasterizer

This project models `line(x0, y0, x1, y1, image, color)` from the TinyRenderer
lesson code, an integer-only version of Bresenham's line algorithm, and
proves what it draws.

The model has three modules:

- `Rounding` holds the arithmetic behind the decision rule. `Round(k, a, d)`
  is the integer nearest to `k * a / d`, with an exact half rounded toward
  the start. `RoundStep` shows that the rasterizer's doubled error `error2`
  computes this rounding one step at a time, with no division.
- `LineSpec` is the reference definition. `Normalize` replays the transpose
  step (steep segments) and the reorder step (right-to-left segments).
  `Pixels(x0, y0, x1, y1)` is the sequence of positions the function
  writes, in closed form. The lemmas state what the sequence looks like:
  its length, endpoints, 8-connectivity, symmetry, rounding, axis-aligned
  and steep cases.
- `Raster` is the imperative model. `Line` does the swaps on local copies of
  the coordinates, as the source does with `std::swap`. The `for` loop is
  the `while` loop of `Walk`, with `x`, `y` and `error2` as in the source.
  Each `image.set` becomes an assignment into an `array2<Color>` indexed
  `[x, y]`. `Line` is proved to write exactly `Pixels(x0, y0, x1, y1)`:
  - in that order, as recorded in a ghost trace;
  - in the given colour;
  - changing no other pixel of the image.

The loop's decision rule and the closed-form rounding are connected by
`Raster.Run`, the loop state after k iterations, and by `Raster.RunIsRound`.

## Model

| member | source | states |
|---|---|---|
| Raster.Line | main.cpp:68-104 | The positions written, in order, are exactly `Pixels(x0, y0, x1, y1)`. Every written pixel holds `color` and every other pixel keeps its old colour. |
| Raster.Walk | main.cpp:82-103 | Over a normalised segment the loop writes, in order, the pixels produced by the decision rule for x0..x1. The image changes only at those pixels, to `color`. |
| Raster.Run | main.cpp:97-101 | Defines the loop state after k iterations: the number of times y has stepped toward y1, and error2, computed by the add-test-subtract rule from error2 = 0. Its contract states that y steps at most once per iteration. |
| Raster.Written | main.cpp:87-96 | Defines the positions passed to `image.set` in the first k iterations, in call order: (x0 + i, y) or, when steep, (y, x0 + i), with y taken from `Run`. Its contract states that there is exactly one write per iteration. |
| Raster.RunIsRound | main.cpp:97-101 | After k iterations, the loop's secondary offset is the nearest-integer rounding of k·abs(dy)/dx. The doubled error equals 2k·abs(dy) − 2n·dx for that offset n. |
| Raster.ErrorRange | main.cpp:97-101 | After every iteration, −dx < error2 ≤ dx when dx > 0. When dx = 0, error2 stays 0. |
| Raster.RunBounded | main.cpp:97-101 | Up to x1 the loop's y never passes y1: the secondary offset is at most abs(dy). |
| Raster.WrittenIsPrefix | main.cpp:87-96 | The first k writes of the loop are the first k pixels of the reference sequence. |
| Raster.WrittenIsAlong | main.cpp:87-103 | All dx + 1 writes of the loop form the whole reference sequence of the normalised segment. |
| Raster.NoOverflow | main.cpp:71-101 | With every argument x0, y0, x1, y1 of `line` within 2^28 of the origin, these values fit in a 32-bit int: the differences tested at line 71, dx·2, derror2, x, y, error2 and error2 + derror2, at every iteration up to the exit test. |
| Raster.LoopNoOverflow | main.cpp:82-101 | The same bounds for the loop, stated over the normalised segment's coordinates. |
| LineSpec.Normalize | main.cpp:70-81 | The segment is steep exactly when abs(x0−x1) < abs(y0−y1). After the transpose and reorder, the primary axis runs upward over max(abs(dx), abs(dy)) steps. The start and end are the two endpoints, swapped exactly when the reorder fires. |
| LineSpec.Pixels | main.cpp:71-87 | Exactly max(abs(x1−x0), abs(y1−y0)) + 1 pixels are written. |
| LineSpec.Endpoints | main.cpp:77-103 | The first pixel is the normalised start point and the last is the normalised end point. Both endpoints are written. |
| LineSpec.Step | main.cpp:87-101 | Between consecutive writes the primary coordinate grows by exactly 1. The secondary coordinate either stays or moves by 1 in the direction of y1 − y0. |
| LineSpec.EightConnected | main.cpp:87-101 | Consecutive pixels are distinct 8-neighbours. |
| LineSpec.CoversLongerAxis | main.cpp:71-92 | The i-th pixel lies at min + i on the longer axis: y for a steep segment, x otherwise. So every integer on that axis between the endpoints is written once, in increasing order. |
| LineSpec.Distinct | main.cpp:87-96 | No pixel is written twice. |
| LineSpec.WithinBox | main.cpp:87-101 | Every pixel lies in the bounding box of the two endpoints. |
| LineSpec.SecondaryIsNearest | main.cpp:84-101 | The secondary coordinate of pixel i is the start's plus any n satisfying −dx < 2i·abs(dy) − 2n·dx ≤ dx. This is nearest-integer rounding with halves toward the start. |
| LineSpec.Symmetric | main.cpp:71-81 | Swapping the two endpoints yields the identical sequence of writes. |
| LineSpec.SinglePoint | main.cpp:82-103 | When p0 = p1, exactly that one pixel is written. |
| LineSpec.Horizontal | main.cpp:84-101 | A horizontal segment writes (x0, y) … (x1, y), with y never stepping. |
| LineSpec.Vertical | main.cpp:71-98 | A vertical segment, handled by the steep path, writes (x, y0) … (x, y1). |
| LineSpec.Diagonal | main.cpp:97-101 | A 45-degree segment (x0, y0)-(x0 + n, y0 + n) writes (x0 + i, y0 + i) for i = 0..n: both coordinates step at every pixel. |
| LineSpec.AntiDiagonal | main.cpp:97-101 | A 45-degree segment (x0, y0)-(x0 + n, y0 − n) writes (x0 + i, y0 − i) for i = 0..n: y steps by −1 at every pixel. With `Symmetric`, this and `Diagonal` cover all four 45-degree directions. |
| LineSpec.HorizontalExample | main.cpp:84-101 | (0,0)-(4,0) writes exactly (0,0), (1,0), (2,0), (3,0), (4,0). |
| LineSpec.SteepExamplePixel | main.cpp:84-101 | The k-th pixel of (x0,y0)-(x0+1,y0+5) has x offset 0 for k < 3 and 1 after. |
| LineSpec.SteepExample | main.cpp:71-101 | (0,0)-(1,5), and every translate of it, writes x offsets 0,0,0,1,1,1 at y offsets 0..5. |
| LineSpec.ReversedDiagonalExample | main.cpp:71-81 | (4,4)-(0,0) and (0,0)-(4,4) both write (0,0), (1,1), (2,2), (3,3), (4,4). |
| Rounding.Round | main.cpp:84-101 | For dx > 0 the result n satisfies −dx < 2k·abs(dy) − 2n·dx ≤ dx. For dx = 0 it is 0. |
| Rounding.NearestUnique | main.cpp:97-101 | At most one offset satisfies that bound, so the loop's choice of y is determined. |
| Rounding.RoundStep | main.cpp:97-101 | Add derror2 to the doubled error. If the sum exceeds dx, step y and subtract 2dx. The result is the next rounding and its doubled error. |
| Rounding.RoundAtStart | main.cpp:85-86 | At k = 0 the rounding is 0, matching `error2 = 0` and `y = y0`. |
| Rounding.RoundAtEnd | main.cpp:87-103 | At k = dx the rounding is exactly abs(dy), so the last pixel lands on y1. |
| Rounding.RoundBounded | main.cpp:97-101 | Up to k = dx the rounding never exceeds abs(dy). |
| Rounding.RoundIncrement | main.cpp:97-101 | Consecutive roundings differ by 0 or 1. |
| Rounding.RoundFlat | main.cpp:84-98 | With abs(dy) = 0 the rounding is always 0: `error2 > dx` never fires. |

## Left out

- `main` is not part of this model. It loads a `Model`, projects vertices with floating point, iterates faces and writes a TGA file. This is all I/O, floating point or classes whose source is not part of this model.
- The commented-out earlier versions of `line` are dead code and are not modelled.
- `TGAImage` and `TGAColor` are not part of this model. The image is an `array2<Color>` indexed `[x, y]`, and the colour is an RGBA value with 8-bit channels. `TGAImage::set` becomes an assignment to one array cell.
- Raster.Line: requires both endpoints to lie inside the image. The bounds check of `TGAImage::set` is not part of this model. Given the endpoints, every written pixel is proved to lie inside the image (`LineSpec.WithinBox`, `Raster.StepInImage`).
- Raster.Line: integers are unbounded, so 32-bit overflow of `dx * 2`, `std::abs(dy) * 2` and `error2 += derror2` is not modelled. `Raster.NoOverflow` proves that no intermediate value overflows when every argument of `line` lies within 2^28 of the origin. A bound of 2^29 would not suffice, because `error2 + derror2` can reach about 3·dx.
- Raster.Line: the sequence of writes is a ghost result. The image alone records which pixels were written, not their order.
- Raster.Walk: the `for` loop of `line` is a separate method so that its proof stays small. `Line` keeps the swaps and calls it once.
- Raster.ErrorRange: the bound −dx < error2 ≤ dx cannot hold when dx = 0, because the segment is a single point and error2 stays 0. The lemma states that case separately.
