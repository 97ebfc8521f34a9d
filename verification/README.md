# Mandelbrot plane engine, modelled in Dafny

This project models `ComplexPlane`, the engine of an interactive Mandelbrot viewer. It covers
the engine's integer and index logic, not its floating-point geometry. The engine holds:

- a `width` by `height` pixel grid;
- a row-major vertex buffer of `width * height` cells `(posX, posY, colour)`;
- the visible region of the complex plane: a centre and a zoom level;
- a render-validity flag, CALCULATING or DISPLAYING.

Zooming and re-centring mark the buffer stale (CALCULATING). Each frame, while the state is
CALCULATING, `updateRender` splits the columns among the available hardware threads.
Each thread runs `multiRender` over its own column range. For every pixel the engine maps the pixel to a point, counts the
escape-time iterations of that point (`countIterations`), and turns the count into a colour
(`iterationsToRGB`). The state then becomes DISPLAYING.

`Limits` holds shared constants; the other four modules follow the components of
`ComplexPlane.cpp`:

- `Limits` (`limits.dfy`): `int`, `size_t` and exact-`float` limits. It also holds the
  predicate `ValidMaxIter`: MAX_ITER is positive and `4 * MAX_ITER` fits in an `int`
  (`countIterations` also needs MAX_ITER below `INT_MAX`, or its `int` loop counter
  would overflow).
- `Coloring` (`coloring.dfy`): `iterationsToRGB`. The channel value
  `static_cast<Uint8>(255 * count / MAX_ITER)` is written out exactly: a product in `size_t`
  (wrapping at 2^64), a truncating division, then a narrowing to eight bits.
- `Escape` (`escape.dfy`): the counting loop of `countIterations`. It runs over an abstract
  escape test `escapes(c, i)`, which stands for `abs(z) > 2.0` at loop step `i`.
- `Partition` (`partition.dfy`): `updateRender`'s column arithmetic. Worker `i` of `P`
  gets columns `[i * (W / P), (i + 1) * (W / P))`.
- `Plane` (`plane.dfy`): the class `ComplexPlane`. It has the buffer as an `array<Vertex>`
  and methods for `multiRender`, `updateRender`, `zoomIn`, `zoomOut`, `setCenter` and
  `setMouseLocation`.

Three behaviours of the code are easy to misread:

- When no step escapes, `countIterations` returns MAX_ITER + 1, not MAX_ITER. The loop runs
  `0..MAX_ITER` inclusive. So points inside the set fall into the last band and are drawn
  red with channel `255 / MAX_ITER - 1` (MAX_ITER up to 255) or 255 (above 255), rather than
  black (`InteriorColour`, `InteriorPixel`). For MAX_ITER >= 5, a count up to MAX_ITER is
  black only when it equals MAX_ITER (`BlackOnlyAtMaxIter`); the interior red channel is 0,
  and so black, when MAX_ITER is between 128 and 255.
- The channel value is not clamped to 0–255. It wraps modulo 256, which matters for counts
  above MAX_ITER (`InteriorBase`).
- The trailing `W mod P` columns are never assigned to a worker. They keep their old
  contents (`UpdateRender`, `Uncovered`).

The worker threads write disjoint column ranges (`PartitionsDisjoint`). So the model runs the
workers one after another, as `MultiRender` calls in worker order.

## Model

| member | source | states |
|---|---|---|
| `Coloring.IterationsToRGB` | ComplexPlane.cpp:141-153 | a count of exactly MAX_ITER is black (0,0,0); any count below MAX_ITER/5 is (21,182,221) |
| `Coloring.BandColours` | ComplexPlane.cpp:141-173 | for every count below MAX_ITER: [M/5,2M/5) gives (0,b,b), [2M/5,3M/5) gives (0,b,0), [3M/5,4M/5) gives (b,b,0), the rest gives (b,0,0); b is the channel `Base`, equal to the unwrapped quotient 255*count/MAX_ITER |
| `Coloring.BaseExact` | ComplexPlane.cpp:142 | for count <= MAX_ITER neither the size_t product nor the Uint8 cast wraps: the channel `Base` equals 255*count/MAX_ITER, which is at most 255 |
| `Coloring.BaseMonotone` | ComplexPlane.cpp:142 | for counts up to MAX_ITER, a larger count never gives a smaller channel value `Base` |
| `Coloring.BlackOnlyAtMaxIter` | ComplexPlane.cpp:141-173 | with MAX_ITER >= 5 and count <= MAX_ITER, the colour is black if and only if count == MAX_ITER |
| `Coloring.InteriorBase` | ComplexPlane.cpp:142 | for count MAX_ITER+1 the channel `Base` wraps to 255/MAX_ITER - 1 when MAX_ITER <= 255; otherwise it is 255 |
| `Coloring.InteriorColour` | ComplexPlane.cpp:141-173 | count MAX_ITER+1 falls into the last band, with that wrapped red channel and zero green and blue |
| `Escape.EscapeFrom` | ComplexPlane.cpp:127-135 | from step i, the result is the first escaping step in i..MAX_ITER, or MAX_ITER+1 if none escapes; no earlier step escapes |
| `Escape.EscapeTime` | ComplexPlane.cpp:118-137 | the escape time lies in [0, MAX_ITER+1] |
| `Escape.EscapeTimeUnique` | ComplexPlane.cpp:118-137 | any count that no escape precedes, and that escapes itself unless it is MAX_ITER+1, is the escape time |
| `Escape.CountIterations` | ComplexPlane.cpp:118-137 | the loop returns a count in [0, MAX_ITER+1]; no step before it escapes; the count is the first escaping step, or MAX_ITER+1 if steps 0..MAX_ITER all fail to escape |
| `Partition.PartitionBounds` | ComplexPlane.cpp:49-51 | for P >= 1 and i < P, with startX_i = `StartX(i, W, P)` and stopX_i = `StopX(i, W, P)`: 0 <= startX_i <= stopX_i <= P*(W/P) <= W, and stopX_i == startX_{i+1} |
| `Partition.PartitionsDisjoint` | ComplexPlane.cpp:49-55 | no column lies in the ranges `[StartX, StopX)` (predicate `InRange`) of two different workers |
| `Partition.Coverage` | ComplexPlane.cpp:49-55 | a column is in some worker's range `InRange` if and only if it is below `CoveredWidth(W, P)` = P*(W/P) |
| `Partition.Uncovered` | ComplexPlane.cpp:49-51 | exactly W mod P trailing columns belong to no worker (all W columns when P == 0) |
| `Plane.CellIndex` | ComplexPlane.cpp:26-29 | for a row i < H and a column j < W, index j + i*W lies in [0, W*H), and its column and row are j and i again |
| `Plane.IndexCell` | ComplexPlane.cpp:26-29 | every buffer index k in [0, W*H) is the cell of column k mod W and row k / W < H |
| `Plane.ComplexPlane.InteriorPixel` | ComplexPlane.cpp:29-39 | a pixel whose point escapes at no step 0..MAX_ITER gets the last band's colour (the else branch, not the count == MAX_ITER branch): Rgb(255/MAX_ITER - 1, 0, 0) when MAX_ITER <= 255, which is black for 128..255, and Rgb(255, 0, 0) above 255 |
| `Plane.ComplexPlane.constructor` | ComplexPlane.cpp:5-16 | for a grid whose W*H fits in an int and whose width and height are at most 2^24: zoomCount 0; state CALCULATING; centre at the origin; a fresh buffer of W*H default vertices |
| `Plane.ComplexPlane.MultiRender` | ComplexPlane.cpp:24-43 | each cell whose column is in [startX, stopX) gets position (column, row), so its index is posY*W + posX, and gets the colour of its point's escape time, together the vertex `Shade(column, row)`; every other cell is unchanged |
| `Plane.ComplexPlane.UpdateRender` | ComplexPlane.cpp:45-64 | from CALCULATING: the columns below `CoveredWidth(W, P)` = P*(W/P) are rendered (each cell becomes `Shade(column, row)`), the others are unchanged, and the state becomes DISPLAYING, even when P == 0; from DISPLAYING: neither buffer nor state changes |
| `Plane.ComplexPlane.ZoomIn` | ComplexPlane.cpp:66-74 | zoomCount rises by exactly 1 and the state becomes CALCULATING; nothing else changes |
| `Plane.ComplexPlane.ZoomOut` | ComplexPlane.cpp:76-84 | zoomCount falls by exactly 1 and the state becomes CALCULATING, so a ZoomIn followed by a ZoomOut restores zoomCount |
| `Plane.ComplexPlane.SetCenter` | ComplexPlane.cpp:86-91 | the centre becomes the point under the given pixel in the old region, and the state becomes CALCULATING |
| `Plane.ComplexPlane.SetMouseLocation` | ComplexPlane.cpp:93-97 | records the point under the given pixel; state, zoomCount and centre are unchanged |

## Left out

- Floating point. `mapPixelToCoords` (ComplexPlane.cpp:176-189) is the uninterpreted
  parameter `toPlane`. It takes the region, which is the centre and zoomCount. The aspect
  ratio is fixed at construction and is folded into `toPlane`.
- The plane size `BASE_WIDTH * pow(BASE_ZOOM, zoomCount)` (ComplexPlane.cpp:69-71, 79-81)
  is not computed. A region is identified by its centre and zoomCount, and the size is a
  function of zoomCount.
- The `complex<double>` orbit and the test `abs(z) > 2.0` (ComplexPlane.cpp:124-129) are the
  uninterpreted parameter `escapes`.
- `std::thread` creation and `join` (ComplexPlane.cpp:46-58). Workers run sequentially over
  ranges that are proved disjoint. `hardware_concurrency()` is the parameter `workers` of
  `UpdateRender`.
- `draw` and `loadText` (ComplexPlane.cpp:18-22, 99-116). These are SFML graphics and text
  output. main.cpp (window, events, frame loop) is not part of this model either.
- ZoomIn: `m_zoomCount` is an unbounded integer, so `int` overflow after 2^31 zoom steps
  in one direction is not modelled.
- ZoomOut: same as ZoomIn.
- MultiRender: the round trip of a column and row through `float` and back to `int` is
  treated as exact. That holds because `Valid()` and the constructor keep both the width
  and the height at most 2^24. The vertex's texture coordinates are not modelled.
- MAX_ITER's value: ComplexPlane.h is not part of this model. MAX_ITER is the class constant
  `maxIter`, constrained by `ValidMaxIter`.
