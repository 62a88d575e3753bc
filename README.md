# termclock in Dafny

termclock draws an analogue clock in the terminal. Each frame holds three
things:

- a fixed ring of 40 pixels, the dial;
- an hour hand and a minute hand, each drawn with the integer Bresenham line
  algorithm from the centre pixel (8, 8);
- a compositor that packs the 16 x 16 pixels into 16 columns by 8 rows of
  terminal characters. Each character shows two vertically stacked pixels
  with the half-block glyphs: upper half, lower half or full block.

This project models that core and proves what it guarantees.

- `pixels.dfy` (module `Pixels`): Rust's `u8` and `i8` as newtypes, the
  `as u8` cast, and Rust's truncating `/ 2`.
- `line.dfy` (module `Bresenham`): `get_line` from its integer endpoint on.
  - `GetLine` computes the setup of src/main.rs:33-45 with `i8` arithmetic.
    `DrawLine` is the loop of src/main.rs:48-65. It pushes the current pixel,
    stops at the endpoint, and otherwise runs the two `e2` tests.
  - `SetupOf` is the same setup (src/main.rs:39-45) on integers, and `Pass` is
    one pass of the loop body (src/main.rs:56-64). The loop is proved against
    `Trace`, the pixels the passes visit.
  - The lemmas prove `Trace` is a rasterization of the segment:
    - it starts at the start point and ends at the endpoint;
    - it has one pixel per unit of the major axis;
    - each pixel steps by at most one in each coordinate, toward the endpoint,
      and at least one coordinate moves;
    - every pixel is in the bounding box and within half a cell of the true
      line.
  - Every `i8` operation and the `as u8` cast are checked not to overflow or
    wrap for endpoints on the canvas.
- `compositor.dfy` (module `Compositor`): the merge `match` on characters
  (`MergeGlyph` is the `match` of src/main.rs:101-107), the four-state cell
  lattice (`Cell`, `Merge`), and the compositor loop over a 16 x 8
  `array2<char>` updated in place (`Mark`, `Compose`).
  - A cell is proved to depend only on which of its halves some pixel hit.
  - So the order and the repetition of the pixels do not matter.
- `dial.dfy` (module `Dial`): `Circle` is the `CIRCLE` constant of
  src/main.rs:12-28, with its properties.
- `clock.dfy` (module `Clock`): one frame: the dial, the two hands appended
  to it, and the compositing.

## Model

| member | source | states |
|---|---|---|
| `Pixels.AsU8OfI8` | src/main.rs:50 | the `as u8` cast of an `i8` keeps a non-negative value and adds 256 to a negative one |
| `Pixels.Abs` | src/main.rs:39-40 | the absolute value of the difference is one of `v` and `-v`, and is non-negative |
| `Pixels.HalfTrunc` | src/main.rs:45 | Rust's `/ 2` truncates toward zero: the remainder is `0` or `1` for a non-negative dividend, and `0` or `-1` for a negative one |
| `Bresenham.SetupReady` | src/main.rs:39-45 | the deltas, unit steps and first accumulator `get_line` computes satisfy the bounds the walk's invariant starts from |
| `Bresenham.RunNext` | src/main.rs:56-64 | the loop's variables after `n + 1` passes are one pass of the loop body applied to those after `n` |
| `Bresenham.Trace` | src/main.rs:48-65 | each pass of the loop pushes exactly one pixel |
| `Bresenham.TracePrefix` | src/main.rs:50 | the loop only appends: the pixels already in the vector stay in front, unchanged |
| `Bresenham.RunAfter` | src/main.rs:56-64 | the loop's coordinates are the start moved by `sx` per step along x and by `sy` per step along y |
| `Bresenham.MajorReachesBoth` | src/main.rs:52-64 | reaching the end of the major axis means reaching the end of the minor one too |
| `Bresenham.DoneWhen` | src/main.rs:52-54 | the endpoint test succeeds exactly after one pass per unit of the major axis |
| `Bresenham.WalkStep` | src/main.rs:56-64 | a pass away from the endpoint keeps the invariant `err == err0 + dx*j - dy*i` with `err` in `[0, dx)` (x major) or `(-dy, 0]` (y major) |
| `Bresenham.WalkAfter` | src/main.rs:45-64 | every state up to the endpoint satisfies the walk's invariant |
| `Bresenham.RunInRange` | src/main.rs:42-64 | the accumulator stays within 16 in magnitude and the coordinates stay in the bounding box, so no `i8` operation overflows; the endpoint is reached exactly after the last pass |
| `Bresenham.RunNearLine` | src/main.rs:45-64 | every state is within half a cell of the true line along the minor axis |
| `Bresenham.PlotOf` | src/main.rs:50 | the `as u8` cast of a coordinate on the canvas is lossless |
| `Bresenham.PlotOnLine` | src/main.rs:50 | every pushed pixel is in the bounding box of the endpoints and near the true line |
| `Bresenham.PlotSteps` | src/main.rs:42-64 | consecutive pushed pixels differ by at most one in each coordinate and in the direction of the endpoint, and are different |
| `Bresenham.TraceIsPath` | src/main.rs:48-65 | the first pushed pixel is the start point and the pushed pixels form an 8-connected monotone path near the line |
| `Bresenham.TraceRasterizes` | src/main.rs:48-65 | the pixels of all passes to the endpoint rasterize the segment, the last being the endpoint |
| `Bresenham.LineRasterizes` | src/main.rs:30-66 | the line `get_line` draws between two points of the canvas rasterizes the segment between them |
| `Bresenham.RasterNearLine` | src/main.rs:45-64 | for every pixel of the drawn line, at distances `i` along x and `j` along y from the start, twice the absolute value of `dx * j - dy * i` is at most `max(dx, dy)` |
| `Bresenham.SinglePixelLine` | src/main.rs:48-54 | a line from a point to itself is exactly that one pixel |
| `Bresenham.DrawLine` | src/main.rs:46-65 | the loop terminates, and the list it returns is the list it was given followed by the pixels of one pass per unit of the major axis plus the endpoint |
| `Bresenham.LineAppended` | src/main.rs:50 | what the loop returns is the caller's pixels followed by the line, which rasterizes the segment |
| `Bresenham.GetLine` | src/main.rs:30-66 | appends the line from `(x, y)` to `(x1, y1)` to `pixels`, keeps the old pixels in front, and the appended part rasterizes the segment |
| `Compositor.CellOf` | src/main.rs:101-107 | each combination of lit halves has exactly one cell |
| `Compositor.Merge` | src/main.rs:101-107 | hitting a half lights it and keeps what was lit, and on glyphs it is the merge `match` |
| `Compositor.GlyphInjective` | src/main.rs:9-11 | the four glyphs are distinct, so a character determines its cell |
| `Compositor.CellAfterHits` | src/main.rs:93-108 | after any pixels each cell is full, upper, lower or blank according to which of its halves some pixel hit |
| `Compositor.SamePixelsSameCell` | src/main.rs:95-107 | two pixel lists holding the same pixels give the same cells, whatever the order and the repetitions |
| `Compositor.OrderIndependent` | src/main.rs:95-107 | a permutation of the pixels gives the same cells |
| `Compositor.Idempotent` | src/main.rs:95-107 | merging the same pixels twice gives the cells of merging them once |
| `Compositor.NoPixelsBlank` | src/main.rs:93 | with no pixels a cell is a space |
| `Compositor.Mark` | src/main.rs:96-107 | one pixel changes only the character at `[x][y / 2]`, to the merge of its old value with the pixel's half |
| `Compositor.Compose` | src/main.rs:93-108 | a fresh 16 x 8 grid whose every character is the glyph of the cell the pixels make |
| `Dial.CircleOnCanvas` | src/main.rs:12-28 | the dial has 40 pixels, all with both coordinates in `1..15`, so indexing the grid with them cannot fail |
| `Dial.CircleOrdered` | src/main.rs:12-28 | the dial is listed row by row, left to right |
| `Dial.CircleDistinct` | src/main.rs:12-28 | no dial pixel is listed twice |
| `Dial.CircleRing` | src/main.rs:12-28 | every dial pixel's squared distance from (8, 8) is between 45 and 53 |
| `Dial.CircleSymmetricX` | src/main.rs:12-28 | the dial is symmetric about the vertical axis through the centre |
| `Dial.CircleSymmetricY` | src/main.rs:12-28 | the dial is symmetric about the horizontal axis through the centre |
| `Clock.LineOnCanvas` | src/main.rs:90-97 | every pixel of a hand whose endpoint is on the canvas indexes the grid without failing |
| `Clock.Frame` | src/main.rs:89-108 | the frame's grid shows the cells made by the dial followed by the hour hand and the minute hand |
| `Clock.HandsKeepDial` | src/main.rs:89-108 | the hands never erase a dial pixel: its half is lit in every frame |

## Left out

- The hands' endpoints (src/main.rs:31, 36-37) are computed with `f32`
  trigonometry and rounding. `GetLine` and `Frame` take the integer endpoint
  instead. The angle factors (src/main.rs:7-8) and the angle computation at
  src/main.rs:90-91 go with them.
- `dx` and `dy` are computed through `f32::abs` (src/main.rs:39-40). They are
  modelled as the integer absolute value, which is exact for these small
  integers.
- The debug `println!` in the loop (src/main.rs:49) is output only.
- The Ctrl-C handler and the `AtomicBool` running flag (src/main.rs:70-76, 81)
  are cross-thread signalling. The model draws one frame.
- Reading the wall clock through `chrono` (src/main.rs:82-87) is left out.
- The `crossterm` calls (src/main.rs:74, 77-79, 110-117) and the 500 ms sleep
  (src/main.rs:119) are left out. These are terminal I/O and a timer.
- `GetLine`: `get_line` pushes onto a caller's `&mut Vec`. The model passes
  the vector's contents in and returns the extended contents, so aliasing of
  the vector is not modelled.
- `DrawLine`: the loop of `get_line` (src/main.rs:48-65) is a method of its
  own that `GetLine` calls with the setup's values.
- `Compose`: the pixels must lie on the canvas. Outside it the source's index
  `char_grid[x][y / 2]` panics, and a panic is not modelled.
- `GetLine`: the endpoints must lie on the canvas, and what `get_line` does
  with other endpoints is not modelled. For an endpoint a little off the
  canvas no `i8` operation overflows: `get_line` pushes pixels with a
  coordinate of 16 or more, or a negative coordinate that the `as u8` cast
  at src/main.rs:50 wraps (-1 becomes 255). A cast never panics. The failure
  comes later, when `char_grid[x as usize][half_y as usize]` panics at
  src/main.rs:97. Only a line whose y delta is at least its x delta can
  overflow the `i8` accumulator, at `err - dy` (src/main.rs:58), and only when
  `dx + dy >= 130`. For example `dx = 65, dy = 66` overflows while
  `dx = dy = 65` does not. The program's own calls (src/main.rs:90-91) draw
  hands of length 2.8 and 4.8 from (8, 8), so their endpoints round into
  `3..13` and the precondition holds at every call.
