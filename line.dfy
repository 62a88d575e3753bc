/**
 * The line stepping of `get_line`: the integer Bresenham walk from a start
 * pixel to an integer endpoint, appending every visited pixel to the caller's
 * pixel list.
 *
 * `GetLine` computes the walk's constants and hands them to `DrawLine`, the
 * loop. The loop is proved against `Trace`, the pixels the walk visits, and
 * what makes `Trace` a rasterization of the segment is proved as lemmas.
 */
module Bresenham {
  import opened Pixels

  // ---------------------------------------------------------------------------
  // What a rasterized line is
  // ---------------------------------------------------------------------------

  /**
   * `q` follows `p` on a path toward `(x1, y1)` from `(x, y)`: each coordinate
   * stays or moves one unit in the direction of the endpoint, and at least one
   * of them moves. So consecutive pixels are 8-neighbours and the path is
   * monotone in both axes.
   */
  predicate StepsToward(p: Pixel, q: Pixel, x: int, y: int, x1: int, y1: int)
  {
    (q.x as int == p.x as int || q.x as int == p.x as int + Sign(x1 - x)) &&
    (q.y as int == p.y as int || q.y as int == p.y as int + Sign(y1 - y)) &&
    p != q
  }

  /** `p` lies in the bounding box of the two endpoints. */
  predicate InBox(p: Pixel, x: int, y: int, x1: int, y1: int)
  {
    Between(p.x as int, x, x1) && Between(p.y as int, y, y1)
  }

  /**
   * `a * b` as repeated addition: the walk adds `dx` to its accumulator once
   * per step along y and subtracts `dy` once per step along x.
   */
  ghost function Mul(a: int, b: int): int
    decreases if b < 0 then 0 else b
  {
    if b <= 0 then 0 else Mul(a, b - 1) + a
  }

  /**
   * `p` is within half a cell, along the minor axis, of the true line from
   * `(x, y)` to `(x1, y1)`: with `i` and `j` the distances travelled along x
   * and y, `|j - i * dy / dx| <= 1/2` when x is the major axis and
   * `|i - j * dx / dy| <= 1/2` otherwise, written without division. `Mul`
   * is multiplication (`MulIsProduct`); `RasterNearLine` states the bound with `*`.
   */
  ghost predicate NearLine(p: Pixel, x: int, y: int, x1: int, y1: int)
  {
    var dx, dy := Abs(x1 - x), Abs(y1 - y);
    2 * Abs(Mul(dx, Abs(p.y as int - y)) - Mul(dy, Abs(p.x as int - x))) <= Max(dx, dy)
  }

  /**
   * Every pixel of `line` is in the bounding box and near the true line from
   * `(x, y)` to `(x1, y1)`, and each pixel steps toward the endpoint from the
   * one before it.
   */
  ghost predicate Path(line: seq<Pixel>, x: int, y: int, x1: int, y1: int)
  {
    (forall k :: 0 <= k < |line| ==> InBox(line[k], x, y, x1, y1) && NearLine(line[k], x, y, x1, y1)) &&
    (forall k :: 0 <= k < |line| - 1 ==> StepsToward(line[k], line[k + 1], x, y, x1, y1))
  }

  /**
   * `line` is a rasterization of the segment from `(x, y)` to `(x1, y1)`: it
   * starts at the start point, ends at the endpoint, has one pixel per unit
   * along the major axis, and is an 8-connected monotone path whose every
   * pixel is in the bounding box and near the true line.
   */
  ghost predicate Rasterizes(line: seq<Pixel>, x: int, y: int, x1: int, y1: int)
  {
    |line| == Max(Abs(x1 - x), Abs(y1 - y)) + 1 &&
    line[0].x as int == x && line[0].y as int == y &&
    line[|line| - 1].x as int == x1 && line[|line| - 1].y as int == y1 &&
    Path(line, x, y, x1, y1)
  }

  /** A path stays a path when a pixel that steps on from its last one is appended. */
  lemma PathExtend(line: seq<Pixel>, p: Pixel, x: int, y: int, x1: int, y1: int)
    requires Path(line, x, y, x1, y1)
    requires InBox(p, x, y, x1, y1) && NearLine(p, x, y, x1, y1)
    requires |line| > 0 ==> StepsToward(line[|line| - 1], p, x, y, x1, y1)
    ensures Path(line + [p], x, y, x1, y1)
  {
  }

  // ---------------------------------------------------------------------------
  // The loop as functions
  // ---------------------------------------------------------------------------

  /** The loop's variables `err`, `x0` and `y0`. */
  datatype Cursor = Cursor(err: int, x: int, y: int)

  /**
   * What `get_line` fixes before its loop: the deltas `dx` and `dy`, the unit
   * steps `sx` and `sy`, and the loop variables' first values.
   */
  datatype Setup = Setup(dx: int, dy: int, sx: int, sy: int, start: Cursor)
  {
    /** The number of passes from the start to the endpoint: one per unit of the major axis. */
    function Steps(): int { Max(dx, dy) }
  }

  /**
   * The setup `get_line` computes for the segment from `(x, y)` to `(x1, y1)`.
   * The accumulator starts at `(if dx > dy { dx } else { -dy }) / 2` with
   * Rust's division, which truncates toward zero.
   */
  function SetupOf(x: int, y: int, x1: int, y1: int): Setup
  {
    var dx, dy: int := Abs(x1 - x), Abs(y1 - y);
    Setup(dx, dy, if x < x1 then 1 else -1, if y < y1 then 1 else -1,
          Cursor(HalfTrunc(if dx > dy then dx else -dy), x, y))
  }

  /** The accumulator's first value is half the major delta, rounded toward zero. */
  ghost predicate Balanced(k: Setup)
  {
    k.dx >= 0 && k.dy >= 0 &&
    (k.dx > k.dy ==> 0 <= k.dx - 2 * k.start.err < 2) &&
    (k.dx <= k.dy ==> -2 < -k.dy - 2 * k.start.err <= 0)
  }

  /**
   * `k` is the setup of a segment from its start to `(x1, y1)` with both ends
   * on the canvas. The accumulator's first value is pinned down by bounds
   * rather than by a division.
   */
  ghost predicate Ready(k: Setup, x1: int, y1: int)
  {
    0 <= k.start.x < CanvasSize && 0 <= k.start.y < CanvasSize &&
    0 <= x1 < CanvasSize && 0 <= y1 < CanvasSize &&
    k.dx == Abs(x1 - k.start.x) && k.dy == Abs(y1 - k.start.y) &&
    k.sx == (if k.start.x < x1 then 1 else -1) && k.sy == (if k.start.y < y1 then 1 else -1) &&
    Balanced(k)
  }

  lemma SetupReady(x: int, y: int, x1: int, y1: int)
    requires 0 <= x < CanvasSize && 0 <= y < CanvasSize && 0 <= x1 < CanvasSize && 0 <= y1 < CanvasSize
    ensures Ready(SetupOf(x, y, x1, y1), x1, y1)
  {
  }

  /**
   * One pass of the loop's body past the endpoint test: `e2` is `err` before
   * the pass; x moves by `sx` and `err` loses `dy` when `e2 > -dx`, and y moves
   * by `sy` and `err` gains `dx` when `e2 < dy`.
   */
  function Pass(k: Setup, c: Cursor): Cursor
  {
    var e2 := c.err;
    var c' := if e2 > -k.dx then Cursor(c.err - k.dy, c.x + k.sx, c.y) else c;
    if e2 < k.dy then Cursor(c'.err + k.dx, c'.x, c'.y + k.sy) else c'
  }

  /** The loop's variables after `n` passes from `c`. */
  function Iterate(k: Setup, c: Cursor, n: nat): Cursor
    decreases n
  {
    if n == 0 then c else Iterate(k, Pass(k, c), n - 1)
  }

  /** The loop's variables after `n` passes from the start. */
  function Run(k: Setup, n: nat): Cursor
  {
    Iterate(k, k.start, n)
  }

  lemma {:induction false} IterateNext(k: Setup, c: Cursor, n: nat)
    ensures Iterate(k, c, n + 1) == Pass(k, Iterate(k, c, n))
    decreases n
  {
    if n > 0 {
      IterateNext(k, Pass(k, c), n - 1);
    }
  }

  lemma RunNext(k: Setup, n: nat)
    ensures Run(k, n + 1) == Pass(k, Run(k, n))
  {
    IterateNext(k, k.start, n);
  }

  /** The pixel `pixels.push((x0 as u8, y0 as u8))` appends in state `c`. */
  function Plot(c: Cursor): Pixel
  {
    Pixel(AsU8(c.x), AsU8(c.y))
  }

  /** `p` followed by the pixels the first `n` passes append. */
  ghost function Trace(k: Setup, n: nat, p: seq<Pixel>): (line: seq<Pixel>)
    ensures |line| == |p| + n
  {
    if n == 0 then p else Trace(k, n - 1, p) + [Plot(Run(k, n - 1))]
  }

  lemma {:induction false} TracePrefix(k: Setup, n: nat, p: seq<Pixel>)
    ensures Trace(k, n, p) == p + Trace(k, n, [])
  {
    if n > 0 {
      TracePrefix(k, n - 1, p);
    }
  }

  /** The line `get_line` draws from `(x, y)` to `(x1, y1)`. */
  ghost function Line(x: int, y: int, x1: int, y1: int): seq<Pixel>
  {
    var k := SetupOf(x, y, x1, y1);
    // `Steps` is never negative here, since `dx` and `dy` are absolute
    // values; the guard only gives `Trace` a `nat` count.
    Trace(k, if k.Steps() < 0 then 0 else k.Steps() + 1, [])
  }

  /**
   * The line is the trace of one pass per unit of the major axis, and one
   * more to reach the endpoint; the guard in `Line` never applies.
   */
  lemma LineTrace(x: int, y: int, x1: int, y1: int)
    ensures SetupOf(x, y, x1, y1).Steps() >= 0
    ensures Line(x, y, x1, y1) == Trace(SetupOf(x, y, x1, y1), SetupOf(x, y, x1, y1).Steps() + 1, [])
  {
  }

  // ---------------------------------------------------------------------------
  // The walk's invariant
  // ---------------------------------------------------------------------------

  /** The accumulator `err` and the number of steps `i` taken along x and `j` along y. */
  datatype Walker = Walker(err: int, i: int, j: int)

  /** `Pass` on the accumulator and the step counts. */
  function Step(k: Setup, w: Walker): Walker
  {
    var mx, my := w.err > -k.dx, w.err < k.dy;
    Walker(w.err - (if mx then k.dy else 0) + (if my then k.dx else 0),
           w.i + (if mx then 1 else 0), w.j + (if my then 1 else 0))
  }

  function After(k: Setup, n: nat): Walker
  {
    if n == 0 then Walker(k.start.err, 0, 0) else Step(k, After(k, n - 1))
  }

  /** The coordinate `k` unit steps from `a` in the direction of the sign of `s`. */
  function Toward(a: int, s: int, k: int): int
  {
    if s > 0 then a + k else a - k
  }

  /** The loop's variables are the accumulator and the start moved `i` steps along x and `j` along y. */
  lemma {:induction false} RunAfter(k: Setup, n: nat)
    requires k.sx == 1 || k.sx == -1
    requires k.sy == 1 || k.sy == -1
    ensures Run(k, n) == Cursor(After(k, n).err, Toward(k.start.x, k.sx, After(k, n).i), Toward(k.start.y, k.sy, After(k, n).j))
  {
    if n > 0 {
      RunAfter(k, n - 1);
      IterateNext(k, k.start, n - 1);
    }
  }

  lemma {:induction false} MulIsProduct(a: int, b: int)
    requires b >= 0
    ensures Mul(a, b) == a * b
    decreases b
  {
    if b > 0 {
      MulIsProduct(a, b - 1);
    }
  }

  lemma MulNext(a: int, b: int)
    requires b >= 0
    ensures Mul(a, b + 1) == Mul(a, b) + a
  {
  }

  lemma MulSwap(a: int, b: int)
    requires a >= 0 && b >= 0
    ensures Mul(a, b) == Mul(b, a)
  {
    MulIsProduct(a, b);
    MulIsProduct(b, a);
  }

  lemma {:induction false} MulMono(a: int, b: int, c: int)
    requires a >= 0 && 0 <= b <= c
    ensures Mul(a, b) <= Mul(a, c)
    decreases c - b
  {
    if b < c {
      MulMono(a, b, c - 1);
      MulNext(a, c - 1);
    }
  }

  /**
   * The invariant of the walk after `n` steps. `err` is the start value plus
   * `dx` per step along y minus `dy` per step along x. When x is the major
   * axis (`dx > dy`) every step moves x and `err` stays in `[0, dx)`;
   * otherwise every step moves y and `err` stays in `(-dy, 0]`.
   */
  ghost predicate Walk(k: Setup, w: Walker, n: int)
  {
    var dx, dy := k.dx, k.dy;
    0 <= w.i <= dx && 0 <= w.j <= dy &&
    w.err == k.start.err + Mul(dx, w.j) - Mul(dy, w.i) &&
    (dx > dy ==> 0 <= w.err < dx && w.i == n && w.j <= n) &&
    (dx <= dy ==> -dy <= w.err <= 0 && (0 < dy ==> -dy < w.err) && w.j == n && w.i <= n)
  }

  /** The walk is at the endpoint: both deltas are used up. */
  predicate Done(k: Setup, w: Walker)
  {
    w.i == k.dx && w.j == k.dy
  }

  /**
   * Along the major axis, reaching its delta means reaching the other delta
   * too: the walk never arrives at the end of the major axis early.
   */
  lemma MajorReachesBoth(k: Setup, w: Walker, n: int)
    requires Balanced(k) && Walk(k, w, n)
    ensures k.dx > k.dy && w.i == k.dx ==> w.j == k.dy
    ensures k.dx <= k.dy && w.j == k.dy ==> w.i == k.dx
  {
    var dx, dy := k.dx, k.dy;
    if dx > dy && w.i == dx && w.j < dy {
      // err <= err0 + Mul(dx, dy - 1) - Mul(dx, dy) == err0 - dx < 0
      MulSwap(dy, dx);
      MulMono(dx, w.j + 1, dy);
      MulNext(dx, w.j);
    }
    if dx <= dy && w.j == dy && w.i < dx {
      // err >= err0 + Mul(dy, dx) - Mul(dy, dx - 1) == err0 + dy > 0
      MulSwap(dx, dy);
      MulMono(dy, w.i + 1, dx);
      MulNext(dy, w.i);
    }
  }

  /** The walk is at the endpoint exactly after one step per unit of the major axis. */
  lemma DoneWhen(k: Setup, w: Walker, n: int)
    requires Balanced(k) && Walk(k, w, n)
    ensures Done(k, w) <==> n == k.Steps()
  {
    MajorReachesBoth(k, w, n);
  }

  /**
   * A step away from the endpoint keeps the invariant: at least one axis
   * moves and neither goes past its delta.
   */
  lemma WalkStep(k: Setup, w: Walker, n: int)
    requires Balanced(k) && Walk(k, w, n) && !Done(k, w)
    ensures Walk(k, Step(k, w), n + 1)
  {
    var dx, dy := k.dx, k.dy;
    MajorReachesBoth(k, w, n);
    MulNext(dx, w.j);
    MulNext(dy, w.i);
    if dx > dy && w.err < dy && w.j == dy {
      // y would go past dy: the accumulator would reach err0 + dx >= dx
      MulSwap(dy, dx);
      MulMono(dy, w.i + 1, dx);
      assert false;
    }
    if dx <= dy && w.err > -dx && w.i == dx {
      // x would go past dx: the accumulator would drop to err0 - dy <= -dy
      MulSwap(dx, dy);
      MulMono(dx, w.j + 1, dy);
      assert false;
    }
  }

  /** Every state the loop reaches, up to the endpoint, satisfies the invariant. */
  lemma {:induction false} WalkAfter(k: Setup, n: nat)
    requires Balanced(k) && n <= k.Steps()
    ensures Walk(k, After(k, n), n)
  {
    if n > 0 {
      WalkAfter(k, n - 1);
      DoneWhen(k, After(k, n - 1), n - 1);
      WalkStep(k, After(k, n - 1), n - 1);
    }
  }

  // ---------------------------------------------------------------------------
  // The pixels the walk visits
  // ---------------------------------------------------------------------------

  /**
   * The loop's variables `c` after `n` passes, up to the endpoint: the
   * accumulator stays below the canvas size in magnitude and within the
   * bounds of the walk's invariant, the coordinates stay in the bounding box,
   * and they are at the endpoint exactly after the last pass.
   */
  lemma RunInRange(k: Setup, x1: int, y1: int, n: nat, c: Cursor)
    requires Ready(k, x1, y1) && n <= k.Steps() && c == Run(k, n)
    ensures -CanvasSize < c.err < CanvasSize
    ensures k.dx > k.dy ==> 0 <= c.err < k.dx
    ensures k.dx <= k.dy ==> -k.dy <= c.err <= 0 && (0 < k.dy ==> -k.dy < c.err)
    ensures Between(c.x, k.start.x, x1) && Between(c.y, k.start.y, y1)
    ensures (c.x == x1 && c.y == y1) <==> n == k.Steps()
  {
    RunAfter(k, n);
    WalkAfter(k, n);
    DoneWhen(k, After(k, n), n);
  }

  /**
   * The loop's variables `c` after `n` passes are within half a cell of the
   * true line: the distances travelled along x and y are the walk's step
   * counts, and the accumulator's bounds bound the error.
   */
  lemma RunNearLine(k: Setup, x1: int, y1: int, n: nat, c: Cursor)
    requires Ready(k, x1, y1) && n <= k.Steps() && c == Run(k, n)
    ensures 2 * Abs(Mul(k.dx, Abs(c.y - k.start.y)) - Mul(k.dy, Abs(c.x - k.start.x))) <= Max(k.dx, k.dy)
  {
    RunAfter(k, n);
    WalkAfter(k, n);
  }

  /** The pixel of a state on the canvas has the state's coordinates: the cast does not wrap. */
  lemma PlotOf(c: Cursor)
    requires 0 <= c.x < CanvasSize && 0 <= c.y < CanvasSize
    ensures Plot(c).x as int == c.x && Plot(c).y as int == c.y
  {
  }

  /** The pixel of a reachable state is in the bounding box and near the true line. */
  lemma PlotOnLine(k: Setup, x1: int, y1: int, n: nat)
    requires Ready(k, x1, y1) && n <= k.Steps()
    ensures InBox(Plot(Run(k, n)), k.start.x, k.start.y, x1, y1)
    ensures NearLine(Plot(Run(k, n)), k.start.x, k.start.y, x1, y1)
  {
    var c := Run(k, n);
    RunInRange(k, x1, y1, n, c);
    RunNearLine(k, x1, y1, n, c);
    PlotOf(c);
  }

  /** Consecutive states give consecutive pixels that step toward the endpoint. */
  lemma PlotSteps(k: Setup, x1: int, y1: int, n: nat)
    requires Ready(k, x1, y1) && n < k.Steps()
    ensures StepsToward(Plot(Run(k, n)), Plot(Run(k, n + 1)), k.start.x, k.start.y, x1, y1)
  {
    var c, c' := Run(k, n), Run(k, n + 1);
    RunNext(k, n);
    RunInRange(k, x1, y1, n, c);
    RunInRange(k, x1, y1, n + 1, c');
    PlotOf(c);
    PlotOf(c');
  }

  /** The pixels the walk visits form a path from the start point. */
  lemma {:induction false} TraceIsPath(k: Setup, x1: int, y1: int, n: nat)
    requires Ready(k, x1, y1) && 1 <= n <= k.Steps() + 1
    ensures Trace(k, n, [])[0].x as int == k.start.x && Trace(k, n, [])[0].y as int == k.start.y
    ensures Path(Trace(k, n, []), k.start.x, k.start.y, x1, y1)
  {
    PlotOnLine(k, x1, y1, n - 1);
    if n == 1 {
      PlotOf(k.start);
      PathExtend([], Plot(Run(k, 0)), k.start.x, k.start.y, x1, y1);
    } else {
      TraceIsPath(k, x1, y1, n - 1);
      PlotSteps(k, x1, y1, n - 2);
      PathExtend(Trace(k, n - 1, []), Plot(Run(k, n - 1)), k.start.x, k.start.y, x1, y1);
    }
  }

  /** The pixels of all the passes up to the endpoint rasterize the segment. */
  lemma TraceRasterizes(k: Setup, x1: int, y1: int)
    requires Ready(k, x1, y1)
    ensures Rasterizes(Trace(k, k.Steps() + 1, []), k.start.x, k.start.y, x1, y1)
  {
    var c := Run(k, k.Steps());
    TraceIsPath(k, x1, y1, k.Steps() + 1);
    RunInRange(k, x1, y1, k.Steps(), c);
    PlotOf(c);
  }

  /**
   * The line `get_line` draws between two points of the canvas is a
   * rasterization of the segment between them.
   */
  lemma LineRasterizes(x: int, y: int, x1: int, y1: int)
    requires 0 <= x < CanvasSize && 0 <= y < CanvasSize && 0 <= x1 < CanvasSize && 0 <= y1 < CanvasSize
    ensures Rasterizes(Line(x, y, x1, y1), x, y, x1, y1)
  {
    SetupReady(x, y, x1, y1);
    TraceRasterizes(SetupOf(x, y, x1, y1), x1, y1);
  }

  /**
   * Every pixel of a rasterization is within half a cell of the true line
   * along the minor axis, stated with plain multiplication.
   */
  lemma RasterNearLine(line: seq<Pixel>, x: int, y: int, x1: int, y1: int, k: int)
    requires Rasterizes(line, x, y, x1, y1) && 0 <= k < |line|
    ensures var dx, dy := Abs(x1 - x), Abs(y1 - y);
      2 * Abs(dx * Abs(line[k].y as int - y) - dy * Abs(line[k].x as int - x)) <= Max(dx, dy)
  {
    var dx, dy := Abs(x1 - x), Abs(y1 - y);
    assert NearLine(line[k], x, y, x1, y1);
    MulIsProduct(dx, Abs(line[k].y as int - y));
    MulIsProduct(dy, Abs(line[k].x as int - x));
  }

  /** A segment from a point to itself is drawn as that one pixel: the loop pushes it and stops. */
  lemma SinglePixelLine(x: int, y: int)
    requires 0 <= x < CanvasSize && 0 <= y < CanvasSize
    ensures Line(x, y, x, y) == [Pixel(x as u8, y as u8)]
  {
    LineRasterizes(x, y, x, y);
  }

  // ---------------------------------------------------------------------------
  // get_line
  // ---------------------------------------------------------------------------

  /** Both coordinates of a `get_line` endpoint lie on the canvas. */
  predicate EndOnCanvas(x1: i8, y1: i8)
  {
    0 <= x1 as int < CanvasSize && 0 <= y1 as int < CanvasSize
  }

  /**
   * The loop of `get_line`, from the variables its setup computes: pushes the
   * current pixel, stops at the endpoint, and otherwise moves along x, along
   * y or both.
   */
  method DrawLine(x0: i8, y0: i8, x1: i8, y1: i8, dx: i8, dy: i8, sx: i8, sy: i8, err: i8, pixels: seq<Pixel>)
    returns (r: seq<Pixel>)
    requires Ready(Setup(dx as int, dy as int, sx as int, sy as int, Cursor(err as int, x0 as int, y0 as int)), x1 as int, y1 as int)
    ensures var k := Setup(dx as int, dy as int, sx as int, sy as int, Cursor(err as int, x0 as int, y0 as int));
      r == Trace(k, k.Steps() + 1, pixels)
  {
    ghost var k := Setup(dx as int, dy as int, sx as int, sy as int, Cursor(err as int, x0 as int, y0 as int));
    var x0, y0, err := x0, y0, err;
    var e2: i8;
    // the number of passes through the loop so far
    ghost var n: nat := 0;

    r := pixels;
    while true
      invariant n <= k.Steps()
      invariant Cursor(err as int, x0 as int, y0 as int) == Run(k, n)
      invariant r == Trace(k, n, pixels)
      decreases k.Steps() - n
    {
      RunInRange(k, x1 as int, y1 as int, n, Cursor(err as int, x0 as int, y0 as int));
      r := r + [Pixel(AsU8(x0 as int), AsU8(y0 as int))];

      if x0 == x1 && y0 == y1 {
        break;
      }

      e2 := err;
      if e2 > -dx {
        err := err - dy;
        x0 := x0 + sx;
      }
      if e2 < dy {
        err := err + dx;
        y0 := y0 + sy;
      }
      RunNext(k, n);
      n := n + 1;
    }
  }

  /** What the loop appends from the setup of a segment is the line of the segment, a rasterization of it. */
  lemma LineAppended(x: int, y: int, x1: int, y1: int, pixels: seq<Pixel>, r: seq<Pixel>)
    requires 0 <= x < CanvasSize && 0 <= y < CanvasSize && 0 <= x1 < CanvasSize && 0 <= y1 < CanvasSize
    requires var k := SetupOf(x, y, x1, y1); r == Trace(k, k.Steps() + 1, pixels)
    ensures r == pixels + Line(x, y, x1, y1)
    ensures |r| > |pixels| && r[..|pixels|] == pixels
    ensures Rasterizes(r[|pixels|..], x, y, x1, y1)
  {
    var k := SetupOf(x, y, x1, y1);
    TracePrefix(k, k.Steps() + 1, pixels);
    LineTrace(x, y, x1, y1);
    LineRasterizes(x, y, x1, y1);
    assert r[|pixels|..] == Line(x, y, x1, y1);
  }

  /**
   * `get_line` from its integer endpoint on: appends to `pixels` the line
   * from `(x, y)` to `(x1, y1)` and returns the extended list.
   */
  method GetLine(x: u8, y: u8, x1: i8, y1: i8, pixels: seq<Pixel>) returns (r: seq<Pixel>)
    requires OnCanvas(Pixel(x, y)) && EndOnCanvas(x1, y1)
    ensures r == pixels + Line(x as int, y as int, x1 as int, y1 as int)
    ensures |r| > |pixels| && r[..|pixels|] == pixels
    ensures Rasterizes(r[|pixels|..], x as int, y as int, x1 as int, y1 as int)
  {
    var x0 := x as i8;
    var y0 := y as i8;

    var dx := (Abs((x1 - x0) as int)) as i8;
    var dy := (Abs((y1 - y0) as int)) as i8;

    var sx: i8 := if x0 < x1 then 1 else -1;
    var sy: i8 := if y0 < y1 then 1 else -1;

    var err := HalfTrunc((if dx > dy then dx else -dy) as int) as i8;

    ghost var k := SetupOf(x as int, y as int, x1 as int, y1 as int);
    SetupReady(x as int, y as int, x1 as int, y1 as int);
    assert k == Setup(dx as int, dy as int, sx as int, sy as int, Cursor(err as int, x0 as int, y0 as int));
    r := DrawLine(x0, y0, x1, y1, dx, dy, sx, sy, err, pixels);
    LineAppended(x as int, y as int, x1 as int, y1 as int, pixels, r);
  }
}
