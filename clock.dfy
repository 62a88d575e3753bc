/**
 * One frame of the terminal clock: the dial's pixels, the hour hand and the
 * minute hand drawn from the centre, composited into the grid of half-block
 * characters. The hands' endpoints are parameters: working them out from the
 * time of day is floating-point trigonometry and is not part of this model.
 */
module Clock {
  import opened Pixels
  import opened Bresenham
  import opened Compositor
  import opened Dial

  /** Every pixel of the line between two points of the canvas lies on the canvas. */
  lemma LineOnCanvas(x: int, y: int, x1: int, y1: int)
    requires 0 <= x < CanvasSize && 0 <= y < CanvasSize && 0 <= x1 < CanvasSize && 0 <= y1 < CanvasSize
    ensures forall k :: 0 <= k < |Line(x, y, x1, y1)| ==> OnCanvas(Line(x, y, x1, y1)[k])
  {
    LineRasterizes(x, y, x1, y1);
  }

  /** The pixels of a frame: the dial, then the hour hand, then the minute hand. */
  ghost function FramePixels(hourX: int, hourY: int, minuteX: int, minuteY: int): seq<Pixel>
  {
    Circle + Line(Centre, Centre, hourX, hourY) + Line(Centre, Centre, minuteX, minuteY)
  }

  /**
   * The body of the clock's loop from the hands' endpoints on: copies the
   * dial, appends the two hands and composites the pixels into a fresh grid.
   */
  method Frame(hourX: i8, hourY: i8, minuteX: i8, minuteY: i8) returns (grid: array2<char>)
    requires EndOnCanvas(hourX, hourY) && EndOnCanvas(minuteX, minuteY)
    ensures fresh(grid) && grid.Length0 == Columns && grid.Length1 == Rows
    ensures forall x, h :: 0 <= x < Columns && 0 <= h < Rows ==>
      grid[x, h] == Glyph(CellAfter(FramePixels(hourX as int, hourY as int, minuteX as int, minuteY as int), x, h))
  {
    var pixels := Circle;
    pixels := GetLine(8, 8, hourX, hourY, pixels);
    pixels := GetLine(8, 8, minuteX, minuteY, pixels);
    CircleOnCanvas();
    LineOnCanvas(Centre, Centre, hourX as int, hourY as int);
    LineOnCanvas(Centre, Centre, minuteX as int, minuteY as int);
    grid := Compose(pixels);
  }

  /**
   * Whatever the hands, every pixel of the dial is lit in the frame: a cell
   * only ever gains halves, so the hands drawn after the dial cannot erase it.
   */
  lemma HandsKeepDial(hourX: int, hourY: int, minuteX: int, minuteY: int, k: int)
    requires 0 <= k < |Circle|
    ensures var p := Circle[k];
      var c := CellAfter(FramePixels(hourX, hourY, minuteX, minuteY), p.x as int, p.y as int / 2);
      if IsUpper(p) then c.HasUpper() else c.HasLower()
  {
    var ps := FramePixels(hourX, hourY, minuteX, minuteY);
    var p := Circle[k];
    assert ps[k] == p;
    CellAfterHits(ps, p.x as int, p.y as int / 2);
  }
}
