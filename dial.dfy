/**
 * The clock's dial: forty pixels of the 16 x 16 canvas on a ring around the
 * centre pixel (8, 8), listed row by row from the top.
 */
module Dial {
  import opened Pixels

  /** The centre of the dial, where both hands start. */
  const Centre: int := 8

  const Circle: seq<Pixel> := [
    Pixel(6, 1), Pixel(7, 1), Pixel(8, 1), Pixel(9, 1), Pixel(10, 1),
    Pixel(4, 2), Pixel(5, 2), Pixel(11, 2), Pixel(12, 2),
    Pixel(3, 3), Pixel(13, 3),
    Pixel(2, 4), Pixel(14, 4),
    Pixel(2, 5), Pixel(14, 5),
    Pixel(1, 6), Pixel(15, 6),
    Pixel(1, 7), Pixel(15, 7),
    Pixel(1, 8), Pixel(15, 8),
    Pixel(1, 9), Pixel(15, 9),
    Pixel(1, 10), Pixel(15, 10),
    Pixel(2, 11), Pixel(14, 11),
    Pixel(2, 12), Pixel(14, 12),
    Pixel(3, 13), Pixel(13, 13),
    Pixel(4, 14), Pixel(5, 14), Pixel(11, 14), Pixel(12, 14),
    Pixel(6, 15), Pixel(7, 15), Pixel(8, 15), Pixel(9, 15), Pixel(10, 15)
  ]

  /** `p` comes before `q` when the pixels are read row by row, left to right. */
  predicate Before(p: Pixel, q: Pixel)
  {
    p.y < q.y || (p.y == q.y && p.x < q.x)
  }

  /** Squared distance from the dial's centre. */
  function Distance2(p: Pixel): int
  {
    (p.x as int - Centre) * (p.x as int - Centre) + (p.y as int - Centre) * (p.y as int - Centre)
  }

  /**
   * The dial has forty pixels, each with both coordinates in `1..15`, so
   * each lies on the canvas and indexes the grid without failing.
   */
  lemma CircleOnCanvas()
    ensures |Circle| == 40
    ensures forall k :: 0 <= k < |Circle| ==> 1 <= Circle[k].x <= 15 && 1 <= Circle[k].y <= 15
    ensures forall k :: 0 <= k < |Circle| ==> OnCanvas(Circle[k])
  {
  }

  /** The pixels are listed strictly row by row, left to right. */
  lemma CircleOrdered()
    ensures forall k :: 0 <= k < |Circle| - 1 ==> Before(Circle[k], Circle[k + 1])
  {
  }

  /** A sequence listed in strict reading order has no pixel twice. */
  lemma {:induction false} OrderedDistinct(ps: seq<Pixel>, i: int, j: int)
    requires forall k :: 0 <= k < |ps| - 1 ==> Before(ps[k], ps[k + 1])
    requires 0 <= i < j < |ps|
    ensures Before(ps[i], ps[j])
    decreases j - i
  {
    if j > i + 1 {
      OrderedDistinct(ps, i, j - 1);
    }
  }

  /** No pixel of the dial is listed twice. */
  lemma CircleDistinct()
    ensures forall i, j :: 0 <= i < j < |Circle| ==> Circle[i] != Circle[j]
  {
    CircleOrdered();
    forall i, j | 0 <= i < j < |Circle|
      ensures Circle[i] != Circle[j]
    {
      OrderedDistinct(Circle, i, j);
    }
  }

  /**
   * Every pixel of the dial is at a distance between sqrt(45) and sqrt(53)
   * from the centre: a ring of radius 7 to within half a pixel.
   */
  lemma CircleRing()
    ensures forall k :: 0 <= k < |Circle| ==> 45 <= Distance2(Circle[k]) <= 53
  {
  }

  /** The reflection of `p` in the vertical axis through the centre (identity off the reflected range). */
  function MirrorX(p: Pixel): Pixel
  {
    if p.x as int <= 2 * Centre then Pixel((2 * Centre - p.x as int) as u8, p.y) else p
  }

  /** The reflection of `p` in the horizontal axis through the centre (identity off the reflected range). */
  function MirrorY(p: Pixel): Pixel
  {
    if p.y as int <= 2 * Centre then Pixel(p.x, (2 * Centre - p.y as int) as u8) else p
  }

  /** The dial is symmetric about the vertical axis through the centre. */
  lemma CircleSymmetricX()
    ensures forall k :: 0 <= k < |Circle| ==> MirrorX(Circle[k]) in Circle
  {
  }

  /** The dial is symmetric about the horizontal axis through the centre. */
  lemma CircleSymmetricY()
    ensures forall k :: 0 <= k < |Circle| ==> MirrorY(Circle[k]) in Circle
  {
  }
}
