/**
 * The half-block compositor of the terminal clock: the pixels of the
 * 16 x 16 canvas are folded into a grid of 16 columns by 8 rows of
 * characters, each character showing two vertically stacked pixels with the
 * half-block glyphs.
 *
 * The grid itself holds characters and is updated in place, as in the
 * program; `Cell` is what a character means (which halves of it are lit),
 * and the lemmas show that a cell depends only on which of its halves were
 * hit, not on the order or the repetition of the pixels.
 */
module Compositor {
  import opened Pixels

  /** The glyph of a cell whose upper pixel alone is lit. */
  const UpperHalfBlock: char := '\U{2580}'
  /** The glyph of a cell whose lower pixel alone is lit. */
  const LowerHalfBlock: char := '\U{2584}'
  /** The glyph of a cell whose two pixels are lit. */
  const FullBlock: char := '\U{2588}'

  /** The grid has one column per canvas column and one row per two canvas rows. */
  const Columns: int := CanvasSize
  const Rows: int := CanvasSize / 2

  /**
   * The merge of the compositor's loop on characters: a space takes the half
   * that was hit, a half block with the other half hit becomes a full block,
   * and any other character stays.
   */
  function MergeGlyph(current: char, upperHalf: bool): char
  {
    if current == ' ' && upperHalf then UpperHalfBlock
    else if current == ' ' then LowerHalfBlock
    else if current == UpperHalfBlock && !upperHalf then FullBlock
    else if current == LowerHalfBlock && upperHalf then FullBlock
    else current
  }

  // ---------------------------------------------------------------------------
  // What a character of the grid means
  // ---------------------------------------------------------------------------

  /** A character of the grid as the pair of pixels it shows. */
  datatype Cell = Blank | Upper | Lower | Full
  {
    predicate HasUpper() { this == Upper || this == Full }
    predicate HasLower() { this == Lower || this == Full }
  }

  function Glyph(c: Cell): char
  {
    match c
    case Blank => ' '
    case Upper => UpperHalfBlock
    case Lower => LowerHalfBlock
    case Full => FullBlock
  }

  /** The cell with the given halves lit. */
  function CellOf(upper: bool, lower: bool): (c: Cell)
    ensures c.HasUpper() == upper && c.HasLower() == lower
  {
    if upper && lower then Full else if upper then Upper else if lower then Lower else Blank
  }

  /**
   * Hitting the upper (`upperHalf`) or the lower half of a cell lights that
   * half and keeps what was lit: the join of the lattice
   * blank < upper, lower < full. On glyphs it is the compositor's merge.
   */
  function Merge(c: Cell, upperHalf: bool): (r: Cell)
    ensures r.HasUpper() == (c.HasUpper() || upperHalf)
    ensures r.HasLower() == (c.HasLower() || !upperHalf)
    ensures Glyph(r) == MergeGlyph(Glyph(c), upperHalf)
  {
    match c
    case Blank => if upperHalf then Upper else Lower
    case Upper => if upperHalf then Upper else Full
    case Lower => if upperHalf then Full else Lower
    case Full => Full
  }

  /** Distinct cells have distinct glyphs, so the grid's characters determine the cells. */
  lemma GlyphInjective(c: Cell, d: Cell)
    ensures Glyph(c) == Glyph(d) ==> c == d
  {
  }

  // ---------------------------------------------------------------------------
  // The cells after a sequence of pixels
  // ---------------------------------------------------------------------------

  /** Pixel `p` falls in the cell of column `x` and row `h`: `char_grid[x][y / 2]`. */
  predicate InCell(p: Pixel, x: int, h: int)
  {
    p.x as int == x && p.y as int / 2 == h
  }

  /** Pixel `p` is the upper half of its cell: its row is even. */
  predicate IsUpper(p: Pixel)
  {
    p.y as int % 2 == 0
  }

  /** The cell of column `x` and row `h` after the pixels of `ps` are merged in, in order. */
  function CellAfter(ps: seq<Pixel>, x: int, h: int): Cell
  {
    if ps == [] then Blank
    else
      var p := ps[|ps| - 1];
      var c := CellAfter(ps[..|ps| - 1], x, h);
      if InCell(p, x, h) then Merge(c, IsUpper(p)) else c
  }

  /** Some pixel of `ps` falls in the upper half of the cell of column `x` and row `h`. */
  ghost predicate HitsUpper(ps: seq<Pixel>, x: int, h: int)
  {
    exists p :: p in ps && InCell(p, x, h) && IsUpper(p)
  }

  /** Some pixel of `ps` falls in the lower half of the cell of column `x` and row `h`. */
  ghost predicate HitsLower(ps: seq<Pixel>, x: int, h: int)
  {
    exists p :: p in ps && InCell(p, x, h) && !IsUpper(p)
  }

  /**
   * A cell after a sequence of pixels is lit in exactly the halves some pixel
   * hit: full if both halves were hit, an upper or lower half block if only
   * that half was, blank if none was.
   */
  lemma {:induction false} CellAfterHits(ps: seq<Pixel>, x: int, h: int)
    ensures CellAfter(ps, x, h) == CellOf(HitsUpper(ps, x, h), HitsLower(ps, x, h))
    decreases |ps|
  {
    if ps != [] {
      var q, p := ps[..|ps| - 1], ps[|ps| - 1];
      CellAfterHits(q, x, h);
      assert ps == q + [p];
      assert forall r :: r in ps <==> r in q || r == p;
    }
  }

  /**
   * Two sequences of the same pixels give the same cell, whatever their
   * order and however often each pixel is repeated.
   */
  lemma SamePixelsSameCell(ps: seq<Pixel>, qs: seq<Pixel>, x: int, h: int)
    requires forall p :: p in ps <==> p in qs
    ensures CellAfter(ps, x, h) == CellAfter(qs, x, h)
  {
    CellAfterHits(ps, x, h);
    CellAfterHits(qs, x, h);
  }

  /** The order of the pixels does not matter. */
  lemma OrderIndependent(ps: seq<Pixel>, qs: seq<Pixel>, x: int, h: int)
    requires multiset(ps) == multiset(qs)
    ensures CellAfter(ps, x, h) == CellAfter(qs, x, h)
  {
    assert forall p :: p in ps <==> p in multiset(ps);
    assert forall p :: p in qs <==> p in multiset(qs);
    SamePixelsSameCell(ps, qs, x, h);
  }

  /** Merging the same pixels twice is merging them once. */
  lemma Idempotent(ps: seq<Pixel>, x: int, h: int)
    ensures CellAfter(ps + ps, x, h) == CellAfter(ps, x, h)
  {
    SamePixelsSameCell(ps + ps, ps, x, h);
  }

  /** With no pixels every cell is blank: the grid starts as all spaces. */
  lemma NoPixelsBlank(x: int, h: int)
    ensures Glyph(CellAfter([], x, h)) == ' '
  {
  }

  // ---------------------------------------------------------------------------
  // The grid
  // ---------------------------------------------------------------------------

  /**
   * One pass of the compositor's loop: merges pixel `p` into the character at
   * column `p.x` and row `p.y / 2`, as its upper half when `p.y` is even, and
   * leaves every other character as it was.
   */
  method Mark(grid: array2<char>, p: Pixel)
    requires grid.Length0 == Columns && grid.Length1 == Rows && OnCanvas(p)
    modifies grid
    ensures grid[p.x as int, p.y as int / 2] == MergeGlyph(old(grid[p.x as int, p.y as int / 2]), IsUpper(p))
    ensures forall x, h :: 0 <= x < Columns && 0 <= h < Rows && !InCell(p, x, h) ==> grid[x, h] == old(grid[x, h])
  {
    var halfY := p.y / 2;
    var currentChar := grid[p.x, halfY];
    var upperHalf := p.y % 2 == 0;
    grid[p.x, halfY] := MergeGlyph(currentChar, upperHalf);
  }

  /**
   * The compositor: a fresh 16 x 8 grid of spaces into which every pixel is
   * merged in order. Each character is the glyph of the cell the pixels make.
   */
  method Compose(pixels: seq<Pixel>) returns (grid: array2<char>)
    requires forall k :: 0 <= k < |pixels| ==> OnCanvas(pixels[k])
    ensures fresh(grid) && grid.Length0 == Columns && grid.Length1 == Rows
    ensures forall x, h :: 0 <= x < Columns && 0 <= h < Rows ==> grid[x, h] == Glyph(CellAfter(pixels, x, h))
  {
    grid := new char[Columns, Rows]((_, _) => ' ');
    for n := 0 to |pixels|
      invariant forall x, h :: 0 <= x < Columns && 0 <= h < Rows ==> grid[x, h] == Glyph(CellAfter(pixels[..n], x, h))
    {
      Mark(grid, pixels[n]);
      assert pixels[..n + 1][..n] == pixels[..n];
    }
    assert pixels[..|pixels|] == pixels;
  }
}
