/**
 * Grid geometry: cells, axis-aligned rectangles anchored at their top-left
 * cell, the half-open overlap test, the bounds test and cell hit-testing.
 */
module Geometry {

  datatype Cell = Cell(row: int, col: int)

  /** Rows `[row, row + height)` and columns `[col, col + width)`. */
  datatype Rect = Rect(row: int, col: int, width: int, height: int)

  /**
   * The overlap test the builder writes out at every placement check:
   * two rectangles overlap unless one lies wholly above, below, left or
   * right of the other.
   */
  predicate Overlaps(a: Rect, b: Rect) {
    !(a.row >= b.row + b.height ||
      a.row + a.height <= b.row ||
      a.col >= b.col + b.width ||
      a.col + a.width <= b.col)
  }

  /** Whether a cell lies in a rectangle (the hit test of a grid cell). */
  predicate Contains(r: Rect, c: Cell) {
    r.row <= c.row < r.row + r.height && r.col <= c.col < r.col + r.width
  }

  /** Whether a cell is one of the cells the grid renders. */
  predicate InGrid(c: Cell, rows: int, cols: int) {
    0 <= c.row < rows && 0 <= c.col < cols
  }

  /** The bounds test: every edge of the rectangle lies within the grid. */
  predicate InBounds(r: Rect, rows: int, cols: int) {
    r.row >= 0 && r.col >= 0 && r.row + r.height <= rows && r.col + r.width <= cols
  }

  predicate NonEmpty(r: Rect) {
    r.width >= 1 && r.height >= 1
  }

  lemma OverlapsSymmetric(a: Rect, b: Rect)
    ensures Overlaps(a, b) == Overlaps(b, a)
  {
  }

  /** Rectangles that only share an edge do not overlap. */
  lemma EdgeContactIsNotOverlap(a: Rect, b: Rect)
    requires a.row + a.height == b.row || b.row + b.height == a.row ||
             a.col + a.width == b.col || b.col + b.width == a.col
    ensures !Overlaps(a, b)
  {
  }

  /**
   * For non-empty rectangles the arithmetic overlap test agrees with its
   * meaning: the two rectangles share at least one cell.
   */
  lemma OverlapsIffSharedCell(a: Rect, b: Rect)
    requires NonEmpty(a) && NonEmpty(b)
    ensures Overlaps(a, b) <==> exists c :: Contains(a, c) && Contains(b, c)
  {
    if Overlaps(a, b) {
      var w := Cell(if a.row < b.row then b.row else a.row, if a.col < b.col then b.col else a.col);
      assert Contains(a, w) && Contains(b, w);
    }
  }

  /** A cell shared by two rectangles makes them overlap. */
  lemma SharedCellOverlaps(a: Rect, b: Rect, c: Cell)
    requires Contains(a, c) && Contains(b, c)
    ensures Overlaps(a, b)
  {
  }

  /**
   * For a non-empty rectangle the bounds test agrees with its meaning: every
   * cell of the rectangle is a grid cell.
   */
  lemma InBoundsIffCellsInGrid(r: Rect, rows: int, cols: int)
    requires NonEmpty(r)
    ensures InBounds(r, rows, cols) <==> forall c :: Contains(r, c) ==> InGrid(c, rows, cols)
  {
    if forall c :: Contains(r, c) ==> InGrid(c, rows, cols) {
      assert Contains(r, Cell(r.row, r.col));
      assert Contains(r, Cell(r.row + r.height - 1, r.col + r.width - 1));
    }
  }
}
