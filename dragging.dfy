/**
 * Relocation by dragging: the aisle picked up with the cell-to-anchor offset
 * of the click, the in-bounds preview that follows the cursor, and the drop
 * test that checks the preview against every other aisle.
 */
module Dragging {
  import opened Wrappers
  import opened Geometry
  import opened Aisles

  /**
   * An aisle picked up for relocation: the record as it was when picked, the
   * offset of the clicked cell from its anchor, and the current preview.
   */
  datatype Held = Held(aisle: Aisle, offset: Cell, preview: Option<Rect>)

  /** The offset of the clicked cell from the aisle's anchor. */
  function Grip(a: Aisle, c: Cell): Cell {
    Cell(c.row - a.gridRow, c.col - a.gridCol)
  }

  /** The anchor the held aisle would take with the cursor on cell `c`. */
  function Candidate(a: Aisle, offset: Cell, c: Cell): Rect {
    Rect(c.row - offset.row, c.col - offset.col, a.width, a.height)
  }

  /** The drag preview: the candidate rectangle when it lies in the grid, none otherwise. */
  function HoverPreview(a: Aisle, offset: Cell, c: Cell, rows: int, cols: int): (r: Option<Rect>)
    ensures r.Some? <==> InBounds(Candidate(a, offset, c), rows, cols)
    ensures r.Some? ==> r.value.width == a.width && r.value.height == a.height
  {
    var cand := Candidate(a, offset, c);
    if InBounds(cand, rows, cols) then Some(cand) else None
  }

  /**
   * The preview keeps the grip: an aisle picked at cell `p` is previewed with
   * the cursor at the same place inside it, and hovering over the cell it was
   * picked at previews it where it already stands.
   */
  lemma PreviewKeepsGrip(a: Aisle, p: Cell, c: Cell, rows: int, cols: int)
    requires Contains(a.Footprint(), p)
    requires HoverPreview(a, Grip(a, p), c, rows, cols).Some?
    ensures var pv := HoverPreview(a, Grip(a, p), c, rows, cols).value;
      Contains(pv, c) && c.row - pv.row == p.row - a.gridRow && c.col - pv.col == p.col - a.gridCol
    ensures c == p ==> HoverPreview(a, Grip(a, p), c, rows, cols) == Some(a.Footprint())
  {
  }

  /**
   * `isValidDropPosition`: an aisle is held, the rectangle with the held
   * aisle's size anchored at (`row`, `col`) lies in the grid, and it overlaps
   * no aisle other than the held one.
   */
  function IsValidDropPosition(s: seq<Aisle>, held: Option<Aisle>, row: int, col: int, rows: int, cols: int): (b: bool)
    ensures b <==>
      && held.Some?
      && InBounds(Rect(row, col, held.value.width, held.value.height), rows, cols)
      && forall a :: a in s && a.id != held.value.id ==>
           !Overlaps(Rect(row, col, held.value.width, held.value.height), a.Footprint())
  {
    if held.None? then false
    else
      var r := Rect(row, col, held.value.width, held.value.height);
      InBounds(r, rows, cols) && !AnyOverlap(s, r, Some(held.value.id))
  }

  /** Without the self-exclusion the scan would always find the held aisle in its own way. */
  lemma SelfAlwaysOverlaps(s: seq<Aisle>, a: Aisle)
    requires a in s && NonEmpty(a.Footprint())
    ensures AnyOverlap(s, a.Footprint(), None)
  {
    assert Overlaps(a.Footprint(), a.Footprint());
  }

  /** With it, an aisle of a valid store may always be dropped back where it stands. */
  lemma DropInPlaceValid(s: seq<Aisle>, a: Aisle, rows: int, cols: int, next: nat)
    requires StoreValid(s, rows, cols, next) && a in s
    ensures IsValidDropPosition(s, Some(a), a.gridRow, a.gridCol, rows, cols)
  {
  }
}
