/**
 * Two-click straight-line drawing: the rectangle a pair of picks spans, its
 * live preview, and the aisle record created from it.
 */
module Drawing {
  import opened Wrappers
  import opened Decimal
  import opened Geometry
  import opened Aisles

  /** The rectangle a drawing session proposes, with its orientation. */
  datatype Stroke = Stroke(footprint: Rect, orientation: Orientation)

  function Abs(x: int): nat {
    if x < 0 then -x else x
  }

  function Min(x: int, y: int): int {
    if x <= y then x else y
  }

  function Max(x: int, y: int): int {
    if x <= y then y else x
  }

  /** The straight shape of a stroke: one cell thick across its orientation. */
  predicate StraightStroke(st: Stroke) {
    && NonEmpty(st.footprint)
    && (st.orientation == Horizontal ==> st.footprint.height == 1)
    && (st.orientation == Vertical ==> st.footprint.width == 1)
  }

  /**
   * The stroke from the start point to the second pick: horizontal when both
   * share a row (also when they share the column too), vertical when they
   * share only the column, and none for a diagonal pick. It is anchored at
   * the smaller coordinate and is as long as the inclusive distance.
   */
  function StrokeBetween(start: Cell, end: Cell): (r: Option<Stroke>)
    ensures r.None? <==> start.row != end.row && start.col != end.col
    ensures r.Some? ==> StraightStroke(r.value)
    ensures r.Some? ==> (r.value.orientation == Horizontal <==> start.row == end.row)
    ensures r.Some? ==>
      r.value.footprint.row == Min(start.row, end.row) && r.value.footprint.col == Min(start.col, end.col)
    ensures r.Some? && start.row == end.row ==>
      r.value.footprint.width == Abs(end.col - start.col) + 1 && r.value.footprint.height == 1
    ensures r.Some? && start.row != end.row ==>
      r.value.footprint.width == 1 && r.value.footprint.height == Abs(end.row - start.row) + 1
  {
    if end.row == start.row then
      Some(Stroke(Rect(end.row, Min(start.col, end.col), Abs(end.col - start.col) + 1, 1), Horizontal))
    else if end.col == start.col then
      Some(Stroke(Rect(Min(start.row, end.row), end.col, 1, Abs(end.row - start.row) + 1), Vertical))
    else
      None
  }

  /** Whether a cell lies in the bounding box of two cells. */
  predicate Between(start: Cell, end: Cell, c: Cell) {
    Min(start.row, end.row) <= c.row <= Max(start.row, end.row) &&
    Min(start.col, end.col) <= c.col <= Max(start.col, end.col)
  }

  /** A stroke covers exactly the cells from the start point to the end point. */
  lemma StrokeCoversSegment(start: Cell, end: Cell)
    requires StrokeBetween(start, end).Some?
    ensures var fp := StrokeBetween(start, end).value.footprint;
      forall c :: Contains(fp, c) <==> Between(start, end, c)
  {
  }

  /** Picks made on grid cells give a stroke inside the grid. */
  lemma StrokeInGrid(start: Cell, end: Cell, rows: int, cols: int)
    requires InGrid(start, rows, cols) && InGrid(end, rows, cols)
    requires StrokeBetween(start, end).Some?
    ensures InBounds(StrokeBetween(start, end).value.footprint, rows, cols)
  {
  }

  /** The preview shown while the cursor moves after the first pick: the stroke's rectangle, if straight. */
  function DrawPreview(start: Cell, cursor: Cell): (r: Option<Rect>)
    ensures r.Some? <==> start.row == cursor.row || start.col == cursor.col
    ensures r.Some? ==> Contains(r.value, start) && Contains(r.value, cursor)
    ensures r.Some? ==> r.value == StrokeBetween(start, cursor).value.footprint
  {
    match StrokeBetween(start, cursor)
    case None => None
    case Some(st) => Some(st.footprint)
  }

  /**
   * The aisle created from stroke `st` with counter value `n`: id `aisle-n`,
   * number `n` padded to two digits, the `n`-th palette colour, as many
   * sections as the stroke is long, and the zone and bays-high of the form.
   */
  function NewAisle(n: nat, st: Stroke, fd: FormData): (a: Aisle)
    requires n >= 1
    requires StraightStroke(st) && st.footprint.row >= 0 && st.footprint.col >= 0
    ensures a.id == AisleKey(n) && a.number == Pad2(n) && a.color == ColorFor(n)
    ensures a.Footprint() == st.footprint && a.orientation == st.orientation
    ensures a.sections == Max(a.width, a.height)
    ensures a.baysHigh == fd.defaultBaysHigh && a.zone == fd.zone
    ensures Straight(a)
  {
    var fp := st.footprint;
    Aisle(
      id := AisleKey(n),
      number := Pad2(n),
      width := fp.width,
      height := fp.height,
      sections := if st.orientation == Horizontal then fp.width else fp.height,
      baysHigh := fd.defaultBaysHigh,
      gridRow := fp.row,
      gridCol := fp.col,
      zone := fd.zone,
      color := ColorFor(n),
      orientation := st.orientation)
  }

  /**
   * What the preview shows is what the second click creates: on grid cells,
   * the preview is exactly the footprint of the aisle drawn there, and there
   * is no preview exactly when that click would be refused as diagonal.
   */
  lemma PreviewIsDrawnAisle(start: Cell, cursor: Cell, n: nat, fd: FormData, rows: int, cols: int)
    requires n >= 1 && InGrid(start, rows, cols) && InGrid(cursor, rows, cols)
    ensures DrawPreview(start, cursor).None? <==> StrokeBetween(start, cursor).None?
    ensures DrawPreview(start, cursor).Some? ==>
      DrawPreview(start, cursor).value == NewAisle(n, StrokeBetween(start, cursor).value, fd).Footprint()
  {
    if StrokeBetween(start, cursor).Some? {
      StrokeInGrid(start, cursor, rows, cols);
    }
  }
}
