/**
 * The warehouse builder's editor state and its event handlers: the grid
 * size, the creation settings, the aisle store and id counter, the
 * interaction mode (idle, drawing with its start point and preview, or
 * dragging with the held aisle, grip offset and preview) and the aisle
 * being edited. `window.confirm` answers are passed in as `confirmed`;
 * `alert` messages come back as an `Alert`.
 */
module Builder {
  import opened Wrappers
  import opened Alerts
  import opened Geometry
  import opened Aisles
  import opened Drawing
  import opened Dragging
  import opened Persistence

  /** The interaction mode: drawing and dragging exclude each other. */
  datatype Mode =
    | Idle
    | Drawing(start: Option<Cell>, preview: Option<Rect>)
    | Dragging(held: Option<Held>)

  /** The aisle being edited and its pending section and bays-high values. */
  datatype EditSession = EditSession(id: string, sections: nat, baysHigh: nat)

  /** The grid dimension a resize addresses. */
  datatype Dimension = RowsDim | ColsDim

  /**
   * `Math.max(10, Math.min(50, parseInt(value) || 20))`: a value that does not
   * parse (`None`) or parses to 0 becomes 20, then the result is clamped to
   * 10..50.
   */
  function ClampGridValue(value: Option<int>): (n: nat)
    ensures 10 <= n <= 50
    ensures value.Some? && 10 <= value.value <= 50 ==> n == value.value
    ensures value.Some? && value.value > 50 ==> n == 50
    ensures value.Some? && value.value != 0 && value.value < 10 ==> n == 10
    ensures value.None? || value.value == 0 ==> n == 20
  {
    var v := if value.None? || value.value == 0 then 20 else value.value;
    if v > 50 then 50 else if v < 10 then 10 else v
  }

  /** The bays-high stepper of the edit controls: one up, or one down but never below 1. */
  function StepBaysHigh(b: nat, up: bool): (r: nat)
    ensures r >= 1
    ensures up ==> r == b + 1
    ensures !up && b >= 2 ==> r == b - 1
    ensures !up && b < 2 ==> r == 1
  {
    if up then b + 1 else if b >= 2 then b - 1 else 1
  }

  /**
   * The copy `duplicateAisle` proposes: the record under the counter's next
   * key and number, two rows below a horizontal aisle or two columns right of
   * a vertical one, with every other field kept (the colour included).
   */
  function DuplicateOf(a: Aisle, n: nat): (c: Aisle)
    ensures c.id == AisleKey(n) && c.number == Decimal.Pad2(n)
    ensures c.width == a.width && c.height == a.height && c.sections == a.sections && c.baysHigh == a.baysHigh
    ensures c.zone == a.zone && c.color == a.color && c.orientation == a.orientation
    ensures a.orientation == Horizontal ==> c.gridRow == a.gridRow + 2 && c.gridCol == a.gridCol
    ensures a.orientation == Vertical ==> c.gridRow == a.gridRow && c.gridCol == a.gridCol + 2
  {
    a.(
      id := AisleKey(n),
      number := Decimal.Pad2(n),
      gridRow := a.gridRow + (if a.orientation == Vertical then 0 else 2),
      gridCol := a.gridCol + (if a.orientation == Horizontal then 0 else 2))
  }

  /**
   * A straight aisle's copy keeps its shape and never overlaps the original;
   * the one-cell-thick strip between them, the row below a horizontal
   * original or the column right of a vertical one, stays free.
   */
  lemma DuplicateBesideOriginal(a: Aisle, n: nat)
    requires Straight(a)
    ensures Straight(DuplicateOf(a, n))
    ensures !Overlaps(DuplicateOf(a, n).Footprint(), a.Footprint())
    ensures a.orientation == Horizontal ==>
      !Overlaps(Rect(a.gridRow + 1, a.gridCol, a.width, 1), DuplicateOf(a, n).Footprint()) &&
      !Overlaps(Rect(a.gridRow + 1, a.gridCol, a.width, 1), a.Footprint())
    ensures a.orientation == Vertical ==>
      !Overlaps(Rect(a.gridRow, a.gridCol + 1, 1, a.height), DuplicateOf(a, n).Footprint()) &&
      !Overlaps(Rect(a.gridRow, a.gridCol + 1, 1, a.height), a.Footprint())
  {
  }

  /** `updateGridSize`'s deletion loop: removes the key of each out-of-bounds aisle in turn. */
  method DeleteAll(s: seq<Aisle>, victims: seq<Aisle>) returns (r: seq<Aisle>)
    ensures r == Without(s, IdsOf(victims))
  {
    r := s;
    ghost var deleted: set<string> := {};
    WithoutEmpty(s);
    IdsOfPrefix(victims, 0);
    var i := 0;
    while i < |victims|
      invariant 0 <= i <= |victims|
      invariant deleted == IdsOf(victims[..i])
      invariant r == Without(s, deleted)
    {
      WithoutMore(s, deleted, victims[i].id);
      IdsOfPrefix(victims, i + 1);
      r := Without(r, {victims[i].id});
      deleted := deleted + {victims[i].id};
      i := i + 1;
    }
    assert victims[..i] == victims;
    assert IdsOf(victims[..i]) == IdsOf(victims);
  }

  /** The keys of the first `i` victims. */
  lemma IdsOfPrefix(victims: seq<Aisle>, i: nat)
    requires i <= |victims|
    ensures i == 0 ==> IdsOf(victims[..i]) == {}
    ensures i > 0 ==> IdsOf(victims[..i]) == IdsOf(victims[..i - 1]) + {victims[i - 1].id}
  {
    if i > 0 {
      assert victims[..i][..i - 1] == victims[..i - 1];
    }
  }

  lemma {:induction false} WithoutEmpty(s: seq<Aisle>)
    ensures Without(s, {}) == s
  {
    if s != [] {
      WithoutEmpty(s[1..]);
      assert s == [s[0]] + s[1..];
    }
  }

  /**
   * A resize keeps the keys, and keeps a valid store valid for the new grid
   * when it either deletes the orphans or does not shrink the grid.
   */
  lemma ResizeKeepsState(s: seq<Aisle>, rows: nat, cols: nat, next: nat, newRows: nat, newCols: nat, cuts: bool)
    requires UniqueIds(s) && IdsIssuedBelow(s, next)
    requires !cuts ==> Orphans(s, newRows, newCols) == [] || (rows <= newRows && cols <= newCols)
    ensures var r := if cuts then Without(s, IdsOf(Orphans(s, newRows, newCols))) else s;
      && UniqueIds(r) && IdsIssuedBelow(r, next)
      && (StoreValid(s, rows, cols, next) ==> StoreValid(r, newRows, newCols, next))
  {
    if StoreValid(s, rows, cols, next) {
      if cuts {
        DeleteOrphansExactly(s, rows, cols, next, newRows, newCols);
      } else if rows <= newRows && cols <= newCols {
        GrowKeepsValid(s, rows, cols, next, newRows, newCols);
      }
    }
  }

  /**
   * The invariant every reachable state keeps: the counter starts at 1, keys
   * are distinct and below the counter, a drawing start point lies in the
   * grid and a held aisle tracks its record.
   */
  predicate Consistent(rows: nat, cols: nat, s: seq<Aisle>, next: nat, m: Mode) {
    && next >= 1
    && UniqueIds(s)
    && IdsIssuedBelow(s, next)
    && (m.Drawing? && m.start.Some? ==> InGrid(m.start.value, rows, cols))
    && ModeTracks(m, s, next)
  }

  /** A resize out of idle mode keeps the invariant, and keeps a valid store valid. */
  lemma ResizeKeepsConsistent(s: seq<Aisle>, rows: nat, cols: nat, next: nat, m: Mode,
                              newRows: nat, newCols: nat, cuts: bool, r: seq<Aisle>)
    requires Consistent(rows, cols, s, next, m) && m.Idle?
    requires !cuts ==> Orphans(s, newRows, newCols) == [] || (rows <= newRows && cols <= newCols)
    requires r == if cuts then Without(s, IdsOf(Orphans(s, newRows, newCols))) else s
    ensures Consistent(newRows, newCols, r, next, m)
    ensures StoreValid(s, rows, cols, next) ==> StoreValid(r, newRows, newCols, next)
  {
    ResizeKeepsState(s, rows, cols, next, newRows, newCols, cuts);
  }

  /**
   * Adding an aisle under the counter's next key keeps the invariant, in the
   * current mode or once idle, and keeps a valid store valid when the aisle
   * fits the grid, is straight and overlaps nothing.
   */
  lemma InsertKeepsConsistent(rows: nat, cols: nat, s: seq<Aisle>, next: nat, m: Mode, a: Aisle, r: seq<Aisle>)
    requires Consistent(rows, cols, s, next, m) && a.id == AisleKey(next) && r == s + [a]
    ensures r == Put(s, a)
    ensures Consistent(rows, cols, r, next + 1, m) && Consistent(rows, cols, r, next + 1, Idle)
    ensures (StoreValid(s, rows, cols, next) && Fits(a, rows, cols) && Straight(a) && Issued(a) &&
             !AnyOverlap(s, a.Footprint(), None)) ==> StoreValid(r, rows, cols, next + 1)
  {
    InsertKeepsKeys(s, a, next);
    InsertKeepsTracks(m, s, a, next);
    if StoreValid(s, rows, cols, next) && Fits(a, rows, cols) && Straight(a) && Issued(a) && !AnyOverlap(s, a.Footprint(), None) {
      InsertKeepsValid(s, a, rows, cols, next);
    }
  }

  /** The held aisle's id was issued, and the store still holds it, with the size it was picked up with. */
  predicate HeldTracks(h: Held, s: seq<Aisle>, next: nat) {
    && IdCeiling(h.aisle.id) <= next
    && (exists a :: a in s && a.id == h.aisle.id)
    && forall a :: a in s && a.id == h.aisle.id ==> a.width == h.aisle.width && a.height == h.aisle.height
  }

  /** In drag mode, the aisle held (if any) tracks its record. */
  predicate ModeTracks(m: Mode, s: seq<Aisle>, next: nat) {
    m.Dragging? && m.held.Some? ==> HeldTracks(m.held.value, s, next)
  }

  /** A new aisle under the counter's next key is never the held one. */
  lemma InsertKeepsTracks(m: Mode, s: seq<Aisle>, a: Aisle, next: nat)
    requires ModeTracks(m, s, next) && a.id == AisleKey(next)
    ensures ModeTracks(m, s + [a], next + 1)
  {
    IdCeilingOfKey(next);
    if m.Dragging? && m.held.Some? {
      var b :| b in s && b.id == m.held.value.aisle.id;
      assert b in s + [a];
    }
  }

  /** Deleting the record under `id` lets go of the aisle held under that key, if any. */
  function Release(m: Mode, id: string): Mode {
    if m.Dragging? && m.held.Some? && m.held.value.aisle.id == id then Dragging(None) else m
  }

  /**
   * `deleteAisle` keeps `draggingAisle` set even when it deletes that very
   * aisle, so a later drop is tested, and accepted, for a key the store no
   * longer holds: with one aisle held over a preview inside the grid, the
   * hold tracks its record before the delete, no longer does after it, and
   * the drop test still passes, so the drop writes a record under the
   * deleted key.
   */
  lemma DeleteWhileHeldAsWritten(a: Aisle, offset: Cell, p: Rect, rows: int, cols: int, next: nat)
    requires IdCeiling(a.id) <= next
    requires p.width == a.width && p.height == a.height && InBounds(p, rows, cols)
    ensures var m := Dragging(Some(Held(a, offset, Some(p))));
      var after := Without([a], {a.id});
      && ModeTracks(m, [a], next)
      && Find(after, a.id).None?
      && !ModeTracks(m, after, next)
      && IsValidDropPosition(after, Some(a), p.row, p.col, rows, cols)
  {
    assert a in [a];
    assert Without([a], {a.id}) == [];
  }

  /**
   * The delete that lets go of the aisle it removes keeps a held aisle in
   * the store, so every drop moves a record the store holds.
   */
  lemma DeleteKeepsTracks(m: Mode, s: seq<Aisle>, id: string, next: nat)
    requires ModeTracks(m, s, next)
    ensures ModeTracks(Release(m, id), Without(s, {id}), next)
    ensures m.Dragging? && m.held.Some? && m.held.value.aisle.id == id ==> Release(m, id) == Dragging(None)
  {
    if Release(m, id).Dragging? && Release(m, id).held.Some? {
      var h := m.held.value;
      var a :| a in s && a.id == h.aisle.id;
      assert a in Without(s, {id});
    }
  }

  /** An aisle picked up from a store with distinct keys below the counter tracks its record. */
  lemma PickUpTracks(s: seq<Aisle>, a: Aisle, c: Cell, next: nat)
    requires UniqueIds(s) && IdsIssuedBelow(s, next) && a in s
    ensures HeldTracks(Held(a, Grip(a, c), None), s, next)
  {
    forall b | b in s && b.id == a.id ensures b == a {
      SameKeySameRecord(s, a, b);
    }
  }

  /** Editing bay counts never changes the size under the held key. */
  lemma SetBaysKeepsTracks(m: Mode, s: seq<Aisle>, id: string, sections: nat, baysHigh: nat, next: nat)
    requires UniqueIds(s) && IdsIssuedBelow(s, next) && ModeTracks(m, s, next)
    ensures ModeTracks(m, SetBays(s, id, sections, baysHigh), next)
  {
    SetBaysKeepsKeys(s, id, sections, baysHigh, next);
  }

  /**
   * Saving an edit keeps the invariant, and keeps a valid store valid when
   * the pending counts are positive.
   */
  lemma SaveEditKeepsConsistent(rows: nat, cols: nat, s: seq<Aisle>, next: nat, m: Mode, e: EditSession)
    requires Consistent(rows, cols, s, next, m)
    ensures Consistent(rows, cols, SetBays(s, e.id, e.sections, e.baysHigh), next, m)
    ensures StoreValid(s, rows, cols, next) && e.sections >= 1 && e.baysHigh >= 1 ==>
      StoreValid(SetBays(s, e.id, e.sections, e.baysHigh), rows, cols, next)
  {
    SetBaysKeepsKeys(s, e.id, e.sections, e.baysHigh, next);
    SetBaysKeepsTracks(m, s, e.id, e.sections, e.baysHigh, next);
    if StoreValid(s, rows, cols, next) && e.sections >= 1 && e.baysHigh >= 1 {
      SetBaysKeepsValid(s, e.id, e.sections, e.baysHigh, rows, cols, next);
    }
  }

  class WarehouseBuilder {
    var rows: nat
    var cols: nat
    var config: FormData
    var aisles: seq<Aisle>
    var nextAisleId: nat
    var mode: Mode
    var editing: Option<EditSession>

    /**
     * What every handler keeps: the counter is positive and ahead of every
     * `aisle-N` key, keys are distinct, a start point lies on the grid, and a
     * held aisle tracks its record.
     */
    predicate Wf()
      reads this
    {
      Consistent(rows, cols, aisles, nextAisleId, mode)
    }

    /**
     * The store invariant on top of `Wf()`: every aisle straight, inside the
     * grid, no two overlapping, each numbered by its key with positive
     * counts; and the counts the builder will write (the default bays high,
     * the pending edit) are positive too.
     */
    predicate Valid()
      reads this
    {
      && Wf() && StoreValid(aisles, rows, cols, nextAisleId)
      && config.defaultBaysHigh >= 1
      && (editing.Some? ==> editing.value.sections >= 1 && editing.value.baysHigh >= 1)
    }

    /** The part of the state a saved layout carries. */
    function Current(): Snapshot
      reads this
    {
      Snapshot(GridSize(rows, cols), config, aisles, nextAisleId)
    }

    /** The initial state: a 20 by 25 grid, the default settings, no aisles, counter 1, idle. */
    constructor ()
      ensures rows == 20 && cols == 25 && config == DefaultFormData
      ensures aisles == [] && nextAisleId == 1 && mode == Idle && editing == None
      ensures Valid()
    {
      rows, cols := DefaultGridSize.rows, DefaultGridSize.cols;
      config := DefaultFormData;
      aisles := [];
      nextAisleId := 1;
      mode := Idle;
      editing := None;
    }

    /** `startDrawing`: drawing mode with no start point and no preview; any drag is dropped. */
    method StartDrawing()
      requires Wf()
      modifies this
      ensures mode == Drawing(None, None)
      ensures rows == old(rows) && cols == old(cols) && config == old(config)
      ensures aisles == old(aisles) && nextAisleId == old(nextAisleId) && editing == old(editing)
      ensures Wf() && (old(Valid()) ==> Valid())
    {
      mode := Drawing(None, None);
    }

    /** `startDragging`: drag mode with nothing held; any drawing is dropped. */
    method StartDragging()
      requires Wf()
      modifies this
      ensures mode == Dragging(None)
      ensures rows == old(rows) && cols == old(cols) && config == old(config)
      ensures aisles == old(aisles) && nextAisleId == old(nextAisleId) && editing == old(editing)
      ensures Wf() && (old(Valid()) ==> Valid())
    {
      mode := Dragging(None);
    }

    /** `cancelDrawing`: leaves drawing mode, start point and preview; drag mode is not its business. */
    method CancelDrawing()
      requires Wf()
      modifies this
      ensures mode == if old(mode).Drawing? then Idle else old(mode)
      ensures rows == old(rows) && cols == old(cols) && config == old(config)
      ensures aisles == old(aisles) && nextAisleId == old(nextAisleId) && editing == old(editing)
      ensures Wf() && (old(Valid()) ==> Valid())
    {
      if mode.Drawing? {
        mode := Idle;
      }
    }

    /** `cancelDragging`: leaves drag mode and lets go of any held aisle; drawing mode is not its business. */
    method CancelDragging()
      requires Wf()
      modifies this
      ensures mode == if old(mode).Dragging? then Idle else old(mode)
      ensures rows == old(rows) && cols == old(cols) && config == old(config)
      ensures aisles == old(aisles) && nextAisleId == old(nextAisleId) && editing == old(editing)
      ensures Wf() && (old(Valid()) ==> Valid())
    {
      if mode.Dragging? {
        mode := Idle;
      }
    }

    /**
     * `handleGridClick` on the cell (`row`, `col`): drag mode takes the click
     * first, then drawing mode; when idle the click does nothing.
     */
    method GridClick(row: nat, col: nat) returns (err: Option<Alert>)
      requires Wf() && row < rows && col < cols
      modifies this
      ensures rows == old(rows) && cols == old(cols) && config == old(config) && editing == old(editing)
      ensures Wf() && (old(Valid()) ==> Valid())
      ensures old(mode).Idle? ==>
        err.None? && aisles == old(aisles) && nextAisleId == old(nextAisleId) && mode == old(mode)
      ensures old(mode).Dragging? ==> err.None? && nextAisleId == old(nextAisleId) && DragClicked(Cell(row, col))
      ensures old(mode).Drawing? ==> DrawClicked(Cell(row, col), err)
    {
      if mode.Dragging? {
        DragClick(Cell(row, col));
        err := None;
      } else if mode.Drawing? {
        err := DrawClick(Cell(row, col));
      } else {
        err := None;
      }
    }

    /**
     * The outcome of a click in drag mode. With nothing held, the aisle under
     * the cell, if any, is picked up with the offset of the cell from its
     * anchor. With an aisle held and a preview shown, the aisle is dropped at
     * the preview when that position is valid, and let go of either way.
     */
    twostate predicate DragClicked(c: Cell)
      reads this
    {
      && old(mode).Dragging?
      && match old(mode).held
         case None =>
           && aisles == old(aisles)
           && mode == (match AisleAt(old(aisles), c)
                       case None => old(mode)
                       case Some(a) => Dragging(Some(Held(a, Grip(a, c), None))))
         case Some(h) =>
           if h.preview.None? then
             mode == old(mode) && aisles == old(aisles)
           else
             var pv := h.preview.value;
             && mode == Dragging(None)
             && aisles == (if IsValidDropPosition(old(aisles), Some(h.aisle), pv.row, pv.col, old(rows), old(cols))
                           then Relocate(old(aisles), h.aisle.id, pv.row, pv.col)
                           else old(aisles))
    }

    /**
     * The outcome of a click in drawing mode. The first click becomes the
     * start point. The second is refused when it shares neither row nor
     * column with the start point, and when the stroke would overlap an
     * aisle; in both cases the start point stays. Otherwise the aisle is
     * created under the counter's next key, the counter advances and drawing
     * mode ends.
     */
    twostate predicate DrawClicked(c: Cell, new err: Option<Alert>)
      requires old(Wf()) && InGrid(c, old(rows), old(cols))
      reads this
    {
      && old(mode).Drawing?
      && match old(mode).start
         case None =>
           err.None? && aisles == old(aisles) && nextAisleId == old(nextAisleId)
           && mode == Drawing(Some(c), old(mode).preview)
         case Some(start) =>
           match StrokeBetween(start, c)
           case None =>
             err == Some(NotStraight) && aisles == old(aisles) && nextAisleId == old(nextAisleId) && mode == old(mode)
           case Some(st) =>
             if AnyOverlap(old(aisles), st.footprint, None) then
               err == Some(OverlapsExisting) && aisles == old(aisles) && nextAisleId == old(nextAisleId) && mode == old(mode)
             else
               && err.None?
               && aisles == old(aisles) + [NewAisle(old(nextAisleId), st, old(config))]
               && nextAisleId == old(nextAisleId) + 1
               && mode == Idle
    }

    /** The drag-mode branch of `handleGridClick`. */
    method DragClick(c: Cell)
      requires Wf() && mode.Dragging?
      modifies this
      ensures rows == old(rows) && cols == old(cols) && config == old(config) && editing == old(editing)
      ensures nextAisleId == old(nextAisleId)
      ensures Wf() && (old(Valid()) ==> Valid())
      ensures DragClicked(c)
    {
      if mode.held.None? {
        var hit := AisleAt(aisles, c);
        if hit.Some? {
          PickUpTracks(aisles, hit.value, c, nextAisleId);
          mode := Dragging(Some(Held(hit.value, Grip(hit.value, c), None)));
        }
      } else if mode.held.value.preview.Some? {
        var h := mode.held.value;
        var pv := h.preview.value;
        if IsValidDropPosition(aisles, Some(h.aisle), pv.row, pv.col, rows, cols) {
          DropKeepsState(h, pv.row, pv.col);
          aisles := Relocate(aisles, h.aisle.id, pv.row, pv.col);
        }
        mode := Dragging(None);
      }
    }

    /** The drawing-mode branch of `handleGridClick`. */
    method DrawClick(c: Cell) returns (err: Option<Alert>)
      requires Wf() && mode.Drawing? && InGrid(c, rows, cols)
      modifies this
      ensures rows == old(rows) && cols == old(cols) && config == old(config) && editing == old(editing)
      ensures Wf() && (old(Valid()) ==> Valid())
      ensures DrawClicked(c, err)
    {
      err := None;
      if mode.start.None? {
        mode := Drawing(Some(c), mode.preview);
      } else {
        var start := mode.start.value;
        match StrokeBetween(start, c)
        case None =>
          err := Some(NotStraight);
        case Some(st) =>
          if AnyOverlap(aisles, st.footprint, None) {
            err := Some(OverlapsExisting);
          } else {
            var a := NewAisle(nextAisleId, st, config);
            StrokeInGrid(start, c, rows, cols);
            if config.defaultBaysHigh >= 1 {
              IssuedUnder(a, nextAisleId);
            }
            Insert(a);
            mode := Idle;
          }
      }
    }

    /**
     * Stores a new aisle under the counter's next key and advances the
     * counter. The key is fresh, so writing it into the store appends.
     */
    method Insert(a: Aisle)
      requires Wf() && a.id == AisleKey(nextAisleId)
      modifies this
      ensures aisles == old(aisles) + [a] && aisles == Put(old(aisles), a) && nextAisleId == old(nextAisleId) + 1
      ensures rows == old(rows) && cols == old(cols) && config == old(config)
      ensures mode == old(mode) && editing == old(editing)
      ensures Wf() && Consistent(rows, cols, aisles, nextAisleId, Idle)
      ensures old(Valid()) && Fits(a, rows, cols) && Straight(a) && Issued(a) && !AnyOverlap(old(aisles), a.Footprint(), None) ==> Valid()
    {
      var r := aisles + [a];
      InsertKeepsConsistent(rows, cols, aisles, nextAisleId, mode, a, r);
      aisles := r;
      nextAisleId := nextAisleId + 1;
    }

    /** A valid drop keeps the keys and, in a valid state, the geometric invariant. */
    lemma DropKeepsState(h: Held, row: nat, col: nat)
      requires Wf() && mode.Dragging? && mode.held == Some(h)
      requires IsValidDropPosition(aisles, Some(h.aisle), row, col, rows, cols)
      ensures UniqueIds(Relocate(aisles, h.aisle.id, row, col))
      ensures IdsIssuedBelow(Relocate(aisles, h.aisle.id, row, col), nextAisleId)
      ensures StoreValid(aisles, rows, cols, nextAisleId) ==>
        StoreValid(Relocate(aisles, h.aisle.id, row, col), rows, cols, nextAisleId)
    {
      RelocateKeepsKeys(aisles, h.aisle.id, row, col, nextAisleId);
      if StoreValid(aisles, rows, cols, nextAisleId) && Find(aisles, h.aisle.id).Some? {
        RelocateKeepsValid(aisles, h.aisle.id, row, col, rows, cols, nextAisleId);
      } else if Find(aisles, h.aisle.id).None? {
        RelocateMissing(aisles, h.aisle.id, row, col);
      }
    }

    /**
     * `handleGridMouseMove` on the cell (`row`, `col`): after a start point,
     * the drawing preview follows the cursor while it stays on the start
     * point's row or column; with an aisle held, the drag preview follows the
     * cursor, keeping the grip, while the aisle would stay on the grid.
     */
    method GridMouseMove(row: nat, col: nat)
      requires Wf()
      modifies this
      ensures rows == old(rows) && cols == old(cols) && config == old(config) && editing == old(editing)
      ensures aisles == old(aisles) && nextAisleId == old(nextAisleId)
      ensures Wf() && (old(Valid()) ==> Valid())
      ensures mode == match old(mode)
        case Drawing(Some(start), _) => Drawing(Some(start), DrawPreview(start, Cell(row, col)))
        case Dragging(Some(h)) => Dragging(Some(h.(preview := HoverPreview(h.aisle, h.offset, Cell(row, col), rows, cols))))
        case _ => old(mode)
    {
      var c := Cell(row, col);
      match mode
      case Drawing(Some(start), _) =>
        mode := Drawing(Some(start), DrawPreview(start, c));
      case Dragging(Some(h)) =>
        mode := Dragging(Some(h.(preview := HoverPreview(h.aisle, h.offset, c, rows, cols))));
      case _ =>
    }

    /** `startEditing`: opens the edit controls on an aisle with its current counts. */
    method StartEditing(id: string)
      requires Wf() && Find(aisles, id).Some?
      modifies this
      ensures aisles == old(aisles) && nextAisleId == old(nextAisleId) && mode == old(mode)
      ensures editing == Some(EditSession(id, Find(aisles, id).value.sections, Find(aisles, id).value.baysHigh))
      ensures rows == old(rows) && cols == old(cols) && config == old(config)
      ensures Wf() && (old(Valid()) ==> Valid())
    {
      var a := Find(aisles, id).value;
      editing := Some(EditSession(id, a.sections, a.baysHigh));
    }

    /** The minus and plus buttons of the edit controls. */
    method StepEdit(up: bool)
      requires Wf() && editing.Some?
      modifies this
      ensures editing == Some(old(editing).value.(baysHigh := StepBaysHigh(old(editing).value.baysHigh, up)))
      ensures rows == old(rows) && cols == old(cols) && config == old(config)
      ensures aisles == old(aisles) && nextAisleId == old(nextAisleId) && mode == old(mode)
      ensures Wf() && (old(Valid()) ==> Valid())
    {
      editing := Some(editing.value.(baysHigh := StepBaysHigh(editing.value.baysHigh, up)));
    }

    /**
     * The minus and plus buttons of the form's default bays high, disabled
     * while drawing or dragging: the value every new aisle takes, never
     * stepped below 1.
     */
    method StepDefaultBaysHigh(up: bool)
      requires Wf() && mode.Idle?
      modifies this
      ensures config == old(config).(defaultBaysHigh := StepBaysHigh(old(config).defaultBaysHigh, up))
      ensures config.defaultBaysHigh >= 1
      ensures rows == old(rows) && cols == old(cols) && editing == old(editing)
      ensures aisles == old(aisles) && nextAisleId == old(nextAisleId) && mode == old(mode)
      ensures Wf() && (old(Valid()) ==> Valid())
    {
      config := config.(defaultBaysHigh := StepBaysHigh(config.defaultBaysHigh, up));
    }

    /** `saveEdit`: writes the pending counts into the record and closes the edit controls. */
    method SaveEdit()
      requires Wf()
      modifies this
      ensures aisles == match old(editing)
        case None => old(aisles)
        case Some(e) => SetBays(old(aisles), e.id, e.sections, e.baysHigh)
      ensures editing == None
      ensures rows == old(rows) && cols == old(cols) && config == old(config)
      ensures nextAisleId == old(nextAisleId) && mode == old(mode)
      ensures Wf() && (old(Valid()) ==> Valid())
    {
      if editing.Some? {
        var e := editing.value;
        SaveEditKeepsConsistent(rows, cols, aisles, nextAisleId, mode, e);
        aisles := SetBays(aisles, e.id, e.sections, e.baysHigh);
        editing := None;
      }
    }

    /** `cancelEdit`: closes the edit controls, discarding the pending counts. */
    method CancelEdit()
      requires Wf()
      modifies this
      ensures editing == None
      ensures rows == old(rows) && cols == old(cols) && config == old(config)
      ensures aisles == old(aisles) && nextAisleId == old(nextAisleId) && mode == old(mode)
      ensures Wf() && (old(Valid()) ==> Valid())
    {
      editing := None;
    }

    /**
     * `duplicateAisle`: places the copy `DuplicateOf` proposes under the
     * counter's next key, unless it would overlap an aisle or reach past the
     * last row or column.
     */
    method DuplicateAisle(id: string) returns (err: Option<Alert>)
      requires Wf() && Find(aisles, id).Some?
      modifies this
      ensures var c := DuplicateOf(Find(old(aisles), id).value, old(nextAisleId));
        if AnyOverlap(old(aisles), c.Footprint(), None) || c.gridRow + c.height > rows || c.gridCol + c.width > cols then
          err == Some(CannotDuplicate) && aisles == old(aisles) && nextAisleId == old(nextAisleId)
        else
          err.None? && aisles == old(aisles) + [c] && nextAisleId == old(nextAisleId) + 1
      ensures rows == old(rows) && cols == old(cols) && config == old(config)
      ensures mode == old(mode) && editing == old(editing)
      ensures Wf() && (old(Valid()) ==> Valid())
    {
      var original := Find(aisles, id).value;
      var c := DuplicateOf(original, nextAisleId);
      if AnyOverlap(aisles, c.Footprint(), None) || c.gridRow + c.height > rows || c.gridCol + c.width > cols {
        err := Some(CannotDuplicate);
      } else {
        if StoreValid(aisles, rows, cols, nextAisleId) {
          DuplicateBesideOriginal(original, nextAisleId);
          IssuedUnder(c, nextAisleId);
        }
        Insert(c);
        err := None;
      }
    }

    /** `deleteAisle`: once confirmed, removes the key, closes its edit controls and lets go of it if it is held. */
    method DeleteAisle(id: string, confirmed: bool)
      requires Wf()
      modifies this
      ensures aisles == if confirmed then Without(old(aisles), {id}) else old(aisles)
      ensures editing == if confirmed && old(editing).Some? && old(editing).value.id == id then None else old(editing)
      ensures mode == if confirmed then Release(old(mode), id) else old(mode)
      ensures rows == old(rows) && cols == old(cols) && config == old(config)
      ensures nextAisleId == old(nextAisleId)
      ensures Wf() && (old(Valid()) ==> Valid())
    {
      if confirmed {
        DeleteKeepsTracks(mode, aisles, id, nextAisleId);
        if StoreValid(aisles, rows, cols, nextAisleId) {
          WithoutKeepsValid(aisles, {id}, rows, cols, nextAisleId);
        }
        aisles := Without(aisles, {id});
        mode := Release(mode, id);
        if editing.Some? && editing.value.id == id {
          editing := None;
        }
      }
    }

    /** `clearAll`: once confirmed, empties the store, resets the counter and leaves every mode. */
    method ClearAll(confirmed: bool)
      requires Wf()
      modifies this
      ensures confirmed ==> aisles == [] && nextAisleId == 1 && mode == Idle && editing == None
      ensures !confirmed ==> aisles == old(aisles) && nextAisleId == old(nextAisleId) && mode == old(mode) && editing == old(editing)
      ensures rows == old(rows) && cols == old(cols) && config == old(config)
      ensures Wf() && (old(Valid()) ==> Valid())
    {
      if confirmed {
        aisles := [];
        nextAisleId := 1;
        mode := Idle;
        editing := None;
      }
    }

    /**
     * The outcome of `updateGridSize`: the entered value is clamped; when the
     * new size cuts off aisles and the dimension shrinks, the resize needs
     * confirmation and deletes exactly those aisles, and without it nothing
     * changes.
     */
    twostate predicate Resized(dim: Dimension, value: Option<int>, confirmed: bool)
      reads this
    {
      var v := ClampGridValue(value);
      var newRows := if dim == RowsDim then v else old(rows);
      var newCols := if dim == ColsDim then v else old(cols);
      var victims := Orphans(old(aisles), newRows, newCols);
      var cuts := |victims| > 0 && v < (if dim == RowsDim then old(rows) else old(cols));
      if cuts && !confirmed then
        rows == old(rows) && cols == old(cols) && aisles == old(aisles)
      else
        && rows == newRows && cols == newCols
        && aisles == if cuts then Without(old(aisles), IdsOf(victims)) else old(aisles)
    }

    /** `updateGridSize`. */
    method UpdateGridSize(dim: Dimension, value: Option<int>, confirmed: bool)
      requires Wf() && mode.Idle?
      modifies this
      ensures Resized(dim, value, confirmed)
      ensures config == old(config) && nextAisleId == old(nextAisleId)
      ensures mode == old(mode) && editing == old(editing)
      ensures Wf() && (old(Valid()) ==> Valid())
    {
      var v := ClampGridValue(value);
      var newRows := if dim == RowsDim then v else rows;
      var newCols := if dim == ColsDim then v else cols;
      var victims := Orphans(aisles, newRows, newCols);
      var cuts := |victims| > 0 && v < (if dim == RowsDim then rows else cols);
      if !cuts || confirmed {
        Resize(newRows, newCols, victims, cuts);
      }
    }

    /** Applies a resize: deletes the orphaned aisles when it cuts, then sets the new size. */
    method Resize(newRows: nat, newCols: nat, victims: seq<Aisle>, cuts: bool)
      requires Wf() && mode.Idle? && victims == Orphans(aisles, newRows, newCols)
      requires !cuts ==> victims == [] || (rows <= newRows && cols <= newCols)
      modifies this
      ensures rows == newRows && cols == newCols
      ensures aisles == if cuts then Without(old(aisles), IdsOf(victims)) else old(aisles)
      ensures config == old(config) && nextAisleId == old(nextAisleId)
      ensures mode == old(mode) && editing == old(editing)
      ensures Wf() && (old(Valid()) ==> Valid())
    {
      var kept := aisles;
      if cuts {
        kept := DeleteAll(aisles, victims);
      }
      ResizeKeepsConsistent(aisles, rows, cols, nextAisleId, mode, newRows, newCols, cuts, kept);
      aisles, rows, cols := kept, newRows, newCols;
    }

    /**
     * `loadLayout`: a document without a version or an aisle store is refused
     * with an alert; an accepted one, once confirmed, replaces the grid,
     * settings, store and counter and leaves every mode. The keys of a parsed
     * store are distinct.
     */
    method LoadLayout(doc: Layout, confirmed: bool) returns (err: Option<Alert>)
      requires Wf()
      requires doc.aisles.Some? ==> UniqueIds(doc.aisles.value)
      modifies this
      ensures var r := Load(doc, old(config));
        if r.Failure? then
          err == Some(InvalidLayoutFile) && Current() == old(Current()) && mode == old(mode) && editing == old(editing)
        else if confirmed then
          err.None? && Current() == r.value && mode == Idle && editing == None
        else
          err.None? && Current() == old(Current()) && mode == old(mode) && editing == old(editing)
      ensures Wf()
    {
      var r := Load(doc, config);
      if r.Failure? {
        return Some(InvalidLayoutFile);
      }
      err := None;
      if confirmed {
        var st := r.value;
        rows, cols := st.grid.rows, st.grid.cols;
        config := st.formData;
        aisles := st.aisles;
        nextAisleId := st.nextAisleId;
        mode := Idle;
        editing := None;
      }
    }

    /** `saveLayout`: the document for the current state. */
    function Saved(): (doc: Layout)
      reads this
      ensures doc.version == Some(FormatVersion) && doc.gridSize == Some(GridSize(rows, cols))
      ensures doc.formData == Some(config) && doc.aisles == Some(aisles) && doc.nextAisleId == Some(nextAisleId)
    {
      Save(Current())
    }

    /** Whatever state the builder is in, loading what it saves restores it. */
    lemma SaveThenLoadRestores(current: FormData)
      requires Wf()
      ensures Load(Saved(), current) == Success(Current())
    {
      LoadSaveRoundTrip(Current(), current);
    }

    /** `isGridPositionOccupied`: an aisle other than the held one covers the cell. */
    function OccupiedAt(c: Cell): (b: bool)
      reads this
      ensures b <==> exists a :: a in aisles && Contains(a.Footprint(), c) && !(mode.Dragging? && mode.held.Some? && a.id == mode.held.value.aisle.id)
    {
      IsOccupied(aisles, c, if mode.Dragging? && mode.held.Some? then Some(mode.held.value.aisle.id) else None)
    }

    /** `isInPreviewArea`: the cell lies in the drawing preview. */
    function InDrawPreview(c: Cell): (b: bool)
      reads this
      ensures b <==> mode.Drawing? && mode.preview.Some? && Contains(mode.preview.value, c)
    {
      match mode
      case Drawing(_, Some(pv)) => Contains(pv, c)
      case _ => false
    }

    /** `isInDragPreview`: the cell lies in the held aisle's drop preview. */
    function InDragPreview(c: Cell): (b: bool)
      reads this
      ensures b <==> (mode.Dragging? && mode.held.Some? && mode.held.value.preview.Some? &&
                      Contains(mode.held.value.preview.value, c))
    {
      match mode
      case Dragging(Some(Held(_, _, Some(pv)))) => Contains(pv, c)
      case _ => false
    }

    /** `isStartPoint`: the cell is the drawing start point. */
    function IsStartPoint(c: Cell): (b: bool)
      reads this
      ensures b <==> mode.Drawing? && mode.start == Some(c)
    {
      match mode
      case Drawing(Some(s), _) => s == c
      case _ => false
    }

    /** `isValidDropPosition` for the current state. */
    function ValidDropAt(row: int, col: int): (b: bool)
      reads this
      ensures b ==> mode.Dragging? && mode.held.Some?
      ensures mode.Dragging? && mode.held.Some? ==>
        (b <==> IsValidDropPosition(aisles, Some(mode.held.value.aisle), row, col, rows, cols))
    {
      IsValidDropPosition(aisles, if mode.Dragging? && mode.held.Some? then Some(mode.held.value.aisle) else None, row, col, rows, cols)
    }
  }
}
