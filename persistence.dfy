/**
 * Saving and loading a layout document. A saved document carries the format
 * version "1.0", the grid size, the creation settings, the aisle store, the
 * id counter and a metadata summary; a loaded one is accepted when it has a
 * version and an aisle store, and its missing parts fall back to defaults.
 * JSON text, the download link, the file picker and the `created` timestamp
 * are outside the model: a document is the parsed object.
 */
module Persistence {
  import opened Wrappers
  import opened Alerts
  import opened Aisles
  import opened Bays

  datatype GridSize = GridSize(rows: nat, cols: nat)

  const DefaultGridSize := GridSize(20, 25)

  const FormatVersion: string := "1.0"

  datatype Metadata = Metadata(totalAisles: nat, totalBays: nat)

  /**
   * A parsed layout document. Every member may be absent; a counter of 0
   * stands for the falsy values `||` replaces.
   */
  datatype Layout = Layout(
    version: Option<string>,
    gridSize: Option<GridSize>,
    formData: Option<FormData>,
    aisles: Option<seq<Aisle>>,
    nextAisleId: Option<nat>,
    metadata: Option<Metadata>)

  /** The part of the builder's state a document saves and restores. */
  datatype Snapshot = Snapshot(grid: GridSize, formData: FormData, aisles: seq<Aisle>, nextAisleId: nat)

  /** `saveLayout`: the document written for the current state. */
  function Save(st: Snapshot): (doc: Layout)
    ensures doc.version == Some(FormatVersion) && doc.aisles == Some(st.aisles)
    ensures doc.metadata == Some(Metadata(|st.aisles|, TotalBays(st.aisles)))
  {
    Layout(
      Some(FormatVersion),
      Some(st.grid),
      Some(st.formData),
      Some(st.aisles),
      Some(st.nextAisleId),
      Some(Metadata(|st.aisles|, TotalBays(st.aisles))))
  }

  /** The acceptance test of a loaded document: a non-empty version and an aisle store. */
  predicate Accepted(doc: Layout) {
    doc.version.Some? && doc.version.value != "" && doc.aisles.Some?
  }

  /** `layout.nextAisleId || 1`. */
  function StoredCounter(doc: Layout): (n: nat)
    ensures n >= 1
    ensures doc.nextAisleId.Some? && doc.nextAisleId.value != 0 ==> n == doc.nextAisleId.value
  {
    if doc.nextAisleId.Some? && doc.nextAisleId.value != 0 then doc.nextAisleId.value else 1
  }

  /**
   * `loadLayout` as the builder writes it: an accepted document replaces the
   * state, with the default grid, the current settings and counter 1 standing
   * in for missing members; any other document is refused with an alert. The
   * counter is taken from the document alone.
   */
  function LoadAsWritten(doc: Layout, current: FormData): (r: Result<Snapshot, Alert>)
    ensures r.Success? <==> Accepted(doc)
    ensures r.Failure? ==> r.error == InvalidLayoutFile
    ensures r.Success? ==>
      && r.value.aisles == doc.aisles.value
      && r.value.grid == doc.gridSize.GetOr(DefaultGridSize)
      && r.value.formData == doc.formData.GetOr(current)
      && r.value.nextAisleId == StoredCounter(doc)
  {
    if Accepted(doc) then
      Success(Snapshot(doc.gridSize.GetOr(DefaultGridSize), doc.formData.GetOr(current), doc.aisles.value, StoredCounter(doc)))
    else
      Failure(InvalidLayoutFile)
  }

  /** The least counter value no `aisle-N` id of the store has reached. */
  function NextFree(s: seq<Aisle>): (n: nat)
    ensures IdsIssuedBelow(s, n)
    ensures n == 0 || exists a :: a in s && IdCeiling(a.id) == n
  {
    if s == [] then 0
    else
      var rest := NextFree(s[1..]);
      assert forall a :: a in s ==> a == s[0] || a in s[1..];
      if IdCeiling(s[0].id) >= rest then IdCeiling(s[0].id) else rest
  }

  /**
   * `loadLayout` with the counter kept ahead of every loaded `aisle-N` id:
   * the least value, from the stored counter on, that no loaded id has reached.
   */
  function Load(doc: Layout, current: FormData): (r: Result<Snapshot, Alert>)
    ensures r.Success? <==> Accepted(doc)
    ensures r.Failure? ==> r.error == InvalidLayoutFile
    ensures r.Success? ==>
      && r.value.aisles == doc.aisles.value
      && r.value.grid == doc.gridSize.GetOr(DefaultGridSize)
      && r.value.formData == doc.formData.GetOr(current)
      && r.value.nextAisleId >= StoredCounter(doc)
      && IdsIssuedBelow(r.value.aisles, r.value.nextAisleId)
    ensures r.Success? ==>
      forall n :: StoredCounter(doc) <= n < r.value.nextAisleId ==> !IdsIssuedBelow(r.value.aisles, n)
  {
    match LoadAsWritten(doc, current)
    case Failure(e) => Failure(e)
    case Success(st) =>
      var free := NextFree(st.aisles);
      Success(st.(nextAisleId := if free > st.nextAisleId then free else st.nextAisleId))
  }

  /** The corrected load only ever raises the counter, and leaves it alone when the document's is ahead. */
  lemma LoadRaisesCounter(doc: Layout, current: FormData)
    requires Accepted(doc)
    ensures Load(doc, current).value.nextAisleId >= StoredCounter(doc)
    ensures IdsIssuedBelow(doc.aisles.value, StoredCounter(doc)) ==>
      Load(doc, current) == LoadAsWritten(doc, current)
  {
  }

  /** Loading what was saved restores the saved state, whatever the current settings. */
  lemma LoadSaveRoundTrip(st: Snapshot, current: FormData)
    requires st.nextAisleId >= 1 && IdsIssuedBelow(st.aisles, st.nextAisleId)
    ensures Load(Save(st), current) == Success(st)
    ensures LoadAsWritten(Save(st), current) == Success(st)
  {
    LoadRaisesCounter(Save(st), current);
  }

  /**
   * A document without a counter whose store already holds `aisle-1` loads
   * with counter 1, so the next aisle the builder creates takes the key
   * `aisle-1` and replaces the loaded aisle instead of joining it.
   */
  lemma LoadAsWrittenReissuesKey(a: Aisle, b: Aisle, current: FormData)
    requires a.id == AisleKey(1) && b.id == AisleKey(1)
    ensures var doc := Layout(Some(FormatVersion), None, None, Some([a]), None, None);
      && LoadAsWritten(doc, current).Success?
      && var st := LoadAsWritten(doc, current).value;
      && st.nextAisleId == 1
      && !IdsIssuedBelow(st.aisles, st.nextAisleId)
      && Put(st.aisles, b) == [b]
  {
    IdCeilingOfKey(1);
    assert [a][0] == a;
  }

  /** The corrected load of the same document continues the count past the loaded aisle. */
  lemma LoadContinuesCount(a: Aisle, current: FormData)
    requires a.id == AisleKey(1)
    ensures var doc := Layout(Some(FormatVersion), None, None, Some([a]), None, None);
      && Load(doc, current).Success?
      && Load(doc, current).value.nextAisleId == 2
      && forall x :: x in Load(doc, current).value.aisles ==> x.id != AisleKey(2)
  {
    IdCeilingOfKey(1);
    IdCeilingOfKey(2);
    assert [a][0] == a;
  }
}
