/**
 * The aisle record and the aisle store: the builder keeps its aisles in an
 * object keyed by aisle id, which the model keeps as a sequence in the
 * object's insertion order (the order `Object.values` visits, and so the
 * order of the CSV export), each entry keyed by its own `id`.
 */
module Aisles {
  import opened Wrappers
  import opened Decimal
  import opened Geometry

  datatype Orientation = Horizontal | Vertical

  /** The creation settings of the form: zone tag, bay dimensions in mm, default bays high. */
  datatype FormData = FormData(zone: string, heightMm: int, widthMm: int, depthMm: int, defaultBaysHigh: nat)

  const DefaultFormData := FormData("A", 1500, 1000, 1200, 5)

  /** One placed aisle; `createdAt` is not modelled. */
  datatype Aisle = Aisle(
    id: string,
    number: string,
    width: nat,
    height: nat,
    sections: nat,
    baysHigh: nat,
    gridRow: nat,
    gridCol: nat,
    zone: string,
    color: string,
    orientation: Orientation)
  {
    /** The cells the aisle occupies. */
    function Footprint(): Rect {
      Rect(gridRow, gridCol, width, height)
    }
  }

  // ---------------------------------------------------------------- colours

  const Palette: seq<string> := ["#4CAF50", "#2196F3", "#FF9800", "#9C27B0", "#F44336", "#00BCD4", "#8BC34A", "#FF5722"]

  /** The colour of the aisle created with counter value `n`. */
  function ColorFor(n: nat): (c: string)
    requires n >= 1
    ensures c in Palette
  {
    Palette[(n - 1) % |Palette|]
  }

  /** Colours cycle through the palette: they repeat exactly every eight aisles. */
  lemma ColorsCycle(m: nat, n: nat)
    requires 1 <= m < n
    ensures ColorFor(m) == ColorFor(n) <==> (n - m) % 8 == 0
  {
    var i, j := (m - 1) % 8, (n - 1) % 8;
    assert (n - m) % 8 == 0 <==> i == j;
  }

  // ------------------------------------------------------------------- ids

  const IdPrefix: string := "aisle-"

  /** The id of the aisle created with counter value `n`. */
  function AisleKey(n: nat): string {
    IdPrefix + NatToString(n)
  }

  /** One more than the serial an `aisle-N` id carries, and 0 for any other id. */
  function IdCeiling(id: string): nat {
    if |id| >= |IdPrefix| && id[..|IdPrefix|] == IdPrefix then ParseNat(id[|IdPrefix|..]) + 1 else 0
  }

  lemma IdCeilingOfKey(n: nat)
    ensures IdCeiling(AisleKey(n)) == n + 1
  {
    var k := AisleKey(n);
    assert k[..|IdPrefix|] == IdPrefix && k[|IdPrefix|..] == NatToString(n);
    ParseNatToString(n);
  }

  lemma AisleKeyInjective(m: nat, n: nat)
    requires AisleKey(m) == AisleKey(n)
    ensures m == n
  {
    IdCeilingOfKey(m);
    IdCeilingOfKey(n);
  }

  // ----------------------------------------------------------- invariants

  predicate UniqueIds(s: seq<Aisle>) {
    forall i, j :: 0 <= i < j < |s| ==> s[i].id != s[j].id
  }

  /** The straight-line shape: one cell thick across its orientation. */
  predicate Straight(a: Aisle) {
    && a.width >= 1 && a.height >= 1
    && (a.orientation == Horizontal ==> a.height == 1)
    && (a.orientation == Vertical ==> a.width == 1)
  }

  predicate Fits(a: Aisle, rows: int, cols: int) {
    InBounds(a.Footprint(), rows, cols)
  }

  predicate WithinGrid(s: seq<Aisle>, rows: int, cols: int) {
    forall a :: a in s ==> Fits(a, rows, cols)
  }

  predicate NoOverlap(s: seq<Aisle>) {
    forall a, b :: a in s && b in s && a.id != b.id ==> !Overlaps(a.Footprint(), b.Footprint())
  }

  /** Every id the counter has issued lies below it, so the next `aisle-N` is unused. */
  predicate IdsIssuedBelow(s: seq<Aisle>, next: nat) {
    forall a :: a in s ==> IdCeiling(a.id) <= next
  }

  predicate AllStraight(s: seq<Aisle>) {
    forall a :: a in s ==> Straight(a)
  }

  /**
   * An aisle as the builder issues it: at least one section and one bay
   * high, its key `aisle-N` for some counter value N, and its number N
   * zero-padded.
   */
  predicate Issued(a: Aisle) {
    var n := IdCeiling(a.id) - 1;
    && a.sections >= 1 && a.baysHigh >= 1
    && n >= 0 && a.id == AisleKey(n) && a.number == Pad2(n)
  }

  /** A record built under counter value `n` with positive counts is issued. */
  lemma IssuedUnder(a: Aisle, n: nat)
    requires a.sections >= 1 && a.baysHigh >= 1
    requires a.id == AisleKey(n) && a.number == Pad2(n)
    ensures Issued(a)
  {
    IdCeilingOfKey(n);
  }

  predicate AllIssued(s: seq<Aisle>) {
    forall a :: a in s ==> Issued(a)
  }

  /**
   * The store invariant: in the grid, pairwise disjoint, straight, ids
   * unique and below the counter, counts positive and each number matching
   * its key.
   */
  predicate StoreValid(s: seq<Aisle>, rows: int, cols: int, next: nat) {
    && UniqueIds(s) && WithinGrid(s, rows, cols) && NoOverlap(s) && IdsIssuedBelow(s, next) && AllStraight(s)
    && AllIssued(s)
  }

  /** Issued aisles under different keys carry different numbers, each a digit string. */
  lemma IssuedNumbersDiffer(a: Aisle, b: Aisle)
    requires Issued(a) && Issued(b) && a.id != b.id
    ensures a.number != b.number && AllDigits(a.number) && AllDigits(b.number)
  {
    ParsePad2(IdCeiling(a.id) - 1);
    ParsePad2(IdCeiling(b.id) - 1);
  }

  /** With distinct keys, each matching its number, no two aisles share a number. */
  lemma NumbersDistinct(s: seq<Aisle>)
    requires UniqueIds(s) && AllIssued(s)
    ensures forall i, j :: 0 <= i < j < |s| ==> s[i].number != s[j].number
  {
    forall i, j | 0 <= i < j < |s| ensures s[i].number != s[j].number {
      assert s[i] in s && s[j] in s;
      IssuedNumbersDiffer(s[i], s[j]);
    }
  }

  lemma FreshKeyUnused(s: seq<Aisle>, next: nat, m: nat)
    requires IdsIssuedBelow(s, next) && m >= next
    ensures forall a :: a in s ==> a.id != AisleKey(m)
  {
    IdCeilingOfKey(m);
  }

  // -------------------------------------------------------------- queries

  /** Whether an aisle takes part in a scan that skips the aisle being dragged. */
  predicate Considered(a: Aisle, skip: Option<string>) {
    skip.None? || a.id != skip.value
  }

  /** The position of the aisle with key `id`. */
  function IndexOf(s: seq<Aisle>, id: string): (r: Option<nat>)
    ensures r.Some? ==> r.value < |s| && s[r.value].id == id
    ensures r.None? <==> forall a :: a in s ==> a.id != id
  {
    if s == [] then None
    else if s[0].id == id then Some(0)
    else match IndexOf(s[1..], id)
      case None => None
      case Some(i) => Some(i + 1)
  }

  /** The record stored under key `id`. */
  function Find(s: seq<Aisle>, id: string): (r: Option<Aisle>)
    ensures r.Some? ==> r.value in s && r.value.id == id
    ensures r.None? <==> forall a :: a in s ==> a.id != id
  {
    match IndexOf(s, id)
    case None => None
    case Some(i) => Some(s[i])
  }

  /** `getAisleAtPosition`: the first aisle, in store order, whose footprint holds the cell. */
  function AisleAt(s: seq<Aisle>, c: Cell): (r: Option<Aisle>)
    ensures r.Some? ==> r.value in s && Contains(r.value.Footprint(), c)
    ensures r.None? <==> forall a :: a in s ==> !Contains(a.Footprint(), c)
  {
    if s == [] then None
    else if Contains(s[0].Footprint(), c) then Some(s[0])
    else AisleAt(s[1..], c)
  }

  /** Like `.find`, the hit test returns the first aisle in store order that covers the cell. */
  lemma {:induction false} AisleAtIsFirst(s: seq<Aisle>, c: Cell)
    requires AisleAt(s, c).Some?
    ensures exists i :: (0 <= i < |s| && s[i] == AisleAt(s, c).value &&
                         forall j :: 0 <= j < i ==> !Contains(s[j].Footprint(), c))
  {
    if !Contains(s[0].Footprint(), c) {
      var t := s[1..];
      AisleAtIsFirst(t, c);
      var i :| 0 <= i < |t| && t[i] == AisleAt(t, c).value && forall j :: 0 <= j < i ==> !Contains(t[j].Footprint(), c);
      assert s[i + 1] == AisleAt(s, c).value;
      forall j | 0 <= j < i + 1 ensures !Contains(s[j].Footprint(), c) {
        if j > 0 { assert s[j] == t[j - 1]; }
      }
    }
  }

  /** `isGridPositionOccupied`: some aisle other than the skipped one holds the cell. */
  function IsOccupied(s: seq<Aisle>, c: Cell, skip: Option<string>): (b: bool)
    ensures b <==> exists a :: a in s && Considered(a, skip) && Contains(a.Footprint(), c)
  {
    if s == [] then false
    else (Considered(s[0], skip) && Contains(s[0].Footprint(), c)) || IsOccupied(s[1..], c, skip)
  }

  /** The overlap scan: some aisle other than the skipped one overlaps the candidate rectangle. */
  function AnyOverlap(s: seq<Aisle>, r: Rect, skip: Option<string>): (b: bool)
    ensures b <==> exists a :: a in s && Considered(a, skip) && Overlaps(r, a.Footprint())
  {
    if s == [] then false
    else (Considered(s[0], skip) && Overlaps(r, s[0].Footprint())) || AnyOverlap(s[1..], r, skip)
  }

  /** In a store without overlaps a cell belongs to at most one aisle, so the hit test is unambiguous. */
  lemma AtMostOneAisleAtCell(s: seq<Aisle>, a: Aisle, b: Aisle, c: Cell)
    requires NoOverlap(s) && a in s && b in s
    requires Contains(a.Footprint(), c) && Contains(b.Footprint(), c)
    ensures a.id == b.id
  {
    SharedCellOverlaps(a.Footprint(), b.Footprint(), c);
  }

  /** Without a skipped aisle the occupancy test finds exactly what the hit test finds. */
  lemma OccupiedIffAisleAt(s: seq<Aisle>, c: Cell)
    ensures IsOccupied(s, c, None) <==> AisleAt(s, c).Some?
  {
  }

  // ------------------------------------------------------------ mutations

  /** `{...store, [a.id]: a}`: replaces the record under `a.id` in place, or appends a new key. */
  function Put(s: seq<Aisle>, a: Aisle): (r: seq<Aisle>)
    ensures (forall x :: x in s ==> x.id != a.id) ==> r == s + [a]
    ensures a in r && |r| >= |s|
    ensures UniqueIds(s) ==> UniqueIds(r)
    ensures UniqueIds(s) ==> forall x :: x in r <==> x == a || (x in s && x.id != a.id)
  {
    match IndexOf(s, a.id)
    case None => s + [a]
    case Some(i) =>
      var r := s[i := a];
      assert r[i] == a;
      assert UniqueIds(s) ==> forall x :: x in r <==> x == a || (x in s && x.id != a.id) by {
        if UniqueIds(s) {
          forall x ensures x in r <==> x == a || (x in s && x.id != a.id) {
            if x in s && x.id != a.id {
              var k :| 0 <= k < |s| && s[k] == x;
              assert r[k] == x;
            }
          }
        }
      }
      r
  }

  /** `r` is `s` with some records dropped and the rest in their order (matched greedily from the front). */
  predicate InOrderWithin(r: seq<Aisle>, s: seq<Aisle>)
    decreases |s|
  {
    r == [] || (s != [] && if r[0] == s[0] then InOrderWithin(r[1..], s[1..]) else InOrderWithin(r, s[1..]))
  }

  /** The store with every record whose key is in `ids` deleted, order kept. */
  function Without(s: seq<Aisle>, ids: set<string>): (r: seq<Aisle>)
    ensures forall x :: x in r <==> x in s && x.id !in ids
    ensures UniqueIds(s) ==> UniqueIds(r)
    ensures |r| <= |s|
    ensures InOrderWithin(r, s)
  {
    if s == [] then []
    else if s[0].id in ids then Without(s[1..], ids)
    else [s[0]] + Without(s[1..], ids)
  }

  /** The keys of a run of records. */
  function IdsOf(s: seq<Aisle>): set<string> {
    if s == [] then {} else IdsOf(s[..|s| - 1]) + {s[|s| - 1].id}
  }

  /** A key is among the keys of a run of records exactly when one of them carries it. */
  lemma {:induction false} IdsOfMembers(s: seq<Aisle>, id: string)
    ensures id in IdsOf(s) <==> exists a :: a in s && a.id == id
  {
    if s != [] {
      var init := s[..|s| - 1];
      IdsOfMembers(init, id);
      assert s == init + [s[|s| - 1]];
    }
  }

  lemma {:induction false} WithoutMore(s: seq<Aisle>, ids: set<string>, id: string)
    ensures Without(Without(s, ids), {id}) == Without(s, ids + {id})
  {
    if s != [] {
      WithoutMore(s[1..], ids, id);
    }
  }

  /** The aisle under key `id` moved to a new anchor; every other field and aisle kept. */
  function Relocate(s: seq<Aisle>, id: string, row: nat, col: nat): (r: seq<Aisle>)
    ensures |r| == |s|
    ensures forall k :: 0 <= k < |s| ==> r[k].id == s[k].id
  {
    seq(|s|, k requires 0 <= k < |s| => if s[k].id == id then s[k].(gridRow := row, gridCol := col) else s[k])
  }

  /** The aisle under key `id` with new section and bays-high counts; its footprint kept. */
  function SetBays(s: seq<Aisle>, id: string, sections: nat, baysHigh: nat): (r: seq<Aisle>)
    ensures |r| == |s|
    ensures forall k :: 0 <= k < |s| ==> r[k].Footprint() == s[k].Footprint() && r[k].id == s[k].id
  {
    seq(|s|, k requires 0 <= k < |s| => if s[k].id == id then s[k].(sections := sections, baysHigh := baysHigh) else s[k])
  }

  /** The resize test: the aisle reaches past the last row or the last column. */
  predicate ExtendsBeyond(a: Aisle, rows: int, cols: int) {
    a.gridRow + a.height > rows || a.gridCol + a.width > cols
  }

  /** The aisles a resize to `rows` by `cols` would leave outside the grid, in store order. */
  function Orphans(s: seq<Aisle>, rows: int, cols: int): (r: seq<Aisle>)
    ensures forall a :: a in r <==> a in s && !Fits(a, rows, cols)
    ensures r == [] <==> forall a :: a in s ==> Fits(a, rows, cols)
  {
    if s == [] then []
    else if ExtendsBeyond(s[0], rows, cols) then assert s[0] in s; [s[0]] + Orphans(s[1..], rows, cols)
    else Orphans(s[1..], rows, cols)
  }

  // ------------------------------------------------ the invariant is kept

  /** An aisle under the counter's next key is appended, and the keys stay distinct and below the advanced counter. */
  lemma InsertKeepsKeys(s: seq<Aisle>, a: Aisle, next: nat)
    requires UniqueIds(s) && IdsIssuedBelow(s, next) && a.id == AisleKey(next)
    ensures Put(s, a) == s + [a]
    ensures UniqueIds(s + [a]) && IdsIssuedBelow(s + [a], next + 1)
  {
    FreshKeyUnused(s, next, next);
    IdCeilingOfKey(next);
  }

  /** Moving an aisle keeps the keys: distinct and below the counter. */
  lemma RelocateKeepsKeys(s: seq<Aisle>, id: string, row: nat, col: nat, next: nat)
    requires UniqueIds(s) && IdsIssuedBelow(s, next)
    ensures UniqueIds(Relocate(s, id, row, col)) && IdsIssuedBelow(Relocate(s, id, row, col), next)
  {
    var r := Relocate(s, id, row, col);
    forall b | b in r ensures IdCeiling(b.id) <= next {
      var k :| 0 <= k < |r| && r[k] == b;
      assert s[k] in s;
    }
  }

  /** A move under a key the store does not hold changes nothing. */
  lemma RelocateMissing(s: seq<Aisle>, id: string, row: nat, col: nat)
    requires Find(s, id).None?
    ensures Relocate(s, id, row, col) == s
  {
    var r := Relocate(s, id, row, col);
    forall k | 0 <= k < |s| ensures r[k] == s[k] {
      assert s[k] in s;
    }
  }

  /** Editing bay counts keeps the keys and the size of every aisle under every key. */
  lemma SetBaysKeepsKeys(s: seq<Aisle>, id: string, sections: nat, baysHigh: nat, next: nat)
    requires UniqueIds(s) && IdsIssuedBelow(s, next)
    ensures var r := SetBays(s, id, sections, baysHigh);
      && UniqueIds(r) && IdsIssuedBelow(r, next)
      && forall b :: b in r ==> exists a :: a in s && a.id == b.id && a.width == b.width && a.height == b.height
  {
    var r := SetBays(s, id, sections, baysHigh);
    forall b | b in r ensures exists a :: a in s && a.id == b.id && a.width == b.width && a.height == b.height {
      var k :| 0 <= k < |r| && r[k] == b;
      assert s[k] in s && s[k].Footprint() == b.Footprint();
    }
  }

  /**
   * Saving an edit writes the new counts into the record under the key and
   * nothing else: the store holds the edited record and every other record
   * unchanged.
   */
  lemma SetBaysMembers(s: seq<Aisle>, id: string, sections: nat, baysHigh: nat)
    requires UniqueIds(s) && Find(s, id).Some?
    ensures var edited := Find(s, id).value.(sections := sections, baysHigh := baysHigh);
      forall b :: b in SetBays(s, id, sections, baysHigh) <==> b == edited || (b in s && b.id != id)
  {
    var x := Find(s, id).value;
    var r := SetBays(s, id, sections, baysHigh);
    var edited := x.(sections := sections, baysHigh := baysHigh);
    forall k | 0 <= k < |s| && s[k].id == id ensures r[k] == edited {
      var i :| 0 <= i < |s| && s[i] == x;
      assert i == k;
    }
    forall b ensures b in r <==> b == edited || (b in s && b.id != id) {
      if b in s && b.id != id {
        var k :| 0 <= k < |s| && s[k] == b;
        assert r[k] == b;
      }
      if b == edited {
        var k :| 0 <= k < |s| && s[k] == x;
        assert r[k] == edited;
      }
    }
  }

  /** Saving an edit under a key the store does not hold changes nothing. */
  lemma SetBaysMissing(s: seq<Aisle>, id: string, sections: nat, baysHigh: nat)
    requires Find(s, id).None?
    ensures SetBays(s, id, sections, baysHigh) == s
  {
    var r := SetBays(s, id, sections, baysHigh);
    forall k | 0 <= k < |s| ensures r[k] == s[k] {
      assert s[k] in s;
    }
  }

  /** Inserting a fresh, in-grid, straight aisle that overlaps nothing appends it and keeps the invariant. */
  lemma InsertKeepsValid(s: seq<Aisle>, a: Aisle, rows: int, cols: int, next: nat)
    requires StoreValid(s, rows, cols, next)
    requires a.id == AisleKey(next) && Fits(a, rows, cols) && Straight(a) && Issued(a)
    requires !AnyOverlap(s, a.Footprint(), None)
    ensures Put(s, a) == s + [a]
    ensures StoreValid(s + [a], rows, cols, next + 1)
  {
    FreshKeyUnused(s, next, next);
    IdCeilingOfKey(next);
    var r := s + [a];
    forall i, j | 0 <= i < j < |r| ensures r[i].id != r[j].id {
      if j == |s| { assert r[i] in s; }
    }
  }

  /** After a move the store holds the moved record and every other record unchanged. */
  lemma RelocateMembers(s: seq<Aisle>, id: string, row: nat, col: nat)
    requires UniqueIds(s) && Find(s, id).Some?
    ensures var moved := Find(s, id).value.(gridRow := row, gridCol := col);
      forall b :: b in Relocate(s, id, row, col) <==> b == moved || (b in s && b.id != id)
  {
    var x := Find(s, id).value;
    var r := Relocate(s, id, row, col);
    var moved := x.(gridRow := row, gridCol := col);
    forall k | 0 <= k < |s| && s[k].id == id ensures r[k] == moved {
      var i :| 0 <= i < |s| && s[i] == x;
      assert i == k;
    }
    forall b ensures b in r <==> b == moved || (b in s && b.id != id) {
      if b in s && b.id != id {
        var k :| 0 <= k < |s| && s[k] == b;
        assert r[k] == b;
      }
      if b == moved {
        var k :| 0 <= k < |s| && s[k] == x;
        assert r[k] == moved;
      }
    }
  }

  /** Moving an aisle to an in-grid anchor that overlaps no other aisle keeps the invariant. */
  lemma RelocateKeepsValid(s: seq<Aisle>, id: string, row: nat, col: nat, rows: int, cols: int, next: nat)
    requires StoreValid(s, rows, cols, next)
    requires Find(s, id).Some?
    requires var x := Find(s, id).value;
      InBounds(Rect(row, col, x.width, x.height), rows, cols) &&
      !AnyOverlap(s, Rect(row, col, x.width, x.height), Some(id))
    ensures StoreValid(Relocate(s, id, row, col), rows, cols, next)
  {
    var x := Find(s, id).value;
    var r := Relocate(s, id, row, col);
    var moved := x.(gridRow := row, gridCol := col);
    RelocateMembers(s, id, row, col);
    assert moved.Footprint() == Rect(row, col, x.width, x.height);
    forall a, b | a in r && b in r && a.id != b.id ensures !Overlaps(a.Footprint(), b.Footprint()) {
      if a == moved {
        assert Considered(b, Some(id));
      } else if b == moved {
        assert Considered(a, Some(id));
        OverlapsSymmetric(a.Footprint(), b.Footprint());
      }
    }
  }

  /** Deleting any set of keys keeps the invariant. */
  lemma WithoutKeepsValid(s: seq<Aisle>, ids: set<string>, rows: int, cols: int, next: nat)
    requires StoreValid(s, rows, cols, next)
    ensures StoreValid(Without(s, ids), rows, cols, next)
  {
  }

  /** Editing the section and bays-high counts to positive values keeps the invariant. */
  lemma SetBaysKeepsValid(s: seq<Aisle>, id: string, sections: nat, baysHigh: nat, rows: int, cols: int, next: nat)
    requires StoreValid(s, rows, cols, next) && sections >= 1 && baysHigh >= 1
    ensures StoreValid(SetBays(s, id, sections, baysHigh), rows, cols, next)
  {
    var r := SetBays(s, id, sections, baysHigh);
    forall b | b in r
      ensures exists a :: a in s && a.id == b.id && a.Footprint() == b.Footprint()
      ensures Straight(b) && Fits(b, rows, cols) && Issued(b) && IdCeiling(b.id) <= next
    {
      var k :| 0 <= k < |r| && r[k] == b;
      assert s[k] in s;
    }
    forall a, b | a in r && b in r && a.id != b.id ensures !Overlaps(a.Footprint(), b.Footprint()) {
      var a', b' :| a' in s && a'.id == a.id && a'.Footprint() == a.Footprint() &&
                    b' in s && b'.id == b.id && b'.Footprint() == b.Footprint();
    }
  }

  /**
   * Deleting the orphans of a resize removes exactly the aisles that no longer
   * fit, and leaves a store valid for the new grid.
   */
  lemma DeleteOrphansExactly(s: seq<Aisle>, rows: int, cols: int, next: nat, newRows: int, newCols: int)
    requires StoreValid(s, rows, cols, next)
    ensures var r := Without(s, IdsOf(Orphans(s, newRows, newCols)));
      (forall a :: a in r <==> a in s && Fits(a, newRows, newCols)) &&
      StoreValid(r, newRows, newCols, next)
  {
    var orphans := Orphans(s, newRows, newCols);
    forall a | a in s ensures a.id in IdsOf(orphans) <==> !Fits(a, newRows, newCols) {
      IdsOfMembers(orphans, a.id);
      if a.id in IdsOf(orphans) {
        var b :| b in orphans && b.id == a.id;
        SameKeySameRecord(s, a, b);
      }
    }
  }

  /** In a store with distinct keys a key names one record. */
  lemma SameKeySameRecord(s: seq<Aisle>, a: Aisle, b: Aisle)
    requires UniqueIds(s) && a in s && b in s && a.id == b.id
    ensures a == b
  {
    var i :| 0 <= i < |s| && s[i] == a;
    var j :| 0 <= j < |s| && s[j] == b;
    assert !(i < j) && !(j < i);
  }

  /** Growing the grid keeps the invariant without deleting anything. */
  lemma GrowKeepsValid(s: seq<Aisle>, rows: int, cols: int, next: nat, newRows: int, newCols: int)
    requires StoreValid(s, rows, cols, next)
    requires rows <= newRows && cols <= newCols
    ensures Orphans(s, newRows, newCols) == []
    ensures StoreValid(s, newRows, newCols, next)
  {
  }
}
