/**
 * The CSV export: one header line, then one line per generated bay, aisle by
 * aisle in store order and bay by bay in generation order. Each line repeats
 * the aisle's zone, number, grid position, dimensions and orientation and the
 * form's bay dimensions; the "Total Bays" column is filled on the first line
 * of each aisle only. Fields are written without quoting.
 */
module CsvExport {
  import opened Wrappers
  import opened Decimal
  import opened Alerts
  import opened Aisles
  import opened Bays

  const Header: string :=
    "Zone,Aisle,Section,Bay,Location Code,Height(mm),Width(mm),Depth(mm),Grid Position,Aisle Dimensions,Orientation,Total Bays\n"

  /** The fields of one exported line, before they are joined. */
  datatype CsvRow = CsvRow(
    zone: string,
    aisle: string,
    section: string,
    bay: string,
    locationCode: string,
    heightMm: int,
    widthMm: int,
    depthMm: int,
    gridPosition: string,
    dimensions: string,
    orientation: string,
    totalBays: Option<nat>)

  function OrientationName(o: Orientation): string {
    match o
    case Horizontal => "horizontal"
    case Vertical => "vertical"
  }

  /** `R3` for one row or `R3-R5` for a run of rows (likewise with `C` for columns). */
  function Span(tag: string, start: nat, extent: nat): string {
    tag + NatToString(start) + (if extent > 1 then "-" + tag + NatToString(start + extent - 1) else "")
  }

  /** The "Grid Position" column: the rows, then the columns, the aisle covers. */
  function GridPosition(a: Aisle): string {
    Span("R", a.gridRow, a.height) + " " + Span("C", a.gridCol, a.width)
  }

  /** The "Aisle Dimensions" column: width by height in cells. */
  function Dimensions(a: Aisle): string {
    NatToString(a.width) + "×" + NatToString(a.height)
  }

  /** The line for bay `b`, the `index`-th of the aisle's `total` bays. */
  function RowFor(a: Aisle, fd: FormData, b: Bay, index: nat, total: nat): CsvRow {
    CsvRow(a.zone, a.number, b.section, b.bay, b.locationCode, fd.heightMm, fd.widthMm, fd.depthMm,
      GridPosition(a), Dimensions(a), OrientationName(a.orientation),
      if index == 0 then Some(total) else None)
  }

  /** The lines of one aisle: one per generated bay, in generation order. */
  function AisleRows(a: Aisle, fd: FormData): (r: seq<CsvRow>)
    ensures |r| == |BaysOf(a)|
    ensures forall i :: 0 <= i < |r| ==>
      && r[i].zone == a.zone && r[i].aisle == a.number
      && r[i].section == BaysOf(a)[i].section && r[i].bay == BaysOf(a)[i].bay
      && r[i].locationCode == BaysOf(a)[i].locationCode
      && r[i].totalBays == (if i == 0 then Some(|r|) else None)
  {
    var bays := BaysOf(a);
    seq(|bays|, i requires 0 <= i < |bays| => RowFor(a, fd, bays[i], i, |bays|))
  }

  /** The lines of a store: the lines of each aisle, in store order. */
  function Rows(s: seq<Aisle>, fd: FormData): seq<CsvRow> {
    if s == [] then [] else Rows(s[..|s| - 1], fd) + AisleRows(s[|s| - 1], fd)
  }

  /** The fields of a line, left to right; an empty "Total Bays" when the line carries none. */
  function Fields(r: CsvRow): seq<string> {
    [r.zone, r.aisle, r.section, r.bay, r.locationCode,
     IntToString(r.heightMm), IntToString(r.widthMm), IntToString(r.depthMm),
     r.gridPosition, r.dimensions, r.orientation,
     match r.totalBays case Some(n) => NatToString(n) case None => ""]
  }

  /** Fields joined by commas, without quoting. */
  function JoinFields(fs: seq<string>): string {
    if fs == [] then "" else if |fs| == 1 then fs[0] else fs[0] + "," + JoinFields(fs[1..])
  }

  function RenderRow(r: CsvRow): string {
    JoinFields(Fields(r)) + "\n"
  }

  function Render(rs: seq<CsvRow>): string {
    if rs == [] then "" else Render(rs[..|rs| - 1]) + RenderRow(rs[|rs| - 1])
  }

  /** What `exportToCSV` produces for a store: an alert when it is empty, else the header and every line. */
  function CsvText(s: seq<Aisle>, fd: FormData): (r: Result<string, Alert>)
    ensures r.Failure? <==> s == []
    ensures r.Failure? ==> r.error == NothingToExport
    ensures r.Success? ==> Header <= r.value
  {
    if s == [] then Failure(NothingToExport) else Success(Header + Render(Rows(s, fd)))
  }

  lemma ConcatAssoc(p: string, q: string, u: string)
    ensures (p + q) + u == p + (q + u)
  {
  }

  lemma {:induction false} RenderConcat(x: seq<CsvRow>, y: seq<CsvRow>)
    ensures Render(x + y) == Render(x) + Render(y)
  {
    if y == [] {
      assert x + y == x;
    } else {
      var init, last := y[..|y| - 1], y[|y| - 1];
      assert (x + y)[..|x + y| - 1] == x + init;
      assert (x + y)[|x + y| - 1] == last;
      RenderConcat(x, init);
      calc {
        Render(x + y);
        Render(x + init) + RenderRow(last);
        (Render(x) + Render(init)) + RenderRow(last);
        { ConcatAssoc(Render(x), Render(init), RenderRow(last)); }
        Render(x) + (Render(init) + RenderRow(last));
        Render(x) + Render(y);
      }
    }
  }

  /** Rendering one more line of a run appends that line's text. */
  lemma RenderSnoc(rs: seq<CsvRow>, j: nat)
    requires j < |rs|
    ensures Render(rs[..j + 1]) == Render(rs[..j]) + RenderRow(rs[j])
  {
    assert rs[..j + 1][..j] == rs[..j];
  }

  /** The inner `forEach` of `exportToCSV`: appends a line for each bay of one aisle. */
  method AppendAisle(csv: string, a: Aisle, fd: FormData) returns (out: string)
    ensures out == csv + Render(AisleRows(a, fd))
  {
    var bays := GenerateBays(a);
    var total := |bays|;
    ghost var lines := AisleRows(a, fd);
    out := csv;
    var j := 0;
    while j < |bays|
      invariant 0 <= j <= |bays|
      invariant out == csv + Render(lines[..j])
    {
      var line := RenderRow(RowFor(a, fd, bays[j], j, total));
      assert lines[j] == RowFor(a, fd, bays[j], j, total);
      RenderSnoc(lines, j);
      ConcatAssoc(csv, Render(lines[..j]), line);
      out := out + line;
      j := j + 1;
    }
    assert lines[..j] == lines;
  }

  /** `exportToCSV`: the header, then the lines of each aisle in store order. */
  method ExportCsv(aisles: seq<Aisle>, fd: FormData) returns (r: Result<string, Alert>)
    ensures r == CsvText(aisles, fd)
  {
    if |aisles| == 0 {
      return Failure(NothingToExport);
    }
    var csv := Header;
    var i := 0;
    while i < |aisles|
      invariant 0 <= i <= |aisles|
      invariant csv == Header + Render(Rows(aisles[..i], fd))
    {
      ghost var done := Rows(aisles[..i], fd);
      csv := AppendAisle(csv, aisles[i], fd);
      assert aisles[..i + 1][..i] == aisles[..i];
      assert Rows(aisles[..i + 1], fd) == done + AisleRows(aisles[i], fd);
      RenderConcat(done, AisleRows(aisles[i], fd));
      ConcatAssoc(Header, Render(done), Render(AisleRows(aisles[i], fd)));
      i := i + 1;
    }
    assert aisles[..i] == aisles;
    return Success(csv);
  }

  // ------------------------------------------------------------ properties

  /** The sum of the "Total Bays" column. */
  function ColumnTotal(rs: seq<CsvRow>): nat {
    if rs == [] then 0 else ColumnTotal(rs[..|rs| - 1]) + rs[|rs| - 1].totalBays.GetOr(0)
  }

  lemma {:induction false} ColumnTotalConcat(x: seq<CsvRow>, y: seq<CsvRow>)
    ensures ColumnTotal(x + y) == ColumnTotal(x) + ColumnTotal(y)
  {
    if y == [] {
      assert x + y == x;
    } else {
      assert (x + y)[..|x + y| - 1] == x + y[..|y| - 1];
      assert (x + y)[|x + y| - 1] == y[|y| - 1];
      ColumnTotalConcat(x, y[..|y| - 1]);
    }
  }

  /** Only the first line of an aisle carries its bay count. */
  lemma {:induction false} ColumnTotalPrefix(a: Aisle, fd: FormData, j: nat)
    requires 1 <= j <= |AisleRows(a, fd)|
    ensures ColumnTotal(AisleRows(a, fd)[..j]) == |BaysOf(a)|
  {
    var lines := AisleRows(a, fd);
    if j == 1 {
      assert lines[..j][..0] == [];
    } else {
      assert lines[..j][..j - 1] == lines[..j - 1];
      ColumnTotalPrefix(a, fd, j - 1);
    }
  }

  /** Each aisle's lines add its bay count, once, to the "Total Bays" column. */
  lemma AisleColumnTotal(a: Aisle, fd: FormData)
    ensures ColumnTotal(AisleRows(a, fd)) == |BaysOf(a)|
  {
    var lines := AisleRows(a, fd);
    if lines != [] {
      ColumnTotalPrefix(a, fd, |lines|);
      assert lines[..|lines|] == lines;
    }
  }

  /**
   * The export has one line per bay of the store, and its "Total Bays"
   * column adds up to the same total the builder shows and saves.
   */
  lemma {:induction false} RowsCountBays(s: seq<Aisle>, fd: FormData)
    ensures |Rows(s, fd)| == TotalBays(s)
    ensures ColumnTotal(Rows(s, fd)) == TotalBays(s)
  {
    if s != [] {
      var last := s[|s| - 1];
      RowsCountBays(s[..|s| - 1], fd);
      AisleColumnTotal(last, fd);
      ColumnTotalConcat(Rows(s[..|s| - 1], fd), AisleRows(last, fd));
    }
  }

  /** Every bay of every aisle in the store is exported under its location code. */
  lemma {:induction false} EveryBayExported(s: seq<Aisle>, fd: FormData, a: Aisle, b: Bay)
    requires a in s && b in BaysOf(a)
    ensures exists r :: r in Rows(s, fd) && r.locationCode == b.locationCode && r.zone == a.zone && r.aisle == a.number
  {
    var last := s[|s| - 1];
    var prefix := s[..|s| - 1];
    assert s == prefix + [last];
    if a == last {
      var bays := BaysOf(a);
      var i :| 0 <= i < |bays| && bays[i] == b;
      var r := AisleRows(a, fd)[i];
      assert r in Rows(s, fd);
    } else {
      EveryBayExported(prefix, fd, a, b);
      var r :| r in Rows(prefix, fd) && r.locationCode == b.locationCode && r.zone == a.zone && r.aisle == a.number;
      assert r in Rows(s, fd);
    }
  }

  /** The lines of one aisle carry pairwise distinct location codes. */
  lemma AisleCodesDistinct(a: Aisle, fd: FormData, i: nat, j: nat)
    requires i < j < |AisleRows(a, fd)|
    ensures AisleRows(a, fd)[i].locationCode != AisleRows(a, fd)[j].locationCode
  {
    LocationCodesDistinct(a, i, j);
  }
}
