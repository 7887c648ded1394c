# Warehouse aisle layout builder — Dafny model

This project models the engine of a warehouse aisle layout builder: a single React component (`src/components/WarehouseBuilder.jsx`) in which a user works on a rectangular grid. The user draws straight aisles with two clicks, drags aisles to new positions, and edits an aisle's section and bays-high counts. Aisles can also be duplicated, deleted or cleared, and the grid can be resized. The layout can be saved and loaded as a document, and every bay can be exported to CSV with a zero-padded location code.

The model has these modules:

- `Wrappers`: `Option` and `Result`.
- `Decimal`: `String(n)`, `padStart(2, "0")` and `parseInt` on digit strings.
- `Geometry`: cells, rectangles, the half-open overlap test, the bounds test and the cell hit test.
- `Alerts`: the messages the builder shows with `alert` instead of doing what was asked.
- `Aisles`:
  - the aisle record, its colour and its `aisle-N` key;
  - the aisle store, kept as a sequence in insertion order, each entry keyed by its own id;
  - the store's queries and mutations;
  - the store invariant: straight aisles, inside the grid, no two overlapping, distinct keys, keys below the counter, at least one section and one bay high, and each aisle's number the counter value of its `aisle-N` key.
- `Bays`: bay generation with location codes, and the bay total.
- `Drawing`: the two-click stroke, its preview and the aisle created from it.
- `Dragging`: the held aisle, the grip offset, the hover preview and the drop test.
- `Persistence`: the saved document and the load acceptance rule.
- `CsvExport`: the CSV lines and their text, plus the export loop.
- `Builder`: the editor state as a class `WarehouseBuilder` with one method per event handler.

How the `Builder` class maps the component's state:

- The component's separate state hooks become fields: `rows`, `cols`, `config`, `aisles`, `nextAisleId`, `mode` and `editing`.
- The three exclusive interaction modes are one datatype: idle, drawing (with a start point and preview), or dragging (with the held aisle, its grip offset and its preview).
- Every handler keeps `Wf()`: the counter is positive and ahead of every `aisle-N` key, keys are distinct, a start point lies on the grid, and a held aisle is still in the store with the size it was picked up with.
- Every handler except `LoadLayout` also keeps `Valid()`, which adds the store invariant, a default bays-high of 1 or more, and positive pending edit counts. A load installs whatever store the document holds, so after it `Valid()` holds only when the document's aisles are valid for its grid.

Outside effects are handled this way:

- The answer to `window.confirm` is a `confirmed` parameter.
- An `alert` is an `Alert` result.
- A loaded document is a `Layout` value, that is, the parsed object.

The model follows the code in one place where a plain reading of the interface might suggest otherwise. When the second click of a drawing would overlap an aisle, the builder shows an alert but stays in drawing mode and keeps the start point (`src/components/WarehouseBuilder.jsx:197-200`). It does not go back to idle. `Builder.WarehouseBuilder.DrawClicked` states this.

## Model

| member | source | states |
|---|---|---|
| Decimal.NatToString | src/components/WarehouseBuilder.jsx:206 | `String(n)` is a non-empty digit string, one digit long exactly when `n < 10`, with no leading zero from 10 on |
| Decimal.DigitChar | src/components/WarehouseBuilder.jsx:206 | the character of one decimal digit is a digit |
| Decimal.IntToString | src/components/WarehouseBuilder.jsx:522-523 | `String(i)` of an integer, with a minus sign for negatives, as the bay dimensions are written |
| Decimal.Pad2 | src/components/WarehouseBuilder.jsx:206 | `padStart(2, "0")` gives a digit string of exactly two characters below 10 and of the plain digits' length from 10 on, with no leading zero from 10 on |
| Decimal.ParseNatToString | src/components/WarehouseBuilder.jsx:206 | reading the decimal string of `n` back gives `n` |
| Decimal.NatToStringInjective | src/components/WarehouseBuilder.jsx:203 | different counter values give different decimal strings |
| Decimal.ParsePad2 | src/components/WarehouseBuilder.jsx:398-403 | a zero-padded number reads back as the number |
| Decimal.Pad2Injective | src/components/WarehouseBuilder.jsx:398-403 | different numbers pad to different strings |
| Geometry.Overlaps | src/components/WarehouseBuilder.jsx:120-125 | two rectangles overlap unless one ends at or before the other starts on some axis |
| Geometry.Contains | src/components/WarehouseBuilder.jsx:595-600 | a cell lies in a rectangle when its row and column fall in the rectangle's half-open ranges |
| Geometry.InBounds | src/components/WarehouseBuilder.jsx:129-135 | a rectangle starts at row and column 0 or later and ends within the grid's rows and columns |
| Geometry.OverlapsSymmetric | src/components/WarehouseBuilder.jsx:120-125 | the overlap test gives the same answer with its two rectangles swapped |
| Geometry.EdgeContactIsNotOverlap | src/components/WarehouseBuilder.jsx:189-194 | rectangles that only share an edge do not overlap |
| Geometry.OverlapsIffSharedCell | src/components/WarehouseBuilder.jsx:111-127 | for non-empty rectangles, the test holds exactly when they share a cell |
| Geometry.SharedCellOverlaps | src/components/WarehouseBuilder.jsx:1274-1288 | a shared cell makes two rectangles overlap |
| Geometry.InBoundsIffCellsInGrid | src/components/WarehouseBuilder.jsx:129-135 | for a non-empty rectangle, the bounds test holds exactly when every cell lies in the grid |
| Aisles.Palette | src/components/WarehouseBuilder.jsx:245-254 | the eight colours, in the order `generateAisleColor` lists them |
| Aisles.ColorFor | src/components/WarehouseBuilder.jsx:244-256 | the colour of aisle `n` is a palette entry |
| Aisles.ColorsCycle | src/components/WarehouseBuilder.jsx:244-256 | two aisles share a colour exactly when their counter values differ by a multiple of 8 |
| Aisles.DefaultFormData | src/components/WarehouseBuilder.jsx:48-54 | the initial settings: zone `A`, height 1500, width 1000 and depth 1200 mm, five bays high |
| Aisles.AisleKey | src/components/WarehouseBuilder.jsx:203 | the key of the aisle created with counter `n` is `aisle-` followed by `n` in decimal |
| Aisles.IdCeilingOfKey | src/components/WarehouseBuilder.jsx:203 | the key `aisle-n` counts as issued exactly from counter value `n + 1` on |
| Aisles.AisleKeyInjective | src/components/WarehouseBuilder.jsx:203 | different counter values give different keys |
| Aisles.FreshKeyUnused | src/components/WarehouseBuilder.jsx:203-224 | when every key lies below the counter, no stored aisle carries the counter's next key or a later one |
| Aisles.IndexOf | src/components/WarehouseBuilder.jsx:326-333 | finds the position of the record under a key, or reports that no record carries it |
| Aisles.Find | src/components/WarehouseBuilder.jsx:137-144 | the record under a key, or none exactly when no record carries it |
| Aisles.AisleAt | src/components/WarehouseBuilder.jsx:606-618 | a hit is a stored aisle covering the cell; a miss means no aisle covers it |
| Aisles.AisleAtIsFirst | src/components/WarehouseBuilder.jsx:606-618 | like `.find`, the hit is the first aisle in store order that covers the cell |
| Aisles.IsOccupied | src/components/WarehouseBuilder.jsx:589-604 | true exactly when some aisle other than the skipped one covers the cell |
| Aisles.AnyOverlap | src/components/WarehouseBuilder.jsx:183-195 | true exactly when some aisle other than the skipped one overlaps the rectangle |
| Aisles.AtMostOneAisleAtCell | src/components/WarehouseBuilder.jsx:606-618 | in a store without overlaps, two aisles covering the same cell carry the same key |
| Aisles.OccupiedIffAisleAt | src/components/WarehouseBuilder.jsx:589-618 | with nothing skipped, a cell is occupied exactly when the hit test finds an aisle |
| Aisles.Put | src/components/WarehouseBuilder.jsx:219-222 | writing a record under its key appends a new key; with distinct keys, the store holds the new record and every other record |
| Aisles.Without | src/components/WarehouseBuilder.jsx:416-420 | deleting keys keeps exactly the records whose key is not deleted, in their store order, and keeps keys distinct |
| Aisles.IdsOfMembers | src/components/WarehouseBuilder.jsx:574-576 | a key is among the victims' keys exactly when some victim carries it |
| Aisles.WithoutMore | src/components/WarehouseBuilder.jsx:574-576 | deleting one more key after a batch equals deleting the batch with that key added |
| Aisles.Relocate | src/components/WarehouseBuilder.jsx:136-144 | a move keeps the length of the store and the key at every position |
| Aisles.SetBays | src/components/WarehouseBuilder.jsx:326-333 | editing counts keeps the length of the store and the key and footprint at every position |
| Aisles.SetBaysMembers | src/components/WarehouseBuilder.jsx:326-333 | with distinct keys, the edited store holds the record under the key with the new section and bays-high counts and every other field kept, and every other record unchanged |
| Aisles.SetBaysMissing | src/components/WarehouseBuilder.jsx:326-333 | an edit under a key the store does not hold leaves the store unchanged |
| Aisles.ExtendsBeyond | src/components/WarehouseBuilder.jsx:559-563 | an aisle reaches past the last row or the last column of the new size |
| Aisles.Orphans | src/components/WarehouseBuilder.jsx:559-564 | the orphans are exactly the stored aisles that do not fit the new size; there are none exactly when every aisle fits |
| Aisles.InsertKeepsKeys | src/components/WarehouseBuilder.jsx:203-224 | an aisle under the counter's next key is appended, and keys stay distinct and below the advanced counter |
| Aisles.RelocateMissing | src/components/WarehouseBuilder.jsx:136-144 | moving a key the store does not hold leaves the store unchanged |
| Aisles.RelocateKeepsKeys | src/components/WarehouseBuilder.jsx:136-144 | a move keeps keys distinct and below the counter |
| Aisles.SetBaysKeepsKeys | src/components/WarehouseBuilder.jsx:326-333 | editing counts keeps keys distinct and keeps the size of the record under every key |
| Aisles.InsertKeepsValid | src/components/WarehouseBuilder.jsx:183-225 | a fresh, straight aisle that fits, overlaps nothing, has positive counts and carries the counter's number keeps the store invariant, with the counter advanced |
| Aisles.RelocateMembers | src/components/WarehouseBuilder.jsx:136-144 | after a drop, the store holds the moved record (only its anchor changed) and every other record unchanged |
| Aisles.RelocateKeepsValid | src/components/WarehouseBuilder.jsx:105-150 | a drop to an in-grid anchor that overlaps no other aisle keeps the store invariant |
| Aisles.WithoutKeepsValid | src/components/WarehouseBuilder.jsx:413-431 | deleting any keys keeps the store invariant |
| Aisles.SetBaysKeepsValid | src/components/WarehouseBuilder.jsx:323-337 | editing counts to positive values keeps the store invariant |
| Aisles.DeleteOrphansExactly | src/components/WarehouseBuilder.jsx:559-577 | after deleting the orphans' keys, the store holds exactly the aisles that fit the new size, and is valid for it |
| Aisles.IssuedUnder | src/components/WarehouseBuilder.jsx:203-208 | a record built under counter value `n`, with key `aisle-n`, number `Pad2(n)` and positive counts, is issued |
| Aisles.IssuedNumbersDiffer | src/components/WarehouseBuilder.jsx:203-204 | issued aisles with different keys carry different numbers, each a digit string |
| Aisles.NumbersDistinct | src/components/WarehouseBuilder.jsx:203-204 | in a store with distinct keys whose numbers match their keys, no two aisles share a number |
| Aisles.SameKeySameRecord | src/components/WarehouseBuilder.jsx:22 | with distinct keys, one key names one record |
| Aisles.GrowKeepsValid | src/components/WarehouseBuilder.jsx:550-586 | growing the grid orphans nothing and keeps the store invariant |
| Bays.LocationCode | src/components/WarehouseBuilder.jsx:402-404 | a location code is zone, aisle number, `-`, the two-digit section, `-`, the two-digit bay |
| Bays.MakeBay | src/components/WarehouseBuilder.jsx:399-405 | a bay carries its two-digit section and bay numbers and its location code |
| Bays.SectionBays | src/components/WarehouseBuilder.jsx:399-406 | one section yields `baysHigh` bays |
| Bays.BaysThroughCount | src/components/WarehouseBuilder.jsx:397-407 | sections 1 to `n` yield `n * baysHigh` bays |
| Bays.BaysOf | src/components/WarehouseBuilder.jsx:393-410 | an aisle yields `sections * baysHigh` bays |
| Bays.GenerateBays | src/components/WarehouseBuilder.jsx:393-410 | the nested loops produce exactly the bays `BaysOf` lists, in the same order |
| Bays.AppendSection | src/components/WarehouseBuilder.jsx:398-406 | the inner loop appends exactly the section's bays 1 to `baysHigh`, in order |
| Bays.TotalBays | src/components/WarehouseBuilder.jsx:655-658 | the bay total is the sum of `sections * baysHigh` over the stored aisles |
| Bays.TotalBaysConcat | src/components/WarehouseBuilder.jsx:655-658 | the bay total of two stores laid end to end is the sum of their totals |
| Bays.TotalBaysCountsBays | src/components/WarehouseBuilder.jsx:444-447 | the total sums the number of generated bays over the aisles |
| Bays.MakeBayNumbers | src/components/WarehouseBuilder.jsx:399-403 | a bay's section and bay fields read back as its section and bay numbers |
| Bays.SectionBaysAt | src/components/WarehouseBuilder.jsx:399-406 | the `k`-th bay of a section is bay `k + 1` |
| Bays.SectionsInRange | src/components/WarehouseBuilder.jsx:397-407 | every bay of sections 1 to `n` shows a section number between 1 and `n` |
| Bays.LastSectionNumbers | src/components/WarehouseBuilder.jsx:397-407 | the bays of section `n` show section `n` and bay numbers counting up from 1 |
| Bays.PairInOrder | src/components/WarehouseBuilder.jsx:397-407 | an earlier bay precedes a later one by section, then by bay |
| Bays.BaysInOrder | src/components/WarehouseBuilder.jsx:393-410 | generated bays are strictly ascending by section, then by bay |
| Bays.SectionBlock | src/components/WarehouseBuilder.jsx:397-407 | section `n`'s bays sit right after the bays of the earlier sections |
| Bays.PrefixKept | src/components/WarehouseBuilder.jsx:397-407 | adding sections leaves the bays already generated unchanged |
| Bays.EveryBayGenerated | src/components/WarehouseBuilder.jsx:397-407 | every (section, bay) pair in range is generated |
| Bays.CodeFormat | src/components/WarehouseBuilder.jsx:400-404 | each location code is zone, number, `-`, the bay's section field, `-`, its bay field, and both fields are digits |
| Bays.FirstDash | src/components/WarehouseBuilder.jsx:400-404 | the first dash of a code lies within it |
| Bays.FirstDashAfterDigits | src/components/WarehouseBuilder.jsx:400-404 | in a code, the first dash after a digit field comes right after that field |
| Bays.SplitCode | src/components/WarehouseBuilder.jsx:400-404 | a location code splits back into its section and bay fields |
| Bays.LocationCodesDistinct | src/components/WarehouseBuilder.jsx:393-410 | no two bays of one aisle share a location code |
| Bays.NumberSplitsCode | src/components/WarehouseBuilder.jsx:400-404 | two codes with the same zone and different digit-string numbers differ, whatever follows the numbers |
| Bays.CodesDistinctAcrossAisles | src/components/WarehouseBuilder.jsx:393-410 | in a store whose numbers match their distinct keys, bays of two different aisles of one zone never share a location code |
| Drawing.StrokeBetween | src/components/WarehouseBuilder.jsx:156-180 | a diagonal pick gives no stroke; otherwise the stroke is horizontal exactly when the rows match (also when both match), is anchored at the smaller coordinates, and is `\|Δcol\|+1` by 1 or 1 by `\|Δrow\|+1` |
| Drawing.StrokeCoversSegment | src/components/WarehouseBuilder.jsx:168-180 | the stroke covers exactly the cells between the two picks |
| Drawing.StrokeInGrid | src/components/WarehouseBuilder.jsx:168-180 | picks on grid cells give a stroke inside the grid |
| Drawing.DrawPreview | src/components/WarehouseBuilder.jsx:261-286 | a preview is shown exactly when the cursor shares the start point's row or column; it covers both cells and is exactly the stroke's rectangle |
| Drawing.PreviewIsDrawnAisle | src/components/WarehouseBuilder.jsx:168-217 | on grid cells, the preview is missing exactly when the second click would be refused as diagonal, and otherwise is the footprint of the aisle that click creates |
| Drawing.NewAisle | src/components/WarehouseBuilder.jsx:202-217 | the drawn aisle takes key `aisle-n`, number `pad2(n)`, the `n`-th colour, the stroke's rectangle and orientation, sections equal to its length, and the form's bays-high and zone |
| Dragging.Grip | src/components/WarehouseBuilder.jsx:98-101 | the grip is the clicked cell's offset from the aisle's anchor |
| Dragging.Candidate | src/components/WarehouseBuilder.jsx:289-290 | the candidate anchor keeps the grip under the cursor, with the held aisle's size |
| Dragging.HoverPreview | src/components/WarehouseBuilder.jsx:288-308 | a drag preview is shown exactly when the candidate lies in the grid, and it has the held aisle's size |
| Dragging.PreviewKeepsGrip | src/components/WarehouseBuilder.jsx:94-103 | the preview keeps the cursor at the cell where the aisle was gripped; hovering over that cell previews the aisle where it stands |
| Dragging.IsValidDropPosition | src/components/WarehouseBuilder.jsx:1260-1291 | a drop is valid exactly when an aisle is held, the rectangle lies in the grid, and it overlaps no aisle with another key |
| Dragging.SelfAlwaysOverlaps | src/components/WarehouseBuilder.jsx:1275 | without the self-exclusion, the scan would always find the held aisle in its own way |
| Dragging.DropInPlaceValid | src/components/WarehouseBuilder.jsx:1260-1291 | in a valid store, dropping an aisle back where it stands is valid |
| Persistence.DefaultGridSize | src/components/WarehouseBuilder.jsx:475 | the grid a document without one loads with: 20 rows by 25 columns, the same as the initial grid at line 21 |
| Persistence.FormatVersion | src/components/WarehouseBuilder.jsx:436 | the version a saved document carries: `1.0` |
| Persistence.Save | src/components/WarehouseBuilder.jsx:434-449 | the document carries version "1.0" and the store, and its metadata counts the aisles and the bay total |
| Persistence.Accepted | src/components/WarehouseBuilder.jsx:471 | a document is accepted when it has a non-empty version and an aisle store |
| Persistence.StoredCounter | src/components/WarehouseBuilder.jsx:478 | the loaded counter is the document's when it is set and non-zero, and 1 otherwise |
| Persistence.LoadAsWritten | src/components/WarehouseBuilder.jsx:471-486 | a document is accepted exactly when it has a non-empty version and a store; otherwise it gets the invalid-file alert; missing grid, settings and counter fall back to the defaults |
| Persistence.NextFree | src/components/WarehouseBuilder.jsx:478 | the least counter value that no loaded `aisle-N` key has reached |
| Persistence.Load | src/components/WarehouseBuilder.jsx:471-486 | the same acceptance rule and defaults, with a counter at or above the document's (or 1) and above every loaded key, and the least such value |
| Persistence.LoadRaisesCounter | src/components/WarehouseBuilder.jsx:478 | the corrected load only raises the stored counter, and agrees with the code when the counter is already ahead |
| Persistence.LoadSaveRoundTrip | src/components/WarehouseBuilder.jsx:434-483 | loading a saved state restores it, whatever the current settings |
| Persistence.LoadAsWrittenReissuesKey | src/components/WarehouseBuilder.jsx:478 | a counter-less document holding `aisle-1` loads with counter 1, and the next aisle replaces the loaded one |
| Persistence.LoadContinuesCount | src/components/WarehouseBuilder.jsx:478 | the corrected load of the same document continues at 2, a key no loaded aisle carries |
| CsvExport.Header | src/components/WarehouseBuilder.jsx:507-508 | the twelve column names of the first line, ending in a newline |
| CsvExport.OrientationName | src/components/WarehouseBuilder.jsx:215 | the orientation as the record stores it and the export writes it: `horizontal` or `vertical` |
| CsvExport.Span | src/components/WarehouseBuilder.jsx:514-518 | one grid span: the tag and the first index, with `-`, the tag and the last index when the span is longer than one |
| CsvExport.GridPosition | src/components/WarehouseBuilder.jsx:514-518 | the grid position is `R` and the first row, with `-R` and the last row when the aisle spans more than one row, then likewise with `C` for the columns |
| CsvExport.Dimensions | src/components/WarehouseBuilder.jsx:519 | the aisle dimensions are width `×` height in cells |
| CsvExport.Fields | src/components/WarehouseBuilder.jsx:520-526 | the twelve fields of a line in column order, with an empty last field when the line carries no bay count |
| CsvExport.JoinFields | src/components/WarehouseBuilder.jsx:520-526 | the fields joined by commas, without quoting |
| CsvExport.RenderRow | src/components/WarehouseBuilder.jsx:520-526 | one line's text: its joined fields and a newline |
| CsvExport.Render | src/components/WarehouseBuilder.jsx:520-526 | the text of a run of lines, each appended in order as `csv +=` does |
| CsvExport.RowFor | src/components/WarehouseBuilder.jsx:520-526 | a line carries zone, aisle number, section, bay, location code, the form's height, width and depth, grid position, dimensions, orientation, and the bay count on the aisle's first line only |
| CsvExport.AisleRows | src/components/WarehouseBuilder.jsx:511-527 | one line per generated bay of the aisle, in generation order: line `i` carries the zone, the aisle number and bay `i`'s section, bay and location code, and only line 0 carries the bay count (later lines leave "Total Bays" blank) |
| CsvExport.Rows | src/components/WarehouseBuilder.jsx:510-528 | the lines of a store are the lines of each aisle, in store order |
| CsvExport.CsvText | src/components/WarehouseBuilder.jsx:500-529 | an empty store gives the nothing-to-export alert; otherwise the text starts with the header |
| CsvExport.RenderConcat | src/components/WarehouseBuilder.jsx:510-528 | rendering two runs of lines is rendering each and concatenating |
| CsvExport.RenderSnoc | src/components/WarehouseBuilder.jsx:510-528 | rendering one more line appends that line's text |
| CsvExport.AppendAisle | src/components/WarehouseBuilder.jsx:511-527 | the inner loop appends exactly the rendered lines of the aisle |
| CsvExport.ExportCsv | src/components/WarehouseBuilder.jsx:500-529 | the export loop produces exactly `CsvText` |
| CsvExport.ColumnTotalConcat | src/components/WarehouseBuilder.jsx:524-525 | the "Total Bays" column sum splits over concatenation |
| CsvExport.ColumnTotalPrefix | src/components/WarehouseBuilder.jsx:525 | only the first line of an aisle carries its bay count |
| CsvExport.AisleColumnTotal | src/components/WarehouseBuilder.jsx:512-525 | an aisle's lines add its bay count to the column exactly once |
| CsvExport.RowsCountBays | src/components/WarehouseBuilder.jsx:510-528 | the export has one line per bay of the store, and its "Total Bays" column adds up to the saved bay total |
| CsvExport.EveryBayExported | src/components/WarehouseBuilder.jsx:510-527 | every bay of every stored aisle is exported under its location code, zone and aisle number |
| CsvExport.AisleCodesDistinct | src/components/WarehouseBuilder.jsx:513-527 | one aisle's lines carry distinct location codes |
| Builder.ClampGridValue | src/components/WarehouseBuilder.jsx:552 | the size lies in 10..50: in-range values kept, larger ones give 50, smaller non-zero ones 10, and 0 or unparsable input 20 |
| Builder.StepBaysHigh | src/components/WarehouseBuilder.jsx:964-985 | plus adds one; minus subtracts one but never goes below 1 |
| Builder.DuplicateOf | src/components/WarehouseBuilder.jsx:348-356 | the copy takes the next key and number, moves two rows down (horizontal) or two columns right (vertical), and keeps every other field |
| Builder.DuplicateBesideOriginal | src/components/WarehouseBuilder.jsx:353-354 | a straight aisle's copy is straight and does not overlap the original; the strip between them, the row below a horizontal original or the column right of a vertical one, across the aisle's whole length, overlaps neither |
| Builder.DeleteAll | src/components/WarehouseBuilder.jsx:573-576 | the deletion loop deletes exactly the victims' keys |
| Builder.IdsOfPrefix | src/components/WarehouseBuilder.jsx:574-576 | the keys of the first `i` victims grow by one key per step |
| Builder.WithoutEmpty | src/components/WarehouseBuilder.jsx:573 | deleting no key leaves the store as it is |
| Builder.ResizeKeepsState | src/components/WarehouseBuilder.jsx:559-583 | a resize keeps keys distinct and below the counter, and keeps a valid store valid for the new grid |
| Builder.ResizeKeepsConsistent | src/components/WarehouseBuilder.jsx:559-583 | a resize from idle mode keeps the handler invariant |
| Builder.InsertKeepsConsistent | src/components/WarehouseBuilder.jsx:219-224 | storing under the counter's next key appends, keeps the handler invariant, and keeps validity for a fitting, straight, non-overlapping, issued aisle |
| Builder.InsertKeepsTracks | src/components/WarehouseBuilder.jsx:219-224 | a new key is never the held aisle's key |
| Builder.Release | src/components/WarehouseBuilder.jsx:413-431 | the corrected delete lets go of the aisle held under the deleted key, and leaves any other mode as it is |
| Builder.DeleteWhileHeldAsWritten | src/components/WarehouseBuilder.jsx:136-144 | as written, deleting the held aisle keeps the hold: the held key is gone from the store, yet the drop test accepts the drop, so the drop writes a record under the deleted key |
| Builder.DeleteKeepsTracks | src/components/WarehouseBuilder.jsx:413-431 | the delete that lets go of a held aisle under the deleted key keeps every held aisle in the store |
| Builder.PickUpTracks | src/components/WarehouseBuilder.jsx:94-103 | a picked-up aisle matches its record |
| Builder.SaveEditKeepsConsistent | src/components/WarehouseBuilder.jsx:323-337 | saving an edit keeps the handler invariant, and keeps a valid store valid when the pending counts are positive |
| Builder.SetBaysKeepsTracks | src/components/WarehouseBuilder.jsx:326-333 | editing counts never changes the size under the held key |
| Builder.WarehouseBuilder.constructor | src/components/WarehouseBuilder.jsx:21-54 | the builder starts with a 20×25 grid, the default settings, no aisles, counter 1 and idle mode, in a valid state |
| Builder.WarehouseBuilder.StartDrawing | src/components/WarehouseBuilder.jsx:57-64 | enters drawing mode with no start point and no preview, and drops any drag |
| Builder.WarehouseBuilder.StartDragging | src/components/WarehouseBuilder.jsx:67-74 | enters drag mode with nothing held, and drops any drawing |
| Builder.WarehouseBuilder.CancelDrawing | src/components/WarehouseBuilder.jsx:77-81 | leaves drawing mode and does not touch drag mode |
| Builder.WarehouseBuilder.CancelDragging | src/components/WarehouseBuilder.jsx:84-88 | leaves drag mode and does not touch drawing mode |
| Builder.WarehouseBuilder.GridClick | src/components/WarehouseBuilder.jsx:91-241 | drag mode takes the click, then drawing mode; an idle click does nothing; the invariants are kept |
| Builder.WarehouseBuilder.DragClick | src/components/WarehouseBuilder.jsx:93-151 | with nothing held, picks up the aisle under the cell along with its grip; with a preview, moves the aisle only if the drop is valid and lets go either way; with no preview, does nothing |
| Builder.WarehouseBuilder.DragClicked | src/components/WarehouseBuilder.jsx:93-151 | the outcome of a drag-mode click: pick up the aisle under the cell with its grip when nothing is held; with a preview, move the held aisle there if the drop test passes, and let go either way; otherwise nothing |
| Builder.WarehouseBuilder.DrawClick | src/components/WarehouseBuilder.jsx:153-226 | the first click sets the start point; a diagonal or overlapping second click alerts and keeps the state; otherwise the drawn aisle is appended, the counter advances and the builder goes idle |
| Builder.WarehouseBuilder.DrawClicked | src/components/WarehouseBuilder.jsx:153-226 | the outcome of a drawing-mode click: set the start point; or alert on a diagonal or overlapping stroke and keep the start point; or append the drawn aisle under the counter's key, advance the counter and go idle |
| Builder.WarehouseBuilder.Insert | src/components/WarehouseBuilder.jsx:382-387 | a record under the counter's next key is appended (the same as writing it under its key), the counter advances, and the invariants are kept |
| Builder.WarehouseBuilder.DropKeepsState | src/components/WarehouseBuilder.jsx:128-144 | a valid drop keeps keys distinct and below the counter, and keeps a valid store valid |
| Builder.WarehouseBuilder.GridMouseMove | src/components/WarehouseBuilder.jsx:259-311 | after a start point, the drawing preview follows the cursor; with an aisle held, the drag preview follows it; nothing else changes |
| Builder.WarehouseBuilder.StartEditing | src/components/WarehouseBuilder.jsx:314-320 | opens the edit controls with the aisle's current counts |
| Builder.WarehouseBuilder.StepEdit | src/components/WarehouseBuilder.jsx:964-985 | steps the pending bays-high value |
| Builder.WarehouseBuilder.StepDefaultBaysHigh | src/components/WarehouseBuilder.jsx:790-818 | steps the form's default bays-high up by one, or down but never below 1, changing nothing else |
| Builder.WarehouseBuilder.SaveEdit | src/components/WarehouseBuilder.jsx:323-337 | writes the pending counts into the record and closes the controls; with none open, does nothing |
| Builder.WarehouseBuilder.CancelEdit | src/components/WarehouseBuilder.jsx:340-343 | closes the controls and changes nothing else |
| Builder.WarehouseBuilder.DuplicateAisle | src/components/WarehouseBuilder.jsx:346-390 | alerts and changes nothing if the copy overlaps or passes the last row or column; otherwise appends it and advances the counter |
| Builder.WarehouseBuilder.DeleteAisle | src/components/WarehouseBuilder.jsx:413-431 | once confirmed, removes that key, leaves the counter alone, closes its edit controls and lets go of it if it is held (the corrected delete) |
| Builder.WarehouseBuilder.ClearAll | src/components/WarehouseBuilder.jsx:538-547 | once confirmed, empties the store, resets the counter to 1 and leaves every mode |
| Builder.WarehouseBuilder.UpdateGridSize | src/components/WarehouseBuilder.jsx:550-586 | clamps the value; when the change shrinks the grid and cuts off aisles, a declined confirmation changes nothing and an accepted one deletes exactly those aisles; only allowed when idle (inputs disabled at 731, 742) |
| Builder.WarehouseBuilder.Resized | src/components/WarehouseBuilder.jsx:550-586 | the outcome of a resize request: the clamped size is set, and when it shrinks the dimension and cuts off aisles, only with confirmation and with exactly those aisles deleted; without it nothing changes |
| Builder.WarehouseBuilder.Resize | src/components/WarehouseBuilder.jsx:571-583 | sets the new size, deletes the orphans' keys when the resize cuts, and keeps the invariants |
| Builder.WarehouseBuilder.LoadLayout | src/components/WarehouseBuilder.jsx:461-497 | a refused document alerts and changes nothing; once confirmed, an accepted one replaces grid, settings, store and counter (the corrected counter) and leaves every mode |
| Builder.WarehouseBuilder.Saved | src/components/WarehouseBuilder.jsx:434-449 | the saved document carries the version, grid size, settings, store and counter of the current state |
| Builder.WarehouseBuilder.SaveThenLoadRestores | src/components/WarehouseBuilder.jsx:434-483 | loading what the builder saves restores its state |
| Builder.WarehouseBuilder.OccupiedAt | src/components/WarehouseBuilder.jsx:589-604 | a cell is occupied exactly when an aisle other than the held one covers it |
| Builder.WarehouseBuilder.InDrawPreview | src/components/WarehouseBuilder.jsx:620-631 | true exactly when a drawing preview is shown and covers the cell |
| Builder.WarehouseBuilder.InDragPreview | src/components/WarehouseBuilder.jsx:633-644 | true exactly when a drop preview is shown and covers the cell |
| Builder.WarehouseBuilder.IsStartPoint | src/components/WarehouseBuilder.jsx:646-651 | true exactly when the cell is the drawing start point |
| Builder.WarehouseBuilder.ValidDropAt | src/components/WarehouseBuilder.jsx:1260-1291 | for the current state, false when nothing is held, and otherwise the drop test on the held aisle |

## Left out

- Rendering is out of scope: the JSX tree, styles, icons, the view toggles, and the `selectedAisle` highlight with its resets. These are presentation only.
- Browser and file I/O are out of scope: `Blob`, download links, `FileReader`, the file input and its reset. Instead, a saved document is the `Layout` value and the export is the CSV string.
- `JSON.parse` and its error alert are out of scope. The model starts from the parsed document.
- The `created` and `createdAt` timestamps are left out because they are non-deterministic.
- `averageBaysPerAisle` is left out because it is floating-point division with `toFixed`.
- The form inputs for zone and bay dimensions are left out. The settings are a plain `FormData` value passed through. The default bays-high stepper is modelled (`Builder.WarehouseBuilder.StepDefaultBaysHigh`), because the store invariant needs its value to be 1 or more.
- `src/App.js` is not part of this model. It only mounts the component.
- The alert texts are left out. Each alert is one `Alert` constructor.
- Persistence.Layout: several parts of the document are out of scope:
  - a loaded store is a sequence of records whose object keys are taken to equal their `id` fields;
  - loaded values are taken to be naturals and well-typed;
  - a store whose record ids repeat cannot arise from JSON object keys, so `LoadLayout` requires distinct ids;
  - a falsy `version` is modelled as a missing or empty string.
- Bays.CodesDistinctAcrossAisles: holds within one zone only. Zones are free text, so codes of different zones can coincide: zone `A` with aisle 102 and zone `A1` with aisle 2 both give `A102-01-01`.
- Aisles.Orientation: orientation has only the two values the builder writes. There is no dual-side bay scheme in this source.
- CsvExport.Fields: fields are joined without quoting, as the builder does, so a comma inside a zone is not escaped.
- Builder.WarehouseBuilder.DeleteAisle: follows the corrected delete, which lets go of a held aisle it deletes. The delete as written keeps the hold, and the next drop writes a record under the deleted key (see "## Findings"). So the class never reaches a state holding such a record, which the `Aisle` datatype could not represent anyway.
- Builder.WarehouseBuilder.SaveEdit: saving an edit under a key the store no longer holds is not modelled as the code writes it. The code would write a record holding only the two counts, but the model leaves the store unchanged (`Aisles.SetBaysMissing`). The case cannot come from the interface: a resize may delete the aisle being edited (`src/components/WarehouseBuilder.jsx:566-577` leaves `editingAisle` set), but the Save button is only rendered in that aisle's own list entry (`src/components/WarehouseBuilder.jsx:958-992`), which goes with it.
- Builder.WarehouseBuilder.LoadLayout: installs the corrected counter of `Persistence.Load`, not `layout.nextAisleId || 1` (`src/components/WarehouseBuilder.jsx:478`). The as-written counter is modelled by `Persistence.LoadAsWritten` only, because the class invariant that every key lies below the counter would not hold after it (see "## Findings").
- Builder.WarehouseBuilder.LoadLayout: keeps `Wf()` but not `Valid()`. The code accepts a store whose aisles overlap or lie outside the loaded grid (`src/components/WarehouseBuilder.jsx:471-483`), and the model installs it the same way.
- Builder.WarehouseBuilder.UpdateGridSize: requires idle mode, because the size inputs are disabled while drawing or dragging (`src/components/WarehouseBuilder.jsx:731`, `742`).
- Builder.WarehouseBuilder.StepEdit: only the bays-high value has steppers; the pending section count is never changed.

## Findings

| source | as written | input that shows it | evidently intended | confidence | as-written member | corrected member |
|---|---|---|---|---|---|---|
| src/components/WarehouseBuilder.jsx:478 | the loaded counter is `layout.nextAisleId \|\| 1`, whatever keys the loaded store holds | a document with a version, the store `{ "aisle-1": … }` and no `nextAisleId`: the counter becomes 1, so the next drawn or duplicated aisle is stored under `aisle-1` and replaces the loaded aisle | the counter continues after the highest loaded `aisle-N` key, so new aisles never replace loaded ones | not executed | Persistence.LoadAsWrittenReissuesKey | Persistence.LoadContinuesCount |
| src/components/WarehouseBuilder.jsx:413-431 | `deleteAisle` removes the record but leaves `draggingAisle` set, and the aisle list's Delete button (`src/components/WarehouseBuilder.jsx:1027-1036`) stays live in drag mode | pick up an aisle in drag mode, move the cursor so a preview shows, delete that aisle from the list, then click the grid: when no other aisle is in the way the drop test passes, and the drop (`src/components/WarehouseBuilder.jsx:136-144`) writes `{gridRow, gridCol}` under the deleted key | deleting the held aisle also lets go of it, so a drop always moves a record the store holds | not executed | Builder.DeleteWhileHeldAsWritten | Builder.DeleteKeepsTracks |
