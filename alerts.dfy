/** The messages the builder shows with `alert` instead of carrying out a request. */
module Alerts {

  datatype Alert =
    | NotStraight        // the second pick shares neither row nor column with the first
    | OverlapsExisting   // the drawn aisle would overlap a placed one
    | CannotDuplicate    // the shifted copy would overlap or leave the grid
    | InvalidLayoutFile  // a loaded document lacks `version` or `aisles`
    | NothingToExport    // the CSV export was asked for with no aisles placed
}
