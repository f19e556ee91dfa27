/**
 * The facility table shared by the three map scripts: one record per care site, the
 * free-text columns the sidebar filters act on, the ward filter every script applies
 * first, and the coordinate default the later scripts substitute for a missing cell.
 */
module Facilities {
  import opened Wrappers
  import opened Collections
  import Text

  /** One row of the primary-care spreadsheet; every cell may be missing (NaN). */
  datatype Row = Row(
    siteName: Option<string>,
    address: Option<string>,
    coordinates: Option<string>,
    ward: Option<int>,
    insurance: Option<string>,     // "Insurance Accepted"
    services: Option<string>,      // "Services Available"
    populations: Option<string>,   // "Populations served"
    walkIn: Option<string>)        // "See Walk-In/ Unscheduled Patients"

  /** The comma-joined free-text columns that have a multi-select filter. */
  datatype Column = InsuranceAccepted | ServicesAvailable | PopulationsServed

  /** The spreadsheet header of a free-text column. */
  function ColumnName(column: Column): string {
    match column
    case InsuranceAccepted => "Insurance Accepted"
    case ServicesAvailable => "Services Available"
    case PopulationsServed => "Populations served"
  }

  /** The spreadsheet header of the walk-in column. */
  const WalkInColumn: string := "See Walk-In/ Unscheduled Patients"

  /** The spreadsheet header of the coordinate column. */
  const CoordinatesColumn: string := "Coordinates"

  /** `row[column]`. */
  function Cell(row: Row, column: Column): Option<string> {
    match column
    case InsuranceAccepted => row.insurance
    case ServicesAvailable => row.services
    case PopulationsServed => row.populations
  }

  /** The sidebar multi-select values; an empty list means "no restriction". */
  datatype Selection = Selection(
    wards: seq<int>,
    insurance: seq<string>,
    services: seq<string>,
    populations: seq<string>)

  /** `data["Ward"].isin(ward)` for one row: a missing ward is never in the selection. */
  predicate InWards(row: Row, wards: seq<int>) {
    row.ward.Some? && row.ward.value in wards
  }

  /** The row passes the ward filter: inactive when no ward is selected (`if ward:`). */
  predicate PassesWards(wards: seq<int>, row: Row) {
    wards == [] || InWards(row, wards)
  }

  /**
   * The rows that pass the ward filter, in table order: all of them when no ward is
   * selected, otherwise `data[data["Ward"].isin(wards)]`.
   */
  function SelectWards(rows: seq<Row>, wards: seq<int>): (r: seq<Row>)
    ensures r == Where(rows, x => PassesWards(wards, x))
    ensures IsSubsequence(r, rows)
    ensures forall x :: multiset(r)[x] == if PassesWards(wards, x) then multiset(rows)[x] else 0
  {
    if wards == [] then
      WhereKeepsAll(rows, x => PassesWards(wards, x));
      WhereIsSubsequence(rows, x => PassesWards(wards, x));
      rows
    else
      WhereExt(rows, x => InWards(x, wards), x => PassesWards(wards, x));
      WhereIsSubsequence(rows, x => PassesWards(wards, x));
      forall x ensures multiset(Where(rows, x => PassesWards(wards, x)))[x] ==
                       if PassesWards(wards, x) then multiset(rows)[x] else 0 {
        WhereCount(rows, x => PassesWards(wards, x), x);
      }
      Where(rows, x => InWards(x, wards))
  }

  /** `any(o in cell for o in options)`: some selected option is a substring of the cell. */
  predicate ContainsAny(options: seq<string>, cell: string) {
    exists i :: 0 <= i < |options| && Text.Contains(cell, options[i])
  }

  /** The coordinate text substituted for a missing cell before parsing. */
  const DefaultCoordinates: string := "(0.0, 0.0)"

  /** `data["Coordinates"].fillna("(0.0, 0.0)")`. */
  function FillCoordinates(rows: seq<Row>): (texts: seq<string>)
    ensures |texts| == |rows|
    ensures forall i :: 0 <= i < |rows| && rows[i].coordinates.None? ==> texts[i] == DefaultCoordinates
    ensures forall i :: 0 <= i < |rows| && rows[i].coordinates.Some? ==> texts[i] == rows[i].coordinates.value
  {
    if rows == [] then []
    else
      var init := FillCoordinates(rows[..|rows| - 1]);
      init + [match rows[|rows| - 1].coordinates case Some(c) => c case None => DefaultCoordinates]
  }
}
