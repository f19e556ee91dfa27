/**
 * The sidebar filter block shared by dc_primary_care.py and facility_location.py. The table
 * is narrowed by ward, then by the three free-text columns, then (dc_primary_care.py only)
 * by walk-in status; each step runs only when its selection is non-empty. The scripts
 * differ in how a present cell is matched against the selected options (substring test or
 * regular-expression alternation), in the exception a missing cell raises once its filter
 * is active, and in what their free-text mask does to a frame without rows, so all three
 * are parameters here.
 */
module FilterPipeline {
  import opened Wrappers
  import opened Collections
  import opened Facilities

  /** How a present cell is matched against the selected options of a free-text filter. */
  type TextTest = (seq<string>, string) -> bool

  /**
   * How a free-text mask is built. `Series.apply` on a column without rows returns an empty
   * object Series, which pandas takes as a list of column labels rather than a boolean mask,
   * so `data[mask]` keeps no column at all. `str.contains` returns a boolean Series even
   * then, which keeps the columns.
   */
  datatype Mask = ApplyMask | ContainsMask

  /** The row's cell passes a free-text filter; an empty selection restricts nothing. */
  predicate PassesText(test: TextTest, options: seq<string>, cell: Option<string>) {
    options == [] || (cell.Some? && test(options, cell.value))
  }

  /** The walk-in radio: "All" restricts nothing, otherwise the cell must equal the choice. */
  predicate PassesWalkIn(walkIn: string, row: Row) {
    walkIn == "All" || row.walkIn == Some(walkIn)
  }

  /** The row survives the ward filter and the insurance filter. */
  predicate AfterInsurance(test: TextTest, sel: Selection, row: Row) {
    PassesWards(sel.wards, row) && PassesText(test, sel.insurance, row.insurance)
  }

  /** ... and the services filter. */
  predicate AfterServices(test: TextTest, sel: Selection, row: Row) {
    AfterInsurance(test, sel, row) && PassesText(test, sel.services, row.services)
  }

  /** ... and the populations filter. */
  predicate AfterPopulations(test: TextTest, sel: Selection, row: Row) {
    AfterServices(test, sel, row) && PassesText(test, sel.populations, row.populations)
  }

  /** The row is in the filtered view: it passes every active filter. */
  predicate Admits(test: TextTest, sel: Selection, walkIn: string, row: Row) {
    AfterPopulations(test, sel, row) && PassesWalkIn(walkIn, row)
  }

  /** The row reaches an active free-text filter whose cell is missing (NaN). */
  predicate ReachesNullCell(test: TextTest, sel: Selection, row: Row) {
    || (PassesWards(sel.wards, row) && sel.insurance != [] && row.insurance.None?)
    || (AfterInsurance(test, sel, row) && sel.services != [] && row.services.None?)
    || (AfterServices(test, sel, row) && sel.populations != [] && row.populations.None?)
  }

  /** No free-text filter is active. */
  predicate NoTextSelection(sel: Selection) {
    sel.insurance == [] && sel.services == [] && sel.populations == []
  }

  /** An active filter on `column` meets a row without a cell among the rows passing `before`. */
  predicate MeetsNull(table: seq<Row>, before: Row -> bool, column: Column, options: seq<string>) {
    options != [] && exists x :: x in table && before(x) && Cell(x, column).None?
  }

  /** An active filter receives no rows: no row of the table passes `before`. */
  predicate GetsNoRows(table: seq<Row>, before: Row -> bool, options: seq<string>) {
    options != [] && forall x :: x in table ==> !before(x)
  }

  /** The insurance filter is active and no row of the table reaches it. */
  predicate InsuranceGetsNoRows(table: seq<Row>, sel: Selection) {
    GetsNoRows(table, x => PassesWards(sel.wards, x), sel.insurance)
  }

  /** The services filter is active and no row of the table reaches it. */
  predicate ServicesGetsNoRows(test: TextTest, sel: Selection, table: seq<Row>) {
    GetsNoRows(table, x => AfterInsurance(test, sel, x), sel.services)
  }

  /** The populations filter is active and no row of the table reaches it. */
  predicate PopulationsGetsNoRows(test: TextTest, sel: Selection, table: seq<Row>) {
    GetsNoRows(table, x => AfterServices(test, sel, x), sel.populations)
  }

  /** The active insurance filter meets a row without an insurance cell. */
  predicate InsuranceMeetsNull(table: seq<Row>, sel: Selection) {
    MeetsNull(table, x => PassesWards(sel.wards, x), InsuranceAccepted, sel.insurance)
  }

  /** The active services filter meets a row without a services cell. */
  predicate ServicesMeetsNull(test: TextTest, sel: Selection, table: seq<Row>) {
    MeetsNull(table, x => AfterInsurance(test, sel, x), ServicesAvailable, sel.services)
  }

  /** The active populations filter meets a row without a populations cell. */
  predicate PopulationsMeetsNull(test: TextTest, sel: Selection, table: seq<Row>) {
    MeetsNull(table, x => AfterServices(test, sel, x), PopulationsServed, sel.populations)
  }

  /**
   * The first column the script reads after the populations step: the walk-in column when
   * that filter is active, otherwise the coordinate column read right after the block.
   */
  function ReadAfterPopulations(walkIn: string): string {
    if walkIn != "All" then WalkInColumn else CoordinatesColumn
  }

  /** The first column the script reads after the services step. */
  function ReadAfterServices(sel: Selection, walkIn: string): string {
    if sel.populations != [] then ColumnName(PopulationsServed) else ReadAfterPopulations(walkIn)
  }

  /** The first column the script reads after the insurance step. */
  function ReadAfterInsurance(sel: Selection, walkIn: string): string {
    if sel.services != [] then ColumnName(ServicesAvailable) else ReadAfterServices(sel, walkIn)
  }

  /**
   * With an apply mask, the column whose read fails because the first active free-text
   * filter that received no rows left a frame without columns; None when no such filter.
   */
  function MissingColumn(test: TextTest, sel: Selection, walkIn: string, table: seq<Row>): Option<string> {
    if InsuranceGetsNoRows(table, sel) then Some(ReadAfterInsurance(sel, walkIn))
    else if ServicesGetsNoRows(test, sel, table) then Some(ReadAfterServices(sel, walkIn))
    else if PopulationsGetsNoRows(test, sel, table) then Some(ReadAfterPopulations(walkIn))
    else None
  }

  /**
   * The filtered view: the script's exception if some row reaches a missing free-text cell;
   * otherwise, with an apply mask, KeyError if an active free-text filter received no rows;
   * otherwise exactly the admitted rows, every copy of each, in table order.
   */
  function Filtered(table: seq<Row>, sel: Selection, walkIn: string, test: TextTest, mask: Mask, nullError: Error)
    : (r: Result<seq<Row>>)
    ensures r.Err? <==>
      (exists x :: x in table && ReachesNullCell(test, sel, x)) ||
      (mask == ApplyMask && MissingColumn(test, sel, walkIn, table).Some?)
    ensures (exists x :: x in table && ReachesNullCell(test, sel, x)) ==> r == Err(nullError)
    ensures r.Err? && r.error != nullError ==>
      mask == ApplyMask && MissingColumn(test, sel, walkIn, table).Some? &&
      r.error == KeyError(MissingColumn(test, sel, walkIn, table).value)
    ensures r.Ok? ==> IsSubsequence(r.value, table)
    ensures r.Ok? ==> forall x :: x in r.value <==> x in table && Admits(test, sel, walkIn, x)
    ensures r.Ok? ==> forall x ::
      multiset(r.value)[x] == if Admits(test, sel, walkIn, x) then multiset(table)[x] else 0
  {
    if exists x :: x in table && ReachesNullCell(test, sel, x) then Err(nullError)
    else if mask == ApplyMask && MissingColumn(test, sel, walkIn, table).Some? then
      Err(KeyError(MissingColumn(test, sel, walkIn, table).value))
    else
      WhereIsSubsequence(table, x => Admits(test, sel, walkIn, x));
      forall x ensures multiset(Where(table, x => Admits(test, sel, walkIn, x)))[x] ==
                       if Admits(test, sel, walkIn, x) then multiset(table)[x] else 0 {
        WhereCount(table, x => Admits(test, sel, walkIn, x), x);
      }
      Ok(Where(table, x => Admits(test, sel, walkIn, x)))
  }

  /** A row reaches a missing cell exactly when one of the three filters meets one. */
  lemma {:induction false} NullCellSteps(table: seq<Row>, sel: Selection, test: TextTest)
    ensures (exists x :: x in table && ReachesNullCell(test, sel, x)) <==>
      InsuranceMeetsNull(table, sel) || ServicesMeetsNull(test, sel, table) || PopulationsMeetsNull(test, sel, table)
  {
    if x :| x in table && ReachesNullCell(test, sel, x) {
      if !(PassesWards(sel.wards, x) && sel.insurance != [] && x.insurance.None?) &&
         !(AfterInsurance(test, sel, x) && sel.services != [] && x.services.None?) {
        assert PopulationsMeetsNull(test, sel, table);
      }
    }
    if InsuranceMeetsNull(table, sel) {
      var x :| x in table && PassesWards(sel.wards, x) && x.insurance.None?;
      assert ReachesNullCell(test, sel, x);
    }
    if ServicesMeetsNull(test, sel, table) {
      var x :| x in table && AfterInsurance(test, sel, x) && x.services.None?;
      assert ReachesNullCell(test, sel, x);
    }
    if PopulationsMeetsNull(test, sel, table) {
      var x :| x in table && AfterServices(test, sel, x) && x.populations.None?;
      assert ReachesNullCell(test, sel, x);
    }
  }

  /** The view on a table where a filter meets a missing cell. */
  lemma {:induction false} FilteredNullError(table: seq<Row>, sel: Selection, walkIn: string, test: TextTest,
                                             mask: Mask, nullError: Error)
    requires InsuranceMeetsNull(table, sel) || ServicesMeetsNull(test, sel, table) || PopulationsMeetsNull(test, sel, table)
    ensures Filtered(table, sel, walkIn, test, mask, nullError) == Err(nullError)
  {
    NullCellSteps(table, sel, test);
  }

  /** The view when the active insurance filter receives no rows. */
  lemma {:induction false} KeyErrorAfterInsurance(table: seq<Row>, sel: Selection, walkIn: string, test: TextTest,
                                                  nullError: Error)
    requires InsuranceGetsNoRows(table, sel)
    ensures Filtered(table, sel, walkIn, test, ApplyMask, nullError) == Err(KeyError(ReadAfterInsurance(sel, walkIn)))
  {
    NullCellSteps(table, sel, test);
  }

  /** The view when the insurance filter passes and the active services filter receives no rows. */
  lemma {:induction false} KeyErrorAfterServices(table: seq<Row>, sel: Selection, walkIn: string, test: TextTest,
                                                 nullError: Error)
    requires !InsuranceMeetsNull(table, sel) && !InsuranceGetsNoRows(table, sel)
    requires ServicesGetsNoRows(test, sel, table)
    ensures Filtered(table, sel, walkIn, test, ApplyMask, nullError) == Err(KeyError(ReadAfterServices(sel, walkIn)))
  {
    NullCellSteps(table, sel, test);
  }

  /** The view when the first two free-text filters pass and the active populations filter receives no rows. */
  lemma {:induction false} KeyErrorAfterPopulations(table: seq<Row>, sel: Selection, walkIn: string, test: TextTest,
                                                    nullError: Error)
    requires !InsuranceMeetsNull(table, sel) && !InsuranceGetsNoRows(table, sel)
    requires !ServicesMeetsNull(test, sel, table) && !ServicesGetsNoRows(test, sel, table)
    requires PopulationsGetsNoRows(test, sel, table)
    ensures Filtered(table, sel, walkIn, test, ApplyMask, nullError) == Err(KeyError(ReadAfterPopulations(walkIn)))
  {
    NullCellSteps(table, sel, test);
  }

  /** The view on a table where no filter meets a missing cell and every column read succeeds. */
  lemma {:induction false} FilteredRows(table: seq<Row>, sel: Selection, walkIn: string, test: TextTest,
                                        mask: Mask, nullError: Error)
    requires !InsuranceMeetsNull(table, sel) && !ServicesMeetsNull(test, sel, table) && !PopulationsMeetsNull(test, sel, table)
    requires mask == ContainsMask || MissingColumn(test, sel, walkIn, table).None?
    ensures Filtered(table, sel, walkIn, test, mask, nullError) == Ok(Where(table, x => Admits(test, sel, walkIn, x)))
  {
    NullCellSteps(table, sel, test);
  }

  /**
   * One guarded free-text step (`if options: data = data[...]`) applied to the rows `data`
   * that passed the earlier steps `before`, on a frame that has its columns or not. Reading
   * the column of a frame without columns raises KeyError; otherwise the step fails exactly
   * when the filter is active and one of the rows has no cell, and else leaves the rows
   * that pass `after`, the earlier steps and this one. An apply mask built from no rows
   * leaves a frame without columns.
   */
  method TextStep(table: seq<Row>, data: seq<Row>, columns: bool, before: Row -> bool, after: Row -> bool,
                  column: Column, options: seq<string>, test: TextTest, mask: Mask, nullError: Error)
    returns (step: Result<seq<Row>>, columnsAfter: bool)
    requires data == Where(table, before)
    requires forall x :: after(x) == (before(x) && PassesText(test, options, Cell(x, column)))
    ensures !columns && options != [] ==> step == Err(KeyError(ColumnName(column)))
    ensures columns || options == [] ==> (step.Err? <==> MeetsNull(table, before, column, options))
    ensures columns || options == [] ==> (step.Err? ==> step.error == nullError)
    ensures step.Ok? ==> step.value == Where(table, after)
    ensures columnsAfter == (columns && !(mask == ApplyMask && GetsNoRows(table, before, options)))
  {
    WhereEmpty(table, before);
    columnsAfter := columns && !(mask == ApplyMask && |options| > 0 && data == []);
    if |options| > 0 {
      if !columns {
        return Err(KeyError(ColumnName(column))), columnsAfter;
      }
      if exists x :: x in data && Cell(x, column).None? {
        return Err(nullError), columnsAfter;
      }
      step := Ok(Where(data, x => PassesText(test, options, Cell(x, column))));
      WhereOfWhere(table, before, x => PassesText(test, options, Cell(x, column)), after);
    } else {
      WhereExt(table, before, after);
      step := Ok(data);
    }
  }

  /**
   * The filter block: ward, insurance, services, populations, walk-in, in that order, then
   * the read of the coordinate column that follows the block. `columns` records whether the
   * frame still has its columns.
   */
  method ApplyFilters(table: seq<Row>, sel: Selection, walkIn: string, test: TextTest, mask: Mask, nullError: Error)
    returns (result: Result<seq<Row>>)
    ensures result == Filtered(table, sel, walkIn, test, mask, nullError)
  {
    var data := SelectWards(table, sel.wards);
    var insurance, columns := TextStep(table, data, true, x => PassesWards(sel.wards, x), x => AfterInsurance(test, sel, x),
                                       InsuranceAccepted, sel.insurance, test, mask, nullError);
    if insurance.Err? {
      FilteredNullError(table, sel, walkIn, test, mask, nullError);
      return insurance;
    }
    ghost var afterInsurance := columns;

    var services;
    services, columns := TextStep(table, insurance.value, columns, x => AfterInsurance(test, sel, x),
                                  x => AfterServices(test, sel, x), ServicesAvailable, sel.services, test, mask, nullError);
    if services.Err? {
      if afterInsurance {
        FilteredNullError(table, sel, walkIn, test, mask, nullError);
      } else {
        KeyErrorAfterInsurance(table, sel, walkIn, test, nullError);
      }
      return services;
    }
    ghost var afterServices := columns;

    var populations;
    populations, columns := TextStep(table, services.value, columns, x => AfterServices(test, sel, x),
                                     x => AfterPopulations(test, sel, x), PopulationsServed, sel.populations, test, mask, nullError);
    if populations.Err? {
      if afterServices {
        FilteredNullError(table, sel, walkIn, test, mask, nullError);
      } else if !afterInsurance {
        KeyErrorAfterInsurance(table, sel, walkIn, test, nullError);
      } else {
        KeyErrorAfterServices(table, sel, walkIn, test, nullError);
      }
      return populations;
    }
    data := populations.value;

    if !columns {
      if !afterInsurance {
        KeyErrorAfterInsurance(table, sel, walkIn, test, nullError);
      } else if !afterServices {
        KeyErrorAfterServices(table, sel, walkIn, test, nullError);
      } else {
        KeyErrorAfterPopulations(table, sel, walkIn, test, nullError);
      }
      return Err(KeyError(ReadAfterPopulations(walkIn)));
    }
    FilteredRows(table, sel, walkIn, test, mask, nullError);
    if walkIn != "All" {
      data := Where(data, (x: Row) => x.walkIn == Some(walkIn));
      WhereOfWhere(table, x => AfterPopulations(test, sel, x), (x: Row) => x.walkIn == Some(walkIn),
                   x => Admits(test, sel, walkIn, x));
    } else {
      WhereExt(table, x => AfterPopulations(test, sel, x), x => Admits(test, sel, walkIn, x));
    }
    result := Ok(data);
  }

  /**
   * Filtering the filtered view again with the same selections gives the same view, except
   * that an apply mask fails on an empty view as soon as a free-text filter is active.
   */
  lemma {:induction false} FilteredIdempotent(table: seq<Row>, sel: Selection, walkIn: string, test: TextTest,
                                              mask: Mask, nullError: Error)
    requires Filtered(table, sel, walkIn, test, mask, nullError).Ok?
    ensures var view := Filtered(table, sel, walkIn, test, mask, nullError).value;
      view != [] || mask == ContainsMask || NoTextSelection(sel) ==>
        Filtered(view, sel, walkIn, test, mask, nullError) == Filtered(table, sel, walkIn, test, mask, nullError)
    ensures var view := Filtered(table, sel, walkIn, test, mask, nullError).value;
      view == [] && mask == ApplyMask && !NoTextSelection(sel) ==>
        Filtered(view, sel, walkIn, test, mask, nullError).Err? &&
        Filtered(view, sel, walkIn, test, mask, nullError).error.KeyError?
  {
    var view := Filtered(table, sel, walkIn, test, mask, nullError).value;
    NullCellSteps(table, sel, test);
    FilteredRows(table, sel, walkIn, test, mask, nullError);
    assert !InsuranceMeetsNull(view, sel) && !ServicesMeetsNull(test, sel, view) && !PopulationsMeetsNull(test, sel, view);
    if view != [] {
      assert Admits(test, sel, walkIn, view[0]);
      FilteredRows(view, sel, walkIn, test, mask, nullError);
      WhereKeepsAll(view, x => Admits(test, sel, walkIn, x));
    } else if mask == ContainsMask || NoTextSelection(sel) {
      FilteredRows(view, sel, walkIn, test, mask, nullError);
    } else if sel.insurance != [] {
      KeyErrorAfterInsurance(view, sel, walkIn, test, nullError);
    } else if sel.services != [] {
      KeyErrorAfterServices(view, sel, walkIn, test, nullError);
    } else {
      KeyErrorAfterPopulations(view, sel, walkIn, test, nullError);
    }
  }

  /** With every selection empty and walk-in "All" the view is the whole table. */
  lemma {:induction false} NoSelectionKeepsTable(table: seq<Row>, test: TextTest, mask: Mask, nullError: Error)
    ensures Filtered(table, Selection([], [], [], []), "All", test, mask, nullError) == Ok(table)
  {
    var sel := Selection([], [], [], []);
    assert Filtered(table, sel, "All", test, mask, nullError) == Ok(Where(table, x => Admits(test, sel, "All", x))) by {
      FilteredRows(table, sel, "All", test, mask, nullError);
    }
    assert Where(table, x => Admits(test, sel, "All", x)) == table by {
      WhereKeepsAll(table, x => Admits(test, sel, "All", x));
    }
  }

  /**
   * The two kinds of mask differ only in the KeyError of a frame without columns: where the
   * apply mask succeeds the contains mask gives the same view, and where the contains mask
   * fails the apply mask fails the same way.
   */
  lemma {:induction false} MaskOnlyAddsKeyError(table: seq<Row>, sel: Selection, walkIn: string, test: TextTest,
                                                nullError: Error)
    ensures Filtered(table, sel, walkIn, test, ApplyMask, nullError).Ok? ==>
      Filtered(table, sel, walkIn, test, ContainsMask, nullError) == Filtered(table, sel, walkIn, test, ApplyMask, nullError)
    ensures Filtered(table, sel, walkIn, test, ContainsMask, nullError).Err? ==>
      Filtered(table, sel, walkIn, test, ApplyMask, nullError) == Filtered(table, sel, walkIn, test, ContainsMask, nullError)
  {
  }

  /**
   * Two cell tests that agree on every active selection give the same view and fail on the
   * same tables.
   */
  lemma {:induction false} FilteredAgree(table: seq<Row>, sel: Selection, walkIn: string, mask: Mask,
                                         test1: TextTest, error1: Error, test2: TextTest, error2: Error)
    requires sel.insurance != [] ==> forall cell :: test1(sel.insurance, cell) == test2(sel.insurance, cell)
    requires sel.services != [] ==> forall cell :: test1(sel.services, cell) == test2(sel.services, cell)
    requires sel.populations != [] ==> forall cell :: test1(sel.populations, cell) == test2(sel.populations, cell)
    ensures Filtered(table, sel, walkIn, test1, mask, error1).Ok? == Filtered(table, sel, walkIn, test2, mask, error2).Ok?
    ensures Filtered(table, sel, walkIn, test1, mask, error1).Ok? ==>
      Filtered(table, sel, walkIn, test1, mask, error1).value == Filtered(table, sel, walkIn, test2, mask, error2).value
  {
    assert forall x :: AfterInsurance(test1, sel, x) == AfterInsurance(test2, sel, x);
    assert forall x :: AfterServices(test1, sel, x) == AfterServices(test2, sel, x);
    assert forall x :: Admits(test1, sel, walkIn, x) == Admits(test2, sel, walkIn, x);
    assert ServicesMeetsNull(test1, sel, table) == ServicesMeetsNull(test2, sel, table);
    assert PopulationsMeetsNull(test1, sel, table) == PopulationsMeetsNull(test2, sel, table);
    assert MissingColumn(test1, sel, walkIn, table) == MissingColumn(test2, sel, walkIn, table) by {
      assert ServicesGetsNoRows(test1, sel, table) == ServicesGetsNoRows(test2, sel, table);
      assert PopulationsGetsNoRows(test1, sel, table) == PopulationsGetsNoRows(test2, sel, table);
    }
    NullCellSteps(table, sel, test1);
    NullCellSteps(table, sel, test2);
    if Filtered(table, sel, walkIn, test1, mask, error1).Ok? {
      FilteredRows(table, sel, walkIn, test1, mask, error1);
      FilteredRows(table, sel, walkIn, test2, mask, error2);
      WhereExt(table, x => Admits(test1, sel, walkIn, x), x => Admits(test2, sel, walkIn, x));
    }
  }
}
