/**
 * The filter block of facility_location.py. It is the filter block of the DC map without
 * the walk-in radio, but a free-text filter keeps a row when
 * `cell.str.contains("|".join(options))` holds: the selected options joined into one
 * regular-expression alternation and searched for in the cell. A missing cell makes the
 * mask hold NaN, and masking with it raises ValueError.
 */
module FacilityLocation {
  import opened Wrappers
  import opened Collections
  import opened Text
  import opened Facilities
  import opened FilterPipeline

  /** `re.search(pattern, cell) is not None`: the regular-expression engine, left abstract. */
  type Search = (string, string) -> bool

  /** The characters with a special meaning in a Python regular expression. */
  const RegexMeta: set<char> := {'.', '^', '$', '*', '+', '?', '{', '}', '[', ']', '\\', '|', '(', ')'}

  /** An option that a regular expression matches as plain text. */
  predicate IsLiteral(option: string) {
    forall c :: c in option ==> c !in RegexMeta
  }

  /** A pattern whose only metacharacter is the alternation bar. */
  predicate IsLiteralAlternation(pattern: string) {
    forall c :: c in pattern ==> c == '|' || c !in RegexMeta
  }

  /**
   * What the engine is relied on for: a pattern of plain-text alternatives matches a cell
   * exactly when one of the alternatives occurs in it.
   */
  ghost predicate SearchesAlternatives(search: Search) {
    forall cell, pattern :: IsLiteralAlternation(pattern) ==>
      search(cell, pattern) == ContainsAny(Split(pattern, '|'), cell)
  }

  /** The cell test of `str.contains("|".join(options))`. */
  function AlternationTest(search: Search): TextTest {
    (options: seq<string>, cell: string) => search(cell, Join(options, '|'))
  }

  /** The filter block of the script (`if ward: ... if populations: ...`). */
  method FilterSites(table: seq<Row>, sel: Selection, search: Search) returns (result: Result<seq<Row>>)
    ensures result == Filtered(table, sel, "All", AlternationTest(search), ContainsMask, ValueError)
    ensures result.Ok? ==> forall x :: x in result.value <==>
      && x in table
      && (sel.wards == [] || (x.ward.Some? && x.ward.value in sel.wards))
      && (sel.insurance == [] || (x.insurance.Some? && search(x.insurance.value, Join(sel.insurance, '|'))))
      && (sel.services == [] || (x.services.Some? && search(x.services.value, Join(sel.services, '|'))))
      && (sel.populations == [] || (x.populations.Some? && search(x.populations.value, Join(sel.populations, '|'))))
  {
    result := ApplyFilters(table, sel, "All", AlternationTest(search), ContainsMask, ValueError);
  }

  /**
   * For non-empty selections of plain-text options the alternation is the substring test:
   * a cell matches exactly when some selected option occurs in it.
   */
  lemma {:induction false} LiteralAlternationIsSubstring(search: Search, options: seq<string>, cell: string)
    requires SearchesAlternatives(search)
    requires options != []
    requires forall k :: 0 <= k < |options| ==> IsLiteral(options[k])
    ensures AlternationTest(search)(options, cell) == ContainsAny(options, cell)
  {
    var pattern := Join(options, '|');
    forall c | c in pattern
      ensures c == '|' || c !in RegexMeta
    {
      JoinChars(options, '|', c);
    }
    SplitJoin(options, '|');
  }

  /**
   * When every selected option is plain text, the script filters exactly as substring
   * filters do: the same rows survive, and a missing cell is fatal in the same cases (only
   * the exception differs). In particular, wherever the filters of dc_primary_care.py
   * without walk-in restriction succeed, this script succeeds with the same rows.
   */
  lemma {:induction false} LiteralSelectionsFilterBySubstring(table: seq<Row>, sel: Selection, search: Search)
    requires SearchesAlternatives(search)
    requires forall k :: 0 <= k < |sel.insurance| ==> IsLiteral(sel.insurance[k])
    requires forall k :: 0 <= k < |sel.services| ==> IsLiteral(sel.services[k])
    requires forall k :: 0 <= k < |sel.populations| ==> IsLiteral(sel.populations[k])
    ensures Filtered(table, sel, "All", AlternationTest(search), ContainsMask, ValueError).Ok? ==
            Filtered(table, sel, "All", ContainsAny, ContainsMask, TypeError).Ok?
    ensures Filtered(table, sel, "All", AlternationTest(search), ContainsMask, ValueError).Ok? ==>
      Filtered(table, sel, "All", AlternationTest(search), ContainsMask, ValueError).value ==
      Filtered(table, sel, "All", ContainsAny, ContainsMask, TypeError).value
    ensures Filtered(table, sel, "All", ContainsAny, ApplyMask, TypeError).Ok? ==>
      Filtered(table, sel, "All", AlternationTest(search), ContainsMask, ValueError) ==
      Filtered(table, sel, "All", ContainsAny, ApplyMask, TypeError)
  {
    if sel.insurance != [] {
      forall cell ensures AlternationTest(search)(sel.insurance, cell) == ContainsAny(sel.insurance, cell) {
        LiteralAlternationIsSubstring(search, sel.insurance, cell);
      }
    }
    if sel.services != [] {
      forall cell ensures AlternationTest(search)(sel.services, cell) == ContainsAny(sel.services, cell) {
        LiteralAlternationIsSubstring(search, sel.services, cell);
      }
    }
    if sel.populations != [] {
      forall cell ensures AlternationTest(search)(sel.populations, cell) == ContainsAny(sel.populations, cell) {
        LiteralAlternationIsSubstring(search, sel.populations, cell);
      }
    }
    FilteredAgree(table, sel, "All", ContainsMask, AlternationTest(search), ValueError, ContainsAny, TypeError);
    MaskOnlyAddsKeyError(table, sel, "All", ContainsAny, TypeError);
  }
}
