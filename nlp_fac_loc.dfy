/**
 * The filter block of nlp_fac_loc.py. The free-text filters are `fuzzy_filter`: for each
 * selected option in turn, every row whose cell scores at least the threshold against the
 * option is appended to the result. A row that matches several options is therefore
 * appended several times, and chaining the filters multiplies those counts. The script
 * then shows "No facilities found" for an empty result and otherwise maps the rows, a
 * missing coordinate cell read as "(0.0, 0.0)".
 */
module NlpFacLoc {
  import opened Wrappers
  import opened Collections
  import opened Facilities

  /** `fuzz.token_set_ratio(option, cell)`: a similarity score, left abstract. */
  type Score = (string, Option<string>) -> int

  /** The default `threshold` of `fuzzy_filter`. */
  const DefaultThreshold: int := 85

  /** The rows appended for one option: those scoring at least `threshold`, in row order. */
  function Matching(rows: seq<Row>, column: Column, option: string, score: Score, threshold: int): (r: seq<Row>)
    ensures |r| <= |rows|
  {
    Where(rows, x => score(option, Cell(x, column)) >= threshold)
  }

  /** One option's block keeps every copy of a matching row and no copy of another row. */
  lemma {:induction false} MatchingCount(rows: seq<Row>, column: Column, option: string, score: Score, threshold: int, x: Row)
    ensures multiset(Matching(rows, column, option, score, threshold))[x] ==
            if score(option, Cell(x, column)) >= threshold then multiset(rows)[x] else 0
  {
    WhereCount(rows, x => score(option, Cell(x, column)) >= threshold, x);
  }

  /** What `fuzzy_filter` returns: one block of matching rows per selected option, in option order. */
  function FuzzyMatches(rows: seq<Row>, column: Column, options: seq<string>, score: Score, threshold: int): seq<Row> {
    if options == [] then []
    else
      FuzzyMatches(rows, column, options[..|options| - 1], score, threshold) +
      Matching(rows, column, options[|options| - 1], score, threshold)
  }

  /** The number of selected options the cell scores at least `threshold` against. */
  function MatchCount(options: seq<string>, cell: Option<string>, score: Score, threshold: int): nat {
    if options == [] then 0
    else
      MatchCount(options[..|options| - 1], cell, score, threshold) +
      (if score(options[|options| - 1], cell) >= threshold then 1 else 0)
  }

  /** `fuzzy_filter(data, column, selected_options, threshold)`. */
  method FuzzyFilter(data: seq<Row>, column: Column, selected: seq<string>, score: Score, threshold: int)
    returns (filtered: seq<Row>)
    ensures filtered == FuzzyMatches(data, column, selected, score, threshold)
    ensures selected == [] ==> filtered == []
    ensures forall x :: multiset(filtered)[x] == multiset(data)[x] * MatchCount(selected, Cell(x, column), score, threshold)
  {
    filtered := [];
    for i := 0 to |selected|
      invariant filtered == FuzzyMatches(data, column, selected[..i], score, threshold)
    {
      var option := selected[i];
      ghost var before := filtered;
      for j := 0 to |data|
        invariant filtered == before + Matching(data[..j], column, option, score, threshold)
      {
        assert data[..j + 1][..j] == data[..j];
        if score(option, Cell(data[j], column)) >= threshold {
          filtered := filtered + [data[j]];
        }
      }
      assert data[..|data|] == data;
      assert selected[..i + 1][..i] == selected[..i];
    }
    assert selected[..|selected|] == selected;
    forall x ensures multiset(filtered)[x] == multiset(data)[x] * MatchCount(selected, Cell(x, column), score, threshold) {
      FuzzyMultiplicity(data, column, selected, score, threshold, x);
    }
  }

  /** Distributivity, stated on its own so that the proofs below keep it out of their larger contexts. */
  lemma {:induction false} MulDistributes(m: int, c: int, b: int)
    ensures m * c + m * b == m * (c + b)
  {
  }

  lemma {:induction false} MulSucc(a: int, b: int)
    ensures a * b + b == (a + 1) * b
  {
  }

  lemma {:induction false} ProductPositive(a: nat, b: nat)
    requires a * b > 0
    ensures a > 0 && b > 0
  {
  }

  /** A row appears once for every selected option it matches: the output is not duplicate-free. */
  lemma {:induction false} FuzzyMultiplicity(rows: seq<Row>, column: Column, options: seq<string>, score: Score, threshold: int, x: Row)
    ensures multiset(FuzzyMatches(rows, column, options, score, threshold))[x] ==
            multiset(rows)[x] * MatchCount(options, Cell(x, column), score, threshold)
  {
    if options != [] {
      var init, last := options[..|options| - 1], options[|options| - 1];
      FuzzyMultiplicity(rows, column, init, score, threshold, x);
      var m := multiset(rows)[x];
      var c := MatchCount(init, Cell(x, column), score, threshold);
      var b := if score(last, Cell(x, column)) >= threshold then 1 else 0;
      MatchingCount(rows, column, last, score, threshold, x);
      assert multiset(Matching(rows, column, last, score, threshold))[x] == m * b;
      MulDistributes(m, c, b);
    }
  }

  /** A selected-option count is positive exactly when some selected option matches. */
  lemma {:induction false} MatchCountPositive(options: seq<string>, cell: Option<string>, score: Score, threshold: int)
    ensures MatchCount(options, cell, score, threshold) > 0 <==>
            exists i :: 0 <= i < |options| && score(options[i], cell) >= threshold
  {
    if options != [] {
      var init := options[..|options| - 1];
      MatchCountPositive(init, cell, score, threshold);
      if i :| 0 <= i < |options| - 1 && score(init[i], cell) >= threshold {
        assert score(options[i], cell) >= threshold;
      }
      if i :| 0 <= i < |options| && score(options[i], cell) >= threshold {
        if i < |options| - 1 {
          assert score(init[i], cell) >= threshold;
        }
      }
    }
  }

  /** Every output row is an input row that scores at least `threshold` against some selected option, and conversely. */
  lemma {:induction false} FuzzyMembership(rows: seq<Row>, column: Column, options: seq<string>, score: Score, threshold: int, x: Row)
    ensures x in FuzzyMatches(rows, column, options, score, threshold) <==>
            x in rows && exists i :: 0 <= i < |options| && score(options[i], Cell(x, column)) >= threshold
  {
    FuzzyMultiplicity(rows, column, options, score, threshold, x);
    MatchCountPositive(options, Cell(x, column), score, threshold);
    var m := multiset(rows)[x];
    var c := MatchCount(options, Cell(x, column), score, threshold);
    if m * c > 0 {
      ProductPositive(m, c);
    }
  }

  /** Each option contributes at most one copy of every row. */
  lemma {:induction false} FuzzyLength(rows: seq<Row>, column: Column, options: seq<string>, score: Score, threshold: int)
    ensures |FuzzyMatches(rows, column, options, score, threshold)| <= |options| * |rows|
  {
    if options != [] {
      var init := options[..|options| - 1];
      FuzzyLength(rows, column, init, score, threshold);
      assert |Matching(rows, column, options[|options| - 1], score, threshold)| <= |rows|;
      MulSucc(|init|, |rows|);
    }
  }

  /** The output is option-major: the blocks for `s1` come before the blocks for `s2`. */
  lemma {:induction false} FuzzyOptionMajor(rows: seq<Row>, column: Column, s1: seq<string>, s2: seq<string>, score: Score, threshold: int)
    ensures FuzzyMatches(rows, column, s1 + s2, score, threshold) ==
            FuzzyMatches(rows, column, s1, score, threshold) + FuzzyMatches(rows, column, s2, score, threshold)
  {
    if s2 == [] {
      assert s1 + s2 == s1;
    } else {
      var init := s2[..|s2| - 1];
      FuzzyOptionMajor(rows, column, s1, init, score, threshold);
      assert (s1 + s2)[..|s1 + s2| - 1] == s1 + init;
      assert (s1 + s2)[|s1 + s2| - 1] == s2[|s2| - 1];
    }
  }

  /**
   * The output splits at every selected option: the matches of the earlier options, then the
   * matches of option `i` in row order, then those of the later options.
   */
  lemma {:induction false} FuzzyBlocks(rows: seq<Row>, column: Column, options: seq<string>, score: Score, threshold: int, i: int)
    requires 0 <= i < |options|
    ensures FuzzyMatches(rows, column, options, score, threshold) ==
            FuzzyMatches(rows, column, options[..i], score, threshold) +
            Matching(rows, column, options[i], score, threshold) +
            FuzzyMatches(rows, column, options[i + 1..], score, threshold)
    ensures IsSubsequence(Matching(rows, column, options[i], score, threshold), rows)
  {
    WhereIsSubsequence(rows, x => score(options[i], Cell(x, column)) >= threshold);
    assert options == options[..i + 1] + options[i + 1..];
    FuzzyOptionMajor(rows, column, options[..i + 1], options[i + 1..], score, threshold);
    assert options[..i + 1][..i] == options[..i];
  }

  /** A filter with no selection has no effect; otherwise it is `fuzzy_filter` at the default threshold. */
  function Factor(options: seq<string>, cell: Option<string>, score: Score): nat {
    if options == [] then 1 else MatchCount(options, cell, score, DefaultThreshold)
  }

  /** One guarded step `if options: data = fuzzy_filter(data, column, options)`. */
  method FuzzyStep(data: seq<Row>, column: Column, options: seq<string>, score: Score) returns (out: seq<Row>)
    ensures forall x :: multiset(out)[x] == multiset(data)[x] * Factor(options, Cell(x, column), score)
  {
    out := data;
    if |options| > 0 {
      out := FuzzyFilter(data, column, options, score, DefaultThreshold);
    }
  }

  /**
   * The filter block (`if ward: ... if populations: data = fuzzy_filter(...)`): a row's count
   * in the result is its count in the table, kept or dropped by the ward filter, times the
   * number of matching options of each active free-text filter.
   */
  method ApplyFilters(table: seq<Row>, sel: Selection, score: Score) returns (data: seq<Row>)
    ensures forall x :: multiset(data)[x] ==
              multiset(table)[x] * (if PassesWards(sel.wards, x) then 1 else 0) *
              Factor(sel.insurance, x.insurance, score) * Factor(sel.services, x.services, score) *
              Factor(sel.populations, x.populations, score)
    ensures forall x :: x in data ==> x in table && PassesWards(sel.wards, x)
  {
    var d1 := SelectWards(table, sel.wards);
    var d2 := FuzzyStep(d1, InsuranceAccepted, sel.insurance, score);
    var d3 := FuzzyStep(d2, ServicesAvailable, sel.services, score);
    data := FuzzyStep(d3, PopulationsServed, sel.populations, score);
    forall x
      ensures multiset(data)[x] ==
              multiset(table)[x] * (if PassesWards(sel.wards, x) then 1 else 0) *
              Factor(sel.insurance, x.insurance, score) * Factor(sel.services, x.services, score) *
              Factor(sel.populations, x.populations, score)
      ensures x in data ==> x in table && PassesWards(sel.wards, x)
    {
      var w := if PassesWards(sel.wards, x) then 1 else 0;
      assert multiset(d1)[x] == multiset(table)[x] * w;
      assert multiset(d2)[x] == multiset(d1)[x] * Factor(sel.insurance, x.insurance, score);
      assert multiset(d3)[x] == multiset(d2)[x] * Factor(sel.services, x.services, score);
      assert multiset(data)[x] == multiset(d3)[x] * Factor(sel.populations, x.populations, score);
      if x in data {
        assert x in multiset(data);
        ProductPositive(multiset(d3)[x], Factor(sel.populations, x.populations, score));
        ProductPositive(multiset(d2)[x], Factor(sel.services, x.services, score));
        ProductPositive(multiset(d1)[x], Factor(sel.insurance, x.insurance, score));
        ProductPositive(multiset(table)[x], w);
        assert x in multiset(table);
      }
    }
  }

  /** What the page shows for the filtered rows. */
  datatype Display = NoFacilities | FacilityMap(coordinates: seq<string>)

  /** `if data.empty: ... else: coordinates = data["Coordinates"].fillna("(0.0, 0.0)")...`. */
  function Show(data: seq<Row>): (d: Display)
    ensures d == NoFacilities <==> data == []
    ensures d.FacilityMap? ==> |d.coordinates| == |data| > 0
    ensures d.FacilityMap? ==> forall i :: 0 <= i < |data| ==>
      d.coordinates[i] == (if data[i].coordinates.Some? then data[i].coordinates.value else "(0.0, 0.0)")
  {
    if data == [] then NoFacilities else FacilityMap(FillCoordinates(data))
  }
}
