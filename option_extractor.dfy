/**
 * `preprocess_filter_options`: the sidebar choices for a comma-joined free-text column.
 * Every present cell is split on "," and each piece is stripped of surrounding whitespace;
 * the pieces are collected in a set and returned sorted. The same function is written out
 * identically in dc_primary_care.py, facility_location.py and test_code.py.
 */
module OptionExtractor {
  import opened Wrappers
  import opened Collections
  import opened Text

  /** The options one cell value contributes: `{item.strip() for item in value.split(",")}`. */
  ghost function PiecesOf(value: string): set<string> {
    ImageOf(Split(value, ','), Strip)
  }

  /** `o` is offered for `column`: it is a stripped comma-piece of some present cell. */
  ghost predicate IsOptionOf(column: seq<Option<string>>, o: string) {
    exists v :: Some(v) in column && o in PiecesOf(v)
  }

  /** The options of a column are those of its distinct present values. */
  lemma {:induction false} OptionsOfValues(column: seq<Option<string>>, values: seq<string>, o: string)
    requires values == Unique(DropNa(column))
    ensures o in UnionOf(values, PiecesOf) <==> IsOptionOf(column, o)
  {
    UnionOfMembership(values, PiecesOf, o);
  }

  /** The nested loops of `preprocess_filter_options`: add every stripped piece of every value. */
  method CollectOptions(values: seq<string>) returns (found: set<string>)
    ensures found == UnionOf(values, PiecesOf)
  {
    found := {};
    for i := 0 to |values|
      invariant found == UnionOf(values[..i], PiecesOf)
    {
      found := AddImage(found, Split(values[i], ','), Strip);
      UnionOfPrefix(values, PiecesOf, i);
    }
    assert values[..|values|] == values;
  }

  /** `preprocess_filter_options(column)`. */
  method PreprocessFilterOptions(column: seq<Option<string>>) returns (options: seq<string>)
    ensures Ascending(options, Less)
    ensures forall i, j :: 0 <= i < j < |options| ==> options[i] != options[j]
    ensures forall o :: o in options <==> IsOptionOf(column, o)
  {
    var values := Unique(DropNa(column));
    var found := CollectOptions(values);
    options := SortedStrings(found);
    forall o
      ensures o in options <==> IsOptionOf(column, o)
    {
      OptionsOfValues(column, values, o);
    }
  }

  /** Null cells contribute nothing: dropping them leaves the options unchanged. */
  lemma {:induction false} NullCellsContributeNothing(column: seq<Option<string>>, o: string)
    ensures IsOptionOf(column, o) <==> IsOptionOf(Where(column, (c: Option<string>) => c.Some?), o)
  {
    if IsOptionOf(column, o) {
      var v :| Some(v) in column && o in PiecesOf(v);
      assert Some(v) in Where(column, (c: Option<string>) => c.Some?);
    }
  }

  /** A present cell without a comma contributes exactly its stripped whole value. */
  lemma {:induction false} CellWithoutComma(v: string, o: string)
    requires ',' !in v
    ensures IsOptionOf([Some(v)], o) <==> o == Strip(v)
  {
    SplitWithoutSeparator(v, ',');
    assert [v][..0] == [];
    assert PiecesOf(v) == {Strip(v)};
    assert Some(v) in [Some(v)];
  }

  /**
   * An empty comma-piece is not dropped: a cell such as "A,,B" or "X,Y,,Z" offers the empty
   * option. Every cell is the join of its comma-free pieces, so any empty piece is covered.
   */
  lemma {:induction false} EmptyPieceIsAnOption(pieces: seq<string>, k: int)
    requires 0 <= k < |pieces| && pieces[k] == []
    requires forall j :: 0 <= j < |pieces| ==> ',' !in pieces[j]
    ensures IsOptionOf([Some(Join(pieces, ','))], "")
  {
    var cell := Join(pieces, ',');
    SplitJoin(pieces, ',');
    assert Strip(Split(cell, ',')[k]) == [];
    ImageOfMembership(Split(cell, ','), Strip, "");
    assert Some(cell) in [Some(cell)];
  }

  /** A piece of only whitespace strips to the empty option: "A, ", "A, ,B" and "A,B, " offer it too. */
  lemma {:induction false} BlankPieceIsAnOption(pieces: seq<string>, k: int)
    requires 0 <= k < |pieces| && AllSpace(pieces[k])
    requires forall j :: 0 <= j < |pieces| ==> ',' !in pieces[j]
    ensures IsOptionOf([Some(Join(pieces, ','))], "")
  {
    var cell := Join(pieces, ',');
    SplitJoin(pieces, ',');
    assert Strip(pieces[k]) == [] by {
      StripUnique(pieces[k], [], []);
      assert pieces[k] + [] + [] == pieces[k];
    }
    ImageOfMembership(Split(cell, ','), Strip, "");
    assert Some(cell) in [Some(cell)];
  }

  /** Python's `<` on ward numbers. */
  predicate WardLess(a: int, b: int) {
    a < b
  }

  /** `sorted(data["Ward"].dropna().unique())`: the ward choices, ascending and distinct. */
  method WardOptions(column: seq<Option<int>>) returns (wards: seq<int>)
    ensures Ascending(wards, WardLess)
    ensures forall w :: w in wards <==> Some(w) in column
  {
    var values := Unique(DropNa(column));
    var found := set w | w in values;
    wards := SortSet(found, WardLess);
  }
}
