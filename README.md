# FacilityLoc filter logic in Dafny

FacilityLoc is a set of Streamlit scripts that map the primary-care sites of Washington, D.C.
Each script loads the site spreadsheet and builds sidebar choices from its comma-joined free-text
columns. It then narrows the table by ward, by insurance accepted, by services available, by
populations served and (in one script) by walk-in status, and draws the remaining sites on a map.
This project models the parts of those scripts that compute something:

- `preprocess_filter_options`, written out identically in `dc_primary_care.py`,
  `facility_location.py` and `test_code.py`. It keeps the present distinct cells, splits them on
  ",", strips the pieces and sorts the set of pieces. The ward choices are the sorted distinct
  present ward values.
- The filter block of `dc_primary_care.py`. A free-text filter keeps a row when some selected
  option is a substring of its cell. The walk-in radio keeps rows equal to the choice unless it
  is "All".
- The filter block of `facility_location.py`. A free-text filter keeps a row when
  `str.contains("|".join(options))` holds, that is, when the regular-expression alternation of
  the options is found in the cell.
- `fuzzy_filter` and the chained filters of `nlp_fac_loc.py`. The similarity score is a
  parameter; the threshold defaults to 85. The "No facilities found" branch is modelled too.
- The GeoJSON ward overlay of `dc_primary_care.py`. It keeps the features of a FeatureCollection
  (section 3.3 of RFC 7946) whose WARD property is a selected ward.
- The default coordinate text "(0.0, 0.0)" that replaces a missing Coordinates cell.

Modules: `Wrappers` (Option, Result, the Python exceptions raised), `Text` (`strip`, `split`,
`join`, `in` and `<` on `str`), `Collections` (boolean-mask selection, `dropna`, `unique`,
`sorted`), `Facilities` (the row, the selections, the ward filter, the coordinate default),
`OptionExtractor`, `FilterPipeline` (the filter block shared by the two exact-match scripts),
`DcPrimaryCare`, `FacilityLocation` and `NlpFacLoc`.

A missing (NaN) cell in an active free-text filter is modelled as the exception it raises. The
precondition alternative would exclude tables the scripts accept:

- in `dc_primary_care.py`, `i in x` on NaN raises TypeError;
- in `facility_location.py`, masking with the NaN that `str.contains` yields raises ValueError;
- a boundary feature without a WARD property raises KeyError.

An active free-text filter of `dc_primary_care.py` builds its mask with `Series.apply`. When
the filter receives no rows, that mask is an empty Series of objects rather than of booleans, and
indexing with it keeps no column. The next column the script reads then raises KeyError: the next
active free-text column, else the walk-in column when the choice is not "All", else "Coordinates"
(`dc_primary_care.py:55`). The `str.contains` masks of `facility_location.py` keep their columns.
A missing cell met earlier raises its own exception first.

Two behaviours of the code are easy to miss:

- The option list can hold the empty string: any cell with an empty or blank comma-piece, such
  as "A,,B", "X,Y,,Z", "A, ,B" or "A,B, ", offers ""
  (`EmptyPieceIsAnOption`, `BlankPieceIsAnOption`).
- `fuzzy_filter` can return a row more than once, in option-major order (`FuzzyMultiplicity`,
  `FuzzyBlocks`).

## Model

| member | source | states |
|---|---|---|
| OptionExtractor.PreprocessFilterOptions | dc_primary_care.py:10-15 | the result is ascending in code-point order and pairwise distinct; a string is in it exactly when it is the stripped comma-piece of some present cell |
| OptionExtractor.CollectOptions | test_code.py:14-17 | the nested loops leave in the set exactly the union, over the distinct present values, of their stripped comma-pieces |
| OptionExtractor.OptionsOfValues | facility_location.py:15-17 | the pieces of `dropna().unique()` are exactly the options of the column's present cells |
| OptionExtractor.NullCellsContributeNothing | test_code.py:15 | removing the missing cells from a column leaves its option set unchanged |
| OptionExtractor.CellWithoutComma | dc_primary_care.py:13-14 | a present cell without a comma offers exactly its stripped value and nothing else |
| OptionExtractor.EmptyPieceIsAnOption | test_code.py:16-17 | a cell that is the comma-join of separator-free pieces, any one of them empty, offers the empty option |
| OptionExtractor.BlankPieceIsAnOption | facility_location.py:16-17 | a cell that is the comma-join of separator-free pieces, any one of them only whitespace, offers the empty option |
| OptionExtractor.WardOptions | dc_primary_care.py:36 | the ward choices are strictly ascending (hence distinct) and are exactly the present ward values |
| Text.SortedStrings | facility_location.py:18 | `sorted(list(options))` is ascending in code-point order, has no duplicates and holds exactly the set's members |
| Collections.SortSet | test_code.py:18 | for any strict total order, the result is strictly ascending and holds exactly the set's members |
| Text.LessIsStrictTotalOrder | dc_primary_care.py:15 | Python's `<` on `str` (`Less`) is irreflexive, transitive and total on distinct strings |
| Collections.DropNa | dc_primary_care.py:12 | `dropna()` keeps exactly the present values and is no longer than the column |
| Collections.Unique | test_code.py:15 | `unique()` keeps the same members, each once |
| Text.Strip | dc_primary_care.py:14 | `strip()` leaves a piece that neither starts nor ends with whitespace |
| Text.StripUnique | dc_primary_care.py:14 | `strip()` removes exactly surrounding whitespace: a core that neither starts nor ends with whitespace, padded by whitespace, strips to that core |
| Text.StripRemovesSurroundingSpace | test_code.py:17 | the stripped piece occurs in the piece with only whitespace before and after it |
| Text.StripIdempotent | facility_location.py:17 | stripping a stripped piece changes nothing |
| Text.JoinSplit | test_code.py:16 | `Join` inverts `Split`: joining the pieces of `value.split(",")` with "," gives the value back |
| Text.SplitJoin | facility_location.py:33 | `Split` inverts `Join`: splitting the joined options on the separator gives the options back when none of them contains the separator |
| Text.ContainsAt | dc_primary_care.py:46 | `p in s` (`Contains`) holds exactly when `p` occurs in `s` at some position |
| Facilities.SelectWards | nlp_fac_loc.py:48-49 | the ward filter keeps, in table order, every copy of each row whose ward is selected and nothing else; all rows when no ward is selected |
| Facilities.FillCoordinates | facility_location.py:41 | one coordinate text per row: the row's own when present, "(0.0, 0.0)" when missing |
| Collections.Where | dc_primary_care.py:44 | `data[mask]` is no longer than the table and holds exactly the table's elements that pass the mask |
| Collections.WhereCount | nlp_fac_loc.py:49 | a mask keeps every copy of a passing row and no copy of any other |
| FilterPipeline.Filtered | dc_primary_care.py:43-55 | the view fails exactly when a row reaches an active free-text filter with a missing cell (the script's exception) or, under `apply` masks, an active free-text filter receives no rows (KeyError on the next column read); otherwise it is a subsequence of the table keeping every copy of each row that passes every active filter (`ContainsAny` or the alternation as the cell test) and no copy of the others |
| FilterPipeline.NullCellSteps | dc_primary_care.py:45-50 | a row reaches a missing cell exactly when the insurance, services or populations step meets one among the rows it receives |
| FilterPipeline.FilteredNullError | dc_primary_care.py:45-50 | when a step meets a missing cell the view is that exception, whatever the mask |
| FilterPipeline.KeyErrorAfterInsurance | dc_primary_care.py:45-55 | an active insurance filter that receives no rows makes the view KeyError on the next active free-text column, else the walk-in column, else "Coordinates" |
| FilterPipeline.KeyErrorAfterServices | dc_primary_care.py:47-55 | after an insurance step without error or loss of columns, an active services filter that receives no rows makes the view KeyError on the populations, walk-in or "Coordinates" column, the first one read |
| FilterPipeline.KeyErrorAfterPopulations | dc_primary_care.py:49-55 | after two earlier steps without error or loss of columns, an active populations filter that receives no rows makes the view KeyError on the walk-in column, or on "Coordinates" when the choice is "All" |
| FilterPipeline.FilteredRows | dc_primary_care.py:43-52 | with no missing cell met and no column lost, the view is exactly the table rows passing every active filter, in table order |
| FilterPipeline.TextStep | dc_primary_care.py:45-50 | a guarded free-text step on a frame without columns raises KeyError on its column; otherwise it fails exactly when it is active and a row it receives lacks the cell, else leaves the table rows passing this step and the earlier ones; the frame keeps its columns unless an `apply` mask receives no rows |
| FilterPipeline.ApplyFilters | dc_primary_care.py:43-55 | the step-by-step reassignment of `data`, followed by the first column read, computes exactly the view `Filtered` |
| FilterPipeline.FilteredIdempotent | dc_primary_care.py:43-52 | filtering a non-empty view again with the same selections gives the same view; so does an empty one under `str.contains` masks or with no free-text selection; an empty one under `apply` masks with a free-text selection raises KeyError |
| FilterPipeline.NoSelectionKeepsTable | facility_location.py:29-36 | with every selection empty and walk-in "All" the view is the whole table |
| FilterPipeline.MaskOnlyAddsKeyError | dc_primary_care.py:45-50 | the two mask kinds differ only by the KeyError of an `apply` mask: where it succeeds the `str.contains` view is the same, and where the `str.contains` view fails the `apply` view is the same failure |
| FilterPipeline.FilteredAgree | facility_location.py:30-37 | two cell tests that agree on the active selections fail on the same tables and give the same view |
| DcPrimaryCare.FilterSites | dc_primary_care.py:43-55 | the script's filters with `ContainsAny` (some option is a substring of the cell) and `apply` masks: TypeError on a missing cell, KeyError on the next column read after an active free-text filter that receives no rows (in particular after an active insurance filter whose selected wards leave it no rows, or after an insurance filter matching no row of the ward followed by an active services or populations filter), else a row survives exactly when it is in the table, its ward is selected, some selected option is a substring of each filtered cell and the walk-in cell equals the choice (each condition only when active) |
| DcPrimaryCare.NoInsuranceMatchInWard | dc_primary_care.py:45-55 | on a one-row table whose row is in the selected ward and has an insurance cell containing no selected option: with insurance the only free-text filter, the view is empty for every walk-in choice; with an active services filter as well, the view is KeyError on the populations column when that filter is active, else on the walk-in column when the choice is not "All", else on "Coordinates" |
| DcPrimaryCare.MedicaidSubstringMatch | dc_primary_care.py:46 | `ContainsAny`: selecting "Medicaid" keeps "Non-Medicaid" and "Medicaid, Medicare" and drops "None"; the empty option keeps every present cell |
| DcPrimaryCare.WardOverlay | dc_primary_care.py:72-76 | no features when no ward is selected; otherwise KeyError exactly when a feature lacks WARD, else exactly the features with a selected WARD, in file order |
| FacilityLocation.FilterSites | facility_location.py:29-37 | the script's filters: ValueError exactly as for the view, else a row survives exactly when its ward is selected and the alternation of each active selection is found in its cell |
| FacilityLocation.LiteralAlternationIsSubstring | facility_location.py:33-37 | for options without regular-expression metacharacters, the alternation matches a cell exactly when some option is a substring of it |
| FacilityLocation.LiteralSelectionsFilterBySubstring | facility_location.py:30-37 | with such options the script fails on the same tables and keeps the same rows as substring filters under `str.contains` masks; wherever the `apply`-mask substring filters of `dc_primary_care.py` succeed, it gives their view |
| NlpFacLoc.MatchingCount | nlp_fac_loc.py:33-35 | one option's pass keeps every copy of each row scoring at least the threshold and no copy of the others |
| NlpFacLoc.FuzzyFilter | nlp_fac_loc.py:30-36 | the nested loops give `FuzzyMatches`, the option-major concatenation of the matching rows; nothing when no option is selected; each row as many times as it occurs times the number of options it matches |
| NlpFacLoc.FuzzyMultiplicity | nlp_fac_loc.py:32-35 | a row matching k selected options appears k times for each of its copies, so the result is not duplicate-free |
| NlpFacLoc.MatchCountPositive | nlp_fac_loc.py:34 | the match count `MatchCount` is positive exactly when some selected option scores at least the threshold |
| NlpFacLoc.FuzzyMembership | nlp_fac_loc.py:30-35 | a row is in the output exactly when it is an input row scoring at least the threshold against some selected option |
| NlpFacLoc.FuzzyLength | nlp_fac_loc.py:31-36 | the output is at most (number of options) × (number of rows) long |
| NlpFacLoc.FuzzyOptionMajor | nlp_fac_loc.py:32 | the output for `s1 + s2` is the output for `s1` followed by the output for `s2` |
| NlpFacLoc.FuzzyBlocks | nlp_fac_loc.py:32-35 | the output is the matches of the earlier options, then those of option i in row order, then those of the later options |
| NlpFacLoc.FuzzyStep | nlp_fac_loc.py:50-51 | a guarded fuzzy step multiplies each row's count by its number of matching options, or by 1 when the selection is empty |
| NlpFacLoc.ApplyFilters | nlp_fac_loc.py:48-55 | a row's count after the chain is its table count, kept or dropped by the ward filter, times its matching-option count in each active filter; every row left is a table row with a selected ward |
| NlpFacLoc.Show | nlp_fac_loc.py:59-63 | "No facilities found" exactly when no row is left; otherwise one coordinate text per row, "(0.0, 0.0)" for a missing cell |

## Left out

- Streamlit widgets, page set-up and text output: user-interface calls. The selections are inputs.
- pydeck layers, view state and map rendering: a foreign rendering library.
- Reading the spreadsheet and the boundary file: file I/O. The table and the FeatureCollection are inputs.
- Parsing the coordinate text into floats, the lat/lon columns and their means: floating-point numerics. Only the default-text substitution is modelled.
- `data.fillna("")` and the tooltip column: display formatting with no effect on which rows are shown.
- `fuzz.token_set_ratio`: a foreign similarity metric, modelled as an abstract score over the option and the (possibly missing) cell.
- The NLTK tokenising and stop-word version of `preprocess_filter_options` in `nlp_fac_loc.py`: foreign calls and a downloaded corpus.
- FacilityLocation.FilterSites: Python's regular-expression engine is an abstract search. Its outcome is characterised only for options without metacharacters; other patterns, including ones that fail to compile, are not modelled.
- Timsort: `sorted` is modelled by repeatedly taking the least remaining element, which gives the same list for a strict total order.
- The pandas index, columns other than the eight a row carries, and dtypes: ward values are integers.
- `DataFrame.append` is modelled as appending the row; its removal in pandas 2 is not modelled.
- GeoJSON: only the WARD property is inspected, and only integer, string and null WARD values are modelled (a float such as 1.0 or `true`, which Python's `in` also matches to ward 1, is not). A feature without a "properties" member is not modelled, and the geometry is carried along unchanged.
- DcPrimaryCare.FilterSites: the KeyError follows pandas' rule that `apply` on an empty Series gives an empty Series of objects; other versions of that rule are not modelled.
- NlpFacLoc.ApplyFilters: states counts and membership, not row order. The order of one `fuzzy_filter` call is stated by `FuzzyFilter` and `FuzzyBlocks`.
- `facility location.py`: an earlier version of the page (CSV input, `isin` on whole insurance cells, no option extractor) that is not part of this model.
