/**
 * The filter block and the ward overlay of the DC primary-care map (dc_primary_care.py).
 * The table is narrowed by ward membership, by "contains any selected option as a
 * substring" on the three free-text columns, and by walk-in status; each filter runs only
 * when its selection is non-empty (walk-in: unless "All"). The boundary overlay keeps the
 * GeoJSON features whose WARD property is one of the selected wards.
 */
module DcPrimaryCare {
  import opened Wrappers
  import opened Collections
  import opened Text
  import opened Facilities
  import opened FilterPipeline

  /**
   * The filter block of the script (`if ward: ... if walk_in != "All": ...`): the free-text
   * filters keep a row when some selected option is a substring of its cell, and `i in x`
   * on a missing cell raises TypeError. The masks come from `Series.apply`, so an active
   * free-text filter that receives no rows leaves a frame without columns, and the next
   * column read raises KeyError.
   */
  method FilterSites(table: seq<Row>, sel: Selection, walkIn: string) returns (result: Result<seq<Row>>)
    ensures result == Filtered(table, sel, walkIn, ContainsAny, ApplyMask, TypeError)
    ensures InsuranceGetsNoRows(table, sel) ==> result == Err(KeyError(ReadAfterInsurance(sel, walkIn)))
    ensures result.Ok? ==> forall x :: x in result.value <==>
      && x in table
      && (sel.wards == [] || (x.ward.Some? && x.ward.value in sel.wards))
      && (sel.insurance == [] || (x.insurance.Some? && ContainsAny(sel.insurance, x.insurance.value)))
      && (sel.services == [] || (x.services.Some? && ContainsAny(sel.services, x.services.value)))
      && (sel.populations == [] || (x.populations.Some? && ContainsAny(sel.populations, x.populations.value)))
      && (walkIn == "All" || x.walkIn == Some(walkIn))
  {
    result := ApplyFilters(table, sel, walkIn, ContainsAny, ApplyMask, TypeError);
  }

  /**
   * A one-row table whose row is in the selected ward and has an insurance cell containing no
   * selected option. The insurance filter still receives that row, so its mask is boolean and
   * the frame keeps its columns: with no other free-text filter the view is empty, whatever
   * the walk-in choice. An active services filter after it receives no rows and drops the
   * columns, so the next column read raises KeyError: the populations column when that filter
   * is active, else the walk-in column when the choice is not "All", else "Coordinates".
   */
  lemma {:induction false} NoInsuranceMatchInWard(r: Row, w: int, z: seq<string>, c: string,
                                                  services: seq<string>, populations: seq<string>, walkIn: string)
    requires r.ward == Some(w) && r.insurance == Some(c)
    requires z != [] && !ContainsAny(z, c)
    ensures Filtered([r], Selection([w], z, [], []), walkIn, ContainsAny, ApplyMask, TypeError) == Ok([])
    ensures services != [] ==>
      Filtered([r], Selection([w], z, services, populations), walkIn, ContainsAny, ApplyMask, TypeError)
      == Err(KeyError(if populations != [] then ColumnName(PopulationsServed)
                      else if walkIn != "All" then WalkInColumn else CoordinatesColumn))
  {
    assert forall x :: x in [r] ==> x == r;
    assert r in [r] && PassesWards([w], r);
    var alone := Selection([w], z, [], []);
    assert !AfterInsurance(ContainsAny, alone, r);
    FilteredRows([r], alone, walkIn, ContainsAny, ApplyMask, TypeError);
    WhereNone([r], x => Admits(ContainsAny, alone, walkIn, x));
    if services != [] {
      var withServices := Selection([w], z, services, populations);
      assert !AfterInsurance(ContainsAny, withServices, r);
      KeyErrorAfterServices([r], withServices, walkIn, ContainsAny, TypeError);
    }
  }

  /**
   * Containment is plain substring search: selecting "Medicaid" keeps a site that accepts
   * "Non-Medicaid" (a false positive) and one that accepts "Medicaid, Medicare", and drops
   * one whose cell is "None"; selecting the empty option, which the option list can offer,
   * keeps every site whose cell is present.
   */
  lemma {:induction false} MedicaidSubstringMatch()
    ensures ContainsAny(["Medicaid"], "Non-Medicaid")
    ensures ContainsAny(["Medicaid"], "Medicaid, Medicare")
    ensures !ContainsAny(["Medicaid"], "None")
    ensures forall cell :: ContainsAny([""], cell)
  {
    var medicaid := ["Medicaid"];
    assert OccursAt("Non-Medicaid", medicaid[0], 4) by {
      assert "Non-Medicaid"[4..12] == "Medicaid";
    }
    ContainsAt("Non-Medicaid", medicaid[0]);
    assert OccursAt("Medicaid, Medicare", medicaid[0], 0) by {
      assert "Medicaid, Medicare"[0..8] == "Medicaid";
    }
    ContainsAt("Medicaid, Medicare", medicaid[0]);
    ContainsAt("None", medicaid[0]);
    assert !Contains("None", medicaid[0]);
    forall cell: string ensures ContainsAny([""], cell) {
      assert Contains(cell, [""][0]);
    }
  }

  /** A GeoJSON property value (section 3.2 of RFC 7946 leaves the member's contents open). */
  datatype Property = JsonNumber(n: int) | JsonString(s: string) | JsonNull

  /** A polygon ring as a list of (longitude, latitude) positions. */
  type Ring = seq<(real, real)>

  /** A Feature object; only its properties are inspected, the geometry is carried along. */
  datatype Feature = Feature(properties: map<string, Property>, geometry: seq<Ring>)

  /** A FeatureCollection object (section 3.3 of RFC 7946). */
  datatype FeatureCollection = FeatureCollection(features: seq<Feature>)

  /** `feature["properties"]["WARD"] in ward`: a numeric WARD equal to a selected ward. */
  predicate InSelectedWard(feature: Feature, wards: seq<int>) {
    "WARD" in feature.properties &&
    feature.properties["WARD"].JsonNumber? && feature.properties["WARD"].n in wards
  }

  /**
   * The overlay loop: a fresh collection, filled (when some ward is selected) with the
   * features of the boundary file whose WARD is selected. A feature without a WARD
   * property raises KeyError.
   */
  method WardOverlay(geojson: FeatureCollection, wards: seq<int>) returns (result: Result<FeatureCollection>)
    ensures wards == [] ==> result == Ok(FeatureCollection([]))
    ensures wards != [] ==>
      (result.Err? <==> exists f :: f in geojson.features && "WARD" !in f.properties)
    ensures result.Err? ==> result.error == KeyError("WARD")
    ensures result.Ok? ==> result.value.features == Where(geojson.features, f => InSelectedWard(f, wards))
    ensures result.Ok? ==> IsSubsequence(result.value.features, geojson.features)
  {
    ghost var selected := (f: Feature) => InSelectedWard(f, wards);
    var features := geojson.features;
    var filtered: seq<Feature> := [];
    if |wards| > 0 {
      for i := 0 to |features|
        invariant filtered == Where(features[..i], selected)
        invariant forall j :: 0 <= j < i ==> "WARD" in features[j].properties
      {
        var feature := features[i];
        assert features[..i + 1][..i] == features[..i];
        if "WARD" !in feature.properties {
          return Err(KeyError("WARD"));
        }
        var w := feature.properties["WARD"];
        if w.JsonNumber? && w.n in wards {
          filtered := filtered + [feature];
        }
        assert filtered == Where(features[..i], selected) + (if selected(feature) then [feature] else []);
      }
      assert features[..|features|] == features;
    } else {
      WhereNone(features, selected);
    }
    WhereIsSubsequence(features, selected);
    result := Ok(FeatureCollection(filtered));
  }
}
