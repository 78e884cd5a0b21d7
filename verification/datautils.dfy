/** The backend's dataset helpers: the required columns and their validation, and the
    Northern-Indian-Ocean filter every data endpoint applies before answering. */
module DataUtils {
  import opened Seqs
  import opened Records

  /** The columns a dataset must carry, in the order missing ones are reported. */
  const RequiredColumns: seq<string> := [
    "date", "lat", "lon", "region", "sea_temperature", "salinity",
    "fish_stock_index", "biodiversity_index", "eDNA_detected_species", "invasive_species_flag"]

  /** The region names the filter keeps. */
  const IndiaRegionNames: set<string> := {
    "Bay of Bengal", "Arabian Sea", "Laccadive Sea", "Indian Ocean", "Andaman Sea", "Persian Gulf"}

  /** A latitude/longitude box, bounds included. */
  datatype BBox = BBox(latMin: real, latMax: real, lonMin: real, lonMax: real)

  const IndiaBBox: BBox := BBox(0.0, 30.0, 50.0, 100.0)

  predicate InRegion(r: Record)
  {
    r.region in IndiaRegionNames
  }

  predicate InBox(r: Record)
  {
    && IndiaBBox.latMin <= r.lat <= IndiaBBox.latMax
    && IndiaBBox.lonMin <= r.lon <= IndiaBBox.lonMax
  }

  /** A row the filter keeps: a known region inside the box. */
  predicate InNorthernIndianOcean(r: Record)
  {
    InRegion(r) && InBox(r)
  }

  /** `filter_northern_indian_ocean`: the region pre-filter, then the box filter. The kept rows
      are in table order, each in a known region and inside the inclusive box, and no row
      meeting both conditions is dropped. */
  function FilterNorthernIndianOcean(rows: seq<Record>): (kept: seq<Record>)
    ensures IsSubsequence(kept, rows)
    ensures forall i :: 0 <= i < |kept| ==> kept[i].region in IndiaRegionNames
    ensures forall i :: 0 <= i < |kept| ==> 0.0 <= kept[i].lat <= 30.0 && 50.0 <= kept[i].lon <= 100.0
    ensures forall i :: 0 <= i < |rows| && InNorthernIndianOcean(rows[i]) ==> rows[i] in kept
  {
    FilterFilter(rows, InRegion, InBox, InNorthernIndianOcean);
    Filter(Filter(rows, InRegion), InBox)
  }

  /** The two filter steps are one filter on both conditions together. */
  lemma FilterIsOneStep(rows: seq<Record>)
    ensures FilterNorthernIndianOcean(rows) == Filter(rows, InNorthernIndianOcean)
  {
    FilterFilter(rows, InRegion, InBox, InNorthernIndianOcean);
  }

  /** Filtering already-filtered rows changes nothing. */
  lemma FilterNorthernIndianOceanIdempotent(rows: seq<Record>)
    ensures FilterNorthernIndianOcean(FilterNorthernIndianOcean(rows)) == FilterNorthernIndianOcean(rows)
  {
    var kept := FilterNorthernIndianOcean(rows);
    FilterIsOneStep(rows);
    FilterIsOneStep(kept);
    FilterIdempotent(rows, InNorthernIndianOcean);
  }

  /** The entries of `required` absent from `columns`, in the order of `required`. */
  function Missing(required: seq<string>, columns: seq<string>): (missing: seq<string>)
    ensures forall c :: c in missing <==> c in required && c !in columns
    ensures IsSubsequence(missing, required)
  {
    var absent := (c: string) => c !in columns;
    var missing := Filter(required, absent);
    forall c | c in required && c !in columns
      ensures c in missing
    {
      var i :| 0 <= i < |required| && required[i] == c;
    }
    forall c | c in missing
      ensures c in required && c !in columns
    {
      var i :| 0 <= i < |missing| && missing[i] == c;
    }
    missing
  }

  /** `validate_dataset_columns`: whether nothing is missing, and the missing required
      columns in the order of `RequiredColumns`. */
  function ValidateColumns(columns: seq<string>): (result: (bool, seq<string>))
    ensures result.0 <==> result.1 == []
    ensures forall c :: c in result.1 <==> c in RequiredColumns && c !in columns
    ensures IsSubsequence(result.1, RequiredColumns)
  {
    var missing := Missing(RequiredColumns, columns);
    (|missing| == 0, missing)
  }

  /** A dataset holding every required column validates, and one missing any of them does
      not. */
  lemma ValidateColumnsOk(columns: seq<string>)
    ensures ValidateColumns(columns).0 <==> forall c :: c in RequiredColumns ==> c in columns
  {
    if !ValidateColumns(columns).0 {
      var c := ValidateColumns(columns).1[0];
      assert c in ValidateColumns(columns).1;
    }
  }
}
