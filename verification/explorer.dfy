/** The data catalogue: the policy-advisory status filter over the table rows and the column
    header labels. */
module Explorer {
  import opened Seqs
  import opened Records
  import opened Advisory
  import opened DataUtils

  /** The filter menu: every location, or only the rows of one status. */
  datatype StatusFilter = All | Only(status: Status)

  /** Whether the filter shows a row. */
  predicate Shows(f: StatusFilter, o: Observation)
  {
    match f
    case All => true
    case Only(s) => AlertStatus(o) == s
  }

  /** The rows the table shows: all of them for `All`; otherwise exactly the rows of the
      chosen status, in table order. */
  function FilterRows(rows: seq<Observation>, f: StatusFilter): (shown: seq<Observation>)
    ensures f.All? ==> shown == rows
    ensures IsSubsequence(shown, rows)
    ensures f.Only? ==> forall i :: 0 <= i < |shown| ==> AlertStatus(shown[i]) == f.status
    ensures f.Only? ==> forall i :: 0 <= i < |rows| && AlertStatus(rows[i]) == f.status ==> rows[i] in shown
  {
    var p := (o: Observation) => Shows(f, o);
    if f.All? then
      FilterAll(rows, p);
      Filter(rows, p)
    else
      Filter(rows, p)
  }

  /** How many rows of the table have status `s`. */
  function StatusCount(rows: seq<Observation>, s: Status): nat
  {
    CountWhere(rows, (o: Observation) => AlertStatus(o) == s)
  }

  /** The four single-status views split the table: every row appears under exactly one of
      them, so their sizes add up to the size of the full table. */
  lemma {:induction false} StatusViewsPartition(rows: seq<Observation>)
    ensures |FilterRows(rows, Only(Invasive))| + |FilterRows(rows, Only(Ban))|
          + |FilterRows(rows, Only(Conserve))| + |FilterRows(rows, Only(Ok))| == |rows|
  {
    forall s: Status
      ensures |FilterRows(rows, Only(s))| == StatusCount(rows, s)
    {
      CountWhereIsFilterLength(rows, (o: Observation) => Shows(Only(s), o));
      CountWhereAgree(rows, (o: Observation) => Shows(Only(s), o), (o: Observation) => AlertStatus(o) == s);
    }
    StatusCountsAddUp(rows);
  }

  /** Each row has one status, so the four status counts add up to the number of rows. */
  lemma {:induction false} StatusCountsAddUp(rows: seq<Observation>)
    ensures StatusCount(rows, Invasive) + StatusCount(rows, Ban)
          + StatusCount(rows, Conserve) + StatusCount(rows, Ok) == |rows|
  {
    if |rows| > 0 {
      StatusCountsAddUp(rows[..|rows| - 1]);
    }
  }

  /** The label of each known column. */
  const HeaderLabels: map<string, string> := map[
    "sea_temperature" := "Sea Surface Temperature (SST)",
    "salinity" := "Salinity (ppt)",
    "fish_stock_index" := "Fisheries Sustainability Index",
    "biodiversity_index" := "Biodiversity Index",
    "eDNA_detected_species" := "eDNA Detected Biota",
    "invasive_species_flag" := "Invasive Species Flag",
    "region" := "Region",
    "lat" := "Latitude",
    "lon" := "Longitude",
    "date" := "Date"]

  /** `headerLabel`: the label of a known column, the key itself for any other column. */
  function HeaderLabel(k: string): string
  {
    if k in HeaderLabels then HeaderLabels[k] else k
  }

  /** The columns with a label of their own are exactly the dataset's required columns, and
      each of them is shown under a label different from its key. */
  lemma HeaderLabelsCoverRequiredColumns(k: string)
    ensures k in HeaderLabels <==> k in RequiredColumns
    ensures HeaderLabel(k) != k <==> k in RequiredColumns
  {
    if k in RequiredColumns {
      assert |HeaderLabel(k)| != |k| || HeaderLabel(k)[0] != k[0];
    }
  }
}
