/** The backend endpoints' own per-row logic: the three-colour alert of `/api/v1/ai/alerts`
    and the counting of `/api/v1/data/summary`, both over the rows left by the
    Northern-Indian-Ocean filter. */
module Api {
  import opened Seqs
  import opened Text
  import opened Records
  import opened Advisory
  import opened Presentation
  import opened DataUtils
  import opened Dashboard

  datatype AlertColor = Red | Yellow | Green

  /** `status_color`: red for an invasive flag, yellow for low stock or low biodiversity,
      green otherwise. */
  function StatusColor(r: Record): (c: AlertColor)
    ensures c == Red <==> IsYes(r.invasiveFlag)
    ensures c == Yellow <==>
      !IsYes(r.invasiveFlag) && (r.fishStock < StockBanThreshold || r.biodiversity < BiodiversityThreshold)
    ensures c == Green <==>
      !IsYes(r.invasiveFlag) && r.fishStock >= StockBanThreshold && r.biodiversity >= BiodiversityThreshold
  {
    if IsYes(r.invasiveFlag) then Red
    else if r.fishStock < 30.0 || r.biodiversity < 40.0 then Yellow
    else Green
  }

  /** The alert colour is the row's status tier: red for invasive, yellow for ban and
      conserve, green for ok. */
  lemma StatusColorFollowsTier(r: Record)
    ensures StatusColor(r) == Red <==> TierOf(RowStatus(r)) == Critical
    ensures StatusColor(r) == Yellow <==> TierOf(RowStatus(r)) == Warning
    ensures StatusColor(r) == Green <==> TierOf(RowStatus(r)) == Clear
  {
  }

  /** The fill the Ocean Map uses for each alert colour. */
  function ColorHex(c: AlertColor): string
  {
    match c
    case Red => "#b91c1c"
    case Yellow => "#b45309"
    case Green => "#065f46"
  }

  /** The backend alert and the Ocean Map marker agree on every dataset row. */
  lemma StatusColorMatchesOceanMap(r: Record)
    ensures ColorHex(StatusColor(r)) == OceanMapColor(RecordObservation(r))
  {
  }

  predicate FlaggedInvasive(r: Record) { IsYes(r.invasiveFlag) }
  predicate LowStock(r: Record) { r.fishStock < 30.0 }
  predicate LowBiodiversity(r: Record) { r.biodiversity < 40.0 }

  /** An invasive row whose stock is also low: the tally files it as invasive only. */
  predicate InvasiveLowStock(r: Record) { IsInvasiveRow(r) && LowStock(r) }
  /** An invasive or ban row whose biodiversity is also low: the tally files it under the more
      severe status only. */
  predicate SevereLowBiodiversity(r: Record) { (IsInvasiveRow(r) || IsBanRow(r)) && LowBiodiversity(r) }

  /** The sum of a column over the rows. */
  function ColumnSum(rows: seq<Record>, f: Record -> real): real
  {
    if |rows| == 0 then 0.0 else ColumnSum(rows[..|rows| - 1], f) + f(rows[|rows| - 1])
  }

  /** What the summary endpoint answers: `{"count": 0}` for no rows, otherwise the row count,
      the two column means and the three alert counts. */
  datatype Summary =
    | NoRows
    | Summary(count: nat, avgStock: real, avgBiodiversity: real,
              restrictedZones: nat, conservationPriority: nat, invasiveSpeciesRisk: nat)

  /** `api_summary` over the dataset rows. Each alert count applies its own test to every kept
      row, so one row can be counted under several alerts. */
  function ApiSummary(rows: seq<Record>): (s: Summary)
    ensures s.NoRows? <==> |FilterNorthernIndianOcean(rows)| == 0
    ensures s.Summary? ==> s.count == |FilterNorthernIndianOcean(rows)| > 0
    ensures s.Summary? ==>
      && s.restrictedZones <= s.count
      && s.conservationPriority <= s.count
      && s.invasiveSpeciesRisk <= s.count
    ensures s.Summary? ==> var kept := FilterNorthernIndianOcean(rows);
      && s.restrictedZones == |Filter(kept, LowStock)|
      && s.conservationPriority == |Filter(kept, LowBiodiversity)|
      && s.invasiveSpeciesRisk == |Filter(kept, FlaggedInvasive)|
  {
    var kept := FilterNorthernIndianOcean(rows);
    if |kept| == 0 then NoRows
    else
      CountWhereIsFilterLength(kept, LowStock);
      CountWhereIsFilterLength(kept, LowBiodiversity);
      CountWhereIsFilterLength(kept, FlaggedInvasive);
      Summary(|kept|,
              ColumnSum(kept, StockOf) / |kept| as real,
              ColumnSum(kept, BiodiversityOf) / |kept| as real,
              CountWhere(kept, LowStock),
              CountWhere(kept, LowBiodiversity),
              CountWhere(kept, FlaggedInvasive))
  }

  /** Against the dashboard's exclusive tally of the same rows: the invasive count is the
      same, the restricted count is the ban tally plus the invasive rows with a low stock, and
      the conservation count is the conserve tally plus the invasive and ban rows with a low
      biodiversity. So the summary's counts are upper bounds of the tally's. */
  lemma SummaryDecomposesTally(rows: seq<Record>)
    requires |FilterNorthernIndianOcean(rows)| > 0
    ensures var kept := FilterNorthernIndianOcean(rows);
      && ApiSummary(rows).invasiveSpeciesRisk == CountWhere(kept, IsInvasiveRow)
      && ApiSummary(rows).restrictedZones == CountWhere(kept, IsBanRow) + CountWhere(kept, InvasiveLowStock)
      && ApiSummary(rows).conservationPriority
         == CountWhere(kept, IsConserveRow) + CountWhere(kept, SevereLowBiodiversity)
      && ApiSummary(rows).restrictedZones >= CountWhere(kept, IsBanRow)
      && ApiSummary(rows).conservationPriority >= CountWhere(kept, IsConserveRow)
  {
    var kept := FilterNorthernIndianOcean(rows);
    CountWhereIsFilterLength(kept, LowStock);
    CountWhereIsFilterLength(kept, LowBiodiversity);
    CountWhereIsFilterLength(kept, FlaggedInvasive);
    CountWhereAgree(kept, FlaggedInvasive, IsInvasiveRow);
    CountWhereDisjoint(kept, IsBanRow, InvasiveLowStock, LowStock);
    CountWhereDisjoint(kept, IsConserveRow, SevereLowBiodiversity, LowBiodiversity);
  }

  /** An invasive row with a low stock index, in the Bay of Bengal. */
  const DoubleAlertRow: Record :=
    Record("2024-01-01", 10.0, 85.0, "Bay of Bengal", 28.0, 35.0, 10.0, 50.0, "", "yes")

  /** That one row is counted both as an invasive-species risk and as a restricted zone,
      whereas the dashboard tally counts it as invasive only. */
  lemma SummaryCountsRowTwice()
    ensures ApiSummary([DoubleAlertRow]).Summary?
    ensures ApiSummary([DoubleAlertRow]).invasiveSpeciesRisk == 1
    ensures ApiSummary([DoubleAlertRow]).restrictedZones == 1
    ensures CountWhere([DoubleAlertRow], IsInvasiveRow) == 1
    ensures CountWhere([DoubleAlertRow], IsBanRow) == 0
  {
    var rows := [DoubleAlertRow];
    assert IsYes("yes") by { IsYesSpelled("yes"); }
    assert InNorthernIndianOcean(DoubleAlertRow);
    assert FilterNorthernIndianOcean(rows) == rows;
    assert rows[..0] == [];
  }
}
