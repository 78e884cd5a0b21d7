/** The advisory classifier: the fixed rule chain that maps one observation to one of four
    statuses, most severe first. The frontend (`getAlertStatus`, the status inside
    `buildVerboseReport`) and the backend (`ai_recommendation`) all run this chain; they differ
    only in how a missing stock index is read. */
module Advisory {
  import opened Wrappers
  import opened Text
  import opened Records

  datatype Status = Invasive | Ban | Conserve | Ok

  /** A stock index below this triggers a fishing ban. */
  const StockBanThreshold: real := 30.0
  /** A biodiversity index below this triggers a conservation recommendation. */
  const BiodiversityThreshold: real := 40.0

  /** A stock level as the rule chain compares it: a number, or the +infinity that stands for
      a missing `fish_stock_index` on the frontend. */
  datatype Level = Finite(v: real) | PosInf

  predicate Below(l: Level, t: real)
  {
    l.Finite? && l.v < t
  }

  /** How severe a status is; the rule chain reports the most severe status that applies. */
  function Severity(s: Status): nat
  {
    match s
    case Invasive => 3
    case Ban => 2
    case Conserve => 1
    case Ok => 0
  }

  /** The condition under which a status applies, read independently of the others. */
  predicate Applies(s: Status, invasive: bool, stock: Level, bio: real)
  {
    match s
    case Invasive => invasive
    case Ban => Below(stock, StockBanThreshold)
    case Conserve => bio < BiodiversityThreshold
    case Ok => true
  }

  /** The rule chain, first match wins: invasive flag, then low stock, then low biodiversity,
      then ok. Its result is the most severe status whose condition holds. */
  function Decide(invasive: bool, stock: Level, bio: real): (s: Status)
    ensures Applies(s, invasive, stock, bio)
    ensures forall t :: Applies(t, invasive, stock, bio) ==> Severity(t) <= Severity(s)
  {
    if invasive then Invasive
    else if Below(stock, StockBanThreshold) then Ban
    else if bio < BiodiversityThreshold then Conserve
    else Ok
  }

  /** `String(row.invasive_species_flag || '').toLowerCase() === 'yes'`. */
  predicate FlagSet(o: Observation)
  {
    IsYes(o.invasiveFlag.GetOr(""))
  }

  /** `row.fish_stock_index ?? Infinity`: a missing stock index never counts as low. */
  function StockLevel(o: Observation): (l: Level)
    ensures l.PosInf? <==> o.fishStock.None?
  {
    match o.fishStock
    case Some(v) => Finite(v)
    case None => PosInf
  }

  /** `getAlertStatus`: the frontend classification of one row. */
  function AlertStatus(o: Observation): (s: Status)
    ensures FlagSet(o) ==> s == Invasive
    ensures o.fishStock.None? ==> s != Ban
    ensures s == Ban <==> !FlagSet(o) && o.fishStock.Some? && o.fishStock.value < StockBanThreshold
    ensures s == Conserve <==>
      && !FlagSet(o)
      && (o.fishStock.None? || o.fishStock.value >= StockBanThreshold)
      && o.biodiversity < BiodiversityThreshold
    ensures s == Ok <==>
      && !FlagSet(o)
      && (o.fishStock.None? || o.fishStock.value >= StockBanThreshold)
      && o.biodiversity >= BiodiversityThreshold
  {
    Decide(FlagSet(o), StockLevel(o), o.biodiversity)
  }

  /** The status `buildVerboseReport` derives: the same chain, with the predicted stock in
      place of the observed one. */
  function ReportStatus(invasiveFlag: string, fishPred: real, bio: real): (s: Status)
    ensures IsYes(invasiveFlag) ==> s == Invasive
    ensures s == Ban <==> !IsYes(invasiveFlag) && fishPred < StockBanThreshold
    ensures s == Conserve <==>
      !IsYes(invasiveFlag) && fishPred >= StockBanThreshold && bio < BiodiversityThreshold
  {
    Decide(IsYes(invasiveFlag), Finite(fishPred), bio)
  }

  /** The report's status is the row status of the observation whose stock index is the
      prediction. */
  lemma ReportStatusIsAlertStatus(o: Observation, fishPred: real)
    requires o.invasiveFlag.Some?
    ensures ReportStatus(o.invasiveFlag.value, fishPred, o.biodiversity)
         == AlertStatus(o.(fishStock := Some(fishPred)))
  {
  }
}
