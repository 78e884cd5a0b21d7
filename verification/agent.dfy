/** `ai_recommendation`: the backend's copy of the rule chain, which reads a row dictionary
    with defaults for missing keys and answers with an alert message. */
module Agent {
  import opened Wrappers
  import opened Text
  import opened Records
  import opened Advisory

  /** The stock value the backend compares: `fish_stock_index`, else `fish_stock_prediction`,
      else 0. */
  function BackendStock(d: FieldDict): real
  {
    match d.fishStockIndex
    case Some(v) => v
    case None => d.fishStockPrediction.GetOr(0.0)
  }

  /** The status behind the backend message: a missing flag reads as "no" and a missing
      biodiversity index as 0. */
  function AgentStatus(d: FieldDict): (s: Status)
    ensures IsYes(d.invasiveFlag.GetOr("no")) <==> s == Invasive
    ensures s == Ban <==> !IsYes(d.invasiveFlag.GetOr("no")) && BackendStock(d) < StockBanThreshold
    ensures s == Conserve <==>
      && !IsYes(d.invasiveFlag.GetOr("no"))
      && BackendStock(d) >= StockBanThreshold
      && d.biodiversity.GetOr(0.0) < BiodiversityThreshold
  {
    Decide(IsYes(d.invasiveFlag.GetOr("no")), Finite(BackendStock(d)), d.biodiversity.GetOr(0.0))
  }

  /** The message of each status. */
  function AlertMessage(s: Status): string
  {
    match s
    case Invasive => "\U{1F6A8} Invasive species risk"
    case Ban => "\U{26A0}\U{FE0F} Fishing ban alert"
    case Conserve => "\U{26A0}\U{FE0F} Recommend conservation zone"
    case Ok => "\U{2705} Sustainable fishing possible"
  }

  /** The four messages are distinct, so a message names its status. */
  lemma AlertMessageIdentifiesStatus(a: Status, b: Status)
    ensures AlertMessage(a) == AlertMessage(b) <==> a == b
  {
    if a != b {
      var ma, mb := AlertMessage(a), AlertMessage(b);
      assert |ma| != |mb| || ma[|ma| - 2] != mb[|mb| - 2];
    }
  }

  /** `ai_recommendation(row)`: the message names the status the backend rule gives the
      row's fields. */
  function AiRecommendation(d: FieldDict): (m: string)
    ensures m == AlertMessage(Invasive) <==> IsYes(d.invasiveFlag.GetOr("no"))
    ensures m == AlertMessage(Ban) <==> !IsYes(d.invasiveFlag.GetOr("no")) && BackendStock(d) < StockBanThreshold
    ensures m == AlertMessage(Conserve) <==>
      && !IsYes(d.invasiveFlag.GetOr("no"))
      && BackendStock(d) >= StockBanThreshold
      && d.biodiversity.GetOr(0.0) < BiodiversityThreshold
    ensures m == AlertMessage(Ok) <==>
      && !IsYes(d.invasiveFlag.GetOr("no"))
      && BackendStock(d) >= StockBanThreshold
      && d.biodiversity.GetOr(0.0) >= BiodiversityThreshold
  {
    var s := AgentStatus(d);
    AlertMessageIdentifiesStatus(s, Invasive);
    AlertMessageIdentifiesStatus(s, Ban);
    AlertMessageIdentifiesStatus(s, Conserve);
    AlertMessageIdentifiesStatus(s, Ok);
    AlertMessage(s)
  }

  /** On a dataset row, where every column is present, the backend message reports exactly
      the status the frontend gives the same row. */
  lemma AgentAgreesOnRecords(r: Record)
    ensures AgentStatus(RecordDict(r)) == AlertStatus(RecordObservation(r))
    ensures AiRecommendation(RecordDict(r)) == AlertMessage(AlertStatus(RecordObservation(r)))
  {
  }

  /** The fields `predict_endpoint` hands over: no observed stock, the predicted one, and the
      submitted biodiversity index and flag. */
  function PredictDict(invasiveFlag: string, fishPred: real, bio: real): FieldDict
  {
    FieldDict(None, Some(fishPred), Some(bio), Some(invasiveFlag))
  }

  /** The prediction endpoint's message and the prediction page's report agree on the status
      for the same prediction. */
  lemma AgentAgreesWithReport(invasiveFlag: string, fishPred: real, bio: real)
    ensures AgentStatus(PredictDict(invasiveFlag, fishPred, bio)) == ReportStatus(invasiveFlag, fishPred, bio)
  {
  }

  /** The backend reads a missing stock as 0 where the frontend reads it as +infinity: a
      non-invasive row with a healthy biodiversity index and no stock at all is a ban alert
      on the backend and ok on the frontend. */
  lemma MissingStockDiverges(o: Observation)
    requires o.fishStock.None? && o.invasiveFlag == Some("no") && o.biodiversity >= BiodiversityThreshold
    ensures AgentStatus(FieldDict(None, None, Some(o.biodiversity), o.invasiveFlag)) == Ban
    ensures AlertStatus(o) == Ok
  {
    assert !IsYes("no") by { IsYesSpelled("no"); }
  }

  /** An empty dictionary is a ban alert: stock 0, flag "no". */
  lemma EmptyDictIsBan()
    ensures AiRecommendation(FieldDict(None, None, None, None)) == AlertMessage(Ban)
  {
    assert !IsYes("no") by { IsYesSpelled("no"); }
  }
}
