/** The derived features `prepare_dataset` adds before training or prediction: the
    biodiversity risk class and the invasive-flag bit. The species count is `Species.EdnaCount`. */
module ModelUtils {
  import opened Text
  import opened Advisory

  datatype Risk = High | Medium | Low

  /** The label the model is trained on. */
  function RiskName(r: Risk): string
  {
    match r
    case High => "high"
    case Medium => "medium"
    case Low => "low"
  }

  /** How alarming a risk class is. */
  function RiskRank(r: Risk): nat
  {
    match r
    case High => 2
    case Medium => 1
    case Low => 0
  }

  /** `_derive_biodiversity_risk`: high below 40, medium from 40 up to 60, low from 60. */
  function BiodiversityRisk(x: real): (r: Risk)
    ensures r == High <==> x < 40.0
    ensures r == Medium <==> 40.0 <= x < 60.0
    ensures r == Low <==> x >= 60.0
  {
    if x < 40.0 then High
    else if x < 60.0 then Medium
    else Low
  }

  /** A larger biodiversity index never yields a higher risk. */
  lemma BiodiversityRiskMonotone(x: real, y: real)
    requires x <= y
    ensures RiskRank(BiodiversityRisk(y)) <= RiskRank(BiodiversityRisk(x))
  {
  }

  /** The high band is exactly the range the advisory rule flags for conservation. */
  lemma HighRiskIsConservationRange(x: real)
    ensures BiodiversityRisk(x) == High <==> x < BiodiversityThreshold
  {
  }

  /** The three labels are distinct. */
  lemma RiskNameIdentifiesRisk(a: Risk, b: Risk)
    ensures RiskName(a) == RiskName(b) <==> a == b
  {
    if a != b {
      assert |RiskName(a)| != |RiskName(b)|;
    }
  }

  /** `invasive_flag`: 1 when the flag lower-cases to "yes", otherwise 0. */
  function InvasiveFlagBit(flag: string): (b: int)
    ensures b == 0 || b == 1
    ensures b == 1 <==> IsYes(flag)
  {
    if IsYes(flag) then 1 else 0
  }

  /** The bit is set exactly when the advisory rule reports the invasive status, whatever the
      stock and biodiversity. */
  lemma InvasiveFlagBitMatchesStatus(flag: string, stock: Level, bio: real)
    ensures InvasiveFlagBit(flag) == 1 <==> Decide(IsYes(flag), stock, bio) == Invasive
  {
  }
}
