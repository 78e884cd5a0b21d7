/** `buildVerboseReport`: the multi-line advisory the prediction page shows for a submitted
    observation, built from the predicted stock index and biodiversity risk class. */
module Report {
  import opened Text
  import opened Advisory

  /** The form fields the report reads. */
  datatype ReportInput = ReportInput(
    region: string,
    seaTemperature: real,
    salinity: real,
    biodiversity: real,
    species: seq<string>,
    invasiveFlag: string)

  /** The headline wording of each status. */
  function StatusText(s: Status): string
  {
    match s
    case Invasive => "HIGH RISK: INVASIVE SPECIES – RAPID RESPONSE"
    case Ban => "RESTRICTED ZONE – POLICY INTERVENTION RECOMMENDED"
    case Conserve => "CONSERVATION PRIORITY – BIODIVERSITY SUPPORT"
    case Ok => "AUTHORIZED OPERATIONS – SUSTAINABLE FISHERIES"
  }

  /** The four headline wordings are distinct, so the headline names the status. */
  lemma StatusTextIdentifiesStatus(a: Status, b: Status)
    ensures StatusText(a) == StatusText(b) <==> a == b
  {
    StatusTextEnds(a);
    StatusTextEnds(b);
  }

  /** The headline wordings differ in length or, for the two of equal length, in their last
      letter. */
  lemma StatusTextEnds(s: Status)
    ensures |StatusText(s)| == match s case Invasive => 44 case Ban => 49 case Conserve => 44 case Ok => 45
    ensures StatusText(s)[|StatusText(s)| - 1] == match s case Invasive => 'E' case Ban => 'D' case Conserve => 'T' case Ok => 'S'
  {
  }

  /** A join is empty exactly for no items or one empty item. */
  lemma JoinEmpty(xs: seq<string>, sep: string)
    requires |sep| > 0
    ensures Join(xs, sep) == "" <==> xs == [] || xs == [""]
  {
    if |xs| >= 2 {
      assert |Join(xs, sep)| >= |sep|;
    }
  }

  /** `species.join(', ') || 'None detected'`. */
  function SpeciesText(species: seq<string>): string
  {
    var joined := Join(species, ", ");
    if joined == "" then "None detected" else joined
  }

  /** The placeholder appears for an empty list and for a list holding one empty name; any
      other list is shown joined. */
  lemma SpeciesTextPlaceholder(species: seq<string>)
    ensures species == [] || species == [""] ==> SpeciesText(species) == "None detected"
    ensures species != [] && species != [""] ==> SpeciesText(species) == Join(species, ", ")
  {
    JoinEmpty(species, ", ");
  }

  const BanReason: string := "This falls below the 30-point threshold for a fishing ban."
  const ConserveReason: string := "Biodiversity Index is below 40, triggering a conservation recommendation."
  const InvasiveReason: string := "Invasive species flag is set, elevating risk regardless of other indicators."

  /** The line appended to the justification for a status, if any. */
  function ReasonLines(s: Status): seq<string>
  {
    match s
    case Ban => [BanReason]
    case Conserve => [ConserveReason]
    case Invasive => [InvasiveReason]
    case Ok => []
  }

  /** The three bullets that report the measurements: the predicted stock index, the
      biodiversity index with its predicted risk class, and the temperature and salinity.
      `fmt` stands for `toFixed(1)`. */
  function MeasurementLines(input: ReportInput, fishPred: real, riskPred: string, fmt: real -> string): (m: seq<string>)
    ensures |m| == 3
  {
    [ "Fish Stock Index is predicted at " + fmt(fishPred) + ".",
      "Biodiversity Index provided is " + fmt(input.biodiversity) + " (risk class: " + riskPred + ").",
      "Sea Temperature " + fmt(input.seaTemperature) + "°C and Salinity " + fmt(input.salinity)
        + " ppt provide the environmental context." ]
  }

  /** The justification bullets: the three measurement lines, then the line naming the rule
      that fired. */
  function Justification(input: ReportInput, fishPred: real, riskPred: string, fmt: real -> string): (j: seq<string>)
    ensures StartsWith(j, MeasurementLines(input, fishPred, riskPred, fmt))
    ensures var status := ReportStatus(input.invasiveFlag, fishPred, input.biodiversity);
      && (|j| == 3 <==> status == Ok)
      && (|j| == 3 || |j| == 4)
      && (|j| == 4 && j[3] == BanReason <==> !IsYes(input.invasiveFlag) && fishPred < StockBanThreshold)
      && (|j| == 4 && j[3] == ConserveReason <==>
            !IsYes(input.invasiveFlag) && fishPred >= StockBanThreshold && input.biodiversity < BiodiversityThreshold)
      && (|j| == 4 && j[3] == InvasiveReason <==> IsYes(input.invasiveFlag))
  {
    var status := ReportStatus(input.invasiveFlag, fishPred, input.biodiversity);
    assert |BanReason| != |ConserveReason| && |BanReason| != |InvasiveReason|
        && |ConserveReason| != |InvasiveReason|;
    MeasurementLines(input, fishPred, riskPred, fmt) + ReasonLines(status)
  }

  /** The proactive recommendation paragraph of each status. */
  function Recommendation(s: Status): string
  {
    match s
    case Invasive => "Initiate rapid response protocols: targeted removal operations, heightened surveillance, and temporary activity controls. Notify coastal authorities and fishing cooperatives."
    case Ban => "Enact a time-bound fishing restriction (e.g., 6 months) to facilitate stock recovery. Implement enforcement patrols and publish guidance to fleets."
    case Conserve => "Designate a conservation priority zone with selective-gear measures and bycatch mitigation. Increase eDNA sampling frequency and habitat monitoring."
    case Ok => "Proceed under sustainable quotas with periodic review. Maintain routine eDNA sampling and compliance checks."
  }

  /** The species-risk line: it reads the flag only, not the status. */
  function SpeciesRisk(invasiveFlag: string, species: seq<string>): string
  {
    var opening := if IsYes(invasiveFlag) then "Invasive species risk present" else "No invasive species flagged";
    opening + ". eDNA indicates: " + SpeciesText(species) + "."
  }

  /** Although computed from the flag alone, the species-risk line reports a risk exactly when
      the report's status is the invasive one. */
  lemma SpeciesRiskMatchesStatus(input: ReportInput, fishPred: real)
    ensures StartsWith(SpeciesRisk(input.invasiveFlag, input.species), "Invasive species risk present")
        <==> ReportStatus(input.invasiveFlag, fishPred, input.biodiversity) == Invasive
  {
    var tail := ". eDNA indicates: " + SpeciesText(input.species) + ".";
    if IsYes(input.invasiveFlag) {
      StartsWithAppend("Invasive species risk present", tail);
    } else {
      var r := SpeciesRisk(input.invasiveFlag, input.species);
      assert r == "No invasive species flagged" + tail;
      assert r[..29] == "No invasive species flagged" + tail[..2];
      assert r[..29][27..] == tail[..2];
      assert "Invasive species risk present"[27..] == "nt";
      assert tail[..2] == ". ";
    }
  }

  /** The headline line. */
  function Headline(region: string, s: Status): string
  {
    "Predicted Status for " + region + ": " + StatusText(s) + "."
  }

  /** The report layout: the sections joined with newlines, the justification as one entry
      whose bullets are themselves joined with a newline and a dash. */
  function Layout(headline: string, j: seq<string>, recommendation: string, risk: string): string
  {
    Join([headline, "", "Justification:", "- " + Join(j, "\n- "),
          "", "Proactive Recommendation:", recommendation,
          "", "Species Risk:", risk], "\n")
  }

  /** Each justification entry as its own bullet line. */
  function Bullets(xs: seq<string>): (r: seq<string>)
    ensures |r| == |xs|
    ensures forall i :: 0 <= i < |xs| ==> r[i] == "- " + xs[i]
  {
    if |xs| == 0 then [] else ["- " + xs[0]] + Bullets(xs[1..])
  }

  /** The same layout as the list of lines a reader sees. */
  function LayoutLines(headline: string, j: seq<string>, recommendation: string, risk: string): (lines: seq<string>)
    ensures |lines| == 9 + |j|
    ensures lines[0] == headline && lines[|lines| - 1] == risk
  {
    [headline, "", "Justification:"] + Bullets(j)
    + ["", "Proactive Recommendation:", recommendation, "", "Species Risk:", risk]
  }

  /** Joining two non-empty lists is joining each and putting one separator between. */
  lemma {:induction false} JoinAppend(a: seq<string>, b: seq<string>, sep: string)
    requires |a| > 0 && |b| > 0
    ensures Join(a + b, sep) == Join(a, sep) + sep + Join(b, sep)
  {
    if |a| == 1 {
      assert (a + b)[1..] == b;
    } else {
      assert (a + b)[1..] == a[1..] + b;
      JoinAppend(a[1..], b, sep);
    }
  }

  /** The dash-joined justification is the newline join of its bullet lines. */
  lemma {:induction false} BulletJoin(xs: seq<string>)
    requires |xs| > 0
    ensures "- " + Join(xs, "\n- ") == Join(Bullets(xs), "\n")
  {
    if |xs| > 1 {
      BulletJoin(xs[1..]);
      assert Bullets(xs)[1..] == Bullets(xs[1..]);
      assert "\n- " == "\n" + "- ";
    }
  }

  /** With a non-empty justification the layout text is its lines joined with newlines. */
  lemma LayoutIsLines(headline: string, j: seq<string>, recommendation: string, risk: string)
    requires |j| > 0
    ensures Layout(headline, j, recommendation, risk) == Join(LayoutLines(headline, j, recommendation, risk), "\n")
  {
    var pre := [headline, "", "Justification:"];
    var post := ["", "Proactive Recommendation:", recommendation, "", "Species Risk:", risk];
    var bullet := "- " + Join(j, "\n- ");
    BulletJoin(j);
    JoinAppend(pre, [bullet] + post, "\n");
    JoinAppend([bullet], post, "\n");
    JoinAppend(pre, Bullets(j) + post, "\n");
    JoinAppend(Bullets(j), post, "\n");
    assert [headline, "", "Justification:", bullet, "", "Proactive Recommendation:", recommendation,
            "", "Species Risk:", risk] == pre + ([bullet] + post);
    assert pre + Bullets(j) + post == pre + (Bullets(j) + post);
  }

  /** `buildVerboseReport`: the report text is its lines joined with newlines. */
  function BuildVerboseReport(input: ReportInput, fishPred: real, riskPred: string, fmt: real -> string): (report: string)
    ensures report == Join(ReportLines(input, fishPred, riskPred, fmt), "\n")
  {
    var status := ReportStatus(input.invasiveFlag, fishPred, input.biodiversity);
    var headline, j := Headline(input.region, status), Justification(input, fishPred, riskPred, fmt);
    var recommendation, risk := Recommendation(status), SpeciesRisk(input.invasiveFlag, input.species);
    LayoutIsLines(headline, j, recommendation, risk);
    Layout(headline, j, recommendation, risk)
  }

  /** The report as the list of lines a reader sees: the headline first, the species-risk line
      last, twelve lines when the status is ok and thirteen otherwise. */
  function ReportLines(input: ReportInput, fishPred: real, riskPred: string, fmt: real -> string): (lines: seq<string>)
    ensures var status := ReportStatus(input.invasiveFlag, fishPred, input.biodiversity);
      && |lines| == (if status == Ok then 12 else 13)
      && lines[0] == Headline(input.region, status)
      && lines[|lines| - 1] == SpeciesRisk(input.invasiveFlag, input.species)
  {
    var status := ReportStatus(input.invasiveFlag, fishPred, input.biodiversity);
    var j := Justification(input, fishPred, riskPred, fmt);
    assert |j| == if status == Ok then 3 else 4;
    LayoutLines(Headline(input.region, status), j, Recommendation(status), SpeciesRisk(input.invasiveFlag, input.species))
  }

  /** When no line holds a line break, splitting the report at line breaks gives back exactly
      its lines. */
  lemma ReportSplitsIntoLines(input: ReportInput, fishPred: real, riskPred: string, fmt: real -> string)
    requires var lines := ReportLines(input, fishPred, riskPred, fmt);
      forall i :: 0 <= i < |lines| ==> '\n' !in lines[i]
    ensures Split(BuildVerboseReport(input, fishPred, riskPred, fmt), '\n') == ReportLines(input, fishPred, riskPred, fmt)
  {
    var lines := ReportLines(input, fishPred, riskPred, fmt);
    assert BuildVerboseReport(input, fishPred, riskPred, fmt) == Join(lines, ['\n']);
    SplitJoin(lines, '\n');
  }
}
