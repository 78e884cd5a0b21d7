/** Lookup tables that turn a status into what the user sees: the recommendation label and
    text/background classes of the data table, the Fisherman's Compass verdict, popup, marker
    colour and badge, and the Ocean Map marker colour. */
module Presentation {
  import opened Text
  import opened Records
  import opened Advisory

  /** The label `getRecommendation` shows for a status. */
  function RecommendationLabel(s: Status): string
  {
    match s
    case Invasive => "INVASIVE SPECIES RISK: Rapid Response Advised"
    case Ban => "RESTRICTED ZONE: Policy Intervention Recommended"
    case Conserve => "CONSERVATION PRIORITY: Biodiversity Support Required"
    case Ok => "AUTHORIZED: Sustainable Operations"
  }

  /** `getRecommendation(row)`: the label of the row's status, so each label is shown for
      exactly the rows the status rule puts in its class. */
  function GetRecommendation(o: Observation): (shown: string)
    ensures shown == RecommendationLabel(Invasive) <==> FlagSet(o)
    ensures shown == RecommendationLabel(Ban) <==>
      !FlagSet(o) && o.fishStock.Some? && o.fishStock.value < StockBanThreshold
    ensures shown == RecommendationLabel(Conserve) <==>
      && !FlagSet(o)
      && (o.fishStock.None? || o.fishStock.value >= StockBanThreshold)
      && o.biodiversity < BiodiversityThreshold
    ensures shown == RecommendationLabel(Ok) <==>
      && !FlagSet(o)
      && (o.fishStock.None? || o.fishStock.value >= StockBanThreshold)
      && o.biodiversity >= BiodiversityThreshold
  {
    RecommendationLabelLength(AlertStatus(o));
    RecommendationLabelLength(Invasive);
    RecommendationLabelLength(Ban);
    RecommendationLabelLength(Conserve);
    RecommendationLabelLength(Ok);
    RecommendationLabel(AlertStatus(o))
  }

  /** The recommendation depends on the row only through its status, and the four labels are
      distinct, so the label tells the status back. */
  lemma RecommendationIdentifiesStatus(a: Observation, b: Observation)
    ensures GetRecommendation(a) == GetRecommendation(b) <==> AlertStatus(a) == AlertStatus(b)
  {
    RecommendationLabelLength(AlertStatus(a));
    RecommendationLabelLength(AlertStatus(b));
  }

  /** The labels have four different lengths. */
  lemma RecommendationLabelLength(s: Status)
    ensures |RecommendationLabel(s)| == match s case Invasive => 45 case Ban => 48 case Conserve => 52 case Ok => 34
  {
  }

  /** The three visual tiers the styling distinguishes: ban and conserve share one. */
  datatype Tier = Critical | Warning | Clear

  function TierOf(s: Status): Tier
  {
    match s
    case Invasive => Critical
    case Ban => Warning
    case Conserve => Warning
    case Ok => Clear
  }

  /** `colorForStatus`: the text colour class of a status: red for the critical tier, amber
      for the warning tier, emerald otherwise. */
  function ColorForStatus(s: Status): (c: string)
    ensures c == "text-red-300" <==> TierOf(s) == Critical
    ensures c == "text-amber-300" <==> TierOf(s) == Warning
    ensures c == "text-emerald-300" <==> TierOf(s) == Clear
  {
    if s == Invasive then "text-red-300"
    else if s == Ban then "text-amber-300"
    else if s == Conserve then "text-amber-300"
    else "text-emerald-300"
  }

  /** `bgForStatus`: the background class of a status, by tier like the text colour. */
  function BgForStatus(s: Status): (c: string)
    ensures c == "bg-red-900/30" <==> TierOf(s) == Critical
    ensures c == "bg-amber-900/30" <==> TierOf(s) == Warning
    ensures c == "bg-emerald-900/30" <==> TierOf(s) == Clear
  {
    if s == Invasive then "bg-red-900/30"
    else if s == Ban then "bg-amber-900/30"
    else if s == Conserve then "bg-amber-900/30"
    else "bg-emerald-900/30"
  }

  /** Two statuses get the same text class, and the same background class, exactly when they
      are in the same tier. */
  lemma StatusClassesFollowTier(a: Status, b: Status)
    ensures ColorForStatus(a) == ColorForStatus(b) <==> TierOf(a) == TierOf(b)
    ensures BgForStatus(a) == BgForStatus(b) <==> TierOf(a) == TierOf(b)
  {
    if TierOf(a) != TierOf(b) {
      assert ColorForStatus(a)[5] != ColorForStatus(b)[5];
      assert BgForStatus(a)[3] != BgForStatus(b)[3];
    }
  }

  /** The compass verdict: a colour name, a headline and a description. */
  datatype Verdict = Verdict(color: string, text: string, desc: string)

  /** `verdictForStatus`: the two most severe statuses say "avoid", conserve says "caution",
      ok says "fish here". */
  function VerdictForStatus(s: Status): (v: Verdict)
    ensures v.text == "AVOID THIS ZONE" <==> Severity(s) >= Severity(Ban)
    ensures v.text == "AVOID THIS ZONE" ==> v.color == "red"
    ensures v.text == "PROCEED WITH CAUTION" <==> s == Conserve
    ensures v.text == "PROCEED WITH CAUTION" ==> v.color == "amber"
    ensures v.text == "FISH HERE SAFELY" <==> s == Ok
    ensures v.text == "FISH HERE SAFELY" ==> v.color == "green"
  {
    if s == Invasive then Verdict("red", "AVOID THIS ZONE", "Elevated ecological risk and low expected return.")
    else if s == Ban then Verdict("red", "AVOID THIS ZONE", "Restricted zone. Policy intervention recommended.")
    else if s == Conserve then Verdict("amber", "PROCEED WITH CAUTION", "Conservation priority area. Returns may be limited.")
    else Verdict("green", "FISH HERE SAFELY", "Favourable conditions for sustainable operations.")
  }

  /** The compass popup: a title and the expected benefit. */
  datatype Popup = Popup(title: string, benefit: string)

  /** `popupForStatus`: the popup of a status. Exactly the two most severe statuses get a
      title beginning with "Restricted" and a benefit line warning of a low return. */
  function PopupForStatus(s: Status): (p: Popup)
    ensures StartsWith(p.title, "Restricted") <==> Severity(s) >= Severity(Ban)
    ensures StartsWith(p.benefit, "Low ") <==> Severity(s) >= Severity(Ban)
  {
    if s == Invasive then
      StartsWithAppend("Restricted", ": Invasive Species Risk");
      StartsWithAppend("Low ", "expected yield; ecological harm likely.");
      Popup("Restricted" + ": Invasive Species Risk", "Low " + "expected yield; ecological harm likely.")
    else if s == Ban then
      StartsWithAppend("Restricted", " Zone: Policy Intervention");
      StartsWithAppend("Low ", "stock levels; avoid operational losses.");
      Popup("Restricted" + " Zone: Policy Intervention", "Low " + "stock levels; avoid operational losses.")
    else if s == Conserve then
      var p := Popup("Conservation Priority", "Proceed cautiously; " + "expected returns are limited.");
      NotStartsWith(p.title, "Restricted");
      NotStartsWith(p.benefit, "Low ");
      p
    else
      var p := Popup("Authorized: Sustainable Operations", "Favourable conditions; " + "efficient effort expected.");
      NotStartsWith(p.title, "Restricted");
      NotStartsWith(p.benefit, "Low ");
      p
  }

  /** Different statuses get different popups. */
  lemma PopupIdentifiesStatus(a: Status, b: Status)
    ensures PopupForStatus(a) == PopupForStatus(b) <==> a == b
  {
    PopupTitleLength(a);
    PopupTitleLength(b);
  }

  /** The popup titles have four different lengths. */
  lemma PopupTitleLength(s: Status)
    ensures |PopupForStatus(s).title| == match s case Invasive => 33 case Ban => 36 case Conserve => 21 case Ok => 34
  {
  }

  /** `colorFor`: the compass marker colour name of a row. */
  function MarkerColor(o: Observation): (c: string)
    ensures c == "red" <==> TierOf(AlertStatus(o)) == Critical
    ensures c == "yellow" <==> TierOf(AlertStatus(o)) == Warning
    ensures c == "green" <==> TierOf(AlertStatus(o)) == Clear
  {
    var status := AlertStatus(o);
    if status == Invasive then "red"
    else if status == Ban || status == Conserve then "yellow"
    else "green"
  }

  /** The marker fill the compass derives from a colour name. */
  function MarkerHex(c: string): string
  {
    if c == "red" then "#b91c1c" else if c == "yellow" then "#b45309" else "#065f46"
  }

  /** `getColor` on the Ocean Map: reads the row's fields directly. A missing flag is never
      red (optional chaining yields `undefined`), and a missing stock index is never low. */
  function OceanMapColor(o: Observation): (hex: string)
    ensures hex == "#b91c1c" <==> o.invasiveFlag.Some? && IsYes(o.invasiveFlag.value)
    ensures hex == "#b45309" <==>
      && !(o.invasiveFlag.Some? && IsYes(o.invasiveFlag.value))
      && ((o.fishStock.Some? && o.fishStock.value < 30.0) || o.biodiversity < 40.0)
    ensures o.invasiveFlag.None? ==> hex != "#b91c1c"
  {
    if o.invasiveFlag.Some? && IsYes(o.invasiveFlag.value) then "#b91c1c"
    else if (o.fishStock.Some? && o.fishStock.value < 30.0) || o.biodiversity < 40.0 then "#b45309"
    else "#065f46"
  }

  /** The Ocean Map and the compass paint every row alike: the map's field-level rule gives
      the fill the compass derives from the row's status tier. */
  lemma OceanMapMatchesCompass(o: Observation)
    ensures OceanMapColor(o) == MarkerHex(MarkerColor(o))
  {
    if o.invasiveFlag.None? {
      assert !IsYes("");
    }
  }

  /** The compass badge: the word in the ring and the ring's style. */
  datatype Badge = Badge(word: string, ring: string)

  /** The badge as the compass renders it: it tests the verdict colour against "green" and
      "yellow", but verdicts are coloured "red", "amber" or "green". */
  function BadgeAsWritten(v: Verdict): Badge
  {
    if v.color == "green" then Badge("SAFE", "border-green-400 text-green-300")
    else if v.color == "yellow" then Badge("CAUTION", "border-yellow-400 text-yellow-300")
    else Badge("STOP", "border-red-400 text-red-300")
  }

  /** No verdict ever reaches the "CAUTION" branch: a conserve zone reads "PROCEED WITH
      CAUTION" beside a red "STOP" badge. */
  lemma BadgeAsWrittenContradictsVerdict(s: Status)
    ensures BadgeAsWritten(VerdictForStatus(s)).word != "CAUTION"
    ensures VerdictForStatus(Conserve).text == "PROCEED WITH CAUTION"
    ensures BadgeAsWritten(VerdictForStatus(Conserve)).word == "STOP"
  {
  }

  /** The badge with the colour test the verdicts need: "amber" is the caution colour. */
  function VerdictBadge(v: Verdict): Badge
  {
    if v.color == "green" then Badge("SAFE", "border-green-400 text-green-300")
    else if v.color == "amber" then Badge("CAUTION", "border-yellow-400 text-yellow-300")
    else Badge("STOP", "border-red-400 text-red-300")
  }

  /** With the corrected test the badge agrees with the verdict headline for every status. */
  lemma VerdictBadgeAgrees(s: Status)
    ensures var v := VerdictForStatus(s);
      && (VerdictBadge(v).word == "STOP" <==> v.text == "AVOID THIS ZONE")
      && (VerdictBadge(v).word == "CAUTION" <==> v.text == "PROCEED WITH CAUTION")
      && (VerdictBadge(v).word == "SAFE" <==> v.text == "FISH HERE SAFELY")
  {
  }
}
