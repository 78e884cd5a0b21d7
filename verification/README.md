# GenSea advisory core in Dafny

GenSea is a marine-data platform. It puts one advisory rule chain over oceanographic
observations: an invasive-species flag, a fish stock index and a biodiversity index. The
chain sorts each location into one of four policy statuses, most severe first:

- invasive;
- ban (stock index below 30);
- conserve (biodiversity index below 40);
- ok.

This project models that rule chain and everything the system builds on it:

- `Advisory`: the classifier itself (`getAlertStatus` and the copy inside `buildVerboseReport`).
  - It is stated as "the most severe status whose condition holds".
- `Presentation`: the lookup tables that turn a status into what the user sees.
  - The recommendation label and the text and background classes.
  - The compass verdict, popup, marker colour and badge.
  - The Ocean Map colour.
- `Report`: `buildVerboseReport`, the multi-line advisory shown on the prediction page.
- `Species`: the species-list coercions.
  - The frontend's `normalizeSpecies`.
  - The map-data endpoint's split.
  - The prediction endpoint's join and `predict_rows`' join.
  - The `eDNA_count` feature.
- `Groups`: the group-by-key reducer the dashboard and the heatmap share.
  - Buckets are created in first-appearance order and carry a running sum and count.
  - It is proved against an independent reference: per-key sums and counts, and the distinct keys.
- `Dashboard`: the mean stock per region and the policy-insights reducer.
  - The status counts, the first invasive row and the worst ban and conserve rows.
  - The invasive species tally, the top three species and the headline precedence.
- `Heatmap`: the region × month biodiversity grid.
- `Compass`: the nearest-row search of the Fisherman's Compass.
- `Explorer`: the Data Explorer status filter and column labels.
- `DataUtils`: the backend's required columns and their validation, and the Northern-Indian-Ocean filter.
- `Agent`, `ModelUtils`, `Api`: the backend's copies of the rule.
  - `ai_recommendation`, with its defaults for missing keys.
  - The derived model features.
  - The alert colour and the summary counts of the API endpoints.
- `Text`, `Seqs`, `Wrappers`: the string, sequence and option helpers these rest on.

Data:

- A dataset row with every column present is `Records.Record`.
- A row as the frontend components receive it is `Records.Observation`. In it a missing stock
  index, a missing flag and a list-or-string species field are explicit.
- The backend's row dictionary is `Records.FieldDict`. Its optional keys are `Option`s.

Numbers are Dafny `real`s. Number formatting (`toFixed`), the haversine distance and the
heatmap hue are function parameters.

## Model

| member | source | states |
|---|---|---|
| Advisory.Decide | frontend/src/lib/ai.ts:24-27 | The first-match chain returns a status whose condition holds, and no status with a holding condition is more severe. So the order of the tests is the severity order. |
| Advisory.StockLevel | frontend/src/lib/ai.ts:22 | A missing stock index is read as +infinity, and only a missing one is. |
| Advisory.AlertStatus | frontend/src/lib/ai.ts:20-28 | Each status holds exactly under its own condition. The flag wins over everything. A row without a stock index is never a ban. Ban needs a present stock below 30. Conserve and ok split the remaining rows at biodiversity 40. |
| Advisory.ReportStatus | frontend/src/lib/ai.ts:65-70 | The report's status: invasive on a "yes" flag. Ban exactly when the flag is not set and the predicted stock is below 30. Conserve exactly when the prediction is at least 30 and biodiversity is below 40. |
| Advisory.ReportStatusIsAlertStatus | frontend/src/lib/ai.ts:65-70 | The report's status equals `getAlertStatus` of the same row with the prediction as its stock index. |
| Presentation.RecommendationIdentifiesStatus | frontend/src/lib/ai.ts:30-36 | Two rows get the same recommendation label exactly when they have the same status. The label reveals the status. |
| Presentation.GetRecommendation | frontend/src/lib/ai.ts:30-36 | Each label is shown for exactly the rows meeting its status's condition. The invasive label goes to a flagged row. The restricted label goes to an unflagged row with a stock index below 30. Conserve and authorized split the rest at biodiversity 40. |
| Presentation.ColorForStatus | frontend/src/lib/ai.ts:38-43 | Red text exactly for invasive, amber exactly for ban and conserve, emerald exactly for ok. |
| Presentation.BgForStatus | frontend/src/lib/ai.ts:45-50 | A red background exactly for invasive, amber exactly for ban and conserve, emerald exactly for ok. |
| Presentation.StatusClassesFollowTier | frontend/src/lib/ai.ts:38-50 | Two statuses share a text class, and share a background class, exactly when they are in the same tier: invasive alone, ban with conserve, ok alone. |
| Presentation.VerdictForStatus | frontend/src/components/FishermansCompass.tsx:36-41 | "AVOID THIS ZONE" is shown exactly for the two most severe statuses, in red. "PROCEED WITH CAUTION" is shown exactly for conserve, in amber. "FISH HERE SAFELY" is shown exactly for ok, in green. |
| Presentation.PopupForStatus | frontend/src/components/FishermansCompass.tsx:43-48 | Exactly the invasive and ban popups have a title beginning with "Restricted". Exactly those two have a benefit line beginning "Low ", warning of a low return. |
| Presentation.PopupIdentifiesStatus | frontend/src/components/FishermansCompass.tsx:43-48 | Different statuses give different popups. |
| Presentation.MarkerColor | frontend/src/components/FishermansCompass.tsx:94-104 | A marker is red, yellow or green exactly when the row's status is in the critical, warning or clear tier, respectively. |
| Presentation.OceanMapColor | frontend/src/components/OceanMap.tsx:17-21 | The map reads the fields directly. It paints red exactly for a present "yes" flag, amber exactly for an unflagged row with low stock or low biodiversity, and emerald otherwise. A missing flag is never red. |
| Presentation.OceanMapMatchesCompass | frontend/src/components/FishermansCompass.tsx:146-147 | For every row with a numeric or absent stock index, the Ocean Map's field-level rule and the compass's status-based marker fill give the same colour. |
| Presentation.BadgeAsWrittenContradictsVerdict | frontend/src/components/FishermansCompass.tsx:115-116 | As written, the badge never shows "CAUTION". A conserve zone reads "PROCEED WITH CAUTION" but its badge says "STOP". |
| Presentation.VerdictBadgeAgrees | frontend/src/components/FishermansCompass.tsx:115-116 | With "amber" as the caution colour, the badge word agrees with the verdict headline for every status. |
| Report.StatusTextIdentifiesStatus | frontend/src/lib/ai.ts:72-76 | The four headline wordings are pairwise distinct, so the headline names the status. |
| Report.SpeciesTextPlaceholder | frontend/src/lib/ai.ts:78 | "None detected" appears exactly for an empty list or a list holding one empty name. Every other list is shown joined with ", ". |
| Report.Justification | frontend/src/lib/ai.ts:80-87 | For every status, the first three lines report the predicted stock, the biodiversity index with its risk class, and the temperature with the salinity. A fourth line naming the rule is added exactly when the status is ban, conserve or invasive, and it is that status's reason. |
| Report.SpeciesRiskMatchesStatus | frontend/src/lib/ai.ts:100-104 | The species-risk line reads only the flag. It still reports a risk exactly when the report's status is invasive. |
| Report.ReportLines | frontend/src/lib/ai.ts:106-117 | The report has twelve lines when the status is ok and thirteen otherwise, because of one extra justification bullet. The first line is the headline naming the region and the status. The last line is the species-risk line. |
| Report.BuildVerboseReport | frontend/src/lib/ai.ts:106-117 | The report text is exactly the report's lines joined with line breaks. The inner `"\n- "` join of the justification contributes one bullet line per entry. |
| Report.ReportSplitsIntoLines | frontend/src/lib/ai.ts:106-117 | Round trip: when no line contains a line break, splitting the report at line breaks gives back exactly its lines. |
| Species.TrimmedPieces | frontend/src/lib/ai.ts:12-14 | There is one piece per comma-separated field. Each piece is empty or a clean name. |
| Species.SplitNames | frontend/src/lib/ai.ts:12-15 | The names kept are exactly the non-empty trimmed pieces, in order. Each non-empty piece is kept as many times as it occurs. Each name is a clean name: non-empty, comma-free, untrimmable. |
| Species.NormalizeSpecies | frontend/src/lib/ai.ts:9-16 | A falsy field gives no names. A list passes unchanged. A string gives clean names: its non-empty trimmed comma pieces, in order and each as many times as it occurs. |
| Species.NormalizeJoinRoundTrip | frontend/src/lib/ai.ts:12-15 | Round trip: joining clean names with "," and normalising the string gives back the same names. |
| Species.MapDataSpecies | backend/app/main.py:100-102 | A missing key gives the empty list. A non-string value passes through. A string becomes its non-empty stripped comma pieces, in order and each as many times as it occurs. |
| Species.MapDataAgreesWithNormalize | backend/app/main.py:100-102 | On text where Python's and JavaScript's white-space classes agree, the backend's split gives the same list as the frontend's `normalizeSpecies`. |
| Species.MapDataDivergesOnByteOrderMark | backend/app/main.py:100-102 | The two disagree on a lone byte-order mark. JavaScript trims it to no names; Python keeps it as one name. |
| Species.ModelSpeciesText | backend/app/utils_model.py:134-137 | A string stays as it is. Any other value becomes "". A non-empty list of comma-free names becomes a text whose comma pieces are those names. |
| Species.EndpointSpecies | backend/app/main.py:164-165 | The endpoint turns a list into the string of its items joined with ",", and leaves every other value alone. |
| Species.EndpointThenModel | backend/app/main.py:164-165 | The endpoint's pre-join followed by `predict_rows`' coercion gives the same text as the coercion alone. |
| Species.EdnaCount | backend/app/utils_model.py:32 | The count is 0 exactly for a missing or empty cell. Otherwise it is the number of comma-separated pieces. |
| Species.EdnaCountOfJoin | backend/app/utils_model.py:32 | Counting the joined text of a list of comma-free names gives the list's length. This holds for every list except the single empty name. |
| Species.NormalizeWithinEdnaCount | backend/app/utils_model.py:32 | The frontend never finds more species names in a text than the backend's count. |
| Groups.KeyCountPositive | frontend/src/components/Dashboard.tsx:24-26 | A key gets a bucket with a positive count exactly when it occurs. A key that never occurs contributes sum 0. |
| Groups.AddAllAppend | frontend/src/components/Dashboard.tsx:23-27 | Filing two runs of values one after the other is the same as filing their concatenation. |
| Groups.AddToSummarises | frontend/src/components/Dashboard.tsx:24-26 | Filing one more value keeps the buckets an exact summary: the distinct keys in first-appearance order, each with its sum and count. |
| Groups.AddAllSummarises | frontend/src/components/Dashboard.tsx:23-27 | Filing a whole run of values keeps the summary exact. |
| Groups.AccumulateSummarises | frontend/src/components/Dashboard.tsx:22-28 | From an empty object, the buckets are one per distinct key, in first-appearance order. Each carries that key's total and a positive count. |
| Groups.Lookup | frontend/src/components/BiodiversityHeatmap.tsx:31 | A key is found exactly when it has a bucket, and the bucket found belongs to that key. |
| Dashboard.StockByRegion | frontend/src/components/Dashboard.tsx:21-29 | There is one entry per distinct region, in first-appearance order. Each carries the mean stock index over exactly that region's rows. |
| Dashboard.FirstInvasiveStep | frontend/src/components/Dashboard.tsx:53 | The `??` keeps the first invasive row seen, so after each row the pick is the earliest invasive row so far. |
| Dashboard.WorstStep | frontend/src/components/Dashboard.tsx:56-62 | The replace-on-strictly-smaller scan keeps as its pick the lowest-key matching row so far, and the earliest among equal keys. |
| Dashboard.InsertByCountPermutes | frontend/src/components/Dashboard.tsx:77 | One insertion step of the sort adds the element and loses nothing. |
| Dashboard.InsertByCountStable | frontend/src/components/Dashboard.tsx:77 | Among the buckets of any one count, one insertion step puts the new bucket after those already there. |
| Dashboard.SortByCount | frontend/src/components/Dashboard.tsx:76-77 | The sorted tally is in non-increasing count order and is a permutation of the tally. The sort is stable: for every count, the buckets with that count keep their tally order. |
| Dashboard.TopSpecies | frontend/src/components/Dashboard.tsx:76-78 | The list holds three entries, or every entry when the tally has fewer than three. They are in non-increasing count order, and together they form a sub-multiset of the tally. For every count, the entries with that count are the first buckets of that count in the tally, in tally order. |
| Dashboard.TopSpeciesAreMostFrequent | frontend/src/components/Dashboard.tsx:76-78 | No species left out of the top list is more frequent than any species in it. |
| Dashboard.TopSpeciesTieOrder | frontend/src/components/Dashboard.tsx:76-78 | Ties go to the first-encountered species: a bucket left out of the list with the same count as an entry comes after that entry in the tally. |
| Dashboard.Percent | frontend/src/components/Dashboard.tsx:86-88 | The rounded percentage lies in 0..100. It is 0 for no rows and 100 for all rows. |
| Dashboard.StepTallies | frontend/src/components/Dashboard.tsx:43-63 | One `forEach` iteration keeps every counter exact for the rows seen so far. |
| Dashboard.Tally | frontend/src/components/Dashboard.tsx:31-92 | The `insights` reducer: the three status counts equal the number of rows with each status, and they add up to at most the number of rows. Each percentage is the rounded share of its count in `total`, so it lies in 0..100. The first-invasive and worst-ban/worst-conserve picks are the rows the scan specifies. The species tally is the exact per-species count over the invasive rows. `total` is the row count, or 1 for an empty table. |
| Dashboard.ChooseHeadline | frontend/src/components/Dashboard.tsx:65-74 | The headline follows the precedence of the picks: invasive when an invasive row was picked, else ban when a worst-ban row was, else conserve, else sustainable. Each alert cites the picked row's region. The ban and conserve alerts also cite its stock or biodiversity value. |
| Dashboard.HeadlinePrecedence | frontend/src/components/Dashboard.tsx:65-74 | The headline cites an invasive row exactly when one exists. It cites a ban row exactly when there is no invasive row but some ban row. Conserve follows likewise. The sustainable message appears exactly when every row is ok. |
| Heatmap.MonthKey | frontend/src/components/BiodiversityHeatmap.tsx:17 | The month is the date's first seven characters, or the whole date when it is shorter. |
| Heatmap.HeatRegions | frontend/src/components/BiodiversityHeatmap.tsx:25 | The regions are listed without repeats, exactly those of the rows, in order of first appearance. |
| Heatmap.HeatMonths | frontend/src/components/BiodiversityHeatmap.tsx:26 | The months are strictly ascending and exactly those of the rows. |
| Heatmap.HeatMonthsUnique | frontend/src/components/BiodiversityHeatmap.tsx:26 | Any strictly ascending listing of exactly the rows' months is the heatmap's month list. |
| Heatmap.Grid | frontend/src/components/BiodiversityHeatmap.tsx:27-34 | The grid has one row per listed region and one column per listed month. |
| Heatmap.GridCell | frontend/src/components/BiodiversityHeatmap.tsx:27-34 | A cell is empty exactly when no row has its region and month. Otherwise it holds the mean biodiversity over exactly those rows. |
| Heatmap.EmptyCellIsGray | frontend/src/components/BiodiversityHeatmap.tsx:3-4 | A cell that no row falls in is painted gray. |
| Heatmap.GridAsWrittenCell | frontend/src/components/BiodiversityHeatmap.tsx:20-32 | As written, a cell is empty exactly when no row's bar-joined key equals the cell's. Otherwise it holds the mean over every row with that key. |
| Heatmap.BarKeysCollide | frontend/src/components/BiodiversityHeatmap.tsx:20 | Two different (region, month) cells can share one bar-joined key: region "a\|b" with month "c", and region "a" with month "b\|c". |
| Heatmap.BarKeyCollisionNeedsBars | frontend/src/components/BiodiversityHeatmap.tsx:20 | Two different (region, month) cells share a bar-joined key only if one of the two regions and one of the two months contain a bar. |
| Heatmap.GridAsWrittenIsGrid | frontend/src/components/BiodiversityHeatmap.tsx:14-34 | When no row's region contains a bar, or no row's month does, the grid as written equals the pair-keyed grid, whose cells are the means of exactly their own rows. |
| Heatmap.BarKeyMergesRows | frontend/src/components/BiodiversityHeatmap.tsx:20-32 | Take a row in region "a\|b" for month "c" and a row in region "a" for month "b\|c". The bar-joined key files both rows in one bucket: count 2, sum 60. The pair-keyed cell ("a", "b\|c") holds only its own row: count 1, sum 50. |
| Compass.FindNearest | frontend/src/components/FishermansCompass.tsx:69-87 | No answer exactly for an empty table. Otherwise the answer is a row no farther from the centre than any other, and strictly nearer than every earlier row. It comes with its distance and its status. |
| Compass.EarliestNearestUnique | frontend/src/components/FishermansCompass.tsx:73-79 | Only one row is the earliest nearest, so the scan's answer is determined by the rows. |
| Compass.TieGoesToFirstRow | frontend/src/components/FishermansCompass.tsx:75 | With the strict comparison, when all rows are equally far the first row wins. |
| Explorer.FilterRows | frontend/src/components/DataExplorer.tsx:64-75 | "all" shows the table unchanged. A status choice shows exactly the rows of that status, in table order. |
| Explorer.StatusViewsPartition | frontend/src/components/DataExplorer.tsx:64-75 | The four single-status views split the table: their sizes add up to the table's size. |
| Explorer.HeaderLabelsCoverRequiredColumns | frontend/src/components/DataExplorer.tsx:13-27 | The columns with a label of their own are exactly the dataset's required columns. Each of them is shown under a label different from its key. Every other column shows its key. |
| DataUtils.FilterNorthernIndianOcean | backend/app/utils_data.py:141-165 | The kept rows come in original order and lie in a listed region inside the box: latitude 0..30 and longitude 50..100, bounds included. Every such row is kept. |
| DataUtils.FilterIsOneStep | backend/app/utils_data.py:161-164 | The region pre-filter followed by the box filter is one filter on both conditions. |
| DataUtils.FilterNorthernIndianOceanIdempotent | backend/app/utils_data.py:158-165 | Filtering already-filtered rows changes nothing. |
| DataUtils.ValidateColumns | backend/app/utils_data.py:176-178 | The flag is true exactly when nothing is missing. The missing list holds exactly the required columns absent from the dataset, in the required order. |
| DataUtils.ValidateColumnsOk | backend/app/utils_data.py:176-178 | A dataset validates exactly when it has every required column. |
| Agent.AgentStatus | backend/app/utils_agent.py:4-15 | The same chain over a row dictionary. A missing flag reads "no" and a missing biodiversity reads 0. The stock is the index, else the prediction, else 0. |
| Agent.AlertMessageIdentifiesStatus | backend/app/utils_agent.py:9-15 | The four messages are pairwise distinct, so a message names its status. |
| Agent.AiRecommendation | backend/app/utils_agent.py:4-15 | Each message is returned exactly when its status's condition holds on the row's fields. A missing flag reads "no". The stock is the index, else the prediction, else 0. A missing biodiversity reads 0. |
| Agent.AgentAgreesOnRecords | backend/app/main.py:97-98 | On a dataset row, where every column is present, the backend message reports exactly the status the frontend gives that row. |
| Agent.AgentAgreesWithReport | backend/app/main.py:171-174 | The prediction endpoint's message and the prediction page's report give the same status for the same prediction. |
| Agent.MissingStockDiverges | backend/app/utils_agent.py:5 | The backend reads a missing stock as 0 and the frontend as +infinity. A non-invasive row with healthy biodiversity and no stock is a ban alert on the backend and ok on the frontend. |
| Agent.EmptyDictIsBan | backend/app/utils_agent.py:5-7 | A row dictionary with no keys is a fishing-ban alert. |
| ModelUtils.BiodiversityRisk | backend/app/utils_model.py:20-26 | The class is high exactly below 40, medium exactly on [40, 60), and low exactly from 60. |
| ModelUtils.BiodiversityRiskMonotone | backend/app/utils_model.py:20-26 | A larger biodiversity index never gives a higher risk class. |
| ModelUtils.HighRiskIsConservationRange | backend/app/utils_model.py:20-22 | The high-risk band is exactly the range the rule chain flags for conservation. |
| ModelUtils.RiskNameIdentifiesRisk | backend/app/utils_model.py:20-26 | The three class labels are pairwise distinct. |
| ModelUtils.InvasiveFlagBit | backend/app/utils_model.py:33 | The bit is 0 or 1. It is 1 exactly when the flag lower-cases to "yes". |
| ModelUtils.InvasiveFlagBitMatchesStatus | backend/app/utils_model.py:33 | The bit is 1 exactly when the rule chain reports invasive, whatever the stock and biodiversity. |
| Api.StatusColor | backend/app/main.py:248-252 | Red exactly for a "yes" flag. Yellow exactly for an unflagged row with stock below 30 or biodiversity below 40. Green exactly for the rest. |
| Api.StatusColorFollowsTier | backend/app/main.py:248-252 | The alert colour is the tier of the row's status: red for invasive, yellow for ban and conserve, green for ok. |
| Api.StatusColorMatchesOceanMap | backend/app/main.py:248-252 | The backend alert colour and the Ocean Map marker agree on every dataset row. |
| Api.ApiSummary | backend/app/main.py:214-234 | `{"count": 0}` appears exactly when the filter keeps no rows. Otherwise the count is the number of kept rows. Each alert count is the number of kept rows meeting its condition: stock below 30, biodiversity below 40, flag "yes". |
| Api.SummaryDecomposesTally | backend/app/main.py:223-225 | The invasive count equals the dashboard's invasive tally over the same rows. The restricted count is the dashboard's ban tally plus the invasive rows with stock below 30. The conservation count is the conserve tally plus the invasive and ban rows with biodiversity below 40. |
| Api.SummaryCountsRowTwice | backend/app/main.py:223-225 | One invasive row with low stock counts both as an invasive-species risk and as a restricted zone. The dashboard counts it as invasive only. |

## Left out

- The haversine distance (`FishermansCompass.tsx:15-24`) is a parameter `dist` of the nearest-row search. Only its use in the scan is modelled.
- Number formatting is not modelled:
  - `toFixed` is the parameter `fmt` or `fmt0`.
  - The heatmap's `Math.round` hue is the parameter `hue`.
  - `Dashboard.Percent` models `Math.round` as round-half-up on exact reals.
- Floating point: every index and mean is an exact `real`. Rounding error, NaN and `Number(...)` / `float(...)` coercion of non-numeric cells are not modelled.
- JavaScript objects enumerate integer-like keys before the others. The reducers in `Groups` assume insertion order for every key. A region or species named like a non-negative integer would be listed in a different order by the source.
- Prototype keys are not modelled:
  - A region or species named after an `Object.prototype` member, such as "constructor", is not modelled.
  - `headerLabel` of "toString" is not modelled.
- Strings are sequences of code points. JavaScript's default `sort` of the heatmap months compares UTF-16 code units; the two orders differ only between astral and high-BMP characters.
- Lower-casing is ASCII only. For the comparison with "yes" this is taken as exact: no non-ASCII character lower-cases to "y", "e" or "s".
- Reading the CSV, generating the synthetic dataset, pandas data-frame plumbing, the `limit`/`head` row cap, HTTP, API keys and response models are not modelled.
- Model training and prediction are not modelled. The predicted stock and risk class are inputs to the report and to the prediction endpoint's message.
- The React rendering is not modelled: tables, maps, charts and the `.map`/`.slice(0, 200)` display slices.
- The compass rows pass through `Number(...)` and `String(...)` conversions into `SimpleRow`. The model takes them as `Observation`s directly.
- The dashboard and the heatmap read dataset rows in which every column is present (`Record`). The frontend-only reading of a missing stock as +infinity is modelled for `Observation`s.
- A `null` stock index is not modelled. `Observation.fishStock` is `None` only for an absent key. The three components read a null index differently:
  - `getAlertStatus` reads it as +infinity through `??` (frontend/src/lib/ai.ts:22), so it is never a ban.
  - The Ocean Map compares `null < 30` as true and paints amber (frontend/src/components/OceanMap.tsx:19).
  - The compass converts it with `Number` to 0 (frontend/src/components/FishermansCompass.tsx:61), so it is a ban.
- Presentation.OceanMapMatchesCompass: holds for numeric and absent stock indices only. On a `null` index the Ocean Map and the compass disagree, as above.
- Agent.AgentAgreesWithReport: compares the endpoint's message with a report built from the same prediction. The prediction page builds its report from a copy of the prediction moved by a random amount of up to 3% (frontend/src/components/Prediction.tsx:61-62,87). Near the thresholds, the page's report can name a different status from the endpoint's message. The random jitter is not modelled.
- Report.ReportSplitsIntoLines: takes as a premise that no line contains a line break. A region name, species name or formatted number containing "\n" would add lines.
- Dashboard.TopSpecies: the `${s} (${n})` text of each entry is not modelled. The entries are the (species, count) buckets.
- Api.ApiSummary: the two means are defined as column sum over row count but are not characterised further.
- `api_ai_alerts` beyond its per-row colour (its record fields and the `limit`) is not modelled.

## Findings

| source | as written | input that shows it | evidently intended | confidence | as-written member | corrected member |
|---|---|---|---|---|---|---|
| frontend/src/components/FishermansCompass.tsx:115-116 | The badge tests the verdict colour against "yellow", but the conserve verdict's colour is "amber" (line 39). | The nearest row has status conserve: the headline reads "PROCEED WITH CAUTION" and the badge reads "STOP". | Test against "amber", so a conserve zone shows "CAUTION". | high; not executed | Presentation.BadgeAsWritten | Presentation.VerdictBadge |
| frontend/src/components/BiodiversityHeatmap.tsx:20-32 | A cell's bucket is keyed by `region + '\|' + month`, which different (region, month) pairs can share. | A row in region "a\|b" for month "c" and a row in region "a" for month "b\|c": both cells show the mean 30 of the two rows. | Key the bucket by the (region, month) pair, so each cell averages only its own rows. | low (needs some region and some month containing a bar); not executed | Heatmap.GridAsWritten | Heatmap.Grid |
