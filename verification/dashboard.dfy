/** The dashboard's reducers over the dataset table: the mean stock index per region and the
    policy insights panel (status counts, the rows the headline cites, the invasive species
    tally and the headline itself). The table holds dataset rows, so every index is present. */
module Dashboard {
  import opened Wrappers
  import opened Seqs
  import opened Records
  import opened Advisory
  import opened Species
  import opened Groups
  import Text

  /** The status `getAlertStatus` gives a dataset row. */
  function RowStatus(r: Record): Status
  {
    AlertStatus(RecordObservation(r))
  }

  predicate IsInvasiveRow(r: Record) { RowStatus(r) == Invasive }
  predicate IsBanRow(r: Record) { RowStatus(r) == Ban }
  predicate IsConserveRow(r: Record) { RowStatus(r) == Conserve }

  function StockOf(r: Record): real { r.fishStock }
  function BiodiversityOf(r: Record): real { r.biodiversity }

  /** Each row's stock index filed under its region. */
  function StockPairs(rows: seq<Record>): (xs: seq<(string, real)>)
    ensures |xs| == |rows|
    ensures forall i :: 0 <= i < |rows| ==> xs[i] == (rows[i].region, rows[i].fishStock)
  {
    seq(|rows|, i requires 0 <= i < |rows| => (rows[i].region, rows[i].fishStock))
  }

  datatype RegionStock = RegionStock(region: string, avgStock: real)

  /** `stockByRegion`: one entry per distinct region in order of first appearance, with the
      mean stock index over exactly that region's rows. */
  function StockByRegion(rows: seq<Record>): (out: seq<RegionStock>)
    ensures |out| == |Distinct(Regions(rows))|
    ensures forall i :: 0 <= i < |out| ==> out[i].region == Distinct(Regions(rows))[i]
    ensures forall i :: 0 <= i < |out| ==>
      && KeyCount(StockPairs(rows), out[i].region) > 0
      && out[i].avgStock == KeySum(StockPairs(rows), out[i].region) / KeyCount(StockPairs(rows), out[i].region) as real
  {
    var pairs := StockPairs(rows);
    var acc := Accumulate(pairs);
    AccumulateSummarises(pairs);
    assert Keys(pairs) == Regions(rows);
    seq(|acc|, i requires 0 <= i < |acc| => RegionStock(acc[i].key, acc[i].sum / acc[i].count as real))
  }

  /** `fi` is the first invasive row among the first `n` rows, if there is one. */
  predicate IsFirstInvasive(rows: seq<Record>, n: nat, fi: Option<nat>)
    requires n <= |rows|
  {
    && (fi.None? <==> forall j :: 0 <= j < n ==> !IsInvasiveRow(rows[j]))
    && (fi.Some? ==>
          && fi.value < n
          && IsInvasiveRow(rows[fi.value])
          && forall j :: 0 <= j < fi.value ==> !IsInvasiveRow(rows[j]))
  }

  /** `w` is, among the first `n` rows, a row satisfying `p` with the least `key`, and the
      earliest of those: the scan replaces its pick only on a strictly smaller key. */
  predicate IsWorst(rows: seq<Record>, n: nat, w: Option<nat>, p: Record -> bool, key: Record -> real)
    requires n <= |rows|
  {
    && (w.None? <==> forall j :: 0 <= j < n ==> !p(rows[j]))
    && (w.Some? ==>
          && w.value < n
          && p(rows[w.value])
          && (forall j :: 0 <= j < n && p(rows[j]) ==> key(rows[w.value]) <= key(rows[j]))
          && (forall j :: 0 <= j < w.value && p(rows[j]) ==> key(rows[w.value]) < key(rows[j])))
  }

  /** The invasive pick after one more row: the row itself if it is the first invasive one. */
  lemma FirstInvasiveStep(rows: seq<Record>, i: nat, fi: Option<nat>)
    requires i < |rows| && IsFirstInvasive(rows, i, fi)
    ensures IsFirstInvasive(rows, i + 1, if fi.None? && IsInvasiveRow(rows[i]) then Some(i) else fi)
  {
  }

  /** The scan's pick after one more row: the row replaces the pick only on a strictly
      smaller key. */
  function NextWorst(rows: seq<Record>, i: nat, w: Option<nat>, p: Record -> bool, key: Record -> real): Option<nat>
    requires i < |rows| && (w.Some? ==> w.value < |rows|)
  {
    if p(rows[i]) && (w.None? || key(rows[i]) < key(rows[w.value])) then Some(i) else w
  }

  lemma WorstStep(rows: seq<Record>, i: nat, w: Option<nat>, p: Record -> bool, key: Record -> real)
    requires i < |rows| && IsWorst(rows, i, w, p, key)
    ensures IsWorst(rows, i + 1, NextWorst(rows, i, w, p, key), p, key)
  {
  }

  /** Each name of a list filed with weight one. */
  function Ones(names: seq<string>): (xs: seq<(string, real)>)
    ensures |xs| == |names| && forall i :: 0 <= i < |names| ==> xs[i] == (names[i], 1.0)
  {
    seq(|names|, i requires 0 <= i < |names| => (names[i], 1.0))
  }

  /** The species names of the invasive rows, in table order: only invasive rows contribute to
      the frequency tally. */
  function InvasiveSpecies(rows: seq<Record>): seq<(string, real)>
  {
    if |rows| == 0 then []
    else
      var last := rows[|rows| - 1];
      InvasiveSpecies(rows[..|rows| - 1])
      + (if IsInvasiveRow(last) then Ones(NormalizeSpecies(Joined(last.species))) else [])
  }

  /** The invasive species list after one more row. */
  lemma InvasiveSpeciesStep(rows: seq<Record>, i: nat)
    requires i < |rows|
    ensures InvasiveSpecies(rows[..i + 1]) == InvasiveSpecies(rows[..i])
      + (if IsInvasiveRow(rows[i]) then Ones(NormalizeSpecies(Joined(rows[i].species))) else [])
  {
    assert rows[..i + 1][..i] == rows[..i];
  }

  /** Counts sorted from most to least frequent. */
  predicate NonIncreasing(s: seq<Bucket<string>>)
  {
    forall i, j :: 0 <= i < j < |s| ==> s[i].count >= s[j].count
  }

  /** Inserts `x` after every entry whose count is at least its own, so that among equal counts
      the earlier arrival stays first: a stable descending insertion. */
  function InsertByCount(x: Bucket<string>, s: seq<Bucket<string>>): (r: seq<Bucket<string>>)
    requires NonIncreasing(s)
    ensures NonIncreasing(r)
    ensures |r| == |s| + 1
    ensures |s| == 0 ==> r == [x]
    ensures |s| > 0 ==> r[0] == x || r[0] == s[0]
  {
    if |s| == 0 then [x]
    else if s[0].count >= x.count then
      var tail := InsertByCount(x, s[1..]);
      assert s == [s[0]] + s[1..];
      assert s[0].count >= tail[0].count;
      [s[0]] + tail
    else
      [x] + s
  }

  /** The test "has count `c`", one stability class of the sort. */
  function HasCount(c: nat): Bucket<string> -> bool
  {
    (b: Bucket<string>) => b.count == c
  }

  /** Within each count, the insertion puts `x` after every bucket already there. */
  lemma {:induction false} InsertByCountStable(x: Bucket<string>, s: seq<Bucket<string>>, c: nat)
    requires NonIncreasing(s)
    ensures Filter(InsertByCount(x, s), HasCount(c)) == Filter(s, HasCount(c)) + Filter([x], HasCount(c))
  {
    var p := HasCount(c);
    if |s| == 0 {
      assert InsertByCount(x, s) == [x] && s + [x] == [x];
      FilterAppend(s, [x], p);
    } else if s[0].count >= x.count {
      NonIncreasingTail(s);
      InsertByCountStable(x, s[1..], c);
      InsertBehindStable(x, s, c);
    } else {
      InsertAheadStable(x, s, c);
    }
  }

  /** Inserting behind the first bucket keeps that bucket first in its class. */
  lemma InsertBehindStable(x: Bucket<string>, s: seq<Bucket<string>>, c: nat)
    requires NonIncreasing(s) && |s| > 0 && s[0].count >= x.count
    requires NonIncreasing(s[1..])
    requires Filter(InsertByCount(x, s[1..]), HasCount(c)) == Filter(s[1..], HasCount(c)) + Filter([x], HasCount(c))
    ensures Filter(InsertByCount(x, s), HasCount(c)) == Filter(s, HasCount(c)) + Filter([x], HasCount(c))
  {
    var tail := s[1..];
    assert InsertByCount(x, s) == [s[0]] + InsertByCount(x, tail);
    assert s == [s[0]] + tail;
    FilterConsKeeps(s[0], InsertByCount(x, tail), tail, Filter([x], HasCount(c)), HasCount(c));
  }

  /** Dropping the first bucket keeps the order. */
  lemma NonIncreasingTail(s: seq<Bucket<string>>)
    requires NonIncreasing(s) && |s| > 0
    ensures NonIncreasing(s[1..])
  {
    var tail := s[1..];
    forall i, j | 0 <= i < j < |tail| ensures tail[i].count >= tail[j].count {
      assert tail[i] == s[i + 1] && tail[j] == s[j + 1];
    }
  }

  /** Inserting ahead of buckets that all count less than `x` adds `x` behind its own class. */
  lemma InsertAheadStable(x: Bucket<string>, s: seq<Bucket<string>>, c: nat)
    requires forall i :: 0 <= i < |s| ==> s[i].count < x.count
    ensures Filter([x] + s, HasCount(c)) == Filter(s, HasCount(c)) + Filter([x], HasCount(c))
  {
    var p := HasCount(c);
    FilterAppend([x], s, p);
    if x.count == c {
      FilterNone(s, p);
    } else {
      assert Filter([x], p) == [];
    }
  }

  /** The insertion adds `x` and loses nothing. */
  lemma {:induction false} InsertByCountPermutes(x: Bucket<string>, s: seq<Bucket<string>>)
    requires NonIncreasing(s)
    ensures multiset(InsertByCount(x, s)) == multiset(s) + multiset{x}
  {
    if |s| > 0 && s[0].count >= x.count {
      InsertByCountPermutes(x, s[1..]);
      assert s == [s[0]] + s[1..];
    }
  }

  /** `.sort((a, b) => b[1] - a[1])`: a stable sort by non-increasing count. Stability: the
      buckets of any one count appear in the order they have in the input. */
  function SortByCount(xs: seq<Bucket<string>>): (r: seq<Bucket<string>>)
    ensures NonIncreasing(r)
    ensures multiset(r) == multiset(xs)
    ensures forall c: nat :: Filter(r, HasCount(c)) == Filter(xs, HasCount(c))
  {
    if |xs| == 0 then []
    else
      var init, last := xs[..|xs| - 1], xs[|xs| - 1];
      assert xs == init + [last];
      var sorted := SortByCount(init);
      InsertByCountPermutes(last, sorted);
      forall c: nat
        ensures Filter(InsertByCount(last, sorted), HasCount(c)) == Filter(xs, HasCount(c))
      {
        InsertByCountStable(last, sorted, c);
        FilterAppend(init, [last], HasCount(c));
      }
      InsertByCount(last, sorted)
  }

  /** The at most three most frequent species, most frequent first. */
  function TopSpecies(freq: seq<Bucket<string>>): (top: seq<Bucket<string>>)
    ensures |top| <= 3 && |top| <= |freq|
    ensures NonIncreasing(top)
    ensures forall i :: 0 <= i < |top| ==> top[i] in freq
    ensures |top| == if |freq| < 3 then |freq| else 3
    ensures multiset(top) <= multiset(freq)
    ensures forall c: nat :: Text.StartsWith(Filter(freq, HasCount(c)), Filter(top, HasCount(c)))
  {
    var sorted := SortByCount(freq);
    assert |sorted| == |multiset(sorted)| == |multiset(freq)| == |freq|;
    var n := if |sorted| < 3 then |sorted| else 3;
    PrefixSubMultiset(sorted, n);
    forall c: nat
      ensures Text.StartsWith(Filter(freq, HasCount(c)), Filter(sorted[..n], HasCount(c)))
    {
      assert sorted == sorted[..n] + sorted[n..];
      FilterAppend(sorted[..n], sorted[n..], HasCount(c));
    }
    sorted[..n]
  }

  /** Ties go to the first-encountered species: a bucket left out of the top list whose count
      equals an entry's comes after that entry in the tally. */
  lemma TopSpeciesTieOrder(freq: seq<Bucket<string>>, b: Bucket<string>, i: nat)
    requires b in freq && b !in TopSpecies(freq)
    requires i < |TopSpecies(freq)| && TopSpecies(freq)[i].count == b.count
    ensures TopSpecies(freq)[i] in freq
    ensures FirstIndex(freq, TopSpecies(freq)[i]) < FirstIndex(freq, b)
  {
    var top := TopSpecies(freq);
    var p := HasCount(b.count);
    var f, t := Filter(freq, p), Filter(top, p);
    assert Text.StartsWith(f, t);
    assert top[i] in t;
    assert b in f by { assert freq[FirstIndex(freq, b)] == b; }
    var k := FirstIndex(t, top[i]);
    FirstIndexPrefix(f, |t|, top[i]);
    assert FirstIndex(f, top[i]) == k < |t|;
    assert FirstIndex(f, b) >= |t| by {
      forall j | 0 <= j < |t| ensures f[j] != b {
        assert f[j] == t[j];
      }
    }
    FilterKeepsOrder(freq, p, top[i], b);
  }

  /** A prefix keeps a sub-multiset of the elements. */
  lemma PrefixSubMultiset<T>(s: seq<T>, n: nat)
    requires n <= |s|
    ensures multiset(s[..n]) <= multiset(s)
    ensures forall i :: 0 <= i < n ==> s[..n][i] in multiset(s)
  {
    assert s == s[..n] + s[n..];
    assert multiset(s) == multiset(s[..n]) + multiset(s[n..]);
  }

  /** No species left out of the top list is more frequent than one in it. */
  lemma TopSpeciesAreMostFrequent(freq: seq<Bucket<string>>, b: Bucket<string>)
    requires b in freq && b !in TopSpecies(freq)
    ensures forall i :: 0 <= i < |TopSpecies(freq)| ==> TopSpecies(freq)[i].count >= b.count
  {
    var sorted := SortByCount(freq);
    assert b in multiset(sorted);
    var k :| 0 <= k < |sorted| && sorted[k] == b;
    var top := TopSpecies(freq);
    assert top == sorted[..|top|];
    assert k >= |top|;
  }

  /** What the headline cites. */
  datatype Headline =
    | InvasiveAlert(region: string)
    | BanAlert(region: string, stock: real)
    | ConserveAlert(region: string, biodiversity: real)
    | Sustainable

  /** The headline by precedence: invasive, then ban, then conserve, then sustainable. */
  function ChooseHeadline(rows: seq<Record>, fi: Option<nat>, wb: Option<nat>, wc: Option<nat>): (h: Headline)
    requires fi.Some? ==> fi.value < |rows|
    requires wb.Some? ==> wb.value < |rows|
    requires wc.Some? ==> wc.value < |rows|
    ensures h.InvasiveAlert? <==> fi.Some?
    ensures h.BanAlert? <==> fi.None? && wb.Some?
    ensures h.ConserveAlert? <==> fi.None? && wb.None? && wc.Some?
    ensures h.Sustainable? <==> fi.None? && wb.None? && wc.None?
    ensures h.InvasiveAlert? ==> h.region == rows[fi.value].region
    ensures h.BanAlert? ==> h.region == rows[wb.value].region && h.stock == rows[wb.value].fishStock
    ensures h.ConserveAlert? ==> h.region == rows[wc.value].region && h.biodiversity == rows[wc.value].biodiversity
  {
    if fi.Some? then InvasiveAlert(rows[fi.value].region)
    else if wb.Some? then BanAlert(rows[wb.value].region, rows[wb.value].fishStock)
    else if wc.Some? then ConserveAlert(rows[wc.value].region, rows[wc.value].biodiversity)
    else Sustainable
  }

  /** The headline message; `fmt0` stands for `toFixed(0)`. */
  function HeadlineText(h: Headline, fmt0: real -> string): string
  {
    match h
    case InvasiveAlert(region) =>
      "\U{1F6A8} High Risk: Invasive species detected near " + region
      + ". Immediate containment and monitoring recommended. Review data in the Data Explorer."
    case BanAlert(region, stock) =>
      "\U{1F534} Fishing Ban: " + region + " flagged due to low Fish Stock Index (" + fmt0(stock)
      + "). Review in Data Explorer."
    case ConserveAlert(region, bio) =>
      "\U{1F7E1} Conservation Zone: " + region + " has low Biodiversity Index (" + fmt0(bio)
      + "). Consider protective measures."
    case Sustainable => "\U{2705} Overall conditions appear sustainable across monitored locations."
  }

  /** `Math.round((count / total) * 100)`, rounding halves up. */
  function Percent(count: nat, total: nat): (p: int)
    requires 0 < total && count <= total
    ensures 0 <= p <= 100
    ensures count == 0 ==> p == 0
    ensures count == total ==> p == 100
  {
    var x := (count as real / total as real) * 100.0;
    assert count as real <= total as real;
    assert 0.0 <= x <= 100.0;
    assert count == total ==> x == 100.0;
    (x + 0.5).Floor
  }

  datatype Insights = Insights(
    total: nat,
    bans: nat,
    conserve: nat,
    invasive: nat,
    banPct: int,
    conservePct: int,
    invasivePct: int,
    firstInvasive: Option<nat>,
    worstBan: Option<nat>,
    worstConserve: Option<nat>,
    speciesFreq: seq<Bucket<string>>,
    topSpecies: seq<Bucket<string>>,
    headline: Headline)

  /** What the `forEach` over the table carries from row to row. */
  datatype Counters = Counters(
    invasive: nat,
    bans: nat,
    conserve: nat,
    firstInvasive: Option<nat>,
    worstBan: Option<nat>,
    worstConserve: Option<nat>,
    freq: seq<Bucket<string>>)

  /** The picks refer to rows of the table. */
  predicate PicksIn(c: Counters, n: nat)
  {
    && (c.firstInvasive.Some? ==> c.firstInvasive.value < n)
    && (c.worstBan.Some? ==> c.worstBan.value < n)
    && (c.worstConserve.Some? ==> c.worstConserve.value < n)
  }

  /** One iteration of the `forEach` on row `i`. */
  function Step(rows: seq<Record>, i: nat, c: Counters): Counters
    requires i < |rows| && PicksIn(c, |rows|)
  {
    var r := rows[i];
    var status := RowStatus(r);
    if status == Invasive then
      c.(invasive := c.invasive + 1,
         firstInvasive := if c.firstInvasive.None? then Some(i) else c.firstInvasive,
         freq := AddAll(c.freq, Ones(NormalizeSpecies(Joined(r.species)))))
    else if status == Ban then
      c.(bans := c.bans + 1,
         worstBan := if c.worstBan.None? || r.fishStock < rows[c.worstBan.value].fishStock then Some(i) else c.worstBan)
    else if status == Conserve then
      c.(conserve := c.conserve + 1,
         worstConserve :=
           if c.worstConserve.None? || r.biodiversity < rows[c.worstConserve.value].biodiversity then Some(i)
           else c.worstConserve)
    else c
  }

  /** The counters after the first `n` rows say what they should about those rows. */
  predicate Tallies(rows: seq<Record>, n: nat, c: Counters)
    requires n <= |rows|
  {
    && c.invasive == CountWhere(rows[..n], IsInvasiveRow)
    && c.bans == CountWhere(rows[..n], IsBanRow)
    && c.conserve == CountWhere(rows[..n], IsConserveRow)
    && c.invasive + c.bans + c.conserve <= n
    && IsFirstInvasive(rows, n, c.firstInvasive)
    && IsWorst(rows, n, c.worstBan, IsBanRow, StockOf)
    && IsWorst(rows, n, c.worstConserve, IsConserveRow, BiodiversityOf)
    && c.freq == Accumulate(InvasiveSpecies(rows[..n]))
  }

  /** The three counters after one more row. */
  lemma StepCounts(rows: seq<Record>, i: nat, c: Counters)
    requires i < |rows| && PicksIn(c, |rows|)
    requires c.invasive == CountWhere(rows[..i], IsInvasiveRow)
    requires c.bans == CountWhere(rows[..i], IsBanRow)
    requires c.conserve == CountWhere(rows[..i], IsConserveRow)
    requires c.invasive + c.bans + c.conserve <= i
    ensures var d := Step(rows, i, c);
      && d.invasive == CountWhere(rows[..i + 1], IsInvasiveRow)
      && d.bans == CountWhere(rows[..i + 1], IsBanRow)
      && d.conserve == CountWhere(rows[..i + 1], IsConserveRow)
      && d.invasive + d.bans + d.conserve <= i + 1
  {
    var r := rows[i];
    assert rows[..i + 1] == rows[..i] + [r];
    CountWhereSnoc(rows[..i], r, IsInvasiveRow);
    CountWhereSnoc(rows[..i], r, IsBanRow);
    CountWhereSnoc(rows[..i], r, IsConserveRow);
  }

  /** The species tally after one more row. */
  lemma StepFreq(rows: seq<Record>, i: nat, c: Counters)
    requires i < |rows| && PicksIn(c, |rows|)
    requires c.freq == Accumulate(InvasiveSpecies(rows[..i]))
    ensures Step(rows, i, c).freq == Accumulate(InvasiveSpecies(rows[..i + 1]))
  {
    InvasiveSpeciesStep(rows, i);
    if IsInvasiveRow(rows[i]) {
      AddAllAppend([], InvasiveSpecies(rows[..i]), Ones(NormalizeSpecies(Joined(rows[i].species))));
    } else {
      assert InvasiveSpecies(rows[..i]) + [] == InvasiveSpecies(rows[..i]);
      assert RowStatus(rows[i]) != Invasive;
    }
  }

  /** The picks after one more row. */
  lemma StepPicks(rows: seq<Record>, i: nat, c: Counters)
    requires i < |rows| && PicksIn(c, i)
    ensures var d := Step(rows, i, c);
      && d.firstInvasive == (if c.firstInvasive.None? && IsInvasiveRow(rows[i]) then Some(i) else c.firstInvasive)
      && d.worstBan == NextWorst(rows, i, c.worstBan, IsBanRow, StockOf)
      && d.worstConserve == NextWorst(rows, i, c.worstConserve, IsConserveRow, BiodiversityOf)
      && PicksIn(d, i + 1)
  {
  }

  /** One iteration keeps the counters exact. */
  lemma StepTallies(rows: seq<Record>, i: nat, c: Counters)
    requires i < |rows| && PicksIn(c, i) && Tallies(rows, i, c)
    ensures PicksIn(Step(rows, i, c), i + 1) && Tallies(rows, i + 1, Step(rows, i, c))
  {
    var d := Step(rows, i, c);
    StepCounts(rows, i, c);
    StepFreq(rows, i, c);
    StepPicks(rows, i, c);
    FirstInvasiveStep(rows, i, c.firstInvasive);
    WorstStep(rows, i, c.worstBan, IsBanRow, StockOf);
    WorstStep(rows, i, c.worstConserve, IsConserveRow, BiodiversityOf);
    assert IsFirstInvasive(rows, i + 1, d.firstInvasive);
    assert IsWorst(rows, i + 1, d.worstBan, IsBanRow, StockOf);
    assert IsWorst(rows, i + 1, d.worstConserve, IsConserveRow, BiodiversityOf);
  }

  /** The `insights` reducer: one pass over the table in order. Each row falls in at most one
      counter; the picked rows are indices into the table. */
  method Tally(rows: seq<Record>) returns (t: Insights)
    ensures t.total == (if |rows| == 0 then 1 else |rows|) && t.total >= 1
    ensures t.invasive == CountWhere(rows, IsInvasiveRow)
    ensures t.bans == CountWhere(rows, IsBanRow)
    ensures t.conserve == CountWhere(rows, IsConserveRow)
    ensures t.invasive + t.bans + t.conserve <= |rows|
    ensures 0 <= t.banPct <= 100 && 0 <= t.conservePct <= 100 && 0 <= t.invasivePct <= 100
    ensures t.banPct == Percent(t.bans, t.total) && t.conservePct == Percent(t.conserve, t.total)
    ensures t.invasivePct == Percent(t.invasive, t.total)
    ensures IsFirstInvasive(rows, |rows|, t.firstInvasive)
    ensures IsWorst(rows, |rows|, t.worstBan, IsBanRow, StockOf)
    ensures IsWorst(rows, |rows|, t.worstConserve, IsConserveRow, BiodiversityOf)
    ensures t.speciesFreq == Accumulate(InvasiveSpecies(rows))
    ensures t.topSpecies == TopSpecies(t.speciesFreq)
    ensures t.headline == ChooseHeadline(rows, t.firstInvasive, t.worstBan, t.worstConserve)
  {
    var c := Counters(0, 0, 0, None, None, None, []);
    var i := 0;
    while i < |rows|
      invariant 0 <= i <= |rows|
      invariant PicksIn(c, i)
      invariant Tallies(rows, i, c)
    {
      StepTallies(rows, i, c);
      c := Step(rows, i, c);
      i := i + 1;
    }
    assert rows[..|rows|] == rows;
    var total := if |rows| == 0 then 1 else |rows|;
    t := Insights(total, c.bans, c.conserve, c.invasive,
                  Percent(c.bans, total), Percent(c.conserve, total), Percent(c.invasive, total),
                  c.firstInvasive, c.worstBan, c.worstConserve, c.freq, TopSpecies(c.freq),
                  ChooseHeadline(rows, c.firstInvasive, c.worstBan, c.worstConserve));
  }

  /** The headline follows the precedence of the statuses and ignores the counts: it cites an
      invasive row exactly when one exists, a ban row exactly when there is no invasive row
      but a ban row, and so on down to the sustainable message. */
  lemma HeadlinePrecedence(rows: seq<Record>, fi: Option<nat>, wb: Option<nat>, wc: Option<nat>)
    requires IsFirstInvasive(rows, |rows|, fi)
    requires IsWorst(rows, |rows|, wb, IsBanRow, StockOf)
    requires IsWorst(rows, |rows|, wc, IsConserveRow, BiodiversityOf)
    ensures var h := ChooseHeadline(rows, fi, wb, wc);
      && (h.InvasiveAlert? <==> exists j :: 0 <= j < |rows| && IsInvasiveRow(rows[j]))
      && (h.BanAlert? <==>
            (forall j :: 0 <= j < |rows| ==> !IsInvasiveRow(rows[j]))
            && exists j :: 0 <= j < |rows| && IsBanRow(rows[j]))
      && (h.ConserveAlert? <==>
            (forall j :: 0 <= j < |rows| ==> !IsInvasiveRow(rows[j]) && !IsBanRow(rows[j]))
            && exists j :: 0 <= j < |rows| && IsConserveRow(rows[j]))
      && (h.Sustainable? <==>
            forall j :: 0 <= j < |rows| ==> RowStatus(rows[j]) == Ok)
  {
    forall j | 0 <= j < |rows|
      ensures RowStatus(rows[j]) == Ok <==> !IsInvasiveRow(rows[j]) && !IsBanRow(rows[j]) && !IsConserveRow(rows[j])
    {
    }
  }
}
