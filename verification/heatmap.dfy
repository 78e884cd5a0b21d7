/** The biodiversity heatmap: the mean biodiversity index of each (region, month) cell, with
    regions in order of first appearance and months in ascending order, and an empty cell where
    no row falls. */
module Heatmap {
  import opened Wrappers
  import opened Text
  import opened Seqs
  import opened Records
  import opened Groups

  /** `String(date).slice(0, 7)`: the "YYYY-MM" part of an ISO date, or the whole text when it
      is shorter. */
  function MonthKey(date: string): (m: string)
    ensures |m| == if |date| < 7 then |date| else 7
    ensures m == date[..|m|]
  {
    if |date| < 7 then date else date[..7]
  }

  /** The rows' month keys, in table order. */
  function RowMonths(rows: seq<Record>): (ms: seq<string>)
    ensures |ms| == |rows| && forall i :: 0 <= i < |rows| ==> ms[i] == MonthKey(rows[i].date)
  {
    seq(|rows|, i requires 0 <= i < |rows| => MonthKey(rows[i].date))
  }

  /** `Array.from(regionsSet)`: each region once, in order of first appearance. */
  function HeatRegions(rows: seq<Record>): (rs: seq<string>)
    ensures NoDuplicates(rs)
    ensures forall r :: r in rs <==> r in Regions(rows)
    ensures InFirstAppearanceOrder(rs, Regions(rows))
  {
    DistinctFirstAppearance(Regions(rows));
    Distinct(Regions(rows))
  }

  /** Sorts a sequence of strings into strictly ascending order, dropping repeats. */
  function SortDistinct(xs: seq<string>): (r: seq<string>)
    ensures StrictlySorted(r)
    ensures forall y :: y in r <==> y in xs
  {
    if |xs| == 0 then []
    else
      var n := |xs| - 1;
      assert xs == xs[..n] + [xs[n]];
      InsertSorted(xs[n], SortDistinct(xs[..n]))
  }

  /** `Array.from(monthsSet).sort()`: each month once, ascending. */
  function HeatMonths(rows: seq<Record>): (ms: seq<string>)
    ensures StrictlySorted(ms)
    ensures forall m :: m in ms <==> m in RowMonths(rows)
  {
    SortDistinct(Distinct(RowMonths(rows)))
  }

  /** The months are the one ascending, repeat-free listing of the rows' months: any other such
      listing is the same sequence. */
  lemma HeatMonthsUnique(rows: seq<Record>, other: seq<string>)
    requires StrictlySorted(other)
    requires forall m :: m in other <==> m in RowMonths(rows)
    ensures other == HeatMonths(rows)
  {
    StrictlySortedUnique(other, HeatMonths(rows));
  }

  /** Each row's biodiversity index filed under its (region, month) cell. */
  function CellPairs(rows: seq<Record>): (xs: seq<((string, string), real)>)
    ensures |xs| == |rows|
    ensures forall i :: 0 <= i < |rows| ==> xs[i] == ((rows[i].region, MonthKey(rows[i].date)), rows[i].biodiversity)
  {
    seq(|rows|, i requires 0 <= i < |rows| => ((rows[i].region, MonthKey(rows[i].date)), rows[i].biodiversity))
  }

  /** Some row falls in the cell of `region` and `month`. */
  predicate Occupied(rows: seq<Record>, region: string, month: string)
  {
    exists k :: 0 <= k < |rows| && rows[k].region == region && MonthKey(rows[k].date) == month
  }

  /** A cell's value from its bucket: the mean, or nothing for an empty cell. */
  function CellValue<K(==)>(acc: seq<Bucket<K>>, k: K): Option<real>
    requires forall i :: 0 <= i < |acc| ==> acc[i].count > 0
  {
    match Lookup(acc, k)
    case None => None
    case Some(b) => Some(b.sum / b.count as real)
  }

  /** Lays out one value per (region, month) cell, looked up under `key`. */
  function Layout<K(==)>(regions: seq<string>, months: seq<string>, acc: seq<Bucket<K>>,
                         key: (string, string) -> K): (grid: seq<seq<Option<real>>>)
    requires forall i :: 0 <= i < |acc| ==> acc[i].count > 0
    ensures |grid| == |regions|
    ensures forall i :: 0 <= i < |grid| ==> |grid[i]| == |months|
    ensures forall i, j :: 0 <= i < |regions| && 0 <= j < |months| ==>
      grid[i][j] == CellValue(acc, key(regions[i], months[j]))
  {
    seq(|regions|, i requires 0 <= i < |regions| =>
      seq(|months|, j requires 0 <= j < |months| => CellValue(acc, key(regions[i], months[j]))))
  }

  function PairKey(region: string, month: string): (string, string)
  {
    (region, month)
  }

  /** The grid with cells keyed by the (region, month) pair: one row per region, one column
      per month. */
  function Grid(rows: seq<Record>): (grid: seq<seq<Option<real>>>)
    ensures |grid| == |HeatRegions(rows)|
    ensures forall i :: 0 <= i < |grid| ==> |grid[i]| == |HeatMonths(rows)|
  {
    AccumulateSummarises(CellPairs(rows));
    Layout(HeatRegions(rows), HeatMonths(rows), Accumulate(CellPairs(rows)), PairKey)
  }

  /** A cell's key occurs among the rows' keys exactly when some row has its region and month. */
  lemma CellKeyOccurs(rows: seq<Record>, region: string, month: string)
    ensures (region, month) in Keys(CellPairs(rows)) <==> Occupied(rows, region, month)
  {
    var pairs := CellPairs(rows);
    if Occupied(rows, region, month) {
      var k :| 0 <= k < |rows| && rows[k].region == region && MonthKey(rows[k].date) == month;
      assert Keys(pairs)[k] == (region, month);
    }
  }

  /** A cell is empty exactly when no row has its region and month; otherwise it holds the
      mean biodiversity index of exactly those rows. */
  lemma GridCell(rows: seq<Record>, i: nat, j: nat)
    requires i < |HeatRegions(rows)| && j < |HeatMonths(rows)|
    ensures var cell := (HeatRegions(rows)[i], HeatMonths(rows)[j]);
      && (Grid(rows)[i][j].None? <==> !Occupied(rows, cell.0, cell.1))
      && (Grid(rows)[i][j].Some? ==>
            KeyCount(CellPairs(rows), cell) > 0
            && Grid(rows)[i][j].value == KeySum(CellPairs(rows), cell) / KeyCount(CellPairs(rows), cell) as real)
  {
    var pairs := CellPairs(rows);
    var cell := (HeatRegions(rows)[i], HeatMonths(rows)[j]);
    AccumulateSummarises(pairs);
    CellKeyOccurs(rows, cell.0, cell.1);
    assert Grid(rows)[i][j] == CellValue(Accumulate(pairs), cell);
    CellValueOfSummary(Accumulate(pairs), pairs, cell);
  }

  /** Looked up in an exact summary, a key has no value exactly when it never occurs, and
      otherwise the mean of its values. */
  lemma CellValueOfSummary<K>(acc: seq<Bucket<K>>, xs: seq<(K, real)>, k: K)
    requires Summarises(acc, xs)
    requires forall i :: 0 <= i < |acc| ==> acc[i].count > 0
    ensures CellValue(acc, k).None? <==> k !in Keys(xs)
    ensures CellValue(acc, k).Some? ==>
      KeyCount(xs, k) > 0 && CellValue(acc, k).value == KeySum(xs, k) / KeyCount(xs, k) as real
  {
    var b := Lookup(acc, k);
    assert k in BucketKeys(acc) <==> k in Keys(xs);
    if b.Some? {
      var n :| 0 <= n < |acc| && acc[n] == b.value;
    }
  }

  /** `colorForValue` for an empty cell; `hue` stands for the gradient class of a value. */
  function ColorForValue(v: Option<real>, hue: real -> string): string
  {
    match v
    case None => "bg-gray-600/30"
    case Some(x) => hue(x)
  }

  /** A cell no row falls in is painted gray. */
  lemma EmptyCellIsGray(rows: seq<Record>, i: nat, j: nat, hue: real -> string)
    requires i < |HeatRegions(rows)| && j < |HeatMonths(rows)|
    requires !Occupied(rows, HeatRegions(rows)[i], HeatMonths(rows)[j])
    ensures ColorForValue(Grid(rows)[i][j], hue) == "bg-gray-600/30"
  {
    GridCell(rows, i, j);
  }

  /** The cell key as the heatmap writes it: the region and the month joined by a bar. */
  function BarKey(region: string, month: string): string
  {
    region + "|" + month
  }

  /** Each row's biodiversity index filed under its bar-joined key. */
  function BarPairs(rows: seq<Record>): (xs: seq<(string, real)>)
    ensures |xs| == |rows|
    ensures forall i :: 0 <= i < |rows| ==> xs[i] == (BarKey(rows[i].region, MonthKey(rows[i].date)), rows[i].biodiversity)
  {
    seq(|rows|, i requires 0 <= i < |rows| => (BarKey(rows[i].region, MonthKey(rows[i].date)), rows[i].biodiversity))
  }

  /** The grid as the heatmap computes it, with cells keyed by the bar-joined text. */
  function GridAsWritten(rows: seq<Record>): (grid: seq<seq<Option<real>>>)
    ensures |grid| == |HeatRegions(rows)|
    ensures forall i :: 0 <= i < |grid| ==> |grid[i]| == |HeatMonths(rows)|
  {
    AccumulateSummarises(BarPairs(rows));
    Layout(HeatRegions(rows), HeatMonths(rows), Accumulate(BarPairs(rows)), BarKey)
  }

  /** As written, a cell holds the mean over every row whose bar-joined key equals the cell's,
      whatever that row's own region and month. */
  lemma GridAsWrittenCell(rows: seq<Record>, i: nat, j: nat)
    requires i < |HeatRegions(rows)| && j < |HeatMonths(rows)|
    ensures var key := BarKey(HeatRegions(rows)[i], HeatMonths(rows)[j]);
      && (GridAsWritten(rows)[i][j].None? <==> key !in Keys(BarPairs(rows)))
      && (GridAsWritten(rows)[i][j].Some? ==>
            KeyCount(BarPairs(rows), key) > 0
            && GridAsWritten(rows)[i][j].value == KeySum(BarPairs(rows), key) / KeyCount(BarPairs(rows), key) as real)
  {
    var pairs := BarPairs(rows);
    var key := BarKey(HeatRegions(rows)[i], HeatMonths(rows)[j]);
    AccumulateSummarises(pairs);
    assert GridAsWritten(rows)[i][j] == CellValue(Accumulate(pairs), key);
    CellValueOfSummary(Accumulate(pairs), pairs, key);
  }

  /** A row of the heatmap's input with only the fields it reads set. */
  function HeatRow(region: string, date: string, biodiversity: real): Record
  {
    Record(date, 0.0, 0.0, region, 0.0, 0.0, 0.0, biodiversity, "", "")
  }

  /** Two different cells share a bar-joined key only if some region and some month of the
      two hold a bar: the shorter region's key has its bar where the longer region goes on, and
      the key's later bar, the one after the longer region, falls inside the shorter region's
      month. */
  lemma BarKeyCollisionNeedsBars(r1: string, m1: string, r2: string, m2: string)
    requires BarKey(r1, m1) == BarKey(r2, m2)
    requires (r1, m1) != (r2, m2)
    ensures '|' in r1 || '|' in r2
    ensures '|' in m1 || '|' in m2
  {
    var k := BarKey(r1, m1);
    if |r1| < |r2| {
      assert k[|r1|] == '|' && k[|r1|] == r2[|r1|];
      assert k[|r2|] == '|' && k[|r2|] == m1[|r2| - |r1| - 1];
    } else if |r2| < |r1| {
      assert k[|r2|] == '|' && k[|r2|] == r1[|r2|];
      assert k[|r1|] == '|' && k[|r1|] == m2[|r1| - |r2| - 1];
    } else {
      BarKeySplits(r1, m1, r2, m2);
    }
  }

  /** Keys built from regions of the same length split back into the same region and month. */
  lemma BarKeySplits(r1: string, m1: string, r2: string, m2: string)
    requires BarKey(r1, m1) == BarKey(r2, m2)
    requires |r1| == |r2|
    ensures r1 == r2 && m1 == m2
  {
    var k := BarKey(r1, m1);
    assert r1 == k[..|r1|] == r2;
    assert m1 == k[|r1| + 1..] == m2;
  }

  /** No row's region holds a bar. */
  predicate NoBarInRegions(rows: seq<Record>)
  {
    forall k :: 0 <= k < |rows| ==> '|' !in rows[k].region
  }

  /** No row's month holds a bar. */
  predicate NoBarInMonths(rows: seq<Record>)
  {
    forall k :: 0 <= k < |rows| ==> '|' !in MonthKey(rows[k].date)
  }

  /** Without a bar in either region, or in either month, the bar-joined key tells the cell. */
  lemma BarKeyInjective(r1: string, m1: string, r2: string, m2: string)
    requires ('|' !in r1 && '|' !in r2) || ('|' !in m1 && '|' !in m2)
    ensures BarKey(r1, m1) == BarKey(r2, m2) ==> (r1, m1) == (r2, m2)
  {
    if BarKey(r1, m1) == BarKey(r2, m2) && (r1, m1) != (r2, m2) {
      BarKeyCollisionNeedsBars(r1, m1, r2, m2);
      assert false;
    }
  }

  /** On a table whose regions, or whose months, hold no bar, each as-written cell is the
      pair-keyed cell. */
  lemma GridAsWrittenCellIsGridCell(rows: seq<Record>, i: nat, j: nat)
    requires NoBarInRegions(rows) || NoBarInMonths(rows)
    requires i < |HeatRegions(rows)| && j < |HeatMonths(rows)|
    ensures GridAsWritten(rows)[i][j] == Grid(rows)[i][j]
  {
    var r, m := HeatRegions(rows)[i], HeatMonths(rows)[j];
    var bars, cells := BarPairs(rows), CellPairs(rows);
    assert r in Regions(rows);
    var a :| 0 <= a < |rows| && Regions(rows)[a] == r;
    assert m in RowMonths(rows);
    var b :| 0 <= b < |rows| && RowMonths(rows)[b] == m;
    forall k | 0 <= k < |rows|
      ensures bars[k].1 == cells[k].1 && (bars[k].0 == BarKey(r, m) <==> cells[k].0 == (r, m))
    {
      BarKeyInjective(rows[k].region, MonthKey(rows[k].date), r, m);
    }
    KeyTotalsRekey(bars, cells, BarKey(r, m), (r, m));
    KeyCountPositive(bars, BarKey(r, m));
    KeyCountPositive(cells, (r, m));
    CellKeyOccurs(rows, r, m);
    GridAsWrittenCell(rows, i, j);
    GridCell(rows, i, j);
  }

  /** The collision needs unusual names: on a table whose regions, or whose months, hold no
      bar, the heatmap as written computes the pair-keyed grid. */
  lemma GridAsWrittenIsGrid(rows: seq<Record>)
    requires NoBarInRegions(rows) || NoBarInMonths(rows)
    ensures GridAsWritten(rows) == Grid(rows)
  {
    var g, h := GridAsWritten(rows), Grid(rows);
    forall i | 0 <= i < |g|
      ensures g[i] == h[i]
    {
      forall j | 0 <= j < |g[i]|
        ensures g[i][j] == h[i][j]
      {
        GridAsWrittenCellIsGridCell(rows, i, j);
      }
    }
  }

  /** A collision needs both bars, and one exists: region "a|b" with month "c" and region "a"
      with month "b|c" share the key "a|b|c". */
  lemma BarKeysCollide()
    ensures ("a|b", "c") != ("a", "b|c")
    ensures BarKey("a|b", "c") == BarKey("a", "b|c")
  {
    assert "a|b" != "a" by { assert |"a|b"| != |"a"|; }
    assert "a|b" + "|" + "c" == "a|b|c";
    assert "a" + "|" + "b|c" == "a|b|c";
  }

  /** With a row in region "a|b" for month "c" and one in region "a" for month "b|c", the
      heatmap files both under the key "a|b|c": every grid lookup that reaches that key counts
      both rows, whereas each (region, month) cell has one row of its own. */
  lemma BarKeyMergesRows()
    ensures var rows := [HeatRow("a|b", "c", 10.0), HeatRow("a", "b|c", 50.0)];
      && KeyCount(BarPairs(rows), BarKey("a", "b|c")) == 2
      && KeySum(BarPairs(rows), BarKey("a", "b|c")) == 60.0
      && KeyCount(CellPairs(rows), ("a", "b|c")) == 1
      && KeySum(CellPairs(rows), ("a", "b|c")) == 50.0
  {
    var rows := [HeatRow("a|b", "c", 10.0), HeatRow("a", "b|c", 50.0)];
    BarKeysCollide();
    var key := BarKey("a", "b|c");
    assert MonthKey("c") == "c" && MonthKey("b|c") == "b|c";
    var bars := BarPairs(rows);
    assert bars == [(key, 10.0), (key, 50.0)];
    assert bars[..1] == [(key, 10.0)] && bars[..1][..0] == [];
    var cells := CellPairs(rows);
    assert cells == [(("a|b", "c"), 10.0), (("a", "b|c"), 50.0)];
    assert cells[..1] == [(("a|b", "c"), 10.0)] && cells[..1][..0] == [];
    assert KeyCount(bars[..1][..0], key) == 0;
    assert KeyCount(bars[..1], key) == 1;
    assert KeyCount(bars, key) == 2;
    assert KeySum(bars[..1][..0], key) == 0.0;
    assert KeySum(bars[..1], key) == 10.0;
    assert KeySum(bars, key) == 60.0;
    var cell := ("a", "b|c");
    assert KeyCount(cells[..1][..0], cell) == 0 && KeySum(cells[..1][..0], cell) == 0.0;
    assert KeyCount(cells[..1], cell) == 0 && KeySum(cells[..1], cell) == 0.0;
    assert KeyCount(cells, cell) == 1 && KeySum(cells, cell) == 50.0;
  }
}
