/** The Fisherman's Compass nearest-row search: the row closest to the map centre, its
    distance and its status. The great-circle distance is a parameter `dist`; only the scan
    over the rows is modelled. */
module Compass {
  import opened Wrappers
  import opened Records
  import opened Advisory

  /** What `nearest` returns: the chosen row (and where it sits in the table), its distance
      from the centre and its status. */
  datatype Nearest = Nearest(index: nat, row: Observation, distanceKm: real, status: Status)

  /** The distance from the centre to row `k`, measured as the compass does: centre first. */
  function DistanceTo(rows: seq<Observation>, center: Point, dist: (Point, Point) -> real, k: nat): real
    requires k < |rows|
  {
    dist(center, rows[k].position)
  }

  /** Row `k` is no farther than any of the first `n` rows, and strictly nearer than every
      row before it: the earliest of the nearest rows. */
  predicate EarliestNearest(rows: seq<Observation>, center: Point, dist: (Point, Point) -> real, n: nat, k: nat)
    requires n <= |rows|
  {
    && k < |rows|
    && (forall j :: 0 <= j < n ==> DistanceTo(rows, center, dist, k) <= DistanceTo(rows, center, dist, j))
    && (forall j :: 0 <= j < k ==> DistanceTo(rows, center, dist, j) > DistanceTo(rows, center, dist, k))
  }

  /** `nearest`: nothing for an empty table; otherwise a scan that starts from the first row
      and replaces the best row only on a strictly smaller distance. */
  method FindNearest(rows: seq<Observation>, center: Point, dist: (Point, Point) -> real) returns (r: Option<Nearest>)
    ensures r.None? <==> |rows| == 0
    ensures r.Some? ==> EarliestNearest(rows, center, dist, |rows|, r.value.index)
    ensures r.Some? ==> r.value.index < |rows| && r.value.row == rows[r.value.index]
    ensures r.Some? ==> r.value.distanceKm == dist(center, r.value.row.position)
    ensures r.Some? ==> r.value.status == AlertStatus(r.value.row)
  {
    if |rows| == 0 {
      return None;
    }
    var best := 0;
    var bestD := dist(center, rows[0].position);
    var i := 0;
    while i < |rows|
      invariant 0 <= i <= |rows|
      invariant best < |rows| && bestD == DistanceTo(rows, center, dist, best)
      invariant forall j :: 0 <= j < i ==> bestD <= DistanceTo(rows, center, dist, j)
      invariant forall j :: 0 <= j < best ==> DistanceTo(rows, center, dist, j) > bestD
    {
      var d := dist(center, rows[i].position);
      if d < bestD {
        best := i;
        bestD := d;
      }
      i := i + 1;
    }
    r := Some(Nearest(best, rows[best], bestD, AlertStatus(rows[best])));
  }

  /** At most one row is the earliest nearest, so the scan's answer is determined by the rows
      and the distances alone. */
  lemma EarliestNearestUnique(rows: seq<Observation>, center: Point, dist: (Point, Point) -> real, k1: nat, k2: nat)
    requires EarliestNearest(rows, center, dist, |rows|, k1)
    requires EarliestNearest(rows, center, dist, |rows|, k2)
    ensures k1 == k2
  {
    var d1, d2 := DistanceTo(rows, center, dist, k1), DistanceTo(rows, center, dist, k2);
    assert d1 <= d2 && d2 <= d1;
  }

  /** When every row lies at the same distance the first row wins. */
  lemma TieGoesToFirstRow(rows: seq<Observation>, center: Point, dist: (Point, Point) -> real, k: nat)
    requires |rows| > 0
    requires forall j :: 0 <= j < |rows| ==> DistanceTo(rows, center, dist, j) == DistanceTo(rows, center, dist, 0)
    requires EarliestNearest(rows, center, dist, |rows|, k)
    ensures k == 0
  {
    assert DistanceTo(rows, center, dist, k) == DistanceTo(rows, center, dist, 0);
  }
}
