/** Sequence helpers: order-preserving filtering (JavaScript `Array.prototype.filter`, a pandas
    boolean mask) and first-appearance de-duplication (a JavaScript `Set` read back with
    `Array.from`, or the insertion order of an object's keys). */
module Seqs {

  /** `a` can be obtained from `b` by deleting elements, so it keeps `b`'s relative order.
      Matching greedily against the earliest candidate is complete for this relation. */
  predicate IsSubsequence<T(==)>(a: seq<T>, b: seq<T>)
  {
    if |a| == 0 then true
    else if |b| == 0 then false
    else if a[0] == b[0] then IsSubsequence(a[1..], b[1..])
    else IsSubsequence(a, b[1..])
  }

  /** The elements of `xs` that satisfy `p`, in their original order. */
  function Filter<T(==)>(xs: seq<T>, p: T -> bool): (r: seq<T>)
    ensures |r| <= |xs|
    ensures forall i :: 0 <= i < |r| ==> p(r[i]) && r[i] in xs
    ensures forall i :: 0 <= i < |xs| && p(xs[i]) ==> xs[i] in r
    ensures IsSubsequence(r, xs)
  {
    if |xs| == 0 then []
    else
      var rest := Filter(xs[1..], p);
      assert xs == [xs[0]] + xs[1..];
      if p(xs[0]) then [xs[0]] + rest else rest
  }

  /** Each element that passes the test is kept as often as it occurs; every other one is
      dropped. */
  lemma {:induction false} FilterCounts<T>(xs: seq<T>, p: T -> bool, x: T)
    ensures multiset(Filter(xs, p))[x] == if p(x) then multiset(xs)[x] else 0
  {
    if |xs| > 0 {
      FilterCounts(xs[1..], p, x);
      assert xs == [xs[0]] + xs[1..];
      assert multiset(xs) == multiset{xs[0]} + multiset(xs[1..]);
      var rest := Filter(xs[1..], p);
      if p(xs[0]) {
        assert multiset([xs[0]] + rest) == multiset{xs[0]} + multiset(rest);
      }
    }
  }

  /** Filtering distributes over concatenation. */
  lemma {:induction false} FilterAppend<T>(xs: seq<T>, ys: seq<T>, p: T -> bool)
    ensures Filter(xs + ys, p) == Filter(xs, p) + Filter(ys, p)
  {
    if |xs| > 0 {
      assert (xs + ys)[1..] == xs[1..] + ys;
      FilterAppend(xs[1..], ys, p);
    } else {
      assert xs + ys == ys;
    }
  }

  /** Filtering twice by the same test is filtering once. */
  lemma {:induction false} FilterIdempotent<T>(xs: seq<T>, p: T -> bool)
    ensures Filter(Filter(xs, p), p) == Filter(xs, p)
  {
    if |xs| > 0 {
      FilterIdempotent(xs[1..], p);
      var rest := Filter(xs[1..], p);
      if p(xs[0]) {
        assert ([xs[0]] + rest)[1..] == rest;
      }
    }
  }

  /** Filtering by `p` and then by `q` is filtering once by their conjunction `pq`. */
  lemma {:induction false} FilterFilter<T>(xs: seq<T>, p: T -> bool, q: T -> bool, pq: T -> bool)
    requires forall x :: pq(x) == (p(x) && q(x))
    ensures Filter(Filter(xs, p), q) == Filter(xs, pq)
  {
    if |xs| > 0 {
      FilterFilter(xs[1..], p, q, pq);
      var rest := Filter(xs[1..], p);
      if p(xs[0]) {
        assert ([xs[0]] + rest)[1..] == rest;
      }
    }
  }

  /** A filter that keeps everything is the identity. */
  lemma {:induction false} FilterAll<T>(xs: seq<T>, p: T -> bool)
    requires forall i :: 0 <= i < |xs| ==> p(xs[i])
    ensures Filter(xs, p) == xs
  {
    if |xs| > 0 {
      FilterAll(xs[1..], p);
      assert xs == [xs[0]] + xs[1..];
    }
  }

  /** Putting the same element in front of two sequences keeps a relation between their
      filtered forms: if `t` filters to what `u` filters to followed by `extra`, so does `a`
      followed by `t` to `a` followed by `u`. */
  lemma FilterConsKeeps<T>(a: T, t: seq<T>, u: seq<T>, extra: seq<T>, p: T -> bool)
    requires Filter(t, p) == Filter(u, p) + extra
    ensures Filter([a] + t, p) == Filter([a] + u, p) + extra
  {
    var ft, fu := Filter(t, p), Filter(u, p);
    FilterCons(a, t, p);
    FilterCons(a, u, p);
    if p(a) {
      calc {
        Filter([a] + t, p);
        [a] + ft;
        [a] + (fu + extra);
        { AppendAssoc([a], fu, extra); }
        [a] + fu + extra;
        Filter([a] + u, p) + extra;
      }
    }
  }

  /** Concatenation regroups freely; stated apart so that the solver meets it without the
      filter facts around it. */
  lemma AppendAssoc<T>(x: seq<T>, y: seq<T>, z: seq<T>)
    ensures x + (y + z) == x + y + z
  {
  }

  /** Filtering a sequence that starts with `a`. */
  lemma FilterCons<T>(a: T, t: seq<T>, p: T -> bool)
    ensures Filter([a] + t, p) == if p(a) then [a] + Filter(t, p) else Filter(t, p)
  {
    assert ([a] + t)[1..] == t;
  }

  /** A filter that keeps nothing gives the empty sequence. */
  lemma {:induction false} FilterNone<T>(xs: seq<T>, p: T -> bool)
    requires forall i :: 0 <= i < |xs| ==> !p(xs[i])
    ensures Filter(xs, p) == []
  {
    if |xs| > 0 {
      FilterNone(xs[1..], p);
    }
  }

  /** Filtering keeps the order of first occurrences: what comes first among the kept elements
      came first in the whole sequence. */
  lemma {:induction false} FilterKeepsOrder<T>(xs: seq<T>, p: T -> bool, u: T, v: T)
    requires u in Filter(xs, p) && v in Filter(xs, p)
    requires FirstIndex(Filter(xs, p), u) < FirstIndex(Filter(xs, p), v)
    ensures u in xs && v in xs
    ensures FirstIndex(xs, u) < FirstIndex(xs, v)
  {
    var f := Filter(xs, p);
    var rest := Filter(xs[1..], p);
    if xs[0] != u {
      if p(xs[0]) {
        assert f == [xs[0]] + rest && f[0] != u && f[0] != v;
        assert u in rest && v in rest by { assert f[FirstIndex(f, u)] == u && f[FirstIndex(f, v)] == v; }
        assert FirstIndex(f, u) == 1 + FirstIndex(rest, u);
        assert FirstIndex(f, v) == 1 + FirstIndex(rest, v);
      }
      FilterKeepsOrder(xs[1..], p, u, v);
    }
  }

  /** Number of elements of `xs` that satisfy `p`. */
  function CountWhere<T>(xs: seq<T>, p: T -> bool): nat
  {
    if |xs| == 0 then 0 else CountWhere(xs[..|xs| - 1], p) + (if p(xs[|xs| - 1]) then 1 else 0)
  }

  /** Counting a prefix one element further. */
  lemma CountWhereSnoc<T>(xs: seq<T>, x: T, p: T -> bool)
    ensures CountWhere(xs + [x], p) == CountWhere(xs, p) + if p(x) then 1 else 0
  {
    assert (xs + [x])[..|xs|] == xs;
  }

  /** The count is the length of the filtered sequence. */
  lemma {:induction false} CountWhereIsFilterLength<T>(xs: seq<T>, p: T -> bool)
    ensures CountWhere(xs, p) == |Filter(xs, p)|
  {
    if |xs| > 0 {
      var n := |xs| - 1;
      CountWhereIsFilterLength(xs[..n], p);
      assert xs == xs[..n] + [xs[n]];
      FilterAppend(xs[..n], [xs[n]], p);
      assert [xs[n]][1..] == [];
    }
  }

  /** A weaker test counts at least as many elements. */
  lemma {:induction false} CountWhereMono<T>(xs: seq<T>, p: T -> bool, q: T -> bool)
    requires forall x :: p(x) ==> q(x)
    ensures CountWhere(xs, p) <= CountWhere(xs, q)
  {
    if |xs| > 0 {
      CountWhereMono(xs[..|xs| - 1], p, q);
    }
  }

  /** Two tests that agree on every element count the same elements. */
  lemma {:induction false} CountWhereAgree<T>(xs: seq<T>, p: T -> bool, q: T -> bool)
    requires forall x :: p(x) == q(x)
    ensures CountWhere(xs, p) == CountWhere(xs, q)
  {
    if |xs| > 0 {
      CountWhereAgree(xs[..|xs| - 1], p, q);
    }
  }

  /** A test that is the disjoint union of two others counts what the two count together. */
  lemma {:induction false} CountWhereDisjoint<T>(xs: seq<T>, p: T -> bool, q: T -> bool, pq: T -> bool)
    requires forall x :: pq(x) == (p(x) || q(x))
    requires forall x :: !(p(x) && q(x))
    ensures CountWhere(xs, pq) == CountWhere(xs, p) + CountWhere(xs, q)
  {
    if |xs| > 0 {
      CountWhereDisjoint(xs[..|xs| - 1], p, q, pq);
    }
  }

  /** Index of the first occurrence of `x` in `xs`. */
  function FirstIndex<T(==)>(xs: seq<T>, x: T): (k: nat)
    requires x in xs
    ensures k < |xs| && xs[k] == x
    ensures forall j :: 0 <= j < k ==> xs[j] != x
  {
    if xs[0] == x then 0 else 1 + FirstIndex(xs[1..], x)
  }

  /** An occurrence inside a prefix is found at the same index in the whole sequence. */
  lemma {:induction false} FirstIndexPrefix<T>(xs: seq<T>, n: nat, x: T)
    requires n <= |xs| && x in xs[..n]
    ensures FirstIndex(xs, x) == FirstIndex(xs[..n], x)
  {
    assert xs[..n][0] == xs[0];
    if xs[0] != x {
      assert xs[..n][1..] == xs[1..][..n - 1];
      FirstIndexPrefix(xs[1..], n - 1, x);
    }
  }

  /** No element occurs twice. */
  predicate NoDuplicates<T(==)>(s: seq<T>)
  {
    forall i, j :: 0 <= i < j < |s| ==> s[i] != s[j]
  }

  /** The distinct elements of `xs`, in order of first appearance. */
  function Distinct<T(==)>(xs: seq<T>): (r: seq<T>)
    ensures NoDuplicates(r)
    ensures forall i :: 0 <= i < |r| ==> r[i] in xs
    ensures forall i :: 0 <= i < |xs| ==> xs[i] in r
  {
    if |xs| == 0 then []
    else
      var init := xs[..|xs| - 1];
      var d := Distinct(init);
      var last := xs[|xs| - 1];
      assert xs == init + [last];
      if last in d then d else d + [last]
  }

  /** Each of `r`'s elements occurs in `xs`, and the earlier one in `r` first occurs earlier in `xs`. */
  predicate InFirstAppearanceOrder<T(==)>(r: seq<T>, xs: seq<T>)
  {
    && (forall i :: 0 <= i < |r| ==> r[i] in xs)
    && (forall i, j :: 0 <= i < j < |r| ==> FirstIndex(xs, r[i]) < FirstIndex(xs, r[j]))
  }

  /** First occurrences inside a prefix are first occurrences in the whole sequence. */
  lemma FirstAppearancePrefix<T>(r: seq<T>, xs: seq<T>, n: nat)
    requires n <= |xs| && InFirstAppearanceOrder(r, xs[..n])
    ensures InFirstAppearanceOrder(r, xs)
  {
    forall i | 0 <= i < |r|
      ensures r[i] in xs && FirstIndex(xs, r[i]) == FirstIndex(xs[..n], r[i])
    {
      FirstIndexPrefix(xs, n, r[i]);
    }
  }

  /** `Distinct` lists each element at the place of its first appearance: an element listed
      earlier first appears earlier in `xs`. */
  lemma {:induction false} DistinctFirstAppearance<T>(xs: seq<T>)
    ensures InFirstAppearanceOrder(Distinct(xs), xs)
  {
    if |xs| > 0 {
      var n := |xs| - 1;
      var init := xs[..n];
      var d := Distinct(init);
      var last := xs[n];
      DistinctFirstAppearance(init);
      FirstAppearancePrefix(d, xs, n);
      if last !in d {
        LastFirstAppearance(d, xs, n);
      }
    }
  }

  /** Appending an element that first occurs at the end keeps first-appearance order. */
  lemma LastFirstAppearance<T>(d: seq<T>, xs: seq<T>, n: nat)
    requires n + 1 == |xs| && xs[n] !in xs[..n]
    requires InFirstAppearanceOrder(d, xs) && InFirstAppearanceOrder(d, xs[..n])
    ensures InFirstAppearanceOrder(d + [xs[n]], xs)
  {
    var r := d + [xs[n]];
    assert FirstIndex(xs, xs[n]) == n;
    forall i | 0 <= i < |d|
      ensures FirstIndex(xs, d[i]) < n
    {
      FirstIndexPrefix(xs, n, d[i]);
    }
  }
}
