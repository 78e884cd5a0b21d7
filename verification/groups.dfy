/** Grouping values by key in first-appearance order: the `if (!agg[k]) agg[k] = {sum: 0,
    count: 0}; agg[k].sum += v; agg[k].count += 1` reducer the dashboard and the heatmap run
    over a JavaScript object, whose keys then come back in insertion order. */
module Groups {
  import opened Wrappers
  import opened Seqs

  /** The running total kept for one key. */
  datatype Bucket<K> = Bucket(key: K, sum: real, count: nat)

  /** The keys of keyed values, in order. */
  function Keys<K>(xs: seq<(K, real)>): (ks: seq<K>)
    ensures |ks| == |xs|
    ensures forall i :: 0 <= i < |xs| ==> ks[i] == xs[i].0
  {
    seq(|xs|, i requires 0 <= i < |xs| => xs[i].0)
  }

  /** The keys of the buckets, in order. */
  function BucketKeys<K>(acc: seq<Bucket<K>>): (ks: seq<K>)
    ensures |ks| == |acc|
    ensures forall i :: 0 <= i < |acc| ==> ks[i] == acc[i].key
  {
    seq(|acc|, i requires 0 <= i < |acc| => acc[i].key)
  }

  /** Reference: the sum of the values filed under `k`. */
  function KeySum<K(==)>(xs: seq<(K, real)>, k: K): real
  {
    if |xs| == 0 then 0.0
    else KeySum(xs[..|xs| - 1], k) + (if xs[|xs| - 1].0 == k then xs[|xs| - 1].1 else 0.0)
  }

  /** Reference: how many values are filed under `k`. */
  function KeyCount<K(==)>(xs: seq<(K, real)>, k: K): nat
  {
    if |xs| == 0 then 0
    else KeyCount(xs[..|xs| - 1], k) + (if xs[|xs| - 1].0 == k then 1 else 0)
  }

  /** A key that never occurs has count 0 and sum 0; one that occurs has a positive count. */
  lemma {:induction false} KeyCountPositive<K>(xs: seq<(K, real)>, k: K)
    ensures KeyCount(xs, k) > 0 <==> k in Keys(xs)
    ensures k !in Keys(xs) ==> KeySum(xs, k) == 0.0
  {
    if |xs| > 0 {
      var n := |xs| - 1;
      KeyCountPositive(xs[..n], k);
      assert Keys(xs) == Keys(xs[..n]) + [xs[n].0];
    }
  }

  /** Re-keying values one for one keeps a key's sum and count, when the new key `l` marks
      exactly the positions the old key `k` marked. */
  lemma {:induction false} KeyTotalsRekey<K, L>(xs: seq<(K, real)>, ys: seq<(L, real)>, k: K, l: L)
    requires |xs| == |ys|
    requires forall i :: 0 <= i < |xs| ==> xs[i].1 == ys[i].1 && (xs[i].0 == k <==> ys[i].0 == l)
    ensures KeySum(xs, k) == KeySum(ys, l) && KeyCount(xs, k) == KeyCount(ys, l)
  {
    if |xs| > 0 {
      var n := |xs| - 1;
      KeyTotalsRekey(xs[..n], ys[..n], k, l);
    }
  }

  /** Files `v` under `k`: the key's bucket grows, or a new bucket is appended at the end. */
  function AddTo<K(==)>(acc: seq<Bucket<K>>, k: K, v: real): (r: seq<Bucket<K>>)
  {
    var ks := BucketKeys(acc);
    if k in ks then
      var i := FirstIndex(ks, k);
      acc[i := Bucket(k, acc[i].sum + v, acc[i].count + 1)]
    else acc + [Bucket(k, 0.0 + v, 1)]
  }

  /** Files every value of `xs`, in order. */
  function AddAll<K(==)>(acc: seq<Bucket<K>>, xs: seq<(K, real)>): seq<Bucket<K>>
  {
    if |xs| == 0 then acc
    else AddTo(AddAll(acc, xs[..|xs| - 1]), xs[|xs| - 1].0, xs[|xs| - 1].1)
  }

  /** The buckets of `xs` from an empty object. */
  function Accumulate<K(==)>(xs: seq<(K, real)>): seq<Bucket<K>>
  {
    AddAll([], xs)
  }

  /** Filing two runs one after the other is filing their concatenation. */
  lemma {:induction false} AddAllAppend<K>(acc: seq<Bucket<K>>, xs: seq<(K, real)>, ys: seq<(K, real)>)
    ensures AddAll(acc, xs + ys) == AddAll(AddAll(acc, xs), ys)
  {
    if |ys| == 0 {
      assert xs + ys == xs;
    } else {
      var n := |ys| - 1;
      assert (xs + ys)[..|xs + ys| - 1] == xs + ys[..n];
      AddAllAppend(acc, xs, ys[..n]);
    }
  }

  /** The buckets hold exactly the distinct keys of `xs` in first-appearance order, each with
      the sum and the number of the values filed under it. */
  predicate Summarises<K(==)>(acc: seq<Bucket<K>>, xs: seq<(K, real)>)
  {
    && BucketKeys(acc) == Distinct(Keys(xs))
    && (forall i :: 0 <= i < |acc| ==> acc[i].sum == KeySum(xs, acc[i].key))
    && (forall i :: 0 <= i < |acc| ==> acc[i].count == KeyCount(xs, acc[i].key))
  }

  /** One more value moves only its own key's sum and count. */
  lemma KeyTotalsSnoc<K>(xs: seq<(K, real)>, k: K, v: real, key: K)
    ensures KeySum(xs + [(k, v)], key) == KeySum(xs, key) + (if key == k then v else 0.0)
    ensures KeyCount(xs + [(k, v)], key) == KeyCount(xs, key) + (if key == k then 1 else 0)
  {
    assert (xs + [(k, v)])[..|xs|] == xs;
  }

  /** One more value lists its key last, once, unless the key was seen before. */
  lemma DistinctKeysSnoc<K>(xs: seq<(K, real)>, k: K, v: real)
    ensures Distinct(Keys(xs + [(k, v)])) ==
      if k in Keys(xs) then Distinct(Keys(xs)) else Distinct(Keys(xs)) + [k]
  {
    var ks := Keys(xs + [(k, v)]);
    assert ks[..|xs|] == Keys(xs);
  }

  /** One more value keeps the summary exact. */
  lemma AddToSummarises<K>(acc: seq<Bucket<K>>, xs: seq<(K, real)>, k: K, v: real)
    requires Summarises(acc, xs)
    ensures Summarises(AddTo(acc, k, v), xs + [(k, v)])
  {
    var ys := xs + [(k, v)];
    var ks := BucketKeys(acc);
    DistinctKeysSnoc(xs, k, v);
    assert k in Keys(xs) <==> k in ks;
    forall key
      ensures KeySum(ys, key) == KeySum(xs, key) + (if key == k then v else 0.0)
      ensures KeyCount(ys, key) == KeyCount(xs, key) + (if key == k then 1 else 0)
    {
      KeyTotalsSnoc(xs, k, v, key);
    }
    if k in ks {
      AddToExisting(acc, xs, k, v);
    } else {
      AddToNew(acc, xs, k, v);
    }
  }

  /** Filing under a key without a bucket appends a bucket holding just that value. */
  lemma AddToNew<K>(acc: seq<Bucket<K>>, xs: seq<(K, real)>, k: K, v: real)
    requires Summarises(acc, xs) && k !in BucketKeys(acc)
    requires forall key :: KeySum(xs + [(k, v)], key) == KeySum(xs, key) + (if key == k then v else 0.0)
    requires forall key :: KeyCount(xs + [(k, v)], key) == KeyCount(xs, key) + (if key == k then 1 else 0)
    requires Distinct(Keys(xs + [(k, v)])) == Distinct(Keys(xs)) + [k]
    ensures Summarises(AddTo(acc, k, v), xs + [(k, v)])
  {
    var ys := xs + [(k, v)];
    var ks := BucketKeys(acc);
    assert k !in Keys(xs);
    KeyCountPositive(xs, k);
    var r := AddTo(acc, k, v);
    assert r == acc + [Bucket(k, 0.0 + v, 1)];
    assert BucketKeys(r) == ks + [k];
    forall j | 0 <= j < |r|
      ensures r[j].sum == KeySum(ys, r[j].key) && r[j].count == KeyCount(ys, r[j].key)
    {
      if j < |acc| {
        assert r[j].key == ks[j] != k;
      }
    }
  }

  /** Filing under a key that has a bucket grows that bucket only. */
  lemma AddToExisting<K>(acc: seq<Bucket<K>>, xs: seq<(K, real)>, k: K, v: real)
    requires Summarises(acc, xs) && k in BucketKeys(acc)
    requires forall key :: KeySum(xs + [(k, v)], key) == KeySum(xs, key) + (if key == k then v else 0.0)
    requires forall key :: KeyCount(xs + [(k, v)], key) == KeyCount(xs, key) + (if key == k then 1 else 0)
    requires Distinct(Keys(xs + [(k, v)])) == Distinct(Keys(xs))
    ensures Summarises(AddTo(acc, k, v), xs + [(k, v)])
  {
    var ys := xs + [(k, v)];
    var ks := BucketKeys(acc);
    var r := AddTo(acc, k, v);
    var i := FirstIndex(ks, k);
    assert BucketKeys(r) == ks;
    forall j | 0 <= j < |r|
      ensures r[j].sum == KeySum(ys, r[j].key) && r[j].count == KeyCount(ys, r[j].key)
    {
      if j != i {
        assert ks[j] != ks[i];
      }
    }
  }

  /** Filing every value yields the exact summary of the values. */
  lemma {:induction false} AddAllSummarises<K>(acc: seq<Bucket<K>>, xs: seq<(K, real)>, ys: seq<(K, real)>)
    requires Summarises(acc, xs)
    ensures Summarises(AddAll(acc, ys), xs + ys)
  {
    if |ys| == 0 {
      assert xs + ys == xs;
    } else {
      var n := |ys| - 1;
      AddAllSummarises(acc, xs, ys[..n]);
      AddToSummarises(AddAll(acc, ys[..n]), xs + ys[..n], ys[n].0, ys[n].1);
      assert xs + ys[..n] + [(ys[n].0, ys[n].1)] == xs + ys;
    }
  }

  /** The buckets of `xs`: one per distinct key in first-appearance order, carrying the sum and
      count of exactly that key's values, so every count is positive. */
  lemma AccumulateSummarises<K>(xs: seq<(K, real)>)
    ensures Summarises(Accumulate(xs), xs)
    ensures forall i :: 0 <= i < |Accumulate(xs)| ==> Accumulate(xs)[i].count > 0
  {
    var empty: seq<(K, real)> := [];
    var none: seq<Bucket<K>> := [];
    assert Summarises(none, empty);
    AddAllSummarises(none, empty, xs);
    assert empty + xs == xs;
    var acc := Accumulate(xs);
    forall i | 0 <= i < |acc|
      ensures acc[i].count > 0
    {
      assert acc[i].key in Keys(xs);
      KeyCountPositive(xs, acc[i].key);
    }
  }

  /** The bucket of a key, if the key occurs. */
  function Lookup<K(==)>(acc: seq<Bucket<K>>, k: K): (b: Option<Bucket<K>>)
    ensures b.Some? <==> k in BucketKeys(acc)
    ensures b.Some? ==> b.value in acc && b.value.key == k
  {
    var ks := BucketKeys(acc);
    if k in ks then Some(acc[FirstIndex(ks, k)]) else None
  }
}
