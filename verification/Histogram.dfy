/** The bucketed latency percentile, against the percentile of the full list of samples. */
module Histogram {

  // ---- The percentile of a list ----

  function CountLe(samples: seq<int>, x: int): (n: nat)
    ensures n <= |samples|
  {
    if samples == [] then 0 else (if samples[0] <= x then 1 else 0) + CountLe(samples[1..], x)
  }

  ghost predicate Sorted(xs: seq<int>) {
    forall i, j :: 0 <= i < j < |xs| ==> xs[i] <= xs[j]
  }

  /** ceil(0.99 n). */
  function Rank99(n: nat): nat {
    (99 * n + 99) / 100
  }

  lemma {:induction false} CountLeAppend(samples: seq<int>, v: int, x: int)
    ensures CountLe(samples + [v], x) == CountLe(samples, x) + if v <= x then 1 else 0
  {
    if samples == [] {
      assert [v][1..] == [];
    } else {
      CountLeAppend(samples[1..], v, x);
      assert (samples + [v])[1..] == samples[1..] + [v];
    }
  }

  lemma {:induction false} CountLeMonotone(samples: seq<int>, x: int, y: int)
    requires x <= y
    ensures CountLe(samples, x) <= CountLe(samples, y)
  {
    if samples != [] {
      CountLeMonotone(samples[1..], x, y);
    }
  }

  /** Counting does not depend on the order of the samples. */
  lemma {:induction false} CountLeMultiset(xs: seq<int>, ys: seq<int>, x: int)
    requires multiset(xs) == multiset(ys)
    ensures CountLe(xs, x) == CountLe(ys, x)
    decreases |xs|
  {
    if xs == [] {
      assert |multiset(ys)| == |ys| == 0;
    } else {
      assert xs[0] in multiset(ys);
      var k :| 0 <= k < |ys| && ys[k] == xs[0];
      var rest := ys[..k] + ys[k + 1..];
      TakeOut(ys, k, x);
      assert multiset(xs[1..]) == multiset(rest) by {
        assert xs == [xs[0]] + xs[1..];
      }
      CountLeMultiset(xs[1..], rest, x);
    }
  }

  lemma TakeOut(ys: seq<int>, k: nat, x: int)
    requires k < |ys|
    ensures multiset(ys[..k] + ys[k + 1..]) == multiset(ys) - multiset{ys[k]}
    ensures CountLe(ys, x) == CountLe(ys[..k] + ys[k + 1..], x) + if ys[k] <= x then 1 else 0
  {
    var l, r := ys[..k], ys[k + 1..];
    assert ys == l + ([ys[k]] + r);
    assert multiset(ys) == multiset(l) + multiset{ys[k]} + multiset(r);
    CountLeSplit(l, [ys[k]] + r, x);
    CountLeSplit(l, r, x);
    assert ([ys[k]] + r)[1..] == r;
  }

  lemma {:induction false} CountLeSplit(xs: seq<int>, ys: seq<int>, x: int)
    ensures CountLe(xs + ys, x) == CountLe(xs, x) + CountLe(ys, x)
  {
    if xs == [] {
      assert xs + ys == ys;
    } else {
      CountLeSplit(xs[1..], ys, x);
      assert (xs + ys)[1..] == xs[1..] + ys;
    }
  }

  /** The k-th smallest of a sorted list is at most x exactly when at least k of its elements are. */
  lemma {:induction false} KthSmallest(xs: seq<int>, k: nat, x: int)
    requires Sorted(xs) && 0 < k <= |xs|
    ensures xs[k - 1] <= x <==> CountLe(xs, x) >= k
  {
    if xs[0] > x {
      NoneLe(xs, x);
    } else if k > 1 {
      KthSmallest(xs[1..], k - 1, x);
    }
  }

  lemma {:induction false} NoneLe(xs: seq<int>, x: int)
    requires forall i :: 0 <= i < |xs| ==> xs[i] > x
    ensures CountLe(xs, x) == 0
  {
    if xs != [] {
      NoneLe(xs[1..], x);
    }
  }

  // ---- Buckets ----

  ghost predicate Increasing(buckets: seq<int>) {
    forall i, j :: 0 <= i < j < |buckets| ==> buckets[i] < buckets[j]
  }

  ghost predicate ValidBuckets(buckets: seq<int>) {
    Increasing(buckets) && forall i :: 0 <= i < |buckets| ==> buckets[i] > 0
  }

  const MILLISECONDS: seq<int> :=
    [1, 5, 10, 20, 50, 100, 150, 200, 250, 300, 400, 500, 1000, 2000, 5000, 10000, 9999999999]

  /** The samples that fall into some bucket: In drops a sample above the last one. */
  predicate Kept(buckets: seq<int>, v: int) {
    buckets != [] && v <= buckets[|buckets| - 1]
  }

  /** No latency below ten million seconds is dropped. */
  lemma MillisecondsAreValid()
    ensures ValidBuckets(MILLISECONDS)
    ensures forall v :: Kept(MILLISECONDS, v) <==> v <= 9999999999
  {
  }

  /** A latency between a millisecond and ten seconds is rounded up to at most two and a half times its length. */
  lemma BucketsAreClose(v: int) returns (b: int)
    requires 1 <= v <= 10000
    ensures b in MILLISECONDS && v <= b && 2 * b <= 5 * v
  {
    var k := 0;
    while MILLISECONDS[k] < v
      invariant 0 <= k < |MILLISECONDS| - 1
      invariant k > 0 ==> MILLISECONDS[k - 1] < v
    {
      k := k + 1;
    }
    b := MILLISECONDS[k];
  }

  /** The sum of the first n bucket counts. */
  function Sum(buckets: seq<int>, datas: map<int, int>, n: nat): int
    requires n <= |buckets| && forall i :: 0 <= i < |buckets| ==> buckets[i] in datas
  {
    if n == 0 then 0 else Sum(buckets, datas, n - 1) + datas[buckets[n - 1]]
  }

  /** The bucket counts add up, bucket by bucket, to the samples at or below the bucket. */
  ghost predicate Counts(buckets: seq<int>, datas: map<int, int>, samples: seq<int>) {
    && (forall i :: 0 <= i < |buckets| ==> buckets[i] in datas)
    && forall n :: 0 < n <= |buckets| ==> Sum(buckets, datas, n) == CountLe(samples, buckets[n - 1])
  }

  lemma {:induction false} SumUpdate(buckets: seq<int>, datas: map<int, int>, k: nat, n: nat)
    requires Increasing(buckets) && k < |buckets| && n <= |buckets|
    requires forall i :: 0 <= i < |buckets| ==> buckets[i] in datas
    ensures Sum(buckets, datas[buckets[k] := datas[buckets[k]] + 1], n) ==
            Sum(buckets, datas, n) + if k < n then 1 else 0
  {
    if n > 0 {
      SumUpdate(buckets, datas, k, n - 1);
    }
  }

  /** Putting a sample into the first bucket that is large enough keeps the counts. */
  lemma InKeepsCounts(buckets: seq<int>, datas: map<int, int>, samples: seq<int>, v: int, k: nat)
    requires Increasing(buckets) && Counts(buckets, datas, samples)
    requires k < |buckets| && v <= buckets[k] && forall j :: 0 <= j < k ==> buckets[j] < v
    ensures Counts(buckets, datas[buckets[k] := datas[buckets[k]] + 1], samples + [v])
  {
    var datas' := datas[buckets[k] := datas[buckets[k]] + 1];
    forall n | 0 < n <= |buckets| ensures Sum(buckets, datas', n) == CountLe(samples + [v], buckets[n - 1]) {
      SumUpdate(buckets, datas, k, n);
      CountLeAppend(samples, v, buckets[n - 1]);
      assert v <= buckets[n - 1] <==> k < n;
    }
  }

  lemma {:induction false} SumZero(buckets: seq<int>, datas: map<int, int>, n: nat)
    requires n <= |buckets| && forall i :: 0 <= i < |buckets| ==> buckets[i] in datas && datas[buckets[i]] == 0
    ensures Sum(buckets, datas, n) == 0
  {
    if n > 0 {
      SumZero(buckets, datas, n - 1);
    }
  }

  /** The 99th percentile rounded up to a bucket: the smallest bucket that at least 99 of 100 samples do not exceed. */
  ghost predicate IsP99(buckets: seq<int>, samples: seq<int>, out: int) {
    && out in buckets
    && 100 * CountLe(samples, out) >= 99 * |samples|
    && forall b :: b in buckets && b < out ==> 100 * CountLe(samples, b) < 99 * |samples|
  }

  /** In terms of the sorted samples, that is the smallest bucket at or above the ceil(0.99 n)-th smallest. */
  lemma P99IsPercentile(buckets: seq<int>, samples: seq<int>, sorted: seq<int>, out: int)
    requires samples != [] && Sorted(sorted) && multiset(sorted) == multiset(samples)
    requires IsP99(buckets, samples, out)
    ensures |sorted| == |samples| && 0 < Rank99(|samples|) <= |samples|
    ensures 100 * (Rank99(|samples|) - 1) < 99 * |samples| <= 100 * Rank99(|samples|)
    ensures var p := sorted[Rank99(|samples|) - 1];
            out in buckets && p <= out && forall b :: b in buckets && p <= b ==> out <= b
  {
    assert |multiset(sorted)| == |multiset(samples)|;
    var k := Rank99(|samples|);
    forall b ensures 100 * CountLe(samples, b) >= 99 * |samples| <==> sorted[k - 1] <= b {
      CountLeMultiset(sorted, samples, b);
      KthSmallest(sorted, k, b);
    }
  }

  // ---- The histogram ----

  class P99 {
    var count: int
    var datas: map<int, int>
    const buckets: seq<int>
    ghost var samples: seq<int>  // the samples kept since the last Reset

    ghost predicate Valid()
      reads this
    {
      && ValidBuckets(buckets)
      && Counts(buckets, datas, samples)
      && count == |samples|
      && forall i :: 0 <= i < |samples| ==> Kept(buckets, samples[i])
    }

    constructor (buckets: seq<int>)
      requires ValidBuckets(buckets)
      ensures Valid() && this.buckets == buckets && samples == []
    {
      this.buckets := buckets;
      count, samples := 0, [];
      datas := map[];
      new;
      Zero();
    }

    method Zero()
      modifies this`datas
      ensures (forall i :: 0 <= i < |buckets| ==> buckets[i] in datas && datas[buckets[i]] == 0)
      ensures Counts(buckets, datas, [])
    {
      for k := 0 to |buckets|
        invariant forall j :: 0 <= j < k ==> buckets[j] in datas && datas[buckets[j]] == 0
      {
        datas := datas[buckets[k] := 0];
      }
      forall n | 0 < n <= |buckets| ensures Sum(buckets, datas, n) == 0 {
        SumZero(buckets, datas, n);
      }
    }

    method Reset()
      requires Valid()
      modifies this
      ensures Valid() && samples == []
    {
      count := 0;
      Zero();
      samples := [];
    }

    /** Counts v in the first bucket at or above it. */
    method In(v: int)
      requires Valid()
      modifies this
      ensures Valid()
      ensures samples == old(samples) + if Kept(buckets, v) then [v] else []
    {
      for k := 0 to |buckets|
        invariant Valid() && samples == old(samples)
        invariant forall j :: 0 <= j < k ==> buckets[j] < v
      {
        if buckets[k] >= v {
          InKeepsCounts(buckets, datas, samples, v, k);
          datas := datas[buckets[k] := datas[buckets[k]] + 1];
          count := count + 1;
          samples := samples + [v];
          return;
        }
      }
    }

    /** The percentile of the samples since the last Reset, and 0 exactly when there are none. */
    method Out() returns (out: int)
      requires Valid()
      ensures samples == [] ==> out == 0
      ensures samples != [] ==> out > 0 && IsP99(buckets, samples, out)
    {
      if count == 0 {
        return 0;
      }
      var sum := 0;
      for k := 0 to |buckets|
        invariant sum == Sum(buckets, datas, k)
        invariant forall j :: 0 <= j < k ==> 100 * CountLe(samples, buckets[j]) < 99 * |samples|
      {
        sum := sum + datas[buckets[k]];
        assert sum == Sum(buckets, datas, k + 1) == CountLe(samples, buckets[k]);
        if 100 * sum >= 99 * count {
          return buckets[k];
        }
      }
      assert Kept(buckets, samples[0]);
      AllKept(buckets, samples);
      return 0;
    }
  }

  lemma {:induction false} AllKept(buckets: seq<int>, samples: seq<int>)
    requires forall i :: 0 <= i < |samples| ==> Kept(buckets, samples[i])
    ensures buckets != [] ==> CountLe(samples, buckets[|buckets| - 1]) == |samples|
  {
    if samples != [] {
      AllKept(buckets, samples[1..]);
    }
  }

  // ---- One histogram per protocol number ----

  /** The map from protocol to histogram; a histogram is made on first use. */
  class ProtoP99 {
    var protos: map<string, P99>

    ghost predicate Valid()
      reads this, protos.Values
    {
      && (forall k :: k in protos ==> protos[k].Valid() && protos[k].buckets == MILLISECONDS)
      && forall k, l :: k in protos && l in protos && k != l ==> protos[k] != protos[l]
    }

    /** The samples kept for a protocol since the last Reset. */
    ghost function Samples(proto: string): seq<int>
      reads this, protos.Values
    {
      if proto in protos then protos[proto].samples else []
    }

    constructor ()
      ensures Valid() && protos == map[]
    {
      protos := map[];
    }

    method In(proto: string, v: int)
      requires Valid()
      modifies this, protos.Values
      ensures Valid()
      ensures Samples(proto) == old(Samples(proto)) + if Kept(MILLISECONDS, v) then [v] else []
      ensures forall k :: k != proto ==> Samples(k) == old(Samples(k))
    {
      if proto !in protos {
        MillisecondsAreValid();
        var p := new P99(MILLISECONDS);
        protos := protos[proto := p];
      }
      protos[proto].In(v);
    }

    /** Reports the protocols that have had samples, each with its percentile. */
    method Out() returns (ret: map<string, int>)
      requires Valid()
      ensures forall k :: k in ret <==> Samples(k) != []
      ensures forall k :: k in ret ==> IsP99(MILLISECONDS, Samples(k), ret[k])
    {
      ret := map[];
      var keys := protos.Keys;
      while keys != {}
        invariant keys <= protos.Keys
        invariant forall k :: k in ret <==> k in protos.Keys - keys && Samples(k) != []
        invariant forall k :: k in ret ==> IsP99(MILLISECONDS, Samples(k), ret[k])
        decreases keys
      {
        var k :| k in keys;
        keys := keys - {k};
        var v := protos[k].Out();
        if v > 0 {
          ret := ret[k := v];
        }
      }
    }

    method Reset()
      requires Valid()
      modifies protos.Values
      ensures Valid() && forall k :: Samples(k) == []
    {
      var keys := protos.Keys;
      while keys != {}
        invariant keys <= protos.Keys && Valid()
        invariant forall k :: k in protos && k !in keys ==> protos[k].samples == []
        decreases keys
      {
        var k :| k in keys;
        keys := keys - {k};
        ResetOne(k);
      }
    }

    method ResetOne(k: string)
      requires Valid() && k in protos
      modifies protos[k]
      ensures Valid() && protos[k].samples == []
      ensures forall l :: l in protos && l != k ==> protos[l].samples == old(protos[l].samples)
    {
      protos[k].Reset();
    }
  }
}
