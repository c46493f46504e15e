/** The histogram of measured gaps (processing/moongen_src/histogram.cpp:8-96). */
module Histogram {
  import opened Prelude
  import opened OnlineStats

  // ---- Buckets ----

  /** C++ division, which truncates toward zero. */
  function TruncDiv(a: int, b: nat): int
    requires b > 0
  {
    if a >= 0 then a / b else -(-a / b)
  }

  /** The bucket of a value, as `update` computes it. */
  function Bucket(x: int, size: nat): int
    requires size > 0
  {
    var half := size / 2;
    TruncDiv(if x > 0 then x + half else if x < 0 then x - half else x, size) * size
  }

  /**
   * A bucket is a multiple of the size. A positive bucket takes the `size` values from half a size
   * below it on, a negative one their mirror images, and bucket 0 what lies between, which for an
   * even size is one value less.
   */
  lemma BucketIff(x: int, size: nat, k: int)
    requires size > 0
    ensures Bucket(x, size) == k * size <==> InRange(x, size, k)
    ensures exists j: int :: Bucket(x, size) == j * size
  {
    if x >= 0 {
      UpperBucketIff(x, size, k);
    } else {
      LowerBucketIff(x, size, k);
    }
  }

  predicate InRange(x: int, size: nat, k: int) {
    if k > 0 then k * size - size / 2 <= x < k * size - size / 2 + size
    else if k < 0 then k * size + size / 2 - size < x <= k * size + size / 2
    else -(size - size / 2) < x < size - size / 2
  }

  lemma UpperBucketIff(x: nat, size: nat, k: int)
    requires size > 0
    ensures Bucket(x, size) == k * size <==> InRange(x, size, k)
    ensures exists j: int :: Bucket(x, size) == j * size
  {
    var a := if x > 0 then x + size / 2 else x;
    QuotientIff(a, size, k);
    SignOfProduct(k, size);
    assert Bucket(x, size) == a / size * size;
  }

  lemma LowerBucketIff(x: int, size: nat, k: int)
    requires size > 0 && x < 0
    ensures Bucket(x, size) == k * size <==> InRange(x, size, k)
    ensures exists j: int :: Bucket(x, size) == j * size
  {
    var a := size / 2 - x;
    QuotientIff(a, size, -k);
    Negate(k, size);
    Negate(a / size, size);
    SignOfProduct(-k, size);
    assert Bucket(x, size) == -(a / size) * size;
  }

  lemma Negate(k: int, size: nat)
    ensures -k * size == -(k * size)
  {
  }

  lemma SignOfProduct(k: int, size: nat)
    ensures k > 0 ==> k * size >= size
    ensures k < 0 ==> k * size + size <= 0
  {
    if k > 0 { Scale(1, k, size); }
    if k < 0 { Scale(k, -1, size); }
  }

  lemma QuotientIff(a: nat, size: nat, k: int)
    requires size > 0
    ensures a / size * size == k * size <==> k * size <= a < k * size + size
  {
    var q := a / size;
    QuotientBounds(a, size);
    if q < k {
      Scale(q + 1, k, size);
      Distribute(q, size);
    } else if q > k {
      Scale(k + 1, q, size);
      Distribute(k, size);
    }
  }

  lemma QuotientBounds(a: nat, size: nat)
    requires size > 0
    ensures a / size * size <= a < a / size * size + size
  {
    assert a == size * (a / size) + a % size;
  }

  lemma Distribute(a: int, m: nat)
    ensures (a + 1) * m == a * m + m
  {
  }

  lemma Scale(a: int, b: int, m: nat)
    requires a <= b
    ensures a * m <= b * m
  {
  }

  type Bucketing = int -> int

  function BucketOf(size: nat): Bucketing
    requires size > 0
  {
    (x: int) => Bucket(x, size)
  }

  /** How many of the values fall into bucket `b`. */
  function InBucket(xs: seq<int>, f: Bucketing, b: int): nat {
    if xs == [] then 0
    else InBucket(xs[..|xs| - 1], f, b) + if f(xs[|xs| - 1]) == b then 1 else 0
  }

  lemma {:induction false} InBucketSnoc(xs: seq<int>, x: int, f: Bucketing, b: int)
    ensures InBucket(xs + [x], f, b) == InBucket(xs, f, b) + if f(x) == b then 1 else 0
  {
    assert (xs + [x])[..|xs|] == xs;
  }

  /** The values as reals. */
  function Reals(xs: seq<int>): (r: seq<real>)
    ensures |r| == |xs|
  {
    if xs == [] then [] else Reals(xs[..|xs| - 1]) + [xs[|xs| - 1] as real]
  }

  lemma {:induction false} RealsSnoc(xs: seq<int>, x: int)
    ensures Reals(xs + [x]) == Reals(xs) + [x as real]
  {
    assert (xs + [x])[..|xs|] == xs;
  }

  /** A bucket is in the map once it has been hit, with the number of its values, modulo 2^32. */
  ghost predicate Stored(storage: map<int, u32>, xs: seq<int>, f: Bucketing) {
    && (forall b :: b in storage <==> InBucket(xs, f, b) > 0)
    && (forall b :: b in storage ==> storage[b] == InBucket(xs, f, b) % U32_MOD)
  }

  function Incremented(storage: map<int, u32>, b: int): map<int, u32> {
    storage[b := ((if b in storage then storage[b] else 0) + 1) % U32_MOD]
  }

  lemma StoredSnoc(storage: map<int, u32>, xs: seq<int>, x: int, f: Bucketing)
    requires Stored(storage, xs, f)
    ensures Stored(Incremented(storage, f(x)), xs + [x], f)
  {
    var storage' := Incremented(storage, f(x));
    forall b: int
      ensures b in storage' <==> InBucket(xs + [x], f, b) > 0
      ensures b in storage' ==> storage'[b] == InBucket(xs + [x], f, b) % U32_MOD
    {
      InBucketSnoc(xs, x, f, b);
      assert b !in storage ==> InBucket(xs, f, b) == 0;
    }
  }

  // ---- The class ----

  class Hist {
    const bucketSize: nat
    var count: nat
    var mean: real
    var m2: real
    var variance: real
    var storage: map<int, u32>
    /** Every value that `Update` was given. */
    ghost var values: seq<int>

    function Current(): Stats
      reads this
    {
      Stats(count, mean, m2)
    }

    /** The fields say what the values so far say. */
    ghost predicate Valid()
      reads this
    {
      && bucketSize > 0 && IsTwoPass(Current(), Reals(values)) && Stored(storage, values, BucketOf(bucketSize))
      && (count < 2 ==> variance == 0.0)
    }

    constructor (size: u32)
      requires size > 0
      ensures Valid() && values == [] && bucketSize == size && variance == 0.0
    {
      bucketSize := size;
      count, mean, m2, variance := 0, 0.0, 0.0, 0.0;
      storage := map[];
      values := [];
    }

    /** The part of `update` that keeps the mean and the variance. */
    method Measure(newVal: int, ghost xs: seq<real>)
      requires IsTwoPass(Current(), xs)
      modifies this`count, this`mean, this`m2
      ensures Current() == OnlineStats.Update(old(Current()), newVal as real)
      ensures IsTwoPass(Current(), xs + [newVal as real])
    {
      UpdateIsTwoPass(Current(), xs, newVal as real);
      count := count + 1;
      var delta := newVal as real - mean;
      mean := mean + delta / count as real;
      var delta2 := newVal as real - mean;
      m2 := m2 + delta * delta2;
    }

    /** The part of `update` that counts the value in its bucket. */
    method Store(newVal: int)
      requires bucketSize > 0
      modifies this`storage
      ensures storage == Incremented(old(storage), Bucket(newVal, bucketSize))
    {
      var val := newVal;
      var half := bucketSize / 2;
      if val > 0 {
        val := val + half;
      } else if val < 0 {
        val := val - half;
      }
      val := TruncDiv(val, bucketSize) * bucketSize;
      var seen := if val in storage then storage[val] else 0;
      storage := storage[val := (seen + 1) % U32_MOD];
    }

    /** `update`; false for a negative value, which is counted all the same. */
    method Update(newVal: int) returns (ret: bool)
      requires Valid()
      modifies this
      ensures Valid() && values == old(values) + [newVal] && variance == old(variance)
      ensures ret <==> newVal >= 0
    {
      ret := newVal >= 0;
      Measure(newVal, Reals(values));
      Store(newVal);
      StoredSnoc(old(storage), values, newVal, BucketOf(bucketSize));
      RealsSnoc(values, newVal);
      values := values + [newVal];
    }

    /** The stored bucket counts add up to the number of values, modulo 2^32. */
    lemma CountsAddUp()
      requires Valid()
      ensures Total(storage, storage.Keys) % U32_MOD == count % U32_MOD
    {
      StoredCountsAddUp(storage, values, BucketOf(bucketSize));
    }

    /** `finalize`: the two-pass sample variance, 0 before the second value. */
    method Finalize()
      requires Valid()
      modifies this`variance
      ensures Valid() && variance == if |values| < 2 then 0.0 else SampleVariance(Reals(values))
    {
      FinalizedIsTwoPass(Current(), Reals(values));
      if count >= 2 {
        variance := m2 / (count - 1) as real;
      }
    }
  }

  /** The counts of some buckets, summed. */
  function BucketSum(xs: seq<int>, f: Bucketing, bs: seq<int>): nat {
    if bs == [] then 0 else InBucket(xs, f, bs[0]) + BucketSum(xs, f, bs[1..])
  }

  ghost predicate Distinct(bs: seq<int>) { forall i, j :: 0 <= i < j < |bs| ==> bs[i] != bs[j] }

  lemma {:induction false} BucketSumSnoc(xs: seq<int>, x: int, f: Bucketing, bs: seq<int>)
    requires Distinct(bs)
    ensures BucketSum(xs + [x], f, bs) == BucketSum(xs, f, bs) + if f(x) in bs then 1 else 0
    decreases |bs|
  {
    if bs != [] {
      InBucketSnoc(xs, x, f, bs[0]);
      BucketSumSnoc(xs, x, f, bs[1..]);
      assert forall b :: b in bs <==> b == bs[0] || b in bs[1..];
      assert bs[0] !in bs[1..];
    }
  }

  /** Every value is counted in exactly one bucket: the counts of all buckets that occur add up to the count. */
  lemma {:induction false} BucketsHoldAll(xs: seq<int>, f: Bucketing, bs: seq<int>)
    requires Distinct(bs) && forall i :: 0 <= i < |xs| ==> f(xs[i]) in bs
    ensures BucketSum(xs, f, bs) == |xs|
    decreases |xs|
  {
    if xs == [] {
      NoValues(f, bs);
    } else {
      var (ys, x) := (xs[..|xs| - 1], xs[|xs| - 1]);
      forall i | 0 <= i < |ys| ensures f(ys[i]) in bs { assert xs[i] == ys[i]; }
      BucketsHoldAll(ys, f, bs);
      BucketSumSnoc(ys, x, f, bs);
      assert ys + [x] == xs;
    }
  }

  lemma {:induction false} NoValues(f: Bucketing, bs: seq<int>)
    ensures BucketSum([], f, bs) == 0
  {
    if bs != [] { NoValues(f, bs[1..]); }
  }

  // ---- The stored counts of an object ----

  /** The values of a map over some of its keys, summed. */
  ghost function Total(m: map<int, u32>, keys: set<int>): nat
    requires keys <= m.Keys
    decreases keys
  {
    if k :| k in keys then m[k] + Total(m, keys - {k}) else 0
  }

  /** It does not matter which key comes first. */
  lemma {:induction false} TotalSplit(m: map<int, u32>, keys: set<int>, k: int)
    requires k in keys && keys <= m.Keys
    ensures Total(m, keys) == m[k] + Total(m, keys - {k})
    decreases keys
  {
    var k0 :| k0 in keys && Total(m, keys) == m[k0] + Total(m, keys - {k0});
    if k0 != k {
      TotalSplit(m, keys - {k0}, k);
      TotalSplit(m, keys - {k}, k0);
      assert keys - {k0} - {k} == keys - {k} - {k0};
    }
  }

  /** The elements of a set one after the other. */
  lemma {:induction false} Enumerate(keys: set<int>) returns (bs: seq<int>)
    ensures Distinct(bs) && forall b :: b in bs <==> b in keys
    decreases keys
  {
    if k :| k in keys {
      var tail := Enumerate(keys - {k});
      bs := [k] + tail;
    } else {
      bs := [];
    }
  }

  lemma {:induction false} InSomeBucket(xs: seq<int>, f: Bucketing, i: nat)
    requires i < |xs|
    ensures InBucket(xs, f, f(xs[i])) > 0
  {
    if i < |xs| - 1 {
      InSomeBucket(xs[..|xs| - 1], f, i);
    }
  }

  lemma AddModulo(a: nat, b: nat, c: nat)
    requires b % U32_MOD == c % U32_MOD
    ensures (a % U32_MOD + b) % U32_MOD == (a + c) % U32_MOD
  {
    MultipleModulo(a % U32_MOD + b, a / U32_MOD + c / U32_MOD - b / U32_MOD);
    assert a + c == a % U32_MOD + b + U32_MOD * (a / U32_MOD + c / U32_MOD - b / U32_MOD);
  }

  lemma MultipleModulo(x: int, k: int)
    ensures (x + U32_MOD * k) % U32_MOD == x % U32_MOD
  {
  }

  lemma {:induction false} TotalIsBucketSum(m: map<int, u32>, xs: seq<int>, f: Bucketing, bs: seq<int>, keys: set<int>)
    requires Stored(m, xs, f) && Distinct(bs) && keys <= m.Keys && forall b :: b in bs <==> b in keys
    ensures Total(m, keys) % U32_MOD == BucketSum(xs, f, bs) % U32_MOD
    decreases |bs|
  {
    if bs != [] {
      var (b, tail) := (bs[0], bs[1..]);
      assert forall x :: x in bs <==> x == b || x in tail;
      assert b !in tail;
      TotalSplit(m, keys, b);
      TotalIsBucketSum(m, xs, f, tail, keys - {b});
      AddModulo(InBucket(xs, f, b), Total(m, keys - {b}), BucketSum(xs, f, tail));
    }
  }

  lemma {:induction false} StoredCountsAddUp(m: map<int, u32>, xs: seq<int>, f: Bucketing)
    requires Stored(m, xs, f)
    ensures Total(m, m.Keys) % U32_MOD == |xs| % U32_MOD
  {
    var bs := Enumerate(m.Keys);
    forall i | 0 <= i < |xs| ensures f(xs[i]) in bs { InSomeBucket(xs, f, i); }
    BucketsHoldAll(xs, f, bs);
    TotalIsBucketSum(m, xs, f, bs, m.Keys);
  }
}
