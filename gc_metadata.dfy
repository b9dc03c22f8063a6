/** Garbage-collection metadata: the time of the last collection, the
    time-to-live policy, and a fixed number of age buckets over the TTL. */
module GC {
  import opened Base

  datatype GCMetadata = GCMetadata(LastGCNanos: int64, TTLSeconds: int32, ByteCounts: seq<int64>)

  const NanosPerSecond: int := 1_000_000_000

  /** Euclidean division of a non-negative number by a positive one
      brackets the dividend between consecutive multiples of the divisor. */
  lemma DivBrackets(n: int, d: int)
    requires n >= 0 && d > 0
    ensures 0 <= n / d && (n / d) * d <= n < (n / d) * d + d
  {
    assert n == (n / d) * d + n % d;
  }

  /** Go's `/` by a positive divisor: the quotient truncated toward zero. */
  function GoDiv(a: int, b: int): (q: int)
    requires b > 0
    ensures a >= 0 ==> 0 <= q && q * b <= a < q * b + b
    ensures a < 0 ==> q <= 0 && q * b - b < a <= q * b
  {
    if a >= 0 then
      DivBrackets(a, b);
      a / b
    else
      DivBrackets(-a, b);
      assert -(-a / b) * b == -((-a / b) * b);
      -(-a / b)
  }

  /** The metadata the estimate needs: at least one bucket, and a TTL long
      enough that each bucket spans at least one nanosecond. */
  predicate WellFormed(gc: GCMetadata)
  {
    |gc.ByteCounts| > 0 && gc.TTLSeconds * NanosPerSecond >= |gc.ByteCounts|
  }

  /** The width of one age bucket in nanoseconds: TTL / bucket count,
      truncated. */
  function BucketNanos(gc: GCMetadata): (w: int)
    requires WellFormed(gc)
    ensures w > 0 && w * |gc.ByteCounts| <= gc.TTLSeconds * NanosPerSecond
    ensures gc.TTLSeconds * NanosPerSecond < (w + 1) * |gc.ByteCounts|
  {
    GoDiv(gc.TTLSeconds * NanosPerSecond, |gc.ByteCounts|)
  }

  /** GCMetadata.EstimatedBytes at time `nowNanos`, with no current
      non-live bytes: the number of whole buckets elapsed since the last
      collection, never negative and at most the bucket count. */
  function EstimatedBytes(gc: GCMetadata, nowNanos: int64): (r: int)
    requires WellFormed(gc)
    ensures 0 <= r <= |gc.ByteCounts|
    ensures r > 0 ==> r * BucketNanos(gc) <= nowNanos - gc.LastGCNanos
    ensures r < |gc.ByteCounts| ==> nowNanos - gc.LastGCNanos < r * BucketNanos(gc) + BucketNanos(gc)
  {
    var w := BucketNanos(gc);
    var k := GoDiv(nowNanos - gc.LastGCNanos, w);
    if k < 0 then 0
    else if k > |gc.ByteCounts| then
      MulLeftMono(|gc.ByteCounts|, k, w);
      |gc.ByteCounts|
    else k
  }

  lemma MulLeftMono(x: int, y: int, w: int)
    requires x <= y && w > 0
    ensures x * w <= y * w
  {
  }

  /** The estimate never decreases as time passes. */
  lemma EstimatedBytesMonotone(gc: GCMetadata, t1: int64, t2: int64)
    requires WellFormed(gc) && t1 <= t2
    ensures EstimatedBytes(gc, t1) <= EstimatedBytes(gc, t2)
  {
    var r1, r2, w := EstimatedBytes(gc, t1), EstimatedBytes(gc, t2), BucketNanos(gc);
    if r1 > r2 {
      assert (r2 + 1) * w == r2 * w + w;
      MulLeftMono(r2 + 1, r1, w);
    }
  }

  /** The estimate is zero until one whole bucket has elapsed, and the
      bucket count once the whole TTL has. */
  lemma EstimatedBytesBounds(gc: GCMetadata, nowNanos: int64)
    requires WellFormed(gc)
    ensures nowNanos - gc.LastGCNanos < BucketNanos(gc) ==> EstimatedBytes(gc, nowNanos) == 0
    ensures nowNanos - gc.LastGCNanos >= gc.TTLSeconds * NanosPerSecond
        ==> EstimatedBytes(gc, nowNanos) == |gc.ByteCounts|
  {
    var r, w, n := EstimatedBytes(gc, nowNanos), BucketNanos(gc), |gc.ByteCounts|;
    if r > 0 {
      MulLeftMono(1, r, w);
    }
    if r < n {
      MulLeftMono(r + 1, n, w);
    }
  }

  /** The metadata of the test: last collection at 0, TTL 100 s, 10 buckets. */
  const TestMetadata: GCMetadata := GCMetadata(0, 100, [10, 9, 8, 7, 6, 5, 4, 3, 2, 1])

  /** At `i` seconds, for -1 <= i < 110, the estimate is Go's i / 10. */
  lemma TestMetadataEstimates(i: int)
    requires -1 <= i < 110
    ensures WellFormed(TestMetadata)
    ensures EstimatedBytes(TestMetadata, i * NanosPerSecond) == GoDiv(i, 10)
  {
    assert BucketNanos(TestMetadata) == 10 * NanosPerSecond;
    var r := EstimatedBytes(TestMetadata, i * NanosPerSecond);
    var q := GoDiv(i, 10);
    if i >= 0 {
      assert r * 10 <= i < (r + 1) * 10 || (r == 10 && i >= 100);
      assert q * 10 <= i < (q + 1) * 10;
    }
  }
}
