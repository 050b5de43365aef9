/** The percentile estimate from a histogram (src/sfmtool/_histogram_utils.py:9-46). */
module Histogram {
  import opened Arrays
  import opened RealProducts

  datatype Estimate = Value(z: real) | BadPercentile

  function Total(counts: seq<nat>): nat { Offset(counts, |counts|) }

  /** `searchsorted(cumsum(counts), target)`: the first bucket whose running count reaches it. */
  function FirstReaching(counts: seq<nat>, target: real, b: nat): (r: nat)
    requires b <= |counts|
    ensures b <= r <= |counts|
    ensures r > b ==> (Offset(counts, r) as real) < target
    ensures r < |counts| ==> Offset(counts, r + 1) as real >= target
    decreases |counts| - b
  {
    if b < |counts| && (Offset(counts, b + 1) as real) < target then FirstReaching(counts, target, b + 1) else b
  }

  /** Where the estimate lands, in buckets from the left end. */
  function Place(counts: seq<nat>, target: real): real
    requires |counts| > 0
  {
    var found := FirstReaching(counts, target, 0);
    var bucket := if found < |counts| - 1 then found else |counts| - 1;
    var before := if bucket > 0 then Offset(counts, bucket) else 0;
    if counts[bucket] > 0 then bucket as real + (target - before as real) / counts[bucket] as real
    else bucket as real
  }

  // ----- the piecewise-linear cumulative count -----

  /** The count left of a place `part` of the way through a bucket, the bucket's own count spread
      evenly over it. */
  function InBucket(counts: seq<nat>, bucket: nat, part: real): real
    requires bucket < |counts|
  {
    Offset(counts, bucket) as real + Share(counts[bucket], part)
  }

  function Share(count: nat, part: real): real {
    part * count as real
  }

  function BucketOf(counts: seq<nat>, place: real): (b: nat)
    requires |counts| > 0 && 0.0 <= place <= |counts| as real
    ensures b < |counts| && 0.0 <= place - b as real <= 1.0
  {
    if place.Floor < |counts| then place.Floor else |counts| - 1
  }

  function CumulativeAt(counts: seq<nat>, place: real): real
    requires |counts| > 0 && 0.0 <= place <= |counts| as real
  {
    InBucket(counts, BucketOf(counts, place), place - BucketOf(counts, place) as real)
  }

  lemma ShareBounds(count: nat, part: real)
    requires 0.0 <= part <= 1.0
    ensures 0.0 <= Share(count, part) <= count as real
    ensures Share(count, 0.0) == 0.0 && Share(count, 1.0) == count as real
  {
    ProductBounds(part, count as real);
    assert Share(count, part) == part * count as real;
  }

  lemma ProductBounds(x: real, w: real)
    requires 0.0 <= x <= 1.0 && w >= 0.0
    ensures 0.0 <= x * w <= w
  {
    ProductSign(x, w);
    ProductSign(1.0 - x, w);
    ProductOfDifference(x, 1.0, w);
  }

  lemma ShareIncreases(count: nat, part: real, more: real)
    requires part <= more
    ensures Share(count, part) <= Share(count, more)
    ensures count > 0 && part < more ==> Share(count, part) < Share(count, more)
  {
    ProductIsMonotone(part, more, count as real);
  }

  /** In any bucket a place lies in, ends included, the cumulative count reads the same. */
  lemma CumulativeInBucket(counts: seq<nat>, bucket: nat, part: real)
    requires bucket < |counts| && 0.0 <= part <= 1.0
    ensures CumulativeAt(counts, bucket as real + part) == InBucket(counts, bucket, part)
  {
    var place := bucket as real + part;
    ShareBounds(counts[bucket], part);
    if part == 1.0 && bucket + 1 < |counts| {
      assert BucketOf(counts, place) == bucket + 1;
      ShareBounds(counts[bucket + 1], 0.0);
    } else {
      assert BucketOf(counts, place) == bucket;
    }
  }

  /** What the estimate finds: a bucket, how far into it, and that nothing before reaches. */
  ghost predicate Lands(counts: seq<nat>, target: real, bucket: nat, part: real) {
    && bucket < |counts| && 0.0 <= part <= 1.0
    && InBucket(counts, bucket, part) == target
    && (part > 0.0 ==> counts[bucket] > 0)
    && (bucket > 0 ==> (Offset(counts, bucket) as real) < target)
  }

  lemma FindPart(before: real, count: nat, target: real) returns (part: real)
    requires count > 0 && 0.0 <= target - before <= count as real
    ensures part == (target - before) / count as real && 0.0 <= part <= 1.0 && Share(count, part) == target - before
  {
    part := (target - before) / count as real;
    assert part * count as real == target - before;
    if part > 1.0 {
      ShareIncreases(count, 1.0, part);
      ShareBounds(count, 1.0);
    } else if part < 0.0 {
      ShareIncreases(count, part, 0.0);
      ShareBounds(count, 0.0);
    }
  }

  lemma PlaceLands(counts: seq<nat>, target: real) returns (bucket: nat, part: real)
    requires Total(counts) > 0 && 0.0 <= target <= Total(counts) as real
    ensures Lands(counts, target, bucket, part) && Place(counts, target) == bucket as real + part
  {
    bucket := FirstReaching(counts, target, 0);
    assert bucket < |counts|;
    ShareBounds(counts[bucket], 0.0);
    if counts[bucket] > 0 {
      part := FindPart(Offset(counts, bucket) as real, counts[bucket], target);
    } else {
      part := 0.0;
    }
  }

  lemma LeftOfPlaceIsBelow(counts: seq<nat>, target: real, bucket: nat, part: real, left: real)
    requires Lands(counts, target, bucket, part) && 0.0 <= left < bucket as real + part
    ensures left <= |counts| as real && CumulativeAt(counts, left) < target
  {
    if left >= bucket as real {
      CumulativeInBucket(counts, bucket, left - bucket as real);
      ShareIncreases(counts[bucket], left - bucket as real, part);
    } else {
      var b := left.Floor;
      CumulativeInBucket(counts, b, left - b as real);
      ShareBounds(counts[b], left - b as real);
      OffsetMonotone(counts, b + 1, bucket);
    }
  }

  /** The place is in the histogram, the cumulative count there is the target, and it is below the
      target everywhere to the left: the place is the least with that count. */
  lemma PlaceIsLeastReaching(counts: seq<nat>, target: real, left: real)
    requires Total(counts) > 0 && 0.0 <= target <= Total(counts) as real
    ensures |counts| > 0 && 0.0 <= Place(counts, target) <= |counts| as real
    ensures CumulativeAt(counts, Place(counts, target)) == target
    ensures 0.0 <= left < Place(counts, target) ==> CumulativeAt(counts, left) < target
  {
    var bucket, part := PlaceLands(counts, target);
    CumulativeInBucket(counts, bucket, part);
    if 0.0 <= left < Place(counts, target) {
      LeftOfPlaceIsBelow(counts, target, bucket, part, left);
    }
  }

  // ----- the estimate -----

  function Target(counts: seq<nat>, percentile: real): real {
    Share(Total(counts), percentile / 100.0)
  }

  function Width(counts: seq<nat>, minZ: real, maxZ: real): real
    requires |counts| > 0
  {
    (maxZ - minZ) / |counts| as real
  }

  /** The value a number of buckets from the left end, and back. */
  function ZAt(minZ: real, width: real, place: real): real {
    minZ + place * width
  }

  function PlaceOf(minZ: real, width: real, z: real): real
    requires width > 0.0
  {
    (z - minZ) / width
  }

  function EstimateZ(counts: seq<nat>, minZ: real, maxZ: real, percentile: real): Estimate {
    if percentile < 0.0 || percentile > 100.0 then BadPercentile
    else if Total(counts) == 0 then Value((minZ + maxZ) / 2.0)
    else Value(ZAt(minZ, Width(counts, minZ, maxZ), Place(counts, Target(counts, percentile))))
  }

  lemma QuotientIsPositive(x: real, n: real)
    requires x > 0.0 && n > 0.0
    ensures x / n > 0.0
  {
  }

  lemma QuotientOfProduct(x: real, w: real)
    requires w > 0.0
    ensures x * w / w == x
  {
  }

  lemma PlaceAndBack(minZ: real, width: real, place: real)
    requires width > 0.0
    ensures PlaceOf(minZ, width, ZAt(minZ, width, place)) == place
  {
    QuotientOfProduct(place, width);
    assert ZAt(minZ, width, place) - minZ == place * width;
  }

  lemma PlaceInRange(minZ: real, maxZ: real, n: real, place: real)
    requires minZ < maxZ && n > 0.0 && 0.0 <= place <= n
    ensures (maxZ - minZ) / n > 0.0 && minZ <= ZAt(minZ, (maxZ - minZ) / n, place) <= maxZ
  {
    var width := (maxZ - minZ) / n;
    QuotientIsPositive(maxZ - minZ, n);
    assert n * width == maxZ - minZ;
    ProductIsMonotone(0.0, place, width);
    ProductIsMonotone(place, n, width);
  }

  /** A place the cumulative count first reaches the percentile's share at. */
  ghost predicate IsPercentilePlace(counts: seq<nat>, percentile: real, place: real) {
    && |counts| > 0 && 0.0 <= place <= |counts| as real
    && CumulativeAt(counts, place) == Target(counts, percentile)
    && (forall left: real :: 0.0 <= left < place ==> CumulativeAt(counts, left) < Target(counts, percentile))
  }

  lemma PlaceIsPercentilePlace(counts: seq<nat>, percentile: real)
    requires Total(counts) > 0 && 0.0 <= percentile <= 100.0
    ensures IsPercentilePlace(counts, percentile, Place(counts, Target(counts, percentile)))
  {
    var target := Target(counts, percentile);
    ShareBounds(Total(counts), percentile / 100.0);
    PlaceIsLeastReaching(counts, target, 0.0);
    forall left: real | 0.0 <= left < Place(counts, target) ensures CumulativeAt(counts, left) < target {
      PlaceIsLeastReaching(counts, target, left);
    }
  }

  /** The estimate for a histogram with something in it: between the ends, the cumulative count at
      its place exactly the percentile's share, and no place to the left with that count. */
  lemma EstimateIsPercentile(counts: seq<nat>, minZ: real, maxZ: real, percentile: real)
    requires Total(counts) > 0 && minZ < maxZ && 0.0 <= percentile <= 100.0
    ensures |counts| > 0 && Width(counts, minZ, maxZ) > 0.0 && EstimateZ(counts, minZ, maxZ, percentile).Value?
    ensures var z := EstimateZ(counts, minZ, maxZ, percentile).z;
            minZ <= z <= maxZ && IsPercentilePlace(counts, percentile, PlaceOf(minZ, Width(counts, minZ, maxZ), z))
  {
    var place := Place(counts, Target(counts, percentile));
    PlaceIsPercentilePlace(counts, percentile);
    PlaceInRange(minZ, maxZ, |counts| as real, place);
    PlaceAndBack(minZ, Width(counts, minZ, maxZ), place);
  }

  /** Between a bucket's ends the cumulative count runs straight, by the bucket's own count. */
  lemma {:induction false} CumulativeIsLinear(counts: seq<nat>, bucket: nat, part: real)
    requires bucket < |counts| && 0.0 <= part <= 1.0
    ensures CumulativeAt(counts, bucket as real + part)
         == Offset(counts, bucket) as real + part * counts[bucket] as real
  {
    CumulativeInBucket(counts, bucket, part);
  }

  /** The target is the percentile's hundredths of the total. */
  lemma TargetIsShare(counts: seq<nat>, percentile: real)
    ensures 100.0 * Target(counts, percentile) == percentile * Total(counts) as real
  {
    HundredthsOf(percentile, Total(counts) as real);
  }

  lemma HundredthsOf(percentile: real, total: real)
    ensures 100.0 * (percentile / 100.0 * total) == percentile * total
  {
  }

  /** No estimate comes back for a percentile outside 0 to 100, and only then ... */
  lemma BadPercentileExactly(counts: seq<nat>, minZ: real, maxZ: real, percentile: real)
    ensures EstimateZ(counts, minZ, maxZ, percentile).BadPercentile? <==> percentile < 0.0 || percentile > 100.0
  {
  }

  /** ... the middle of the range for an empty histogram ... */
  lemma {:induction false} EmptyIsMiddle(counts: seq<nat>, minZ: real, maxZ: real, percentile: real)
    requires 0.0 <= percentile <= 100.0 && forall b :: 0 <= b < |counts| ==> counts[b] == 0
    ensures EstimateZ(counts, minZ, maxZ, percentile).Value?
    ensures 2.0 * EstimateZ(counts, minZ, maxZ, percentile).z == minZ + maxZ
  {
    TotalIsZeroExactly(counts);
  }

  /** ... and for any other the value at the place where the cumulative count first reaches the target ... */
  lemma {:induction false} EstimateIsAtPlace(counts: seq<nat>, minZ: real, maxZ: real, percentile: real, b: nat)
    requires 0.0 <= percentile <= 100.0 && b < |counts| && counts[b] > 0
    ensures EstimateZ(counts, minZ, maxZ, percentile)
         == Value(ZAt(minZ, Width(counts, minZ, maxZ), Place(counts, Target(counts, percentile))))
  {
    TotalIsZeroExactly(counts);
  }

  /** ... as many widths from the left end as the place is buckets, the buckets' widths making up the
      range. */
  lemma WidthsFromLeft(counts: seq<nat>, minZ: real, maxZ: real, width: real, place: real)
    requires |counts| > 0 && width == Width(counts, minZ, maxZ)
    ensures |counts| as real * width == maxZ - minZ
    ensures ZAt(minZ, width, place) == minZ + place * width
  {
    WidthTimesBuckets(maxZ - minZ, |counts| as real);
  }

  lemma WidthTimesBuckets(range: real, n: real)
    requires n > 0.0
    ensures n * (range / n) == range
  {
  }

  lemma {:induction false} OffsetIsZeroExactly(counts: seq<nat>, n: nat)
    requires n <= |counts|
    ensures Offset(counts, n) == 0 <==> forall b :: 0 <= b < n ==> counts[b] == 0
  {
    if n > 0 {
      OffsetIsZeroExactly(counts, n - 1);
    }
  }

  lemma TotalIsZeroExactly(counts: seq<nat>)
    ensures Total(counts) == 0 <==> forall b :: 0 <= b < |counts| ==> counts[b] == 0
  {
    OffsetIsZeroExactly(counts, |counts|);
  }

  lemma PlaceIsMonotone(counts: seq<nat>, low: real, high: real)
    requires Total(counts) > 0 && 0.0 <= low <= high <= Total(counts) as real
    ensures |counts| > 0 && Place(counts, low) <= Place(counts, high)
  {
    PlaceIsLeastReaching(counts, high, 0.0);
    PlaceIsLeastReaching(counts, low, Place(counts, high));
  }

  lemma TargetIsMonotone(counts: seq<nat>, p: real, q: real)
    requires 0.0 <= p <= q <= 100.0
    ensures 0.0 <= Target(counts, p) <= Target(counts, q) <= Total(counts) as real
  {
    ShareBounds(Total(counts), p / 100.0);
    ShareBounds(Total(counts), q / 100.0);
    ShareIncreases(Total(counts), p / 100.0, q / 100.0);
  }

  lemma ZIsMonotone(minZ: real, maxZ: real, n: real, low: real, high: real)
    requires minZ < maxZ && n > 0.0 && low <= high
    ensures ZAt(minZ, (maxZ - minZ) / n, low) <= ZAt(minZ, (maxZ - minZ) / n, high)
  {
    QuotientIsPositive(maxZ - minZ, n);
    ProductIsMonotone(low, high, (maxZ - minZ) / n);
  }

  lemma PercentilePlacesAscend(counts: seq<nat>, p: real, q: real)
    requires Total(counts) > 0 && 0.0 <= p <= q <= 100.0
    ensures |counts| > 0 && Place(counts, Target(counts, p)) <= Place(counts, Target(counts, q))
  {
    TargetIsMonotone(counts, p, q);
    PlaceIsMonotone(counts, Target(counts, p), Target(counts, q));
  }

  /** A higher percentile never reads a lower value. */
  lemma EstimateIsMonotone(counts: seq<nat>, minZ: real, maxZ: real, p: real, q: real)
    requires minZ < maxZ && 0.0 <= p <= q <= 100.0
    ensures EstimateZ(counts, minZ, maxZ, p).z <= EstimateZ(counts, minZ, maxZ, q).z
  {
    if Total(counts) > 0 {
      PercentilePlacesAscend(counts, p, q);
      ZIsMonotone(minZ, maxZ, |counts| as real, Place(counts, Target(counts, p)), Place(counts, Target(counts, q)));
    }
  }
}
