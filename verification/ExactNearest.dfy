/** Exact nearest neighbours by a scan blocked over the database and over the queries
    (scripts/benchmark_kdf_layouts.py:157-191). The scan compares |db|^2 - 2 q.db, dropping the
    query's own norm, and keeps one running minimum per query. */
module ExactNearest {

  /** A stored index is 32 bits wide. */
  const WORD: nat := 0x1_0000_0000

  /** An index as stored. */
  function Stored(k: nat): nat { k % WORD }

  datatype Reading = Finite(value: int) | Infinite {
    predicate Above(x: int) {
      Infinite? || x < value
    }
  }

  // ----- distances -----

  function Dot(a: seq<int>, b: seq<int>): int
    requires |a| == |b|
  {
    if |a| == 0 then 0 else Dot(a[..|a| - 1], b[..|b| - 1]) + a[|a| - 1] * b[|b| - 1]
  }

  function SquaredDistance(a: seq<int>, b: seq<int>): int
    requires |a| == |b|
  {
    if |a| == 0 then 0
    else SquaredDistance(a[..|a| - 1], b[..|b| - 1]) + (a[|a| - 1] - b[|b| - 1]) * (a[|a| - 1] - b[|b| - 1])
  }

  /** What the scan compares. */
  function Compared(row: seq<int>, query: seq<int>): int
    requires |row| == |query|
  {
    Dot(row, row) - 2 * Dot(query, row)
  }

  lemma {:induction false} ComparedIsDistance(row: seq<int>, query: seq<int>)
    requires |row| == |query|
    ensures SquaredDistance(query, row) == Dot(query, query) + Compared(row, query)
  {
    if |row| > 0 {
      var n := |row| - 1;
      ComparedIsDistance(row[..n], query[..n]);
      SquareOfDifference(query[n], row[n]);
    }
  }

  lemma SquareOfDifference(x: int, y: int)
    ensures (x - y) * (x - y) == x * x + y * y - 2 * (x * y)
  {
  }

  /** Every coordinate adds the square of its difference. */
  lemma {:induction false} DistanceOneMore(a: seq<int>, b: seq<int>, x: int, y: int)
    requires |a| == |b|
    ensures SquaredDistance([], []) == 0
    ensures SquaredDistance(a + [x], b + [y]) == SquaredDistance(a, b) + (x - y) * (x - y)
  {
    assert (a + [x])[..|a|] == a && (b + [y])[..|b|] == b;
  }

  lemma SquareIsPositive(x: int)
    ensures x * x >= 0 && (x * x == 0 <==> x == 0)
  {
  }

  /** Only a row that is the query itself is at distance zero. */
  lemma {:induction false} DistanceZeroExactly(a: seq<int>, b: seq<int>)
    requires |a| == |b|
    ensures SquaredDistance(a, b) >= 0 && (SquaredDistance(a, b) == 0 <==> a == b)
  {
    if |a| > 0 {
      var n := |a| - 1;
      DistanceZeroExactly(a[..n], b[..n]);
      SquareIsPositive(a[n] - b[n]);
      assert a == a[..n] + [a[n]] && b == b[..n] + [b[n]];
    }
  }

  ghost predicate SameWidth(index: seq<seq<int>>, query: seq<int>) {
    forall k :: 0 <= k < |index| ==> |index[k]| == |query|
  }

  // ----- the nearest row -----

  /** Row `k` is the first of rows lo..hi at the least squared distance. */
  ghost predicate IsNearest(index: seq<seq<int>>, query: seq<int>, lo: nat, hi: nat, k: nat)
    requires SameWidth(index, query) && hi <= |index|
  {
    && lo <= k < hi
    && forall m :: lo <= m < hi ==>
         && SquaredDistance(query, index[k]) <= SquaredDistance(query, index[m])
         && (m < k ==> SquaredDistance(query, index[k]) < SquaredDistance(query, index[m]))
  }

  lemma NearestIsUnique(index: seq<seq<int>>, query: seq<int>, lo: nat, hi: nat, k: nat, l: nat)
    requires SameWidth(index, query) && hi <= |index|
    requires IsNearest(index, query, lo, hi, k) && IsNearest(index, query, lo, hi, l)
    ensures k == l
  {
    assert SquaredDistance(query, index[k]) <= SquaredDistance(query, index[l]);
    assert SquaredDistance(query, index[l]) <= SquaredDistance(query, index[k]);
  }

  lemma {:induction false} ComparedLess(index: seq<seq<int>>, query: seq<int>, k: nat, m: nat)
    requires SameWidth(index, query) && k < |index| && m < |index|
    ensures Compared(index[k], query) < Compared(index[m], query)
       <==> SquaredDistance(query, index[k]) < SquaredDistance(query, index[m])
  {
    ComparedIsDistance(index[k], query);
    ComparedIsDistance(index[m], query);
  }

  /** The nearest of two adjacent stretches is the nearest of the first unless the second's is strictly nearer. */
  lemma NearestOfTwo(index: seq<seq<int>>, query: seq<int>, lo: nat, mid: nat, hi: nat, k: nat, l: nat)
    requires SameWidth(index, query) && mid <= hi <= |index|
    requires IsNearest(index, query, lo, mid, k) && IsNearest(index, query, mid, hi, l)
    ensures IsNearest(index, query, lo, hi, if Compared(index[l], query) < Compared(index[k], query) then l else k)
  {
    ComparedLess(index, query, l, k);
  }

  /** The nearest of the first `n` rows. */
  ghost function NearestRow(index: seq<seq<int>>, query: seq<int>, n: nat): (k: nat)
    requires SameWidth(index, query) && 0 < n <= |index|
    ensures k < n
  {
    if n == 1 then 0
    else
      var k := NearestRow(index, query, n - 1);
      if SquaredDistance(query, index[n - 1]) < SquaredDistance(query, index[k]) then n - 1 else k
  }

  lemma {:induction false} NearestRowIsNearest(index: seq<seq<int>>, query: seq<int>, n: nat)
    requires SameWidth(index, query) && 0 < n <= |index|
    ensures IsNearest(index, query, 0, n, NearestRow(index, query, n))
  {
    if n > 1 {
      NearestRowIsNearest(index, query, n - 1);
    }
  }

  /** What a query's running minimum holds once the first `n` rows are scanned. */
  ghost predicate Holds(index: seq<seq<int>>, query: seq<int>, n: nat, best: Reading, at: nat)
    requires SameWidth(index, query) && n <= |index|
  {
    if n == 0 then best.Infinite? && at == 0
    else
      var k := NearestRow(index, query, n);
      best == Finite(Compared(index[k], query)) && at == Stored(k)
  }

  lemma HoldsStep(index: seq<seq<int>>, query: seq<int>, j: nat, hi: nat, best: Reading, at: nat, local: nat)
    requires SameWidth(index, query) && j <= hi <= |index|
    requires Holds(index, query, j, best, at) && IsNearest(index, query, j, hi, local)
    ensures var d := Compared(index[local], query);
            if best.Above(d) then Holds(index, query, hi, Finite(d), Stored(local))
            else Holds(index, query, hi, best, at)
  {
    var nearest := local;
    if j > 0 {
      var k := NearestRow(index, query, j);
      NearestRowIsNearest(index, query, j);
      NearestOfTwo(index, query, 0, j, hi, k, local);
      nearest := if Compared(index[local], query) < Compared(index[k], query) then local else k;
    }
    NearestRowIsNearest(index, query, hi);
    NearestIsUnique(index, query, 0, hi, nearest, NearestRow(index, query, hi));
  }

  // ----- the scan -----

  ghost predicate Uniform(index: seq<seq<int>>, queries: seq<seq<int>>) {
    forall q :: 0 <= q < |queries| ==> SameWidth(index, queries[q])
  }

  /** `argmin` of one row of the block's matrix. */
  method ArgMin(index: seq<seq<int>>, query: seq<int>, lo: nat, hi: nat) returns (local: nat)
    requires SameWidth(index, query) && lo < hi <= |index|
    ensures IsNearest(index, query, lo, hi, local)
  {
    local := lo;
    for k := lo + 1 to hi
      invariant IsNearest(index, query, lo, k, local)
    {
      ComparedLess(index, query, k, local);
      if Compared(index[k], query) < Compared(index[local], query) {
        local := k;
      }
    }
  }

  /** One query's row of one block: its running minimum gives way only to something strictly less. */
  method ScanRow(index: seq<seq<int>>, query: seq<int>, j: nat, jEnd: nat, best: Reading, at: nat)
    returns (better: Reading, where: nat)
    requires SameWidth(index, query) && j < jEnd <= |index| && Holds(index, query, j, best, at)
    ensures Holds(index, query, jEnd, better, where)
  {
    var local := ArgMin(index, query, j, jEnd);
    var d := Compared(index[local], query);
    HoldsStep(index, query, j, jEnd, best, at, local);
    if best.Above(d) {
      better, where := Finite(d), Stored(local);
    } else {
      better, where := best, at;
    }
  }

  method ScanBlock(index: seq<seq<int>>, queries: seq<seq<int>>, j: nat, jEnd: nat, i: nat, iEnd: nat,
                   bestDist: array<Reading>, bestIdx: array<nat>)
    requires Uniform(index, queries) && bestDist.Length == bestIdx.Length == |queries|
    requires j < jEnd <= |index| && i <= iEnd <= |queries|
    requires forall q :: i <= q < iEnd ==> Holds(index, queries[q], j, bestDist[q], bestIdx[q])
    modifies bestDist, bestIdx
    ensures forall q :: i <= q < iEnd ==> Holds(index, queries[q], jEnd, bestDist[q], bestIdx[q])
    ensures forall q :: 0 <= q < i || iEnd <= q < |queries| ==>
              bestDist[q] == old(bestDist[q]) && bestIdx[q] == old(bestIdx[q])
  {
    for q := i to iEnd
      invariant forall r :: i <= r < q ==> Holds(index, queries[r], jEnd, bestDist[r], bestIdx[r])
      invariant forall r :: 0 <= r < i || q <= r < |queries| ==>
                  bestDist[r] == old(bestDist[r]) && bestIdx[r] == old(bestIdx[r])
    {
      bestDist[q], bestIdx[q] := ScanRow(index, queries[q], j, jEnd, bestDist[q], bestIdx[q]);
    }
  }

  function Clip(x: nat, n: nat): (r: nat) {
    if x < n then x else n
  }

  /** Whatever the block sizes, each query gets its nearest row, the first of those tied, and 0 when
      there is none. */
  method Find(index: seq<seq<int>>, queries: seq<seq<int>>, qBlock: nat, dbBlock: nat) returns (bestIdx: array<nat>)
    requires Uniform(index, queries) && qBlock >= 1 && dbBlock >= 1
    ensures bestIdx.Length == |queries|
    ensures |index| == 0 ==> forall q :: 0 <= q < |queries| ==> bestIdx[q] == 0
    ensures 0 < |index| ==>
              forall q :: 0 <= q < |queries| ==> bestIdx[q] == Stored(NearestRow(index, queries[q], |index|))
  {
    var n := |queries|;
    var bestDist := new Reading[n](_ => Infinite);
    bestIdx := new nat[n](_ => 0);
    var j := 0;
    while j < |index|
      invariant forall q :: 0 <= q < n ==> Holds(index, queries[q], Clip(j, |index|), bestDist[q], bestIdx[q])
    {
      var jEnd := Clip(j + dbBlock, |index|);
      var i := 0;
      while i < n
        invariant forall q :: 0 <= q < n ==>
                    Holds(index, queries[q], if q < Clip(i, n) then jEnd else j, bestDist[q], bestIdx[q])
      {
        ScanBlock(index, queries, j, jEnd, i, Clip(i + qBlock, n), bestDist, bestIdx);
        i := i + qBlock;
      }
      j := j + dbBlock;
    }
  }

  /** An index of at most 2^32 rows is answered in full. */
  lemma {:induction false} WordHoldsIndex(index: seq<seq<int>>, query: seq<int>)
    requires SameWidth(index, query) && 0 < |index| <= 0x1_0000_0000
    ensures IsNearest(index, query, 0, |index|, Stored(NearestRow(index, query, |index|)))
  {
    NearestRowIsNearest(index, query, |index|);
    SmallRemainder(NearestRow(index, query, |index|));
  }

  /** One 2^32 rows further on is stored as the same word. */
  lemma StoredWraps(k: nat)
    ensures Stored(k) < 0x1_0000_0000 && Stored(k + 0x1_0000_0000) == Stored(k)
    ensures k < 0x1_0000_0000 ==> Stored(k) == k
  {
  }

  lemma SmallRemainder(k: nat)
    requires k < WORD
    ensures Stored(k) == k
  {
  }

  // ----- single precision is exact -----

  /** A sum of some of the products, as an accumulation may hold it in any order of adding. */
  ghost function PartialDot(a: seq<int>, b: seq<int>, taken: nat -> bool): int
    requires |a| == |b|
  {
    if |a| == 0 then 0
    else
      var n := |a| - 1;
      PartialDot(a[..n], b[..n], taken) + (if taken(n) then a[n] * b[n] else 0)
  }

  ghost predicate Bytes(a: seq<int>) {
    forall k :: 0 <= k < |a| ==> 0 <= a[k] <= 255
  }

  lemma ByteProduct(x: int, y: int)
    requires 0 <= x <= 255 && 0 <= y <= 255
    ensures 0 <= x * y <= 255 * 255
  {
    assert x * y <= 255 * y;
  }

  lemma {:induction false} PartialDotBounded(a: seq<int>, b: seq<int>, taken: nat -> bool)
    requires |a| == |b| && Bytes(a) && Bytes(b)
    ensures 0 <= PartialDot(a, b, taken) <= 255 * 255 * |a|
  {
    if |a| > 0 {
      var n := |a| - 1;
      PartialDotBounded(a[..n], b[..n], taken);
      ByteProduct(a[n], b[n]);
    }
  }

  lemma {:induction false} WholeDot(a: seq<int>, b: seq<int>)
    requires |a| == |b|
    ensures Dot(a, b) == PartialDot(a, b, _ => true)
  {
    if |a| > 0 {
      WholeDot(a[..|a| - 1], b[..|a| - 1]);
    }
  }

  /** On 128 bytes every value the scan forms, in any order of adding, is an integer below 2^24 in
      magnitude, so single precision holds it exactly. */
  lemma {:induction false} SinglePrecisionIsExact(row: seq<int>, query: seq<int>, taken: nat -> bool)
    requires |row| == |query| == 128 && Bytes(row) && Bytes(query)
    ensures 0 <= PartialDot(row, row, taken) <= 2 * 128 * 255 * 255 < 0x100_0000
    ensures 0 <= 2 * PartialDot(query, row, taken) <= 2 * 128 * 255 * 255
    ensures -(2 * 128 * 255 * 255) <= Compared(row, query) <= 2 * 128 * 255 * 255
  {
    PartialDotBounded(row, row, taken);
    PartialDotBounded(query, row, taken);
    WholeDot(row, row);
    WholeDot(query, row);
    PartialDotBounded(row, row, _ => true);
    PartialDotBounded(query, row, _ => true);
  }
}
