/** Average-linkage clustering by a similarity matrix, stopped at a cut
    (scripts/track_at_pixel/anchors.py:1383-1398). */
module AverageLinkage {
  import Arrays
  import opened RealProducts

  type Matrix = seq<seq<real>>

  ghost predicate Square(similar: Matrix) {
    forall i :: 0 <= i < |similar| ==> |similar[i]| == |similar|
  }

  ghost predicate Symmetric(similar: Matrix)
    requires Square(similar)
  {
    forall i, j :: 0 <= i < |similar| && 0 <= j < |similar| ==> similar[i][j] == similar[j][i]
  }

  // ----- means between groups -----

  ghost predicate Members(group: seq<nat>, n: nat) {
    forall i :: 0 <= i < |group| ==> group[i] < n
  }

  function RowSum(similar: Matrix, i: nat, b: seq<nat>): real
    requires Square(similar) && i < |similar| && Members(b, |similar|)
  {
    if |b| == 0 then 0.0 else RowSum(similar, i, b[..|b| - 1]) + similar[i][b[|b| - 1]]
  }

  function BlockSum(similar: Matrix, a: seq<nat>, b: seq<nat>): real
    requires Square(similar) && Members(a, |similar|) && Members(b, |similar|)
  {
    if |a| == 0 then 0.0 else BlockSum(similar, a[..|a| - 1], b) + RowSum(similar, a[|a| - 1], b)
  }

  function Cells(a: seq<nat>, b: seq<nat>): (w: real)
    ensures |a| > 0 && |b| > 0 ==> w > 0.0
  {
    |a| as real * |b| as real
  }

  /** `similar[ix_(a, b)].mean()`. */
  function Mean(similar: Matrix, a: seq<nat>, b: seq<nat>): real
    requires Square(similar) && Members(a, |similar|) && Members(b, |similar|) && |a| > 0 && |b| > 0
  {
    BlockSum(similar, a, b) / Cells(a, b)
  }

  lemma {:induction false} RowSumAppend(similar: Matrix, i: nat, b: seq<nat>, c: seq<nat>)
    requires Square(similar) && i < |similar| && Members(b, |similar|) && Members(c, |similar|)
    ensures RowSum(similar, i, b + c) == RowSum(similar, i, b) + RowSum(similar, i, c)
  {
    if |c| == 0 {
      assert b + c == b;
    } else {
      assert (b + c)[..|b + c| - 1] == b + c[..|c| - 1];
      RowSumAppend(similar, i, b, c[..|c| - 1]);
    }
  }

  lemma {:induction false} BlockSumAppend(similar: Matrix, a: seq<nat>, b: seq<nat>, c: seq<nat>)
    requires Square(similar) && Members(a, |similar|) && Members(b, |similar|) && Members(c, |similar|)
    ensures BlockSum(similar, a + b, c) == BlockSum(similar, a, c) + BlockSum(similar, b, c)
  {
    if |b| == 0 {
      assert a + b == a;
    } else {
      assert (a + b)[..|a + b| - 1] == a + b[..|b| - 1];
      BlockSumAppend(similar, a, b[..|b| - 1], c);
    }
  }

  lemma {:induction false} BlockSumColumn(similar: Matrix, a: seq<nat>, b: seq<nat>, j: nat)
    requires Square(similar) && Symmetric(similar) && Members(a, |similar|) && Members(b, |similar|) && j < |similar|
    ensures BlockSum(similar, a, b + [j]) == BlockSum(similar, a, b) + RowSum(similar, j, a)
  {
    if |a| > 0 {
      var i := a[|a| - 1];
      BlockSumColumn(similar, a[..|a| - 1], b, j);
      RowSumAppend(similar, i, b, [j]);
      assert RowSum(similar, i, [j]) == similar[i][j] by { assert [j][..0] == []; }
      assert similar[i][j] == similar[j][i];
    }
  }

  lemma {:induction false} BlockSumSymmetric(similar: Matrix, a: seq<nat>, b: seq<nat>)
    requires Square(similar) && Symmetric(similar) && Members(a, |similar|) && Members(b, |similar|)
    ensures BlockSum(similar, a, b) == BlockSum(similar, b, a)
  {
    if |b| == 0 {
      BlockSumEmpty(similar, a);
    } else {
      BlockSumSymmetric(similar, a, b[..|b| - 1]);
      BlockSumColumn(similar, a, b[..|b| - 1], b[|b| - 1]);
      assert b[..|b| - 1] + [b[|b| - 1]] == b;
    }
  }

  lemma {:induction false} BlockSumEmpty(similar: Matrix, a: seq<nat>)
    requires Square(similar) && Members(a, |similar|)
    ensures BlockSum(similar, a, []) == 0.0
  {
    if |a| > 0 {
      BlockSumEmpty(similar, a[..|a| - 1]);
    }
  }

  lemma MeanSymmetric(similar: Matrix, a: seq<nat>, b: seq<nat>)
    requires Square(similar) && Symmetric(similar) && Members(a, |similar|) && Members(b, |similar|)
    requires |a| > 0 && |b| > 0
    ensures Mean(similar, a, b) == Mean(similar, b, a)
  {
    BlockSumSymmetric(similar, a, b);
  }

  lemma QuotientAtMost(sum: real, cells: real, bound: real)
    requires cells > 0.0
    ensures sum / cells <= bound <==> sum <= bound * cells
  {
    var q := sum / cells;
    assert q * cells == sum;
    ProductOrder(q, bound, cells);
  }

  lemma CellsAdd(a: seq<nat>, b: seq<nat>, c: seq<nat>, bound: real)
    ensures bound * Cells(a + b, c) == bound * Cells(a, c) + bound * Cells(b, c)
  {
    Distribute(|a| as real, |b| as real, |c| as real);
    Distribute(Cells(a, c), Cells(b, c), bound);
  }

  lemma Distribute(x: real, y: real, w: real)
    ensures (x + y) * w == x * w + y * w
  {
  }

  /** The mean to a merged group is between the means to its parts: no merge brings groups closer
      than the closer of its parts was. */
  lemma MergedMeanAtMost(similar: Matrix, a: seq<nat>, b: seq<nat>, c: seq<nat>, bound: real)
    requires Square(similar) && Members(a, |similar|) && Members(b, |similar|) && Members(c, |similar|)
    requires |a| > 0 && |b| > 0 && |c| > 0
    requires Mean(similar, a, c) <= bound && Mean(similar, b, c) <= bound
    ensures Mean(similar, a + b, c) <= bound
  {
    BlockSumAppend(similar, a, b, c);
    QuotientAtMost(BlockSum(similar, a, c), Cells(a, c), bound);
    QuotientAtMost(BlockSum(similar, b, c), Cells(b, c), bound);
    CellsAdd(a, b, c, bound);
    QuotientAtMost(BlockSum(similar, a + b, c), Cells(a + b, c), bound);
  }

  // ----- what the mean is -----

  /** Between two single indexes it is the entry. */
  lemma MeanOfOne(similar: Matrix, i: nat, j: nat)
    requires Square(similar) && i < |similar| && j < |similar|
    ensures Mean(similar, [i], [j]) == similar[i][j]
  {
    assert RowSum(similar, i, [j]) == similar[i][j] by { assert [j][..0] == []; }
    assert BlockSum(similar, [i], [j]) == similar[i][j] by { assert [i][..0] == []; }
  }

  /** Over two groups joined it is the mean of the parts' means, each counted by its size; so it is over
      a joined second group. */
  lemma {:induction false} MeanOfJoined(similar: Matrix, a: seq<nat>, b: seq<nat>, c: seq<nat>)
    requires Square(similar) && Members(a, |similar|) && Members(b, |similar|) && Members(c, |similar|)
    requires |a| > 0 && |b| > 0 && |c| > 0
    ensures Mean(similar, a + b, c) * (|a| + |b|) as real
         == Mean(similar, a, c) * |a| as real + Mean(similar, b, c) * |b| as real
  {
    MeanPerColumn(similar, a, c, |a|);
    MeanPerColumn(similar, b, c, |b|);
    MeanPerColumn(similar, a + b, c, |a| + |b|);
    PerColumnAdds(similar, a, b, c);
  }

  lemma {:induction false} MeanOfJoinedSecond(similar: Matrix, a: seq<nat>, b: seq<nat>, c: seq<nat>)
    requires Square(similar) && Members(a, |similar|) && Members(b, |similar|) && Members(c, |similar|)
    requires |a| > 0 && |b| > 0 && |c| > 0
    ensures Mean(similar, a, b + c) * (|b| + |c|) as real
         == Mean(similar, a, b) * |b| as real + Mean(similar, a, c) * |c| as real
  {
    MeanPerRow(similar, a, b, |b|);
    MeanPerRow(similar, a, c, |c|);
    MeanPerRow(similar, a, b + c, |b| + |c|);
    PerRowAdds(similar, a, b, c);
  }

  /** The sum over a block per column, and per row. */
  ghost function PerColumn(similar: Matrix, a: seq<nat>, c: seq<nat>): real
    requires Square(similar) && Members(a, |similar|) && Members(c, |similar|) && |c| > 0
  {
    BlockSum(similar, a, c) / |c| as real
  }

  ghost function PerRow(similar: Matrix, a: seq<nat>, c: seq<nat>): real
    requires Square(similar) && Members(a, |similar|) && Members(c, |similar|) && |a| > 0
  {
    BlockSum(similar, a, c) / |a| as real
  }

  lemma {:induction false} PerColumnAdds(similar: Matrix, a: seq<nat>, b: seq<nat>, c: seq<nat>)
    requires Square(similar) && Members(a, |similar|) && Members(b, |similar|) && Members(c, |similar|) && |c| > 0
    ensures PerColumn(similar, a + b, c) == PerColumn(similar, a, c) + PerColumn(similar, b, c)
  {
    BlockSumAppend(similar, a, b, c);
    QuotientsAdd(BlockSum(similar, a, c), BlockSum(similar, b, c), |c| as real);
  }

  lemma {:induction false} PerRowAdds(similar: Matrix, a: seq<nat>, b: seq<nat>, c: seq<nat>)
    requires Square(similar) && Members(a, |similar|) && Members(b, |similar|) && Members(c, |similar|) && |a| > 0
    ensures PerRow(similar, a, b + c) == PerRow(similar, a, b) + PerRow(similar, a, c)
  {
    BlockSumAppendSecond(similar, a, b, c);
    QuotientsAdd(BlockSum(similar, a, b), BlockSum(similar, a, c), |a| as real);
  }

  lemma {:induction false} MeanPerColumn(similar: Matrix, a: seq<nat>, c: seq<nat>, size: nat)
    requires Square(similar) && Members(a, |similar|) && Members(c, |similar|) && size == |a| > 0 && |c| > 0
    ensures Mean(similar, a, c) * size as real == PerColumn(similar, a, c)
  {
    ShareOfCells(BlockSum(similar, a, c), |a| as real, |c| as real);
  }

  lemma {:induction false} MeanPerRow(similar: Matrix, a: seq<nat>, c: seq<nat>, size: nat)
    requires Square(similar) && Members(a, |similar|) && Members(c, |similar|) && |a| > 0 && size == |c| > 0
    ensures Mean(similar, a, c) * size as real == PerRow(similar, a, c)
  {
    ProductCommutes(|a| as real, |c| as real);
    ShareOfCells(BlockSum(similar, a, c), |c| as real, |a| as real);
  }

  lemma {:induction false} BlockSumAppendSecond(similar: Matrix, a: seq<nat>, b: seq<nat>, c: seq<nat>)
    requires Square(similar) && Members(a, |similar|) && Members(b, |similar|) && Members(c, |similar|)
    ensures BlockSum(similar, a, b + c) == BlockSum(similar, a, b) + BlockSum(similar, a, c)
  {
    if |a| > 0 {
      BlockSumAppendSecond(similar, a[..|a| - 1], b, c);
      RowSumAppend(similar, a[|a| - 1], b, c);
    }
  }

  lemma ShareOfCells(sum: real, n: real, m: real)
    requires n > 0.0 && m > 0.0 && n * m > 0.0
    ensures sum / (n * m) * n == sum / m
  {
    var q := sum / (n * m);
    assert q * (n * m) == sum;
    assert q * (n * m) == q * n * m;
    assert q * n * m / m == q * n;
  }

  lemma QuotientsAdd(x: real, y: real, d: real)
    requires d > 0.0
    ensures x / d + y / d == (x + y) / d
  {
  }

  // ----- groups -----

  type Groups = seq<seq<nat>>

  ghost predicate Holds(groups: Groups, x: nat, i: nat) {
    x < |groups| && i in groups[x]
  }

  ghost predicate Covered(groups: Groups, i: nat) {
    exists x :: Holds(groups, x, i)
  }

  /** Every index in exactly one group, once, and nothing else in any; no group empty. */
  ghost predicate IsPartition(groups: Groups, n: nat) {
    && (forall x :: 0 <= x < |groups| ==> |groups[x]| > 0 && Members(groups[x], n) && Arrays.NoRepeats(groups[x]))
    && (forall i: nat :: i < n ==> Covered(groups, i))
    && (forall x, y, i :: Holds(groups, x, i) && Holds(groups, y, i) ==> x == y)
  }

  /** Each group headed by its least index, the heads ascending. */
  ghost predicate HeadsAscend(groups: Groups) {
    && (forall x :: 0 <= x < |groups| ==> |groups[x]| > 0)
    && (forall x: nat, i: nat :: Holds(groups, x, i) ==> groups[x][0] <= i)
    && (forall x, y :: 0 <= x < y < |groups| ==> groups[x][0] < groups[y][0])
  }

  function Singletons(n: nat): (groups: Groups)
    ensures |groups| == n
  {
    seq(n, i requires 0 <= i => [i])
  }

  lemma SingletonsAreGood(n: nat)
    ensures IsPartition(Singletons(n), n) && HeadsAscend(Singletons(n))
  {
    forall i: nat | i < n ensures Covered(Singletons(n), i) {
      assert Holds(Singletons(n), i, i);
    }
  }

  /** Group `y` taken out and its indexes put at the end of group `x`. */
  function Merged(groups: Groups, x: nat, y: nat): (r: Groups)
    requires x < y < |groups|
    ensures |r| == |groups| - 1
  {
    groups[x := groups[x] + groups[y]][..y] + groups[y + 1..]
  }

  /** Where a group other than the merged one was before the merge. */
  function Before(y: nat, p: nat): nat { if p < y then p else p + 1 }

  lemma MergedAt(groups: Groups, x: nat, y: nat, p: nat)
    requires x < y < |groups| && p < |groups| - 1
    ensures Merged(groups, x, y)[p] == if p == x then groups[x] + groups[y] else groups[Before(y, p)]
  {
  }

  /** Where the index's group is after the merge. */
  function After(x: nat, y: nat, p: nat): nat { if p == y then x else if p < y then p else p - 1 }

  lemma MergedHolds(groups: Groups, x: nat, y: nat, p: nat, i: nat)
    requires x < y < |groups| && Holds(groups, p, i)
    ensures Holds(Merged(groups, x, y), After(x, y, p), i)
  {
    MergedAt(groups, x, y, After(x, y, p));
  }

  lemma MergedCameFrom(groups: Groups, x: nat, y: nat, q: nat, i: nat) returns (p: nat)
    requires x < y < |groups| && Holds(Merged(groups, x, y), q, i)
    ensures Holds(groups, p, i) && After(x, y, p) == q
  {
    MergedAt(groups, x, y, q);
    if q == x {
      p := if i in groups[x] then x else y;
    } else {
      p := Before(y, q);
    }
  }

  lemma JoinedNoRepeats(a: seq<nat>, b: seq<nat>)
    requires Arrays.NoRepeats(a) && Arrays.NoRepeats(b) && forall i :: i in a ==> i !in b
    ensures Arrays.NoRepeats(a + b)
  {
    forall i, j | 0 <= i < j < |a + b| ensures (a + b)[i] != (a + b)[j] {
      if i < |a| <= j {
        assert a[i] in a && b[j - |a|] in b;
      }
    }
  }

  lemma MergeKeepsPartition(groups: Groups, n: nat, x: nat, y: nat)
    requires IsPartition(groups, n) && x < y < |groups|
    ensures IsPartition(Merged(groups, x, y), n)
  {
    var r := Merged(groups, x, y);
    forall i | i in groups[x] ensures i !in groups[y] {
      assert Holds(groups, x, i);
      assert !Holds(groups, y, i);
    }
    JoinedNoRepeats(groups[x], groups[y]);
    forall q | 0 <= q < |r| ensures |r[q]| > 0 && Members(r[q], n) && Arrays.NoRepeats(r[q]) {
      MergedAt(groups, x, y, q);
    }
    forall i: nat | i < n ensures Covered(r, i) {
      assert Covered(groups, i);
      var p :| Holds(groups, p, i);
      MergedHolds(groups, x, y, p, i);
    }
    forall q, q', i | Holds(r, q, i) && Holds(r, q', i) ensures q == q' {
      var p := MergedCameFrom(groups, x, y, q, i);
      var p' := MergedCameFrom(groups, x, y, q', i);
    }
  }

  lemma MergedHead(groups: Groups, x: nat, y: nat, q: nat)
    requires HeadsAscend(groups) && x < y < |groups| && q < |groups| - 1
    ensures |Merged(groups, x, y)[q]| > 0
    ensures Merged(groups, x, y)[q][0] == groups[Before(y, q)][0]
  {
    MergedAt(groups, x, y, q);
  }

  lemma MergeKeepsHeads(groups: Groups, x: nat, y: nat)
    requires HeadsAscend(groups) && x < y < |groups|
    ensures HeadsAscend(Merged(groups, x, y))
  {
    var r := Merged(groups, x, y);
    forall q | 0 <= q < |r| ensures |r[q]| > 0 {
      MergedHead(groups, x, y, q);
    }
    forall q: nat, i: nat | Holds(r, q, i) ensures r[q][0] <= i {
      var p := MergedCameFrom(groups, x, y, q, i);
      MergedHead(groups, x, y, q);
      assert groups[p][0] <= i;
    }
    forall q, q' | 0 <= q < q' < |r| ensures r[q][0] < r[q'][0] {
      MergedHead(groups, x, y, q);
      MergedHead(groups, x, y, q');
    }
  }

  // ----- the closest pair -----

  datatype Best = NoPair | Pair(x: nat, y: nat)

  ghost predicate Clusterable(similar: Matrix, groups: Groups) {
    Square(similar) && forall x :: 0 <= x < |groups| ==> |groups[x]| > 0 && Members(groups[x], |similar|)
  }

  ghost predicate BestIn(groups: Groups, best: Best) {
    best.Pair? ==> best.x < best.y < |groups|
  }

  /** The scan of the pairs from (x, y) on, in row order, `best` being the best so far. */
  function ScanFrom(similar: Matrix, groups: Groups, x: nat, y: nat, best: Best): (r: Best)
    requires Clusterable(similar, groups) && BestIn(groups, best)
    requires x < y
    ensures BestIn(groups, r)
    decreases |groups| - x, |groups| - y
  {
    if x >= |groups| then best
    else if y >= |groups| then ScanFrom(similar, groups, x + 1, x + 2, best)
    else ScanFrom(similar, groups, x, y + 1, Better(similar, groups, x, y, best))
  }

  function Better(similar: Matrix, groups: Groups, x: nat, y: nat, best: Best): (r: Best)
    requires Clusterable(similar, groups) && BestIn(groups, best) && x < y < |groups|
  {
    if best.NoPair? || Mean(similar, groups[x], groups[y]) > Mean(similar, groups[best.x], groups[best.y])
    then Pair(x, y) else best
  }

  function MeanAt(similar: Matrix, groups: Groups, x: nat, y: nat): real
    requires Clusterable(similar, groups) && x < y < |groups|
  {
    Mean(similar, groups[x], groups[y])
  }

  /** Whether the scan comes to (p, q) at or after (x, y). */
  ghost predicate Ahead(x: nat, y: nat, p: nat, q: nat) {
    x < p || (x == p && y <= q)
  }

  /** `r` is at least as close as `best`, and closer unless it is `best`. */
  ghost predicate Improves(similar: Matrix, groups: Groups, best: Best, r: Best)
    requires Clusterable(similar, groups) && BestIn(groups, best) && BestIn(groups, r)
  {
    best.Pair? ==>
      && r.Pair? && MeanAt(similar, groups, best.x, best.y) <= MeanAt(similar, groups, r.x, r.y)
      && (r != best ==> MeanAt(similar, groups, best.x, best.y) < MeanAt(similar, groups, r.x, r.y))
  }

  /** `r` is at least as close as (p, q), and closer where the scan comes to (p, q) first. */
  ghost predicate Tops(similar: Matrix, groups: Groups, p: nat, q: nat, best: Best, r: Best)
    requires Clusterable(similar, groups) && BestIn(groups, r) && p < q < |groups|
  {
    && r.Pair? && MeanAt(similar, groups, p, q) <= MeanAt(similar, groups, r.x, r.y)
    && (r == best || !Ahead(p, q, r.x, r.y) || (p == r.x && q == r.y)
        || MeanAt(similar, groups, p, q) < MeanAt(similar, groups, r.x, r.y))
  }

  /** The scan returns the first of the closest pairs: no pair is closer, and every earlier one is
      strictly less close. */
  lemma {:induction false} ScanFindsFirstBest(similar: Matrix, groups: Groups, x: nat, y: nat, best: Best)
    requires Clusterable(similar, groups) && BestIn(groups, best) && x < y
    requires best.Pair? ==> !Ahead(x, y, best.x, best.y)
    ensures var r := ScanFrom(similar, groups, x, y, best);
            && Improves(similar, groups, best, r)
            && (r.Pair? && r != best ==> Ahead(x, y, r.x, r.y))
            && (forall p: nat, q: nat :: Ahead(x, y, p, q) && p < q < |groups| ==> Tops(similar, groups, p, q, best, r))
    decreases |groups| - x, |groups| - y
  {
    var r := ScanFrom(similar, groups, x, y, best);
    if x >= |groups| {
    } else if y >= |groups| {
      ScanFindsFirstBest(similar, groups, x + 1, x + 2, best);
      forall p: nat, q: nat | Ahead(x, y, p, q) && p < q < |groups| ensures Tops(similar, groups, p, q, best, r) {
        assert Ahead(x + 1, x + 2, p, q);
      }
    } else {
      var better := Better(similar, groups, x, y, best);
      ScanFindsFirstBest(similar, groups, x, y + 1, better);
      forall p: nat, q: nat | Ahead(x, y, p, q) && p < q < |groups| ensures Tops(similar, groups, p, q, best, r) {
        if p != x || q != y {
          assert Ahead(x, y + 1, p, q);
          assert Tops(similar, groups, p, q, better, r);
        }
      }
    }
  }

  /** The closest pair of two or more groups. */
  function Closest(similar: Matrix, groups: Groups): (r: Best)
    requires Clusterable(similar, groups)
    ensures BestIn(groups, r)
  {
    ScanFrom(similar, groups, 0, 1, NoPair)
  }

  lemma ClosestIsFirstBest(similar: Matrix, groups: Groups)
    requires Clusterable(similar, groups)
    ensures var r := Closest(similar, groups);
            && (|groups| > 1 ==> r.Pair?)
            && (forall p: nat, q: nat :: p < q < |groups| ==>
                  r.Pair? && MeanAt(similar, groups, p, q) <= MeanAt(similar, groups, r.x, r.y)
                  && (p < r.x || (p == r.x && q < r.y) ==>
                     MeanAt(similar, groups, p, q) < MeanAt(similar, groups, r.x, r.y)))
  {
    ScanFindsFirstBest(similar, groups, 0, 1, NoPair);
    var r := Closest(similar, groups);
    forall p: nat, q: nat | p < q < |groups|
      ensures r.Pair? && MeanAt(similar, groups, p, q) <= MeanAt(similar, groups, r.x, r.y)
      ensures p < r.x || (p == r.x && q < r.y) ==>
                MeanAt(similar, groups, p, q) < MeanAt(similar, groups, r.x, r.y)
    {
      assert Ahead(0, 1, p, q);
      assert Tops(similar, groups, p, q, NoPair, r);
    }
    assert Ahead(0, 1, 0, 1);
  }

  /** How close the two closest groups are. */
  function Closeness(similar: Matrix, groups: Groups): real
    requires Clusterable(similar, groups) && |groups| > 1
  {
    ClosestIsFirstBest(similar, groups);
    MeanAt(similar, groups, Closest(similar, groups).x, Closest(similar, groups).y)
  }

  // ----- a merge, and runs of merges -----

  ghost predicate Good(similar: Matrix, groups: Groups) {
    && Square(similar) && Symmetric(similar)
    && IsPartition(groups, |similar|) && HeadsAscend(groups)
  }

  function Step(similar: Matrix, groups: Groups): (r: Groups)
    requires Clusterable(similar, groups) && |groups| > 1
    ensures |r| == |groups| - 1 && Clusterable(similar, r)
  {
    ClosestIsFirstBest(similar, groups);
    MergeKeepsClusterable(similar, groups, Closest(similar, groups).x, Closest(similar, groups).y);
    Merged(groups, Closest(similar, groups).x, Closest(similar, groups).y)
  }

  lemma MergeKeepsClusterable(similar: Matrix, groups: Groups, x: nat, y: nat)
    requires Clusterable(similar, groups) && x < y < |groups|
    ensures Clusterable(similar, Merged(groups, x, y))
  {
    var r := Merged(groups, x, y);
    forall q | 0 <= q < |r| ensures |r[q]| > 0 && Members(r[q], |similar|) {
      MergedAt(groups, x, y, q);
    }
  }

  lemma StepIsGood(similar: Matrix, groups: Groups)
    requires Good(similar, groups) && |groups| > 1
    ensures Good(similar, Step(similar, groups))
  {
    ClosestIsFirstBest(similar, groups);
    MergeKeepsPartition(groups, |similar|, Closest(similar, groups).x, Closest(similar, groups).y);
    MergeKeepsHeads(groups, Closest(similar, groups).x, Closest(similar, groups).y);
  }

  lemma AnyTwoAtMost(similar: Matrix, groups: Groups, p: nat, q: nat)
    requires Good(similar, groups) && p < |groups| && q < |groups| && p != q
    ensures Mean(similar, groups[p], groups[q]) <= Closeness(similar, groups)
  {
    ClosestIsFirstBest(similar, groups);
    MeanSymmetric(similar, groups[p], groups[q]);
    var lo, hi := if p < q then p else q, if p < q then q else p;
    assert MeanAt(similar, groups, lo, hi) <= Closeness(similar, groups);
  }

  /** Merge similarities never increase: no two groups after a merge are closer than the two merged. */
  lemma MergeSimilaritiesFall(similar: Matrix, groups: Groups)
    requires Good(similar, groups) && |groups| > 2
    ensures Good(similar, Step(similar, groups))
    ensures Closeness(similar, Step(similar, groups)) <= Closeness(similar, groups)
  {
    var r, best := Step(similar, groups), Closest(similar, groups);
    StepIsGood(similar, groups);
    ClosestIsFirstBest(similar, groups);
    ClosestIsFirstBest(similar, r);
    var next := Closest(similar, r);
    MergedAt(groups, best.x, best.y, next.x);
    MergedAt(groups, best.x, best.y, next.y);
    var bound := Closeness(similar, groups);
    if next.x == best.x {
      MergedToOther(similar, groups, best.x, best.y, Before(best.y, next.y));
    } else if next.y == best.x {
      MergedToOther(similar, groups, best.x, best.y, Before(best.y, next.x));
      MeanSymmetric(similar, groups[best.x] + groups[best.y], groups[Before(best.y, next.x)]);
    } else {
      AnyTwoAtMost(similar, groups, Before(best.y, next.x), Before(best.y, next.y));
    }
  }

  lemma MergedToOther(similar: Matrix, groups: Groups, x: nat, y: nat, o: nat)
    requires Good(similar, groups) && x < y < |groups| && o < |groups| && o != x && o != y
    ensures Mean(similar, groups[x] + groups[y], groups[o]) <= Closeness(similar, groups)
  {
    AnyTwoAtMost(similar, groups, x, o);
    AnyTwoAtMost(similar, groups, y, o);
    MergedMeanAtMost(similar, groups[x], groups[y], groups[o], Closeness(similar, groups));
  }

  /** The groups after `k` merges, no cut applied: the dendrogram's levels. */
  ghost function Level(similar: Matrix, groups: Groups, k: nat): (r: Groups)
    requires Clusterable(similar, groups) && (k < |groups| || k == 0)
    ensures |r| == |groups| - k && Clusterable(similar, r)
    decreases k
  {
    if k == 0 then groups else Step(similar, Level(similar, groups, k - 1))
  }

  lemma {:induction false} LevelIsGood(similar: Matrix, groups: Groups, k: nat)
    requires Good(similar, groups) && (k < |groups| || k == 0)
    ensures Good(similar, Level(similar, groups, k))
    decreases k
  {
    if k > 0 {
      LevelIsGood(similar, groups, k - 1);
      StepIsGood(similar, Level(similar, groups, k - 1));
    }
  }

  lemma NextLevelAtMost(similar: Matrix, groups: Groups, k: nat, bound: real)
    requires Good(similar, groups) && 0 < k && k + 1 < |groups|
    requires Closeness(similar, Level(similar, groups, k - 1)) <= bound
    ensures Closeness(similar, Level(similar, groups, k)) <= bound
  {
    LevelIsGood(similar, groups, k - 1);
    MergeSimilaritiesFall(similar, Level(similar, groups, k - 1));
  }

  lemma {:induction false} LevelsFall(similar: Matrix, groups: Groups, j: nat, k: nat)
    requires Good(similar, groups) && j <= k && k + 1 < |groups|
    ensures Closeness(similar, Level(similar, groups, k)) <= Closeness(similar, Level(similar, groups, j))
    decreases k - j
  {
    if j < k {
      LevelsFall(similar, groups, j, k - 1);
      NextLevelAtMost(similar, groups, k, Closeness(similar, Level(similar, groups, j)));
    }
  }

  /** Stopped at the cut: one group, or every two groups' mean below the cut. */
  ghost predicate Stopped(similar: Matrix, groups: Groups, cut: real) {
    && Clusterable(similar, groups)
    && forall p: nat, q: nat :: p < q < |groups| ==> Mean(similar, groups[p], groups[q]) < cut
  }

  /** Stopped, no two indexes left alone have an entry at the cut or above it. */
  lemma SinglesFallShort(similar: Matrix, groups: Groups, cut: real, p: nat, q: nat, i: nat, j: nat)
    requires Stopped(similar, groups, cut) && p < q < |groups| && groups[p] == [i] && groups[q] == [j]
    ensures i < |similar| && j < |similar| && similar[i][j] < cut
  {
    assert groups[p][0] == i && groups[q][0] == j;
    MeanOfOne(similar, i, j);
  }

  /** `merges` merges were made, every one at a similarity of at least the cut, and no more. */
  ghost predicate CutsAt(similar: Matrix, groups: Groups, cut: real, merges: nat)
    requires Good(similar, groups)
  {
    && (merges < |groups| || merges == 0)
    && (forall k: nat :: k < merges ==> Closeness(similar, Level(similar, groups, k)) >= cut)
    && Stopped(similar, Level(similar, groups, merges), cut)
  }

  /** After `merges` merges, all at or above the cut. */
  ghost predicate Reached(similar: Matrix, groups: Groups, cut: real, merges: nat, now: Groups)
    requires Good(similar, groups)
  {
    && (merges < |groups| || merges == 0)
    && now == Level(similar, groups, merges)
    && (forall k: nat :: k < merges ==> Closeness(similar, Level(similar, groups, k)) >= cut)
  }

  lemma ReachStep(similar: Matrix, groups: Groups, cut: real, merges: nat, now: Groups)
    requires Good(similar, groups) && Reached(similar, groups, cut, merges, now)
    requires Good(similar, now) && |now| > 1 && Closeness(similar, now) >= cut
    ensures Good(similar, Step(similar, now))
    ensures Reached(similar, groups, cut, merges + 1, Step(similar, now))
  {
    StepIsGood(similar, now);
  }

  lemma ReachStop(similar: Matrix, groups: Groups, cut: real, merges: nat, now: Groups)
    requires Good(similar, groups) && Reached(similar, groups, cut, merges, now) && Good(similar, now)
    requires |now| <= 1 || Closeness(similar, now) < cut
    ensures CutsAt(similar, groups, cut, merges) && Stopped(similar, now, cut)
  {
    if |now| > 1 {
      forall p: nat, q: nat | p < q < |now| ensures Mean(similar, now[p], now[q]) < cut {
        AnyTwoAtMost(similar, now, p, q);
      }
    }
  }

  method FindClosest(similar: Matrix, groups: Groups) returns (best: Best)
    requires Clusterable(similar, groups)
    ensures best == Closest(similar, groups)
  {
    best := NoPair;
    for x := 0 to |groups|
      invariant BestIn(groups, best)
      invariant ScanFrom(similar, groups, x, x + 1, best) == Closest(similar, groups)
    {
      for y := x + 1 to |groups|
        invariant BestIn(groups, best)
        invariant ScanFrom(similar, groups, x, y, best) == Closest(similar, groups)
      {
        if best.NoPair? || Mean(similar, groups[x], groups[y]) > Mean(similar, groups[best.x], groups[best.y]) {
          best := Pair(x, y);
        }
      }
    }
  }

  lemma BestIsCloseness(similar: Matrix, groups: Groups)
    requires Clusterable(similar, groups) && |groups| > 1
    ensures var best := Closest(similar, groups);
            && best.Pair? && best.x < best.y < |groups|
            && Mean(similar, groups[best.x], groups[best.y]) == Closeness(similar, groups)
            && Step(similar, groups) == Merged(groups, best.x, best.y)
  {
    ClosestIsFirstBest(similar, groups);
  }

  /** `groups[x] += groups.pop(y)`, the pop after the group at `x` is read. */
  method PopInto(groups: Groups, x: nat, y: nat) returns (merged: Groups)
    requires x < y < |groups|
    ensures merged == Merged(groups, x, y)
  {
    var popped := groups[y];
    merged := groups[..y] + groups[y + 1..];
    merged := merged[x := merged[x] + popped];
  }

  /** The run from one group an index on, after `merges` merges. */
  ghost predicate Underway(similar: Matrix, cut: real, groups: Groups, merges: nat)
    requires Good(similar, Singletons(|similar|))
  {
    Reached(similar, Singletons(|similar|), cut, merges, groups)
  }

  lemma UnderwayIsGood(similar: Matrix, cut: real, groups: Groups, merges: nat)
    requires Good(similar, Singletons(|similar|)) && Underway(similar, cut, groups, merges)
    ensures Good(similar, groups)
  {
    LevelIsGood(similar, Singletons(|similar|), merges);
  }

  lemma RunBegins(similar: Matrix, cut: real)
    requires Square(similar) && Symmetric(similar)
    ensures Good(similar, Singletons(|similar|)) && Underway(similar, cut, Singletons(|similar|), 0)
  {
    SingletonsAreGood(|similar|);
  }

  lemma RunGoesOn(similar: Matrix, cut: real, groups: Groups, merges: nat)
    requires Good(similar, Singletons(|similar|))
    requires Underway(similar, cut, groups, merges) && |groups| > 1 && Closeness(similar, groups) >= cut
    ensures Underway(similar, cut, Step(similar, groups), merges + 1)
  {
    UnderwayIsGood(similar, cut, groups, merges);
    ReachStep(similar, Singletons(|similar|), cut, merges, groups);
  }

  lemma {:induction false} RunEnds(similar: Matrix, cut: real, groups: Groups, merges: nat)
    requires Good(similar, Singletons(|similar|))
    requires Underway(similar, cut, groups, merges) && (|groups| <= 1 || Closeness(similar, groups) < cut)
    ensures IsPartition(groups, |similar|) && HeadsAscend(groups) && Stopped(similar, groups, cut)
    ensures CutsAt(similar, Singletons(|similar|), cut, merges)
    ensures groups == Level(similar, Singletons(|similar|), merges)
  {
    UnderwayIsGood(similar, cut, groups, merges);
    ReachStop(similar, Singletons(|similar|), cut, merges, groups);
  }

  /** One pass: the two closest groups made one, unless they fall short of the cut. */
  method MergeClosest(similar: Matrix, cut: real, groups: Groups, ghost merges: nat)
    returns (merged: bool, next: Groups)
    requires Good(similar, Singletons(|similar|))
    requires Underway(similar, cut, groups, merges) && |groups| > 1
    ensures merged <==> Closeness(similar, groups) >= cut
    ensures next == if merged then Step(similar, groups) else groups
    ensures merged ==> Underway(similar, cut, next, merges + 1)
  {
    var best := FindClosest(similar, groups);
    BestIsCloseness(similar, groups);
    if Mean(similar, groups[best.x], groups[best.y]) < cut {
      merged, next := false, groups;
    } else {
      merged := true;
      next := PopInto(groups, best.x, best.y);
      RunGoesOn(similar, cut, groups, merges);
    }
  }

  method MergeWhileClose(similar: Matrix, cut: real, start: Groups) returns (groups: Groups, ghost merges: nat)
    requires Good(similar, Singletons(|similar|)) && Underway(similar, cut, start, 0)
    ensures Underway(similar, cut, groups, merges) && (|groups| <= 1 || Closeness(similar, groups) < cut)
  {
    groups, merges := start, 0;
    while |groups| > 1
      invariant Underway(similar, cut, groups, merges)
      decreases |groups|
    {
      var merged, next := MergeClosest(similar, cut, groups, merges);
      if !merged {
        break;
      }
      groups, merges := next, merges + 1;
    }
  }

  /** The whole run, each index a group to start with: a partition where no two groups reach the cut,
      got by exactly the merges counted. */
  method Cluster(similar: Matrix, cut: real) returns (groups: Groups, ghost merges: nat)
    requires Square(similar) && Symmetric(similar)
    ensures IsPartition(groups, |similar|) && HeadsAscend(groups) && Stopped(similar, groups, cut)
    ensures Good(similar, Singletons(|similar|))
    ensures CutsAt(similar, Singletons(|similar|), cut, merges)
    ensures groups == Level(similar, Singletons(|similar|), merges)
  {
    RunBegins(similar, cut);
    groups, merges := MergeWhileClose(similar, cut, Singletons(|similar|));
    RunEnds(similar, cut, groups, merges);
  }

  // ----- what the cut means -----

  ghost predicate Refines(fine: Groups, coarse: Groups) {
    forall x :: 0 <= x < |fine| ==> Inside(fine, x, coarse)
  }

  ghost predicate Inside(fine: Groups, x: nat, coarse: Groups) {
    exists y :: Within(fine, x, coarse, y)
  }

  ghost predicate Within(fine: Groups, x: nat, coarse: Groups, y: nat) {
    x < |fine| && y < |coarse| && forall i :: i in fine[x] ==> i in coarse[y]
  }

  lemma StepCoarsens(similar: Matrix, groups: Groups)
    requires Clusterable(similar, groups) && |groups| > 1
    ensures Refines(groups, Step(similar, groups))
  {
    ClosestIsFirstBest(similar, groups);
    var best := Closest(similar, groups);
    forall p | 0 <= p < |groups| ensures Inside(groups, p, Step(similar, groups)) {
      forall i | i in groups[p] ensures i in Step(similar, groups)[After(best.x, best.y, p)] {
        MergedHolds(groups, best.x, best.y, p, i);
      }
      assert Within(groups, p, Step(similar, groups), After(best.x, best.y, p));
    }
  }

  lemma {:induction false} LevelsCoarsen(similar: Matrix, groups: Groups, j: nat, k: nat)
    requires Good(similar, groups) && j <= k && (k < |groups| || k == 0)
    ensures Refines(Level(similar, groups, j), Level(similar, groups, k))
    decreases k - j
  {
    var fine := Level(similar, groups, j);
    if j == k {
      forall x | 0 <= x < |fine| ensures Inside(fine, x, fine) {
        assert Within(fine, x, fine, x);
      }
    } else {
      var before, coarse := Level(similar, groups, k - 1), Level(similar, groups, k);
      LevelsCoarsen(similar, groups, j, k - 1);
      StepCoarsens(similar, before);
      forall x | 0 <= x < |fine| ensures Inside(fine, x, coarse) {
        assert Inside(fine, x, before);
        var m :| Within(fine, x, before, m);
        assert Inside(before, m, coarse);
        var y :| Within(before, m, coarse, y);
        assert Within(fine, x, coarse, y);
      }
    }
  }

  /** A run makes exactly the merges of the full dendrogram at or above the cut. */
  lemma {:induction false} CutIsDendrogramCut(similar: Matrix, groups: Groups, cut: real, merges: nat, k: nat)
    requires Good(similar, groups) && CutsAt(similar, groups, cut, merges) && k + 1 < |groups|
    ensures k < merges <==> Closeness(similar, Level(similar, groups, k)) >= cut
  {
    if merges <= k {
      LevelsFall(similar, groups, merges, k);
      ClosestIsFirstBest(similar, Level(similar, groups, merges));
    }
  }

  /** Raising the cut only splits groups: the higher cut's groups each lie inside one of the lower
      cut's. */
  lemma {:induction false} HigherCutRefines(similar: Matrix, groups: Groups, high: real, low: real, few: nat, many: nat)
    requires Good(similar, groups) && low <= high
    requires CutsAt(similar, groups, high, few) && CutsAt(similar, groups, low, many)
    ensures few <= many && Refines(Level(similar, groups, few), Level(similar, groups, many))
  {
    if many < few {
      CutIsDendrogramCut(similar, groups, low, many, many);
    }
    LevelsCoarsen(similar, groups, few, many);
  }
}
