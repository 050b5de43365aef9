/** The rank form of the area under the ROC curve (scripts/patch_crossval.py:116-125): the ranks of
    the positives among all the scores, summed, in place of counting pairs. */
module RankAuc {
  import opened Arrays

  /** `argsort` without a promise about ties: any reordering that sorts. */
  ghost predicate IsArgsort(scores: seq<real>, order: seq<nat>) {
    && IsPermutation(order, |scores|)
    && (forall i, j :: 0 <= i < j < |order| ==> scores[order[i]] <= scores[order[j]])
  }

  /** `scores.argsort().argsort()`: the place of each score in the sorted order. */
  ghost predicate IsRanking(scores: seq<real>, order: seq<nat>, ranks: seq<nat>) {
    && IsArgsort(scores, order)
    && IsPermutation(ranks, |scores|)
    && (forall i, j :: 0 <= i < j < |ranks| ==> order[ranks[i]] <= order[ranks[j]])
  }

  lemma {:induction false} AscendingAtLeast(c: seq<nat>, i: nat)
    requires Ascending(c) && i < |c|
    ensures c[i] >= i
  {
    if i > 0 {
      AscendingAtLeast(c, i - 1);
    }
  }

  lemma {:induction false} AscendingAtMost(c: seq<nat>, i: nat)
    requires Ascending(c) && InBounds(c, |c|) && i < |c|
    ensures c[i] <= i
    decreases |c| - i
  {
    if i + 1 < |c| {
      AscendingAtMost(c, i + 1);
    }
  }

  lemma DistinctAt(order: seq<nat>, n: nat, a: nat, b: nat)
    requires IsPermutation(order, n) && a < n && b < n
    ensures a != b ==> order[a] != order[b]
  {
    var lo, hi := if a < b then a else b, if a < b then b else a;
    if lo < hi {
      assert order[lo] != order[hi];
    }
  }

  /** The one way to sort a permutation undoes it. */
  lemma RankingInverts(order: seq<nat>, ranks: seq<nat>, n: nat)
    requires IsPermutation(order, n) && IsPermutation(ranks, n)
    requires forall i, j :: 0 <= i < j < n ==> order[ranks[i]] <= order[ranks[j]]
    ensures forall i :: 0 <= i < n ==> order[ranks[i]] == i
  {
    var c := Gather(order, ranks);
    forall i, j | 0 <= i < j < n ensures c[i] < c[j] {
      assert order[ranks[i]] <= order[ranks[j]];
      DistinctAt(order, n, ranks[i], ranks[j]);
    }
    forall i | 0 <= i < n ensures order[ranks[i]] == i {
      AscendingAtLeast(c, i);
      AscendingAtMost(c, i);
      assert c[i] == order[ranks[i]];
    }
  }

  /** Ranks put a lower score below a higher one: no score outranks a higher one. */
  ghost predicate RanksFollow(scores: seq<real>, ranks: seq<nat>) {
    && IsPermutation(ranks, |scores|)
    && (forall i, j :: 0 <= i < |scores| && 0 <= j < |scores| && ranks[i] < ranks[j] ==> scores[i] <= scores[j])
  }

  lemma RankingFollows(scores: seq<real>, order: seq<nat>, ranks: seq<nat>)
    requires IsRanking(scores, order, ranks)
    ensures RanksFollow(scores, ranks)
  {
    RankingInverts(order, ranks, |scores|);
    forall i, j | 0 <= i < |scores| && 0 <= j < |scores| && ranks[i] < ranks[j] ensures scores[i] <= scores[j] {
      assert order[ranks[i]] == i && order[ranks[j]] == j;
    }
  }

  // ----- counting -----

  function One(b: bool): nat { if b then 1 else 0 }

  /** How many of the ranks in `lo..hi` are below `v`. */
  function Below(ranks: seq<nat>, v: nat, lo: nat, hi: nat): (c: nat)
    requires lo <= hi <= |ranks|
    ensures c <= hi - lo
    decreases hi
  {
    if lo == hi then 0 else Below(ranks, v, lo, hi - 1) + One(ranks[hi - 1] < v)
  }

  function Equal(ranks: seq<nat>, v: nat, hi: nat): nat
    requires hi <= |ranks|
  {
    if hi == 0 then 0 else Equal(ranks, v, hi - 1) + One(ranks[hi - 1] == v)
  }

  lemma {:induction false} BelowSplit(ranks: seq<nat>, v: nat, mid: nat, hi: nat)
    requires mid <= hi <= |ranks|
    ensures Below(ranks, v, 0, hi) == Below(ranks, v, 0, mid) + Below(ranks, v, mid, hi)
    decreases hi
  {
    if mid < hi {
      BelowSplit(ranks, v, mid, hi - 1);
    }
  }

  lemma {:induction false} BelowNext(ranks: seq<nat>, v: nat, hi: nat)
    requires hi <= |ranks|
    ensures Below(ranks, v + 1, 0, hi) == Below(ranks, v, 0, hi) + Equal(ranks, v, hi)
  {
    if hi > 0 {
      BelowNext(ranks, v, hi - 1);
    }
  }

  lemma {:induction false} BelowZero(ranks: seq<nat>, lo: nat, hi: nat)
    requires lo <= hi <= |ranks|
    ensures Below(ranks, 0, lo, hi) == 0
    decreases hi
  {
    if lo < hi {
      BelowZero(ranks, lo, hi - 1);
    }
  }

  lemma {:induction false} EqualCounts(ranks: seq<nat>, v: nat, at: nat, hi: nat)
    requires hi <= |ranks| && at < |ranks| && ranks[at] == v && NoRepeats(ranks)
    ensures Equal(ranks, v, hi) == One(at < hi)
  {
    if hi > 0 {
      EqualCounts(ranks, v, at, hi - 1);
      if at < hi - 1 {
        assert ranks[at] != ranks[hi - 1];
      } else if hi - 1 < at {
        assert ranks[hi - 1] != ranks[at];
      }
    }
  }

  /** In a permutation exactly `v` of the ranks are below `v`. */
  lemma {:induction false} BelowIsRank(ranks: seq<nat>, v: nat)
    requires IsPermutation(ranks, |ranks|) && v <= |ranks|
    ensures Below(ranks, v, 0, |ranks|) == v
    decreases v
  {
    if v == 0 {
      BelowZero(ranks, 0, |ranks|);
    } else {
      BelowIsRank(ranks, v - 1);
      BelowNext(ranks, v - 1, |ranks|);
      assert v - 1 in ranks;
      var at :| 0 <= at < |ranks| && ranks[at] == v - 1;
      EqualCounts(ranks, v - 1, at, |ranks|);
    }
  }

  /** The sum, over the first `p` entries, of how many of the entries in `lo..hi` rank below each. */
  function PairsBelow(ranks: seq<nat>, p: nat, lo: nat, hi: nat): nat
    requires p <= |ranks| && lo <= hi <= |ranks|
  {
    if p == 0 then 0 else PairsBelow(ranks, p - 1, lo, hi) + Below(ranks, ranks[p - 1], lo, hi)
  }

  function RankSum(ranks: seq<nat>, p: nat): nat
    requires p <= |ranks|
  {
    if p == 0 then 0 else RankSum(ranks, p - 1) + ranks[p - 1]
  }

  lemma {:induction false} RankSumSplits(ranks: seq<nat>, mid: nat, p: nat)
    requires IsPermutation(ranks, |ranks|) && mid <= |ranks| && p <= |ranks|
    ensures RankSum(ranks, p) == PairsBelow(ranks, p, 0, mid) + PairsBelow(ranks, p, mid, |ranks|)
    decreases p
  {
    if p > 0 {
      RankSumSplits(ranks, mid, p - 1);
      BelowIsRank(ranks, ranks[p - 1]);
      BelowSplit(ranks, ranks[p - 1], mid, |ranks|);
    }
  }

  /** Widening the second side by one entry adds, per first entry, whether the new one is below it. */
  function Above(ranks: seq<nat>, v: nat, p: nat): (c: nat)
    requires p <= |ranks|
    ensures c <= p
  {
    if p == 0 then 0 else Above(ranks, v, p - 1) + One(v < ranks[p - 1])
  }

  lemma {:induction false} PairsBelowWiden(ranks: seq<nat>, p: nat, hi: nat)
    requires p <= |ranks| && hi < |ranks|
    ensures PairsBelow(ranks, p, 0, hi + 1) == PairsBelow(ranks, p, 0, hi) + Above(ranks, ranks[hi], p)
    decreases p
  {
    if p > 0 {
      PairsBelowWiden(ranks, p - 1, hi);
    }
  }

  lemma {:induction false} AboveOrBelow(ranks: seq<nat>, at: nat, p: nat)
    requires NoRepeats(ranks) && p <= at < |ranks|
    ensures Above(ranks, ranks[at], p) + Below(ranks, ranks[at], 0, p) == p
    decreases p
  {
    if p > 0 {
      AboveOrBelow(ranks, at, p - 1);
      assert ranks[p - 1] != ranks[at];
    }
  }

  /** Among themselves, `p` distinct ranks make p(p-1)/2 ordered pairs. */
  lemma {:induction false} PairsAmongThemselves(ranks: seq<nat>, p: nat)
    requires NoRepeats(ranks) && p <= |ranks|
    ensures 2 * PairsBelow(ranks, p, 0, p) == p * (p - 1)
    decreases p
  {
    if p > 0 {
      PairsAmongThemselves(ranks, p - 1);
      PairsBelowWiden(ranks, p, p - 1);
      PairsBelowWiden(ranks, p - 1, p - 1);
      AboveOrBelow(ranks, p - 1, p - 1);
      SelfNotBelow(ranks, p);
      Triangle(p);
    }
  }

  lemma Triangle(p: nat)
    requires p > 0
    ensures (p - 1) * (p - 2) + 2 * (p - 1) == p * (p - 1)
  {
  }

  lemma SelfNotBelow(ranks: seq<nat>, p: nat)
    requires 0 < p <= |ranks|
    ensures Below(ranks, ranks[p - 1], 0, p) == Below(ranks, ranks[p - 1], 0, p - 1)
  {
  }

  // ----- pair counts -----

  function WinsFor(scores: seq<real>, s: real, lo: nat, hi: nat): nat
    requires lo <= hi <= |scores|
    decreases hi
  {
    if lo == hi then 0 else WinsFor(scores, s, lo, hi - 1) + One(scores[hi - 1] < s)
  }

  function WinsOrTiesFor(scores: seq<real>, s: real, lo: nat, hi: nat): nat
    requires lo <= hi <= |scores|
    decreases hi
  {
    if lo == hi then 0 else WinsOrTiesFor(scores, s, lo, hi - 1) + One(scores[hi - 1] <= s)
  }

  /** The (positive, negative) pairs with the positive higher, the first `p` of the `positives` first
      scores counted. */
  function Wins(scores: seq<real>, positives: nat, p: nat): nat
    requires p <= positives <= |scores|
  {
    if p == 0 then 0 else Wins(scores, positives, p - 1) + WinsFor(scores, scores[p - 1], positives, |scores|)
  }

  function WinsOrTies(scores: seq<real>, positives: nat, p: nat): nat
    requires p <= positives <= |scores|
  {
    if p == 0 then 0
    else WinsOrTies(scores, positives, p - 1) + WinsOrTiesFor(scores, scores[p - 1], positives, |scores|)
  }

  lemma {:induction false} BelowBetween(scores: seq<real>, ranks: seq<nat>, i: nat, lo: nat, hi: nat)
    requires RanksFollow(scores, ranks) && i < |scores| && lo <= hi <= |scores|
    ensures WinsFor(scores, scores[i], lo, hi) <= Below(ranks, ranks[i], lo, hi)
    ensures Below(ranks, ranks[i], lo, hi) <= WinsOrTiesFor(scores, scores[i], lo, hi)
    decreases hi
  {
    if lo < hi {
      BelowBetween(scores, ranks, i, lo, hi - 1);
    }
  }

  lemma {:induction false} PairsBetween(scores: seq<real>, ranks: seq<nat>, positives: nat, p: nat)
    requires RanksFollow(scores, ranks) && p <= positives <= |scores|
    ensures Wins(scores, positives, p) <= PairsBelow(ranks, p, positives, |scores|) <= WinsOrTies(scores, positives, p)
    decreases p
  {
    if p > 0 {
      PairsBetween(scores, ranks, positives, p - 1);
      BelowBetween(scores, ranks, p - 1, positives, |scores|);
    }
  }

  // ----- the area -----

  datatype Area = Undefined | Area(value: real)

  function Pairs(ranks: nat, positives: nat): (pairs: real)
    requires positives <= ranks
    ensures 0 < positives < ranks ==> pairs > 0.0
  {
    positives as real * (ranks - positives) as real
  }

  /** The rank sum, less what `p` positives at the very bottom would have. */
  function Excess(ranks: seq<nat>, positives: nat): real
    requires positives <= |ranks|
  {
    RankSum(ranks, positives) as real - (positives * (positives - 1)) as real / 2.0
  }

  function Auc(ranks: seq<nat>, positives: nat): Area
    requires positives <= |ranks|
  {
    if positives == 0 || positives == |ranks| then Undefined
    else Area(Excess(ranks, positives) / Pairs(|ranks|, positives))
  }

  /** The rank sum less its least possible value counts the pairs a positive ranks above a negative. */
  lemma {:induction false} RankSumCountsPairs(ranks: seq<nat>, positives: nat)
    requires IsPermutation(ranks, |ranks|) && positives <= |ranks|
    ensures Excess(ranks, positives) == PairsBelow(ranks, positives, positives, |ranks|) as real
  {
    RankSumSplits(ranks, positives, positives);
    PairsAmongThemselves(ranks, positives);
  }

  lemma OverPairs(a: real, b: real, pairs: real)
    requires pairs > 0.0 && a <= b
    ensures a / pairs <= b / pairs
  {
  }

  lemma {:induction false} ExcessBetween(scores: seq<real>, order: seq<nat>, ranks: seq<nat>, positives: nat)
    requires IsRanking(scores, order, ranks) && positives <= |scores|
    ensures Wins(scores, positives, positives) as real <= Excess(ranks, positives)
    ensures Excess(ranks, positives) <= WinsOrTies(scores, positives, positives) as real
  {
    RankingFollows(scores, order, ranks);
    PairsBetween(scores, ranks, positives, positives);
    RankSumCountsPairs(ranks, positives);
  }

  /** For any order the sort gives tied scores, the area lies between the share of pairs the positive
      wins outright and the share it wins or ties. */
  lemma {:induction false} AucBetweenWinsAndTies(scores: seq<real>, order: seq<nat>, ranks: seq<nat>, positives: nat)
    requires IsRanking(scores, order, ranks) && 0 < positives < |scores|
    ensures Auc(ranks, positives).Area?
    ensures Wins(scores, positives, positives) as real / Pairs(|scores|, positives) <= Auc(ranks, positives).value
    ensures Auc(ranks, positives).value <= WinsOrTies(scores, positives, positives) as real / Pairs(|scores|, positives)
  {
    ExcessBetween(scores, order, ranks, positives);
    OverPairs(Wins(scores, positives, positives) as real, Excess(ranks, positives), Pairs(|scores|, positives));
    OverPairs(Excess(ranks, positives), WinsOrTies(scores, positives, positives) as real, Pairs(|scores|, positives));
  }

  ghost predicate NoTies(scores: seq<real>, positives: nat)
    requires positives <= |scores|
  {
    forall i, j :: 0 <= i < positives <= j < |scores| ==> scores[i] != scores[j]
  }

  lemma {:induction false} NoTiesFor(scores: seq<real>, s: real, lo: nat, hi: nat)
    requires lo <= hi <= |scores|
    ensures WinsOrTiesFor(scores, s, lo, hi) >= WinsFor(scores, s, lo, hi)
    ensures WinsOrTiesFor(scores, s, lo, hi) == WinsFor(scores, s, lo, hi)
       <==> forall j :: lo <= j < hi ==> scores[j] != s
    decreases hi
  {
    if lo < hi {
      NoTiesFor(scores, s, lo, hi - 1);
    }
  }

  /** The two bounds meet exactly when no positive ties a negative. */
  lemma {:induction false} BoundsMeet(scores: seq<real>, positives: nat, p: nat)
    requires p <= positives <= |scores|
    ensures WinsOrTies(scores, positives, p) >= Wins(scores, positives, p)
    ensures WinsOrTies(scores, positives, p) == Wins(scores, positives, p)
       <==> forall i, j :: 0 <= i < p && positives <= j < |scores| ==> scores[i] != scores[j]
    decreases p
  {
    if p > 0 {
      BoundsMeet(scores, positives, p - 1);
      NoTiesFor(scores, scores[p - 1], positives, |scores|);
    }
  }

  /** Without such ties the area is the probability it is said to be, whatever the sort does. */
  lemma {:induction false} AucIsWinShare(scores: seq<real>, order: seq<nat>, ranks: seq<nat>, positives: nat)
    requires IsRanking(scores, order, ranks) && 0 < positives < |scores| && NoTies(scores, positives)
    ensures Auc(ranks, positives) == Area(Wins(scores, positives, positives) as real / Pairs(|scores|, positives))
  {
    ExcessBetween(scores, order, ranks, positives);
    BoundsMeet(scores, positives, positives);
  }

  // ----- the share in pairs of samples -----

  /** The pairs of one of the first `p` positives and a negative that the positive wins. */
  ghost function PairsWon(scores: seq<real>, positives: nat, p: nat): set<(nat, nat)>
    requires p <= positives <= |scores|
  {
    set i: nat, j: nat | i < p && positives <= j < |scores| && scores[i] > scores[j] :: (i, j)
  }

  ghost function NegativesWon(scores: seq<real>, s: real, lo: nat, hi: nat): set<nat>
    requires lo <= hi <= |scores|
  {
    set j: nat | lo <= j < hi && s > scores[j]
  }

  function LosesTo(scores: seq<real>, s: real): nat -> bool {
    (j: nat) => j < |scores| && s > scores[j]
  }

  lemma {:induction false} SelectedCount(scores: seq<real>, s: real, lo: nat, hi: nat)
    requires lo <= hi <= |scores|
    ensures |Select(LosesTo(scores, s), lo, hi)| == WinsFor(scores, s, lo, hi)
    decreases hi
  {
    if lo < hi {
      SelectedCount(scores, s, lo, hi - 1);
    }
  }

  lemma {:induction false} SelectedAre(scores: seq<real>, s: real, lo: nat, hi: nat)
    requires lo <= hi <= |scores|
    ensures Elements(Select(LosesTo(scores, s), lo, hi)) == NegativesWon(scores, s, lo, hi)
  {
    SelectAscending(LosesTo(scores, s), lo, hi);
    forall j: nat | j in NegativesWon(scores, s, lo, hi) ensures j in Select(LosesTo(scores, s), lo, hi) {
      assert LosesTo(scores, s)(j);
    }
    forall j: nat | j in Select(LosesTo(scores, s), lo, hi) ensures j in NegativesWon(scores, s, lo, hi) {
      var k := IndexIn(Select(LosesTo(scores, s), lo, hi), j);
      assert LosesTo(scores, s)(Select(LosesTo(scores, s), lo, hi)[k]);
    }
  }

  lemma {:induction false} NegativesWonCount(scores: seq<real>, s: real, lo: nat, hi: nat)
    requires lo <= hi <= |scores|
    ensures |NegativesWon(scores, s, lo, hi)| == WinsFor(scores, s, lo, hi)
  {
    SelectedCount(scores, s, lo, hi);
    SelectedAre(scores, s, lo, hi);
    SelectAscending(LosesTo(scores, s), lo, hi);
    ElementsSize(Select(LosesTo(scores, s), lo, hi));
  }

  ghost function PairsWith(i: nat, js: set<nat>): set<(nat, nat)> {
    set j | j in js :: (i, j)
  }

  lemma {:induction false} PairsWithCount(i: nat, js: set<nat>)
    ensures |PairsWith(i, js)| == |js|
  {
    if js != {} {
      var j :| j in js;
      PairsWithCount(i, js - {j});
      assert PairsWith(i, js) == PairsWith(i, js - {j}) + {(i, j)};
    }
  }

  /** The wins are as many as those pairs. */
  lemma {:induction false} WinsArePairs(scores: seq<real>, positives: nat, p: nat)
    requires p <= positives <= |scores|
    ensures |PairsWon(scores, positives, p)| == Wins(scores, positives, p)
    decreases p
  {
    if p > 0 {
      WinsArePairs(scores, positives, p - 1);
      PairsWonNext(scores, positives, p - 1, p);
    }
  }

  lemma {:induction false} PairsWonNext(scores: seq<real>, positives: nat, p: nat, next: nat)
    requires next == p + 1 <= positives <= |scores|
    ensures |PairsWon(scores, positives, next)|
         == |PairsWon(scores, positives, p)| + WinsFor(scores, scores[p], positives, |scores|)
  {
    var won := NegativesWon(scores, scores[p], positives, |scores|);
    PairsWonSplit(scores, positives, p, next);
    DisjointSizes(PairsWon(scores, positives, p), PairsWith(p, won));
    PairsWithCount(p, won);
    NegativesWonCount(scores, scores[p], positives, |scores|);
  }

  lemma PairsWonSplit(scores: seq<real>, positives: nat, p: nat, next: nat)
    requires next == p + 1 <= positives <= |scores|
    ensures var more := PairsWith(p, NegativesWon(scores, scores[p], positives, |scores|));
            && PairsWon(scores, positives, next) == PairsWon(scores, positives, p) + more
            && PairsWon(scores, positives, p) !! more
  {
  }

  lemma DisjointSizes<T>(a: set<T>, b: set<T>)
    requires a !! b
    ensures |a + b| == |a| + |b|
  {
  }

  lemma ShareTimesPairs(won: nat, positives: nat, n: nat)
    requires 0 < positives < n
    ensures won as real / Pairs(n, positives) * (positives as real * (n - positives) as real) == won as real
  {
  }

  /** The area times the number of pairs of a positive and a negative is the number the positive wins;
      it is defined exactly when there are samples on both sides. */
  lemma {:induction false} AucCountsPairsWon(scores: seq<real>, order: seq<nat>, ranks: seq<nat>, positives: nat)
    requires IsRanking(scores, order, ranks) && positives <= |scores| && NoTies(scores, positives)
    ensures var negatives := |scores| - positives;
            && (Auc(ranks, positives).Area? <==> positives > 0 && negatives > 0)
            && (Auc(ranks, positives).Area? ==>
                  Auc(ranks, positives).value * (positives as real * negatives as real)
                  == |PairsWon(scores, positives, positives)| as real)
  {
    if 0 < positives < |scores| {
      AucIsWinShare(scores, order, ranks, positives);
      WinsArePairs(scores, positives, positives);
      ShareTimesPairs(Wins(scores, positives, positives), positives, |scores|);
    }
  }

  /** Every positive scores above every negative. */
  ghost predicate CleanlyAbove(scores: seq<real>, positives: nat)
    requires positives <= |scores|
  {
    forall i, j :: 0 <= i < positives <= j < |scores| ==> scores[i] > scores[j]
  }

  ghost predicate CleanlyBelow(scores: seq<real>, positives: nat)
    requires positives <= |scores|
  {
    forall i, j :: 0 <= i < positives <= j < |scores| ==> scores[i] < scores[j]
  }

  lemma {:induction false} AllPairsWon(scores: seq<real>, positives: nat, p: nat)
    requires p <= positives <= |scores|
    requires CleanlyAbove(scores, positives)
    ensures Wins(scores, positives, p) == p * (|scores| - positives)
    decreases p
  {
    if p > 0 {
      AllPairsWon(scores, positives, p - 1);
      AllNegativesWon(scores, scores[p - 1], positives, |scores|);
      OneMoreRow(p, |scores| - positives);
    }
  }

  lemma OneMoreRow(p: nat, n: nat)
    requires p > 0
    ensures (p - 1) * n + n == p * n
  {
  }

  lemma {:induction false} AllNegativesWon(scores: seq<real>, s: real, lo: nat, hi: nat)
    requires lo <= hi <= |scores| && forall j :: lo <= j < hi ==> s > scores[j]
    ensures WinsFor(scores, s, lo, hi) == hi - lo
    decreases hi
  {
    if lo < hi {
      AllNegativesWon(scores, s, lo, hi - 1);
    }
  }

  lemma {:induction false} NoPairsWon(scores: seq<real>, positives: nat, p: nat)
    requires p <= positives <= |scores|
    requires CleanlyBelow(scores, positives)
    ensures Wins(scores, positives, p) == 0
  {
    WinsArePairs(scores, positives, p);
    assert PairsWon(scores, positives, p) == {};
  }

  /** Scores that separate the two sides cleanly give 1 ... */
  lemma {:induction false} CleanSeparation(scores: seq<real>, order: seq<nat>, ranks: seq<nat>, positives: nat)
    requires IsRanking(scores, order, ranks) && 0 < positives < |scores| && CleanlyAbove(scores, positives)
    ensures Auc(ranks, positives) == Area(1.0)
  {
    AucIsWinShare(scores, order, ranks, positives);
    AllPairsWon(scores, positives, positives);
    WholeShare(positives, |scores| - positives);
  }

  /** ... and 0 the wrong way round. */
  lemma {:induction false} ReversedSeparation(scores: seq<real>, order: seq<nat>, ranks: seq<nat>, positives: nat)
    requires IsRanking(scores, order, ranks) && 0 < positives < |scores| && CleanlyBelow(scores, positives)
    ensures Auc(ranks, positives) == Area(0.0)
  {
    AucIsWinShare(scores, order, ranks, positives);
    NoPairsWon(scores, positives, positives);
  }

  lemma WholeShare(p: nat, n: nat)
    requires p > 0 && n > 0
    ensures (p * n) as real / (p as real * n as real) == 1.0
  {
    assert (p * n) as real == p as real * n as real;
  }

  // ----- a sort that puts tied negatives first -----

  function ScoreAt(scores: seq<real>, i: nat): real { if i < |scores| then scores[i] else 0.0 }

  function NegativesFirst(scores: seq<real>, positives: nat): (nat, nat) -> bool {
    (a: nat, b: nat) =>
      || ScoreAt(scores, a) < ScoreAt(scores, b)
      || (ScoreAt(scores, a) == ScoreAt(scores, b) && (a >= positives || b < positives))
  }

  ghost function Places(order: seq<nat>, n: nat): (ranks: seq<nat>)
    requires IsPermutation(order, n)
    ensures |ranks| == n && forall k :: 0 <= k < n ==> ranks[k] < n && order[ranks[k]] == k
  {
    seq(n, k requires 0 <= k < n => IndexIn(order, k))
  }

  lemma PlacesAreRanking(scores: seq<real>, order: seq<nat>)
    requires IsArgsort(scores, order)
    ensures IsRanking(scores, order, Places(order, |scores|))
  {
    var n, ranks := |scores|, Places(order, |scores|);
    forall i, j | 0 <= i < j < n ensures ranks[i] != ranks[j] {
      assert order[ranks[i]] == i && order[ranks[j]] == j;
    }
    forall r | 0 <= r < n ensures r in ranks {
      var k := order[r];
      assert order[ranks[k]] == k;
      DistinctAt(order, n, ranks[k], r);
    }
  }

  lemma {:induction false} TiedNegativesCount(scores: seq<real>, ranks: seq<nat>, i: nat, lo: nat, hi: nat)
    requires lo <= hi <= |scores| == |ranks| && i < |scores|
    requires forall j :: lo <= j < hi ==> (scores[j] <= scores[i] <==> ranks[j] < ranks[i])
    ensures Below(ranks, ranks[i], lo, hi) == WinsOrTiesFor(scores, scores[i], lo, hi)
    decreases hi
  {
    if lo < hi {
      TiedNegativesCount(scores, ranks, i, lo, hi - 1);
    }
  }

  lemma {:induction false} TiedPairsCount(scores: seq<real>, ranks: seq<nat>, positives: nat, p: nat)
    requires p <= positives <= |scores| == |ranks|
    requires forall i, j :: 0 <= i < positives <= j < |scores| ==> (scores[j] <= scores[i] <==> ranks[j] < ranks[i])
    ensures PairsBelow(ranks, p, positives, |scores|) == WinsOrTies(scores, positives, p)
    decreases p
  {
    if p > 0 {
      TiedPairsCount(scores, ranks, positives, p - 1);
      TiedNegativesCount(scores, ranks, p - 1, positives, |scores|);
    }
  }

  /** A sort is free to rank every tied negative below its positive; the area is then the share of
      wins and ties together. */
  lemma TiesCanCountAsWins(scores: seq<real>, positives: nat) returns (order: seq<nat>, ranks: seq<nat>)
    requires 0 < positives < |scores|
    ensures IsRanking(scores, order, ranks)
    ensures Auc(ranks, positives) == Area(WinsOrTies(scores, positives, positives) as real / Pairs(|scores|, positives))
  {
    var le := NegativesFirst(scores, positives);
    order := Argsort(le, |scores|);
    ArgsortIsPermutation(le, |scores|);
    forall i, j | 0 <= i < j < |order| ensures scores[order[i]] <= scores[order[j]] {
      assert le(order[i], order[j]);
    }
    ranks := Places(order, |scores|);
    PlacesAreRanking(scores, order);
    forall i, j | 0 <= i < positives <= j < |scores| ensures scores[j] <= scores[i] <==> ranks[j] < ranks[i] {
      assert order[ranks[i]] == i && order[ranks[j]] == j;
      if ranks[i] < ranks[j] {
        assert le(order[ranks[i]], order[ranks[j]]);
      } else if ranks[j] < ranks[i] {
        assert le(order[ranks[j]], order[ranks[i]]);
      }
    }
    TiedPairsCount(scores, ranks, positives, positives);
    RankSumCountsPairs(ranks, positives);
  }

  lemma OverPairsStrictly(a: real, b: real, pairs: real)
    requires pairs > 0.0 && a < b
    ensures a / pairs < b / pairs
  {
  }

  /** The area is the probability that a positive scores above a negative, for every sort, exactly
      when no positive ties a negative. */
  lemma {:induction false} AucIsProbabilityExactly(scores: seq<real>, positives: nat)
    requires 0 < positives < |scores|
    ensures NoTies(scores, positives)
       <==> forall order: seq<nat>, ranks: seq<nat> :: IsRanking(scores, order, ranks) ==>
              Auc(ranks, positives) == Area(Wins(scores, positives, positives) as real / Pairs(|scores|, positives))
  {
    BoundsMeet(scores, positives, positives);
    if NoTies(scores, positives) {
      forall order: seq<nat>, ranks: seq<nat> | IsRanking(scores, order, ranks)
        ensures Auc(ranks, positives) == Area(Wins(scores, positives, positives) as real / Pairs(|scores|, positives))
      {
        AucIsWinShare(scores, order, ranks, positives);
      }
    } else {
      var order, ranks := TiesCanCountAsWins(scores, positives);
      OverPairsStrictly(Wins(scores, positives, positives) as real, WinsOrTies(scores, positives, positives) as real,
                        Pairs(|scores|, positives));
    }
  }
}
