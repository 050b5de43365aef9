/** Two recorded solves walked side by side, and when a run of like decisions on the pair first gets
    long enough to give the dearer one up (scripts/scanlines_race_early_stop.py:66-174). */
module EarlyStop {
  import opened Arrays

  /** One round of a solve: its costs from the start on, one more than it ran iterations, and its
      noise level. */
  datatype Round = Round(costs: seq<real>, noise: real)

  /** The rounds of the two solves, rows first. */
  type Race = seq<seq<Round>>

  datatype Pair = Pair(round: nat, i: nat, costs: seq<real>, ran: seq<nat>)

  datatype Rule = Rule(maxIters: nat, threshold: real, count: nat, budget: bool)

  const RATE_WINDOW: nat := 3

  function NRounds(race: Race): nat
    requires |race| == 2
  {
    if |race[0]| < |race[1]| then |race[0]| else |race[1]|
  }

  function Sigma2(race: Race, r: nat): real
    requires |race| == 2 && r < NRounds(race)
  {
    (race[0][r].noise * race[0][r].noise + race[1][r].noise * race[1][r].noise) / 2.0
  }

  /** Two solves, every round with its starting cost, and some noise in every round both ran. */
  ghost predicate IsRace(race: Race) {
    && |race| == 2
    && (forall s, r :: 0 <= s < 2 && 0 <= r < |race[s]| ==> |race[s][r].costs| > 0)
    && (forall r :: 0 <= r < NRounds(race) ==> Sigma2(race, r) > 0.0)
  }

  // ----- the pairs -----

  function Least(a: nat, b: nat): nat { if b < a then b else a }

  /** The step a solve is at, one that has finished the round staying at its last. */
  function StepOf(race: Race, s: nat, r: nat, i: nat): nat
    requires IsRace(race) && s < 2 && r < |race[s]|
  {
    Least(i, |race[s][r].costs| - 1)
  }

  function CostOf(race: Race, s: nat, r: nat, i: nat): real
    requires IsRace(race) && s < 2 && r < NRounds(race)
  {
    race[s][r].costs[StepOf(race, s, r, i)] / Sigma2(race, r)
  }

  /** The iterations of the rounds before `r`. */
  function Before(race: Race, s: nat, r: nat): nat
    requires IsRace(race) && s < 2 && r <= |race[s]|
  {
    if r == 0 then 0 else Before(race, s, r - 1) + (|race[s][r - 1].costs| - 1)
  }

  function Ran(race: Race, s: nat, r: nat, i: nat): nat
    requires IsRace(race) && s < 2 && r < |race[s]|
  {
    Before(race, s, r) + StepOf(race, s, r, i)
  }

  function PairAt(race: Race, r: nat, i: nat): Pair
    requires IsRace(race) && r < NRounds(race)
  {
    Pair(r, i, [CostOf(race, 0, r, i), CostOf(race, 1, r, i)], [Ran(race, 0, r, i), Ran(race, 1, r, i)])
  }

  function RoundLength(race: Race, r: nat): nat
    requires IsRace(race) && r < NRounds(race)
  {
    Max(|race[0][r].costs|, |race[1][r].costs|)
  }

  /** The pairs of the first `r` rounds and of the first `i` steps of the next. */
  function Pairs(race: Race, r: nat, i: nat): seq<Pair>
    requires IsRace(race) && r <= NRounds(race) && (i > 0 ==> r < NRounds(race))
    decreases r, i
  {
    if i > 0 then Pairs(race, r, i - 1) + [PairAt(race, r, i - 1)]
    else if r > 0 then Pairs(race, r - 1, RoundLength(race, r - 1))
    else []
  }

  /** One round's pairs, the shorter solve held at its last cost. */
  method RoundPairs(race: Race, r: nat, before: seq<nat>, sofar: seq<Pair>) returns (pairs: seq<Pair>)
    requires IsRace(race) && r < NRounds(race)
    requires before == [Before(race, 0, r), Before(race, 1, r)] && sofar == Pairs(race, r, 0)
    ensures pairs == Pairs(race, r, RoundLength(race, r))
  {
    pairs := sofar;
    var sigma2 := Sigma2(race, r);
    var first, second := race[0][r].costs, race[1][r].costs;
    for i := 0 to Max(|first|, |second|)
      invariant pairs == Pairs(race, r, i)
    {
      var c := [first[Least(i, |first| - 1)] / sigma2, second[Least(i, |second| - 1)] / sigma2];
      var ran := [before[0] + Least(i, |first| - 1), before[1] + Least(i, |second| - 1)];
      pairs := pairs + [Pair(r, i, c, ran)];
    }
  }

  method IterationPairs(race: Race) returns (pairs: seq<Pair>)
    requires IsRace(race)
    ensures pairs == Pairs(race, NRounds(race), 0)
  {
    pairs := [];
    var before := [0, 0];
    for r := 0 to NRounds(race)
      invariant pairs == Pairs(race, r, 0)
      invariant before == [Before(race, 0, r), Before(race, 1, r)]
    {
      pairs := RoundPairs(race, r, before, pairs);
      before := [before[0] + (|race[0][r].costs| - 1), before[1] + (|race[1][r].costs| - 1)];
    }
  }

  // ----- the iterations run never fall back -----

  lemma {:induction false} BeforeMonotone(race: Race, s: nat, q: nat, r: nat)
    requires IsRace(race) && s < 2 && q <= r <= |race[s]|
    ensures Before(race, s, q) <= Before(race, s, r)
    decreases r
  {
    if q < r {
      BeforeMonotone(race, s, q, r - 1);
    }
  }

  ghost predicate Earlier(q: nat, j: nat, r: nat, i: nat) {
    q < r || (q == r && j < i)
  }

  lemma {:induction false} RanMonotone(race: Race, s: nat, q: nat, j: nat, r: nat, i: nat)
    requires IsRace(race) && s < 2 && r < |race[s]| && Earlier(q, j, r, i)
    ensures Ran(race, s, q, j) <= Ran(race, s, r, i) <= Before(race, s, |race[s]|)
  {
    BeforeMonotone(race, s, r + 1, |race[s]|);
    if q < r {
      BeforeMonotone(race, s, q + 1, r);
    }
  }

  /** The pairs are those of steps up to the longer solve's last, strictly in order. */
  lemma {:induction false} PairsInOrder(race: Race, r: nat, i: nat)
    requires IsRace(race) && r <= NRounds(race) && (i > 0 ==> r < NRounds(race) && i <= RoundLength(race, r))
    ensures forall p :: 0 <= p < |Pairs(race, r, i)| ==>
              var pair := Pairs(race, r, i)[p];
              && pair.round < NRounds(race) && pair == PairAt(race, pair.round, pair.i)
              && pair.i < RoundLength(race, pair.round)
              && Earlier(pair.round, pair.i, r, i)
    ensures forall p, q :: 0 <= p < q < |Pairs(race, r, i)| ==>
              Earlier(Pairs(race, r, i)[p].round, Pairs(race, r, i)[p].i,
                      Pairs(race, r, i)[q].round, Pairs(race, r, i)[q].i)
    decreases r, i
  {
    if i > 0 {
      PairsInOrder(race, r, i - 1);
    } else if r > 0 {
      PairsInOrder(race, r - 1, RoundLength(race, r - 1));
    }
  }

  /** Every step of every round, up to the longer solve's last, has its pair. */
  lemma {:induction false} EveryStepIsPaired(race: Race, r: nat, i: nat, q: nat, j: nat)
    requires IsRace(race) && r <= NRounds(race) && (i > 0 ==> r < NRounds(race))
    requires q < NRounds(race) && j < RoundLength(race, q) && Earlier(q, j, r, i)
    ensures PairAt(race, q, j) in Pairs(race, r, i)
    decreases r, i
  {
    if i > 0 {
      if q < r || j < i - 1 {
        EveryStepIsPaired(race, r, i - 1, q, j);
      }
    } else {
      EveryStepIsPaired(race, r - 1, RoundLength(race, r - 1), q, j);
    }
  }

  /** From pair to pair neither solve's iterations run ever fall, and they never pass what the solve
      ran in all. */
  lemma {:induction false} RanNeverFalls(race: Race, p: nat, q: nat, s: nat)
    requires IsRace(race) && p < q < |Pairs(race, NRounds(race), 0)| && s < 2
    ensures var pairs := Pairs(race, NRounds(race), 0);
            && |pairs[p].ran| == |pairs[q].ran| == 2
            && pairs[p].ran[s] <= pairs[q].ran[s] <= Before(race, s, |race[s]|)
  {
    var pairs := Pairs(race, NRounds(race), 0);
    PairsInOrder(race, NRounds(race), 0);
    assert pairs[p] == PairAt(race, pairs[p].round, pairs[p].i) && pairs[q] == PairAt(race, pairs[q].round, pairs[q].i);
    RanMonotone(race, s, pairs[p].round, pairs[p].i, pairs[q].round, pairs[q].i);
  }

  /** What a pair holds: each solve's cost at the step, or at its last once it has finished the round, in
      units of the round's mean squared noise, and the iterations run by then. */
  lemma {:induction false} PairSays(race: Race, r: nat, i: nat, s: nat)
    requires IsRace(race) && r < NRounds(race) && s < 2
    ensures var pair, costs := PairAt(race, r, i), race[s][r].costs;
            var step := if i < |costs| then i else |costs| - 1;
            && pair.round == r && pair.i == i && |pair.costs| == |pair.ran| == 2
            && pair.costs[s] == costs[step] / Sigma2(race, r)
            && pair.ran[s] == Before(race, s, r) + step
  {
    CostSays(race, s, r, i);
    var pair := PairAt(race, r, i);
    if s == 0 {
      assert pair.costs[0] == CostOf(race, 0, r, i) && pair.ran[0] == Ran(race, 0, r, i);
    } else {
      assert pair.costs[1] == CostOf(race, 1, r, i) && pair.ran[1] == Ran(race, 1, r, i);
    }
  }

  lemma {:induction false} CostSays(race: Race, s: nat, r: nat, i: nat)
    requires IsRace(race) && r < NRounds(race) && s < 2
    ensures var costs := race[s][r].costs;
            var step := if i < |costs| then i else |costs| - 1;
            CostOf(race, s, r, i) == costs[step] / Sigma2(race, r) && Ran(race, s, r, i) == Before(race, s, r) + step
  {
  }

  /** The unit is the mean of the two solves' squared noise. */
  lemma Sigma2IsMean(race: Race, r: nat)
    requires |race| == 2 && r < NRounds(race)
    ensures 2.0 * Sigma2(race, r) == race[0][r].noise * race[0][r].noise + race[1][r].noise * race[1][r].noise
  {
  }

  /** Counting iterations: none before the first round, and over a round as many as its costs less one. */
  lemma BeforeCounts(race: Race, s: nat, r: nat)
    requires IsRace(race) && s < 2 && r < |race[s]|
    ensures Before(race, s, 0) == 0
    ensures Before(race, s, r + 1) == Before(race, s, r) + |race[s][r].costs| - 1
  {
  }

  // ----- the verdict on a pair -----

  datatype Rate = NoRate | Rate(value: real)

  /** The sum of the decreases over steps `lo+1..hi`, in units of sigma^2. */
  function Drops(costs: seq<real>, lo: nat, hi: nat, sigma2: real): real
    requires lo <= hi < |costs| && sigma2 > 0.0
    decreases hi
  {
    if lo == hi then 0.0 else Drops(costs, lo, hi - 1, sigma2) + (costs[hi - 1] - costs[hi]) / sigma2
  }

  /** The gain per step over the window that ends at step `i`, or at the solve's last step. */
  function IterationRate(costs: seq<real>, i: nat, sigma2: real): Rate
    requires |costs| > 0 && sigma2 > 0.0
  {
    var last := Least(i, |costs| - 1);
    if last == 0 then NoRate
    else
      var window := Least(RATE_WINDOW, last);
      Rate(Drops(costs, last - window, last, sigma2) / window as real)
  }

  lemma {:induction false} DropsTelescope(costs: seq<real>, lo: nat, hi: nat, sigma2: real)
    requires lo <= hi < |costs| && sigma2 > 0.0
    ensures Drops(costs, lo, hi, sigma2) == (costs[lo] - costs[hi]) / sigma2
    decreases hi
  {
    if lo < hi {
      DropsTelescope(costs, lo, hi - 1, sigma2);
      QuotientsAdd(costs[lo] - costs[hi - 1], costs[hi - 1] - costs[hi], sigma2);
    }
  }

  lemma QuotientsAdd(x: real, y: real, d: real)
    requires d > 0.0
    ensures x / d + y / d == (x + y) / d
  {
  }

  /** The rate is what the solve gained over the window, per step: none before its first step, and
      standing at its last window once it has finished. */
  lemma RateIsMeanGain(costs: seq<real>, i: nat, sigma2: real)
    requires |costs| > 0 && sigma2 > 0.0
    ensures IterationRate(costs, i, sigma2).Rate? <==> i > 0 && |costs| > 1
    ensures IterationRate(costs, i, sigma2).Rate? ==>
              var last := if i < |costs| then i else |costs| - 1;
              var window := if last < 3 then last else 3;
              && 0 < window <= last
              && IterationRate(costs, i, sigma2).value == (costs[last - window] - costs[last]) / sigma2 / window as real
  {
    var last := Least(i, |costs| - 1);
    DropsTelescope(costs, last - Least(RATE_WINDOW, last), last, sigma2);
  }

  datatype Verdict = Verdict(holds: bool, trailing: nat)

  function Gap(a: real, b: real): real { if a < b then b - a else a - b }

  function TrailingOf(pair: Pair): (s: nat)
    requires |pair.costs| == 2
    ensures s < 2
  {
    if pair.costs[0] > pair.costs[1] then 0 else 1
  }

  function Times(a: nat, b: nat): nat { a * b }

  /** How many more iterations the budget allows: the rest of this round's and every later round's. */
  function Left(race: Race, maxIters: nat, pair: Pair): nat
    requires IsRace(race) && pair.round < NRounds(race)
  {
    (if maxIters > pair.i then maxIters - pair.i else 0) + Times(maxIters, NRounds(race) - 1 - pair.round)
  }

  lemma TimesRises(a: nat, b: nat, c: nat)
    requires b <= c
    ensures Times(a, b) <= Times(a, c)
    ensures b < c ==> Times(a, b) + a <= Times(a, c)
  {
    Distribute(a, b, c - b);
    if b < c {
      Distribute(a, 1, c - b - 1);
    }
  }

  lemma Distribute(a: nat, b: nat, d: nat)
    ensures a * (b + d) == a * b + a * d
  {
  }

  /** In the last round the budget leaves `maxIters` less those run, down to none; one step on within a
      round takes off exactly one while any of the round's are left; at a round's start every round from
      it on has them all. */
  lemma LeftCounts(race: Race, maxIters: nat, pair: Pair)
    requires IsRace(race) && pair.round < NRounds(race)
    ensures pair.round == NRounds(race) - 1 ==>
              Left(race, maxIters, pair) == if pair.i < maxIters then maxIters - pair.i else 0
    ensures Left(race, maxIters, pair)
         == Left(race, maxIters, pair.(i := pair.i + 1)) + (if pair.i < maxIters then 1 else 0)
    ensures pair.i == 0 ==> Left(race, maxIters, pair) == maxIters * (NRounds(race) - pair.round)
  {
    TimesNext(maxIters, NRounds(race) - 1 - pair.round);
  }

  lemma TimesNext(a: nat, q: nat)
    ensures Times(a, 0) == 0 && Times(a, q) + a == a * (q + 1)
  {
  }

  /** The iterations left never rise from one pair to a later one. */
  lemma {:induction false} LeftNeverRises(race: Race, maxIters: nat, p: nat, q: nat)
    requires IsRace(race) && p < q < |Pairs(race, NRounds(race), 0)|
    ensures var pairs := Pairs(race, NRounds(race), 0);
            && pairs[p].round < NRounds(race) && pairs[q].round < NRounds(race)
            && Left(race, maxIters, pairs[q]) <= Left(race, maxIters, pairs[p])
  {
    var pairs := Pairs(race, NRounds(race), 0);
    PairsInOrder(race, NRounds(race), 0);
    assert Earlier(pairs[p].round, pairs[p].i, pairs[q].round, pairs[q].i);
    TimesRises(maxIters, NRounds(race) - 1 - pairs[q].round, NRounds(race) - 1 - pairs[p].round);
  }

  /** More than the trailing solve would make up in the steps left at its recent rate. */
  predicate BeyondBudget(d: real, rate: real, left: nat) {
    d > rate * left as real
  }

  /** Not so exactly when the gap is closed by then. */
  lemma BudgetClosesGap(d: real, rate: real, left: nat)
    ensures !BeyondBudget(d, rate, left) <==> d - rate * left as real <= 0.0
  {
  }

  /** The dearer solve is past the last step of its last round. It has nothing left to run either at
      that step, or where its later rounds run no iterations; `NothingLeftExactly` says when. */
  predicate Spent(race: Race, pair: Pair)
    requires IsRace(race) && pair.round < NRounds(race) && |pair.costs| == 2
  {
    var trailer := race[TrailingOf(pair)];
    pair.round == |trailer| - 1 && |trailer[pair.round].costs| - 1 < pair.i
  }

  function RateOf(race: Race, pair: Pair): Rate
    requires IsRace(race) && pair.round < NRounds(race) && |pair.costs| == 2
  {
    IterationRate(race[TrailingOf(pair)][pair.round].costs, pair.i, Sigma2(race, pair.round))
  }

  function Judge(race: Race, rule: Rule, pair: Pair): Verdict
    requires IsRace(race) && pair.round < NRounds(race) && |pair.costs| == 2
  {
    var d, rate := Gap(pair.costs[0], pair.costs[1]), RateOf(race, pair);
    Verdict(!Spent(race, pair) && d > rule.threshold && rate.Rate?
            && (!rule.budget || BeyondBudget(d, rate.value, Left(race, rule.maxIters, pair))),
            TrailingOf(pair))
  }

  /** What the rule decides on a pair. The dearer solve trails, the second on a tie. The decision holds if
      that solve is not past the last step of its last round, the gap is over the threshold, the solve has
      a rate, and, with the budget test, the gap is more than that rate makes up in the iterations left. */
  lemma JudgeSays(race: Race, rule: Rule, pair: Pair)
    requires IsRace(race) && pair.round < NRounds(race) && |pair.costs| == 2
    ensures var v, x, y := Judge(race, rule, pair), pair.costs[0], pair.costs[1];
            var gap, s := if x > y then x - y else y - x, if x > y then 0 else 1;
            var costs := race[s][pair.round].costs;
            var rate := IterationRate(costs, pair.i, Sigma2(race, pair.round));
            && v.trailing == s
            && (v.holds <==>
                  && !(pair.round == |race[s]| - 1 && pair.i > |costs| - 1) && gap > rule.threshold && rate.Rate?
                  && (rule.budget ==> BeyondBudget(gap, rate.value, Left(race, rule.maxIters, pair))))
  {
    assert RateOf(race, pair)
        == IterationRate(race[TrailingOf(pair)][pair.round].costs, pair.i, Sigma2(race, pair.round));
  }

  // ----- runs of verdicts -----

  /** How many verdicts at the end hold with one and the same trailing solve. */
  function Run(verdicts: seq<Verdict>): nat {
    if |verdicts| == 0 || !verdicts[|verdicts| - 1].holds then 0
    else if |verdicts| > 1 && verdicts[|verdicts| - 2] == verdicts[|verdicts| - 1]
    then Run(verdicts[..|verdicts| - 1]) + 1
    else 1
  }

  ghost predicate LastHold(verdicts: seq<Verdict>, count: nat) {
    && count <= |verdicts|
    && forall m :: |verdicts| - count <= m < |verdicts| ==>
         verdicts[m].holds && verdicts[m].trailing == verdicts[|verdicts| - 1].trailing
  }

  /** The streaming counter reaches a count exactly when that many verdicts at the end all hold with
      one trailing solve. */
  lemma {:induction false} RunCounts(verdicts: seq<Verdict>, count: nat)
    requires count > 0
    ensures Run(verdicts) >= count <==> LastHold(verdicts, count)
    decreases |verdicts|
  {
    var n := |verdicts|;
    if n > 0 && verdicts[n - 1].holds {
      if n > 1 && verdicts[n - 2] == verdicts[n - 1] {
        if count > 1 {
          RunCounts(verdicts[..n - 1], count - 1);
          assert LastHold(verdicts, count) ==> verdicts[n - 2].holds;
        }
      } else if count > 1 && count <= n {
        assert !(verdicts[n - 2].holds && verdicts[n - 2].trailing == verdicts[n - 1].trailing);
      }
    } else if n > 0 {
      assert !verdicts[n - 1].holds;
    }
  }

  // ----- firing -----

  ghost predicate ArePairs(race: Race, pairs: seq<Pair>) {
    IsRace(race) && forall p :: 0 <= p < |pairs| ==> pairs[p].round < NRounds(race) && |pairs[p].costs| == 2
  }

  /** The verdicts on the counted pairs, the pairs at a round's start skipped. */
  ghost function Verdicts(race: Race, rule: Rule, pairs: seq<Pair>): seq<Verdict>
    requires ArePairs(race, pairs)
  {
    if |pairs| == 0 then []
    else
      var last := pairs[|pairs| - 1];
      Verdicts(race, rule, pairs[..|pairs| - 1]) + (if last.i == 0 then [] else [Judge(race, rule, last)])
  }

  /** Pair `p` is counted, and with it the last `count` counted pairs all hold with one trailing
      solve. */
  ghost predicate Fires(race: Race, rule: Rule, pairs: seq<Pair>, p: nat)
    requires ArePairs(race, pairs)
  {
    p < |pairs| && pairs[p].i > 0 && LastHold(Verdicts(race, rule, pairs[..p + 1]), rule.count)
  }

  datatype Firing = NoFiring | Firing(pair: nat, round: nat, i: nat, stopped: nat, gap: real)

  ghost predicate FirstFiring(race: Race, rule: Rule, pairs: seq<Pair>, out: Firing)
    requires ArePairs(race, pairs)
  {
    if out.NoFiring? then forall p :: 0 <= p < |pairs| ==> !Fires(race, rule, pairs, p)
    else
      && Fires(race, rule, pairs, out.pair)
      && (forall p :: 0 <= p < out.pair ==> !Fires(race, rule, pairs, p))
      && out.round == pairs[out.pair].round && out.i == pairs[out.pair].i
      && out.stopped == TrailingOf(pairs[out.pair])
      && out.gap == Gap(pairs[out.pair].costs[0], pairs[out.pair].costs[1])
  }

  lemma {:induction false} VerdictsNext(race: Race, rule: Rule, pairs: seq<Pair>, p: nat)
    requires ArePairs(race, pairs) && p < |pairs|
    ensures Verdicts(race, rule, pairs[..p + 1])
         == Verdicts(race, rule, pairs[..p]) + (if pairs[p].i == 0 then [] else [Judge(race, rule, pairs[p])])
  {
    assert pairs[..p + 1][..p] == pairs[..p];
  }

  lemma {:induction false} RunNext(verdicts: seq<Verdict>, v: Verdict)
    ensures Run(verdicts + [v])
         == if !v.holds then 0 else if |verdicts| > 0 && verdicts[|verdicts| - 1] == v then Run(verdicts) + 1 else 1
  {
    assert (verdicts + [v])[..|verdicts|] == verdicts;
  }

  lemma {:induction false} FiresIsRun(race: Race, rule: Rule, pairs: seq<Pair>, p: nat)
    requires ArePairs(race, pairs) && p < |pairs| && pairs[p].i > 0
    ensures Fires(race, rule, pairs, p) <==> Run(Verdicts(race, rule, pairs[..p + 1])) >= rule.count
  {
    VerdictsNext(race, rule, pairs, p);
    if rule.count > 0 {
      RunCounts(Verdicts(race, rule, pairs[..p + 1]), rule.count);
    }
  }

  /** The trailing solve of the last counted pair if it held, 2 for none. */
  function TrailingBefore(verdicts: seq<Verdict>): nat {
    if |verdicts| > 0 && verdicts[|verdicts| - 1].holds then verdicts[|verdicts| - 1].trailing else 2
  }

  /** The counter's step: `run` and `trailing_before` before, the verdict, `run` after. */
  lemma {:induction false} CounterStep(verdicts: seq<Verdict>, v: Verdict, run: nat, before: nat, next: nat)
    requires run == Run(verdicts) && before == TrailingBefore(verdicts) && v.trailing < 2
    requires next == if v.holds && v.trailing == before then run + 1 else if v.holds then 1 else 0
    ensures next == Run(verdicts + [v])
    ensures (if v.holds then v.trailing else 2) == TrailingBefore(verdicts + [v])
  {
    RunNext(verdicts, v);
  }

  /** The consecutive-decision counter, moved on by one decision. */
  method Count(ghost verdicts: seq<Verdict>, v: Verdict, run: nat, before: nat) returns (next: nat, trailing: nat)
    requires run == Run(verdicts) && before == TrailingBefore(verdicts) && v.trailing < 2
    ensures next == Run(verdicts + [v]) && trailing == TrailingBefore(verdicts + [v])
  {
    if v.holds && v.trailing == before {
      next := run + 1;
    } else if v.holds {
      next := 1;
    } else {
      next := 0;
    }
    CounterStep(verdicts, v, run, before, next);
    trailing := if v.holds then v.trailing else 2;
  }

  method JudgePair(race: Race, rule: Rule, pair: Pair) returns (v: Verdict, d: real)
    requires IsRace(race) && pair.round < NRounds(race) && |pair.costs| == 2
    ensures v == Judge(race, rule, pair) && d == Gap(pair.costs[0], pair.costs[1])
  {
    var trailing := if pair.costs[0] > pair.costs[1] then 0 else 1;
    d := Gap(pair.costs[0], pair.costs[1]);
    var rate := IterationRate(race[trailing][pair.round].costs, pair.i, Sigma2(race, pair.round));
    var left := Left(race, rule.maxIters, pair);
    var spent := pair.round == |race[trailing]| - 1 && |race[trailing][pair.round].costs| - 1 < pair.i;
    var holds := !spent && d > rule.threshold && rate.Rate?;
    if holds && rule.budget {
      holds := BeyondBudget(d, rate.value, left);
    }
    v := Verdict(holds, trailing);
  }

  /** The counter as it stands once the pairs before `p` are read. */
  ghost predicate Counted(race: Race, rule: Rule, pairs: seq<Pair>, p: nat, run: nat, before: nat)
    requires ArePairs(race, pairs)
  {
    && p <= |pairs|
    && run == Run(Verdicts(race, rule, pairs[..p]))
    && before == TrailingBefore(Verdicts(race, rule, pairs[..p]))
  }

  ghost predicate NoneFires(race: Race, rule: Rule, pairs: seq<Pair>, p: nat)
    requires ArePairs(race, pairs)
  {
    forall q :: 0 <= q < p ==> !Fires(race, rule, pairs, q)
  }

  /** One counted pair judged, and the counter moved on. */
  method CountPair(race: Race, rule: Rule, pairs: seq<Pair>, p: nat, run: nat, before: nat)
    returns (next: nat, after: nat, stopped: nat, gap: real)
    requires ArePairs(race, pairs) && p < |pairs| && pairs[p].i > 0
    requires Counted(race, rule, pairs, p, run, before)
    ensures Counted(race, rule, pairs, p + 1, next, after)
    ensures next >= rule.count <==> Fires(race, rule, pairs, p)
    ensures stopped == TrailingOf(pairs[p]) && gap == Gap(pairs[p].costs[0], pairs[p].costs[1])
  {
    VerdictsNext(race, rule, pairs, p);
    var v, d := JudgePair(race, rule, pairs[p]);
    next, after := Count(Verdicts(race, rule, pairs[..p]), v, run, before);
    FiresIsRun(race, rule, pairs, p);
    stopped, gap := v.trailing, d;
  }

  lemma NothingCounted(race: Race, rule: Rule, pairs: seq<Pair>)
    requires ArePairs(race, pairs)
    ensures Counted(race, rule, pairs, 0, 0, 2)
  {
    assert Verdicts(race, rule, pairs[..0]) == [];
  }

  lemma {:induction false} VerdictsSkip(race: Race, rule: Rule, pairs: seq<Pair>, p: nat)
    requires ArePairs(race, pairs) && p < |pairs| && pairs[p].i == 0
    ensures Verdicts(race, rule, pairs[..p + 1]) == Verdicts(race, rule, pairs[..p])
  {
    VerdictsNext(race, rule, pairs, p);
  }

  /** A pair at a round's start moves nothing and fires nothing. */
  lemma CountSkips(race: Race, rule: Rule, pairs: seq<Pair>, p: nat, run: nat, before: nat)
    requires ArePairs(race, pairs) && p < |pairs| && pairs[p].i == 0
    requires Counted(race, rule, pairs, p, run, before) && NoneFires(race, rule, pairs, p)
    ensures Counted(race, rule, pairs, p + 1, run, before) && NoneFires(race, rule, pairs, p + 1)
  {
    VerdictsSkip(race, rule, pairs, p);
    NoneFiresNext(race, rule, pairs, p);
  }

  lemma NoneFiresNext(race: Race, rule: Rule, pairs: seq<Pair>, p: nat)
    requires ArePairs(race, pairs) && NoneFires(race, rule, pairs, p) && !Fires(race, rule, pairs, p)
    ensures NoneFires(race, rule, pairs, p + 1)
  {
  }

  /** The walk over the pairs, ended by the first that makes the counter reach its count. */
  method FirstOf(race: Race, rule: Rule, pairs: seq<Pair>) returns (out: Firing)
    requires ArePairs(race, pairs)
    ensures FirstFiring(race, rule, pairs, out)
  {
    var run: nat, trailingBefore: nat := 0, 2;
    NothingCounted(race, rule, pairs);
    for p := 0 to |pairs|
      invariant Counted(race, rule, pairs, p, run, trailingBefore)
      invariant NoneFires(race, rule, pairs, p)
    {
      if pairs[p].i == 0 {
        CountSkips(race, rule, pairs, p, run, trailingBefore);
        continue;
      }
      var stopped: nat, d: real;
      run, trailingBefore, stopped, d := CountPair(race, rule, pairs, p, run, trailingBefore);
      if run >= rule.count {
        return Firing(p, pairs[p].round, pairs[p].i, stopped, d);
      }
      NoneFiresNext(race, rule, pairs, p);
    }
    out := NoFiring;
  }

  /** The rule read after every iteration of the two solves in lockstep. */
  method EvaluateIteration(race: Race, rule: Rule) returns (out: Firing)
    requires IsRace(race)
    ensures ArePairs(race, Pairs(race, NRounds(race), 0))
    ensures FirstFiring(race, rule, Pairs(race, NRounds(race), 0), out)
  {
    var pairs := IterationPairs(race);
    AllPairs(race);
    out := FirstOf(race, rule, pairs);
  }

  lemma {:induction false} AllPairs(race: Race)
    requires IsRace(race)
    ensures ArePairs(race, Pairs(race, NRounds(race), 0))
  {
    var pairs := Pairs(race, NRounds(race), 0);
    PairsInOrder(race, NRounds(race), 0);
    forall p | 0 <= p < |pairs| ensures pairs[p].round < NRounds(race) && |pairs[p].costs| == 2 {
      assert pairs[p] == PairAt(race, pairs[p].round, pairs[p].i);
    }
  }

  // ----- what a firing saves -----

  ghost predicate RunsLater(race: Race, s: nat, r: nat)
    requires IsRace(race) && s < 2 && r <= |race[s]|
  {
    exists q :: r <= q < |race[s]| && |race[s][q].costs| > 1
  }

  lemma {:induction false} BeforeGrowsExactly(race: Race, s: nat, r: nat, n: nat)
    requires IsRace(race) && s < 2 && r <= n <= |race[s]|
    ensures Before(race, s, r) < Before(race, s, n) <==> exists q :: r <= q < n && |race[s][q].costs| > 1
    decreases n
  {
    if r < n {
      BeforeGrowsExactly(race, s, r, n - 1);
      BeforeMonotone(race, s, r, n - 1);
    }
  }

  /** A solve has iterations left after a step exactly when the step is short of its round's last or
      a later round runs any. */
  lemma {:induction false} NothingLeftExactly(race: Race, s: nat, r: nat, i: nat)
    requires IsRace(race) && s < 2 && r < |race[s]|
    ensures Ran(race, s, r, i) < Before(race, s, |race[s]|)
       <==> i < |race[s][r].costs| - 1 || RunsLater(race, s, r + 1)
  {
    BeforeGrowsExactly(race, s, r + 1, |race[s]|);
    BeforeMonotone(race, s, r + 1, |race[s]|);
  }

  /** A firing saves iterations of the solve it stops exactly then. */
  lemma {:induction false} FiringSavesExactly(race: Race, rule: Rule, out: Firing)
    requires IsRace(race) && ArePairs(race, Pairs(race, NRounds(race), 0))
    requires FirstFiring(race, rule, Pairs(race, NRounds(race), 0), out) && out.Firing?
    ensures var pairs, s := Pairs(race, NRounds(race), 0), out.stopped;
            && out.pair < |pairs| && s < 2 && |pairs[out.pair].ran| == 2 && out.round < |race[s]|
            && (pairs[out.pair].ran[s] < Before(race, s, |race[s]|)
                <==> out.i < |race[s][out.round].costs| - 1 || RunsLater(race, s, out.round + 1))
  {
    var pairs := Pairs(race, NRounds(race), 0);
    PairsInOrder(race, NRounds(race), 0);
    assert pairs[out.pair] == PairAt(race, out.round, out.i);
    NothingLeftExactly(race, out.stopped, out.round, out.i);
  }

  function OneRound(costs: seq<real>, others: seq<real>): Race {
    [[Round(costs, 1.0)], [Round(others, 1.0)]]
  }

  lemma OneRoundPairs(costs: seq<real>, others: seq<real>)
    requires |costs| == |others| == 2
    ensures var race := OneRound(costs, others);
            && IsRace(race) && NRounds(race) == 1 && Before(race, 0, 1) == 1 && Sigma2(race, 0) == 1.0
            && Pairs(race, 1, 0) == [Pair(0, 0, [costs[0], others[0]], [0, 0]),
               Pair(0, 1, [costs[1], others[1]], [1, 1])]
  {
    var race := OneRound(costs, others);
    assert race[0][0] == Round(costs, 1.0) && race[1][0] == Round(others, 1.0);
    assert Sigma2(race, 0) == 1.0;
    assert PairAt(race, 0, 0) == Pair(0, 0, [costs[0], others[0]], [0, 0]);
    assert PairAt(race, 0, 1) == Pair(0, 1, [costs[1], others[1]], [1, 1]);
    assert Pairs(race, 0, 0) == [];
    assert Pairs(race, 0, 1) == [PairAt(race, 0, 0)];
    assert Pairs(race, 0, 2) == [PairAt(race, 0, 0), PairAt(race, 0, 1)];
  }

  /** The rule can fire at the stopped solve's own last step, all of its iterations run: costs 1000 and
      900 against 100 and 10, noise 1, a threshold of 100, a run of one, one iteration a round. */
  lemma FiringCanSaveNothing() returns (race: Race, pairs: seq<Pair>)
    ensures race == LateRace() && IsRace(race) && pairs == Pairs(race, NRounds(race), 0) && ArePairs(race, pairs)
    ensures FirstFiring(race, LateRule(), pairs, Firing(1, 0, 1, 0, 890.0))
    ensures |pairs| == 2 && |pairs[1].ran| == 2 && pairs[1].ran[0] == Before(race, 0, |race[0]|)
  {
    LatePairs();
    race, pairs := LateRace(), Pairs(LateRace(), 1, 0);
    LateFiring(pairs);
  }

  lemma LatePairs()
    ensures var race := LateRace();
            && IsRace(race) && NRounds(race) == 1 && |race[0]| == 1 && Before(race, 0, 1) == 1
            && ArePairs(race, Pairs(race, 1, 0))
            && Pairs(race, 1, 0)
            == [Pair(0, 0, [1000.0, 100.0], [0, 0]), Pair(0, 1, [900.0, 10.0], [1, 1])]
  {
    OneRoundPairs([1000.0, 900.0], [100.0, 10.0]);
    AllPairs(LateRace());
  }

  lemma LateFiring(pairs: seq<Pair>)
    requires ArePairs(LateRace(), pairs)
    requires pairs == [Pair(0, 0, [1000.0, 100.0], [0, 0]), Pair(0, 1, [900.0, 10.0], [1, 1])]
    ensures FirstFiring(LateRace(), LateRule(), pairs, Firing(1, 0, 1, 0, 890.0))
  {
    LateVerdict();
    HoldingFires(LateRace(), LateRule(), pairs, 1);
  }

  function LateRace(): Race { OneRound([1000.0, 900.0], [100.0, 10.0]) }

  function LateRule(): Rule { Rule(1, 100.0, 1, true) }

  lemma LateRate()
    ensures IsRace(LateRace()) && NRounds(LateRace()) == 1
    ensures RateOf(LateRace(), Pair(0, 1, [900.0, 10.0], [1, 1])) == Rate(100.0)
  {
    OneRoundPairs([1000.0, 900.0], [100.0, 10.0]);
    assert LateRace()[0][0] == Round([1000.0, 900.0], 1.0);
    OneStepRate(1000.0, 900.0);
  }

  lemma LateVerdict()
    ensures IsRace(LateRace()) && NRounds(LateRace()) == 1
    ensures Judge(LateRace(), LateRule(), Pair(0, 1, [900.0, 10.0], [1, 1])) == Verdict(true, 0)
  {
    LateRate();
    assert LateRace()[0][0].costs == [1000.0, 900.0];
    assert Left(LateRace(), 1, Pair(0, 1, [900.0, 10.0], [1, 1])) == 0;
    NothingBeyond(890.0, 100.0);
  }

  lemma NothingBeyond(d: real, rate: real)
    requires d > 0.0
    ensures BeyondBudget(d, rate, 0)
  {
  }

  lemma OneStepRate(cost: real, next: real)
    ensures IterationRate([cost, next], 1, 1.0) == Rate(cost - next)
  {
    DropsTelescope([cost, next], 0, 1, 1.0);
  }

  /** A run of one fires at the first counted pair that holds. */
  lemma HoldingFires(race: Race, rule: Rule, pairs: seq<Pair>, p: nat)
    requires ArePairs(race, pairs) && p < |pairs| && pairs[p].i > 0 && rule.count == 1
    requires Judge(race, rule, pairs[p]).holds
    ensures Fires(race, rule, pairs, p)
  {
    VerdictsNext(race, rule, pairs, p);
  }

  // ----- a stricter rule never fires earlier -----

  /** A higher threshold, a longer run, or the budget test switched on. */
  ghost predicate Stricter(strict: Rule, loose: Rule) {
    && strict.maxIters == loose.maxIters
    && strict.threshold >= loose.threshold
    && strict.count >= loose.count
    && (loose.budget ==> strict.budget)
  }

  lemma StricterJudge(race: Race, strict: Rule, loose: Rule, pair: Pair)
    requires IsRace(race) && pair.round < NRounds(race) && |pair.costs| == 2 && Stricter(strict, loose)
    ensures Judge(race, strict, pair).trailing == Judge(race, loose, pair).trailing
    ensures Judge(race, strict, pair).holds ==> Judge(race, loose, pair).holds
  {
  }

  lemma {:induction false} StricterVerdicts(race: Race, strict: Rule, loose: Rule, pairs: seq<Pair>)
    requires ArePairs(race, pairs) && Stricter(strict, loose)
    ensures var tight, slack := Verdicts(race, strict, pairs), Verdicts(race, loose, pairs);
            && |tight| == |slack|
            && forall m :: 0 <= m < |tight| ==>
                 tight[m].trailing == slack[m].trailing && (tight[m].holds ==> slack[m].holds)
  {
    if |pairs| > 0 {
      StricterVerdicts(race, strict, loose, pairs[..|pairs| - 1]);
      StricterJudge(race, strict, loose, pairs[|pairs| - 1]);
    }
  }

  lemma StricterFires(race: Race, strict: Rule, loose: Rule, pairs: seq<Pair>, p: nat)
    requires ArePairs(race, pairs) && Stricter(strict, loose) && Fires(race, strict, pairs, p)
    ensures Fires(race, loose, pairs, p)
  {
    StricterVerdicts(race, strict, loose, pairs[..p + 1]);
  }

  /** Raising the threshold or the count, or switching the budget test on, never moves the firing
      pair earlier. */
  lemma StricterNeverEarlier(race: Race, strict: Rule, loose: Rule, pairs: seq<Pair>, late: Firing, early: Firing)
    requires ArePairs(race, pairs) && Stricter(strict, loose)
    requires FirstFiring(race, strict, pairs, late) && FirstFiring(race, loose, pairs, early)
    ensures late.Firing? ==> early.Firing? && early.pair <= late.pair
  {
    if late.Firing? {
      StricterFires(race, strict, loose, pairs, late.pair);
    }
  }

  // ----- the rule per round -----

  function EndCost(race: Race, s: nat, r: nat): real
    requires IsRace(race) && s < 2 && r < NRounds(race)
  {
    race[s][r].costs[|race[s][r].costs| - 1] / Sigma2(race, r)
  }

  /** What a solve removed over rounds `lo..hi`, each in its own units. */
  function RoundDrops(race: Race, s: nat, lo: nat, hi: nat): real
    requires IsRace(race) && s < 2 && lo <= hi <= NRounds(race)
    decreases hi
  {
    if lo == hi then 0.0
    else
      var costs := race[s][hi - 1].costs;
      RoundDrops(race, s, lo, hi - 1) + (costs[0] - costs[|costs| - 1]) / Sigma2(race, hi - 1)
  }

  function JudgeRound(race: Race, rule: Rule, r: nat): Verdict
    requires IsRace(race) && r < NRounds(race)
  {
    var a, b := EndCost(race, 0, r), EndCost(race, 1, r);
    var trailing := if a > b then 0 else 1;
    var window := Least(RATE_WINDOW, r + 1);
    var rate := RoundDrops(race, trailing, r + 1 - window, r + 1) / window as real;
    Verdict(Gap(a, b) > rule.threshold && (!rule.budget || BeyondBudget(Gap(a, b), rate, NRounds(race) - 1 - r)),
        trailing)
  }

  /** What the rule decides on a round: the same of the rounds' last costs, the rate being the mean drop over
      the last three rounds, or those there are, each in its own units, against the rounds left. */
  lemma JudgeRoundSays(race: Race, rule: Rule, r: nat)
    requires IsRace(race) && r < NRounds(race)
    ensures var v, x, y := JudgeRound(race, rule, r), EndCost(race, 0, r), EndCost(race, 1, r);
            var gap, s := if x > y then x - y else y - x, if x > y then 0 else 1;
            var drops := DropAt(race, s, r) + (if r > 0 then DropAt(race, s, r - 1) else 0.0)
                         + (if r > 1 then DropAt(race, s, r - 2) else 0.0);
            var rate := drops / (if r < 2 then r + 1 else 3) as real;
            && v.trailing == s
            && (v.holds <==>
                  gap > rule.threshold && (rule.budget ==> BeyondBudget(gap, rate, NRounds(race) - 1 - r)))
  {
    ThreeDrops(race, if EndCost(race, 0, r) > EndCost(race, 1, r) then 0 else 1, r);
  }

  /** A round's end is its solve's last cost in the round's units. */
  lemma EndSays(race: Race, s: nat, r: nat)
    requires IsRace(race) && s < 2 && r < NRounds(race)
    ensures var costs := race[s][r].costs; EndCost(race, s, r) == costs[|costs| - 1] / Sigma2(race, r)
  {
  }

  /** What a solve's cost fell by over a round, in the round's units. */
  function DropAt(race: Race, s: nat, r: nat): (drop: real)
    requires IsRace(race) && s < 2 && r < NRounds(race)
    ensures drop * Sigma2(race, r) == race[s][r].costs[0] - race[s][r].costs[|race[s][r].costs| - 1]
  {
    (race[s][r].costs[0] - race[s][r].costs[|race[s][r].costs| - 1]) / Sigma2(race, r)
  }

  lemma ThreeDrops(race: Race, s: nat, r: nat)
    requires IsRace(race) && s < 2 && r < NRounds(race)
    ensures var window := Least(RATE_WINDOW, r + 1);
            && window == (if r < 2 then r + 1 else 3)
            && RoundDrops(race, s, r + 1 - window, r + 1)
            == DropAt(race, s, r) + (if r > 0 then DropAt(race, s, r - 1) else 0.0)
               + (if r > 1 then DropAt(race, s, r - 2) else 0.0)
  {
    var window := Least(RATE_WINDOW, r + 1);
    assert RoundDrops(race, s, r + 1 - window, r + 1) == RoundDrops(race, s, r + 1 - window, r) + DropAt(race, s, r);
    if r > 0 {
      assert RoundDrops(race, s, r + 1 - window, r)
          == RoundDrops(race, s, r + 1 - window, r - 1) + DropAt(race, s, r - 1);
    }
    if r > 1 {
      assert RoundDrops(race, s, r - 2, r - 1) == RoundDrops(race, s, r - 2, r - 2) + DropAt(race, s, r - 2);
    }
  }

  ghost function RoundVerdicts(race: Race, rule: Rule, n: nat): (v: seq<Verdict>)
    requires IsRace(race) && n <= NRounds(race)
    ensures |v| == n
  {
    seq(n, r requires 0 <= r < n => JudgeRound(race, rule, r))
  }

  lemma RoundVerdictsNext(race: Race, rule: Rule, r: nat)
    requires IsRace(race) && r < NRounds(race)
    ensures RoundVerdicts(race, rule, r + 1) == RoundVerdicts(race, rule, r) + [JudgeRound(race, rule, r)]
  {
  }

  ghost predicate RoundFires(race: Race, rule: Rule, r: nat)
    requires IsRace(race)
  {
    r < NRounds(race) && LastHold(RoundVerdicts(race, rule, r + 1), rule.count)
  }

  datatype RoundFiring = NoRound | AtRound(round: nat, stopped: nat, gap: real)

  ghost predicate FirstRound(race: Race, rule: Rule, out: RoundFiring)
    requires IsRace(race)
  {
    if out.NoRound? then forall r :: 0 <= r < NRounds(race) ==> !RoundFires(race, rule, r)
    else
      && RoundFires(race, rule, out.round)
      && (forall r :: 0 <= r < out.round ==> !RoundFires(race, rule, r))
      && out.stopped == JudgeRound(race, rule, out.round).trailing
      && out.gap == Gap(EndCost(race, 0, out.round), EndCost(race, 1, out.round))
  }

  lemma StricterRoundFires(race: Race, strict: Rule, loose: Rule, r: nat)
    requires IsRace(race) && Stricter(strict, loose) && RoundFires(race, strict, r)
    ensures RoundFires(race, loose, r)
  {
    var s, l := RoundVerdicts(race, strict, r + 1), RoundVerdicts(race, loose, r + 1);
    forall m | r + 1 - loose.count <= m <= r ensures l[m].holds && l[m].trailing == l[r].trailing {
      assert s[m].holds && s[m].trailing == s[r].trailing;
    }
  }

  /** Nor is the firing round ever earlier under a stricter rule. */
  lemma StricterRoundNeverEarlier(race: Race, strict: Rule, loose: Rule, late: RoundFiring, early: RoundFiring)
    requires IsRace(race) && Stricter(strict, loose)
    requires FirstRound(race, strict, late) && FirstRound(race, loose, early)
    ensures late.AtRound? ==> early.AtRound? && early.round <= late.round
  {
    if late.AtRound? {
      StricterRoundFires(race, strict, loose, late.round);
    }
  }

  lemma RoundFiresIsRun(race: Race, rule: Rule, r: nat)
    requires IsRace(race) && r < NRounds(race)
    ensures RoundFires(race, rule, r)
       <==> Run(RoundVerdicts(race, rule, r) + [JudgeRound(race, rule, r)]) >= rule.count
  {
    RoundVerdictsNext(race, rule, r);
    if rule.count > 0 {
      RunCounts(RoundVerdicts(race, rule, r + 1), rule.count);
    }
  }

  /** The rule read at round ends: the same counter, one decision per round. */
  method EvaluateRound(race: Race, rule: Rule) returns (out: RoundFiring)
    requires IsRace(race)
    ensures FirstRound(race, rule, out)
  {
    var run, trailingBefore := 0, 2;
    for r := 0 to NRounds(race)
      invariant run == Run(RoundVerdicts(race, rule, r))
      invariant trailingBefore == TrailingBefore(RoundVerdicts(race, rule, r))
      invariant forall q :: 0 <= q < r ==> !RoundFires(race, rule, q)
    {
      var v, d;
      run, trailingBefore, v, d := CountRound(race, rule, r, run, trailingBefore);
      if run >= rule.count {
        return AtRound(r, v.trailing, d);
      }
    }
    out := NoRound;
  }

  /** One round's decision judged and counted. */
  method CountRound(race: Race, rule: Rule, r: nat, run: nat, before: nat)
    returns (now: nat, trailing: nat, v: Verdict, d: real)
    requires IsRace(race) && r < NRounds(race)
    requires run == Run(RoundVerdicts(race, rule, r)) && before == TrailingBefore(RoundVerdicts(race, rule, r))
    ensures now == Run(RoundVerdicts(race, rule, r + 1))
    ensures trailing == TrailingBefore(RoundVerdicts(race, rule, r + 1))
    ensures now >= rule.count <==> RoundFires(race, rule, r)
    ensures v == JudgeRound(race, rule, r) && d == Gap(EndCost(race, 0, r), EndCost(race, 1, r))
  {
    v, d := JudgeOneRound(race, rule, r);
    RoundFiresIsRun(race, rule, r);
    RoundVerdictsNext(race, rule, r);
    now, trailing := Count(RoundVerdicts(race, rule, r), v, run, before);
  }

  method JudgeOneRound(race: Race, rule: Rule, r: nat) returns (v: Verdict, d: real)
    requires IsRace(race) && r < NRounds(race)
    ensures v == JudgeRound(race, rule, r) && v.trailing < 2
    ensures d == Gap(EndCost(race, 0, r), EndCost(race, 1, r))
  {
    var a, b := EndCost(race, 0, r), EndCost(race, 1, r);
    var trailing := if a > b then 0 else 1;
    d := Gap(a, b);
    var window := Least(RATE_WINDOW, r + 1);
    var rate := RoundDrops(race, trailing, r + 1 - window, r + 1) / window as real;
    v := Verdict(d > rule.threshold && (!rule.budget || BeyondBudget(d, rate, NRounds(race) - 1 - r)), trailing);
  }
}
