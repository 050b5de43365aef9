/** The search for a leaf-check budget that reaches a recall target (scripts/kdf_leaf_size.py:65-86).
    The recall measured at a budget is an arbitrary function of the budget. */
module BudgetSearch {

  type Recall = nat -> real

  datatype Outcome = Found(budget: nat, recall: real) | Missed(recall: real)

  /** The script's ladder of budgets. */
  const BUDGETS: seq<nat> := [16, 32, 64, 128, 256, 512, 1024, 2048, 4096, 8192]

  predicate IsLadder(budgets: seq<nat>) {
    |budgets| > 0 && forall i, j :: 0 <= i < j < |budgets| ==> budgets[i] < budgets[j]
  }

  predicate Meets(recall: Recall, target: real, budget: nat) {
    recall(budget) >= target
  }

  function Bisect(recall: Recall, target: real, lower: nat, upper: nat): (r: nat)
    requires lower <= upper
    ensures lower <= r <= upper
    decreases upper - lower
  {
    if lower == upper then lower
    else
      var candidate := (lower + upper) / 2;
      if Meets(recall, target, candidate) then Bisect(recall, target, lower, candidate)
      else Bisect(recall, target, candidate + 1, upper)
  }

  /** The climb up the ladder from rung `i`, everything tried below `lower` being out. */
  function Climb(recall: Recall, target: real, budgets: seq<nat>, i: nat, lower: nat): Outcome
    requires i < |budgets| && IsLadder(budgets) && lower <= budgets[i]
    decreases |budgets| - i
  {
    if Meets(recall, target, budgets[i]) then
      var budget := Bisect(recall, target, lower, budgets[i]);
      Found(budget, recall(budget))
    else if i + 1 == |budgets| then Missed(recall(budgets[i]))
    else Climb(recall, target, budgets, i + 1, budgets[i] + 1)
  }

  /** A budget where the target is first reached from below. */
  ghost predicate Crossing(recall: Recall, target: real, budget: nat) {
    Meets(recall, target, budget) && (budget > 0 ==> !Meets(recall, target, budget - 1))
  }

  lemma {:induction false} BisectFindsCrossing(recall: Recall, target: real, lower: nat, upper: nat)
    requires lower <= upper && Meets(recall, target, upper)
    requires lower > 0 ==> !Meets(recall, target, lower - 1)
    ensures Crossing(recall, target, Bisect(recall, target, lower, upper))
    decreases upper - lower
  {
    if lower < upper {
      var candidate := (lower + upper) / 2;
      if Meets(recall, target, candidate) {
        BisectFindsCrossing(recall, target, lower, candidate);
      } else {
        BisectFindsCrossing(recall, target, candidate + 1, upper);
      }
    }
  }

  lemma {:induction false} ClimbFindsCrossing(recall: Recall, target: real, budgets: seq<nat>, i: nat, lower: nat)
    requires i < |budgets| && IsLadder(budgets) && lower <= budgets[i]
    requires lower > 0 ==> !Meets(recall, target, lower - 1)
    ensures var out := Climb(recall, target, budgets, i, lower);
            && (out.Found? ==> Crossing(recall, target, out.budget) && out.recall == recall(out.budget)
                               && lower <= out.budget <= budgets[|budgets| - 1])
            && (out.Missed? <==> forall j :: i <= j < |budgets| ==> !Meets(recall, target, budgets[j]))
            && (out.Missed? ==> out.recall == recall(budgets[|budgets| - 1]))
    decreases |budgets| - i
  {
    if Meets(recall, target, budgets[i]) {
      BisectFindsCrossing(recall, target, lower, budgets[i]);
    } else if i + 1 < |budgets| {
      ClimbFindsCrossing(recall, target, budgets, i + 1, budgets[i] + 1);
    }
  }

  /** The search comes back empty exactly when every listed budget falls short; what it returns
      meets the target at its own recall, and the budget one below does not. */
  lemma {:induction false} SearchIsSound(recall: Recall, target: real, budgets: seq<nat>)
    requires IsLadder(budgets)
    ensures var out := Climb(recall, target, budgets, 0, 0);
            && (out.Found? ==> Crossing(recall, target, out.budget) && out.recall == recall(out.budget) >= target
                               && out.budget <= budgets[|budgets| - 1])
            && (out.Missed? <==> forall j :: 0 <= j < |budgets| ==> recall(budgets[j]) < target)
            && (out.Missed? ==> out.recall == recall(budgets[|budgets| - 1]))
  {
    ClimbFindsCrossing(recall, target, budgets, 0, 0);
  }

  /** The bisection reads the middle of what is left and keeps the half the reading points to. */
  lemma BisectHalves(recall: Recall, target: real, lower: nat, upper: nat)
    requires lower < upper
    ensures var mid := (lower + upper) / 2;
            && (recall(mid) >= target ==> Bisect(recall, target, lower, upper) == Bisect(recall, target, lower, mid))
            && (recall(mid) < target ==> Bisect(recall, target, lower, upper) == Bisect(recall, target, mid + 1, upper))
  {
  }

  lemma {:induction false} ClimbReaches(recall: Recall, target: real, budgets: seq<nat>, i: nat, rung: nat)
    requires IsLadder(budgets) && i <= rung < |budgets| && recall(budgets[rung]) >= target
    requires forall j :: i <= j < rung ==> recall(budgets[j]) < target
    ensures var budget := Bisect(recall, target, if rung > 0 then budgets[rung - 1] + 1 else 0, budgets[rung]);
            Climb(recall, target, budgets, i, if i > 0 then budgets[i - 1] + 1 else 0) == Found(budget, recall(budget))
    decreases rung - i
  {
    if i < rung {
      ClimbReaches(recall, target, budgets, i + 1, rung);
    }
  }

  /** What comes back is bisected, with its own recall, between the first rung that meets the target and
      the rung before it. */
  lemma {:induction false} FirstRungIsBisected(recall: Recall, target: real, budgets: seq<nat>, rung: nat)
    requires IsLadder(budgets) && rung < |budgets| && recall(budgets[rung]) >= target
    requires forall j :: 0 <= j < rung ==> recall(budgets[j]) < target
    ensures var budget := Bisect(recall, target, if rung > 0 then budgets[rung - 1] + 1 else 0, budgets[rung]);
            Climb(recall, target, budgets, 0, 0) == Found(budget, recall(budget))
  {
    ClimbReaches(recall, target, budgets, 0, rung);
  }

  /** The script's ladder doubles from 16 to 8192. */
  lemma LadderDoubles()
    ensures IsLadder(BUDGETS) && BUDGETS[0] == 16 && BUDGETS[|BUDGETS| - 1] == 8192
    ensures forall i :: 0 < i < |BUDGETS| ==> BUDGETS[i] == 2 * BUDGETS[i - 1]
  {
  }

  // ----- when the budget found is the least -----

  /** The least budget that meets the target, listed or not. */
  ghost predicate IsLeast(recall: Recall, target: real, least: nat) {
    Meets(recall, target, least) && forall b: nat :: b < least ==> !Meets(recall, target, b)
  }

  /** The bisection down to `least` reads only its candidates at or above `least`; all of them meet. */
  predicate ProbesMeet(recall: Recall, target: real, least: nat, lower: nat, upper: nat)
    requires lower <= upper
    decreases upper - lower
  {
    if lower == upper then true
    else
      var candidate := (lower + upper) / 2;
      if least <= candidate then Meets(recall, target, candidate) && ProbesMeet(recall, target, least, lower, candidate)
      else ProbesMeet(recall, target, least, candidate + 1, upper)
  }

  /** From rung `i` on: there is a rung at or above `least`, the first such meets the target, and so
      does every candidate at or above `least` on the way down from it. */
  predicate RungsMeet(recall: Recall, target: real, budgets: seq<nat>, least: nat, i: nat, lower: nat)
    requires i < |budgets| && IsLadder(budgets) && lower <= budgets[i]
    decreases |budgets| - i
  {
    if budgets[i] < least then
      i + 1 < |budgets| && RungsMeet(recall, target, budgets, least, i + 1, budgets[i] + 1)
    else
      Meets(recall, target, budgets[i]) && ProbesMeet(recall, target, least, lower, budgets[i])
  }

  lemma {:induction false} BisectFindsLeast(recall: Recall, target: real, least: nat, lower: nat, upper: nat)
    requires IsLeast(recall, target, least) && lower <= least <= upper
    ensures Bisect(recall, target, lower, upper) == least <==> ProbesMeet(recall, target, least, lower, upper)
    decreases upper - lower
  {
    if lower < upper {
      var candidate := (lower + upper) / 2;
      if least > candidate {
        BisectFindsLeast(recall, target, least, candidate + 1, upper);
      } else if Meets(recall, target, candidate) {
        BisectFindsLeast(recall, target, least, lower, candidate);
      }
    }
  }

  lemma {:induction false} ClimbFindsLeast(recall: Recall, target: real, budgets: seq<nat>, least: nat, i: nat,
                                           lower: nat)
    requires i < |budgets| && IsLadder(budgets) && lower <= budgets[i]
    requires IsLeast(recall, target, least) && lower <= least
    ensures var out := Climb(recall, target, budgets, i, lower);
            (out.Found? && out.budget == least) <==> RungsMeet(recall, target, budgets, least, i, lower)
    decreases |budgets| - i
  {
    if budgets[i] < least {
      if i + 1 < |budgets| {
        ClimbFindsLeast(recall, target, budgets, least, i + 1, budgets[i] + 1);
      }
    } else if Meets(recall, target, budgets[i]) {
      BisectFindsLeast(recall, target, least, lower, budgets[i]);
    } else if i + 1 < |budgets| {
      ClimbFindsCrossing(recall, target, budgets, i + 1, budgets[i] + 1);
    }
  }

  /** The least budget meeting the target is found exactly when the first rung at or above it meets
      the target and so does every candidate at or above it on the bisection from that rung: readings
      that this budget and the ladder alone pick out. Failing that a larger budget is returned, or
      none. */
  lemma {:induction false} LeastIsFoundExactly(recall: Recall, target: real, budgets: seq<nat>, least: nat)
    requires IsLadder(budgets) && IsLeast(recall, target, least)
    ensures var out := Climb(recall, target, budgets, 0, 0);
            && ((out.Found? && out.budget == least) <==> RungsMeet(recall, target, budgets, least, 0, 0))
            && (out.Found? ==> least <= out.budget)
  {
    ClimbFindsLeast(recall, target, budgets, least, 0, 0);
    SearchIsSound(recall, target, budgets);
  }

  /** Recall that, once at the target, stays there: in particular any monotone recall. */
  ghost predicate StaysUp(recall: Recall, target: real) {
    forall b: nat, c: nat :: b <= c && Meets(recall, target, b) ==> Meets(recall, target, c)
  }

  /** Under that condition what comes back is the least budget that meets the target, or word that
      none up to the last rung does. */
  lemma {:induction false} SearchFindsLeast(recall: Recall, target: real, budgets: seq<nat>)
    requires IsLadder(budgets) && StaysUp(recall, target)
    ensures var out := Climb(recall, target, budgets, 0, 0);
            if out.Found? then IsLeast(recall, target, out.budget)
            else forall b: nat :: b <= budgets[|budgets| - 1] ==> !Meets(recall, target, b)
  {
    SearchIsSound(recall, target, budgets);
    var out := Climb(recall, target, budgets, 0, 0);
    if out.Found? {
      forall b: nat | b < out.budget ensures !Meets(recall, target, b) {
        assert !Meets(recall, target, out.budget - 1);
      }
    } else {
      assert !Meets(recall, target, budgets[|budgets| - 1]);
    }
  }

  /** The smallest integer budget promised need not be found: with this recall a budget of 3 is the
      least that meets the target and 16 is returned, the first candidate at or above 3 falling short. */
  lemma SearchCanMissLeast()
    ensures IsLeast(Gapped, 1.0, 3) && Climb(Gapped, 1.0, BUDGETS, 0, 0) == Found(16, 1.0)
    ensures !RungsMeet(Gapped, 1.0, BUDGETS, 3, 0, 0)
  {
    FirstRungMisses(BUDGETS);
  }

  lemma {:induction false} FirstRungMisses(budgets: seq<nat>)
    requires IsLadder(budgets) && budgets[0] == 16
    ensures Climb(Gapped, 1.0, budgets, 0, 0) == Found(16, 1.0) && !RungsMeet(Gapped, 1.0, budgets, 3, 0, 0)
  {
    GappedBisects();
    assert !Meets(Gapped, 1.0, 8);
  }

  lemma GappedBisects()
    ensures Bisect(Gapped, 1.0, 0, 16) == 16
  {
    assert Bisect(Gapped, 1.0, 15, 16) == 16;
    assert Bisect(Gapped, 1.0, 0, 16) == Bisect(Gapped, 1.0, 9, 16) == Bisect(Gapped, 1.0, 13, 16);
  }

  function Gapped(b: nat): real { if b == 3 || b >= 16 then 1.0 else 0.0 }

  method BisectLoop(recall: Recall, target: real, from: nat, to: nat) returns (budget: nat)
    requires from <= to
    ensures budget == Bisect(recall, target, from, to)
  {
    var lower, upper := from, to;
    while lower < upper
      invariant lower <= upper && Bisect(recall, target, lower, upper) == Bisect(recall, target, from, to)
    {
      var candidate := (lower + upper) / 2;
      if recall(candidate) >= target {
        upper := candidate;
      } else {
        lower := candidate + 1;
      }
    }
    budget := lower;
  }

  method BudgetForRecall(recall: Recall, target: real, budgets: seq<nat>) returns (out: Outcome)
    requires IsLadder(budgets)
    ensures out == Climb(recall, target, budgets, 0, 0)
  {
    var lower := 0;
    for i := 0 to |budgets|
      invariant i < |budgets| ==> lower <= budgets[i]
      invariant i < |budgets| ==> Climb(recall, target, budgets, 0, 0) == Climb(recall, target, budgets, i, lower)
      invariant i == |budgets| ==> Climb(recall, target, budgets, 0, 0) == Missed(recall(budgets[i - 1]))
    {
      if recall(budgets[i]) >= target {
        lower := BisectLoop(recall, target, lower, budgets[i]);
        return Found(lower, recall(lower));
      }
      lower := budgets[i] + 1;
    }
    out := Missed(recall(budgets[|budgets| - 1]));
  }
}
