/** Greedy packing of descriptors by the leaves of several trees, visited round-robin
    (scripts/kdf_descriptor_orderings.py:112-147). */
module LeafPacking {
  import opened Arrays

  type Leaf = seq<nat>

  ghost predicate IsLeaf(leaf: Leaf, n: nat) {
    InBounds(leaf, n) && NoRepeats(leaf)
  }

  ghost predicate IsForest(trees: seq<seq<Leaf>>, n: nat) {
    |trees| > 0 && forall t, i :: 0 <= t < |trees| && 0 <= i < |trees[t]| ==> IsLeaf(trees[t][i], n)
  }

  // ----- the round-robin visit -----

  /** The leaves visited in the first `rounds` rounds and in the next round by the first `t` trees. */
  function Visits(trees: seq<seq<Leaf>>, rounds: nat, t: nat): seq<Leaf>
    requires t <= |trees|
    decreases rounds, t
  {
    if t > 0 then Visits(trees, rounds, t - 1) + (if rounds < |trees[t - 1]| then [trees[t - 1][rounds]] else [])
    else if rounds > 0 then Visits(trees, rounds - 1, |trees|)
    else []
  }

  /** Enough rounds for the tree with the most leaves. */
  function Rounds(trees: seq<seq<Leaf>>): (r: nat)
    ensures forall t :: 0 <= t < |trees| ==> |trees[t]| <= r
  {
    if |trees| == 0 then 0 else Max(Rounds(trees[..|trees| - 1]), |trees[|trees| - 1]|)
  }

  /** Every leaf of every tree is visited. */
  lemma {:induction false} EveryLeafVisited(trees: seq<seq<Leaf>>, rounds: nat, t: nat, u: nat, i: nat)
    requires t <= |trees| && u < |trees| && i < |trees[u]|
    requires i < rounds || (i == rounds && u < t)
    ensures trees[u][i] in Visits(trees, rounds, t)
    decreases rounds, t
  {
    if t > 0 {
      if i == rounds && u == t - 1 {
      } else {
        EveryLeafVisited(trees, rounds, t - 1, u, i);
      }
    } else {
      EveryLeafVisited(trees, rounds - 1, |trees|, u, i);
    }
  }

  /** Tree `u`'s leaf `i` is visited once the rounds before, and the trees before in its round, are. */
  lemma {:induction false} VisitAt(trees: seq<seq<Leaf>>, rounds: nat, t: nat, u: nat, i: nat)
    requires t <= |trees| && u < |trees| && i < |trees[u]|
    requires i < rounds || (i == rounds && u < t)
    ensures var before := Visits(trees, i, u);
            |before| < |Visits(trees, rounds, t)| && Visits(trees, rounds, t)[|before|] == trees[u][i]
    decreases rounds, t
  {
    if t > 0 {
      if i == rounds && u == t - 1 {
      } else {
        VisitAt(trees, rounds, t - 1, u, i);
      }
    } else {
      VisitAt(trees, rounds - 1, |trees|, u, i);
    }
  }

  /** Earlier rounds come first, and within a round earlier trees. */
  lemma {:induction false} VisitsInOrder(trees: seq<seq<Leaf>>, t: nat, i: nat, u: nat, j: nat)
    requires t < |trees| && u < |trees| && i < |trees[t]|
    requires i < j || (i == j && t < u)
    ensures |Visits(trees, i, t)| < |Visits(trees, j, u)|
  {
    VisitAt(trees, j, u, t, i);
  }

  /** How many of a tree's leaves are visited by then. */
  function VisitedOf(trees: seq<seq<Leaf>>, rounds: nat, t: nat, u: nat): nat
    requires u < |trees|
  {
    var due := if u < t then rounds + 1 else rounds;
    if due < |trees[u]| then due else |trees[u]|
  }

  function VisitedFrom(trees: seq<seq<Leaf>>, rounds: nat, t: nat, k: nat): nat
    requires k <= |trees|
  {
    if k == 0 then 0 else VisitedFrom(trees, rounds, t, k - 1) + VisitedOf(trees, rounds, t, k - 1)
  }

  lemma {:induction false} OneMoreTree(trees: seq<seq<Leaf>>, rounds: nat, t: nat, k: nat)
    requires t < |trees| && k <= |trees|
    ensures VisitedFrom(trees, rounds, t + 1, k)
         == VisitedFrom(trees, rounds, t, k) + (if t < k && rounds < |trees[t]| then 1 else 0)
    decreases k
  {
    if k > 0 {
      OneMoreTree(trees, rounds, t, k - 1);
    }
  }

  lemma {:induction false} WholeRound(trees: seq<seq<Leaf>>, rounds: nat, k: nat)
    requires k <= |trees|
    ensures VisitedFrom(trees, rounds, |trees|, k) == VisitedFrom(trees, rounds + 1, 0, k)
    decreases k
  {
    if k > 0 {
      WholeRound(trees, rounds, k - 1);
    }
  }

  lemma {:induction false} NoneVisited(trees: seq<seq<Leaf>>, k: nat)
    requires k <= |trees|
    ensures VisitedFrom(trees, 0, 0, k) == 0
    decreases k
  {
    if k > 0 {
      NoneVisited(trees, k - 1);
    }
  }

  lemma {:induction false} VisitCount(trees: seq<seq<Leaf>>, rounds: nat, t: nat)
    requires t <= |trees|
    ensures |Visits(trees, rounds, t)| == VisitedFrom(trees, rounds, t, |trees|)
    decreases rounds, t
  {
    if t > 0 {
      VisitCount(trees, rounds, t - 1);
      OneMoreTree(trees, rounds, t - 1, |trees|);
    } else if rounds > 0 {
      VisitCount(trees, rounds - 1, |trees|);
      WholeRound(trees, rounds - 1, |trees|);
    } else {
      NoneVisited(trees, |trees|);
    }
  }

  lemma {:induction false} AllVisited(trees: seq<seq<Leaf>>, rounds: nat, k: nat)
    requires k <= |trees| && forall u :: 0 <= u < |trees| ==> |trees[u]| <= rounds
    ensures VisitedFrom(trees, rounds, 0, k) == |Flatten(trees[..k])|
    decreases k
  {
    if k > 0 {
      AllVisited(trees, rounds, k - 1);
      assert trees[..k][..k - 1] == trees[..k - 1];
    }
  }

  lemma {:induction false} VisitsAreLeaves(trees: seq<seq<Leaf>>, n: nat, rounds: nat, t: nat)
    requires IsForest(trees, n) && t <= |trees|
    ensures forall v :: 0 <= v < |Visits(trees, rounds, t)| ==> IsLeaf(Visits(trees, rounds, t)[v], n)
    decreases rounds, t
  {
    if t > 0 {
      VisitsAreLeaves(trees, n, rounds, t - 1);
      assert rounds < |trees[t - 1]| ==> IsLeaf(trees[t - 1][rounds], n);
    } else if rounds > 0 {
      VisitsAreLeaves(trees, n, rounds - 1, |trees|);
    }
  }

  // ----- what the visits place -----

  function NotIn(placed: seq<nat>): nat -> bool {
    (x: nat) => x !in placed
  }

  /** A leaf's members not placed yet, in the leaf's order. */
  function Fresh(placed: seq<nat>, leaf: Leaf): seq<nat> {
    Filter(NotIn(placed), leaf)
  }

  /** What is placed after some visits: each leaf adds its fresh members as one block. */
  function Packed(visits: seq<Leaf>): seq<nat> {
    if |visits| == 0 then []
    else
      var before := Packed(visits[..|visits| - 1]);
      before + Fresh(before, visits[|visits| - 1])
  }

  lemma {:induction false} PackedOneMore(visits: seq<Leaf>, leaf: Leaf)
    ensures Packed(visits + [leaf]) == Packed(visits) + Fresh(Packed(visits), leaf)
  {
    assert (visits + [leaf])[..|visits|] == visits;
  }

  lemma FreshIsNew(placed: seq<nat>, leaf: Leaf, n: nat)
    requires IsLeaf(placed, n) && IsLeaf(leaf, n)
    ensures IsLeaf(placed + Fresh(placed, leaf), n)
    ensures forall x :: x in placed + Fresh(placed, leaf) <==> x in placed || x in leaf
  {
    var added := Fresh(placed, leaf);
    FilterMembers<nat>(NotIn(placed), leaf);
    FilterNoRepeats<nat>(NotIn(placed), leaf);
    forall i | 0 <= i < |added| ensures added[i] < n && added[i] !in placed {
      assert added[i] in added;
    }
  }

  /** Nothing is placed twice, and exactly what the visited leaves hold is placed. */
  lemma {:induction false} PackedIsUnion(visits: seq<Leaf>, n: nat)
    requires forall v :: 0 <= v < |visits| ==> IsLeaf(visits[v], n)
    ensures IsLeaf(Packed(visits), n)
    ensures forall x: nat :: x in Packed(visits) <==> Claimed(visits, x)
  {
    if |visits| > 0 {
      var front, last := visits[..|visits| - 1], visits[|visits| - 1];
      PackedIsUnion(front, n);
      FreshIsNew(Packed(front), last, n);
      forall x: nat ensures x in Packed(visits) <==> Claimed(visits, x) {
        ClaimedOneMore(visits, x);
      }
    }
  }

  ghost predicate Claimed(visits: seq<Leaf>, x: nat) {
    exists v :: 0 <= v < |visits| && x in visits[v]
  }

  lemma ClaimedOneMore(visits: seq<Leaf>, x: nat)
    requires |visits| > 0
    ensures Claimed(visits, x) <==> Claimed(visits[..|visits| - 1], x) || x in visits[|visits| - 1]
  {
    var front := visits[..|visits| - 1];
    if Claimed(front, x) {
      var v :| 0 <= v < |front| && x in front[v];
      assert x in visits[v];
    }
    if Claimed(visits, x) {
      var v :| 0 <= v < |visits| && x in visits[v];
      assert v < |front| ==> x in front[v];
    }
  }

  /** Distinct ids below `n` are at most `n`. */
  lemma {:induction false} DistinctAtMost(placed: seq<nat>, n: nat)
    requires IsLeaf(placed, n)
    ensures |placed| <= n
    ensures |placed| == n ==> IsPermutation(placed, n)
  {
    DistinctSet(placed);
    var all := Ids(n);
    assert Elements(placed) <= all by {
      forall x | x in placed ensures x < n {
        var i :| 0 <= i < |placed| && placed[i] == x;
      }
    }
    SubsetSize(Elements(placed), all);
    if |placed| == n {
      SameSize(Elements(placed), all);
      forall r | 0 <= r < n ensures r in placed {
        assert r in all;
      }
    }
  }

  ghost function Ids(n: nat): (ids: set<nat>)
    ensures forall x: nat :: x in ids <==> x < n
    ensures |ids| == n
  {
    if n == 0 then {} else Ids(n - 1) + {n - 1}
  }

  lemma SameSize(a: set<nat>, b: set<nat>)
    requires a <= b && |a| == |b|
    ensures a == b
  {
    SubsetSize(b - a, b);
    assert b == a + (b - a);
    assert |b| == |a| + |b - a|;
    assert b - a == {};
  }

  // ----- the whole order -----

  /** Everything no leaf claimed, ascending. */
  function Tail(placed: seq<nat>, n: nat): seq<nat> {
    Select(NotIn(placed), 0, n)
  }

  function AllVisits(trees: seq<seq<Leaf>>): seq<Leaf> {
    Visits(trees, Rounds(trees), 0)
  }

  /** There are as many visits as leaves: each leaf, at its own place, is visited once. */
  lemma {:induction false} VisitsAreAllLeaves(trees: seq<seq<Leaf>>)
    ensures |AllVisits(trees)| == |Flatten(trees)|
  {
    VisitCount(trees, Rounds(trees), 0);
    AllVisited(trees, Rounds(trees), |trees|);
    assert trees[..|trees|] == trees;
  }

  function GreedyOrder(trees: seq<seq<Leaf>>, n: nat): seq<nat> {
    Packed(AllVisits(trees)) + Tail(Packed(AllVisits(trees)), n)
  }

  lemma TailIsRest(placed: seq<nat>, n: nat)
    requires IsLeaf(placed, n)
    ensures Ascending(Tail(placed, n))
    ensures forall x: nat :: x in Tail(placed, n) <==> x < n && x !in placed
    ensures IsPermutation(placed + Tail(placed, n), n)
  {
    var tail := Tail(placed, n);
    SelectAscending(NotIn(placed), 0, n);
    forall x: nat ensures x in tail <==> x < n && x !in placed {
      if x in tail {
        var i :| 0 <= i < |tail| && tail[i] == x;
        assert NotIn(placed)(tail[i]);
      }
      if x < n && x !in placed {
        assert NotIn(placed)(x);
      }
    }
    var all := placed + tail;
    forall i, j | 0 <= i < j < |all| ensures all[i] != all[j] {
      assert j >= |placed| ==> all[j] == tail[j - |placed|] && all[j] in tail;
      assert i < |placed| ==> all[i] == placed[i] && all[i] in placed;
      assert i >= |placed| ==> all[i] == tail[i - |placed|] && tail[i - |placed|] < tail[j - |placed|];
    }
    DistinctAtMost(all, n);
    AllPlaced(all, n);
  }

  lemma AllPlaced(all: seq<nat>, n: nat)
    requires IsLeaf(all, n) && forall x: nat :: x < n ==> x in all
    ensures |all| == n && IsPermutation(all, n)
  {
    DistinctSet(all);
    SubsetSize(Ids(n), Elements(all));
    DistinctAtMost(all, n);
  }

  /** The order is a permutation: each leaf's fresh members in one block when it is visited, the
      unclaimed ids in the tail. */
  lemma GreedyIsPermutation(trees: seq<seq<Leaf>>, n: nat)
    requires IsForest(trees, n)
    ensures IsPermutation(GreedyOrder(trees, n), n)
    ensures forall t, i, x :: 0 <= t < |trees| && 0 <= i < |trees[t]| && x in trees[t][i] ==>
              x in Packed(AllVisits(trees))
  {
    var visits := AllVisits(trees);
    VisitsAreLeaves(trees, n, Rounds(trees), 0);
    PackedIsUnion(visits, n);
    TailIsRest(Packed(visits), n);
    forall t, i, x | 0 <= t < |trees| && 0 <= i < |trees[t]| && x in trees[t][i] ensures x in Packed(visits) {
      EveryLeafVisited(trees, Rounds(trees), 0, t, i);
      var v :| 0 <= v < |visits| && visits[v] == trees[t][i];
      assert Claimed(visits, x);
    }
  }

  lemma {:induction false} PackedOnlyGrows(visits: seq<Leaf>, k: nat)
    requires k <= |visits|
    ensures Packed(visits[..k]) <= Packed(visits)
    decreases |visits|
  {
    if k < |visits| {
      var front := visits[..|visits| - 1];
      assert front[..k] == visits[..k];
      PackedOnlyGrows(front, k);
    } else {
      assert visits[..k] == visits;
    }
  }

  /** In the final order, the members a leaf still had to place when it was visited sit side by side,
      in the leaf's order; all of them, when no earlier leaf had claimed any. */
  lemma FreshMembersAreTogether(trees: seq<seq<Leaf>>, n: nat, v: nat)
    requires v < |AllVisits(trees)|
    ensures var before := Packed(AllVisits(trees)[..v]);
            var block := Fresh(before, AllVisits(trees)[v]);
            && |before| + |block| <= |GreedyOrder(trees, n)|
            && GreedyOrder(trees, n)[|before|..|before| + |block|] == block
            && ((forall x :: x in AllVisits(trees)[v] ==> x !in before) ==> block == AllVisits(trees)[v])
  {
    var visits := AllVisits(trees);
    assert visits[..v + 1] == visits[..v] + [visits[v]];
    PackedOneMore(visits[..v], visits[v]);
    PackedOnlyGrows(visits, v + 1);
    BlockOfPrefix(Packed(visits[..v]), Fresh(Packed(visits[..v]), visits[v]), GreedyOrder(trees, n));
    if forall x :: x in visits[v] ==> x !in Packed(visits[..v]) {
      AllAreFresh(Packed(visits[..v]), visits[v]);
    }
  }

  lemma BlockOfPrefix(before: seq<nat>, block: seq<nat>, whole: seq<nat>)
    requires before + block <= whole
    ensures whole[|before|..|before| + |block|] == block
  {
  }

  lemma AllAreFresh(placed: seq<nat>, leaf: Leaf)
    requires forall x :: x in leaf ==> x !in placed
    ensures Fresh(placed, leaf) == leaf
  {
    forall i | 0 <= i < |leaf| ensures NotIn(placed)(leaf[i]) {
      assert leaf[i] in leaf;
    }
    FilterAll(NotIn(placed), leaf);
  }

  lemma {:induction false} FilterAll(keep: nat -> bool, xs: seq<nat>)
    requires forall i :: 0 <= i < |xs| ==> keep(xs[i])
    ensures Filter(keep, xs) == xs
  {
    if |xs| > 0 {
      FilterAll(keep, xs[1..]);
    }
  }

  // ----- the method -----

  /** `out` filled up to `at` with what `placed` marks. */
  ghost predicate Holds(placed: array<bool>, out: array<nat>, at: nat, packed: seq<nat>)
    reads placed, out
  {
    && placed.Length == out.Length && at <= out.Length
    && out[..at] == packed
    && (forall x :: 0 <= x < placed.Length ==> (placed[x] <==> x in packed))
  }

  /** `out[at : at + len(values)] = values`. */
  method Write(out: array<nat>, at: nat, values: seq<nat>)
    requires at + |values| <= out.Length
    modifies out
    ensures out[..at + |values|] == old(out[..at]) + values
  {
    for k := 0 to |values|
      invariant out[..at + k] == old(out[..at]) + values[..k]
    {
      out[at + k] := values[k];
    }
    assert values[..|values|] == values;
  }

  /** `placed[leaf] = True`. */
  method Mark(placed: array<bool>, leaf: Leaf)
    requires InBounds(leaf, placed.Length)
    modifies placed
    ensures forall x :: 0 <= x < placed.Length ==> (placed[x] <==> old(placed[x]) || x in leaf)
  {
    for k := 0 to |leaf|
      invariant forall x :: 0 <= x < placed.Length ==> (placed[x] <==> old(placed[x]) || x in leaf[..k])
    {
      assert leaf[..k + 1] == leaf[..k] + [leaf[k]];
      placed[leaf[k]] := true;
    }
    assert leaf[..|leaf|] == leaf;
  }

  function Unmarked(marks: seq<bool>): nat -> bool {
    (x: nat) => x < |marks| && !marks[x]
  }

  lemma {:induction false} UnmarkedAreFresh(marks: seq<bool>, packed: seq<nat>, leaf: Leaf)
    requires InBounds(leaf, |marks|) && forall x :: 0 <= x < |marks| ==> (marks[x] <==> x in packed)
    ensures Filter(Unmarked(marks), leaf) == Fresh(packed, leaf)
  {
    FilterSame(Unmarked(marks), NotIn(packed), leaf);
  }

  method Visit(placed: array<bool>, out: array<nat>, at: nat, leaf: Leaf, ghost packed: seq<nat>) returns (next: nat)
    requires Holds(placed, out, at, packed) && IsLeaf(packed, out.Length) && IsLeaf(leaf, out.Length)
    modifies placed, out
    ensures Holds(placed, out, next, packed + Fresh(packed, leaf))
  {
    FreshIsNew(packed, leaf, out.Length);
    DistinctAtMost(packed + Fresh(packed, leaf), out.Length);
    UnmarkedAreFresh(placed[..], packed, leaf);
    var unplaced := Filter(Unmarked(placed[..]), leaf);
    next := at;
    if |unplaced| > 0 {
      Write(out, at, unplaced);
      Mark(placed, leaf);
      next := at + |unplaced|;
    } else {
      assert packed + Fresh(packed, leaf) == packed;
    }
  }

  lemma {:induction false} FilterSame(f: nat -> bool, g: nat -> bool, xs: seq<nat>)
    requires forall i :: 0 <= i < |xs| ==> f(xs[i]) == g(xs[i])
    ensures Filter(f, xs) == Filter(g, xs)
  {
    if |xs| > 0 {
      FilterSame(f, g, xs[1..]);
    }
  }

  /** What tree `t` adds in round `i`: nothing if it has no such leaf. */
  lemma VisitNext(trees: seq<seq<Leaf>>, n: nat, i: nat, t: nat)
    requires IsForest(trees, n) && t < |trees|
    ensures var packed := Packed(Visits(trees, i, t));
            && IsLeaf(packed, n)
            && Packed(Visits(trees, i, t + 1)) == if i < |trees[t]| then packed + Fresh(packed, trees[t][i]) else packed
  {
    VisitsAreLeaves(trees, n, i, t);
    PackedIsUnion(Visits(trees, i, t), n);
    if i < |trees[t]| {
      PackedOneMore(Visits(trees, i, t), trees[t][i]);
    } else {
      assert Visits(trees, i, t + 1) == Visits(trees, i, t);
    }
  }

  /** The leaves visited round-robin, a tree that has run out passed over. */
  method PlaceLeaves(trees: seq<seq<Leaf>>, placed: array<bool>, out: array<nat>) returns (at: nat)
    requires IsForest(trees, out.Length) && Holds(placed, out, 0, [])
    modifies placed, out
    ensures Holds(placed, out, at, Packed(AllVisits(trees)))
  {
    at := 0;
    var rounds := Rounds(trees);
    for i := 0 to rounds
      invariant Holds(placed, out, at, Packed(Visits(trees, i, 0)))
    {
      for t := 0 to |trees|
        invariant Holds(placed, out, at, Packed(Visits(trees, i, t)))
      {
        VisitNext(trees, out.Length, i, t);
        if i >= |trees[t]| {
          continue;
        }
        at := Visit(placed, out, at, trees[t][i], Packed(Visits(trees, i, t)));
      }
    }
  }

  /** `out[at:] = flatnonzero(~placed)`, unless nothing is left. */
  method PlaceRest(placed: array<bool>, out: array<nat>, at: nat, ghost packed: seq<nat>)
    requires Holds(placed, out, at, packed) && IsLeaf(packed, out.Length)
    modifies out
    ensures out[..] == packed + Tail(packed, out.Length)
  {
    var n := out.Length;
    TailIsRest(packed, n);
    if at != n {
      var rest := Select(Unmarked(placed[..]), 0, n);
      SelectSame(Unmarked(placed[..]), NotIn(packed), 0, n);
      Write(out, at, rest);
    }
    assert out[..n] == out[..];
  }

  method OrderGreedy(trees: seq<seq<Leaf>>, n: nat) returns (out: array<nat>)
    requires IsForest(trees, n)
    ensures fresh(out) && out[..] == GreedyOrder(trees, n)
  {
    var placed := new bool[n](_ => false);
    out := new nat[n](_ => 0);
    var at := PlaceLeaves(trees, placed, out);
    VisitsAreLeaves(trees, n, Rounds(trees), 0);
    PackedIsUnion(AllVisits(trees), n);
    PlaceRest(placed, out, at, Packed(AllVisits(trees)));
  }
}
