/** The array primitives the scripts take from numpy, written out as functions on sequences:
    ranges, gathers, prefix sums, `repeat`, `flatnonzero` and the stable sort behind
    `argsort(kind="stable")`, `lexsort` and `sorted`. */
module Arrays {

  // ----- ranges, gathers, maps -----

  function Range(lo: nat, hi: nat): (r: seq<nat>)
    requires lo <= hi
    ensures |r| == hi - lo
    ensures forall i :: 0 <= i < |r| ==> r[i] == lo + i
  {
    seq(hi - lo, i requires 0 <= i => lo + i)
  }

  predicate InBounds(index: seq<nat>, n: nat) {
    forall i :: 0 <= i < |index| ==> index[i] < n
  }

  function Gather<T>(column: seq<T>, index: seq<nat>): (r: seq<T>)
    requires InBounds(index, |column|)
    ensures |r| == |index|
    ensures forall i {:trigger r[i]} :: 0 <= i < |r| ==> r[i] == column[index[i]]
  {
    seq(|index|, i requires 0 <= i < |index| => column[index[i]])
  }

  function Map<S, T>(f: S -> T, xs: seq<S>): (r: seq<T>)
    ensures |r| == |xs|
    ensures forall i {:trigger r[i]} :: 0 <= i < |r| ==> r[i] == f(xs[i])
  {
    seq(|xs|, i requires 0 <= i < |xs| => f(xs[i]))
  }

  lemma MapAppend<S, T>(f: S -> T, xs: seq<S>, ys: seq<S>)
    ensures Map(f, xs + ys) == Map(f, xs) + Map(f, ys)
  {
  }

  function Fill<T>(n: nat, x: T): (r: seq<T>)
    ensures |r| == n
    ensures forall i :: 0 <= i < n ==> r[i] == x
  {
    seq(n, _ => x)
  }

  function Flatten<T>(xss: seq<seq<T>>): seq<T> {
    if |xss| == 0 then [] else Flatten(xss[..|xss| - 1]) + xss[|xss| - 1]
  }

  lemma {:induction false} FlattenAppend<T>(xss: seq<seq<T>>, yss: seq<seq<T>>)
    ensures Flatten(xss + yss) == Flatten(xss) + Flatten(yss)
  {
    if |yss| == 0 {
      assert xss + yss == xss;
    } else {
      var init := yss[..|yss| - 1];
      FlattenAppend(xss, init);
      assert (xss + yss)[..|xss + yss| - 1] == xss + init;
    }
  }

  // ----- prefix sums -----

  /** Entry `p` of `[0, *cumsum(counts)]`. */
  function Offset(counts: seq<nat>, p: nat): nat
    requires p <= |counts|
  {
    if p == 0 then 0 else Offset(counts, p - 1) + counts[p - 1]
  }

  lemma {:induction false} OffsetMonotone(counts: seq<nat>, p: nat, q: nat)
    requires p <= q <= |counts|
    ensures Offset(counts, p) <= Offset(counts, q)
    decreases q - p
  {
    if p < q {
      OffsetMonotone(counts, p, q - 1);
    }
  }

  lemma {:induction false} OffsetPrefix(counts: seq<nat>, n: nat, p: nat)
    requires p <= n <= |counts|
    ensures Offset(counts[..n], p) == Offset(counts, p)
  {
    if p > 0 {
      OffsetPrefix(counts, n, p - 1);
    }
  }

  function Offsets(counts: seq<nat>): (r: seq<nat>)
    ensures |r| == |counts| + 1
  {
    seq(|counts| + 1, p requires 0 <= p <= |counts| => Offset(counts, p))
  }

  /** Every row lies in the stretch of one point. */
  lemma {:induction false} OwnerOf(counts: seq<nat>, r: nat) returns (p: nat)
    requires r < Offset(counts, |counts|)
    ensures p < |counts| && Offset(counts, p) <= r < Offset(counts, p + 1)
    decreases |counts|
  {
    var n := |counts| - 1;
    if Offset(counts, n) <= r {
      p := n;
    } else {
      OffsetPrefix(counts, n, n);
      p := OwnerOf(counts[..n], r);
      OffsetPrefix(counts, n, p);
      OffsetPrefix(counts, n, p + 1);
    }
  }

  lemma OwnerIsUnique(counts: seq<nat>, r: nat, p: nat, o: nat)
    requires p < |counts| && Offset(counts, p) <= r < Offset(counts, p + 1)
    requires o < |counts| && Offset(counts, o) <= r < Offset(counts, o + 1)
    ensures o == p
  {
    if o < p {
      OffsetMonotone(counts, o + 1, p);
    } else if p < o {
      OffsetMonotone(counts, p + 1, o);
    }
  }

  // ----- stretches -----

  /** The rows of point `p`. */
  function Stretch<T>(counts: seq<nat>, rows: seq<T>, p: nat): seq<T>
    requires p < |counts| && |rows| == Offset(counts, |counts|)
  {
    OffsetMonotone(counts, p + 1, |counts|);
    rows[Offset(counts, p)..Offset(counts, p + 1)]
  }

  lemma StretchIsSlice<T>(counts: seq<nat>, rows: seq<T>, p: nat)
    requires p < |counts| && |rows| == Offset(counts, |counts|)
    ensures Offset(counts, p) <= Offset(counts, p + 1) <= |rows|
    ensures Stretch(counts, rows, p) == rows[Offset(counts, p)..Offset(counts, p + 1)]
  {
    OffsetMonotone(counts, p + 1, |counts|);
  }

  ghost function Lengths<T>(tracks: seq<seq<T>>): (r: seq<nat>)
    ensures |r| == |tracks|
  {
    seq(|tracks|, q requires 0 <= q < |tracks| => |tracks[q]|)
  }

  lemma {:induction false} FlattenLength<T>(tracks: seq<seq<T>>)
    ensures |Flatten(tracks)| == Offset(Lengths(tracks), |tracks|)
  {
    if |tracks| > 0 {
      var k := |tracks| - 1;
      FlattenLength(tracks[..k]);
      assert Lengths(tracks)[..k] == Lengths(tracks[..k]);
      OffsetPrefix(Lengths(tracks), k, k);
    }
  }

  /** A stretch among the first `k` does not see the rows behind them. */
  lemma {:induction false} StretchOfPrefix<T>(counts: seq<nat>, rows: seq<T>, more: seq<T>, k: nat, q: nat)
    requires q < k <= |counts| && |rows| == Offset(counts, k) && |rows + more| == Offset(counts, |counts|)
    ensures |rows| == Offset(counts[..k], k)
    ensures Stretch(counts, rows + more, q) == Stretch(counts[..k], rows, q)
  {
    OffsetPrefix(counts, k, q);
    OffsetPrefix(counts, k, q + 1);
    OffsetPrefix(counts, k, k);
    StretchIsSlice(counts[..k], rows, q);
    StretchIsSlice(counts, rows + more, q);
  }

  lemma {:induction false} LengthsOfPrefix<T>(tracks: seq<seq<T>>, k: nat)
    requires k <= |tracks|
    ensures Lengths(tracks)[..k] == Lengths(tracks[..k])
    ensures Offset(Lengths(tracks[..k]), k) == Offset(Lengths(tracks), k)
  {
    assert Lengths(tracks)[..k] == Lengths(tracks[..k]);
    OffsetPrefix(Lengths(tracks), k, k);
  }

  /** Cutting the flattened tracks at the offsets gives them back. */
  lemma {:induction false} FlattenStretch<T>(tracks: seq<seq<T>>, q: nat)
    requires q < |tracks|
    ensures |Flatten(tracks)| == Offset(Lengths(tracks), |tracks|)
    ensures Stretch(Lengths(tracks), Flatten(tracks), q) == tracks[q]
  {
    var k := |tracks| - 1;
    FlattenLength(tracks);
    FlattenLength(tracks[..k]);
    LengthsOfPrefix(tracks, k);
    if q < k {
      FlattenStretch(tracks[..k], q);
      StretchOfPrefix(Lengths(tracks), Flatten(tracks[..k]), tracks[k], k, q);
    } else {
      StretchIsSlice(Lengths(tracks), Flatten(tracks), q);
    }
  }

  // ----- numpy.repeat -----

  function Repeat<T>(xs: seq<T>, counts: seq<nat>): (r: seq<T>)
    requires |xs| == |counts|
  {
    if |xs| == 0 then []
    else Repeat(xs[..|xs| - 1], counts[..|xs| - 1]) + Fill(counts[|xs| - 1], xs[|xs| - 1])
  }

  lemma {:induction false} RepeatLength<T>(xs: seq<T>, counts: seq<nat>)
    requires |xs| == |counts|
    ensures |Repeat(xs, counts)| == Offset(counts, |counts|)
  {
    if |xs| > 0 {
      RepeatLength(xs[..|xs| - 1], counts[..|xs| - 1]);
      OffsetPrefix(counts, |xs| - 1, |xs| - 1);
    }
  }

  lemma {:induction false} RepeatAt<T>(xs: seq<T>, counts: seq<nat>, p: nat, r: nat)
    requires |xs| == |counts| && p < |xs|
    requires Offset(counts, p) <= r < Offset(counts, p + 1)
    ensures r < |Repeat(xs, counts)| && Repeat(xs, counts)[r] == xs[p]
  {
    var n := |xs| - 1;
    OffsetPrefix(counts, n, n);
    RepeatLength(xs[..n], counts[..n]);
    if p < n {
      OffsetPrefix(counts, n, p);
      OffsetPrefix(counts, n, p + 1);
      RepeatAt(xs[..n], counts[..n], p, r);
    }
  }

  // ----- numpy.flatnonzero -----

  /** The indexes in `lo..hi` that satisfy `keep`, ascending. */
  function Select(keep: nat -> bool, lo: nat, hi: nat): (r: seq<nat>)
    requires lo <= hi
    ensures forall i :: 0 <= i < |r| ==> lo <= r[i] < hi && keep(r[i])
    decreases hi
  {
    if lo == hi then []
    else if keep(hi - 1) then Select(keep, lo, hi - 1) + [hi - 1]
    else Select(keep, lo, hi - 1)
  }

  lemma {:induction false} SelectAscending(keep: nat -> bool, lo: nat, hi: nat)
    requires lo <= hi
    ensures Ascending(Select(keep, lo, hi))
    ensures forall r :: lo <= r < hi && keep(r) ==> r in Select(keep, lo, hi)
  {
    SelectInOrder(keep, lo, hi);
    forall r | lo <= r < hi && keep(r) ensures r in Select(keep, lo, hi) {
      SelectHas(keep, lo, hi, r);
    }
  }

  lemma {:induction false} SelectInOrder(keep: nat -> bool, lo: nat, hi: nat)
    requires lo <= hi
    ensures Ascending(Select(keep, lo, hi))
    decreases hi
  {
    if lo < hi {
      SelectInOrder(keep, lo, hi - 1);
      if keep(hi - 1) {
        AscendingOneMore(Select(keep, lo, hi - 1), hi - 1);
      }
    }
  }

  lemma {:induction false} SelectHas(keep: nat -> bool, lo: nat, hi: nat, r: nat)
    requires lo <= r < hi && keep(r)
    ensures r in Select(keep, lo, hi)
    decreases hi
  {
    if r < hi - 1 {
      SelectHas(keep, lo, hi - 1, r);
    }
  }

  lemma AscendingOneMore(xs: seq<nat>, x: nat)
    requires Ascending(xs) && forall i :: 0 <= i < |xs| ==> xs[i] < x
    ensures Ascending(xs + [x])
  {
  }

  lemma {:induction false} SelectSame(f: nat -> bool, g: nat -> bool, lo: nat, hi: nat)
    requires lo <= hi
    requires forall r :: lo <= r < hi ==> f(r) == g(r)
    ensures Select(f, lo, hi) == Select(g, lo, hi)
    decreases hi
  {
    if lo < hi {
      SelectSame(f, g, lo, hi - 1);
    }
  }

  /** Selecting a contiguous stretch gives the range. */
  lemma {:induction false} SelectInterval(f: nat -> bool, lo: nat, hi: nat, n: nat)
    requires lo <= hi <= n
    requires forall r :: 0 <= r < n ==> f(r) == (lo <= r < hi)
    ensures Select(f, 0, n) == Range(lo, hi)
    decreases n
  {
    if n == 0 {
    } else if hi < n {
      SelectInterval(f, lo, hi, n - 1);
    } else if lo < hi {
      SelectInterval(f, lo, hi - 1, n - 1);
    } else {
      SelectInterval(f, n - 1, n - 1, n - 1);
    }
  }

  lemma {:induction false} SelectSplit(f: nat -> bool, lo: nat, mid: nat, hi: nat)
    requires lo <= mid <= hi
    ensures Select(f, lo, hi) == Select(f, lo, mid) + Select(f, mid, hi)
    decreases hi
  {
    if mid < hi {
      SelectSplit(f, lo, mid, hi - 1);
    }
  }

  lemma {:induction false} SelectShift(f: nat -> bool, g: nat -> bool, k: nat, n: nat)
    requires forall r: nat :: r < n ==> f(r + k) == g(r)
    ensures |Select(f, k, k + n)| == |Select(g, 0, n)|
    ensures forall i :: 0 <= i < |Select(g, 0, n)| ==> Select(f, k, k + n)[i] == Select(g, 0, n)[i] + k
  {
    if n > 0 {
      SelectShift(f, g, k, n - 1);
      assert f((n - 1) + k) == g(n - 1);
    }
  }

  predicate Ascending(xs: seq<nat>) {
    forall i, j :: 0 <= i < j < |xs| ==> xs[i] < xs[j]
  }

  ghost function Elements(xs: seq<nat>): set<nat> {
    set x | x in xs
  }

  lemma {:induction false} ElementsSize(xs: seq<nat>)
    ensures |Elements(xs)| <= |xs|
    ensures Ascending(xs) ==> |Elements(xs)| == |xs|
  {
    if |xs| > 0 {
      var k := |xs| - 1;
      ElementsSize(xs[..k]);
      assert xs == xs[..k] + [xs[k]];
      assert Elements(xs) == Elements(xs[..k]) + {xs[k]};
      if Ascending(xs) {
        assert xs[k] !in xs[..k];
      }
    }
  }

  lemma {:induction false} SubsetSize<T>(a: set<T>, b: set<T>)
    requires a <= b
    ensures |a| <= |b|
  {
    if a != {} {
      var x :| x in a;
      SubsetSize(a - {x}, b - {x});
    }
  }

  // ----- filters -----

  function Filter<T>(keep: T -> bool, xs: seq<T>): (r: seq<T>)
    ensures |r| <= |xs|
  {
    if |xs| == 0 then []
    else if keep(xs[0]) then [xs[0]] + Filter(keep, xs[1..])
    else Filter(keep, xs[1..])
  }

  lemma {:induction false} FilterMembers<T>(keep: T -> bool, xs: seq<T>)
    ensures forall x :: x in Filter(keep, xs) <==> x in xs && keep(x)
  {
    if |xs| > 0 {
      FilterMembers(keep, xs[1..]);
    }
  }

  ghost predicate NoRepeats<T>(xs: seq<T>) {
    forall i, j :: 0 <= i < j < |xs| ==> xs[i] != xs[j]
  }

  lemma {:induction false} DistinctSet(placed: seq<nat>)
    requires NoRepeats(placed)
    ensures |Elements(placed)| == |placed|
  {
    if |placed| > 0 {
      var k := |placed| - 1;
      DistinctSet(placed[..k]);
      assert placed == placed[..k] + [placed[k]];
      assert Elements(placed) == Elements(placed[..k]) + {placed[k]};
    }
  }

  lemma {:induction false} FilterNoRepeats<T>(keep: T -> bool, xs: seq<T>)
    requires NoRepeats(xs)
    ensures NoRepeats(Filter(keep, xs))
  {
    if |xs| > 0 {
      var rest := Filter(keep, xs[1..]);
      FilterNoRepeats(keep, xs[1..]);
      FilterMembers(keep, xs[1..]);
      forall i | 0 <= i < |rest| ensures rest[i] != xs[0] {
        assert rest[i] in rest;
      }
    }
  }

  lemma {:induction false} FilterAppend<T>(keep: T -> bool, xs: seq<T>, ys: seq<T>)
    ensures Filter(keep, xs + ys) == Filter(keep, xs) + Filter(keep, ys)
  {
    if |xs| == 0 {
      assert xs + ys == ys;
    } else {
      FilterAppend(keep, xs[1..], ys);
      assert (xs + ys)[0] == xs[0] && (xs + ys)[1..] == xs[1..] + ys;
      AppendRegroups([xs[0]], Filter(keep, xs[1..]), Filter(keep, ys));
    }
  }

  lemma AppendRegroups<T>(a: seq<T>, b: seq<T>, c: seq<T>)
    ensures a + (b + c) == a + b + c
  {
  }

  /** Filtering a range is selecting from it. */
  lemma {:induction false} FilterRange(keep: nat -> bool, lo: nat, hi: nat)
    requires lo <= hi
    ensures Filter(keep, Range(lo, hi)) == Select(keep, lo, hi)
    decreases hi
  {
    if lo < hi {
      FilterRange(keep, lo, hi - 1);
      assert Range(lo, hi) == Range(lo, hi - 1) + [hi - 1];
      FilterAppend<nat>(keep, Range(lo, hi - 1), [hi - 1]);
    }
  }

  // ----- stable sort -----

  ghost predicate TotalPreorder<T(!new)>(le: (T, T) -> bool) {
    && (forall x, y :: le(x, y) || le(y, x))
    && (forall x, y, z :: le(x, y) && le(y, z) ==> le(x, z))
  }

  function Insert<T>(le: (T, T) -> bool, x: T, ys: seq<T>): (r: seq<T>)
    ensures |r| == |ys| + 1
  {
    if |ys| == 0 || le(x, ys[0]) then [x] + ys else [ys[0]] + Insert(le, x, ys[1..])
  }

  /** The stable sort: an entry goes in front of those that sort with it and came after it. */
  function StableSort<T>(le: (T, T) -> bool, xs: seq<T>): (r: seq<T>)
    ensures |r| == |xs|
  {
    if |xs| == 0 then [] else Insert(le, xs[0], StableSort(le, xs[1..]))
  }

  lemma {:induction false} InsertMultiset<T>(le: (T, T) -> bool, x: T, ys: seq<T>)
    ensures multiset(Insert(le, x, ys)) == multiset{x} + multiset(ys)
  {
    if |ys| == 0 || le(x, ys[0]) {
    } else {
      InsertMultiset(le, x, ys[1..]);
      assert ys == [ys[0]] + ys[1..];
    }
  }

  lemma {:induction false} SortMultiset<T>(le: (T, T) -> bool, xs: seq<T>)
    ensures multiset(StableSort(le, xs)) == multiset(xs)
  {
    if |xs| > 0 {
      SortMultiset(le, xs[1..]);
      InsertMultiset(le, xs[0], StableSort(le, xs[1..]));
      assert xs == [xs[0]] + xs[1..];
    }
  }

  lemma {:induction false} SortMembers<T>(le: (T, T) -> bool, xs: seq<T>)
    ensures forall x :: x in StableSort(le, xs) <==> x in xs
  {
    SortMultiset(le, xs);
    forall x ensures x in StableSort(le, xs) <==> x in xs {
      assert x in multiset(StableSort(le, xs)) <==> x in multiset(xs);
    }
  }

  ghost predicate SortedBy<T>(le: (T, T) -> bool, s: seq<T>) {
    forall i, j :: 0 <= i < j < |s| ==> le(s[i], s[j])
  }

  lemma {:induction false} InsertSorted<T(!new)>(le: (T, T) -> bool, x: T, ys: seq<T>)
    requires TotalPreorder(le) && SortedBy(le, ys)
    ensures SortedBy(le, Insert(le, x, ys))
  {
    if |ys| == 0 {
    } else if le(x, ys[0]) {
      forall j | 0 <= j < |ys| ensures le(x, ys[j]) {
        assert j > 0 ==> le(ys[0], ys[j]);
      }
    } else {
      var rest := Insert(le, x, ys[1..]);
      InsertSorted(le, x, ys[1..]);
      InsertMultiset(le, x, ys[1..]);
      forall j | 0 <= j < |rest| ensures le(ys[0], rest[j]) {
        assert rest[j] in multiset(rest);
        assert rest[j] == x || rest[j] in ys[1..];
      }
    }
  }

  lemma {:induction false} SortSorted<T(!new)>(le: (T, T) -> bool, xs: seq<T>)
    requires TotalPreorder(le)
    ensures SortedBy(le, StableSort(le, xs))
  {
    if |xs| > 0 {
      SortSorted(le, xs[1..]);
      InsertSorted(le, xs[0], StableSort(le, xs[1..]));
    }
  }

  /** Sorting what is sorted changes nothing. */
  lemma {:induction false} SortOfSorted<T>(le: (T, T) -> bool, xs: seq<T>)
    requires SortedBy(le, xs)
    ensures StableSort(le, xs) == xs
  {
    if |xs| > 0 {
      SortOfSorted(le, xs[1..]);
      assert |xs| > 1 ==> le(xs[0], xs[1]);
    }
  }

  /** numpy's contract for a stable argsort: the entries ascend by key, and entries with equal
      keys keep their index order. */
  ghost predicate StablySorted(le: (nat, nat) -> bool, s: seq<nat>) {
    forall i, j :: 0 <= i < j < |s| ==> le(s[i], s[j]) && (le(s[j], s[i]) ==> s[i] < s[j])
  }

  lemma {:induction false} InsertStable(le: (nat, nat) -> bool, x: nat, ys: seq<nat>)
    requires TotalPreorder(le)
    requires StablySorted(le, ys)
    requires forall y :: y in ys ==> x < y
    ensures StablySorted(le, Insert(le, x, ys))
  {
    if |ys| == 0 || le(x, ys[0]) {
      forall j | 0 <= j < |ys| ensures le(x, ys[j]) && x < ys[j] {
        assert ys[j] in ys;
        assert j > 0 ==> le(x, ys[0]) && le(ys[0], ys[j]);
      }
      StableInFront(le, x, ys);
    } else {
      var rest := Insert(le, x, ys[1..]);
      forall y | y in ys[1..] ensures x < y {
        assert y in ys;
      }
      InsertStable(le, x, ys[1..]);
      InsertMultiset(le, x, ys[1..]);
      forall j | 0 <= j < |rest| ensures le(ys[0], rest[j]) && (le(rest[j], ys[0]) ==> ys[0] < rest[j]) {
        assert rest[j] in multiset(rest);
        assert rest[j] == x || rest[j] in ys[1..];
      }
      StableInFront(le, ys[0], rest);
    }
  }

  lemma StableInFront(le: (nat, nat) -> bool, x: nat, ys: seq<nat>)
    requires StablySorted(le, ys)
    requires forall j :: 0 <= j < |ys| ==> le(x, ys[j]) && (le(ys[j], x) ==> x < ys[j])
    ensures StablySorted(le, [x] + ys)
  {
  }

  lemma {:induction false} SortIsStable(le: (nat, nat) -> bool, xs: seq<nat>)
    requires TotalPreorder(le)
    requires Ascending(xs)
    ensures StablySorted(le, StableSort(le, xs))
  {
    if |xs| > 0 {
      SortIsStable(le, xs[1..]);
      SortMembers(le, xs[1..]);
      InsertStable(le, xs[0], StableSort(le, xs[1..]));
    }
  }

  /** A reordering of 0..n-1: every index, once. */
  ghost predicate IsPermutation(order: seq<nat>, n: nat) {
    && |order| == n
    && InBounds(order, n)
    && (forall i, j :: 0 <= i < j < n ==> order[i] != order[j])
    && (forall r :: 0 <= r < n ==> r in order)
  }

  /** Where an entry sits. */
  ghost function IndexIn(xs: seq<nat>, x: nat): (k: nat)
    requires x in xs
    ensures k < |xs| && xs[k] == x
  {
    var k :| 0 <= k < |xs| && xs[k] == x; k
  }

  function Argsort(le: (nat, nat) -> bool, n: nat): seq<nat> {
    StableSort(le, Range(0, n))
  }

  lemma ArgsortIsPermutation(le: (nat, nat) -> bool, n: nat)
    requires TotalPreorder(le)
    ensures IsPermutation(Argsort(le, n), n)
    ensures StablySorted(le, Argsort(le, n))
  {
    var all, order := Range(0, n), Argsort(le, n);
    SortIsStable(le, all);
    SortMembers(le, all);
    forall i | 0 <= i < n ensures order[i] < n {
      assert order[i] in all;
    }
    forall i, j | 0 <= i < j < n ensures order[i] != order[j] {
      assert le(order[i], order[j]);
    }
    forall r | 0 <= r < n ensures r in order {
      assert all[r] == r;
    }
  }

  // ----- finite maximum facts shared by the models -----

  function Max(a: int, b: int): int {
    if a < b then b else a
  }

  function MaxR(a: real, b: real): real {
    if a < b then b else a
  }

  function MinR(a: real, b: real): real {
    if b < a then b else a
  }
}
