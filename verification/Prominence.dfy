/** Topographic prominence of a reading in a sweep (scripts/track_at_pixel/anchors.py:1330-1344).

    The caller writes minus infinity for a disparity no image read (1268), so a reading is a real or
    unread, and unread is lower than every real. It measures only readings that are read (1272). */
module Prominence {
  import opened Arrays

  datatype Reading = Unread | Read(value: real) {
    predicate Le(other: Reading) {
      Unread? || (other.Read? && value <= other.value)
    }

    predicate Lt(other: Reading) {
      !other.Le(this)
    }
  }

  function Least(a: Reading, b: Reading): Reading {
    if b.Lt(a) then b else a
  }

  function Greatest(a: Reading, b: Reading): Reading {
    if a.Lt(b) then b else a
  }

  /** The lowest of `key[lo..hi]`, both ends included. */
  function Lowest(key: seq<Reading>, lo: nat, hi: nat): (low: Reading)
    requires lo <= hi < |key|
    ensures forall i :: lo <= i <= hi ==> low.Le(key[i])
    ensures exists i :: lo <= i <= hi && low == key[i]
    decreases hi - lo
  {
    if lo == hi then key[lo] else Least(Lowest(key, lo, hi - 1), key[hi])
  }

  /** `key[np.isfinite(key)]`. */
  function Finite(key: seq<Reading>): seq<real> {
    if |key| == 0 then []
    else
      var front := Finite(key[..|key| - 1]);
      if key[|key| - 1].Read? then front + [key[|key| - 1].value] else front
  }

  lemma {:induction false} FiniteMembers(key: seq<Reading>, x: real)
    ensures x in Finite(key) <==> Read(x) in key
  {
    if |key| > 0 {
      FiniteMembers(key[..|key| - 1], x);
      assert key == key[..|key| - 1] + [key[|key| - 1]];
    }
  }

  /** `min` of a list with something in it. */
  function Minimum(xs: seq<real>): (low: real)
    requires |xs| > 0
    ensures low in xs && forall x :: x in xs ==> low <= x
  {
    if |xs| == 1 then xs[0]
    else
      assert xs == xs[..|xs| - 1] + [xs[|xs| - 1]];
      MinR(Minimum(xs[..|xs| - 1]), xs[|xs| - 1])
  }

  /** The lowest reading on the way from `k` to `i`. */
  function Pass(key: seq<Reading>, k: nat, i: nat): Reading
    requires k < |key| && i < |key|
  {
    if i < k then Lowest(key, i, k) else Lowest(key, k, i)
  }

  lemma PassFallsFurtherOut(key: seq<Reading>, k: nat, i: nat, j: nat)
    requires k < |key| && j < |key| && (j <= i <= k || k <= i <= j)
    ensures Pass(key, k, j).Le(Pass(key, k, i)) && Pass(key, k, i).Le(key[k])
  {
  }

  ghost predicate Higher(key: seq<Reading>, k: nat, i: nat)
    requires k < |key|
  {
    i < |key| && key[k].Lt(key[i])
  }

  ghost predicate SomeHigher(key: seq<Reading>, k: nat)
    requires k < |key|
  {
    exists i :: Higher(key, k, i)
  }

  /** The lowest of the readings that are read. */
  ghost predicate IsLowestRead(key: seq<Reading>, col: Reading) {
    col.Read? && col in key && forall i :: 0 <= i < |key| && key[i].Read? ==> col.Le(key[i])
  }

  /** The key col: over every reading higher than `key[k]`, the highest of the lowest readings on the
      way to it; the lowest reading read when none is higher. */
  ghost predicate IsKeyCol(key: seq<Reading>, k: nat, col: Reading)
    requires k < |key|
  {
    if SomeHigher(key, k) then
      && (forall i :: Higher(key, k, i) ==> Pass(key, k, i).Le(col))
      && (exists i :: Higher(key, k, i) && Pass(key, k, i) == col)
    else
      IsLowestRead(key, col)
  }

  lemma KeyColIsUnique(key: seq<Reading>, k: nat, a: Reading, b: Reading)
    requires k < |key| && IsKeyCol(key, k, a) && IsKeyCol(key, k, b)
    ensures a == b
  {
    if SomeHigher(key, k) {
      var x :| Higher(key, k, x) && Pass(key, k, x) == a;
      var y :| Higher(key, k, y) && Pass(key, k, y) == b;
    }
  }

  /** The key col is unread exactly when some reading is higher and every way to a higher one goes
      past an unread reading. */
  lemma KeyColUnreadExactly(key: seq<Reading>, k: nat, col: Reading)
    requires k < |key| && IsKeyCol(key, k, col)
    ensures col.Unread? <==> SomeHigher(key, k) && forall i :: Higher(key, k, i) ==> Pass(key, k, i).Unread?
  {
    if SomeHigher(key, k) {
      var i :| Higher(key, k, i) && Pass(key, k, i) == col;
    }
  }

  /** Reading `j` is passed on the way from `k` to `i`. */
  predicate OnTheWay(j: nat, k: nat, i: nat) {
    i <= j <= k || k <= j <= i
  }

  /** Where some reading is higher, every way to a higher one goes down to the key col or below it, and
      one way to a higher one nowhere below it. */
  lemma KeyColSays(key: seq<Reading>, k: nat, col: Reading)
    requires k < |key| && IsKeyCol(key, k, col) && SomeHigher(key, k)
    ensures forall i: nat :: i < |key| && key[k].Lt(key[i]) ==>
              exists j: nat :: j < |key| && OnTheWay(j, k, i) && key[j].Le(col)
    ensures exists i: nat ::
              && i < |key| && key[k].Lt(key[i])
              && forall j: nat :: j < |key| && OnTheWay(j, k, i) ==> col.Le(key[j])
  {
    forall i: nat | i < |key| && key[k].Lt(key[i])
      ensures exists j: nat :: j < |key| && OnTheWay(j, k, i) && key[j].Le(col)
    {
      assert Higher(key, k, i);
      var j: nat := PassIsReached(key, k, i);
    }
    var i :| Higher(key, k, i) && Pass(key, k, i) == col;
    forall j: nat | j < |key| && OnTheWay(j, k, i) ensures col.Le(key[j]) {
    }
  }

  lemma PassIsReached(key: seq<Reading>, k: nat, i: nat) returns (j: nat)
    requires k < |key| && i < |key|
    ensures j < |key| && OnTheWay(j, k, i) && key[j] == Pass(key, k, i)
  {
    if i < k {
      j :| i <= j <= k && Lowest(key, i, k) == key[j];
    } else {
      j :| k <= j <= i && Lowest(key, k, i) == key[j];
    }
  }

  /** One side's walk as far as `at`: everything between is no higher than `key[k]`, and `low` is the
      lowest of it. */
  ghost predicate Walked(key: seq<Reading>, k: nat, at: int, low: Reading)
    requires k < |key|
  {
    && -1 <= at <= |key| && at != k
    && (forall i :: 0 <= i < |key| && (at < i <= k || k <= i < at) ==> key[i].Le(key[k]))
    && low == Pass(key, k, if at < k then at + 1 else at - 1)
  }

  /** One side's walk, to the nearest higher reading or off the end. */
  method Walk(key: seq<Reading>, k: nat, step: int) returns (at: int, low: Reading)
    requires k < |key| && (step == -1 || step == 1)
    ensures Walked(key, k, at, low) && (at < k <==> step == -1)
    ensures 0 <= at < |key| ==> Higher(key, k, at) && low == Pass(key, k, at)
  {
    low, at := key[k], k + step;
    while 0 <= at < |key| && key[at].Le(key[k])
      invariant Walked(key, k, at, low) && (at < k <==> step == -1)
      decreases if step == 1 then |key| - at else at
    {
      WalkStep(key, k, at, low, step);
      low := Least(low, key[at]);
      at := at + step;
    }
    if 0 <= at < |key| {
      WalkStop(key, k, at, low);
    }
  }

  lemma LeastIsSymmetric(a: Reading, b: Reading)
    ensures Least(a, b) == Least(b, a)
  {
  }

  lemma WalkStep(key: seq<Reading>, k: nat, at: nat, low: Reading, step: int)
    requires k < |key| && at < |key| && Walked(key, k, at, low) && key[at].Le(key[k])
    requires step == if at < k then -1 else 1
    ensures Walked(key, k, at + step, Least(low, key[at]))
  {
    if at < k {
      LowestDown(key, at, k);
      LeastIsSymmetric(key[at], low);
    }
  }

  lemma WalkStop(key: seq<Reading>, k: nat, at: nat, low: Reading)
    requires k < |key| && at < |key| && Walked(key, k, at, low) && key[k].Lt(key[at])
    ensures low == Pass(key, k, at)
  {
    if at < k {
      LowestDown(key, at, k);
    }
  }

  /** A finite height, or without end above an unread key col. */
  datatype Prominence = Above(height: real) | Endless

  /** The prominence of a reading that is read, in full: its height above its key col, never negative,
      and endless exactly when some reading is higher and each way to one goes past an unread. */
  method Measure(key: seq<Reading>, k: nat) returns (prominence: Prominence)
    requires k < |key| && key[k].Read?
    ensures prominence.Above? ==> prominence.height >= 0.0 && IsKeyCol(key, k, Read(key[k].value - prominence.height))
    ensures prominence.Endless? <==> SomeHigher(key, k) && forall i :: Higher(key, k, i) ==> Pass(key, k, i).Unread?
    ensures prominence.Endless? ==> IsKeyCol(key, k, Unread)
  {
    var cols: seq<Reading> := [];
    var left, low := Walk(key, k, -1);
    if 0 <= left {
      cols := cols + [low];
    }
    var right;
    right, low := Walk(key, k, 1);
    if right < |key| {
      cols := cols + [low];
    }
    FiniteMembers(key, key[k].value);
    LowestRead(key);
    var base :=
      if |cols| == 0 then Read(Minimum(Finite(key)))
      else if |cols| == 1 then cols[0]
      else Greatest(cols[0], cols[1]);
    NearestDecide(key, k, left, right, base);
    KeyColUnreadExactly(key, k, base);
    prominence := if base.Unread? then Endless else Above(key[k].value - base.value);
  }

  lemma {:induction false} LowestRead(key: seq<Reading>)
    requires |Finite(key)| > 0
    ensures IsLowestRead(key, Read(Minimum(Finite(key))))
  {
    FiniteMembers(key, Minimum(Finite(key)));
    forall i | 0 <= i < |key| && key[i].Read? ensures Minimum(Finite(key)) <= key[i].value {
      FiniteMembers(key, key[i].value);
    }
  }

  /** The nearest higher readings decide: their passes' maximum is the key col. */
  lemma NearestDecide(key: seq<Reading>, k: nat, left: int, right: int, base: Reading)
    requires k < |key| && key[k].Read? && -1 <= left < k < right <= |key|
    requires forall i :: left < i < right ==> key[i].Le(key[k])
    requires 0 <= left ==> Higher(key, k, left)
    requires right < |key| ==> Higher(key, k, right)
    requires if left < 0 && right == |key| then IsLowestRead(key, base)
             else base == if left < 0 then Pass(key, k, right)
                          else if right == |key| then Pass(key, k, left)
                          else Greatest(Pass(key, k, left), Pass(key, k, right))
    ensures IsKeyCol(key, k, base) && base.Le(key[k])
  {
    OnlyNearestMatter(key, k, left, right);
  }

  lemma {:induction false} LowestDown(key: seq<Reading>, lo: nat, hi: nat)
    requires lo < hi < |key|
    ensures Lowest(key, lo, hi) == Least(key[lo], Lowest(key, lo + 1, hi))
    decreases hi - lo
  {
    if lo + 1 < hi {
      LowestDown(key, lo, hi - 1);
    }
  }

  /** A higher reading past the nearest one on its side has a pass no higher than the nearest's. */
  lemma OnlyNearestMatter(key: seq<Reading>, k: nat, left: int, right: int)
    requires k < |key| && -1 <= left < k < right <= |key|
    requires forall i :: left < i < right ==> key[i].Le(key[k])
    ensures forall i: nat :: Higher(key, k, i) && i < k ==> 0 <= left && Pass(key, k, i).Le(Pass(key, k, left))
    ensures forall i: nat :: Higher(key, k, i) && k < i ==> right < |key| && Pass(key, k, i).Le(Pass(key, k, right))
  {
    forall i: nat | Higher(key, k, i) && i < k ensures 0 <= left && Pass(key, k, i).Le(Pass(key, k, left)) {
      assert i <= left;
      PassFallsFurtherOut(key, k, left, i);
    }
    forall i: nat | Higher(key, k, i) && k < i ensures right < |key| && Pass(key, k, i).Le(Pass(key, k, right)) {
      assert right <= i;
      PassFallsFurtherOut(key, k, right, i);
    }
  }
}
