/** The range of distances a triangulated reading speaks for, found by doubling away from its own
    distance and bisecting the last step (scripts/track_at_pixel/anchors.py:785-844).

    A finite distance is written by its base-2 logarithm, so halving a distance takes one off,
    doubling adds one, and the geometric mean of two distances is the midpoint of the two. The
    worst reprojection error at a distance is an arbitrary function `err`. */
module DistanceRange {
  import opened ExtendedReals

  datatype Distance = Zero | At(log: real) | Infinity

  type Reading = Distance -> Ext

  /** The script's limits: steps of one doubling or halving, and rounds of bisection. */
  datatype Limits = Limits(steps: nat, rounds: nat) {
    /** What is left of one step after the bisection. */
    function Gap(): real { HalvedGap(1.0, rounds) }
  }

  const LIMITS := Limits(40, 10)

  predicate Within(err: Reading, tol: Ext, log: real) {
    err(At(log)).Le(tol)
  }

  /** `max(tol_px, err(t0) + 0.5)`. */
  function Tolerance(err: Reading, t0: Distance, tolPx: real): (tol: Ext)
    ensures err(t0).Le(tol) && Fin(tolPx).Le(tol)
  {
    if err(t0).Inf? then Inf else MaxExt(Fin(tolPx), Fin(err(t0).value + 0.5))
  }

  // ----- bisecting in log distance -----

  function Bisect(err: Reading, tol: Ext, inside: real, outside: real, rounds: nat): real
    decreases rounds
  {
    if rounds == 0 then inside
    else
      var mid := (inside + outside) / 2.0;
      if Within(err, tol, mid) then Bisect(err, tol, mid, outside, rounds - 1)
      else Bisect(err, tol, inside, mid, rounds - 1)
  }

  function HalvedGap(gap: real, rounds: nat): real
    decreases rounds
  {
    if rounds == 0 then gap else HalvedGap(gap / 2.0, rounds - 1)
  }

  /** Bisection ends at a distance no further out than it started and one halved gap short of a
      distance that is out of tolerance. */
  lemma {:induction false} BisectSound(err: Reading, tol: Ext, inside: real, outside: real, rounds: nat)
    requires !Within(err, tol, outside)
    ensures var end, gap := Bisect(err, tol, inside, outside, rounds), HalvedGap(outside - inside, rounds);
            && !Within(err, tol, end + gap)
            && (end != inside ==> Within(err, tol, end))
            && (inside <= outside ==> inside <= end <= outside)
            && (outside <= inside ==> outside <= end <= inside)
    decreases rounds
  {
    if rounds > 0 {
      var mid := (inside + outside) / 2.0;
      if Within(err, tol, mid) {
        BisectSound(err, tol, mid, outside, rounds - 1);
        assert outside - mid == (outside - inside) / 2.0;
      } else {
        BisectSound(err, tol, inside, mid, rounds - 1);
        assert mid - inside == (outside - inside) / 2.0;
      }
    }
  }

  lemma {:induction false} HalvedGapOfNegative(gap: real, rounds: nat)
    ensures HalvedGap(-gap, rounds) == -HalvedGap(gap, rounds)
    decreases rounds
  {
    if rounds > 0 {
      assert -gap / 2.0 == -(gap / 2.0);
      HalvedGapOfNegative(gap / 2.0, rounds - 1);
    }
  }

  lemma {:induction false} HalvedGapIsPositive(gap: real, rounds: nat)
    requires gap > 0.0
    ensures HalvedGap(gap, rounds) > 0.0
    decreases rounds
  {
    if rounds > 0 {
      HalvedGapIsPositive(gap / 2.0, rounds - 1);
    }
  }

  /** Ten rounds leave a factor 2^(1/1024). */
  lemma ScriptGap()
    ensures LIMITS.Gap() == 1.0 / 1024.0 && LIMITS.steps == 40
  {
    assert HalvedGap(1.0, 10) == HalvedGap(0.0625, 6) == HalvedGap(0.00390625, 2) == 0.0009765625;
  }

  // ----- the two searches -----

  /** Whole steps out from `at` up to the first that reads out of tolerance, `left` of them at most:
      the bisected end short of it, or `open` when there is none. */
  function Search(err: Reading, tol: Ext, at: real, step: real, open: Distance, left: nat, rounds: nat): Distance
    decreases left
  {
    if left == 0 then open
    else if !Within(err, tol, at + step) then At(Bisect(err, tol, at, at + step, rounds))
    else Search(err, tol, at + step, step, open, left - 1, rounds)
  }

  /** `n` whole steps out from `at`. */
  function Out(at: real, step: real, n: nat): real
    decreases n
  {
    if n == 0 then at else Out(at + step, step, n - 1)
  }

  lemma {:induction false} OutIs(at: real, step: real, n: nat)
    requires step == 1.0 || step == -1.0
    ensures Out(at, step, n) == if step == 1.0 then at + n as real else at - n as real
    decreases n
  {
    if n > 0 {
      OutIs(at + step, step, n - 1);
    }
  }

  /** The first `n` whole steps out from `at` are all in tolerance. */
  ghost predicate StepsWithin(err: Reading, tol: Ext, at: real, step: real, n: nat)
    decreases n
  {
    n == 0 || (Within(err, tol, at + step) && StepsWithin(err, tol, at + step, step, n - 1))
  }

  /** Where the search stops, `m` whole steps out: at the limit with the end left open, or at an end
      within the next step, in tolerance itself and one gap short of a distance that is not. */
  ghost predicate Stops(err: Reading, tol: Ext, at: real, step: real, open: Distance, left: nat, rounds: nat, m: nat) {
    var end := Search(err, tol, at, step, open, left, rounds);
    && m <= left && StepsWithin(err, tol, at, step, m)
    && (m == left ==> end == open)
    && (m < left ==> !Within(err, tol, Out(at, step, m) + step))
    && (m < left ==> end.At? && EndsAt(err, tol, Out(at, step, m), step, HalvedGap(1.0, rounds), end.log))
    && (m < left && (m > 0 || Within(err, tol, at)) ==> Within(err, tol, end.log))
  }

  ghost predicate EndsAt(err: Reading, tol: Ext, from: real, step: real, gap: real, log: real) {
    && !Within(err, tol, log + step * gap)
    && (log != from ==> Within(err, tol, log))
    && (if step > 0.0 then from <= log <= from + step else from + step <= log <= from)
  }

  lemma BisectEnds(err: Reading, tol: Ext, at: real, step: real, rounds: nat)
    requires (step == 1.0 || step == -1.0) && !Within(err, tol, at + step)
    ensures EndsAt(err, tol, at, step, HalvedGap(1.0, rounds), Bisect(err, tol, at, at + step, rounds))
  {
    BisectSound(err, tol, at, at + step, rounds);
    HalvedGapOfNegative(1.0, rounds);
    assert at + step - at == step;
  }

  lemma {:induction false} SearchStops(err: Reading, tol: Ext, at: real, step: real, open: Distance, left: nat,
                                       rounds: nat)
    returns (m: nat)
    requires step == 1.0 || step == -1.0
    ensures Stops(err, tol, at, step, open, left, rounds, m)
    decreases left
  {
    if left == 0 {
      m := 0;
    } else if !Within(err, tol, at + step) {
      m := 0;
      BisectEnds(err, tol, at, step, rounds);
    } else {
      m := SearchStops(err, tol, at + step, step, open, left - 1, rounds);
      m := m + 1;
    }
  }

  lemma {:induction false} StepWithin(err: Reading, tol: Ext, at: real, step: real, n: nat, k: nat)
    requires StepsWithin(err, tol, at, step, n) && 1 <= k <= n
    ensures Within(err, tol, Out(at, step, k))
    decreases n
  {
    if k > 1 {
      StepWithin(err, tol, at + step, step, n - 1, k - 1);
    }
  }

  /** The distance halved, or doubled, `k` times is in tolerance. */
  predicate Halved(err: Reading, tol: Ext, at: real, k: nat) { Within(err, tol, at - k as real) }

  predicate Doubled(err: Reading, tol: Ext, at: real, k: nat) { Within(err, tol, at + k as real) }

  /** The near search: open exactly when every halving reads in tolerance; else the end it returns is a
      distance no further than the start, past every halving before it, in tolerance if the start is, and
      one gap short of a distance that is not. */
  ghost predicate IsNearEnd(err: Reading, tol: Ext, at: real, limits: Limits, near: Distance) {
    && near != Infinity
    && (near.Zero? <==> forall k: nat :: 1 <= k <= limits.steps ==> Halved(err, tol, at, k))
    && (near.At? ==>
          && at - limits.steps as real <= near.log <= at
          && !Within(err, tol, near.log - limits.Gap())
          && (Within(err, tol, at) ==> Within(err, tol, near.log))
          && (forall k: nat :: 1 <= k <= limits.steps && near.log <= at - k as real ==> Halved(err, tol, at, k)))
  }

  ghost predicate IsFarEnd(err: Reading, tol: Ext, at: real, limits: Limits, far: Distance) {
    && far != Zero
    && (far.Infinity? <==> forall k: nat :: 1 <= k <= limits.steps ==> Doubled(err, tol, at, k))
    && (far.At? ==>
          && at <= far.log <= at + limits.steps as real
          && !Within(err, tol, far.log + limits.Gap())
          && (Within(err, tol, at) ==> Within(err, tol, far.log))
          && (forall k: nat :: 1 <= k <= limits.steps && at + k as real <= far.log ==> Doubled(err, tol, at, k)))
  }

  lemma {:induction false} NearSearch(err: Reading, tol: Ext, at: real, limits: Limits)
    ensures IsNearEnd(err, tol, at, limits, Search(err, tol, at, -1.0, Zero, limits.steps, limits.rounds))
  {
    var near := Search(err, tol, at, -1.0, Zero, limits.steps, limits.rounds);
    var m := SearchStops(err, tol, at, -1.0, Zero, limits.steps, limits.rounds);
    OutIs(at, -1.0, m);
    HalvedGapIsPositive(1.0, limits.rounds);
    forall k: nat | 1 <= k <= m ensures Halved(err, tol, at, k) {
      StepWithin(err, tol, at, -1.0, m, k);
      OutIs(at, -1.0, k);
    }
    if m < limits.steps {
      assert at - m as real + -1.0 == at - (m + 1) as real;
      assert !Halved(err, tol, at, m + 1);
    }
  }

  lemma {:induction false} FarSearch(err: Reading, tol: Ext, at: real, limits: Limits)
    ensures IsFarEnd(err, tol, at, limits, Search(err, tol, at, 1.0, Infinity, limits.steps, limits.rounds))
  {
    var far := Search(err, tol, at, 1.0, Infinity, limits.steps, limits.rounds);
    var m := SearchStops(err, tol, at, 1.0, Infinity, limits.steps, limits.rounds);
    OutIs(at, 1.0, m);
    HalvedGapIsPositive(1.0, limits.rounds);
    forall k: nat | 1 <= k <= m ensures Doubled(err, tol, at, k) {
      StepWithin(err, tol, at, 1.0, m, k);
      OutIs(at, 1.0, k);
    }
    if m < limits.steps {
      assert at + m as real + 1.0 == at + (m + 1) as real;
      assert !Doubled(err, tol, at, m + 1);
    }
  }

  // ----- the range -----

  /** `(near, far)`; `farStart` is the distance the near search sets out from for a point at
      infinity, 1e7. */
  function Range(err: Reading, t0: Distance, tolPx: real, farStart: real, limits: Limits): (Distance, Distance)
    requires !t0.Zero?
  {
    var tol := Tolerance(err, t0, tolPx);
    var near := Search(err, tol, if t0.At? then t0.log else farStart, -1.0, Zero, limits.steps, limits.rounds);
    var far :=
      if t0.Infinity? || err(Infinity).Le(tol) then Infinity
      else Search(err, tol, t0.log, 1.0, Infinity, limits.steps, limits.rounds);
    (near, far)
  }

  /** For a finite distance: the range holds it, both ends found read within tolerance, and the
      distance a factor 2^(1/1024) past either is out of tolerance. */
  lemma RangeIsSound(err: Reading, t0: real, tolPx: real, farStart: real, limits: Limits)
    ensures var tol := Tolerance(err, At(t0), tolPx);
            var (near, far) := Range(err, At(t0), tolPx, farStart, limits);
            && (near.At? ==> t0 - limits.steps as real <= near.log <= t0
                             && Within(err, tol, near.log) && !Within(err, tol, near.log - limits.Gap()))
            && (far.At? ==> t0 <= far.log <= t0 + limits.steps as real
                            && Within(err, tol, far.log) && !Within(err, tol, far.log + limits.Gap()))
            && near != Infinity && far != Zero
  {
    var tol := Tolerance(err, At(t0), tolPx);
    var m := SearchStops(err, tol, t0, -1.0, Zero, limits.steps, limits.rounds);
    OutIs(t0, -1.0, m);
    var n := SearchStops(err, tol, t0, 1.0, Infinity, limits.steps, limits.rounds);
    OutIs(t0, 1.0, n);
  }

  /** Which ends are open, and where the others are: the near search sets out from t0, from `farStart` for
      a point at infinity, and the far search only where infinity is out of tolerance. */
  lemma RangeEnds(err: Reading, t0: Distance, tolPx: real, farStart: real, limits: Limits)
    requires !t0.Zero?
    ensures var tol := Tolerance(err, t0, tolPx);
            var (near, far) := Range(err, t0, tolPx, farStart, limits);
            && (t0.At? ==> IsNearEnd(err, tol, t0.log, limits, near))
            && (t0.Infinity? ==> IsNearEnd(err, tol, farStart, limits, near) && far == Infinity)
            && (err(Infinity).Le(tol) ==> far == Infinity)
            && (t0.At? && !err(Infinity).Le(tol) ==> IsFarEnd(err, tol, t0.log, limits, far))
  {
    var tol := Tolerance(err, t0, tolPx);
    NearSearch(err, tol, if t0.At? then t0.log else farStart, limits);
    if t0.At? {
      FarSearch(err, tol, t0.log, limits);
    }
  }

  /** The tolerance is the least that is no less than `tolPx` and half a pixel over the reading at t0. */
  lemma ToleranceIsLeast(err: Reading, t0: Distance, tolPx: real, other: Ext)
    ensures Tolerance(err, t0, tolPx).Le(other)
       <==> Fin(tolPx).Le(other) && (if err(t0).Inf? then Inf else Fin(err(t0).value + 0.5)).Le(other)
  {
  }

  /** The finite distances in tolerance form one stretch. */
  ghost predicate FiniteStretch(err: Reading, tol: Ext) {
    forall a: real, b: real, c: real ::
      a <= b <= c && Within(err, tol, a) && Within(err, tol, c) ==> Within(err, tol, b)
  }

  /** The distances in tolerance, infinity the furthest of them, form one stretch. */
  ghost predicate OneStretch(err: Reading, tol: Ext) {
    && FiniteStretch(err, tol)
    && (err(Infinity).Le(tol) ==> forall a: real, b: real :: a <= b && Within(err, tol, a) ==> Within(err, tol, b))
  }

  lemma {:induction false} LastStepWithin(err: Reading, tol: Ext, at: real, step: real, n: nat)
    requires StepsWithin(err, tol, at, step, n) && Within(err, tol, at)
    ensures Within(err, tol, Out(at, step, n))
    decreases n
  {
    if n > 0 {
      LastStepWithin(err, tol, at + step, step, n - 1);
    }
  }

  /** Where the distances in tolerance form one stretch, the range is that stretch up to the
      bisection's gap: everything inside it is in tolerance, everything a factor 2^(1/1024) or more
      past an end found is not. An open end speaks for the 40 halvings or doublings tried, and a far
      one for every distance past t0 where infinity reads in tolerance. */
  lemma RangeIsTheStretch(err: Reading, t0: real, tolPx: real, farStart: real, limits: Limits, x: real)
    requires OneStretch(err, Tolerance(err, At(t0), tolPx))
    ensures var tol := Tolerance(err, At(t0), tolPx);
            var (near, far) := Range(err, At(t0), tolPx, farStart, limits);
            && ((if near.At? then near.log else t0 - limits.steps as real) <= x <= t0 ==> Within(err, tol, x))
            && (t0 <= x <= (if far.At? then far.log else t0 + limits.steps as real) ==> Within(err, tol, x))
            && (t0 <= x && far.Infinity? && err(Infinity).Le(tol) ==> Within(err, tol, x))
            && (near.At? && x <= near.log - limits.Gap() ==> !Within(err, tol, x))
            && (far.At? && far.log + limits.Gap() <= x ==> !Within(err, tol, x))
  {
    var tol := Tolerance(err, At(t0), tolPx);
    var (near, far) := Range(err, At(t0), tolPx, farStart, limits);
    RangeIsSound(err, t0, tolPx, farStart, limits);
    HalvedGapIsPositive(1.0, limits.rounds);
    assert Within(err, tol, t0);
    var m := SearchStops(err, tol, t0, -1.0, Zero, limits.steps, limits.rounds);
    LastStepWithin(err, tol, t0, -1.0, m);
    OutIs(t0, -1.0, m);
    var n := SearchStops(err, tol, t0, 1.0, Infinity, limits.steps, limits.rounds);
    LastStepWithin(err, tol, t0, 1.0, n);
    OutIs(t0, 1.0, n);
  }

  /** One stretch of finite distances is not enough for that: in tolerance a doubling either way of t0
      and at infinity and nowhere else, the far end is infinite and what lies between is out. */
  lemma FiniteStretchIsNotEnough(t0: real, farStart: real, limits: Limits)
    ensures var err := NearAndInfinity(t0);
            var tol := Tolerance(err, At(t0), 1.0);
            && FiniteStretch(err, tol) && !OneStretch(err, tol)
            && Range(err, At(t0), 1.0, farStart, limits).1 == Infinity && !Within(err, tol, t0 + 2.0)
  {
    var tol := Tolerance(NearAndInfinity(t0), At(t0), 1.0);
    forall log ensures Within(NearAndInfinity(t0), tol, log) <==> t0 - 1.0 <= log <= t0 + 1.0 {
      NearReads(t0, log);
    }
    FarIsInfinite(NearAndInfinity(t0), t0, 1.0, farStart, limits);
    assert Within(NearAndInfinity(t0), tol, t0) && !Within(NearAndInfinity(t0), tol, t0 + 2.0);
  }

  lemma FarIsInfinite(err: Reading, t0: real, tolPx: real, farStart: real, limits: Limits)
    requires err(Infinity).Le(Tolerance(err, At(t0), tolPx))
    ensures Range(err, At(t0), tolPx, farStart, limits).1 == Infinity
  {
  }

  lemma NearReads(t0: real, log: real)
    ensures Tolerance(NearAndInfinity(t0), At(t0), 1.0) == Fin(1.0)
    ensures Within(NearAndInfinity(t0), Fin(1.0), log) <==> t0 - 1.0 <= log <= t0 + 1.0
  {
  }

  function NearAndInfinity(t0: real): Reading {
    (d: Distance) => if d.Infinity? || (d.At? && t0 - 1.0 <= d.log <= t0 + 1.0) then Fin(0.0) else Fin(2.0)
  }

  /** Every midpoint between `inside` and a limit `gap` away, halving toward `inside`, reads out of
      tolerance. */
  ghost predicate MidpointsOut(err: Reading, tol: Ext, inside: real, gap: real, rounds: nat)
    decreases rounds
  {
    rounds == 0 || (!Within(err, tol, inside + gap / 2.0) && MidpointsOut(err, tol, inside, gap / 2.0, rounds - 1))
  }

  lemma {:induction false} BisectStays(err: Reading, tol: Ext, inside: real, outside: real, rounds: nat)
    requires inside > outside && !Within(err, tol, outside)
    ensures Bisect(err, tol, inside, outside, rounds) == inside <==>
              MidpointsOut(err, tol, inside, outside - inside, rounds)
    decreases rounds
  {
    if rounds > 0 {
      var mid := (inside + outside) / 2.0;
      assert inside + (outside - inside) / 2.0 == mid;
      if Within(err, tol, mid) {
        BisectSound(err, tol, mid, outside, rounds - 1);
      } else {
        assert mid - inside == (outside - inside) / 2.0;
        BisectStays(err, tol, inside, mid, rounds - 1);
      }
    }
  }

  /** For a point at infinity the near search sets out from `farStart` without reading it first.
      The near end is returned out of tolerance exactly when that distance, half of it and every
      midpoint the bisection takes between them are all out of tolerance. */
  lemma NearEndOfPointAtInfinity(err: Reading, tolPx: real, farStart: real, limits: Limits)
    ensures var tol := Tolerance(err, Infinity, tolPx);
            var (near, far) := Range(err, Infinity, tolPx, farStart, limits);
            && far == Infinity
            && (near.At? && !Within(err, tol, near.log)
                <==> limits.steps > 0 && !Within(err, tol, farStart) && !Within(err, tol, farStart - 1.0)
                     && MidpointsOut(err, tol, farStart, -1.0, limits.rounds))
  {
    var tol := Tolerance(err, Infinity, tolPx);
    var m := SearchStops(err, tol, farStart, -1.0, Zero, limits.steps, limits.rounds);
    assert farStart + -1.0 == farStart - 1.0;
    if limits.steps > 0 && !Within(err, tol, farStart - 1.0) {
      BisectStays(err, tol, farStart, farStart - 1.0, limits.rounds);
    } else if limits.steps > 0 {
      var k := SearchStops(err, tol, farStart - 1.0, -1.0, Zero, limits.steps - 1, limits.rounds);
    }
  }

  /** Where the distances in tolerance form one stretch, the start alone decides: the near end is out
      of tolerance exactly when the start is. */
  lemma NearEndOverOneStretch(err: Reading, tolPx: real, farStart: real, limits: Limits)
    requires limits.steps > 0 && OneStretch(err, Tolerance(err, Infinity, tolPx))
    ensures var tol := Tolerance(err, Infinity, tolPx);
            var near := Range(err, Infinity, tolPx, farStart, limits).0;
            near.At? && !Within(err, tol, near.log) <==> !Within(err, tol, farStart)
  {
    var tol := Tolerance(err, Infinity, tolPx);
    NearEndOfPointAtInfinity(err, tolPx, farStart, limits);
    if !Within(err, tol, farStart) {
      AllMidpointsOut(err, tol, farStart, -1.0, limits.rounds);
    }
  }

  /** For a point at infinity whose start reads in tolerance: the range holds the start, the near end reads
      in tolerance, and the distance a factor 2^(1/1024) nearer does not; it is open exactly when every
      halving of the start reads in tolerance. */
  lemma NearEndFromGoodStart(err: Reading, tolPx: real, farStart: real, limits: Limits)
    requires Within(err, Tolerance(err, Infinity, tolPx), farStart)
    ensures var tol := Tolerance(err, Infinity, tolPx);
            var (near, far) := Range(err, Infinity, tolPx, farStart, limits);
            && far == Infinity && near != Infinity
            && (near.Zero? <==> forall k: nat :: 1 <= k <= limits.steps ==> Halved(err, tol, farStart, k))
            && (near.At? ==> farStart - limits.steps as real <= near.log <= farStart
                             && Within(err, tol, near.log) && !Within(err, tol, near.log - limits.Gap()))
  {
    NearSearch(err, Tolerance(err, Infinity, tolPx), farStart, limits);
  }

  /** Over one stretch it is then the stretch up to the gap: everything from the near end out is in
      tolerance, everything a factor 2^(1/1024) or more nearer is not. */
  lemma RangeAtInfinityIsTheStretch(err: Reading, tolPx: real, farStart: real, limits: Limits, x: real)
    requires OneStretch(err, Tolerance(err, Infinity, tolPx))
    requires Within(err, Tolerance(err, Infinity, tolPx), farStart)
    ensures var tol := Tolerance(err, Infinity, tolPx);
            var near := Range(err, Infinity, tolPx, farStart, limits).0;
            && ((if near.At? then near.log else farStart - limits.steps as real) <= x ==> Within(err, tol, x))
            && (near.At? && x <= near.log - limits.Gap() ==> !Within(err, tol, x))
  {
    var tol := Tolerance(err, Infinity, tolPx);
    NearEndFromGoodStart(err, tolPx, farStart, limits);
    var near := Range(err, Infinity, tolPx, farStart, limits).0;
    if near.Zero? && limits.steps > 0 {
      assert Halved(err, tol, farStart, limits.steps);
    }
  }

  /** A reading that falls to nothing as the distance grows, eight times `farStart` being far enough. */
  function Receding(farStart: real): Reading {
    (d: Distance) =>
      match d
      case Zero => Inf
      case At(log) => Fin(MaxR(0.0, farStart + 3.0 - log))
      case Infinity => Fin(0.0)
  }

  function MaxR(a: real, b: real): real { if a < b then b else a }

  /** It has no jump: it changes by no more than the logarithm does, and meets its value at infinity. */
  lemma RecedingIsContinuous(farStart: real, a: real, b: real)
    requires a <= b
    ensures var err := Receding(farStart);
            && err(At(a)).Fin? && err(At(b)).Fin? && 0.0 <= err(At(a)).value - err(At(b)).value <= b - a
            && (farStart + 3.0 <= b ==> err(At(b)) == err(Infinity))
  {
  }

  /** With it the near end is returned out of tolerance: the reconstruction's units make `farStart`
      near for it. */
  lemma NearEndCanBeOutOfTolerance(farStart: real, limits: Limits)
    requires limits.steps > 0
    ensures var err := Receding(farStart);
            var (near, far) := Range(err, Infinity, 1.0, farStart, limits);
            near == At(farStart) && !Within(err, Tolerance(err, Infinity, 1.0), near.log)
  {
    var err := Receding(farStart);
    var tol := Tolerance(err, Infinity, 1.0);
    assert tol == Fin(1.0);
    assert farStart + -1.0 == farStart - 1.0;
    forall log | log <= farStart ensures !Within(err, tol, log) {
    }
    AllMidpointsOut(err, tol, farStart, -1.0, limits.rounds);
    BisectStays(err, tol, farStart, farStart - 1.0, limits.rounds);
  }

  lemma {:induction false} AllMidpointsOut(err: Reading, tol: Ext, inside: real, gap: real, rounds: nat)
    requires gap < 0.0 && forall log :: log <= inside ==> !Within(err, tol, log)
    ensures MidpointsOut(err, tol, inside, gap, rounds)
    decreases rounds
  {
    if rounds > 0 {
      AllMidpointsOut(err, tol, inside, gap / 2.0, rounds - 1);
    }
  }

  // ----- the method -----

  method BisectLoop(err: Reading, tol: Ext, start: real, limit: real, rounds: nat) returns (inside: real)
    ensures inside == Bisect(err, tol, start, limit, rounds)
  {
    var outside := limit;
    inside := start;
    for round := 0 to rounds
      invariant Bisect(err, tol, inside, outside, rounds - round) == Bisect(err, tol, start, limit, rounds)
    {
      var mid := (inside + outside) / 2.0;
      if Within(err, tol, mid) {
        inside := mid;
      } else {
        outside := mid;
      }
    }
  }

  method Compute(err: Reading, t0: Distance, tolPx: real, farStart: real, limits: Limits)
    returns (near: Distance, far: Distance)
    requires !t0.Zero?
    ensures (near, far) == Range(err, t0, tolPx, farStart, limits)
  {
    var tol := Tolerance(err, t0, tolPx);
    var start := if t0.At? then t0.log else farStart;
    near := Zero;
    var t := start;
    for i := 0 to limits.steps
      invariant near == Zero
      invariant Search(err, tol, t, -1.0, Zero, limits.steps - i, limits.rounds)
             == Search(err, tol, start, -1.0, Zero, limits.steps, limits.rounds)
    {
      if !Within(err, tol, t - 1.0) {
        assert t + -1.0 == t - 1.0;
        var end := BisectLoop(err, tol, t, t - 1.0, limits.rounds);
        near := At(end);
        break;
      }
      t := t - 1.0;
    }
    far := Infinity;
    if !(t0.Infinity? || err(Infinity).Le(tol)) {
      t := t0.log;
      for i := 0 to limits.steps
        invariant far == Infinity
        invariant Search(err, tol, t, 1.0, Infinity, limits.steps - i, limits.rounds)
               == Search(err, tol, t0.log, 1.0, Infinity, limits.steps, limits.rounds)
      {
        if !Within(err, tol, t + 1.0) {
          var end := BisectLoop(err, tol, t, t + 1.0, limits.rounds);
          far := At(end);
          break;
        }
        t := t + 1.0;
      }
    }
  }
}
