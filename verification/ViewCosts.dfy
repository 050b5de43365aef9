/** What a view's cost is made of, stated on the readings of the rows
    (scripts/reference_view/analyze.py:229-252 and 301-415). */
module ViewCosts {
  import opened AngleForms
  import opened Arrays
  import opened ExtendedReals
  import opened ReferenceView

  // ----- which rows are costed -----

  /** A row is excluded for the first of these that holds: no coverage read, coverage below the least, an
      angle read of 90 degrees or more. It is eligible when none does. */
  lemma JudgeExcludes(o: Options, rule: AngleRule, rows: seq<Row>, i: nat)
    requires WellPosed(o, rule, rows) && i < |rows|
    ensures var row, v := rows[i], Judge(o, rule, rows, i);
            && (v == Excluded(NoTile) <==> row.coverage.Unread?)
            && (v == Excluded(LowCoverage) <==> row.coverage.Read? && row.coverage.value < o.minCoverage)
            && (v == Excluded(BackFacing) <==>
                  && row.coverage.Read? && row.coverage.value >= o.minCoverage
                  && row.angle.Read? && row.angle.value >= 90.0)
            && (v.Costed? <==> EligibleAt(o, rows, i))
  {
  }

  // ----- the product -----

  /** An eligible row's verdict holds its factors, and its cost is theirs. */
  lemma VerdictHasCost(o: Options, rule: AngleRule, rows: seq<Row>, i: nat, f: Factors)
    requires WellPosed(o, rule, rows) && EligibleAt(o, rows, i) && Judge(o, rule, rows, i) == Costed(f)
    ensures f == FactorsOf(o, rule, rows, i) && CostAt(o, rule, rows, i) == f.Cost()
  {
  }

  /** A cost is the product of its seven factors. */
  lemma CostIsProduct(f: Factors)
    ensures f.Cost() == f.radius * f.capped * f.angle * f.agreement * f.cells * f.coverage * f.clipped
  {
  }

  // ----- the radius and the step at the cap -----

  /** Row `j` is eligible and reads the largest radius any eligible row reads. */
  ghost predicate ReadsLargest(o: Options, rows: seq<Row>, j: nat) {
    && EligibleAt(o, rows, j) && rows[j].semiMajor.Read?
    && (forall m: nat :: EligibleAt(o, rows, m) && rows[m].semiMajor.Read? ==>
          rows[m].semiMajor.value <= rows[j].semiMajor.value)
  }

  lemma TopIsRead(o: Options, rows: seq<Row>)
    ensures TopRadius(o, rows).Unread? <==> forall j: nat :: EligibleAt(o, rows, j) ==> rows[j].semiMajor.Unread?
    ensures TopRadius(o, rows).Read? ==> exists j: nat :: ReadsLargest(o, rows, j)
    ensures forall j: nat :: ReadsLargest(o, rows, j) ==> TopRadius(o, rows) == rows[j].semiMajor
  {
    var radii := Among(o, rows, SemiMajor);
    LargestIsLargest(radii);
    forall j: nat | EligibleAt(o, rows, j) ensures radii[j] == rows[j].semiMajor {
    }
    if Largest(radii).Read? {
      var j :| 0 <= j < |radii| && radii[j] == Largest(radii);
      assert ReadsLargest(o, rows, j);
    }
    forall j: nat | ReadsLargest(o, rows, j) ensures TopRadius(o, rows) == rows[j].semiMajor {
      assert radii[j].value <= Largest(radii).value;
    }
  }

  /** A row's radius is the one it reads, or else the largest an eligible row reads, or else the default. */
  lemma RadiusSays(o: Options, rule: AngleRule, rows: seq<Row>, i: nat)
    requires WellPosed(o, rule, rows) && EligibleAt(o, rows, i)
    ensures var radius := FactorsOf(o, rule, rows, i).radius;
            && (rows[i].semiMajor.Read? ==> radius == rows[i].semiMajor.value)
            && (forall j: nat :: rows[i].semiMajor.Unread? && ReadsLargest(o, rows, j) ==>
                  radius == rows[j].semiMajor.value)
            && ((forall j: nat :: EligibleAt(o, rows, j) ==> rows[j].semiMajor.Unread?) ==> radius == o.unreadRadius)
  {
    TopIsRead(o, rows);
  }

  /** The radius read is at or over the cap it was read with, 3 where none is given. */
  predicate AtCap(row: Row) {
    row.semiMajor.Read? && row.semiMajor.value >= (if row.maxRadius.Read? then row.maxRadius.value else 3.0)
  }

  /** A row takes the step if and only if the radius it reads is at its cap; one that reads none, if and only
      if some eligible row that reads the largest radius reads it at its cap. */
  lemma CappedSays(o: Options, rule: AngleRule, rows: seq<Row>, i: nat)
    requires WellPosed(o, rule, rows) && EligibleAt(o, rows, i)
    ensures FactorsOf(o, rule, rows, i).capped
         == if AtCap(rows[i]) || (rows[i].semiMajor.Unread? && LargestAtCap(o, rows)) then o.cappedFactor else 1.0
  {
    TopIsRead(o, rows);
    assert AtCap(rows[i]) == Capped(rows[i]);
    if TopIsCapped(o, rows) {
      var j :| 0 <= j < |rows| && Eligible(o, rows[j]) && rows[j].semiMajor == TopRadius(o, rows) && Capped(rows[j]);
      var top: nat :| ReadsLargest(o, rows, top);
      assert ReadsLargest(o, rows, j) && AtCap(rows[j]);
    }
    if LargestAtCap(o, rows) {
      var j: nat :| ReadsLargest(o, rows, j) && AtCap(rows[j]);
      assert Eligible(o, rows[j]) && rows[j].semiMajor == TopRadius(o, rows) && Capped(rows[j]);
    }
  }

  ghost predicate LargestAtCap(o: Options, rows: seq<Row>) {
    exists j: nat :: ReadsLargest(o, rows, j) && AtCap(rows[j])
  }

  /** Given a cap it does not reach in place of one it does, a row's factors are the same but for the step. */
  lemma CapMovesStep(o: Options, rule: AngleRule, rows: seq<Row>, k: nat, cap: Reading)
    requires WellPosed(o, rule, rows) && EligibleAt(o, rows, k) && rows[k].semiMajor.Read?
    requires AtCap(rows[k]) && !AtCap(rows[k].(maxRadius := cap))
    ensures var after := rows[k := rows[k].(maxRadius := cap)];
            && WellPosed(o, rule, after) && EligibleAt(o, after, k) && FactorsOf(o, rule, after, k).capped == 1.0
            && FactorsOf(o, rule, rows, k) == FactorsOf(o, rule, after, k).(capped := o.cappedFactor)
  {
    OnlyStepMoves(o, rule, rows, k, cap);
    CappedSays(o, rule, rows, k);
    CappedSays(o, rule, rows[k := rows[k].(maxRadius := cap)], k);
  }

  /** Such a row costs exactly the step times what it would cost without. */
  lemma StepMultiplies(f: Factors, g: Factors, step: real)
    requires f == g.(capped := step) && g.capped == 1.0
    ensures f.Cost() == g.Cost() * step
  {
    var p0 := g.radius;
    assert p0 * g.capped == p0;
    var p1 := p0 * g.angle;
    SwapLast(p0, step, g.angle);
    var p2 := p1 * g.agreement;
    SwapLast(p1, step, g.agreement);
    var p3 := p2 * g.cells;
    SwapLast(p2, step, g.cells);
    var p4 := p3 * g.coverage;
    SwapLast(p3, step, g.coverage);
    SwapLast(p4, step, g.clipped);
  }

  lemma SwapLast(a: real, x: real, b: real)
    ensures a * x * b == a * b * x
  {
  }

  /** A row's cap moves nothing else that goes into its cost. */
  lemma OnlyStepMoves(o: Options, rule: AngleRule, rows: seq<Row>, k: nat, cap: Reading)
    requires WellPosed(o, rule, rows) && EligibleAt(o, rows, k)
    ensures var after := rows[k := rows[k].(maxRadius := cap)];
            && WellPosed(o, rule, after) && EligibleAt(o, after, k)
            && FactorsOf(o, rule, rows, k)
            == FactorsOf(o, rule, after, k).(capped := FactorsOf(o, rule, rows, k).capped)
  {
    var after := rows[k := rows[k].(maxRadius := cap)];
    SightsStay(o, rows, after);
    CapKeepsAgreement(o, rows, after, k);
  }

  lemma CapKeepsAgreement(o: Options, rows: seq<Row>, after: seq<Row>, k: nat)
    requires ScalesNonzero(o) && k < |rows| == |after|
    requires forall i :: 0 <= i < |rows| ==> after[i] == rows[i].(maxRadius := after[i].maxRadius)
    ensures AgreementOf(o, after, after[k]) == AgreementOf(o, rows, rows[k])
  {
    AmongSame(o, rows, after, Pair);
    AmongSame(o, rows, after, ShortfallFrom(BestPair(o, rows)));
  }

  // ----- the hinges -----

  /** A hinge is one up to its band and rises past it with slope one over its scale. */
  lemma HingeSays(x: real, band: real, scale: real)
    requires scale != 0.0
    ensures x <= band ==> Hinge(x, band, scale) == 1.0
    ensures x > band ==> (Hinge(x, band, scale) - 1.0) * scale == x - band
  {
  }

  /** Cells and clipping are hinged where they are read; coverage by how far it is short of its band. */
  lemma HingesSay(o: Options, rule: AngleRule, rows: seq<Row>, i: nat)
    requires WellPosed(o, rule, rows) && EligibleAt(o, rows, i)
    ensures var f, row := FactorsOf(o, rule, rows, i), rows[i];
            && (row.cellDeficit.Unread? ==> f.cells == 1.0)
            && (row.cellDeficit.Read? ==> f.cells == Hinge(row.cellDeficit.value, o.deficitBand, o.deficitScale))
            && (row.clipped.Unread? ==> f.clipped == 1.0)
            && (row.clipped.Read? ==> f.clipped == Hinge(row.clipped.value, o.clippedBand, o.clippedScale))
            && f.coverage == Hinge(o.coverageBand - row.coverage.value, 0.0, o.coverageScale)
  {
  }

  /** Row `j` is eligible and has a pair reading, and no eligible row's is above it, or below it. */
  ghost predicate ReadsBestPair(o: Options, rows: seq<Row>, j: nat) {
    && EligibleAt(o, rows, j) && rows[j].pair.Read?
    && (forall m: nat :: EligibleAt(o, rows, m) && rows[m].pair.Read? ==> rows[m].pair.value <= rows[j].pair.value)
  }

  ghost predicate ReadsWorstPair(o: Options, rows: seq<Row>, j: nat) {
    && EligibleAt(o, rows, j) && rows[j].pair.Read?
    && (forall m: nat :: EligibleAt(o, rows, m) && rows[m].pair.Read? ==> rows[j].pair.value <= rows[m].pair.value)
  }

  /** Agreement is hinged on how far a row's pair reading is short of the best eligible one, and for a row
      with none on how far the worst is; with none read at all it costs nothing. */
  lemma AgreementSays(o: Options, rule: AngleRule, rows: seq<Row>, i: nat, best: nat, worst: nat)
    requires WellPosed(o, rule, rows) && EligibleAt(o, rows, i)
    ensures var f, band, scale := FactorsOf(o, rule, rows, i), o.agreementBand, o.agreementScale;
            && ((forall j: nat :: EligibleAt(o, rows, j) ==> rows[j].pair.Unread?) ==> f.agreement == 1.0)
            && (ReadsBestPair(o, rows, best) && rows[i].pair.Read? ==>
                  f.agreement == Hinge(rows[best].pair.value - rows[i].pair.value, band, scale))
            && (ReadsBestPair(o, rows, best) && ReadsWorstPair(o, rows, worst) && rows[i].pair.Unread? ==>
                  f.agreement == Hinge(rows[best].pair.value - rows[worst].pair.value, band, scale))
  {
    if forall j: nat :: EligibleAt(o, rows, j) ==> rows[j].pair.Unread? {
      NoPairRead(o, rows);
    }
    if ReadsBestPair(o, rows, best) {
      BestIsRead(o, rows, best);
      if ReadsWorstPair(o, rows, worst) {
        WorstIsFurthestShort(o, rows, best, worst);
      }
    }
  }

  lemma NoPairRead(o: Options, rows: seq<Row>)
    requires forall j: nat :: EligibleAt(o, rows, j) ==> rows[j].pair.Unread?
    ensures BestPair(o, rows).Unread? && UnreadShortfall(o, rows).Unread?
  {
    LargestIsLargest(Among(o, rows, Pair));
    LargestIsLargest(Among(o, rows, ShortfallFrom(BestPair(o, rows))));
  }

  lemma BestIsRead(o: Options, rows: seq<Row>, best: nat)
    requires ReadsBestPair(o, rows, best)
    ensures BestPair(o, rows) == rows[best].pair
  {
    var pairs := Among(o, rows, Pair);
    LargestIsLargest(pairs);
    assert pairs[best] == rows[best].pair;
    var top :| 0 <= top < |pairs| && pairs[top] == Largest(pairs);
    assert EligibleAt(o, rows, top) && rows[top].pair == pairs[top];
  }

  lemma WorstIsFurthestShort(o: Options, rows: seq<Row>, best: nat, worst: nat)
    requires ReadsBestPair(o, rows, best) && ReadsWorstPair(o, rows, worst)
    ensures UnreadShortfall(o, rows) == Read(rows[best].pair.value - rows[worst].pair.value)
  {
    BestIsRead(o, rows, best);
    var shorts := Among(o, rows, ShortfallFrom(BestPair(o, rows)));
    LargestIsLargest(shorts);
    assert shorts[worst] == Read(rows[best].pair.value - rows[worst].pair.value);
    var top :| 0 <= top < |shorts| && shorts[top] == Largest(shorts);
    assert EligibleAt(o, rows, top) && rows[top].pair.Read?;
    assert shorts[top] == Read(rows[best].pair.value - rows[top].pair.value);
  }

  // ----- the angle -----

  /** The angle factor is the form's, over the eligible rows' angles, rays and radii. */
  lemma AngleSays(o: Options, rule: AngleRule, rows: seq<Row>, i: nat)
    requires WellPosed(o, rule, rows) && EligibleAt(o, rows, i)
    ensures var sights := Sights(o, rows);
            && |sights| == |rows| && Formable(rule, sights) && sights[i].eligible
            && sights[i].angle == rows[i].angle && sights[i].ray == rows[i].ray
            && sights[i].radius == FactorsOf(o, rule, rows, i).radius
            && FactorsOf(o, rule, rows, i).angle == FactorAt(rule, sights, i)
  {
  }

  // ----- the pick -----

  /** Some eligible row is picked; against any other its cost is less, or the same with a smaller semi-minor
      axis or the other's unread, or with neither and the smaller index. */
  lemma PickSays(o: Options, rule: AngleRule, rows: seq<Row>, i: nat, j: nat)
    requires WellPosed(o, rule, rows) && IsPick(o, rule, rows, View(i)) && EligibleAt(o, rows, j) && j != i
    ensures EligibleAt(o, rows, i)
    ensures var a, b := rows[i].semiMinor, rows[j].semiMinor;
            || CostAt(o, rule, rows, i) < CostAt(o, rule, rows, j)
            || (CostAt(o, rule, rows, i) == CostAt(o, rule, rows, j)
                && ((a.Read? && (b.Unread? || a.value < b.value)) || (a == b && i < j)))
  {
    assert NoWorse(o, rule, rows, i, j);
  }
}
