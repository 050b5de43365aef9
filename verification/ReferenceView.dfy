/** Choosing the reference view of a track (scripts/reference_view/analyze.py:178-415): a product of
    factors per view, with fallbacks for missing readings that depend on the other views, and the
    lexicographically least (cost, semi-minor axis, index). The angle factor takes any of its forms. */
module ReferenceView {
  import opened AngleForms
  import opened Arrays
  import opened ExtendedReals
  import opened RealProducts

  datatype Row = Row(coverage: Reading, angle: Reading, ray: Ray, semiMajor: Reading, maxRadius: Reading,
                     semiMinor: Reading,
                     pair: Reading, cellDeficit: Reading, clipped: Reading)

  datatype Options = Options(angleWeight: real, cappedFactor: real, agreementBand: real, agreementScale: real,
                             deficitBand: real, deficitScale: real, coverageBand: real, coverageScale: real,
                             clippedBand: real, clippedScale: real, minCoverage: real, unreadRadius: real)

  const DEFAULT_MAX_RADIUS: real := 3.0

  datatype Exclusion = NoTile | LowCoverage | BackFacing

  datatype Factors = Factors(radius: real, capped: real, angle: real, agreement: real, cells: real, coverage: real,
                             clipped: real) {
    function Cost(): real { radius * capped * angle * agreement * cells * coverage * clipped }
  }

  datatype Verdict = Excluded(why: Exclusion) | Costed(factors: Factors)

  datatype Pick = Nothing | View(index: nat)

  // ----- eligibility -----

  function ExclusionOf(o: Options, row: Row): seq<Exclusion> {
    if row.coverage.Unread? then [NoTile]
    else if row.coverage.value < o.minCoverage then [LowCoverage]
    else if row.angle.Read? && row.angle.value >= 90.0 then [BackFacing]
    else []
  }

  predicate Eligible(o: Options, row: Row) { ExclusionOf(o, row) == [] }

  predicate EligibleAt(o: Options, rows: seq<Row>, i: nat) {
    i < |rows| && Eligible(o, rows[i])
  }

  // ----- readings of the eligible rows -----

  /** One reading per row: an eligible row's own, and none for the others. */
  function Among(o: Options, rows: seq<Row>, f: Row -> Reading): (r: seq<Reading>)
    ensures |r| == |rows|
    ensures forall i {:trigger r[i]} :: 0 <= i < |r| ==> r[i] == if Eligible(o, rows[i]) then f(rows[i]) else Unread
  {
    seq(|rows|, i requires 0 <= i < |rows| => if Eligible(o, rows[i]) then f(rows[i]) else Unread)
  }

  lemma AmongSame(o: Options, rows: seq<Row>, after: seq<Row>, f: Row -> Reading)
    requires |rows| == |after|
    requires forall i :: 0 <= i < |rows| ==> Eligible(o, rows[i]) == Eligible(o, after[i]) && f(rows[i]) == f(after[i])
    ensures Among(o, after, f) == Among(o, rows, f)
  {
  }

  // ----- the factors -----

  function Hinge(x: real, band: real, scale: real): real
    requires scale != 0.0
  {
    1.0 + MaxR(x - band, 0.0) / scale
  }

  /** 1 for a missing reading. */
  function ReadHinge(x: Reading, band: real, scale: real): real
    requires scale != 0.0
  {
    if x.Unread? then 1.0 else Hinge(x.value, band, scale)
  }

  predicate Capped(row: Row) {
    var cap := if row.maxRadius.Read? then row.maxRadius.value else DEFAULT_MAX_RADIUS;
    row.semiMajor.Read? && row.semiMajor.value >= cap
  }

  function SemiMajor(row: Row): Reading { row.semiMajor }

  function Pair(row: Row): Reading { row.pair }

  function TopRadius(o: Options, rows: seq<Row>): Reading { Largest(Among(o, rows, SemiMajor)) }

  /** Some eligible row reads the largest radius at its cap. */
  predicate TopIsCapped(o: Options, rows: seq<Row>) {
    exists i :: 0 <= i < |rows| && Eligible(o, rows[i]) && rows[i].semiMajor == TopRadius(o, rows) && Capped(rows[i])
  }

  function RadiusOf(o: Options, rows: seq<Row>, row: Row): real {
    if row.semiMajor.Read? then row.semiMajor.value
    else if TopRadius(o, rows).Read? then TopRadius(o, rows).value else o.unreadRadius
  }

  predicate ReadsAsCapped(o: Options, rows: seq<Row>, row: Row) {
    if row.semiMajor.Read? then Capped(row) else TopRadius(o, rows).Read? && TopIsCapped(o, rows)
  }

  function CappedOf(o: Options, rows: seq<Row>, row: Row): real {
    if ReadsAsCapped(o, rows, row) then o.cappedFactor else 1.0
  }

  /** What the angle forms read of the rows. */
  function Sights(o: Options, rows: seq<Row>): (r: seq<Sight>)
    ensures |r| == |rows|
    ensures forall i {:trigger r[i]} :: 0 <= i < |r| ==>
              r[i] == Sight(Eligible(o, rows[i]), rows[i].angle, rows[i].ray, RadiusOf(o, rows, rows[i]))
  {
    seq(|rows|, i requires 0 <= i < |rows| =>
      Sight(Eligible(o, rows[i]), rows[i].angle, rows[i].ray, RadiusOf(o, rows, rows[i])))
  }

  /** The form the rule itself takes, where no other is asked for. */
  function RuleForm(o: Options, optics: Optics): AngleRule { AngleRule(Tangent(o.angleWeight), optics) }

  function AngleAt(o: Options, rule: AngleRule, rows: seq<Row>, i: nat): real
    requires Formable(rule, Sights(o, rows)) && EligibleAt(o, rows, i)
  {
    FactorAt(rule, Sights(o, rows), i)
  }

  function BestPair(o: Options, rows: seq<Row>): Reading { Largest(Among(o, rows, Pair)) }

  function ShortfallFrom(best: Reading): Row -> Reading {
    (row: Row) => if best.Read? && row.pair.Read? then Read(best.value - row.pair.value) else Unread
  }

  function UnreadShortfall(o: Options, rows: seq<Row>): Reading {
    Largest(Among(o, rows, ShortfallFrom(BestPair(o, rows))))
  }

  function ShortfallOf(o: Options, rows: seq<Row>, row: Row): Reading {
    var own := ShortfallFrom(BestPair(o, rows))(row);
    if own.Read? then own else UnreadShortfall(o, rows)
  }

  predicate ScalesNonzero(o: Options) {
    o.agreementScale != 0.0 && o.deficitScale != 0.0 && o.coverageScale != 0.0 && o.clippedScale != 0.0
  }

  /** Nothing is divided by zero. */
  predicate WellPosed(o: Options, rule: AngleRule, rows: seq<Row>) {
    ScalesNonzero(o) && Formable(rule, Sights(o, rows))
  }

  function AgreementOf(o: Options, rows: seq<Row>, row: Row): real
    requires ScalesNonzero(o)
  {
    ReadHinge(ShortfallOf(o, rows, row), o.agreementBand, o.agreementScale)
  }

  /** The seven factors of an eligible row. */
  function FactorsOf(o: Options, rule: AngleRule, rows: seq<Row>, i: nat): Factors
    requires WellPosed(o, rule, rows) && EligibleAt(o, rows, i)
  {
    Factors(
      RadiusOf(o, rows, rows[i]),
      CappedOf(o, rows, rows[i]),
      AngleAt(o, rule, rows, i),
      AgreementOf(o, rows, rows[i]),
      ReadHinge(rows[i].cellDeficit, o.deficitBand, o.deficitScale),
      Hinge(o.coverageBand - rows[i].coverage.value, 0.0, o.coverageScale),
      ReadHinge(rows[i].clipped, o.clippedBand, o.clippedScale))
  }

  function Judge(o: Options, rule: AngleRule, rows: seq<Row>, i: nat): Verdict
    requires WellPosed(o, rule, rows) && i < |rows|
  {
    if Eligible(o, rows[i]) then Costed(FactorsOf(o, rule, rows, i)) else Excluded(ExclusionOf(o, rows[i])[0])
  }

  // ----- the choice -----

  function CostAt(o: Options, rule: AngleRule, rows: seq<Row>, i: nat): real
    requires WellPosed(o, rule, rows) && EligibleAt(o, rows, i)
  {
    FactorsOf(o, rule, rows, i).Cost()
  }

  function Tie(row: Row): Ext {
    if row.semiMinor.Read? then Fin(row.semiMinor.value) else Inf
  }

  /** (cost, tie, index) in lexicographic order. */
  predicate LexLe(cost: real, tie: Ext, i: nat, otherCost: real, otherTie: Ext, j: nat) {
    || cost < otherCost
    || (cost == otherCost && tie.Lt(otherTie))
    || (cost == otherCost && tie == otherTie && i <= j)
  }

  predicate NoWorse(o: Options, rule: AngleRule, rows: seq<Row>, i: nat, j: nat)
    requires WellPosed(o, rule, rows) && EligibleAt(o, rows, i) && EligibleAt(o, rows, j)
  {
    LexLe(CostAt(o, rule, rows, i), Tie(rows[i]), i, CostAt(o, rule, rows, j), Tie(rows[j]), j)
  }

  ghost predicate IsPick(o: Options, rule: AngleRule, rows: seq<Row>, pick: Pick)
    requires WellPosed(o, rule, rows)
  {
    match pick
    case Nothing => forall j: nat :: !EligibleAt(o, rows, j)
    case View(i) => EligibleAt(o, rows, i) && forall j: nat :: EligibleAt(o, rows, j) ==> NoWorse(o, rule, rows, i, j)
  }

  lemma NoWorseBothWays(o: Options, rule: AngleRule, rows: seq<Row>, i: nat, j: nat)
    requires WellPosed(o, rule, rows) && EligibleAt(o, rows, i) && EligibleAt(o, rows, j)
    requires NoWorse(o, rule, rows, i, j) && NoWorse(o, rule, rows, j, i)
    ensures i == j
  {
  }

  lemma PickIsUnique(o: Options, rule: AngleRule, rows: seq<Row>, p: Pick, q: Pick)
    requires WellPosed(o, rule, rows) && IsPick(o, rule, rows, p) && IsPick(o, rule, rows, q)
    ensures p == q
  {
    if p.View? && q.View? {
      NoWorseBothWays(o, rule, rows, p.index, q.index);
    }
  }

  function EligibleIn(o: Options, rows: seq<Row>): nat -> bool {
    (i: nat) => EligibleAt(o, rows, i)
  }

  ghost predicate IsFirstLeast(costs: seq<real>, ties: seq<Ext>, pickFrom: seq<nat>, pick: Pick)
    requires |costs| == |ties| && InBounds(pickFrom, |costs|)
  {
    if pick.Nothing? then |pickFrom| == 0
    else
      && pick.index in pickFrom && pick.index < |costs|
      && forall m :: 0 <= m < |pickFrom| ==>
           LexLe(costs[pick.index], ties[pick.index], pick.index, costs[pickFrom[m]], ties[pickFrom[m]], pickFrom[m])
  }

  /** The scan of the eligible rows in index order, giving way only to something strictly less. */
  method FirstLeast(costs: seq<real>, ties: seq<Ext>, pickFrom: seq<nat>) returns (pick: Pick)
    requires |costs| == |ties| && InBounds(pickFrom, |costs|) && Ascending(pickFrom)
    ensures IsFirstLeast(costs, ties, pickFrom, pick)
  {
    pick := Nothing;
    for n := 0 to |pickFrom|
      invariant IsFirstLeast(costs, ties, pickFrom[..n], pick)
    {
      var i := pickFrom[n];
      if pick.Nothing? {
        pick := View(i);
        continue;
      }
      var cost, best := costs[i], costs[pick.index];
      if cost < best || (cost == best && ties[i].Lt(ties[pick.index])) {
        pick := View(i);
      }
    }
    assert pickFrom[..|pickFrom|] == pickFrom;
  }

  ghost predicate AreCosts(o: Options, rule: AngleRule, rows: seq<Row>, costs: seq<real>)
    requires WellPosed(o, rule, rows)
  {
    |costs| == |rows| && forall i: nat :: EligibleAt(o, rows, i) ==> costs[i] == CostAt(o, rule, rows, i)
  }

  lemma {:induction false} SelectedAreEligible(o: Options, rows: seq<Row>, j: nat)
    ensures j in Select(EligibleIn(o, rows), 0, |rows|) <==> EligibleAt(o, rows, j)
  {
    var pickFrom := Select(EligibleIn(o, rows), 0, |rows|);
    SelectAscending(EligibleIn(o, rows), 0, |rows|);
    if j in pickFrom {
      var m :| 0 <= m < |pickFrom| && pickFrom[m] == j;
      assert EligibleIn(o, rows)(pickFrom[m]);
    }
    if EligibleAt(o, rows, j) {
      assert EligibleIn(o, rows)(j);
    }
  }

  lemma LeastIsNoWorse(o: Options, rule: AngleRule, rows: seq<Row>, costs: seq<real>, pickFrom: seq<nat>, i: nat,
                       j: nat)
    requires WellPosed(o, rule, rows) && AreCosts(o, rule, rows, costs) && InBounds(pickFrom, |costs|)
    requires EligibleAt(o, rows, i) && EligibleAt(o, rows, j) && j in pickFrom
    requires IsFirstLeast(costs, Map(Tie, rows), pickFrom, View(i))
    ensures NoWorse(o, rule, rows, i, j)
  {
    var m :| 0 <= m < |pickFrom| && pickFrom[m] == j;
    assert LexLe(costs[i], Map(Tie, rows)[i], i, costs[pickFrom[m]], Map(Tie, rows)[pickFrom[m]], pickFrom[m]);
  }

  /** The least of the eligible rows, read off their costs. */
  lemma {:induction false} FirstLeastIsPick(o: Options, rule: AngleRule, rows: seq<Row>, costs: seq<real>, pick: Pick)
    requires WellPosed(o, rule, rows) && AreCosts(o, rule, rows, costs)
    requires IsFirstLeast(costs, Map(Tie, rows), Select(EligibleIn(o, rows), 0, |rows|), pick)
    ensures IsPick(o, rule, rows, pick)
  {
    var pickFrom := Select(EligibleIn(o, rows), 0, |rows|);
    if pick.View? {
      SelectedAreEligible(o, rows, pick.index);
    }
    forall j: nat | EligibleAt(o, rows, j)
      ensures j in pickFrom && pick.View? && NoWorse(o, rule, rows, pick.index, j)
    {
      SelectedAreEligible(o, rows, j);
      LeastIsNoWorse(o, rule, rows, costs, pickFrom, pick.index, j);
    }
  }

  /** Each row's exclusion or factors, and the least eligible row by cost, then semi-minor axis (an
      unread one last), then index; nothing exactly when no row is eligible. */
  method Choose(o: Options, rule: AngleRule, rows: seq<Row>) returns (pick: Pick, verdicts: seq<Verdict>)
    requires WellPosed(o, rule, rows)
    ensures |verdicts| == |rows|
    ensures forall i :: 0 <= i < |rows| ==> verdicts[i] == Judge(o, rule, rows, i)
    ensures IsPick(o, rule, rows, pick)
  {
    verdicts := [];
    var costs := [];
    for i := 0 to |rows|
      invariant |verdicts| == |costs| == i
      invariant forall j :: 0 <= j < i ==> verdicts[j] == Judge(o, rule, rows, j)
      invariant forall j: nat :: j < i && EligibleAt(o, rows, j) ==> costs[j] == CostAt(o, rule, rows, j)
    {
      var verdict := Judge(o, rule, rows, i);
      verdicts := verdicts + [verdict];
      costs := costs + [if verdict.Costed? then verdict.factors.Cost() else 0.0];
    }
    SelectAscending(EligibleIn(o, rows), 0, |rows|);
    pick := FirstLeast(costs, Map(Tie, rows), Select(EligibleIn(o, rows), 0, |rows|));
    FirstLeastIsPick(o, rule, rows, costs, pick);
  }

  // ----- a missing reading never helps -----

  /** A row without a pair reading is charged at least what any row with one is, and so is a row
      without a radius. One the angle form cannot read takes at least the term of any it can, in every
      form, and where the term is the factor is charged at least as much. */
  lemma UnreadIsNoBetter(o: Options, rule: AngleRule, rows: seq<Row>, unread: nat, i: nat)
    requires WellPosed(o, rule, rows) && o.agreementScale > 0.0 && EligibleAt(o, rows, unread) && EligibleAt(o, rows, i)
    ensures rows[unread].pair.Unread? && rows[i].pair.Read? ==>
              AgreementOf(o, rows, rows[i]) <= AgreementOf(o, rows, rows[unread])
    ensures OwnTerm(rule, Sights(o, rows), unread).Unread? && OwnTerm(rule, Sights(o, rows), i).Read? ==>
              TermAt(rule, Sights(o, rows), i) <= TermAt(rule, Sights(o, rows), unread)
    ensures (&& !rule.form.Quadrature?
             && OwnTerm(rule, Sights(o, rows), unread).Unread? && OwnTerm(rule, Sights(o, rows), i).Read?) ==>
              AngleAt(o, rule, rows, i) <= AngleAt(o, rule, rows, unread)
    ensures rows[unread].semiMajor.Unread? && rows[i].semiMajor.Read? ==>
              RadiusOf(o, rows, rows[i]) <= RadiusOf(o, rows, rows[unread])
  {
    var shorts := Among(o, rows, ShortfallFrom(BestPair(o, rows)));
    var radii, pairs := Among(o, rows, SemiMajor), Among(o, rows, Pair);
    LargestIsLargest(shorts);
    LargestIsLargest(radii);
    LargestIsLargest(pairs);
    assert pairs[i] == rows[i].pair && radii[i] == rows[i].semiMajor;
    assert shorts[i] == ShortfallFrom(BestPair(o, rows))(rows[i]);
    if rows[unread].pair.Unread? && rows[i].pair.Read? {
      HingeRises(shorts[i].value, Largest(shorts).value, o.agreementBand, o.agreementScale);
    }
    var sights := Sights(o, rows);
    if OwnTerm(rule, sights, unread).Unread? && OwnTerm(rule, sights, i).Read? {
      UnreadTakesLargestTerm(rule, sights, unread, i);
    }
  }

  lemma HingeRises(x: real, y: real, band: real, scale: real)
    requires scale > 0.0 && x <= y
    ensures 1.0 <= Hinge(x, band, scale) <= Hinge(y, band, scale)
  {
    DivideRises(0.0, MaxR(x - band, 0.0), scale);
    DivideRises(MaxR(x - band, 0.0), MaxR(y - band, 0.0), scale);
  }

  lemma DivideRises(x: real, y: real, scale: real)
    requires scale > 0.0 && x <= y
    ensures x / scale <= y / scale
  {
  }

  // ----- raising the pick's own agreement -----

  /** Scales above zero, and nothing else that goes into a cost negative. */
  ghost predicate Sound(o: Options, rule: AngleRule, rows: seq<Row>) {
    && o.agreementScale > 0.0 && o.deficitScale > 0.0 && o.coverageScale > 0.0 && o.clippedScale > 0.0
    && o.cappedFactor >= 0.0 && o.unreadRadius >= 0.0
    && (forall i :: 0 <= i < |rows| && rows[i].semiMajor.Read? ==> rows[i].semiMajor.value >= 0.0)
    && WellPosed(o, rule, rows)
    && (forall i: nat :: EligibleAt(o, rows, i) ==> AngleAt(o, rule, rows, i) >= 0.0)
  }

  /** The rule's own form is sound wherever its weight and the tangents are not negative. */
  lemma RuleFormIsSound(o: Options, optics: Optics, rows: seq<Row>, i: nat)
    requires o.angleWeight >= 0.0 && (forall a :: 0.0 <= a < 90.0 ==> optics.tan(a) >= 0.0) && EligibleAt(o, rows, i)
    ensures AngleAt(o, RuleForm(o, optics), rows, i) >= 1.0
  {
    var sights := Sights(o, rows);
    forall j | 0 <= j < |sights| && sights[j].eligible && sights[j].angle.Read? ensures sights[j].angle.value < 90.0 {
      assert Eligible(o, rows[j]);
    }
    RuleFormIsAtLeastOne(RuleForm(o, optics), sights, i);
  }

  /** The rows with row `k`'s pair reading replaced. */
  function WithPair(rows: seq<Row>, k: nat, x: real): (r: seq<Row>)
    requires k < |rows|
    ensures |r| == |rows|
  {
    rows[k := rows[k].(pair := Read(x))]
  }

  /** All of the cost but the agreement factor. */
  function Rest(f: Factors): real { f.radius * f.capped * f.angle * (f.cells * f.coverage * f.clipped) }

  lemma CostIsRest(f: Factors)
    ensures f.Cost() == Rest(f) * f.agreement
  {
    Regroup(f.radius * f.capped * f.angle, f.agreement, f.cells, f.coverage, f.clipped);
  }

  lemma Regroup(a: real, h: real, b: real, c: real, d: real)
    ensures a * h * b * c * d == a * (b * c * d) * h
  {
    assert a * h * b == a * b * h;
    assert a * b * h * c == a * b * c * h;
    assert a * b * c * h * d == a * b * c * d * h;
    assert a * b * c * d == a * (b * c * d);
  }

  lemma SightsStay(o: Options, rows: seq<Row>, after: seq<Row>)
    requires |rows| == |after|
    requires forall i :: 0 <= i < |rows| ==>
               && Eligible(o, rows[i]) == Eligible(o, after[i])
               && rows[i].angle == after[i].angle && rows[i].ray == after[i].ray
               && rows[i].semiMajor == after[i].semiMajor
    ensures Sights(o, after) == Sights(o, rows) && TopRadius(o, after) == TopRadius(o, rows)
    ensures forall i :: 0 <= i < |rows| ==> RadiusOf(o, after, after[i]) == RadiusOf(o, rows, rows[i])
  {
    AmongSame(o, rows, after, SemiMajor);
  }

  lemma RestStays(o: Options, rule: AngleRule, rows: seq<Row>, k: nat, x: real, i: nat)
    requires WellPosed(o, rule, rows) && k < |rows| && EligibleAt(o, rows, i)
    ensures var after := WithPair(rows, k, x);
            && WellPosed(o, rule, after) && EligibleAt(o, after, i) && Tie(after[i]) == Tie(rows[i])
            && RadiusOf(o, after, after[i]) == RadiusOf(o, rows, rows[i])
            && CappedOf(o, after, after[i]) == CappedOf(o, rows, rows[i])
            && AngleAt(o, rule, after, i) == AngleAt(o, rule, rows, i)
  {
    var after := WithPair(rows, k, x);
    SightsStay(o, rows, after);
    CapStays(o, rows, after);
  }

  /** Nothing but the agreement factor moves with a pair reading. */
  lemma OnlyAgreementMoves(o: Options, rule: AngleRule, rows: seq<Row>, k: nat, x: real, i: nat)
    requires WellPosed(o, rule, rows) && k < |rows| && EligibleAt(o, rows, i)
    ensures var after := WithPair(rows, k, x);
            && WellPosed(o, rule, after) && EligibleAt(o, after, i) && Tie(after[i]) == Tie(rows[i])
            && FactorsOf(o, rule, after, i)
            == FactorsOf(o, rule, rows, i).(agreement := AgreementOf(o, after, after[i]))
  {
    RestStays(o, rule, rows, k, x, i);
  }

  lemma CapStays(o: Options, rows: seq<Row>, after: seq<Row>)
    requires |rows| == |after|
    requires forall i :: 0 <= i < |rows| ==>
               && Eligible(o, rows[i]) == Eligible(o, after[i])
               && rows[i].semiMajor == after[i].semiMajor && rows[i].maxRadius == after[i].maxRadius
    ensures TopIsCapped(o, after) == TopIsCapped(o, rows)
  {
    AmongSame(o, rows, after, SemiMajor);
    if i :| 0 <= i < |rows| && Eligible(o, rows[i]) && rows[i].semiMajor == TopRadius(o, rows) && Capped(rows[i]) {
      assert Eligible(o, after[i]) && after[i].semiMajor == TopRadius(o, after) && Capped(after[i]);
    }
    if i :| 0 <= i < |rows| && Eligible(o, after[i]) && after[i].semiMajor == TopRadius(o, after) && Capped(after[i]) {
      assert Eligible(o, rows[i]) && rows[i].semiMajor == TopRadius(o, rows) && Capped(rows[i]);
    }
  }

  lemma HingeIsAtLeastOne(x: Reading, band: real, scale: real)
    requires scale > 0.0
    ensures ReadHinge(x, band, scale) >= 1.0
  {
    if x.Read? {
      HingeRises(x.value, x.value, band, scale);
    }
  }

  lemma RadiusIsNonnegative(o: Options, rule: AngleRule, rows: seq<Row>, i: nat)
    requires Sound(o, rule, rows) && EligibleAt(o, rows, i)
    ensures RadiusOf(o, rows, rows[i]) >= 0.0
  {
    var radii := Among(o, rows, SemiMajor);
    LargestIsLargest(radii);
    if Largest(radii).Read? {
      var j :| 0 <= j < |radii| && radii[j] == Largest(radii);
      assert rows[j].semiMajor == Largest(radii);
    }
  }

  lemma RestOfFactors(f: Factors)
    requires f.radius >= 0.0 && f.capped >= 0.0 && f.angle >= 0.0 && f.cells >= 0.0 && f.coverage >= 0.0
    requires f.clipped >= 0.0
    ensures Rest(f) >= 0.0
  {
    ProductIsNonnegative(f.radius, f.capped, f.angle);
    ProductIsNonnegative(f.cells, f.coverage, f.clipped);
    ProductIsNonnegative(f.radius * f.capped * f.angle, f.cells * f.coverage * f.clipped, 1.0);
  }

  lemma RestIsNonnegative(o: Options, rule: AngleRule, rows: seq<Row>, i: nat)
    requires WellPosed(o, rule, rows) && Sound(o, rule, rows) && EligibleAt(o, rows, i)
    ensures Rest(FactorsOf(o, rule, rows, i)) >= 0.0
  {
    var row := rows[i];
    RadiusIsNonnegative(o, rule, rows, i);
    HingeIsAtLeastOne(row.cellDeficit, o.deficitBand, o.deficitScale);
    HingeIsAtLeastOne(Read(o.coverageBand - row.coverage.value), 0.0, o.coverageScale);
    HingeIsAtLeastOne(row.clipped, o.clippedBand, o.clippedScale);
    RestOfFactors(FactorsOf(o, rule, rows, i));
  }

  lemma ProductIsNonnegative(a: real, b: real, c: real)
    requires a >= 0.0 && b >= 0.0 && c >= 0.0
    ensures a * b * c >= 0.0
  {
    ProductSign(a, b);
    ProductSign(a * b, c);
  }

  /** With row `k`'s pair reading raised, its own shortfall does not rise, a read row's does not
      fall, and an unread row's falls only where `k` was itself the row furthest short; it never
      falls below what `k`'s now is. */
  lemma ShortfallsMove(o: Options, rows: seq<Row>, k: nat, x: real, i: nat)
    requires EligibleAt(o, rows, k) && EligibleAt(o, rows, i) && i != k
    requires rows[k].pair.Read? && rows[k].pair.value <= x
    ensures var after := WithPair(rows, k, x);
            var kWas, kNow := ShortfallOf(o, rows, rows[k]), ShortfallOf(o, after, after[k]);
            var was, now := ShortfallOf(o, rows, rows[i]), ShortfallOf(o, after, after[i]);
            && kWas.Read? && kNow.Read? && was.Read? && now.Read?
            && kNow.value <= kWas.value
            && (was.value <= now.value || (was.value == kWas.value && kNow.value <= now.value))
  {
    var after := WithPair(rows, k, x);
    var best, bestNow := BestPair(o, rows), BestPair(o, after);
    LargestIsLargest(Among(o, rows, Pair));
    LargestIsLargest(Among(o, after, Pair));
    BestMoves(o, rows, k, x);
    if rows[i].pair.Unread? {
      UnreadMoves(o, rows, k, x);
    }
  }

  lemma BestMoves(o: Options, rows: seq<Row>, k: nat, x: real)
    requires EligibleAt(o, rows, k) && rows[k].pair.Read? && rows[k].pair.value <= x
    ensures var best, now := BestPair(o, rows), BestPair(o, WithPair(rows, k, x));
            best.Read? && now.Read? && best.value <= now.value && now.value - x <= best.value - rows[k].pair.value
  {
    var after := WithPair(rows, k, x);
    var was, now := Among(o, rows, Pair), Among(o, after, Pair);
    assert Eligible(o, after[k]);
    LargestIsLargest(was);
    LargestIsLargest(now);
    assert was[k] == rows[k].pair && now[k] == Read(x);
    assert forall j :: 0 <= j < |rows| && j != k ==> now[j] == was[j];
  }

  lemma UnreadMoves(o: Options, rows: seq<Row>, k: nat, x: real)
    requires EligibleAt(o, rows, k) && rows[k].pair.Read? && rows[k].pair.value <= x
    ensures var after := WithPair(rows, k, x);
            var kWas, kNow := ShortfallOf(o, rows, rows[k]), ShortfallOf(o, after, after[k]);
            var was, now := UnreadShortfall(o, rows), UnreadShortfall(o, after);
            && kWas.Read? && kNow.Read? && was.Read? && now.Read?
            && (was.value <= now.value || (was.value == kWas.value && kNow.value <= now.value))
  {
    var after := WithPair(rows, k, x);
    var was := Among(o, rows, ShortfallFrom(BestPair(o, rows)));
    var now := Among(o, after, ShortfallFrom(BestPair(o, after)));
    BestMoves(o, rows, k, x);
    LargestIsLargest(was);
    LargestIsLargest(now);
    assert was[k] == Read(BestPair(o, rows).value - rows[k].pair.value);
    assert now[k] == Read(BestPair(o, after).value - x);
    var top :| 0 <= top < |was| && was[top] == Largest(was);
    assert top != k ==> now[top].Read? && was[top].value <= now[top].value;
  }

  /** A cost can only fall for the pick and rise for the others, or the two keep the order their
      remaining factors have; a tie afterwards was a tie before. */
  lemma OrderIsKept(c: real, h: real, hNow: real, d: real, g: real, gNow: real)
    requires c >= 0.0 && d >= 0.0 && 1.0 <= hNow <= h && 1.0 <= g && 1.0 <= gNow
    requires g <= gNow || (g == h && hNow <= gNow)
    requires c * h <= d * g
    ensures c * hNow <= d * gNow
    ensures c * hNow == d * gNow ==> c * h == d * g
  {
    if g <= gNow {
      ScaleRises(c, hNow, h);
      ScaleRises(d, g, gNow);
    } else {
      SameHinge(c, d, h, hNow, gNow);
    }
  }

  lemma SameHinge(c: real, d: real, h: real, hNow: real, gNow: real)
    requires d >= 0.0 && h >= 1.0 && 1.0 <= hNow <= gNow && c * h <= d * h
    ensures c * hNow <= d * gNow && (c * hNow == d * gNow ==> c == d)
  {
    ProductOrder(c, d, h);
    ProductIsMonotone(c, d, hNow);
    ScaleRises(d, hNow, gNow);
  }

  lemma ScaleRises(c: real, x: real, y: real)
    requires c >= 0.0 && x <= y
    ensures c * x <= c * y
  {
    ProductIsMonotone(x, y, c);
  }

  /** The same, of the costs. */
  lemma OrderOfCosts(fk: Factors, fi: Factors, hk: real, hi: real)
    requires Rest(fk) >= 0.0 && Rest(fi) >= 0.0 && 1.0 <= hk <= fk.agreement && 1.0 <= fi.agreement && 1.0 <= hi
    requires fi.agreement <= hi || (fi.agreement == fk.agreement && hk <= hi)
    requires fk.Cost() <= fi.Cost()
    ensures fk.(agreement := hk).Cost() <= fi.(agreement := hi).Cost()
    ensures fk.(agreement := hk).Cost() == fi.(agreement := hi).Cost() ==> fk.Cost() == fi.Cost()
  {
    CostIsRest(fk);
    CostIsRest(fi);
    CostIsRest(fk.(agreement := hk));
    CostIsRest(fi.(agreement := hi));
    OrderIsKept(Rest(fk), fk.agreement, hk, Rest(fi), fi.agreement, hi);
  }

  /** What the moves of the shortfalls do to the hinge factors. */
  lemma HingesMove(kWas: real, kNow: real, was: real, now: real, band: real, scale: real)
    requires scale > 0.0 && kNow <= kWas && (was <= now || (was == kWas && kNow <= now))
    ensures 1.0 <= Hinge(kNow, band, scale) <= Hinge(kWas, band, scale)
    ensures 1.0 <= Hinge(was, band, scale) && 1.0 <= Hinge(now, band, scale)
    ensures Hinge(was, band, scale) <= Hinge(now, band, scale)
         || (Hinge(was, band, scale) == Hinge(kWas, band, scale) && Hinge(kNow, band, scale) <= Hinge(now, band, scale))
  {
    HingeRises(kNow, kWas, band, scale);
    HingeRises(was, was, band, scale);
    HingeRises(now, now, band, scale);
    if was <= now {
      HingeRises(was, now, band, scale);
    } else {
      HingeRises(kNow, now, band, scale);
    }
  }

  /** One rival stays no better than the pick. */
  lemma RivalStaysBehind(o: Options, rule: AngleRule, rows: seq<Row>, k: nat, x: real, i: nat)
    requires WellPosed(o, rule, rows) && Sound(o, rule, rows) && EligibleAt(o, rows, k) && EligibleAt(o, rows, i)
    requires rows[k].pair.Read? && rows[k].pair.value <= x
    requires NoWorse(o, rule, rows, k, i)
    ensures var after := WithPair(rows, k, x);
            && WellPosed(o, rule, after) && EligibleAt(o, after, k) && EligibleAt(o, after, i)
            && NoWorse(o, rule, after, k, i)
  {
    var after := WithPair(rows, k, x);
    OnlyAgreementMoves(o, rule, rows, k, x, k);
    OnlyAgreementMoves(o, rule, rows, k, x, i);
    if i != k {
      ShortfallsMove(o, rows, k, x, i);
      HingesMove(ShortfallOf(o, rows, rows[k]).value, ShortfallOf(o, after, after[k]).value,
                 ShortfallOf(o, rows, rows[i]).value, ShortfallOf(o, after, after[i]).value,
                 o.agreementBand, o.agreementScale);
      RestIsNonnegative(o, rule, rows, k);
      RestIsNonnegative(o, rule, rows, i);
      OrderOfCosts(FactorsOf(o, rule, rows, k), FactorsOf(o, rule, rows, i),
                   AgreementOf(o, after, after[k]), AgreementOf(o, after, after[i]));
    }
  }

  /** Raising only the picked row's own pair agreement never un-picks it, though it moves the best
      agreement and what rows with no reading are charged. */
  lemma BetterAgreementKeepsThePick(o: Options, rule: AngleRule, rows: seq<Row>, k: nat, x: real)
    requires WellPosed(o, rule, rows) && Sound(o, rule, rows) && IsPick(o, rule, rows, View(k))
    requires rows[k].pair.Read? && rows[k].pair.value <= x
    ensures WellPosed(o, rule, WithPair(rows, k, x)) && IsPick(o, rule, WithPair(rows, k, x), View(k))
  {
    var after := WithPair(rows, k, x);
    OnlyAgreementMoves(o, rule, rows, k, x, k);
    forall j: nat | EligibleAt(o, after, j) ensures NoWorse(o, rule, after, k, j) {
      assert EligibleAt(o, rows, j);
      RivalStaysBehind(o, rule, rows, k, x, j);
    }
  }

  // ----- cleaner own readings -----

  /** No further short of coverage, no larger cell deficit, no larger clipped share; the rest alike. */
  ghost predicate Cleaner(o: Options, row: Row, was: Row) {
    && Eligible(o, row) && Eligible(o, was)
    && row == was.(coverage := row.coverage, cellDeficit := row.cellDeficit, clipped := row.clipped)
    && was.coverage.value <= row.coverage.value
    && (if was.cellDeficit.Read? then row.cellDeficit.Unread? || row.cellDeficit.value <= was.cellDeficit.value
        else row.cellDeficit.Unread?)
    && (if was.clipped.Read? then row.clipped.Unread? || row.clipped.value <= was.clipped.value
        else row.clipped.Unread?)
  }

  lemma ReadHingeRises(x: Reading, y: Reading, band: real, scale: real)
    requires scale > 0.0 && (if y.Read? then x.Unread? || x.value <= y.value else x.Unread?)
    ensures 1.0 <= ReadHinge(x, band, scale) <= ReadHinge(y, band, scale)
  {
    HingeIsAtLeastOne(x, band, scale);
    HingeIsAtLeastOne(y, band, scale);
    if x.Read? {
      HingeRises(x.value, y.value, band, scale);
    }
  }

  /** Cleaner readings of one row move no row's radius, angle or agreement. */
  lemma OthersStay(o: Options, rule: AngleRule, rows: seq<Row>, k: nat, row: Row, i: nat)
    requires WellPosed(o, rule, rows) && k < |rows| && Cleaner(o, row, rows[k]) && EligibleAt(o, rows, i)
    ensures var after := rows[k := row];
            && WellPosed(o, rule, after) && EligibleAt(o, after, i) && Tie(after[i]) == Tie(rows[i])
            && RadiusOf(o, after, after[i]) == RadiusOf(o, rows, rows[i])
            && CappedOf(o, after, after[i]) == CappedOf(o, rows, rows[i])
            && AngleAt(o, rule, after, i) == AngleAt(o, rule, rows, i)
            && AgreementOf(o, after, after[i]) == AgreementOf(o, rows, rows[i])
  {
    CleanerIsAlike(o, rows, k, row);
    AlikeStays(o, rule, rows, rows[k := row], i);
  }

  /** Two lists of rows with the same rows eligible, and all their readings alike but those of
      coverage, cells and clipping. */
  ghost predicate Alike(o: Options, rows: seq<Row>, after: seq<Row>) {
    && |rows| == |after|
    && forall i :: 0 <= i < |rows| ==>
         && Eligible(o, rows[i]) == Eligible(o, after[i])
         && after[i] == rows[i].(coverage := after[i].coverage, cellDeficit := after[i].cellDeficit,
                                 clipped := after[i].clipped)
  }

  lemma CleanerIsAlike(o: Options, rows: seq<Row>, k: nat, row: Row)
    requires k < |rows| && Cleaner(o, row, rows[k])
    ensures Alike(o, rows, rows[k := row])
  {
  }

  lemma AlikeStays(o: Options, rule: AngleRule, rows: seq<Row>, after: seq<Row>, i: nat)
    requires WellPosed(o, rule, rows) && Alike(o, rows, after) && EligibleAt(o, rows, i)
    ensures WellPosed(o, rule, after) && EligibleAt(o, after, i) && Tie(after[i]) == Tie(rows[i])
    ensures RadiusOf(o, after, after[i]) == RadiusOf(o, rows, rows[i])
    ensures CappedOf(o, after, after[i]) == CappedOf(o, rows, rows[i])
    ensures AngleAt(o, rule, after, i) == AngleAt(o, rule, rows, i)
    ensures AgreementOf(o, after, after[i]) == AgreementOf(o, rows, rows[i])
  {
    SightsStay(o, rows, after);
    CapStays(o, rows, after);
    AgreementStays(o, rows, after, i);
  }

  lemma AgreementStays(o: Options, rows: seq<Row>, after: seq<Row>, i: nat)
    requires ScalesNonzero(o) && Alike(o, rows, after) && i < |rows|
    ensures AgreementOf(o, after, after[i]) == AgreementOf(o, rows, rows[i])
  {
    AmongSame(o, rows, after, Pair);
    AmongSame(o, rows, after, ShortfallFrom(BestPair(o, rows)));
  }

  lemma ThreeFactorsFall(base: real, a: real, b: real, c: real, a': real, b': real, c': real)
    requires base >= 0.0 && 1.0 <= a' <= a && 1.0 <= b' <= b && 1.0 <= c' <= c
    ensures base * a' * b' * c' <= base * a * b * c
  {
    ScaleRises(base, a', a);
    ScaleRises(base * a', b', b);
    ScaleRises(b, base * a', base * a);
    ProductIsNonnegative(base, a', b');
    ScaleRises(base * a' * b', c', c);
    ScaleRises(c, base * a' * b', base * a * b);
  }

  lemma CleanerCostsNoMore(o: Options, rule: AngleRule, rows: seq<Row>, k: nat, row: Row)
    requires WellPosed(o, rule, rows) && Sound(o, rule, rows) && EligibleAt(o, rows, k) && Cleaner(o, row, rows[k])
    ensures WellPosed(o, rule, rows[k := row]) && EligibleAt(o, rows[k := row], k)
    ensures CostAt(o, rule, rows[k := row], k) <= CostAt(o, rule, rows, k)
  {
    CleanerFactors(o, rule, rows, k, row);
    RadiusIsNonnegative(o, rule, rows, k);
    HingeIsAtLeastOne(ShortfallOf(o, rows, rows[k]), o.agreementBand, o.agreementScale);
    SmallerFactorsCostLess(FactorsOf(o, rule, rows, k), FactorsOf(o, rule, rows[k := row], k));
  }

  lemma CleanerFactors(o: Options, rule: AngleRule, rows: seq<Row>, k: nat, row: Row)
    requires WellPosed(o, rule, rows) && Sound(o, rule, rows) && EligibleAt(o, rows, k) && Cleaner(o, row, rows[k])
    ensures WellPosed(o, rule, rows[k := row]) && EligibleAt(o, rows[k := row], k)
    ensures FactorsFall(FactorsOf(o, rule, rows, k), FactorsOf(o, rule, rows[k := row], k))
  {
    OthersStay(o, rule, rows, k, row, k);
    ReadHingeRises(row.cellDeficit, rows[k].cellDeficit, o.deficitBand, o.deficitScale);
    ReadHingeRises(row.clipped, rows[k].clipped, o.clippedBand, o.clippedScale);
    HingeRises(o.coverageBand - row.coverage.value, o.coverageBand - rows[k].coverage.value, 0.0, o.coverageScale);
  }

  /** Only the last three factors differ, none of them up or below one. */
  ghost predicate FactorsFall(was: Factors, now: Factors) {
    && now == was.(cells := now.cells, coverage := now.coverage, clipped := now.clipped)
    && 1.0 <= now.cells <= was.cells && 1.0 <= now.coverage <= was.coverage && 1.0 <= now.clipped <= was.clipped
  }

  lemma SmallerFactorsCostLess(was: Factors, now: Factors)
    requires was.radius >= 0.0 && was.capped >= 0.0 && was.angle >= 0.0 && was.agreement >= 0.0
    requires FactorsFall(was, now)
    ensures now.Cost() <= was.Cost()
  {
    ProductIsNonnegative(was.radius, was.capped, was.angle);
    ProductIsNonnegative(was.radius * was.capped * was.angle, was.agreement, 1.0);
    ThreeFactorsFall(was.radius * was.capped * was.angle * was.agreement,
                     was.cells, was.coverage, was.clipped, now.cells, now.coverage, now.clipped);
  }

  /** Better coverage, a smaller cell deficit or a smaller clipped share of the picked row's own never
      un-picks it. */
  lemma CleanerReadingsKeepThePick(o: Options, rule: AngleRule, rows: seq<Row>, k: nat, row: Row)
    requires WellPosed(o, rule, rows) && Sound(o, rule, rows) && IsPick(o, rule, rows, View(k))
    requires Cleaner(o, row, rows[k])
    ensures WellPosed(o, rule, rows[k := row]) && IsPick(o, rule, rows[k := row], View(k))
  {
    var after := rows[k := row];
    CleanerCostsNoMore(o, rule, rows, k, row);
    forall j: nat | EligibleAt(o, after, j) ensures NoWorse(o, rule, after, k, j) {
      assert EligibleAt(o, rows, j);
      OthersStay(o, rule, rows, k, row, j);
      if j != k {
        RivalCostStays(o, rule, rows, k, row, j);
      }
    }
  }

  lemma RivalCostStays(o: Options, rule: AngleRule, rows: seq<Row>, k: nat, row: Row, j: nat)
    requires WellPosed(o, rule, rows) && k < |rows| && Cleaner(o, row, rows[k]) && EligibleAt(o, rows, j) && j != k
    ensures WellPosed(o, rule, rows[k := row]) && EligibleAt(o, rows[k := row], j)
    ensures CostAt(o, rule, rows[k := row], j) == CostAt(o, rule, rows, j)
  {
    OthersStay(o, rule, rows, k, row, j);
    assert FactorsOf(o, rule, rows[k := row], j) == FactorsOf(o, rule, rows, j);
  }
}
