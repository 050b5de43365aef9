/** The angle factor of each view of a track, in the rule's form and in the three it was chosen from
    (scripts/reference_view/analyze.py:261-298, 342-351 and 363-369). Tangents, powers of secants,
    angles between rays and hypotenuses are parameters. */
module AngleForms {
  import opened Arrays
  import opened RealProducts

  /** A finite reading, or none. */
  datatype Reading = Read(value: real) | Unread

  datatype Ray = NoRay | Ray(x: real, y: real, z: real)

  /** What a form reads of a view; its radius with the fallback for an unread one. */
  datatype Sight = Sight(eligible: bool, angle: Reading, ray: Ray, radius: real)

  /** T, C, M and Q, the last with the spread its patch size and normal noise give. */
  datatype Form = Tangent(weight: real) | Secant(power: real) | RayMedian(weight: real) | Quadrature(spread: real)

  datatype Optics = Optics(tan: real -> real, secant: (real, real) -> real, between: (Ray, Ray) -> real,
                           hypot: (real, real) -> real)

  datatype AngleRule = AngleRule(form: Form, optics: Optics)

  // ----- the largest reading -----

  /** The largest of the readings there are. */
  function Largest(xs: seq<Reading>): Reading {
    if |xs| == 0 then Unread
    else
      var before, last := Largest(xs[..|xs| - 1]), xs[|xs| - 1];
      if before.Unread? then last else if last.Unread? then before else Read(MaxR(before.value, last.value))
  }

  ghost predicate IsLargest(xs: seq<Reading>, top: Reading) {
    && (top.Unread? <==> forall i :: 0 <= i < |xs| ==> xs[i].Unread?)
    && (top.Read? ==> exists i :: 0 <= i < |xs| && xs[i] == top)
    && (forall i :: 0 <= i < |xs| && xs[i].Read? ==> top.Read? && xs[i].value <= top.value)
  }

  lemma {:induction false} LargestIsLargest(xs: seq<Reading>)
    ensures IsLargest(xs, Largest(xs))
  {
    if |xs| > 0 {
      var front := xs[..|xs| - 1];
      LargestIsLargest(front);
      assert xs[|xs| - 1] == xs[|front|];
      forall i | 0 <= i < |xs| ensures i < |front| ==> xs[i] == front[i] {
      }
      if Largest(front).Read? {
        var i :| 0 <= i < |front| && front[i] == Largest(front);
        assert xs[i] == front[i];
      }
    }
  }

  // ----- the median -----

  function Rising(): (real, real) -> bool { (a: real, b: real) => a <= b }

  /** numpy's median: the middle of the sorted values, or the mean of the two middle ones. */
  function Median(xs: seq<real>): real
    requires |xs| > 0
  {
    var sorted := StableSort(Rising(), xs);
    var mid := |xs| / 2;
    if |xs| % 2 == 1 then sorted[mid] else (sorted[mid - 1] + sorted[mid]) / 2.0
  }

  /** The median lies between any bounds of the values. */
  lemma MedianIsBetween(xs: seq<real>, lo: real, hi: real)
    requires |xs| > 0 && forall x :: x in xs ==> lo <= x <= hi
    ensures lo <= Median(xs) <= hi
  {
    var sorted := StableSort(Rising(), xs);
    SortMembers(Rising(), xs);
    assert sorted[|xs| / 2] in sorted;
    assert |xs| % 2 == 0 ==> sorted[|xs| / 2 - 1] in sorted;
  }

  ghost predicate InOrder(s: seq<real>) {
    forall i, j :: 0 <= i < j < |s| ==> s[i] <= s[j]
  }

  lemma FirstIsLeast(s: seq<real>, x: real)
    requires InOrder(s) && x in multiset(s)
    ensures |s| > 0 && s[0] <= x
  {
    assert x in s;
  }

  lemma SameHead(s: seq<real>, t: seq<real>)
    requires InOrder(s) && InOrder(t) && multiset(s) == multiset(t) && |s| > 0
    ensures |t| > 0 && s[0] == t[0]
  {
    assert s[0] in s && s[0] in multiset(s);
    FirstIsLeast(t, s[0]);
    assert t[0] in t && t[0] in multiset(t);
    FirstIsLeast(s, t[0]);
  }

  lemma RestOf(s: seq<real>)
    requires |s| > 0
    ensures multiset(s[1..]) == multiset(s) - multiset{s[0]}
  {
    assert s == [s[0]] + s[1..];
  }

  lemma {:induction false} SortedIsUnique(s: seq<real>, t: seq<real>)
    requires InOrder(s) && InOrder(t) && multiset(s) == multiset(t)
    ensures s == t
  {
    if |s| == 0 {
      assert |multiset(t)| == 0;
    } else {
      SameHead(s, t);
      RestOf(s);
      RestOf(t);
      SortedIsUnique(s[1..], t[1..]);
      assert s == [s[0]] + s[1..] && t == [t[0]] + t[1..];
    }
  }

  /** Of the values put in order any way, the median is the middle one, or midway between the middle two. */
  lemma MedianIsMiddle(xs: seq<real>, sorted: seq<real>)
    requires |xs| > 0 && multiset(sorted) == multiset(xs)
    requires InOrder(sorted)
    ensures |sorted| == |xs|
    ensures |xs| % 2 == 1 ==> Median(xs) == sorted[(|xs| - 1) / 2]
    ensures |xs| % 2 == 0 ==> 2.0 * Median(xs) == sorted[|xs| / 2 - 1] + sorted[|xs| / 2]
  {
    assert |sorted| == |multiset(sorted)| == |multiset(xs)| == |xs|;
    SortMultiset(Rising(), xs);
    SortSorted(Rising(), xs);
    assert InOrder(StableSort(Rising(), xs));
    SortedIsUnique(StableSort(Rising(), xs), sorted);
  }

  /** The angles from view `i`'s ray to the rays of the other eligible ones among the first `n`. */
  function RayAngles(optics: Optics, sights: seq<Sight>, i: nat, n: nat): seq<real>
    requires i < |sights| && n <= |sights|
  {
    if n == 0 then []
    else
      var other := sights[n - 1];
      RayAngles(optics, sights, i, n - 1)
      + (if n - 1 != i && other.eligible && other.ray.Ray? then [optics.between(sights[i].ray, other.ray)] else [])
  }

  function OtherRay(sights: seq<Sight>, i: nat): nat -> bool {
    (j: nat) => j < |sights| && j != i && sights[j].eligible && sights[j].ray.Ray?
  }

  function AngleTo(optics: Optics, sights: seq<Sight>, i: nat): nat -> real
    requires i < |sights|
  {
    (j: nat) => if j < |sights| then optics.between(sights[i].ray, sights[j].ray) else 0.0
  }

  /** They are one for every other eligible view with a ray, in index order. */
  lemma {:induction false} RayAnglesAre(optics: Optics, sights: seq<Sight>, i: nat, n: nat)
    requires i < |sights| && n <= |sights|
    ensures RayAngles(optics, sights, i, n)
         == Map<nat, real>(AngleTo(optics, sights, i), Select(OtherRay(sights, i), 0, n))
  {
    if n > 0 {
      RayAnglesAre(optics, sights, i, n - 1);
      var before := Select(OtherRay(sights, i), 0, n - 1);
      MapAppend<nat, real>(AngleTo(optics, sights, i), before, [n - 1]);
    }
  }

  function MedianAngle(optics: Optics, sights: seq<Sight>, i: nat): real
    requires i < |sights|
  {
    var others := RayAngles(optics, sights, i, |sights|);
    if |others| == 0 then 0.0 else Median(others)
  }

  // ----- the factors -----

  /** A view's own factor, or its own term of the quadrature. */
  function OwnTerm(rule: AngleRule, sights: seq<Sight>, i: nat): Reading
    requires i < |sights|
  {
    var angle := sights[i].angle;
    match rule.form
    case Tangent(weight) =>
      if angle.Read? then Read(1.0 + weight * rule.optics.tan(MaxR(angle.value, 0.0))) else Unread
    case Secant(power) =>
      if angle.Read? then Read(rule.optics.secant(MaxR(angle.value, 0.0), power)) else Unread
    case RayMedian(weight) =>
      if sights[i].ray.Ray? then Read(1.0 + weight * rule.optics.tan(MedianAngle(rule.optics, sights, i))) else Unread
    case Quadrature(spread) =>
      if angle.Read? then Read(spread * rule.optics.tan(MaxR(angle.value, 0.0))) else Unread
  }

  function Terms(rule: AngleRule, sights: seq<Sight>): (r: seq<Reading>)
    ensures |r| == |sights|
    ensures forall i {:trigger r[i]} :: 0 <= i < |r| ==>
              r[i] == if sights[i].eligible then OwnTerm(rule, sights, i) else Unread
  {
    seq(|sights|, i requires 0 <= i < |sights| => if sights[i].eligible then OwnTerm(rule, sights, i) else Unread)
  }

  /** The own term, or the largest there is, or what the form takes where there is none. */
  function TermAt(rule: AngleRule, sights: seq<Sight>, i: nat): real
    requires i < |sights|
  {
    var own, top := OwnTerm(rule, sights, i), Largest(Terms(rule, sights));
    if own.Read? then own.value
    else if top.Read? then top.value
    else if rule.form.Quadrature? then 0.0 else 1.0
  }

  /** The quadrature divides by the radius. */
  predicate Formable(rule: AngleRule, sights: seq<Sight>) {
    rule.form.Quadrature? ==> forall i :: 0 <= i < |sights| && sights[i].eligible ==> sights[i].radius != 0.0
  }

  function FactorAt(rule: AngleRule, sights: seq<Sight>, i: nat): real
    requires Formable(rule, sights) && i < |sights| && sights[i].eligible
  {
    if rule.form.Quadrature? then rule.optics.hypot(sights[i].radius, TermAt(rule, sights, i)) / sights[i].radius
    else TermAt(rule, sights, i)
  }

  /** The term of a view that can be read: `1 + k tan a` of its own angle, a power of that angle's secant,
      `1 + k tan m` of the median angle of its ray to the others', 0 with no other, or the spread times
      `tan a`; an angle below zero counting as zero. */
  lemma {:induction false} TermSays(rule: AngleRule, sights: seq<Sight>, i: nat)
    requires i < |sights|
    ensures var angle, term, optics := sights[i].angle, OwnTerm(rule, sights, i), rule.optics;
            var others := RayAngles(optics, sights, i, |sights|);
            && (term.Read? <==> if rule.form.RayMedian? then sights[i].ray.Ray? else angle.Read?)
            && (term.Read? ==>
                  match rule.form
                  case Tangent(weight) =>
                    term.value - 1.0 == weight * optics.tan(if angle.value > 0.0 then angle.value else 0.0)
                  case Secant(power) =>
                    term.value == optics.secant(if angle.value > 0.0 then angle.value else 0.0, power)
                  case RayMedian(weight) =>
                    term.value - 1.0 == weight * optics.tan(if |others| > 0 then Median(others) else 0.0)
                  case Quadrature(spread) =>
                    term.value == spread * optics.tan(if angle.value > 0.0 then angle.value else 0.0))
  {
  }

  /** View `j` is eligible, can be read, and has the largest term of those. */
  ghost predicate HasLargestTerm(rule: AngleRule, sights: seq<Sight>, j: nat) {
    && j < |sights| && sights[j].eligible && OwnTerm(rule, sights, j).Read?
    && (forall m: nat :: m < |sights| && sights[m].eligible && OwnTerm(rule, sights, m).Read? ==>
          OwnTerm(rule, sights, m).value <= OwnTerm(rule, sights, j).value)
  }

  /** A view takes its own term; one that cannot be read the largest there is, or with none at all what
      leaves its factor at one. */
  lemma FallbackSays(rule: AngleRule, sights: seq<Sight>, i: nat, j: nat)
    requires i < |sights|
    ensures var own, term := OwnTerm(rule, sights, i), TermAt(rule, sights, i);
            && (own.Read? ==> term == own.value)
            && (own.Unread? && HasLargestTerm(rule, sights, j) ==> term == OwnTerm(rule, sights, j).value)
            && (own.Unread? && (forall m: nat :: m < |sights| && sights[m].eligible ==>
                                  OwnTerm(rule, sights, m).Unread?) ==>
                  term == if rule.form.Quadrature? then 0.0 else 1.0)
  {
    var terms := Terms(rule, sights);
    LargestIsLargest(terms);
    if HasLargestTerm(rule, sights, j) {
      assert terms[j] == OwnTerm(rule, sights, j);
      var top :| 0 <= top < |terms| && terms[top] == Largest(terms);
      assert sights[top].eligible && terms[top] == OwnTerm(rule, sights, top);
    }
  }

  /** The factor is the term, and under the quadrature the hypotenuse over radius and term per radius. */
  lemma FactorSays(rule: AngleRule, sights: seq<Sight>, i: nat)
    requires Formable(rule, sights) && i < |sights| && sights[i].eligible
    ensures var term, radius := TermAt(rule, sights, i), sights[i].radius;
            && (!rule.form.Quadrature? ==> FactorAt(rule, sights, i) == term)
            && (rule.form.Quadrature? ==> FactorAt(rule, sights, i) * radius == rule.optics.hypot(radius, term))
  {
  }

  // ----- what the forms promise -----

  /** In every form a view that cannot be read takes at least the term of any view that can. */
  lemma UnreadTakesLargestTerm(rule: AngleRule, sights: seq<Sight>, unread: nat, i: nat)
    requires unread < |sights| && sights[unread].eligible && i < |sights| && sights[i].eligible
    requires OwnTerm(rule, sights, unread).Unread? && OwnTerm(rule, sights, i).Read?
    ensures TermAt(rule, sights, i) <= TermAt(rule, sights, unread)
  {
    LargestIsLargest(Terms(rule, sights));
    assert Terms(rule, sights)[i] == OwnTerm(rule, sights, i);
  }

  /** In the three forms whose terms are the factors, a view that cannot be read is charged at least
      what any view that can is. */
  lemma UnreadIsChargedMost(rule: AngleRule, sights: seq<Sight>, unread: nat, i: nat)
    requires !rule.form.Quadrature? && unread < |sights| && sights[unread].eligible && i < |sights|
    requires sights[i].eligible
    requires OwnTerm(rule, sights, unread).Unread? && OwnTerm(rule, sights, i).Read?
    ensures FactorAt(rule, sights, i) <= FactorAt(rule, sights, unread)
  {
    UnreadTakesLargestTerm(rule, sights, unread, i);
  }

  /** `h` is the hypotenuse over legs `x` and `y`. */
  predicate IsHypotenuse(h: real, x: real, y: real) {
    h >= 0.0 && h * h == x * x + y * y
  }

  /** The quadrature's hypotenuse at a view is one, its radius is positive and its term not negative. */
  ghost predicate IsQuadrature(rule: AngleRule, sights: seq<Sight>, i: nat) {
    && rule.form.Quadrature? && i < |sights| && sights[i].eligible
    && sights[i].radius > 0.0 && TermAt(rule, sights, i) >= 0.0
    && IsHypotenuse(rule.optics.hypot(sights[i].radius, TermAt(rule, sights, i)),
                    sights[i].radius, TermAt(rule, sights, i))
  }

  /** The quadrature orders two views as their terms per radius. */
  lemma QuadratureOrder(rule: AngleRule, sights: seq<Sight>, i: nat, j: nat)
    requires Formable(rule, sights) && IsQuadrature(rule, sights, i) && IsQuadrature(rule, sights, j)
    ensures FactorAt(rule, sights, i) <= FactorAt(rule, sights, j)
       <==> TermAt(rule, sights, i) / sights[i].radius <= TermAt(rule, sights, j) / sights[j].radius
  {
    var r, t, s, u := sights[i].radius, TermAt(rule, sights, i), sights[j].radius, TermAt(rule, sights, j);
    var h, g := rule.optics.hypot(r, t), rule.optics.hypot(s, u);
    QuotientOrder(h, r, g, s);
    QuotientOrder(t, r, u, s);
    LegsOrder(h, r, t, g, s, u);
  }

  lemma QuotientOrder(x: real, a: real, y: real, b: real)
    requires a > 0.0 && b > 0.0
    ensures x / a <= y / b <==> x * b <= y * a
  {
    var p, q := x / a, y / b;
    assert p * a == x && q * b == y;
    ProductSign(a, b);
    ProductOrder(p, q, a * b);
    assert p * (a * b) == x * b && q * (a * b) == y * a;
  }

  lemma LegsOrder(h: real, r: real, t: real, g: real, s: real, u: real)
    requires r > 0.0 && t >= 0.0 && s > 0.0 && u >= 0.0 && IsHypotenuse(h, r, t) && IsHypotenuse(g, s, u)
    ensures h * s <= g * r <==> t * s <= u * r
  {
    SquareOrder(h, s, g, r);
    SquareOrder(t, s, u, r);
    SquareOfLegs(h, r, t, s);
    SquareOfLegs(g, s, u, r);
  }

  lemma SquareOfLegs(h: real, r: real, t: real, s: real)
    requires IsHypotenuse(h, r, t)
    ensures h * h * (s * s) == r * r * (s * s) + t * t * (s * s)
  {
  }

  lemma SquareOrder(x: real, a: real, y: real, b: real)
    requires x >= 0.0 && a >= 0.0 && y >= 0.0 && b >= 0.0
    ensures x * a <= y * b <==> x * x * (a * a) <= y * y * (b * b)
  {
    ProductSign(x, a);
    ProductSign(y, b);
    SquareOrderOf(x * a, y * b);
    SquareOfProduct(x, a);
    SquareOfProduct(y, b);
  }

  lemma SquareOfProduct(x: real, a: real)
    ensures x * a * (x * a) == x * x * (a * a)
  {
    assert x * a * (x * a) == x * (a * (x * a));
    assert a * (x * a) == x * (a * a);
    assert x * (x * (a * a)) == x * x * (a * a);
  }

  lemma SquareOrderOf(p: real, q: real)
    requires p >= 0.0 && q >= 0.0
    ensures p <= q <==> p * p <= q * q
  {
    if p <= q {
      SquareRises(p, q);
    } else {
      SquareRises(q, p);
    }
  }

  lemma SquareRises(p: real, q: real)
    requires 0.0 <= p <= q
    ensures p * p <= q * q && (p < q ==> p * p < q * q)
  {
    ProductSign(q - p, q + p);
    DifferenceOfSquares(q, p);
  }

  lemma DifferenceOfSquares(p: real, q: real)
    ensures (p - q) * (p + q) == p * p - q * q
  {
  }

  /** The quadrature charges an unread view at least what it charges a read one of no smaller radius. */
  lemma QuadratureChargesUnread(rule: AngleRule, sights: seq<Sight>, unread: nat, i: nat)
    requires Formable(rule, sights) && IsQuadrature(rule, sights, unread) && IsQuadrature(rule, sights, i)
    requires OwnTerm(rule, sights, unread).Unread? && OwnTerm(rule, sights, i).Read?
    requires sights[unread].radius <= sights[i].radius
    ensures FactorAt(rule, sights, i) <= FactorAt(rule, sights, unread)
  {
    var t, u := TermAt(rule, sights, i), TermAt(rule, sights, unread);
    UnreadTakesLargestTerm(rule, sights, unread, i);
    QuadratureOrder(rule, sights, i, unread);
    QuotientOrder(t, sights[i].radius, u, sights[unread].radius);
    ProductRises(t, u, sights[unread].radius, sights[i].radius);
  }

  /** The hypotenuses over legs 5 and 12, and 9 and 12. */
  function HypotOverTwelve(x: real, y: real): real {
    if x == 5.0 then 13.0 else 15.0
  }

  /** With a larger radius an unread view can come out cheaper: radius 9 and no angle, against radius 5
      and a term of 12 at 45 degrees, where the tangent is 1. */
  lemma QuadratureCanChargeUnreadLess() returns (rule: AngleRule, sights: seq<Sight>)
    ensures |sights| == 2 && Formable(rule, sights) && IsQuadrature(rule, sights, 0) && IsQuadrature(rule, sights, 1)
    ensures OwnTerm(rule, sights, 0).Unread? && OwnTerm(rule, sights, 1).Read?
    ensures FactorAt(rule, sights, 0) < FactorAt(rule, sights, 1)
  {
    var optics := Optics((a: real) => 1.0, (a: real, power: real) => 1.0, (a: Ray, b: Ray) => 0.0, HypotOverTwelve);
    rule := AngleRule(Quadrature(12.0), optics);
    sights := [Sight(true, Unread, NoRay, 9.0), Sight(true, Read(45.0), NoRay, 5.0)];
    LargestIsLargest(Terms(rule, sights));
    assert OwnTerm(rule, sights, 1) == Read(12.0);
    assert Terms(rule, sights)[1] == Read(12.0) && Terms(rule, sights)[0] == Unread;
    assert TermAt(rule, sights, 0) == TermAt(rule, sights, 1) == 12.0;
  }

  lemma TangentIsAtLeastOne(rule: AngleRule, sights: seq<Sight>, i: nat)
    requires rule.form.Tangent? && rule.form.weight >= 0.0 && i < |sights|
    requires forall a :: 0.0 <= a < 90.0 ==> rule.optics.tan(a) >= 0.0
    requires sights[i].angle.Read? ==> sights[i].angle.value < 90.0
    ensures OwnTerm(rule, sights, i).Read? ==> OwnTerm(rule, sights, i).value >= 1.0
  {
    if sights[i].angle.Read? {
      ProductSign(rule.form.weight, rule.optics.tan(MaxR(sights[i].angle.value, 0.0)));
    }
  }

  /** The rule's own form never makes a view cheaper than its radius. */
  lemma RuleFormIsAtLeastOne(rule: AngleRule, sights: seq<Sight>, i: nat)
    requires rule.form.Tangent? && rule.form.weight >= 0.0 && i < |sights| && sights[i].eligible
    requires forall a :: 0.0 <= a < 90.0 ==> rule.optics.tan(a) >= 0.0
    requires forall j :: 0 <= j < |sights| && sights[j].eligible && sights[j].angle.Read? ==>
               sights[j].angle.value < 90.0
    ensures FactorAt(rule, sights, i) >= 1.0
  {
    var terms := Terms(rule, sights);
    LargestIsLargest(terms);
    forall j | 0 <= j < |sights| && terms[j].Read? ensures terms[j].value >= 1.0 {
      TangentIsAtLeastOne(rule, sights, j);
    }
    TangentIsAtLeastOne(rule, sights, i);
  }

  lemma {:induction false} NoAngleBetween(optics: Optics, sights: seq<Sight>, i: nat, n: nat)
    requires i < |sights| && n <= |sights| && sights[i].eligible && sights[i].ray.Ray?
    requires forall r :: optics.between(r, r) == 0.0
    requires forall j :: 0 <= j < |sights| && sights[j].eligible && sights[j].ray.Ray? ==>
               sights[j].ray == sights[i].ray
    ensures forall x :: x in RayAngles(optics, sights, i, n) ==> x == 0.0
  {
    if n > 0 {
      NoAngleBetween(optics, sights, i, n - 1);
    }
  }

  /** A patch at infinity, seen along one bearing by every view, costs nothing for its rays. */
  lemma OneBearingCostsNothing(rule: AngleRule, sights: seq<Sight>, bearing: Ray, i: nat)
    requires rule.form.RayMedian? && i < |sights| && sights[i].eligible
    requires rule.optics.tan(0.0) == 0.0 && forall r :: rule.optics.between(r, r) == 0.0
    requires forall j :: 0 <= j < |sights| && sights[j].eligible && sights[j].ray.Ray? ==> sights[j].ray == bearing
    ensures FactorAt(rule, sights, i) == 1.0
  {
    var terms := Terms(rule, sights);
    LargestIsLargest(terms);
    forall j | 0 <= j < |sights| && sights[j].eligible && sights[j].ray.Ray?
      ensures OwnTerm(rule, sights, j) == Read(1.0)
    {
      BearingTerm(rule, sights, j);
    }
    if terms[i].Unread? && Largest(terms).Read? {
      var top :| 0 <= top < |terms| && terms[top] == Largest(terms);
    }
  }

  lemma BearingTerm(rule: AngleRule, sights: seq<Sight>, j: nat)
    requires rule.form.RayMedian? && j < |sights| && sights[j].eligible && sights[j].ray.Ray?
    requires rule.optics.tan(0.0) == 0.0 && forall r :: rule.optics.between(r, r) == 0.0
    requires forall k :: 0 <= k < |sights| && sights[k].eligible && sights[k].ray.Ray? ==>
               sights[k].ray == sights[j].ray
    ensures OwnTerm(rule, sights, j) == Read(1.0)
  {
    var others := RayAngles(rule.optics, sights, j, |sights|);
    NoAngleBetween(rule.optics, sights, j, |sights|);
    if |others| > 0 {
      MedianIsBetween(others, 0.0, 0.0);
    }
  }
}
