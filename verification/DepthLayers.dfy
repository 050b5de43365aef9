/** Grouping anchors into depth layers by a sweep over their distance ranges
    (scripts/track_at_pixel/anchors.py:847-848, 929-930, 1731-1743 and 1841-1858).

    The sweep's layers are the connected components of the "ranges overlap" relation on the usable
    anchors, each carrying the hull of its members' ranges. */
module DepthLayers {
  import opened Arrays
  import opened Chains
  import opened ExtendedReals

  datatype Anchor = Anchor(near: real, far: Ext, bounded: bool, isFar: bool, views: set<int>) {
    predicate Usable() { bounded || isFar }
  }

  datatype Layer = Layer(near: real, far: Ext, anchors: seq<nat>)

  predicate Overlap(a: Anchor, b: Anchor) {
    Fin(a.near).Le(b.far) && Fin(b.near).Le(a.far)
  }

  predicate UsableAt(anchors: seq<Anchor>, k: nat) {
    k < |anchors| && anchors[k].Usable()
  }

  ghost predicate RangesOrdered(anchors: seq<Anchor>) {
    forall k :: 0 <= k < |anchors| ==> Fin(anchors[k].near).Le(anchors[k].far)
  }

  // ----- chains of overlapping ranges -----

  ghost predicate Link(anchors: seq<Anchor>, i: nat, j: nat) {
    UsableAt(anchors, i) && UsableAt(anchors, j) && Overlap(anchors[i], anchors[j])
  }

  ghost function Overlapping(anchors: seq<Anchor>): (nat, nat) -> bool {
    (i: nat, j: nat) => Link(anchors, i, j)
  }

  // ----- what the sweep promises -----

  ghost predicate MemberOf(layers: seq<Layer>, n: nat, k: nat) {
    n < |layers| && k in layers[n].anchors
  }

  /** Every member is usable and lies in the layer's range, and both ends are some member's. */
  ghost predicate IsHull(anchors: seq<Anchor>, layer: Layer) {
    && |layer.anchors| > 0
    && (forall k :: k in layer.anchors ==>
          UsableAt(anchors, k) && layer.near <= anchors[k].near && anchors[k].far.Le(layer.far))
    && (exists k :: k in layer.anchors && UsableAt(anchors, k) && anchors[k].near == layer.near)
    && (exists k :: k in layer.anchors && UsableAt(anchors, k) && anchors[k].far == layer.far)
  }

  ghost predicate DisjointAscending(layers: seq<Layer>) {
    forall n, m :: 0 <= n < m < |layers| ==> layers[n].far.Lt(Fin(layers[m].near))
  }

  function Members(layers: seq<Layer>): seq<nat> {
    if |layers| == 0 then [] else Members(layers[..|layers| - 1]) + layers[|layers| - 1].anchors
  }

  lemma {:induction false} MembersAre(layers: seq<Layer>, k: nat)
    ensures k in Members(layers) <==> exists n :: MemberOf(layers, n, k)
  {
    if |layers| > 0 {
      var front, last := layers[..|layers| - 1], |layers| - 1;
      MembersAre(front, k);
      if k in Members(front) {
        var n :| MemberOf(front, n, k);
        assert MemberOf(layers, n, k);
      } else if k in layers[last].anchors {
        assert MemberOf(layers, last, k);
      } else if exists n :: MemberOf(layers, n, k) {
        var n :| MemberOf(layers, n, k);
        assert MemberOf(front, n, k);
      }
    }
  }

  lemma {:induction false} MembersOfLonger(layers: seq<Layer>, layer: Layer)
    ensures Members(layers + [layer]) == Members(layers) + layer.anchors
  {
    assert (layers + [layer])[..|layers|] == layers;
  }

  lemma MembersOfWidened(layers: seq<Layer>, layer: Layer, k: nat)
    requires |layers| > 0 && layer.anchors == layers[|layers| - 1].anchors + [k]
    ensures Members(layers[|layers| - 1 := layer]) == Members(layers) + [k]
  {
    assert layers[|layers| - 1 := layer][..|layers| - 1] == layers[..|layers| - 1];
  }

  /** The usable anchors by near end, as `sorted` orders them. */
  function ByNear(anchors: seq<Anchor>): (nat, nat) -> bool {
    (i: nat, j: nat) => NearOf(anchors, i) <= NearOf(anchors, j)
  }

  function NearOf(anchors: seq<Anchor>, k: nat): real {
    if k < |anchors| then anchors[k].near else 0.0
  }

  function IsUsable(anchors: seq<Anchor>): nat -> bool {
    (k: nat) => UsableAt(anchors, k)
  }

  function SweepOrder(anchors: seq<Anchor>): seq<nat> {
    StableSort(ByNear(anchors), Select(IsUsable(anchors), 0, |anchors|))
  }

  lemma SweepOrderIsUsable(anchors: seq<Anchor>)
    ensures forall k :: k in SweepOrder(anchors) <==> UsableAt(anchors, k)
    ensures forall i, j :: 0 <= i < j < |SweepOrder(anchors)| ==> SweepOrder(anchors)[i] != SweepOrder(anchors)[j]
    ensures forall i, j :: 0 <= i < j < |SweepOrder(anchors)| ==>
              NearOf(anchors, SweepOrder(anchors)[i]) <= NearOf(anchors, SweepOrder(anchors)[j])
  {
    var usable := Select(IsUsable(anchors), 0, |anchors|);
    SelectAscending(IsUsable(anchors), 0, |anchors|);
    SortMembers(ByNear(anchors), usable);
    SortIsStable(ByNear(anchors), usable);
    var order := SweepOrder(anchors);
    forall i, j | 0 <= i < j < |order|
      ensures order[i] != order[j] && NearOf(anchors, order[i]) <= NearOf(anchors, order[j])
    {
      assert ByNear(anchors)(order[i], order[j]);
    }
    forall k ensures k in order <==> UsableAt(anchors, k) {
      if k in usable {
        var i :| 0 <= i < |usable| && usable[i] == k;
        assert IsUsable(anchors)(usable[i]);
      }
      if UsableAt(anchors, k) {
        assert IsUsable(anchors)(k);
      }
    }
  }

  ghost predicate LayerIsConnected(anchors: seq<Anchor>, layer: Layer) {
    |layer.anchors| > 0 && forall k :: k in layer.anchors ==> Connected(Overlapping(anchors), layer.anchors[0], k)
  }

  /** The sweep's state after some of the order: hulls, apart, each held together by chains. */
  ghost predicate SweepState(anchors: seq<Anchor>, layers: seq<Layer>) {
    && (forall n :: 0 <= n < |layers| ==> IsHull(anchors, layers[n]) && LayerIsConnected(anchors, layers[n]))
    && DisjointAscending(layers)
  }

  ghost predicate IsLayering(anchors: seq<Anchor>, layers: seq<Layer>) {
    Members(layers) == SweepOrder(anchors) && SweepState(anchors, layers)
  }

  /** Nothing placed so far starts further than anchor `k`. */
  ghost predicate NoneBeyond(anchors: seq<Anchor>, layers: seq<Layer>, k: nat) {
    forall n :: 0 <= n < |layers| ==> layers[n].near <= NearOf(anchors, k)
  }

  function Widened(anchors: seq<Anchor>, layer: Layer, k: nat): Layer
    requires k < |anchors|
  {
    Layer(layer.near, MaxExt(layer.far, anchors[k].far), layer.anchors + [k])
  }

  lemma ExtendLast(anchors: seq<Anchor>, layers: seq<Layer>, k: nat)
    requires RangesOrdered(anchors) && SweepState(anchors, layers) && UsableAt(anchors, k) && |layers| > 0
    requires layers[|layers| - 1].near <= anchors[k].near && Fin(anchors[k].near).Le(layers[|layers| - 1].far)
    requires forall i :: i in layers[|layers| - 1].anchors ==> NearOf(anchors, i) <= anchors[k].near
    ensures SweepState(anchors, layers[|layers| - 1 := Widened(anchors, layers[|layers| - 1], k)])
  {
    var last := |layers| - 1;
    var l, e := layers[last], Widened(anchors, layers[last], k);
    var lowest :| lowest in l.anchors && UsableAt(anchors, lowest) && anchors[lowest].near == l.near;
    var widest :| widest in l.anchors && UsableAt(anchors, widest) && anchors[widest].far == l.far;
    assert NearOf(anchors, widest) <= anchors[k].near;
    ConnectedStep<nat>(Overlapping(anchors), l.anchors[0], widest, k);
    assert lowest in e.anchors && widest in e.anchors && k in e.anchors;
    assert IsHull(anchors, e);
    assert LayerIsConnected(anchors, e);
  }

  lemma StartLayer(anchors: seq<Anchor>, layers: seq<Layer>, k: nat)
    requires SweepState(anchors, layers) && UsableAt(anchors, k) && NoneBeyond(anchors, layers, k)
    requires |layers| > 0 ==> layers[|layers| - 1].far.Lt(Fin(anchors[k].near))
    requires RangesOrdered(anchors)
    ensures SweepState(anchors, layers + [Layer(anchors[k].near, anchors[k].far, [k])])
  {
    ConnectedSelf<nat>(Overlapping(anchors), k);
    var l := Layer(anchors[k].near, anchors[k].far, [k]);
    assert k in l.anchors;
    assert IsHull(anchors, l) && LayerIsConnected(anchors, l);
    forall n | 0 <= n < |layers| ensures layers[n].far.Lt(Fin(l.near)) {
      HullIsOrdered(anchors, layers[|layers| - 1]);
      assert n < |layers| - 1 ==> layers[n].far.Lt(Fin(layers[|layers| - 1].near));
    }
  }

  lemma HullIsOrdered(anchors: seq<Anchor>, layer: Layer)
    requires RangesOrdered(anchors) && IsHull(anchors, layer)
    ensures Fin(layer.near).Le(layer.far)
  {
    var k :| k in layer.anchors && UsableAt(anchors, k) && anchors[k].near == layer.near;
  }

  ghost predicate InNearOrder(anchors: seq<Anchor>, order: seq<nat>) {
    && (forall i :: 0 <= i < |order| ==> UsableAt(anchors, order[i]))
    && (forall i, j :: 0 <= i < j < |order| ==> NearOf(anchors, order[i]) <= NearOf(anchors, order[j]))
  }

  lemma SweepOrderIsByNear(anchors: seq<Anchor>)
    ensures InNearOrder(anchors, SweepOrder(anchors))
  {
    SweepOrderIsUsable(anchors);
    forall i | 0 <= i < |SweepOrder(anchors)| ensures UsableAt(anchors, SweepOrder(anchors)[i]) {
      assert SweepOrder(anchors)[i] in SweepOrder(anchors);
    }
  }

  lemma {:induction false} LastMembersStartBefore(anchors: seq<Anchor>, order: seq<nat>, layers: seq<Layer>, at: nat)
    requires InNearOrder(anchors, order) && |layers| > 0 && at < |order| && Members(layers) == order[..at]
    ensures forall i :: i in layers[|layers| - 1].anchors ==> NearOf(anchors, i) <= NearOf(anchors, order[at])
  {
    forall i | i in layers[|layers| - 1].anchors ensures NearOf(anchors, i) <= NearOf(anchors, order[at]) {
      assert i in Members(layers);
      var n :| 0 <= n < at && order[n] == i;
    }
  }

  /** The sweep once it has placed the first `at` of the order. */
  ghost predicate Swept(anchors: seq<Anchor>, order: seq<nat>, layers: seq<Layer>, at: nat) {
    && at <= |order| && Members(layers) == order[..at] && SweepState(anchors, layers)
    && (at < |order| ==> NoneBeyond(anchors, layers, order[at]))
  }

  lemma {:induction false} SweptNext(anchors: seq<Anchor>, order: seq<nat>, layers: seq<Layer>, at: nat, k: nat,
                                     next: seq<Layer>)
    requires InNearOrder(anchors, order) && at < |order| && k == order[at] && Members(layers) == order[..at]
    requires SweepState(anchors, next) && Members(next) == Members(layers) + [k] && NoneBeyond(anchors, next, k)
    ensures Swept(anchors, order, next, at + 1)
  {
    assert order[..at + 1] == order[..at] + [k];
  }

  /** An anchor that starts within the last layer widens it. */
  lemma {:induction false} WidenStep(anchors: seq<Anchor>, order: seq<nat>, layers: seq<Layer>, at: nat, k: nat)
    requires RangesOrdered(anchors) && InNearOrder(anchors, order) && Swept(anchors, order, layers, at)
    requires at < |order| && k == order[at] && k < |anchors|
    requires |layers| > 0 && Fin(anchors[k].near).Le(layers[|layers| - 1].far)
    ensures Swept(anchors, order, layers[|layers| - 1 := Widened(anchors, layers[|layers| - 1], k)], at + 1)
  {
    var widened := Widened(anchors, layers[|layers| - 1], k);
    LastMembersStartBefore(anchors, order, layers, at);
    ExtendLast(anchors, layers, k);
    MembersOfWidened(layers, widened, k);
    SweptNext(anchors, order, layers, at, k, layers[|layers| - 1 := widened]);
  }

  /** Any other starts a layer of its own. */
  lemma {:induction false} StartStep(anchors: seq<Anchor>, order: seq<nat>, layers: seq<Layer>, at: nat, k: nat)
    requires RangesOrdered(anchors) && InNearOrder(anchors, order) && Swept(anchors, order, layers, at)
    requires at < |order| && k == order[at] && k < |anchors|
    requires |layers| > 0 ==> !Fin(anchors[k].near).Le(layers[|layers| - 1].far)
    ensures Swept(anchors, order, layers + [Layer(anchors[k].near, anchors[k].far, [k])], at + 1)
  {
    var layer := Layer(anchors[k].near, anchors[k].far, [k]);
    StartLayer(anchors, layers, k);
    MembersOfLonger(layers, layer);
    SweptNext(anchors, order, layers, at, k, layers + [layer]);
  }

  /** The sweep, one anchor at a time by near end, ends on a layering. */
  method Layers(anchors: seq<Anchor>) returns (layers: seq<Layer>)
    requires RangesOrdered(anchors)
    ensures IsLayering(anchors, layers)
  {
    layers := [];
    var order := SweepOrder(anchors);
    SweepOrderIsByNear(anchors);
    for at := 0 to |order|
      invariant Swept(anchors, order, layers, at)
    {
      var k := order[at];
      var a := anchors[k];
      if |layers| > 0 && Fin(a.near).Le(layers[|layers| - 1].far) {
        WidenStep(anchors, order, layers, at, k);
        var l := layers[|layers| - 1];
        layers := layers[|layers| - 1 := Layer(l.near, MaxExt(l.far, a.far), l.anchors + [k])];
      } else {
        StartStep(anchors, order, layers, at, k);
        layers := layers + [Layer(a.near, a.far, [k])];
      }
    }
  }

  // ----- the layers are the components of the overlap relation -----

  /** Every usable anchor is in exactly one layer, once, and no other anchor is in any. */
  lemma {:induction false} EachUsableAnchorOnce(anchors: seq<Anchor>, layers: seq<Layer>)
    requires RangesOrdered(anchors) && IsLayering(anchors, layers)
    ensures forall k :: UsableAt(anchors, k) <==> exists n :: MemberOf(layers, n, k)
    ensures forall n, m, k :: MemberOf(layers, n, k) && MemberOf(layers, m, k) ==> n == m
    ensures forall i, j :: 0 <= i < j < |Members(layers)| ==> Members(layers)[i] != Members(layers)[j]
  {
    SweepOrderIsUsable(anchors);
    forall k: nat ensures UsableAt(anchors, k) <==> exists n :: MemberOf(layers, n, k) {
      MembersAre(layers, k);
    }
    forall n, m, k | MemberOf(layers, n, k) && MemberOf(layers, m, k) ensures n == m {
      InOneLayer(anchors, layers, n, m, k);
    }
  }

  lemma InOneLayer(anchors: seq<Anchor>, layers: seq<Layer>, n: nat, m: nat, k: nat)
    requires SweepState(anchors, layers) && MemberOf(layers, n, k) && MemberOf(layers, m, k)
    requires RangesOrdered(anchors)
    ensures n == m
  {
    OverlapStaysInLayer(anchors, layers, n, m, k, k);
  }

  lemma LayersAreApart(anchors: seq<Anchor>, layers: seq<Layer>, n: nat, m: nat, i: nat, j: nat)
    requires SweepState(anchors, layers) && n < m && MemberOf(layers, n, i) && MemberOf(layers, m, j)
    requires UsableAt(anchors, i) && UsableAt(anchors, j)
    ensures !Overlap(anchors[i], anchors[j]) && !Overlap(anchors[j], anchors[i])
  {
    assert IsHull(anchors, layers[n]) && IsHull(anchors, layers[m]);
  }

  /** Overlapping members are in the same layer: ranges of different layers are apart. */
  lemma OverlapStaysInLayer(anchors: seq<Anchor>, layers: seq<Layer>, n: nat, m: nat, i: nat, j: nat)
    requires SweepState(anchors, layers) && MemberOf(layers, n, i) && MemberOf(layers, m, j) && Link(anchors, i, j)
    ensures n == m
  {
    if n < m {
      LayersAreApart(anchors, layers, n, m, i, j);
    } else if m < n {
      LayersAreApart(anchors, layers, m, n, j, i);
    }
  }

  /** Of two layers the earlier's ranges end before the later's begin. */
  lemma EarlierEndsFirst(anchors: seq<Anchor>, layers: seq<Layer>, n: nat, m: nat, i: nat, j: nat)
    requires RangesOrdered(anchors) && IsLayering(anchors, layers)
    requires n < m && MemberOf(layers, n, i) && MemberOf(layers, m, j)
    ensures i < |anchors| && j < |anchors| && anchors[i].far.Fin? && anchors[i].far.value < anchors[j].near
  {
    assert IsHull(anchors, layers[n]) && IsHull(anchors, layers[m]);
    assert UsableAt(anchors, i) && UsableAt(anchors, j);
    assert layers[n].far.Lt(Fin(layers[m].near));
  }

  /** A layer runs from its members' least near end to their greatest far end, infinity the greatest. */
  lemma LayerRuns(anchors: seq<Anchor>, layers: seq<Layer>, n: nat, k: nat)
    returns (nearest: nat, furthest: nat)
    requires IsLayering(anchors, layers) && MemberOf(layers, n, k)
    ensures MemberOf(layers, n, nearest) && MemberOf(layers, n, furthest)
    ensures k < |anchors| && nearest < |anchors| && furthest < |anchors|
    ensures layers[n].near == anchors[nearest].near <= anchors[k].near
    ensures layers[n].far == anchors[furthest].far
    ensures layers[n].far.Fin? ==> anchors[k].far.Fin? && anchors[k].far.value <= layers[n].far.value
  {
    assert IsHull(anchors, layers[n]);
    assert UsableAt(anchors, k);
    nearest :| nearest in layers[n].anchors && UsableAt(anchors, nearest) && anchors[nearest].near == layers[n].near;
    furthest :| furthest in layers[n].anchors && UsableAt(anchors, furthest) && anchors[furthest].far == layers[n].far;
  }

  /** Exactly the anchors that are bounded or far are in a layer. */
  lemma {:induction false} LayeredAre(anchors: seq<Anchor>, layers: seq<Layer>, k: nat)
    requires RangesOrdered(anchors) && IsLayering(anchors, layers)
    ensures (exists n :: 0 <= n < |layers| && k in layers[n].anchors)
       <==> k < |anchors| && (anchors[k].bounded || anchors[k].isFar)
  {
    EachUsableAnchorOnce(anchors, layers);
    if n :| 0 <= n < |layers| && k in layers[n].anchors {
      assert MemberOf(layers, n, k);
    }
    if UsableAt(anchors, k) {
      var n :| MemberOf(layers, n, k);
    }
  }

  lemma {:induction false} LayerIsSlice(layers: seq<Layer>, n: nat) returns (lo: nat)
    requires n < |layers|
    ensures lo + |layers[n].anchors| <= |Members(layers)|
    ensures Members(layers)[lo..lo + |layers[n].anchors|] == layers[n].anchors
    decreases |layers|
  {
    var front := layers[..|layers| - 1];
    if n < |front| {
      lo := LayerIsSlice(front, n);
    } else {
      lo := |Members(front)|;
    }
  }

  ghost predicate NearFirst(anchors: seq<Anchor>, a: nat, b: nat) {
    && a < |anchors| && b < |anchors|
    && (anchors[a].near < anchors[b].near || (anchors[a].near == anchors[b].near && a < b))
  }

  lemma SweepOrderIsStable(anchors: seq<Anchor>, i: nat, j: nat)
    requires i < j < |SweepOrder(anchors)|
    ensures NearFirst(anchors, SweepOrder(anchors)[i], SweepOrder(anchors)[j])
  {
    var usable := Select(IsUsable(anchors), 0, |anchors|);
    SelectAscending(IsUsable(anchors), 0, |anchors|);
    SortIsStable(ByNear(anchors), usable);
    SweepOrderIsUsable(anchors);
    var a, b := SweepOrder(anchors)[i], SweepOrder(anchors)[j];
    assert a in SweepOrder(anchors) && b in SweepOrder(anchors);
    assert ByNear(anchors)(a, b);
    assert ByNear(anchors)(b, a) ==> a < b;
  }

  lemma SliceIsStable(anchors: seq<Anchor>, lo: nat, part: seq<nat>, p: nat, q: nat)
    requires p < q < |part| && lo + |part| <= |SweepOrder(anchors)|
    requires SweepOrder(anchors)[lo..lo + |part|] == part
    ensures NearFirst(anchors, part[p], part[q])
  {
    SliceAt(SweepOrder(anchors), lo, part, p);
    SliceAt(SweepOrder(anchors), lo, part, q);
    SweepOrderIsStable(anchors, lo + p, lo + q);
  }

  lemma {:induction false} MemberOrder(anchors: seq<Anchor>, layers: seq<Layer>, n: nat, p: nat, q: nat)
    requires Members(layers) == SweepOrder(anchors) && n < |layers| && p < q < |layers[n].anchors|
    ensures NearFirst(anchors, layers[n].anchors[p], layers[n].anchors[q])
  {
    var lo := LayerIsSlice(layers, n);
    SliceIsStable(anchors, lo, layers[n].anchors, p, q);
  }

  /** A layer lists its members by near end, those of one near end by index. */
  lemma {:induction false} MembersInOrder(anchors: seq<Anchor>, layers: seq<Layer>, n: nat, p: nat, q: nat)
    requires IsLayering(anchors, layers) && n < |layers| && p < q < |layers[n].anchors|
    ensures NearFirst(anchors, layers[n].anchors[p], layers[n].anchors[q])
  {
    MemberOrder(anchors, layers, n, p, q);
  }

  lemma SliceAt(whole: seq<nat>, lo: nat, part: seq<nat>, p: nat)
    requires lo + |part| <= |whole| && whole[lo..lo + |part|] == part && p < |part|
    ensures whole[lo + p] == part[p]
  {
    assert whole[lo..lo + |part|][p] == whole[lo + p];
  }

  lemma {:induction false} ChainStaysInLayer(anchors: seq<Anchor>, layers: seq<Layer>, path: seq<nat>, n: nat)
    requires IsLayering(anchors, layers) && Chain(Overlapping(anchors), path) && MemberOf(layers, n, path[0])
    ensures MemberOf(layers, n, path[|path| - 1])
    decreases |path|
  {
    if |path| > 1 {
      ChainTail<nat>(Overlapping(anchors), path);
      assert Link(anchors, path[0], path[1]);
      SweepOrderIsUsable(anchors);
      MembersAre(layers, path[1]);
      var m :| MemberOf(layers, m, path[1]);
      OverlapStaysInLayer(anchors, layers, n, m, path[0], path[1]);
      ChainStaysInLayer(anchors, layers, path[1..], n);
    }
  }

  /** Two usable anchors share a layer exactly when a chain of overlapping usable ranges joins them. */
  lemma LayersAreComponents(anchors: seq<Anchor>, layers: seq<Layer>, i: nat, j: nat)
    requires IsLayering(anchors, layers) && UsableAt(anchors, i) && UsableAt(anchors, j)
    ensures (exists n :: MemberOf(layers, n, i) && MemberOf(layers, n, j)) <==> Connected(Overlapping(anchors), i, j)
  {
    if n: nat :| MemberOf(layers, n, i) && MemberOf(layers, n, j) {
      var first := layers[n].anchors[0];
      assert LayerIsConnected(anchors, layers[n]);
      ConnectedSymmetric<nat>(Overlapping(anchors), first, i);
      ConnectedTransitive<nat>(Overlapping(anchors), i, first, j);
    }
    if Connected(Overlapping(anchors), i, j) {
      var path :| ChainBetween(Overlapping(anchors), path, i, j);
      SweepOrderIsUsable(anchors);
      MembersAre(layers, i);
      var n :| MemberOf(layers, n, i);
      ChainStaysInLayer(anchors, layers, path, n);
    }
  }

  // ----- support -----

  /** Whether `b` counts in `a`'s support: both usable, ranges meeting, and each seen in some image
      the other is not. */
  predicate Supports(anchors: seq<Anchor>, a: nat, b: nat) {
    && a != b && UsableAt(anchors, a) && UsableAt(anchors, b)
    && Overlap(anchors[a], anchors[b])
    && !(anchors[a].views <= anchors[b].views) && !(anchors[b].views <= anchors[a].views)
  }

  function SupportOf(anchors: seq<Anchor>, a: nat): (r: seq<nat>) {
    Select(Supporter(anchors, a), 0, |anchors|)
  }

  function Supporter(anchors: seq<Anchor>, a: nat): nat -> bool {
    (b: nat) => Supports(anchors, a, b)
  }

  lemma SupportMembers(anchors: seq<Anchor>, a: nat)
    ensures Ascending(SupportOf(anchors, a))
    ensures forall b :: b in SupportOf(anchors, a) <==> Supports(anchors, a, b)
  {
    SelectAscending(Supporter(anchors, a), 0, |anchors|);
    forall b: nat ensures b in SupportOf(anchors, a) <==> Supports(anchors, a, b) {
      if b in SupportOf(anchors, a) {
        var i :| 0 <= i < |SupportOf(anchors, a)| && SupportOf(anchors, a)[i] == b;
        assert Supporter(anchors, a)(SupportOf(anchors, a)[i]);
      }
      if Supports(anchors, a, b) {
        assert Supporter(anchors, a)(b);
      }
    }
  }

  /** An anchor's support lists once each the other anchors it and they are usable, their ranges meet,
      and either is seen in an image the other is not. */
  lemma SupportAre(anchors: seq<Anchor>, a: nat, b: nat)
    requires a < |anchors| && b < |anchors|
    ensures NoRepeats(SupportOf(anchors, a))
    ensures b in SupportOf(anchors, a)
       <==> && a != b
            && (anchors[a].bounded || anchors[a].isFar) && (anchors[b].bounded || anchors[b].isFar)
            && (anchors[b].far.Fin? ==> anchors[a].near <= anchors[b].far.value)
            && (anchors[a].far.Fin? ==> anchors[b].near <= anchors[a].far.value)
            && (exists v :: v in anchors[a].views && v !in anchors[b].views)
            && (exists v :: v in anchors[b].views && v !in anchors[a].views)
  {
    SupportMembers(anchors, a);
    NotWithin(anchors[a].views, anchors[b].views);
    NotWithin(anchors[b].views, anchors[a].views);
    assert Supports(anchors, a, b) <==>
        a != b && UsableAt(anchors, a) && UsableAt(anchors, b) && Overlap(anchors[a], anchors[b])
        && !(anchors[a].views <= anchors[b].views) && !(anchors[b].views <= anchors[a].views);
  }

  lemma NotWithin(views: set<int>, others: set<int>)
    ensures !(views <= others) <==> exists v :: v in views && v !in others
  {
    if forall v :: v in views ==> v in others {
      assert views <= others;
    }
  }

  /** Support stays inside a layer and is mutual: every anchor counted in another's support is in
      that anchor's layer, so an anchor's support is less than its layer's size. */
  lemma SupportIsWithinLayer(anchors: seq<Anchor>, layers: seq<Layer>, a: nat, n: nat)
    requires IsLayering(anchors, layers) && MemberOf(layers, n, a)
    ensures forall b :: b in SupportOf(anchors, a) ==> MemberOf(layers, n, b) && a in SupportOf(anchors, b)
    ensures |SupportOf(anchors, a)| < |layers[n].anchors|
  {
    var support := SupportOf(anchors, a);
    SupportMembers(anchors, a);
    SweepOrderIsUsable(anchors);
    forall b | b in support ensures MemberOf(layers, n, b) && a in SupportOf(anchors, b) {
      assert Supports(anchors, a, b);
      MembersAre(layers, b);
      var m :| MemberOf(layers, m, b);
      OverlapStaysInLayer(anchors, layers, n, m, a, b);
      SupportMembers(anchors, b);
    }
    ElementsSize(support);
    ElementsSize(layers[n].anchors);
    var members := Elements(layers[n].anchors);
    assert a in members;
    SubsetSize(Elements(support), members - {a});
  }
}
