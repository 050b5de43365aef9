/** Neighbour lists collapsed per (constellation feature, candidate image) cell
    (scripts/kdf_constellation_eval.py:290-358, scripts/kdf_constellation_progressive_eval.py:1125-1160).
    One script counts how often a cell is hit more than once; the other rebuilds the list a query
    offers each image, the nearest hit per cell. */
module NeighbourCells {
  import opened Arrays
  import opened Grouping

  const NO_NEIGHBOR: nat := 0xFFFF_FFFF

  datatype Hit = Hit(row: nat, image: nat, feature: nat)

  datatype Cell = Cell(row: nat, image: nat)

  function CellOf(hit: Hit): Cell { Cell(hit.row, hit.image) }

  // ----- which image a corpus feature belongs to -----

  /** `searchsorted(offsets, id, side="right")`: the first place whose offset exceeds `id`. */
  function SearchRight(offsets: seq<nat>, id: nat): (pos: nat)
    ensures pos <= |offsets|
  {
    if |offsets| == 0 then 0
    else if offsets[|offsets| - 1] <= id then |offsets|
    else SearchRight(offsets[..|offsets| - 1], id)
  }

  lemma {:induction false} SearchRightSplits(offsets: seq<nat>, id: nat)
    requires forall i, j :: 0 <= i < j < |offsets| ==> offsets[i] <= offsets[j]
    ensures forall i :: 0 <= i < |offsets| ==> (offsets[i] <= id <==> i < SearchRight(offsets, id))
  {
    if |offsets| > 0 && offsets[|offsets| - 1] > id {
      var front := offsets[..|offsets| - 1];
      SearchRightSplits(front, id);
      forall i | 0 <= i < |front| ensures offsets[i] <= id <==> i < SearchRight(offsets, id) {
        assert front[i] == offsets[i];
      }
    }
  }

  /** The image of a corpus feature, and its index within the image. */
  function ImageOf(offsets: seq<nat>, id: nat): int { SearchRight(offsets, id) - 1 }

  /** The search names the image whose stretch of the corpus holds the feature, empty images
      notwithstanding, and only that one. */
  lemma ImageOfFeature(counts: seq<nat>, id: nat, p: nat)
    requires id < Offset(counts, |counts|)
    ensures 0 <= ImageOf(Offsets(counts), id) < |counts|
    ensures ImageOf(Offsets(counts), id) == p <==> p < |counts| && Offset(counts, p) <= id < Offset(counts, p + 1)
  {
    var offsets := Offsets(counts);
    forall i, j | 0 <= i < j < |offsets| ensures offsets[i] <= offsets[j] {
      OffsetMonotone(counts, i, j);
    }
    SearchRightSplits(offsets, id);
    var o := OwnerOf(counts, id);
    assert offsets[o] <= id && offsets[o + 1] > id;
    if p < |counts| && Offset(counts, p) <= id < Offset(counts, p + 1) {
      OwnerIsUnique(counts, id, p, o);
    }
  }

  // ----- the hits -----

  /** The hits of one neighbour list: no missing neighbour, none in the query's own image. */
  function RowHits(offsets: seq<nat>, own: nat, row: nat, ids: seq<nat>): seq<Hit>
    requires |offsets| > 0 && offsets[0] == 0
  {
    if |ids| == 0 then []
    else
      var id := ids[|ids| - 1];
      OffsetsStart(offsets, id);
      var image := ImageOf(offsets, id);
      RowHits(offsets, own, row, ids[..|ids| - 1])
      + (if id == NO_NEIGHBOR || image == own then [] else [Hit(row, image, id - offsets[image])])
  }

  lemma {:induction false} OffsetsStart(offsets: seq<nat>, id: nat)
    requires |offsets| > 0 && offsets[0] == 0
    ensures 0 <= ImageOf(offsets, id) < |offsets| && offsets[ImageOf(offsets, id)] <= id
  {
    if offsets[|offsets| - 1] > id {
      OffsetsStart(offsets[..|offsets| - 1], id);
    }
  }

  /** The hits of the whole batch, list by list, nearest first within a list. */
  function HitsOf(offsets: seq<nat>, own: nat, ids: seq<seq<nat>>): seq<Hit>
    requires |offsets| > 0 && offsets[0] == 0
  {
    if |ids| == 0 then []
    else HitsOf(offsets, own, ids[..|ids| - 1]) + RowHits(offsets, own, |ids| - 1, ids[|ids| - 1])
  }

  function InOtherImage(offsets: seq<nat>, own: nat, ids: seq<nat>): nat -> bool {
    (k: nat) => k < |ids| && ids[k] != 0xFFFF_FFFF && ImageOf(offsets, ids[k]) != own
  }

  /** The hit a neighbour gives: its image, and its index in the image. */
  ghost predicate IsHitAt(offsets: seq<nat>, row: nat, ids: seq<nat>, k: nat, hit: Hit) {
    && k < |ids| && hit.row == row && hit.image == ImageOf(offsets, ids[k])
    && hit.image < |offsets| && offsets[hit.image] + hit.feature == ids[k]
  }

  lemma {:induction false} RowHitsSelect(offsets: seq<nat>, own: nat, row: nat, ids: seq<nat>, n: nat)
    requires |offsets| > 0 && offsets[0] == 0 && n <= |ids|
    ensures var hits, at := RowHits(offsets, own, row, ids[..n]), Select(InOtherImage(offsets, own, ids), 0, n);
            |hits| == |at| && forall h :: 0 <= h < |at| ==> IsHitAt(offsets, row, ids, at[h], hits[h])
  {
    if n > 0 {
      RowHitsSelect(offsets, own, row, ids, n - 1);
      OffsetsStart(offsets, ids[n - 1]);
      assert ids[..n][..n - 1] == ids[..n - 1];
    }
  }

  /** A list's hits are, nearest first as the list is, its neighbours that are not missing and lie in
      another image. */
  lemma {:induction false} RowHitsAre(offsets: seq<nat>, own: nat, row: nat, ids: seq<nat>) returns (at: seq<nat>)
    requires |offsets| > 0 && offsets[0] == 0
    ensures Ascending(at)
    ensures forall k: nat :: k in at <==> k < |ids| && ids[k] != 0xFFFF_FFFF && ImageOf(offsets, ids[k]) != own
    ensures var hits := RowHits(offsets, own, row, ids);
            |hits| == |at| && forall h :: 0 <= h < |at| ==> IsHitAt(offsets, row, ids, at[h], hits[h])
  {
    var keep := InOtherImage(offsets, own, ids);
    at := Select(keep, 0, |ids|);
    SelectAscending(keep, 0, |ids|);
    forall k: nat
      ensures k in at <==> k < |ids| && ids[k] != 0xFFFF_FFFF && ImageOf(offsets, ids[k]) != own
    {
      assert k < |ids| && ids[k] != 0xFFFF_FFFF && ImageOf(offsets, ids[k]) != own <==> keep(k);
    }
    RowHitsSelect(offsets, own, row, ids, |ids|);
    assert ids[..|ids|] == ids;
  }

  ghost function RowLists(offsets: seq<nat>, own: nat, ids: seq<seq<nat>>): (lists: seq<seq<Hit>>)
    requires |offsets| > 0 && offsets[0] == 0
    ensures |lists| == |ids|
    ensures forall row :: 0 <= row < |ids| ==> lists[row] == RowHits(offsets, own, row, ids[row])
  {
    seq(|ids|, row requires 0 <= row < |ids| => RowHits(offsets, own, row, ids[row]))
  }

  /** The batch's hits are its lists' hits end to end. */
  lemma {:induction false} HitsByRow(offsets: seq<nat>, own: nat, ids: seq<seq<nat>>)
    requires |offsets| > 0 && offsets[0] == 0
    ensures HitsOf(offsets, own, ids) == Flatten(RowLists(offsets, own, ids))
  {
    if |ids| > 0 {
      var k := |ids| - 1;
      HitsByRow(offsets, own, ids[..k]);
      assert RowLists(offsets, own, ids)[..k] == RowLists(offsets, own, ids[..k]);
    }
  }

  ghost predicate IsHitOf(offsets: seq<nat>, own: nat, row: nat, ids: seq<nat>, hit: Hit) {
    && hit.row == row && hit.image != own && hit.image < |offsets|
    && exists k :: 0 <= k < |ids| && ids[k] != NO_NEIGHBOR && ids[k] == offsets[hit.image] + hit.feature
                   && ImageOf(offsets, ids[k]) == hit.image
  }

  lemma {:induction false} RowHitsAreNeighbours(offsets: seq<nat>, own: nat, row: nat, ids: seq<nat>, h: nat)
    requires |offsets| > 0 && offsets[0] == 0 && h < |RowHits(offsets, own, row, ids)|
    ensures IsHitOf(offsets, own, row, ids, RowHits(offsets, own, row, ids)[h])
    decreases |ids|
  {
    var n := |ids| - 1;
    OffsetsStart(offsets, ids[n]);
    if h < |RowHits(offsets, own, row, ids[..n])| {
      RowHitsAreNeighbours(offsets, own, row, ids[..n], h);
      var hit := RowHits(offsets, own, row, ids)[h];
      var k :| 0 <= k < n && ids[..n][k] != NO_NEIGHBOR && ids[..n][k] == offsets[hit.image] + hit.feature
               && ImageOf(offsets, ids[..n][k]) == hit.image;
      assert ids[k] == ids[..n][k];
    } else {
      assert ids[n] != NO_NEIGHBOR;
    }
  }

  /** Every hit names a neighbour of its own row's list, by image and index within the image. */
  lemma {:induction false} HitsAreNeighbours(offsets: seq<nat>, own: nat, ids: seq<seq<nat>>, h: nat)
    requires |offsets| > 0 && offsets[0] == 0 && h < |HitsOf(offsets, own, ids)|
    ensures var hit := HitsOf(offsets, own, ids)[h];
            hit.row < |ids| && IsHitOf(offsets, own, hit.row, ids[hit.row], hit)
    decreases |ids|
  {
    var n := |ids| - 1;
    var front := HitsOf(offsets, own, ids[..n]);
    if h < |front| {
      HitsAreNeighbours(offsets, own, ids[..n], h);
    } else {
      RowHitsAreNeighbours(offsets, own, n, ids[n], h - |front|);
    }
  }

  lemma {:induction false} RowNeighboursAreHits(offsets: seq<nat>, own: nat, row: nat, ids: seq<nat>, k: nat)
    requires |offsets| > 0 && offsets[0] == 0 && k < |ids| && ids[k] != NO_NEIGHBOR && ImageOf(offsets, ids[k]) != own
    ensures 0 <= ImageOf(offsets, ids[k]) < |offsets| && offsets[ImageOf(offsets, ids[k])] <= ids[k]
    ensures var image := ImageOf(offsets, ids[k]);
            Hit(row, image, ids[k] - offsets[image]) in RowHits(offsets, own, row, ids)
    decreases |ids|
  {
    OffsetsStart(offsets, ids[k]);
    if k < |ids| - 1 {
      RowNeighboursAreHits(offsets, own, row, ids[..|ids| - 1], k);
    }
  }

  /** Every neighbour in another image gives a hit. */
  lemma {:induction false} NeighboursAreHits(offsets: seq<nat>, own: nat, ids: seq<seq<nat>>, row: nat, k: nat)
    requires |offsets| > 0 && offsets[0] == 0 && row < |ids| && k < |ids[row]|
    requires ids[row][k] != NO_NEIGHBOR && ImageOf(offsets, ids[row][k]) != own
    ensures var image := ImageOf(offsets, ids[row][k]);
            && 0 <= image < |offsets| && offsets[image] <= ids[row][k]
            && Hit(row, image, ids[row][k] - offsets[image]) in HitsOf(offsets, own, ids)
    decreases |ids|
  {
    var n := |ids| - 1;
    if row < n {
      NeighboursAreHits(offsets, own, ids[..n], row, k);
    } else {
      RowNeighboursAreHits(offsets, own, n, ids[n], k);
    }
  }

  function Cells(hits: seq<Hit>): (r: seq<Cell>)
    ensures |r| == |hits|
  {
    Map(CellOf, hits)
  }

  // ----- cells hit more than once -----

  datatype Multiplicity = Multiplicity(hits: nat, cells: nat, crowdedCells: nat, crowdedExtra: nat,
                                       truthIsBest: nat, truthIsOther: nat)

  function SlotsOf(hits: seq<Hit>, cell: Cell): seq<nat> { With(Cells(hits), Range(0, |hits|), cell) }

  /** The slots of each cell, in the order the cells were first hit. */
  function Members(hits: seq<Hit>): seq<seq<nat>> {
    Map((c: Cell) => SlotsOf(hits, c), FirstSeen(Cells(hits)))
  }

  /** How many of the lists satisfy a test. */
  function CountOf<T>(test: T -> bool, xs: seq<T>): (n: nat)
    ensures n <= |xs|
  {
    if |xs| == 0 then 0 else CountOf(test, xs[..|xs| - 1]) + (if test(xs[|xs| - 1]) then 1 else 0)
  }

  function IsCrowded(): seq<nat> -> bool { (members: seq<nat>) => |members| >= 2 }

  predicate IsTrue(hits: seq<Hit>, truth: set<Hit>, slot: nat) {
    slot < |hits| && hits[slot] in truth
  }

  predicate AnyTrue(hits: seq<Hit>, truth: set<Hit>, members: seq<nat>) {
    exists i :: 0 <= i < |members| && IsTrue(hits, truth, members[i])
  }

  function CrowdedTruth(hits: seq<Hit>, truth: set<Hit>): seq<nat> -> bool {
    (members: seq<nat>) => |members| >= 2 && AnyTrue(hits, truth, members)
  }

  function CrowdedBest(hits: seq<Hit>, truth: set<Hit>): seq<nat> -> bool {
    (members: seq<nat>) => |members| >= 2 && IsTrue(hits, truth, members[0])
  }

  /** The hits beyond the first, over the lists of two or more. */
  function Extra(lists: seq<seq<nat>>): nat {
    if |lists| == 0 then 0
    else
      var last := lists[|lists| - 1];
      Extra(lists[..|lists| - 1]) + (if |last| >= 2 then |last| - 1 else 0)
  }

  lemma {:induction false} ExtraIsTotalLess(lists: seq<seq<nat>>)
    requires forall i :: 0 <= i < |lists| ==> |lists[i]| > 0
    ensures Extra(lists) == Total(lists) - |lists|
  {
    if |lists| > 0 {
      ExtraIsTotalLess(lists[..|lists| - 1]);
    }
  }

  /** The hits beyond the first of each cell are exactly those the cells do not account for. */
  lemma ExtraHitsAreHitsLessCells(hits: seq<Hit>)
    ensures Extra(Members(hits)) == |hits| - |FirstSeen(Cells(hits))|
  {
    var cells, slots := Cells(hits), Range(0, |hits|);
    var order := FirstSeen(cells);
    FirstSeenMembers(cells);
    GroupsConserve(cells, slots);
    assert Members(hits) == ListsIn(cells, slots, order);
    forall i | 0 <= i < |order| ensures |Members(hits)[i]| > 0 {
      assert order[i] in cells;
      var at :| 0 <= at < |cells| && cells[at] == order[i];
      GroupIsNonempty(cells, slots, at);
    }
    ExtraIsTotalLess(Members(hits));
  }

  lemma CellAppend(cells: Groups<Cell, nat>, hits: seq<Hit>, n: nat)
    requires n < |hits| && AreGroups(cells, Cells(hits[..n]), Range(0, n))
    ensures AreGroups(Add(cells, CellOf(hits[n]), n), Cells(hits[..n + 1]), Range(0, n + 1))
  {
    AddGroups(cells, Cells(hits[..n]), Range(0, n), CellOf(hits[n]), n);
    CellsOneMore(hits, n);
  }

  lemma CellsOneMore(hits: seq<Hit>, n: nat)
    requires n < |hits|
    ensures Cells(hits[..n + 1]) == Cells(hits[..n]) + [CellOf(hits[n])]
    ensures Range(0, n + 1) == Range(0, n) + [n]
  {
  }

  /** `cells.setdefault((row, other), []).append(slot)` over the hits. */
  method GroupByCell(hits: seq<Hit>) returns (cells: Groups<Cell, nat>)
    ensures AreGroups(cells, Cells(hits), Range(0, |hits|))
  {
    cells := Empty();
    for slot := 0 to |hits|
      invariant AreGroups(cells, Cells(hits[..slot]), Range(0, slot))
    {
      CellAppend(cells, hits, slot);
      cells := Add(cells, CellOf(hits[slot]), slot);
    }
    assert hits[..|hits|] == hits;
  }

  /** The crowded lists, the hits they hold beyond their first, and how many hold a true hit first or
      only later. */
  method CountCrowded(hits: seq<Hit>, truth: set<Hit>, lists: seq<seq<nat>>)
    returns (crowded: nat, extra: nat, best: nat, other: nat)
    ensures crowded == CountOf(IsCrowded(), lists) && extra == Extra(lists)
    ensures best == CountOf(CrowdedBest(hits, truth), lists)
    ensures best + other == CountOf(CrowdedTruth(hits, truth), lists)
  {
    crowded, extra, best, other := 0, 0, 0, 0;
    for i := 0 to |lists|
      invariant crowded == CountOf(IsCrowded(), lists[..i]) && extra == Extra(lists[..i])
      invariant best == CountOf(CrowdedBest(hits, truth), lists[..i])
      invariant best + other == CountOf(CrowdedTruth(hits, truth), lists[..i])
    {
      var members := lists[i];
      assert lists[..i + 1][..i] == lists[..i];
      if |members| >= 2 {
        crowded, extra := crowded + 1, extra + |members| - 1;
        if AnyTrue(hits, truth, members) {
          if IsTrue(hits, truth, members[0]) {
            best := best + 1;
          } else {
            other := other + 1;
          }
        }
      }
    }
    assert lists[..|lists|] == lists;
  }

  // ----- the same counts in cells -----

  ghost predicate IsHitTwice(hits: seq<Hit>, c: Cell) {
    exists i, j ::
      && 0 <= i < j < |hits|
      && hits[i].row == hits[j].row == c.row && hits[i].image == hits[j].image == c.image
  }

  ghost predicate HasTrueHit(hits: seq<Hit>, truth: set<Hit>, c: Cell) {
    exists i :: 0 <= i < |hits| && hits[i].row == c.row && hits[i].image == c.image && hits[i] in truth
  }

  /** The first hit of the cell is a true one. */
  ghost predicate FirstIsTrue(hits: seq<Hit>, truth: set<Hit>, c: Cell) {
    exists i ::
      && 0 <= i < |hits| && hits[i].row == c.row && hits[i].image == c.image && hits[i] in truth
      && forall j :: 0 <= j < i ==> !(hits[j].row == c.row && hits[j].image == c.image)
  }

  function InCell(hits: seq<Hit>, c: Cell): nat -> bool {
    (i: nat) => i < |hits| && hits[i].row == c.row && hits[i].image == c.image
  }

  lemma {:induction false} SlotsSelect(hits: seq<Hit>, c: Cell, n: nat)
    requires n <= |hits|
    ensures SlotsOf(hits[..n], c) == Select(InCell(hits, c), 0, n)
  {
    if n > 0 {
      SlotsSelect(hits, c, n - 1);
      SlotsAppend(hits[..n - 1], hits[n - 1], c);
      assert hits[..n] == hits[..n - 1] + [hits[n - 1]];
    }
  }

  /** A cell's slots are its hits' places, ascending. */
  lemma SlotsAre(hits: seq<Hit>, c: Cell)
    ensures Ascending(SlotsOf(hits, c))
    ensures forall i: nat :: i in SlotsOf(hits, c) <==> i < |hits| && hits[i].row == c.row && hits[i].image == c.image
  {
    SlotsSelect(hits, c, |hits|);
    assert hits[..|hits|] == hits;
    var keep := InCell(hits, c);
    SelectAscending(keep, 0, |hits|);
    forall i: nat ensures i in SlotsOf(hits, c) <==> i < |hits| && hits[i].row == c.row && hits[i].image == c.image {
      assert i < |hits| && hits[i].row == c.row && hits[i].image == c.image <==> keep(i);
    }
  }

  lemma CrowdedIsHitTwice(hits: seq<Hit>, c: Cell)
    ensures |SlotsOf(hits, c)| >= 2 <==> IsHitTwice(hits, c)
  {
    var slots := SlotsOf(hits, c);
    SlotsAre(hits, c);
    if |slots| >= 2 {
      assert slots[0] in slots && slots[1] in slots;
    }
    if IsHitTwice(hits, c) {
      var i: nat, j: nat :| i < j < |hits| && hits[i].row == hits[j].row == c.row
                            && hits[i].image == hits[j].image == c.image;
      assert i in slots && j in slots;
    }
  }

  lemma AnyTrueIsTrueHit(hits: seq<Hit>, truth: set<Hit>, c: Cell)
    ensures AnyTrue(hits, truth, SlotsOf(hits, c)) <==> HasTrueHit(hits, truth, c)
  {
    var slots := SlotsOf(hits, c);
    SlotsAre(hits, c);
    if AnyTrue(hits, truth, slots) {
      var k :| 0 <= k < |slots| && IsTrue(hits, truth, slots[k]);
      assert slots[k] in slots;
    }
    if HasTrueHit(hits, truth, c) {
      var i: nat :| i < |hits| && hits[i].row == c.row && hits[i].image == c.image && hits[i] in truth;
      assert i in slots;
    }
  }

  lemma HeadIsFirstHit(hits: seq<Hit>, truth: set<Hit>, c: Cell)
    requires |SlotsOf(hits, c)| > 0
    ensures IsTrue(hits, truth, SlotsOf(hits, c)[0]) <==> FirstIsTrue(hits, truth, c)
  {
    var slots := SlotsOf(hits, c);
    SlotsAre(hits, c);
    assert slots[0] in slots;
    forall j: nat | j < slots[0] ensures !(hits[j].row == c.row && hits[j].image == c.image) {
      assert j !in slots;
    }
  }

  lemma {:induction false} CountIsSize<C(!new), T>(test: T -> bool, f: C -> T, cells: seq<C>, passing: set<C>)
    requires NoRepeats(cells) && forall c :: c in passing <==> c in cells && test(f(c))
    ensures CountOf(test, Map(f, cells)) == |passing|
  {
    if |cells| == 0 {
      assert passing == {};
    } else {
      var n := |cells| - 1;
      assert Map(f, cells)[..n] == Map(f, cells[..n]);
      PassingFront(test, f, cells, passing);
      CountIsSize(test, f, cells[..n], passing - {cells[n]});
    }
  }

  lemma PassingFront<C(!new), T>(test: T -> bool, f: C -> T, cells: seq<C>, passing: set<C>)
    requires NoRepeats(cells) && |cells| > 0 && forall c :: c in passing <==> c in cells && test(f(c))
    ensures var n := |cells| - 1;
            && NoRepeats(cells[..n])
            && (forall c :: c in passing - {cells[n]} <==> c in cells[..n] && test(f(c)))
            && |passing| == |passing - {cells[n]}| + (if test(f(cells[n])) then 1 else 0)
  {
    var n := |cells| - 1;
    assert cells == cells[..n] + [cells[n]];
    if test(f(cells[n])) {
      assert passing == passing - {cells[n]} + {cells[n]};
    } else {
      assert passing == passing - {cells[n]};
    }
  }

  /** The cells hit. */
  ghost function CellsHit(hits: seq<Hit>): set<Cell> {
    set i | 0 <= i < |hits| :: Cell(hits[i].row, hits[i].image)
  }

  ghost function CrowdedCells(hits: seq<Hit>): set<Cell> {
    set c | c in CellsHit(hits) && IsHitTwice(hits, c)
  }

  ghost function CrowdedWithTruth(hits: seq<Hit>, truth: set<Hit>): set<Cell> {
    set c | c in CellsHit(hits) && IsHitTwice(hits, c) && HasTrueHit(hits, truth, c)
  }

  ghost function CrowdedTruthFirst(hits: seq<Hit>, truth: set<Hit>): set<Cell> {
    set c | c in CellsHit(hits) && IsHitTwice(hits, c) && FirstIsTrue(hits, truth, c)
  }

  lemma {:induction false} CellsAreHit(hits: seq<Hit>)
    ensures NoRepeats(FirstSeen(Cells(hits))) && forall c :: c in FirstSeen(Cells(hits)) <==> c in CellsHit(hits)
  {
    FirstSeenMembers(Cells(hits));
    forall c ensures c in Cells(hits) <==> c in CellsHit(hits) {
      if c in CellsHit(hits) {
        var i :| 0 <= i < |hits| && c == Cell(hits[i].row, hits[i].image);
        assert Cells(hits)[i] == c;
      }
    }
  }

  lemma {:induction false} NoRepeatsSize<T>(xs: seq<T>, s: set<T>)
    requires NoRepeats(xs) && forall x :: x in s <==> x in xs
    ensures |xs| == |s|
  {
    if |xs| == 0 {
      assert s == {};
    } else {
      var n := |xs| - 1;
      assert xs == xs[..n] + [xs[n]];
      NoRepeatsSize(xs[..n], s - {xs[n]});
    }
  }

  lemma {:induction false} CrowdedCount(hits: seq<Hit>)
    ensures CountOf(IsCrowded(), Members(hits)) == |CrowdedCells(hits)|
  {
    CellsAreHit(hits);
    var slots := (c: Cell) => SlotsOf(hits, c);
    forall c ensures IsCrowded()(slots(c)) <==> IsHitTwice(hits, c) {
      CrowdedIsHitTwice(hits, c);
    }
    CountIsSize(IsCrowded(), slots, FirstSeen(Cells(hits)), CrowdedCells(hits));
  }

  lemma {:induction false} CrowdedTruthCount(hits: seq<Hit>, truth: set<Hit>)
    ensures CountOf(CrowdedTruth(hits, truth), Members(hits)) == |CrowdedWithTruth(hits, truth)|
  {
    CellsAreHit(hits);
    var slots, test := (c: Cell) => SlotsOf(hits, c), CrowdedTruth(hits, truth);
    forall c ensures test(slots(c)) <==> IsHitTwice(hits, c) && HasTrueHit(hits, truth, c) {
      CrowdedIsHitTwice(hits, c);
      AnyTrueIsTrueHit(hits, truth, c);
    }
    CountIsSize(test, slots, FirstSeen(Cells(hits)), CrowdedWithTruth(hits, truth));
  }

  lemma {:induction false} CrowdedBestCount(hits: seq<Hit>, truth: set<Hit>)
    ensures CountOf(CrowdedBest(hits, truth), Members(hits)) == |CrowdedTruthFirst(hits, truth)|
  {
    CellsAreHit(hits);
    var slots, test := (c: Cell) => SlotsOf(hits, c), CrowdedBest(hits, truth);
    forall c ensures test(slots(c)) <==> IsHitTwice(hits, c) && FirstIsTrue(hits, truth, c) {
      CrowdedIsHitTwice(hits, c);
      if |slots(c)| >= 2 {
        HeadIsFirstHit(hits, truth, c);
      }
    }
    CountIsSize(test, slots, FirstSeen(Cells(hits)), CrowdedTruthFirst(hits, truth));
  }

  /** The hits grouped by cell, and the groups counted. */
  method CountCells(hits: seq<Hit>, truth: set<Hit>)
    returns (count: nat, crowded: nat, extra: nat, best: nat, other: nat)
    ensures count == |FirstSeen(Cells(hits))| && extra == |hits| - count
    ensures crowded == CountOf(IsCrowded(), Members(hits))
    ensures best == CountOf(CrowdedBest(hits, truth), Members(hits))
    ensures best + other == CountOf(CrowdedTruth(hits, truth), Members(hits))
  {
    var cells := GroupByCell(hits);
    var lists := seq(|cells.order|,
                     i requires 0 <= i < |cells.order| && cells.order[i] in cells.lists => cells.lists[cells.order[i]]);
    assert lists == Members(hits);
    crowded, extra, best, other := CountCrowded(hits, truth, lists);
    ExtraHitsAreHitsLessCells(hits);
    count := |cells.order|;
  }

  lemma {:induction false} CellCount(hits: seq<Hit>)
    ensures |FirstSeen(Cells(hits))| == |CellsHit(hits)|
  {
    CellsAreHit(hits);
    NoRepeatsSize(FirstSeen(Cells(hits)), CellsHit(hits));
  }

  /** The counts of one batch: the cells hit, those hit twice or more, the hits beyond the first, and
      of the cells hit twice or more those whose nearest hit is true and those with a true one only
      further on. */
  method CountMultiplicity(hits: seq<Hit>, truth: set<Hit>) returns (counts: Multiplicity)
    ensures counts.hits == |hits| && counts.cells == |CellsHit(hits)|
    ensures counts.crowdedExtra == |hits| - |CellsHit(hits)|
    ensures counts.crowdedCells == |CrowdedCells(hits)|
    ensures counts.truthIsBest == |CrowdedTruthFirst(hits, truth)|
    ensures counts.truthIsBest + counts.truthIsOther == |CrowdedWithTruth(hits, truth)|
  {
    var cells, crowded, extra, best, other := CountCells(hits, truth);
    CellCount(hits);
    CrowdedCount(hits);
    CrowdedTruthCount(hits, truth);
    CrowdedBestCount(hits, truth);
    counts := Multiplicity(|hits|, cells, crowded, extra, best, other);
  }

  // ----- what a query offers each image -----

  datatype Entry = Entry(row: nat, feature: nat)

  function EntryOf(hit: Hit): Entry { Entry(hit.row, hit.feature) }

  function OtherOf(hit: Hit): nat { hit.image }

  /** The hits that are the first of their cell, in list order. */
  function FirstHits(hits: seq<Hit>): seq<Hit> {
    if |hits| == 0 then []
    else
      var front, last := hits[..|hits| - 1], hits[|hits| - 1];
      FirstHits(front) + (if CellOf(last) in Cells(front) then [] else [last])
  }

  lemma {:induction false} FirstHitsAppend(hits: seq<Hit>, hit: Hit)
    ensures FirstHits(hits + [hit]) == FirstHits(hits) + (if CellOf(hit) in Cells(hits) then [] else [hit])
    ensures Cells(hits + [hit]) == Cells(hits) + [CellOf(hit)]
    ensures FirstSeen(Cells(hits + [hit])) == FirstSeen(Cells(hits))
        + (if CellOf(hit) in Cells(hits) then [] else [CellOf(hit)])
  {
    assert (hits + [hit])[..|hits|] == hits;
    FirstSeenMembers(Cells(hits));
    assert Cells(hits + [hit]) == Cells(hits) + [CellOf(hit)];
    FirstSeenAppend(Cells(hits), CellOf(hit));
  }

  /** One hit is offered per cell, the cells in the order they were first hit. */
  lemma {:induction false} FirstHitsAreCells(hits: seq<Hit>)
    ensures Cells(FirstHits(hits)) == FirstSeen(Cells(hits)) && |Members(hits)| == |FirstHits(hits)|
  {
    if |hits| > 0 {
      var n := |hits| - 1;
      FirstHitsAreCells(hits[..n]);
      FirstHitsAppend(hits[..n], hits[n]);
      MapAppend(CellOf, FirstHits(hits[..n]), [hits[n]]);
      assert Map(CellOf, [hits[n]]) == [CellOf(hits[n])];
      assert hits == hits[..n] + [hits[n]];
    }
  }

  ghost predicate IsHead(hits: seq<Hit>, members: seq<nat>, hit: Hit) {
    |members| > 0 && members[0] < |hits| && hits[members[0]] == hit
  }

  lemma SlotsAppend(hits: seq<Hit>, hit: Hit, cell: Cell)
    ensures SlotsOf(hits + [hit], cell) == SlotsOf(hits, cell) + (if CellOf(hit) == cell then [|hits|] else [])
  {
    assert Cells(hits + [hit]) == Cells(hits) + [CellOf(hit)];
    assert Range(0, |hits| + 1) == Range(0, |hits|) + [|hits|];
    WithAppend(Cells(hits), Range(0, |hits|), CellOf(hit), |hits|, cell);
  }

  lemma HeadStays(hits: seq<Hit>, last: Hit, cell: Cell, hit: Hit)
    requires IsHead(hits, SlotsOf(hits, cell), hit)
    ensures IsHead(hits + [last], SlotsOf(hits + [last], cell), hit)
  {
    SlotsAppend(hits, last, cell);
  }

  lemma HeadOfNew(hits: seq<Hit>, last: Hit)
    requires CellOf(last) !in Cells(hits)
    ensures IsHead(hits + [last], SlotsOf(hits + [last], CellOf(last)), last)
  {
    SlotsAppend(hits, last, CellOf(last));
    WithNothing(Cells(hits), Range(0, |hits|), CellOf(last));
  }

  /** The hit offered for a cell is the first of the cell's list. */
  lemma {:induction false} FirstHitsAreHeads(hits: seq<Hit>, i: nat)
    requires i < |FirstHits(hits)|
    ensures |Members(hits)| == |FirstHits(hits)| && IsHead(hits, Members(hits)[i], FirstHits(hits)[i])
    decreases |hits|
  {
    var n := |hits| - 1;
    var front, last := hits[..n], hits[n];
    FirstHitsAreCells(hits);
    FirstHitsAreCells(front);
    FirstHitsAppend(front, last);
    assert hits == front + [last];
    if i < |FirstHits(front)| {
      FirstHitsAreHeads(front, i);
      HeadStays(front, last, FirstSeen(Cells(front))[i], FirstHits(front)[i]);
    } else {
      HeadOfNew(front, last);
    }
  }

  ghost predicate AreOffers(perImage: Groups<nat, Entry>, hits: seq<Hit>) {
    AreGroups(perImage, Map(OtherOf, FirstHits(hits)), Map(EntryOf, FirstHits(hits)))
  }

  lemma FirstHitsNext(hits: seq<Hit>, n: nat)
    requires n < |hits|
    ensures FirstHits(hits[..n + 1]) == FirstHits(hits[..n])
        + (if CellOf(hits[n]) in Cells(hits[..n]) then [] else [hits[n]])
    ensures Cells(hits[..n + 1]) == Cells(hits[..n]) + [CellOf(hits[n])]
  {
    assert hits[..n + 1] == hits[..n] + [hits[n]];
    FirstHitsAppend(hits[..n], hits[n]);
  }

  lemma OffersAppend(perImage: Groups<nat, Entry>, hits: seq<Hit>, n: nat)
    requires n < |hits| && AreOffers(perImage, hits[..n]) && CellOf(hits[n]) !in Cells(hits[..n])
    ensures AreOffers(Add(perImage, hits[n].image, EntryOf(hits[n])), hits[..n + 1])
  {
    var firsts := FirstHits(hits[..n]);
    FirstHitsNext(hits, n);
    MapAppend(OtherOf, firsts, [hits[n]]);
    MapAppend(EntryOf, firsts, [hits[n]]);
    AddGroups(perImage, Map(OtherOf, firsts), Map(EntryOf, firsts), hits[n].image, EntryOf(hits[n]));
    assert Map(OtherOf, [hits[n]]) == [hits[n].image];
    assert Map(EntryOf, [hits[n]]) == [EntryOf(hits[n])];
  }

  /** The lists offered per image: the first hit of every cell, once, in list order. */
  method OfferedCorrespondences(hits: seq<Hit>) returns (perImage: Groups<nat, Entry>)
    ensures AreOffers(perImage, hits)
  {
    var seen: set<Cell> := {};
    perImage := Empty();
    for n := 0 to |hits|
      invariant forall c :: c in seen <==> c in Cells(hits[..n])
      invariant AreOffers(perImage, hits[..n])
    {
      var cell := CellOf(hits[n]);
      FirstHitsNext(hits, n);
      if cell in seen {
        assert FirstHits(hits[..n + 1]) == FirstHits(hits[..n]);
        continue;
      }
      OffersAppend(perImage, hits, n);
      seen := seen + {cell};
      perImage := Add(perImage, hits[n].image, EntryOf(hits[n]));
    }
    assert hits[..|hits|] == hits;
  }

  /** The first hit of its cell, and in that image. */
  function IsOffered(hits: seq<Hit>, image: nat): nat -> bool {
    (i: nat) => i < |hits| && hits[i].image == image && CellOf(hits[i]) !in Cells(hits[..i])
  }

  lemma OfferNext(hits: seq<Hit>, n: nat, image: nat)
    requires n < |hits|
    ensures OfferOf(hits[..n + 1], image)
         == OfferOf(hits[..n], image) + (if IsOffered(hits, image)(n) then [EntryOf(hits[n])] else [])
  {
    FirstHitsNext(hits, n);
    if CellOf(hits[n]) in Cells(hits[..n]) {
      assert FirstHits(hits[..n + 1]) == FirstHits(hits[..n]);
    } else {
      var firsts := FirstHits(hits[..n]);
      MapAppend(OtherOf, firsts, [hits[n]]);
      MapAppend(EntryOf, firsts, [hits[n]]);
      assert Map(OtherOf, [hits[n]]) == [hits[n].image];
      assert Map(EntryOf, [hits[n]]) == [EntryOf(hits[n])];
      WithAppend(Map(OtherOf, firsts), Map(EntryOf, firsts), hits[n].image, EntryOf(hits[n]), image);
    }
  }

  function OfferOf(hits: seq<Hit>, image: nat): seq<Entry> {
    With(Map(OtherOf, FirstHits(hits)), Map(EntryOf, FirstHits(hits)), image)
  }

  ghost predicate IsEntryOf(hits: seq<Hit>, i: nat, entry: Entry) {
    i < |hits| && entry.row == hits[i].row && entry.feature == hits[i].feature
  }

  lemma {:induction false} OffersSelect(hits: seq<Hit>, image: nat, n: nat)
    requires n <= |hits|
    ensures var offer, at := OfferOf(hits[..n], image), Select(IsOffered(hits, image), 0, n);
            |offer| == |at| && forall e :: 0 <= e < |at| ==> IsEntryOf(hits, at[e], offer[e])
  {
    if n > 0 {
      OffersSelect(hits, image, n - 1);
      OfferNext(hits, n - 1, image);
    }
  }

  lemma SameCellIsSeen(hits: seq<Hit>, i: nat)
    requires i < |hits|
    ensures CellOf(hits[i]) in Cells(hits[..i])
       <==> exists j :: 0 <= j < i && hits[j].row == hits[i].row && hits[j].image == hits[i].image
  {
    var cells := Cells(hits[..i]);
    if CellOf(hits[i]) in cells {
      var j :| 0 <= j < i && cells[j] == CellOf(hits[i]);
      assert hits[..i][j] == hits[j];
    }
    if j :| 0 <= j < i && hits[j].row == hits[i].row && hits[j].image == hits[i].image {
      assert hits[..i][j] == hits[j] && cells[j] == CellOf(hits[i]);
    }
  }

  /** What is offered to an image is, in list order, the row and feature of every hit in it that is the
      first of its row there. */
  lemma {:induction false} OffersAre(perImage: Groups<nat, Entry>, hits: seq<Hit>, image: nat)
    returns (at: seq<nat>)
    requires AreOffers(perImage, hits) && image in perImage.lists
    ensures Ascending(at)
    ensures forall i: nat :: i in at <==>
              && i < |hits| && hits[i].image == image
              && !exists j :: 0 <= j < i && hits[j].row == hits[i].row && hits[j].image == image
    ensures |perImage.lists[image]| == |at|
    ensures forall e :: 0 <= e < |at| ==> IsEntryOf(hits, at[e], perImage.lists[image][e])
  {
    var keep := IsOffered(hits, image);
    at := Select(keep, 0, |hits|);
    SelectAscending(keep, 0, |hits|);
    forall i: nat
      ensures i in at <==>
                && i < |hits| && hits[i].image == image
                && !exists j :: 0 <= j < i && hits[j].row == hits[i].row && hits[j].image == image
    {
      assert i in at <==> i < |hits| && keep(i);
      if i < |hits| {
        SameCellIsSeen(hits, i);
      }
    }
    OffersSelect(hits, image, |hits|);
    assert hits[..|hits|] == hits;
  }

  /** The images that are offered something are those of the hits, as they first came. */
  lemma {:induction false} OfferedImages(perImage: Groups<nat, Entry>, hits: seq<Hit>)
    requires AreOffers(perImage, hits)
    ensures NoRepeats(perImage.order)
    ensures forall image :: image in perImage.order <==> exists i :: 0 <= i < |hits| && hits[i].image == image
  {
    FirstSeenMembers(Map(OtherOf, FirstHits(hits)));
    forall image ensures image in perImage.order <==> exists i :: 0 <= i < |hits| && hits[i].image == image {
      OfferedImage(hits, image, |hits|);
      assert hits[..|hits|] == hits;
    }
  }

  lemma {:induction false} OfferedImage(hits: seq<Hit>, image: nat, n: nat)
    requires n <= |hits|
    ensures image in Map(OtherOf, FirstHits(hits[..n])) <==> exists i :: 0 <= i < n && hits[i].image == image
  {
    if n > 0 {
      OfferedImage(hits, image, n - 1);
      FirstHitsNext(hits, n - 1);
      MapAppend(OtherOf, FirstHits(hits[..n - 1]), [hits[n - 1]]);
      assert Map(OtherOf, [hits[n - 1]]) == [hits[n - 1].image];
      if CellOf(hits[n - 1]) in Cells(hits[..n - 1]) {
        SameCellIsSeen(hits, n - 1);
        assert FirstHits(hits[..n]) == FirstHits(hits[..n - 1]);
      }
    }
  }

  /** The offered lists hold one entry per cell, the entry of the cell's first hit, and no other. */
  lemma OffersTotalCells(perImage: Groups<nat, Entry>, hits: seq<Hit>)
    requires AreOffers(perImage, hits)
    ensures forall k :: k in perImage.order ==> k in perImage.lists
    ensures Total(seq(|perImage.order|, i requires 0 <= i < |perImage.order| => perImage.lists[perImage.order[i]]))
         == |FirstSeen(Cells(hits))|
  {
    var keys, entries := Map(OtherOf, FirstHits(hits)), Map(EntryOf, FirstHits(hits));
    GroupsConserve(keys, entries);
    FirstHitsAreCells(hits);
    assert seq(|perImage.order|, i requires 0 <= i < |perImage.order| => perImage.lists[perImage.order[i]])
        == ListsIn(keys, entries, perImage.order);
  }
}
