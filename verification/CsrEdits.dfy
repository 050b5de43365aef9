/** Carrying point edits out on a reconstruction stored in compressed rows
    (scripts/measure_edit_costs.py).

    A base holds its tracks as one run of observation rows, `counts[p]` of them for point `p`.
    The edits are a set of points deleted outright, a set re-added in place with one extra row,
    and new points of two rows. The specification edits a list of tracks; the method rebuilds
    the CSR columns by gathers and one stable sort on (point, image). */
module CsrEdits {
  import opened Arrays
  import opened TrackSort
  import opened RowGather

  // ----- the data model -----

  datatype Csr<V> = Csr(counts: seq<nat>, images: seq<nat>, columns: map<string, seq<V>>,
                        points: map<string, seq<V>>) {
    predicate Valid() {
      && |images| == Offset(counts, |counts|)
      && (forall key :: key in columns ==> |columns[key]| == |images|)
      && (forall key :: key in points ==> |points[key]| == |counts|)
    }

    function RowAt(r: nat): Row<V>
      requires Valid() && r < |images|
    {
      Row(images[r], map key | key in columns :: columns[key][r])
    }

    function Rows(): (rows: seq<Row<V>>)
      requires Valid()
      ensures |rows| == |images|
    {
      seq(|images|, r requires 0 <= r < |images| => RowAt(r))
    }

    function Track(p: nat): seq<Row<V>>
      requires Valid() && p < |counts|
    {
      Stretch(counts, Rows(), p)
    }

    function Tracks(): seq<seq<Row<V>>>
      requires Valid()
    {
      seq(|counts|, p requires 0 <= p < |counts| => Track(p))
    }
  }

  datatype Plan = Plan(modified: seq<nat>, deleted: seq<nat>, newPoints: nat) {
    predicate Valid(n: nat) {
      && Ascending(modified) && InBounds(modified, n)
      && Ascending(deleted) && InBounds(deleted, n)
      && (forall p :: p in modified ==> p !in deleted)
    }

    function ExtraRows(): nat { |modified| + 2 * newPoints }
  }

  datatype Materialised<V> = Materialised(value: Csr<V>, pointIndexes: seq<int>,
                                          offsets: seq<nat>, rowMap: seq<int>)

  // ----- the specification: editing a list of tracks -----

  ghost function ExtraRow<V>(base: Csr<V>, zero: V, image: nat): Row<V> {
    Row(image, map key | key in base.columns :: zero)
  }

  /** A surviving point's rows before the re-sort: its base track, and the added row if it was
      modified. */
  ghost function EditedRows<V>(base: Csr<V>, plan: Plan, extra: seq<nat>, zero: V, p: nat): seq<Row<V>>
    requires base.Valid() && p < |base.counts| && |extra| == plan.ExtraRows()
  {
    base.Track(p)
    + (if p in plan.modified then [ExtraRow(base, zero, extra[IndexIn(plan.modified, p)])] else [])
  }

  ghost function NewRows<V>(base: Csr<V>, plan: Plan, extra: seq<nat>, zero: V, j: nat): seq<Row<V>>
    requires |extra| == plan.ExtraRows() && j < plan.newPoints
  {
    var m := |plan.modified| + 2 * j;
    [ExtraRow(base, zero, extra[m]), ExtraRow(base, zero, extra[m + 1])]
  }

  /** The points below `n`, each deleted point dropped from the list and each other one edited. */
  ghost function SurvivingLists<V>(base: Csr<V>, plan: Plan, extra: seq<nat>, zero: V, n: nat)
    : (tracks: seq<seq<Row<V>>>)
    requires base.Valid() && n <= |base.counts| && |extra| == plan.ExtraRows()
    ensures |tracks| == Survivors(plan.deleted, n)
  {
    if n == 0 then []
    else
      SurvivingLists(base, plan, extra, zero, n - 1)
      + (if n - 1 in plan.deleted then [] else [EditedRows(base, plan, extra, zero, n - 1)])
  }

  ghost function NewLists<V>(base: Csr<V>, plan: Plan, extra: seq<nat>, zero: V, c: nat): (tracks: seq<seq<Row<V>>>)
    requires |extra| == plan.ExtraRows() && c <= plan.newPoints
    ensures |tracks| == c
  {
    seq(c, j requires 0 <= j < c => NewRows(base, plan, extra, zero, j))
  }

  /** The edited list of tracks: deletions drop out, the new points go on the end. */
  ghost function EditedLists<V>(base: Csr<V>, plan: Plan, extra: seq<nat>, zero: V): (tracks: seq<seq<Row<V>>>)
    requires base.Valid() && |extra| == plan.ExtraRows()
    ensures |tracks| == Survivors(plan.deleted, |base.counts|) + plan.newPoints
  {
    SurvivingLists(base, plan, extra, zero, |base.counts|) + NewLists(base, plan, extra, zero, plan.newPoints)
  }

  /** ... each track sorted by image, ties in the order the rows came. */
  ghost function EditedTracks<V>(base: Csr<V>, plan: Plan, extra: seq<nat>, zero: V): (tracks: seq<seq<Row<V>>>)
    requires base.Valid() && |extra| == plan.ExtraRows()
    ensures |tracks| == Survivors(plan.deleted, |base.counts|) + plan.newPoints
  {
    var lists := EditedLists(base, plan, extra, zero);
    seq(|lists|, q requires 0 <= q < |lists| => StableSort(ByImage(), lists[q]))
  }

  // ----- the row map -----

  /** How many of the points below `p` survive. */
  function Survivors(deleted: seq<nat>, p: nat): (k: nat)
    ensures k <= p
  {
    if p == 0 then 0 else Survivors(deleted, p - 1) + (if p - 1 in deleted then 0 else 1)
  }

  ghost function RowMap(deleted: seq<nat>, n: nat): seq<int> {
    seq(n, p requires 0 <= p => if p in deleted then -1 else Survivors(deleted, p) as int)
  }

  lemma {:induction false} SurvivorsMonotone(deleted: seq<nat>, p: nat, q: nat)
    requires p <= q
    ensures Survivors(deleted, p) <= Survivors(deleted, q)
    ensures p < q && p !in deleted ==> Survivors(deleted, p) < Survivors(deleted, q)
    decreases q - p
  {
    if p < q {
      SurvivorsMonotone(deleted, p, q - 1);
    }
  }

  /** The inverse of the row map: the survivor that lands at `k`. */
  ghost function SurvivorAt(deleted: seq<nat>, n: nat, k: nat): (p: nat)
    requires k < Survivors(deleted, n)
    ensures p < n && p !in deleted && Survivors(deleted, p) == k
  {
    if n - 1 !in deleted && Survivors(deleted, n - 1) == k then n - 1 else SurvivorAt(deleted, n - 1, k)
  }

  /** The row map is a strictly increasing bijection from the survivors onto 0..survivors-1. */
  lemma {:induction false} RowMapIsBijection(deleted: seq<nat>, n: nat)
    ensures var m := RowMap(deleted, n);
            && (forall p :: 0 <= p < n ==> (m[p] == -1 <==> p in deleted))
            && (forall p :: 0 <= p < n && p !in deleted ==> 0 <= m[p] < Survivors(deleted, n))
            && (forall p, q :: 0 <= p < q < n && p !in deleted && q !in deleted ==> m[p] < m[q])
            && (forall k :: 0 <= k < Survivors(deleted, n) ==> k in m)
  {
    var m := RowMap(deleted, n);
    forall p | 0 <= p < n && p !in deleted ensures 0 <= m[p] < Survivors(deleted, n) {
      SurvivorsMonotone(deleted, p, n);
    }
    forall p, q | 0 <= p < q < n && p !in deleted && q !in deleted ensures m[p] < m[q] {
      SurvivorsMonotone(deleted, p, q);
    }
    forall k | 0 <= k < Survivors(deleted, n) ensures k in m {
      assert m[SurvivorAt(deleted, n, k)] == k;
    }
  }

  lemma {:induction false} SurvivorsOfMore(deleted: seq<nat>, d: nat, n: nat)
    requires n <= d
    ensures Survivors(deleted + [d], n) == Survivors(deleted, n)
  {
    if n > 0 {
      SurvivorsOfMore(deleted, d, n - 1);
      assert n - 1 in deleted + [d] <==> n - 1 in deleted;
    }
  }

  /** Deleting distinct points closes exactly that many slots. */
  lemma {:induction false} SurvivorCount(deleted: seq<nat>, n: nat)
    requires Ascending(deleted) && InBounds(deleted, n)
    ensures Survivors(deleted, n) == n - |deleted|
    decreases n
  {
    if |deleted| == 0 {
      if n > 0 {
        SurvivorCount(deleted, n - 1);
      }
    } else {
      var k := |deleted| - 1;
      assert deleted == deleted[..k] + [deleted[k]];
      if deleted[k] == n - 1 {
        SurvivorsOfMore(deleted[..k], n - 1, n - 1);
        SurvivorCount(deleted[..k], n - 1);
      } else {
        SurvivorCount(deleted, n - 1);
      }
    }
  }

  lemma {:induction false} SurvivingListAt<V>(base: Csr<V>, plan: Plan, extra: seq<nat>, zero: V, n: nat, p: nat)
    requires base.Valid() && n <= |base.counts| && |extra| == plan.ExtraRows()
    requires p < n && p !in plan.deleted
    ensures Survivors(plan.deleted, p) < Survivors(plan.deleted, n)
    ensures SurvivingLists(base, plan, extra, zero, n)[Survivors(plan.deleted, p)]
         == EditedRows(base, plan, extra, zero, p)
  {
    SurvivorsMonotone(plan.deleted, p, n);
    if p < n - 1 {
      SurvivingListAt(base, plan, extra, zero, n - 1, p);
    }
  }

  // ----- the specification's view of the gathered rows -----

  ghost function Untouched(plan: Plan, n: nat): seq<bool> {
    seq(n, p requires 0 <= p => p !in plan.deleted && p !in plan.modified)
  }

  ghost function ExtraRowsOf<V>(base: Csr<V>, zero: V, extra: seq<nat>): (r: seq<Row<V>>)
    ensures |r| == |extra|
  {
    seq(|extra|, i requires 0 <= i < |extra| => ExtraRow(base, zero, extra[i]))
  }

  ghost function OwnersOf<V>(base: Csr<V>, plan: Plan): seq<int>
    requires base.Valid() && plan.Valid(|base.counts|)
  {
    var n := |base.counts|;
    AllOwners(base.counts, Untouched(plan, n), RowMap(plan.deleted, n), plan.modified,
              Survivors(plan.deleted, n), plan.newPoints)
  }

  ghost function RowsOf<V>(base: Csr<V>, plan: Plan, extra: seq<nat>, zero: V): seq<Row<V>>
    requires base.Valid() && plan.Valid(|base.counts|)
  {
    AllRows(base.counts, Untouched(plan, |base.counts|), plan.modified, base.Rows(), ExtraRowsOf(base, zero, extra))
  }

  ghost function ImagesOf<V>(base: Csr<V>, plan: Plan, extra: seq<nat>): seq<nat>
    requires base.Valid() && plan.Valid(|base.counts|)
  {
    AllRows(base.counts, Untouched(plan, |base.counts|), plan.modified, base.images, extra)
  }

  ghost function PositionIn(xs: seq<nat>, x: nat): int {
    if x in xs then IndexIn(xs, x) else -1
  }

  lemma {:induction false} RowMapInRange(plan: Plan, n: nat)
    requires plan.Valid(n)
    ensures var m := RowMap(plan.deleted, n);
            && (forall i :: 0 <= i < |plan.modified| ==> 0 <= m[plan.modified[i]] < Survivors(plan.deleted, n))
            && (forall p :: 0 <= p < n && Untouched(plan, n)[p] ==> 0 <= m[p] < Survivors(plan.deleted, n))
            && (forall p :: 0 <= p < n ==> m[p] < Survivors(plan.deleted, n))
  {
    RowMapIsBijection(plan.deleted, n);
    var m := RowMap(plan.deleted, n);
    forall i | 0 <= i < |plan.modified| ensures 0 <= m[plan.modified[i]] < Survivors(plan.deleted, n) {
      assert plan.modified[i] in plan.modified;
    }
  }

  /** Only survivor `p` lands at its place, among the untouched points and the modified ones. */
  lemma {:induction false} OnlyLanding(plan: Plan, n: nat, p: nat, q: nat)
    requires plan.Valid(n) && p < n && p !in plan.deleted && q == Survivors(plan.deleted, p)
    ensures var m := RowMap(plan.deleted, n);
            && m[p] == q < Survivors(plan.deleted, n)
            && (forall o :: 0 <= o < n && m[o] == q ==> o == p)
            && (forall i :: 0 <= i < |plan.modified| ==>
               (m[plan.modified[i]] == q <==> i == PositionIn(plan.modified, p)))
  {
    var m := RowMap(plan.deleted, n);
    SurvivorsMonotone(plan.deleted, p, n);
    forall o | 0 <= o < n && m[o] == q ensures o == p {
      SurvivorsMonotone(plan.deleted, if o < p then o else p, if o < p then p else o);
    }
    forall i | 0 <= i < |plan.modified| ensures m[plan.modified[i]] == q <==> i == PositionIn(plan.modified, p) {
      assert plan.modified[i] in plan.modified;
    }
  }

  lemma AssembleTrack<T>(keep: bool, isModified: bool, track: seq<T>, extra: seq<T>)
    requires keep == !isModified
    ensures (if keep then track else []) + (if isModified then track else [])
        + ((if isModified then extra else []) + [])
         == track + (if isModified then extra else [])
  {
  }

  /** Survivor `p`'s materialised point picks its edited rows, and nothing else. */
  lemma {:induction false} PickSurvivor<V>(base: Csr<V>, plan: Plan, extra: seq<nat>, zero: V, p: nat, q: nat)
    requires base.Valid() && plan.Valid(|base.counts|) && |extra| == plan.ExtraRows()
    requires p < |base.counts| && p !in plan.deleted && q == Survivors(plan.deleted, p)
    ensures |OwnersOf(base, plan)| == |RowsOf(base, plan, extra, zero)|
    ensures Pick(OwnersOf(base, plan), RowsOf(base, plan, extra, zero), q) == EditedRows(base, plan, extra, zero, p)
  {
    var n, at := |base.counts|, PositionIn(plan.modified, p);
    var tail := ExtraRowsOf(base, zero, extra);
    OnlyLanding(plan, n, p, q);
    PickAll(base.counts, Untouched(plan, n), RowMap(plan.deleted, n), plan.modified,
            Survivors(plan.deleted, n), plan.newPoints,
            base.Rows(), tail, p, at, q);
    AssembleTrack(Untouched(plan, n)[p], 0 <= at, base.Track(p), if 0 <= at then [tail[at]] else []);
  }

  /** No base point lands on a new point's place. */
  lemma {:induction false} NoLanding(plan: Plan, n: nat, j: nat)
    requires plan.Valid(n)
    ensures var m, q := RowMap(plan.deleted, n), Survivors(plan.deleted, n) + j;
            && (forall o :: 0 <= o < n && Untouched(plan, n)[o] && m[o] == q ==> o == n)
            && (forall i :: 0 <= i < |plan.modified| ==> (m[plan.modified[i]] == q <==> i == -1))
  {
    RowMapInRange(plan, n);
  }

  lemma PickNewPoint<V>(base: Csr<V>, plan: Plan, extra: seq<nat>, zero: V, j: nat, q: nat)
    requires base.Valid() && plan.Valid(|base.counts|) && |extra| == plan.ExtraRows() && j < plan.newPoints
    requires q == Survivors(plan.deleted, |base.counts|) + j
    ensures |OwnersOf(base, plan)| == |RowsOf(base, plan, extra, zero)|
    ensures Pick(OwnersOf(base, plan), RowsOf(base, plan, extra, zero), q) == NewRows(base, plan, extra, zero, j)
  {
    var n := |base.counts|;
    var tail := ExtraRowsOf(base, zero, extra);
    NoLanding(plan, n, j);
    PickAll(base.counts, Untouched(plan, n), RowMap(plan.deleted, n), plan.modified,
            Survivors(plan.deleted, n), plan.newPoints,
            base.Rows(), tail, n, -1, q);
    NewPairs(base, plan, extra, zero, j);
  }

  lemma NewPairs<V>(base: Csr<V>, plan: Plan, extra: seq<nat>, zero: V, j: nat)
    requires |extra| == plan.ExtraRows() && j < plan.newPoints
    ensures [] + [] + ([] + ExtraRowsOf(base, zero, extra)[|plan.modified|..][2 * j..2 * j + 2])
         == NewRows(base, plan, extra, zero, j)
  {
    PairOf(ExtraRowsOf(base, zero, extra), |plan.modified|, 2 * j);
  }

  lemma PairOf<T>(tail: seq<T>, m: nat, k: nat)
    requires m + k + 2 <= |tail|
    ensures [] + [] + ([] + tail[m..][k..k + 2]) == [tail[m + k], tail[m + k + 1]]
  {
    var pair := tail[m..][k..k + 2];
    assert pair == [pair[0], pair[1]];
  }

  lemma {:induction false} EditedSurvivorAt<V>(base: Csr<V>, plan: Plan, extra: seq<nat>, zero: V, p: nat, q: nat)
    requires base.Valid() && |extra| == plan.ExtraRows()
    requires p < |base.counts| && p !in plan.deleted && q == Survivors(plan.deleted, p)
    ensures q < Survivors(plan.deleted, |base.counts|)
    ensures EditedLists(base, plan, extra, zero)[q] == EditedRows(base, plan, extra, zero, p)
  {
    SurvivingListAt(base, plan, extra, zero, |base.counts|, p);
  }

  lemma EditedNewAt<V>(base: Csr<V>, plan: Plan, extra: seq<nat>, zero: V, j: nat, q: nat)
    requires base.Valid() && |extra| == plan.ExtraRows() && j < plan.newPoints
    requires q == Survivors(plan.deleted, |base.counts|) + j
    ensures EditedLists(base, plan, extra, zero)[q] == NewRows(base, plan, extra, zero, j)
  {
    assert NewLists(base, plan, extra, zero, plan.newPoints)[j] == NewRows(base, plan, extra, zero, j);
  }

  /** Materialised point `q` picks its edited list from the gathered rows. */
  ghost predicate PicksList<V>(base: Csr<V>, plan: Plan, extra: seq<nat>, zero: V, q: nat)
    requires base.Valid() && plan.Valid(|base.counts|) && |extra| == plan.ExtraRows()
    requires q < Survivors(plan.deleted, |base.counts|) + plan.newPoints
  {
    && |OwnersOf(base, plan)| == |RowsOf(base, plan, extra, zero)|
    && EditedLists(base, plan, extra, zero)[q] == Pick(OwnersOf(base, plan), RowsOf(base, plan, extra, zero), q)
  }

  lemma PickSurvivingList<V>(base: Csr<V>, plan: Plan, extra: seq<nat>, zero: V, q: nat)
    requires base.Valid() && plan.Valid(|base.counts|) && |extra| == plan.ExtraRows()
    requires q < Survivors(plan.deleted, |base.counts|)
    ensures PicksList(base, plan, extra, zero, q)
  {
    var p := SurvivorAt(plan.deleted, |base.counts|, q);
    EditedSurvivorAt(base, plan, extra, zero, p, q);
    PickSurvivor(base, plan, extra, zero, p, q);
  }

  lemma PickNewList<V>(base: Csr<V>, plan: Plan, extra: seq<nat>, zero: V, j: nat, q: nat)
    requires base.Valid() && plan.Valid(|base.counts|) && |extra| == plan.ExtraRows() && j < plan.newPoints
    requires q == Survivors(plan.deleted, |base.counts|) + j
    ensures PicksList(base, plan, extra, zero, q)
  {
    EditedNewAt(base, plan, extra, zero, j, q);
    PickNewPoint(base, plan, extra, zero, j, q);
  }

  lemma PickIsTrack<V>(base: Csr<V>, plan: Plan, extra: seq<nat>, zero: V, q: nat)
    requires base.Valid() && plan.Valid(|base.counts|) && |extra| == plan.ExtraRows()
    requires q < Survivors(plan.deleted, |base.counts|) + plan.newPoints
    ensures PicksList(base, plan, extra, zero, q)
  {
    if q < Survivors(plan.deleted, |base.counts|) {
      PickSurvivingList(base, plan, extra, zero, q);
    } else {
      PickNewList(base, plan, extra, zero, q - Survivors(plan.deleted, |base.counts|), q);
    }
  }

  // ----- every gathered row lands on a materialised point -----

  lemma KeptOwnersInRange(counts: seq<nat>, keep: seq<bool>, rowMap: seq<int>, s: nat)
    requires |keep| == |rowMap| == |counts|
    requires forall p :: 0 <= p < |counts| && keep[p] ==> 0 <= rowMap[p] < s
    ensures forall i :: 0 <= i < |KeptOwners(counts, keep, rowMap)| ==> 0 <= KeptOwners(counts, keep, rowMap)[i] < s
  {
    RepeatLength(keep, counts);
    RepeatLength(rowMap, counts);
    var kept := KeptRows(counts, keep, Offset(counts, |counts|));
    forall i | 0 <= i < |kept| ensures 0 <= KeptOwners(counts, keep, rowMap)[i] < s {
      var r := kept[i];
      var p := OwnerOf(counts, r);
      RepeatAt(keep, counts, p, r);
      RepeatAt(rowMap, counts, p, r);
      assert Marked(Repeat(keep, counts))(r);
    }
  }

  lemma {:induction false} AddedOwnersInRange(counts: seq<nat>, rowMap: seq<int>, modified: seq<nat>, s: nat)
    requires InBounds(modified, |counts|) && |rowMap| == |counts|
    requires forall i :: 0 <= i < |modified| ==> 0 <= rowMap[modified[i]] < s
    ensures forall i :: 0 <= i < |AddedOwners(counts, rowMap, modified)| ==>
              0 <= AddedOwners(counts, rowMap, modified)[i] < s
  {
    if |modified| > 0 {
      AddedOwnersInRange(counts, rowMap, modified[..|modified| - 1], s);
    }
  }

  lemma OwnersInRange<V>(base: Csr<V>, plan: Plan)
    requires base.Valid() && plan.Valid(|base.counts|)
    ensures var owners := OwnersOf(base, plan);
            forall i :: 0 <= i < |owners| ==> 0 <= owners[i] < Survivors(plan.deleted, |base.counts|) + plan.newPoints
  {
    var n := |base.counts|;
    var s, rowMap := Survivors(plan.deleted, n), RowMap(plan.deleted, n);
    RowMapInRange(plan, n);
    KeptOwnersInRange(base.counts, Untouched(plan, n), rowMap, s);
    AddedOwnersInRange(base.counts, rowMap, plan.modified, s);
    NewOwnersAt(s, plan.newPoints);
    ThreeInRange(KeptOwners(base.counts, Untouched(plan, n), rowMap), AddedOwners(base.counts, rowMap, plan.modified),
                 Gather(rowMap, plan.modified), NewOwners(s, plan.newPoints), s + plan.newPoints);
  }

  lemma ThreeInRange(a: seq<int>, b: seq<int>, c: seq<int>, d: seq<int>, n: nat)
    requires forall i :: 0 <= i < |a| ==> 0 <= a[i] < n
    requires forall i :: 0 <= i < |b| ==> 0 <= b[i] < n
    requires forall i :: 0 <= i < |c| ==> 0 <= c[i] < n
    requires forall i :: 0 <= i < |d| ==> 0 <= d[i] < n
    ensures var all := a + b + (c + d); forall i :: 0 <= i < |all| ==> 0 <= all[i] < n
  {
  }

  // ----- every column is gathered from the same places -----

  /** Where each gathered cell comes from, in the base column with the extra cells behind it. */
  function Source(counts: seq<nat>, keep: seq<bool>, modified: seq<nat>, extra: nat): (r: seq<nat>)
    requires |keep| == |counts| && InBounds(modified, |counts|)
    ensures InBounds(r, Offset(counts, |counts|) + extra)
  {
    var n := Offset(counts, |counts|);
    KeptRows(counts, keep, n) + BaseRows(counts, modified) + Range(n, n + extra)
  }

  lemma {:induction false} AllRowsFromSource<T>(counts: seq<nat>, keep: seq<bool>, modified: seq<nat>, column: seq<T>,
                                                tail: seq<T>)
    requires |keep| == |counts| && |column| == Offset(counts, |counts|) && InBounds(modified, |counts|)
    ensures AllRows(counts, keep, modified, column, tail)
         == Gather(column + tail, Source(counts, keep, modified, |tail|))
  {
    var n := |column|;
    var a, b := KeptRows(counts, keep, n), BaseRows(counts, modified);
    GatherThree(column, tail, a, b);
  }

  lemma GatherThree<T>(column: seq<T>, tail: seq<T>, a: seq<nat>, b: seq<nat>)
    requires InBounds(a, |column|) && InBounds(b, |column|)
    ensures InBounds(a + b + Range(|column|, |column| + |tail|), |column + tail|)
    ensures Gather(column + tail, a + b + Range(|column|, |column| + |tail|))
         == Gather(column, a) + Gather(column, b) + tail
  {
  }

  lemma RowsMatchColumns<V>(base: Csr<V>, plan: Plan, extra: seq<nat>, zero: V)
    requires base.Valid() && plan.Valid(|base.counts|)
    ensures |RowsOf(base, plan, extra, zero)| == |ImagesOf(base, plan, extra)|
    ensures forall i :: 0 <= i < |RowsOf(base, plan, extra, zero)| ==>
              RowsOf(base, plan, extra, zero)[i].image == ImagesOf(base, plan, extra)[i]
  {
    var keep := Untouched(plan, |base.counts|);
    AllRowsFromSource(base.counts, keep, plan.modified, base.Rows(), ExtraRowsOf(base, zero, extra));
    AllRowsFromSource(base.counts, keep, plan.modified, base.images, extra);
    var source := Source(base.counts, keep, plan.modified, |extra|);
    forall i | 0 <= i < |source|
      ensures RowsOf(base, plan, extra, zero)[i].image == ImagesOf(base, plan, extra)[i]
    {
      assert source[i] < |base.images| + |extra|;
    }
  }

  lemma TrackIsPick<V>(base: Csr<V>, plan: Plan, extra: seq<nat>, zero: V, q: nat)
    requires base.Valid() && plan.Valid(|base.counts|) && |extra| == plan.ExtraRows()
    requires q < |EditedTracks(base, plan, extra, zero)|
    ensures var owners, rows := OwnersOf(base, plan), RowsOf(base, plan, extra, zero);
            |owners| == |rows|
            && EditedTracks(base, plan, extra, zero)[q] == StableSort(ByImage(), Pick(owners, rows, q))
  {
    PickIsTrack(base, plan, extra, zero, q);
  }

  /** The heart of the refinement: the one sort on (point, image) turns the gathered rows into the
      edited tracks laid end to end. */
  lemma SortedRowsAreTracks<V>(base: Csr<V>, plan: Plan, extra: seq<nat>, zero: V)
    requires base.Valid() && plan.Valid(|base.counts|) && |extra| == plan.ExtraRows()
    ensures var owners, rows := OwnersOf(base, plan), RowsOf(base, plan, extra, zero);
            var order := Argsort(LexLe(owners, ImagesOf(base, plan, extra)), |rows|);
            var tracks := EditedTracks(base, plan, extra, zero);
            && |owners| == |rows| && InBounds(order, |rows|)
            && Gather(rows, order) == Flatten(tracks)
            && Gather(owners, order) == Repeat<int>(Range(0, |tracks|), Lengths(tracks))
  {
    var owners, rows, images := OwnersOf(base, plan), RowsOf(base, plan, extra, zero), ImagesOf(base, plan, extra);
    var tracks := EditedTracks(base, plan, extra, zero);
    RowsMatchColumns(base, plan, extra, zero);
    OwnersInRange(base, plan);
    forall q | 0 <= q < |tracks|
      ensures |owners| == |rows| && tracks[q] == StableSort(ByImage(), Pick(owners, rows, q))
    {
      TrackIsPick(base, plan, extra, zero, q);
    }
    OwnersLength(base, plan, extra, zero);
    BlocksAreTracks(owners, rows, images, tracks);
    SortIsBlocks(owners, images, Range(0, |rows|), |tracks|);
  }

  lemma OwnersLength<V>(base: Csr<V>, plan: Plan, extra: seq<nat>, zero: V)
    requires base.Valid() && plan.Valid(|base.counts|) && |extra| == plan.ExtraRows()
    ensures |OwnersOf(base, plan)| == |RowsOf(base, plan, extra, zero)|
  {
    NewOwnersAt(Survivors(plan.deleted, |base.counts|), plan.newPoints);
  }

  // ----- reading the materialised value back -----

  /** The gathered cells of one base column, the extra rows' cells being `zero`. */
  ghost function CellsOf<V>(base: Csr<V>, plan: Plan, extra: nat, zero: V, key: string): seq<V>
    requires base.Valid() && plan.Valid(|base.counts|) && key in base.columns
  {
    AllRows(base.counts, Untouched(plan, |base.counts|), plan.modified, base.columns[key], Fill(extra, zero))
  }

  lemma RowIsItsCells<V>(base: Csr<V>, plan: Plan, extra: seq<nat>, zero: V, i: nat)
    requires base.Valid() && plan.Valid(|base.counts|) && i < |RowsOf(base, plan, extra, zero)|
    ensures |ImagesOf(base, plan, extra)| == |RowsOf(base, plan, extra, zero)|
    ensures forall key :: key in base.columns ==>
              |CellsOf(base, plan, |extra|, zero, key)| == |RowsOf(base, plan, extra, zero)|
    ensures RowsOf(base, plan, extra, zero)[i]
         == Row(ImagesOf(base, plan, extra)[i],
                map key | key in base.columns :: CellsOf(base, plan, |extra|, zero, key)[i])
  {
    var keep := Untouched(plan, |base.counts|);
    var source := Source(base.counts, keep, plan.modified, |extra|);
    AllRowsFromSource(base.counts, keep, plan.modified, base.Rows(), ExtraRowsOf(base, zero, extra));
    AllRowsFromSource(base.counts, keep, plan.modified, base.images, extra);
    forall key | key in base.columns
      ensures CellsOf(base, plan, |extra|, zero, key) == Gather(base.columns[key] + Fill(|extra|, zero), source)
    {
      AllRowsFromSource(base.counts, keep, plan.modified, base.columns[key], Fill(|extra|, zero));
    }
    RowOfCells(base, zero, extra, source[i]);
  }

  /** One row of the base followed by the extra rows, cell by cell. */
  lemma RowOfCells<V>(base: Csr<V>, zero: V, extra: seq<nat>, r: nat)
    requires base.Valid() && r < |base.images| + |extra|
    ensures |base.Rows() + ExtraRowsOf(base, zero, extra)| == |base.images + extra| == |base.images| + |extra|
    ensures forall key :: key in base.columns ==> |base.columns[key] + Fill(|extra|, zero)| == |base.images| + |extra|
    ensures (base.Rows() + ExtraRowsOf(base, zero, extra))[r]
         == Row((base.images + extra)[r], map key | key in base.columns :: (base.columns[key] + Fill(|extra|, zero))[r])
  {
  }

  ghost predicate SortedColumns<V>(base: Csr<V>, plan: Plan, extra: seq<nat>, zero: V, order: seq<nat>,
                                   images: seq<nat>, columns: map<string, seq<V>>)
    requires base.Valid() && plan.Valid(|base.counts|) && InBounds(order, |ImagesOf(base, plan, extra)|)
  {
    && images == Gather(ImagesOf(base, plan, extra), order)
    && columns.Keys == base.columns.Keys
    && (forall key :: key in base.columns ==>
          && |CellsOf(base, plan, |extra|, zero, key)| == |ImagesOf(base, plan, extra)|
          && columns[key] == Gather(CellsOf(base, plan, |extra|, zero, key), order))
  }

  lemma SortedColumnsAreRows<V>(base: Csr<V>, plan: Plan, extra: seq<nat>, zero: V, order: seq<nat>, value: Csr<V>)
    requires base.Valid() && plan.Valid(|base.counts|) && InBounds(order, |RowsOf(base, plan, extra, zero)|)
    requires |ImagesOf(base, plan, extra)| == |RowsOf(base, plan, extra, zero)|
    requires SortedColumns(base, plan, extra, zero, order, value.images, value.columns) && value.Valid()
    ensures value.Rows() == Gather(RowsOf(base, plan, extra, zero), order)
  {
    forall r | 0 <= r < |order| ensures value.RowAt(r) == RowsOf(base, plan, extra, zero)[order[r]] {
      RowIsItsCells(base, plan, extra, zero, order[r]);
    }
  }

  /** The sorted columns and their counts are the edited tracks. */
  lemma MaterialisedIsEdited<V>(base: Csr<V>, plan: Plan, extra: seq<nat>, zero: V, order: seq<nat>, value: Csr<V>)
    requires base.Valid() && plan.Valid(|base.counts|) && |extra| == plan.ExtraRows()
    requires |OwnersOf(base, plan)| == |ImagesOf(base, plan, extra)|
    requires order == Argsort(LexLe(OwnersOf(base, plan), ImagesOf(base, plan, extra)), |OwnersOf(base, plan)|)
    requires InBounds(order, |OwnersOf(base, plan)|)
    requires SortedColumns(base, plan, extra, zero, order, value.images, value.columns)
    requires value.counts
          == BinCount(Gather(OwnersOf(base, plan), order), Survivors(plan.deleted, |base.counts|) + plan.newPoints)
    requires forall key :: key in value.points ==> |value.points[key]| == |value.counts|
    ensures value.Valid()
    ensures value.Tracks() == EditedTracks(base, plan, extra, zero)
    ensures Gather(OwnersOf(base, plan), order) == Repeat<int>(Range(0, |value.counts|), value.counts)
  {
    var tracks := EditedTracks(base, plan, extra, zero);
    SortedRowsAreTracks(base, plan, extra, zero);
    BinCountOfRepeat(Lengths(tracks));
    FlattenLength(tracks);
    SortedColumnsAreRows(base, plan, extra, zero, order, value);
    TracksFromRows(value, tracks);
  }

  lemma {:induction false} TracksFromRows<V>(value: Csr<V>, tracks: seq<seq<Row<V>>>)
    requires value.Valid() && value.counts == Lengths(tracks) && value.Rows() == Flatten(tracks)
    ensures value.Tracks() == tracks
  {
    forall q | 0 <= q < |tracks| ensures value.Track(q) == tracks[q] {
      FlattenStretch(tracks, q);
    }
  }

  // ----- the method -----

  function Flags(index: seq<nat>, n: nat): (r: seq<bool>)
    ensures |r| == n
  {
    seq(n, p requires 0 <= p => p in index)
  }

  /** `mask = zeros(n, dtype=bool); mask[index] = True`. */
  method Mask(n: nat, index: seq<nat>) returns (flags: array<bool>)
    requires InBounds(index, n)
    ensures fresh(flags) && flags[..] == Flags(index, n)
  {
    flags := new bool[n](_ => false);
    for k := 0 to |index|
      invariant forall i :: 0 <= i < n ==> flags[i] == (i in index[..k])
    {
      assert index[..k + 1] == index[..k] + [index[k]];
      flags[index[k]] := true;
    }
    assert index[..|index|] == index;
  }

  /** Entry `p - 1` of `cumsum(flags)`. */
  function Up(flags: seq<bool>, p: nat): nat
    requires p <= |flags|
  {
    if p == 0 then 0 else Up(flags, p - 1) + (if flags[p - 1] then 1 else 0)
  }

  lemma {:induction false} UpAndSurvivors(deleted: seq<nat>, n: nat, p: nat)
    requires p <= n
    ensures Up(Flags(deleted, n), p) + Survivors(deleted, p) == p
  {
    if p > 0 {
      UpAndSurvivors(deleted, n, p - 1);
    }
  }

  function Shifted(flags: seq<bool>): (r: seq<int>)
    ensures |r| == |flags|
  {
    seq(|flags|, p requires 0 <= p < |flags| => p - Up(flags, p + 1))
  }

  /** `row_map[is_deleted] = -1`. */
  method WriteOver(rowMap: array<int>, isDeleted: array<bool>)
    requires rowMap.Length == isDeleted.Length
    modifies rowMap
    ensures forall p :: 0 <= p < rowMap.Length ==> rowMap[p] == if isDeleted[p] then -1 else old(rowMap[p])
  {
    for p := 0 to rowMap.Length
      invariant forall o :: 0 <= o < rowMap.Length ==> rowMap[o] == if o < p && isDeleted[o] then -1 else old(rowMap[o])
    {
      if isDeleted[p] {
        rowMap[p] := -1;
      }
    }
  }

  /** `arange(n) - cumsum(is_deleted)`, with -1 written over the deleted points. */
  method BuildRowMap(isDeleted: array<bool>, ghost deleted: seq<nat>) returns (rowMap: array<int>)
    requires isDeleted[..] == Flags(deleted, isDeleted.Length)
    ensures fresh(rowMap) && rowMap[..] == RowMap(deleted, isDeleted.Length)
  {
    var n, flags := isDeleted.Length, isDeleted[..];
    var shifted := Shifted(flags);
    rowMap := new int[n](p requires 0 <= p < n => shifted[p]);
    WriteOver(rowMap, isDeleted);
    forall p | 0 <= p < n ensures rowMap[p] == RowMap(deleted, n)[p] {
      assert isDeleted[p] == flags[p] == (p in deleted);
      UpAndSurvivors(deleted, n, p);
    }
  }

  /** The deletion mask, the mask of points carried over untouched, and the row map. */
  method PointMaps(n: nat, plan: Plan) returns (isDeleted: seq<bool>, untouched: seq<bool>, rowMap: seq<int>)
    requires plan.Valid(n)
    ensures isDeleted == Flags(plan.deleted, n)
    ensures untouched == Untouched(plan, n)
    ensures rowMap == RowMap(plan.deleted, n)
  {
    var deletedFlags := Mask(n, plan.deleted);
    var modifiedFlags := Mask(n, plan.modified);
    var rowMapArray := BuildRowMap(deletedFlags, plan.deleted);
    var isModified := modifiedFlags[..];
    isDeleted, rowMap := deletedFlags[..], rowMapArray[..];
    untouched := seq(n, p requires 0 <= p < n => !isDeleted[p] && !isModified[p]);
  }

  lemma {:induction false} RepeatGathered(rowMap: seq<int>, points: seq<nat>, counts: seq<nat>)
    requires |points| == |counts| && InBounds(points, |rowMap|)
    ensures InBounds(Repeat(points, counts), |rowMap|)
    ensures Repeat(Gather(rowMap, points), counts) == Gather(rowMap, Repeat(points, counts))
  {
    if |points| > 0 {
      var k := |points| - 1;
      RepeatGathered(rowMap, points[..k], counts[..k]);
      assert Gather(rowMap, points)[..k] == Gather(rowMap, points[..k]);
      GatherAppend(rowMap, Repeat(points[..k], counts[..k]), Fill(counts[k], points[k]));
    }
  }

  lemma GatherTwice(rowMap: seq<int>, owners: seq<nat>, kept: seq<nat>)
    requires InBounds(owners, |rowMap|) && InBounds(kept, |owners|)
    ensures InBounds(Gather(owners, kept), |rowMap|)
    ensures Gather(rowMap, Gather(owners, kept)) == Gather(Gather(rowMap, owners), kept)
  {
  }

  /** The carried-over rows' points, as the script writes them:
      `row_map[repeat(arange(n), counts)[base_kept]]`. */
  lemma {:induction false} KeptOwnersAsWritten(counts: seq<nat>, keep: seq<bool>, rowMap: seq<int>)
    requires |keep| == |rowMap| == |counts|
    ensures var kept, owners := KeptRows(counts, keep, Offset(counts, |counts|)), Repeat(Range(0, |counts|), counts);
            && InBounds(kept, |owners|) && InBounds(Gather(owners, kept), |rowMap|)
            && KeptOwners(counts, keep, rowMap) == Gather(rowMap, Gather(owners, kept))
  {
    var kept, owners := KeptRows(counts, keep, Offset(counts, |counts|)), Repeat(Range(0, |counts|), counts);
    RepeatLength(Range(0, |counts|), counts);
    RepeatGathered(rowMap, Range(0, |counts|), counts);
    GatherRange(rowMap, 0, |counts|);
    assert rowMap[0..|counts|] == rowMap;
    GatherTwice(rowMap, owners, kept);
  }

  // ----- the point columns -----

  function Complement(flags: seq<bool>): (r: seq<bool>)
    ensures |r| == |flags|
  {
    seq(|flags|, p requires 0 <= p < |flags| => !flags[p])
  }

  lemma {:induction false} SurvivorCountRows(deleted: seq<nat>, n: nat, m: nat)
    requires m <= n
    ensures |Select(Marked(Complement(Flags(deleted, n))), 0, m)| == Survivors(deleted, m)
  {
    if m > 0 {
      SurvivorCountRows(deleted, n, m - 1);
      assert Marked(Complement(Flags(deleted, n)))(m - 1) == (m - 1 !in deleted);
    }
  }

  lemma {:induction false} SurvivorRowAt(deleted: seq<nat>, n: nat, m: nat, p: nat)
    requires p < m <= n && p !in deleted
    ensures Survivors(deleted, p) < |Select(Marked(Complement(Flags(deleted, n))), 0, m)|
    ensures Select(Marked(Complement(Flags(deleted, n))), 0, m)[Survivors(deleted, p)] == p
  {
    assert Marked(Complement(Flags(deleted, n)))(m - 1) == (m - 1 !in deleted);
    if p < m - 1 {
      SurvivorRowAt(deleted, n, m - 1, p);
    } else {
      SurvivorCountRows(deleted, n, p);
    }
  }

  /** A point column after the edit: each survivor's entry at its new place, then `zero` for every
      new point. */
  ghost predicate EditedColumn<V>(plan: Plan, column: seq<V>, zero: V, out: seq<V>) {
    var n, s := |column|, Survivors(plan.deleted, |column|);
    && |out| == s + plan.newPoints
    && (forall p :: 0 <= p < n && p !in plan.deleted ==>
          Survivors(plan.deleted, p) < s && out[Survivors(plan.deleted, p)] == column[p])
    && (forall j :: s <= j < |out| ==> out[j] == zero)
  }

  method EditColumn<V>(plan: Plan, isDeleted: seq<bool>, column: seq<V>, zero: V) returns (out: seq<V>)
    requires isDeleted == Flags(plan.deleted, |column|)
    ensures EditedColumn(plan, column, zero, out)
  {
    var survivors := Complement(isDeleted);
    SurvivorCountRows(plan.deleted, |column|, |column|);
    out := Gather(column, FlatNonzero(survivors)) + Fill(plan.newPoints, zero);
    forall p | 0 <= p < |column| && p !in plan.deleted
      ensures Survivors(plan.deleted, p) < Survivors(plan.deleted, |column|)
      ensures out[Survivors(plan.deleted, p)] == column[p]
    {
      SurvivorRowAt(plan.deleted, |column|, |column|, p);
    }
  }

  method EditColumns<V>(plan: Plan, isDeleted: seq<bool>, columns: map<string, seq<V>>, zero: V)
    returns (out: map<string, seq<V>>)
    requires forall key :: key in columns ==> |columns[key]| == |isDeleted|
    requires isDeleted == Flags(plan.deleted, |isDeleted|)
    ensures out.Keys == columns.Keys
    ensures forall key :: key in columns ==> EditedColumn(plan, columns[key], zero, out[key])
  {
    out := map[];
    var left := columns.Keys;
    while left != {}
      invariant left <= columns.Keys && out.Keys == columns.Keys - left
      invariant forall key :: key in out ==> EditedColumn(plan, columns[key], zero, out[key])
      decreases left
    {
      var key :| key in left;
      var column := EditColumn(plan, isDeleted, columns[key], zero);
      out := out[key := column];
      left := left - {key};
    }
  }

  // ----- the observation columns -----

  method GatherColumns<V>(base: Csr<V>, plan: Plan, untouched: seq<bool>, extra: nat, zero: V)
    returns (out: map<string, seq<V>>)
    requires base.Valid() && plan.Valid(|base.counts|) && untouched == Untouched(plan, |base.counts|)
    ensures out.Keys == base.columns.Keys
    ensures forall key :: key in out ==> out[key] == CellsOf(base, plan, extra, zero, key)
  {
    out := map[];
    var left := base.columns.Keys;
    while left != {}
      invariant left <= base.columns.Keys && out.Keys == base.columns.Keys - left
      invariant forall key :: key in out ==> out[key] == CellsOf(base, plan, extra, zero, key)
      decreases left
    {
      var key :| key in left;
      out := out[key := AllRows(base.counts, untouched, plan.modified, base.columns[key], Fill(extra, zero))];
      left := left - {key};
    }
  }

  /** `observations[key] = column[order]` for every column gathered. */
  method SortColumns<V>(columns: map<string, seq<V>>, order: seq<nat>) returns (out: map<string, seq<V>>)
    requires forall key :: key in columns ==> InBounds(order, |columns[key]|)
    ensures out.Keys == columns.Keys
    ensures forall key :: key in columns ==> out[key] == Gather(columns[key], order)
  {
    out := columns;
    var left := columns.Keys;
    while left != {}
      invariant left <= columns.Keys == out.Keys
      invariant forall key :: key in columns ==>
                  out[key] == if key in left then columns[key] else Gather(columns[key], order)
      decreases left
    {
      var key :| key in left;
      out := out[key := Gather(out[key], order)];
      left := left - {key};
    }
  }

  lemma GatheredLengths<V>(base: Csr<V>, plan: Plan, extra: seq<nat>, zero: V)
    requires base.Valid() && plan.Valid(|base.counts|) && |extra| == plan.ExtraRows()
    ensures |OwnersOf(base, plan)| == |RowsOf(base, plan, extra, zero)| == |ImagesOf(base, plan, extra)|
    ensures forall key :: key in base.columns ==>
              |CellsOf(base, plan, |extra|, zero, key)| == |ImagesOf(base, plan, extra)|
  {
    OwnersLength(base, plan, extra, zero);
    RowsMatchColumns(base, plan, extra, zero);
    forall key | key in base.columns
      ensures |CellsOf(base, plan, |extra|, zero, key)| == |ImagesOf(base, plan, extra)|
    {
      AllRowsFromSource(base.counts, Untouched(plan, |base.counts|), plan.modified,
                        base.columns[key], Fill(|extra|, zero));
      AllRowsFromSource(base.counts, Untouched(plan, |base.counts|), plan.modified, base.images, extra);
    }
  }

  /** The re-sort: `order = lexsort((image_indexes, point_indexes))`. */
  ghost function ResortOrder<V>(base: Csr<V>, plan: Plan, extra: seq<nat>): seq<nat>
    requires base.Valid() && plan.Valid(|base.counts|)
  {
    Argsort(LexLe(OwnersOf(base, plan), ImagesOf(base, plan, extra)), |OwnersOf(base, plan)|)
  }

  lemma ResortInBounds<V>(base: Csr<V>, plan: Plan, extra: seq<nat>, zero: V)
    requires base.Valid() && plan.Valid(|base.counts|) && |extra| == plan.ExtraRows()
    ensures InBounds(ResortOrder(base, plan, extra), |OwnersOf(base, plan)|)
  {
    GatheredLengths(base, plan, extra, zero);
    SortedRowsAreTracks(base, plan, extra, zero);
  }

  /** The point and the image of every gathered row; the new points start past the survivors. */
  method GatherKeys<V>(base: Csr<V>, plan: Plan, untouched: seq<bool>, rowMap: seq<int>, extra: seq<nat>)
    returns (owners: seq<int>, images: seq<nat>)
    requires base.Valid() && plan.Valid(|base.counts|)
    requires untouched == Untouched(plan, |base.counts|) && rowMap == RowMap(plan.deleted, |base.counts|)
    ensures owners == OwnersOf(base, plan) && images == ImagesOf(base, plan, extra)
  {
    SurvivorCount(plan.deleted, |base.counts|);
    var outPoints := |base.counts| - |plan.deleted|;
    assert outPoints == Survivors(plan.deleted, |base.counts|);
    owners := AllOwners(base.counts, untouched, rowMap, plan.modified, outPoints, plan.newPoints);
    images := AllRows(base.counts, untouched, plan.modified, base.images, extra);
  }

  /** Every observation column gathered and put in the re-sort's order. */
  method SortObservations<V>(base: Csr<V>, plan: Plan, untouched: seq<bool>, rowMap: seq<int>, extra: seq<nat>, zero: V)
    returns (images: seq<nat>, columns: map<string, seq<V>>, pointIndexes: seq<int>)
    requires base.Valid() && plan.Valid(|base.counts|) && |extra| == plan.ExtraRows()
    requires untouched == Untouched(plan, |base.counts|) && rowMap == RowMap(plan.deleted, |base.counts|)
    ensures |OwnersOf(base, plan)| == |ImagesOf(base, plan, extra)|
    ensures InBounds(ResortOrder(base, plan, extra), |OwnersOf(base, plan)|)
    ensures SortedColumns(base, plan, extra, zero, ResortOrder(base, plan, extra), images, columns)
    ensures pointIndexes == Gather(OwnersOf(base, plan), ResortOrder(base, plan, extra))
  {
    GatheredLengths(base, plan, extra, zero);
    ResortInBounds(base, plan, extra, zero);
    var gathered := GatherColumns(base, plan, untouched, |extra|, zero);
    var owners, unsorted := GatherKeys(base, plan, untouched, rowMap, extra);
    var order := Argsort(LexLe(owners, unsorted), |owners|);
    columns := SortColumns(gathered, order);
    images, pointIndexes := Gather(unsorted, order), Gather(owners, order);
  }

  /** The columns, cut at their offsets, read back as exactly the edited list of tracks; the offsets
      and the rows' points spell out the same cut, and the row map is the one above. */
  ghost predicate StandsFor<V>(base: Csr<V>, plan: Plan, extra: seq<nat>, zero: V, out: Materialised<V>)
    requires base.Valid() && plan.Valid(|base.counts|) && |extra| == plan.ExtraRows()
  {
    && out.value.Valid()
    && out.value.Tracks() == EditedTracks(base, plan, extra, zero)
    && out.rowMap == RowMap(plan.deleted, |base.counts|)
    && out.offsets == Offsets(out.value.counts)
    && out.pointIndexes == Repeat<int>(Range(0, |out.value.counts|), out.value.counts)
  }

  /** A base with its edits carried out. */
  method Materialise<V>(base: Csr<V>, plan: Plan, extra: seq<nat>, zero: V) returns (out: Materialised<V>)
    requires base.Valid() && plan.Valid(|base.counts|) && |extra| == plan.ExtraRows()
    ensures StandsFor(base, plan, extra, zero, out)
    ensures out.value.columns.Keys == base.columns.Keys && out.value.points.Keys == base.points.Keys
    ensures forall key :: key in base.points ==> EditedColumn(plan, base.points[key], zero, out.value.points[key])
  {
    var n := |base.counts|;
    var isDeleted, untouched, rowMap := PointMaps(n, plan);
    var outPoints := n - |plan.deleted| + plan.newPoints;
    SurvivorCount(plan.deleted, n);
    var points := EditColumns(plan, isDeleted, base.points, zero);
    var images, columns, pointIndexes := SortObservations(base, plan, untouched, rowMap, extra, zero);
    var value := Csr(BinCount(pointIndexes, outPoints), images, columns, points);
    MaterialisedIsEdited(base, plan, extra, zero, ResortOrder(base, plan, extra), value);
    out := Materialised(value, pointIndexes, Offsets(value.counts), rowMap);
  }
}
