/** What the materialisation's specification says of an edit as a whole: the check `verify` runs on
    it (scripts/measure_edit_costs.py:315-354), row conservation, what stays unchanged, and that
    the plan `build_edits` draws is one the materialisation accepts. */
module CsrEditLaws {
  import opened Arrays
  import opened TrackSort
  import opened CsrEdits

  // ----- each track -----

  ghost predicate ImagesAscend<V>(track: seq<Row<V>>) {
    forall i, j :: 0 <= i < j < |track| ==> track[i].image <= track[j].image
  }

  lemma {:induction false} SortByImage<V(!new)>(rows: seq<Row<V>>)
    ensures ImagesAscend(StableSort(ByImage(), rows))
    ensures multiset(StableSort(ByImage(), rows)) == multiset(rows)
  {
    var sorted := StableSort(ByImage(), rows);
    SortSorted(ByImage<V>(), rows);
    SortMultiset(ByImage<V>(), rows);
    forall i, j | 0 <= i < j < |sorted| ensures sorted[i].image <= sorted[j].image {
      assert ByImage<V>()(sorted[i], sorted[j]);
    }
  }

  ghost function InImage<V>(v: nat): Row<V> -> bool {
    (row: Row<V>) => row.image == v
  }

  lemma {:induction false} InsertKeepsTies<V>(row: Row<V>, rows: seq<Row<V>>, v: nat)
    ensures Filter(InImage(v), Insert(ByImage(), row, rows)) == Filter(InImage(v), [row] + rows)
  {
    assert ([row] + rows)[1..] == rows;
    if |rows| > 0 && row.image > rows[0].image {
      var rest := Insert(ByImage(), row, rows[1..]);
      InsertKeepsTies(row, rows[1..], v);
      assert ([rows[0]] + rest)[1..] == rest;
      assert ([row] + rows[1..])[1..] == rows[1..];
    }
  }

  lemma {:induction false} SortKeepsTies<V>(rows: seq<Row<V>>, v: nat)
    ensures Filter(InImage(v), StableSort(ByImage(), rows)) == Filter(InImage(v), rows)
  {
    if |rows| > 0 {
      var rest := StableSort(ByImage(), rows[1..]);
      SortKeepsTies(rows[1..], v);
      InsertKeepsTies(rows[0], rest, v);
      assert ([rows[0]] + rest)[1..] == rest;
    }
  }

  /** The rows in image order, those of one image in the order they came. */
  ghost predicate InImageOrder<V(!new)>(rows: seq<Row<V>>, track: seq<Row<V>>) {
    && ImagesAscend(track) && multiset(track) == multiset(rows)
    && forall v: nat :: Filter(InImage(v), track) == Filter(InImage(v), rows)
  }

  lemma {:induction false} SortIsInImageOrder<V(!new)>(rows: seq<Row<V>>)
    ensures InImageOrder(rows, StableSort(ByImage(), rows))
  {
    SortByImage(rows);
    forall v: nat ensures Filter(InImage(v), StableSort(ByImage(), rows)) == Filter(InImage(v), rows) {
      SortKeepsTies(rows, v);
    }
  }

  lemma {:induction false} SurvivorTrack<V>(base: Csr<V>, plan: Plan, extra: seq<nat>, zero: V, p: nat)
    requires base.Valid() && |extra| == plan.ExtraRows()
    requires p < |base.counts| && p !in plan.deleted
    ensures var q := Survivors(plan.deleted, p);
            && q < |EditedTracks(base, plan, extra, zero)|
            && EditedTracks(base, plan, extra, zero)[q] == StableSort(ByImage(), EditedRows(base, plan, extra, zero, p))
  {
    SurvivingListAt(base, plan, extra, zero, |base.counts|, p);
  }

  /** The multiset of a surviving point's rows after the edit. */
  ghost function KeptRowsOf<V>(base: Csr<V>, plan: Plan, extra: seq<nat>, zero: V, p: nat): multiset<Row<V>>
    requires base.Valid() && p < |base.counts| && |extra| == plan.ExtraRows()
  {
    multiset(base.Track(p))
    + (if p in plan.modified then multiset{ExtraRow(base, zero, extra[IndexIn(plan.modified, p)])} else multiset{})
  }

  lemma EditedRowsSize<V>(base: Csr<V>, plan: Plan, extra: seq<nat>, zero: V, p: nat)
    requires base.Valid() && p < |base.counts| && |extra| == plan.ExtraRows()
    ensures |EditedRows(base, plan, extra, zero, p)| == base.counts[p] + (if p in plan.modified then 1 else 0)
    ensures multiset(EditedRows(base, plan, extra, zero, p)) == KeptRowsOf(base, plan, extra, zero, p)
  {
    OffsetMonotone(base.counts, p + 1, |base.counts|);
  }

  /** At its place, a surviving point holds exactly its base rows, plus its one added row if it was
      modified, in image order. */
  lemma {:induction false} SurvivorKeepsItsRows<V(!new)>(base: Csr<V>, plan: Plan, extra: seq<nat>, zero: V, p: nat)
    requires base.Valid() && |extra| == plan.ExtraRows()
    requires p < |base.counts| && p !in plan.deleted
    ensures Survivors(plan.deleted, p) < |EditedTracks(base, plan, extra, zero)|
    ensures var track := EditedTracks(base, plan, extra, zero)[Survivors(plan.deleted, p)];
            && ImagesAscend(track)
            && |track| == base.counts[p] + (if p in plan.modified then 1 else 0)
            && multiset(track) == KeptRowsOf(base, plan, extra, zero, p)
  {
    SurvivorTrack(base, plan, extra, zero, p);
    SortByImage(EditedRows(base, plan, extra, zero, p));
    EditedRowsSize(base, plan, extra, zero, p);
  }

  /** A point the edits leave alone, its track in image order as a saved track is, comes through
      row for row. */
  lemma {:induction false} UntouchedTrackIsKept<V>(base: Csr<V>, plan: Plan, extra: seq<nat>, zero: V, p: nat)
    requires base.Valid() && |extra| == plan.ExtraRows()
    requires p < |base.counts| && p !in plan.deleted && p !in plan.modified && ImagesAscend(base.Track(p))
    ensures var q := Survivors(plan.deleted, p);
            && q < |EditedTracks(base, plan, extra, zero)|
            && EditedTracks(base, plan, extra, zero)[q] == base.Track(p)
  {
    SurvivorTrack(base, plan, extra, zero, p);
    SortOfSorted(ByImage(), base.Track(p));
    assert EditedRows(base, plan, extra, zero, p) == base.Track(p);
  }

  /** Materialising no edits gives back the base's tracks. */
  lemma NoEditsIsIdentity<V>(base: Csr<V>, zero: V)
    requires base.Valid() && forall p :: 0 <= p < |base.counts| ==> ImagesAscend(base.Track(p))
    ensures EditedTracks(base, Plan([], [], 0), [], zero) == base.Tracks()
  {
    var none := Plan([], [], 0);
    SurvivorCount([], |base.counts|);
    forall p | 0 <= p < |base.counts| ensures EditedTracks(base, none, [], zero)[p] == base.Tracks()[p] {
      SurvivorCount([], p);
      UntouchedTrackIsKept(base, none, [], zero, p);
    }
  }

  // ----- what the rows hold -----

  /** A point's rows are its stretch of the columns, as long as its count and in their order. */
  lemma {:induction false} TrackSays<V>(base: Csr<V>, p: nat, k: nat)
    requires base.Valid() && p < |base.counts| && k < base.counts[p]
    ensures |base.Track(p)| == base.counts[p] && Offset(base.counts, p) + k < |base.images|
    ensures var row, r := base.Track(p)[k], Offset(base.counts, p) + k;
            && row.image == base.images[r]
            && row.cells.Keys == base.columns.Keys
            && forall key :: key in base.columns ==> row.cells[key] == base.columns[key][r]
  {
    StretchIsSlice(base.counts, base.Rows(), p);
  }

  /** An added row in `image`: zero in every column. */
  ghost predicate IsBlank<V>(base: Csr<V>, zero: V, image: nat, row: Row<V>) {
    && row.image == image && row.cells.Keys == base.columns.Keys
    && forall key :: key in base.columns ==> row.cells[key] == zero
  }

  /** The `m`-th modified point, whose image is the `m`-th drawn, holds its base rows and one added row
      in that image, put in image order. */
  lemma {:induction false} ModifiedGainsItsRow<V(!new)>(base: Csr<V>, plan: Plan, extra: seq<nat>, zero: V, m: nat)
    returns (added: Row<V>)
    requires base.Valid() && plan.Valid(|base.counts|) && |extra| == plan.ExtraRows() && m < |plan.modified|
    ensures IsBlank(base, zero, extra[m], added)
    ensures var p := plan.modified[m];
            var q := Survivors(plan.deleted, p);
            && q < |EditedTracks(base, plan, extra, zero)|
            && InImageOrder(base.Track(p) + [added], EditedTracks(base, plan, extra, zero)[q])
  {
    var p := plan.modified[m];
    added := ExtraRow(base, zero, extra[m]);
    assert p in plan.modified;
    OnlyPlace(plan.modified, m);
    SurvivorTrack(base, plan, extra, zero, p);
    SortIsInImageOrder(EditedRows(base, plan, extra, zero, p));
  }

  lemma OnlyPlace(xs: seq<nat>, m: nat)
    requires Ascending(xs) && m < |xs|
    ensures IndexIn(xs, xs[m]) == m
  {
  }

  /** A survivor that is not modified holds its base rows, put in image order. */
  lemma {:induction false} OthersKeepTheirRows<V(!new)>(base: Csr<V>, plan: Plan, extra: seq<nat>, zero: V, p: nat)
    requires base.Valid() && |extra| == plan.ExtraRows()
    requires p < |base.counts| && p !in plan.deleted && p !in plan.modified
    ensures var q := Survivors(plan.deleted, p);
            && q < |EditedTracks(base, plan, extra, zero)|
            && InImageOrder(base.Track(p), EditedTracks(base, plan, extra, zero)[q])
  {
    SurvivorTrack(base, plan, extra, zero, p);
    SortIsInImageOrder(base.Track(p));
    assert EditedRows(base, plan, extra, zero, p) == base.Track(p);
  }

  /** The `j`-th new point, past the survivors, holds two added rows, in the images drawn for it after
      the modified points' and the earlier new points', put in image order. */
  lemma {:induction false} NewPointHasItsRows<V(!new)>(base: Csr<V>, plan: Plan, extra: seq<nat>, zero: V, j: nat)
    returns (one: Row<V>, two: Row<V>)
    requires base.Valid() && |extra| == plan.ExtraRows() && j < plan.newPoints
    ensures IsBlank(base, zero, extra[|plan.modified| + 2 * j], one)
    ensures IsBlank(base, zero, extra[|plan.modified| + 2 * j + 1], two)
    ensures InImageOrder([one, two], EditedTracks(base, plan, extra, zero)[Survivors(plan.deleted, |base.counts|) + j])
  {
    var m := |plan.modified| + 2 * j;
    one, two := ExtraRow(base, zero, extra[m]), ExtraRow(base, zero, extra[m + 1]);
    ExtraRowIsBlank(base, zero, extra[m]);
    ExtraRowIsBlank(base, zero, extra[m + 1]);
    NewTrackInOrder(base, plan, extra, zero, j, m);
  }

  lemma ExtraRowIsBlank<V>(base: Csr<V>, zero: V, image: nat)
    ensures IsBlank(base, zero, image, ExtraRow(base, zero, image))
  {
  }

  lemma {:induction false} NewTrackInOrder<V(!new)>(base: Csr<V>, plan: Plan, extra: seq<nat>, zero: V, j: nat, m: nat)
    requires base.Valid() && |extra| == plan.ExtraRows() && j < plan.newPoints && m == |plan.modified| + 2 * j
    ensures InImageOrder([ExtraRow(base, zero, extra[m]), ExtraRow(base, zero, extra[m + 1])],
                         EditedTracks(base, plan, extra, zero)[Survivors(plan.deleted, |base.counts|) + j])
  {
    NewTrack(base, plan, extra, zero, j);
    NewRowsAre(base, plan, extra, zero, j, m);
    SortIsInImageOrder(NewRows(base, plan, extra, zero, j));
  }

  lemma NewTrack<V>(base: Csr<V>, plan: Plan, extra: seq<nat>, zero: V, j: nat)
    requires base.Valid() && |extra| == plan.ExtraRows() && j < plan.newPoints
    ensures EditedTracks(base, plan, extra, zero)[Survivors(plan.deleted, |base.counts|) + j]
         == StableSort(ByImage(), NewRows(base, plan, extra, zero, j))
  {
    EditedNewAt(base, plan, extra, zero, j, Survivors(plan.deleted, |base.counts|) + j);
  }

  lemma NewRowsAre<V>(base: Csr<V>, plan: Plan, extra: seq<nat>, zero: V, j: nat, m: nat)
    requires |extra| == plan.ExtraRows() && j < plan.newPoints && m == |plan.modified| + 2 * j
    ensures NewRows(base, plan, extra, zero, j) == [ExtraRow(base, zero, extra[m]), ExtraRow(base, zero, extra[m + 1])]
  {
  }

  // ----- row conservation -----

  ghost function SumCounts(counts: seq<nat>, points: seq<nat>): nat
    requires InBounds(points, |counts|)
  {
    if |points| == 0 then 0
    else SumCounts(counts, points[..|points| - 1]) + counts[points[|points| - 1]]
  }

  ghost function TotalRows<V>(tracks: seq<seq<Row<V>>>): nat {
    |Flatten(tracks)|
  }

  /** How many of the entries of an ascending list lie below `n`. */
  ghost function Below(points: seq<nat>, n: nat): (k: nat)
    ensures k <= |points|
    ensures forall i :: 0 <= i < k ==> points[i] < n
  {
    if |points| == 0 then 0
    else if points[0] < n then 1 + Below(points[1..], n)
    else 0
  }

  lemma {:induction false} BelowAll(points: seq<nat>, n: nat)
    requires InBounds(points, n)
    ensures Below(points, n) == |points|
  {
    if |points| > 0 {
      forall i | 0 <= i < |points[1..]| ensures points[1..][i] < n {
        assert points[1..][i] == points[i + 1];
      }
      BelowAll(points[1..], n);
    }
  }

  lemma {:induction false} BelowStep(points: seq<nat>, n: nat)
    requires Ascending(points)
    ensures n in points ==> Below(points, n + 1) == Below(points, n) + 1 && points[Below(points, n)] == n
    ensures n !in points ==> Below(points, n + 1) == Below(points, n)
  {
    if |points| > 0 {
      assert points == [points[0]] + points[1..];
      if points[0] < n {
        BelowStep(points[1..], n);
      } else if points[0] == n {
        assert |points| > 1 ==> points[0] < points[1];
      } else {
        forall i | 0 <= i < |points| ensures points[i] != n {
          assert i > 0 ==> points[0] < points[i];
        }
      }
    }
  }

  lemma {:induction false} FlattenOneMore<T>(tracks: seq<seq<T>>, track: seq<T>)
    ensures Flatten(tracks + [track]) == Flatten(tracks) + track
  {
    assert (tracks + [track])[..|tracks|] == tracks;
  }

  lemma {:induction false} SumCountsStep(counts: seq<nat>, points: seq<nat>, k: nat)
    requires InBounds(points, |counts|) && k < |points|
    ensures SumCounts(counts, points[..k + 1]) == SumCounts(counts, points[..k]) + counts[points[k]]
  {
    assert points[..k + 1][..k] == points[..k];
  }

  ghost function SurvivingRows<V>(base: Csr<V>, plan: Plan, extra: seq<nat>, zero: V, n: nat): nat
    requires base.Valid() && n <= |base.counts| && |extra| == plan.ExtraRows()
  {
    |Flatten(SurvivingLists(base, plan, extra, zero, n))|
  }

  lemma SurvivingRowsStep<V>(base: Csr<V>, plan: Plan, extra: seq<nat>, zero: V, p: nat)
    requires base.Valid() && p < |base.counts| && |extra| == plan.ExtraRows()
    ensures SurvivingRows(base, plan, extra, zero, p + 1)
         == SurvivingRows(base, plan, extra, zero, p)
            + (if p in plan.deleted then 0 else base.counts[p] + (if p in plan.modified then 1 else 0))
  {
    var before := SurvivingLists(base, plan, extra, zero, p);
    assert SurvivingLists(base, plan, extra, zero, p + 1)
        == if p in plan.deleted then before else before + [EditedRows(base, plan, extra, zero, p)];
    EditedRowsSize(base, plan, extra, zero, p);
    FlattenOneMore(SurvivingLists(base, plan, extra, zero, p), EditedRows(base, plan, extra, zero, p));
  }

  ghost function DeletedRows(counts: seq<nat>, deleted: seq<nat>, n: nat): nat
    requires InBounds(deleted, |counts|)
  {
    SumCounts(counts, deleted[..Below(deleted, n)])
  }

  lemma DeletedRowsStep(counts: seq<nat>, deleted: seq<nat>, p: nat)
    requires InBounds(deleted, |counts|) && Ascending(deleted) && p < |counts|
    ensures DeletedRows(counts, deleted, p + 1)
         == DeletedRows(counts, deleted, p) + (if p in deleted then counts[p] else 0)
  {
    BelowStep(deleted, p);
    if p in deleted {
      SumCountsStep(counts, deleted, Below(deleted, p));
    }
  }

  lemma BelowCount(points: seq<nat>, p: nat)
    requires Ascending(points)
    ensures Below(points, p + 1) == Below(points, p) + (if p in points then 1 else 0)
  {
    BelowStep(points, p);
  }

  /** What point `p` adds on both sides of the balance. */
  lemma RowBalanceStep<V>(base: Csr<V>, plan: Plan, extra: seq<nat>, zero: V, p: nat)
    requires base.Valid() && plan.Valid(|base.counts|) && |extra| == plan.ExtraRows() && p < |base.counts|
    ensures SurvivingRows(base, plan, extra, zero, p + 1) + DeletedRows(base.counts, plan.deleted, p + 1)
         == SurvivingRows(base, plan, extra, zero, p) + DeletedRows(base.counts, plan.deleted, p)
            + base.counts[p] + (if p in plan.modified then 1 else 0)
  {
    SurvivingRowsStep(base, plan, extra, zero, p);
    DeletedRowsStep(base.counts, plan.deleted, p);
  }

  /** Of the first `n` points: rows kept and rows deleted are base rows and one per modified point. */
  ghost predicate Balanced<V>(base: Csr<V>, plan: Plan, extra: seq<nat>, zero: V, n: nat)
    requires base.Valid() && plan.Valid(|base.counts|) && |extra| == plan.ExtraRows() && n <= |base.counts|
  {
    SurvivingRows(base, plan, extra, zero, n) + DeletedRows(base.counts, plan.deleted, n)
    == Offset(base.counts, n) + Below(plan.modified, n)
  }

  lemma BalancedNext<V>(base: Csr<V>, plan: Plan, extra: seq<nat>, zero: V, p: nat, n: nat)
    requires base.Valid() && plan.Valid(|base.counts|) && |extra| == plan.ExtraRows()
    requires n == p + 1 <= |base.counts| && Balanced(base, plan, extra, zero, p)
    ensures Balanced(base, plan, extra, zero, n)
  {
    RowBalanceStep(base, plan, extra, zero, p);
    BelowCount(plan.modified, p);
  }

  lemma {:induction false} SurvivingRowCount<V>(base: Csr<V>, plan: Plan, extra: seq<nat>, zero: V, n: nat)
    requires base.Valid() && plan.Valid(|base.counts|) && |extra| == plan.ExtraRows() && n <= |base.counts|
    ensures Balanced(base, plan, extra, zero, n)
  {
    if n == 0 {
      BelowNone(plan.deleted);
      BelowNone(plan.modified);
    } else {
      SurvivingRowCount(base, plan, extra, zero, n - 1);
      BalancedNext(base, plan, extra, zero, n - 1, n);
    }
  }

  lemma {:induction false} BelowNone(points: seq<nat>)
    ensures Below(points, 0) == 0
  {
  }

  lemma {:induction false} NewRowCount<V>(base: Csr<V>, plan: Plan, extra: seq<nat>, zero: V, c: nat)
    requires |extra| == plan.ExtraRows() && c <= plan.newPoints
    ensures |Flatten(NewLists(base, plan, extra, zero, c))| == 2 * c
  {
    if c > 0 {
      NewRowCount(base, plan, extra, zero, c - 1);
      assert NewLists(base, plan, extra, zero, c)[..c - 1] == NewLists(base, plan, extra, zero, c - 1);
    }
  }

  lemma {:induction false} SortingKeepsLength<V>(lists: seq<seq<Row<V>>>, tracks: seq<seq<Row<V>>>)
    requires |lists| == |tracks| && forall q :: 0 <= q < |lists| ==> |lists[q]| == |tracks[q]|
    ensures |Flatten(lists)| == |Flatten(tracks)|
  {
    if |lists| > 0 {
      SortingKeepsLength(lists[..|lists| - 1], tracks[..|tracks| - 1]);
    }
  }

  lemma {:induction false} ListRowCount<V>(base: Csr<V>, plan: Plan, extra: seq<nat>, zero: V)
    requires base.Valid() && plan.Valid(|base.counts|) && |extra| == plan.ExtraRows()
    ensures |Flatten(EditedLists(base, plan, extra, zero))|
         == |Flatten(SurvivingLists(base, plan, extra, zero, |base.counts|))| + 2 * plan.newPoints
  {
    NewRowCount(base, plan, extra, zero, plan.newPoints);
    FlattenAppend(SurvivingLists(base, plan, extra, zero, |base.counts|),
                  NewLists(base, plan, extra, zero, plan.newPoints));
  }

  /** Rows are conserved: the base's rows, less the deleted tracks', plus one per modified point and
      two per new point. */
  lemma RowsAreConserved<V>(base: Csr<V>, plan: Plan, extra: seq<nat>, zero: V)
    requires base.Valid() && plan.Valid(|base.counts|) && |extra| == plan.ExtraRows()
    ensures TotalRows(EditedTracks(base, plan, extra, zero)) + SumCounts(base.counts, plan.deleted)
         == |base.images| + |plan.modified| + 2 * plan.newPoints
  {
    SurvivingRowCount(base, plan, extra, zero, |base.counts|);
    BelowAll(plan.deleted, |base.counts|);
    BelowAll(plan.modified, |base.counts|);
    assert plan.deleted[..|plan.deleted|] == plan.deleted;
    ListRowCount(base, plan, extra, zero);
    SortingKeepsLength(EditedLists(base, plan, extra, zero), EditedTracks(base, plan, extra, zero));
  }

  // ----- what `verify` asserts of a materialised value -----

  lemma TrackLengths<V>(value: Csr<V>, q: nat)
    requires value.Valid() && q < |value.counts|
    ensures |value.Tracks()| == |value.counts| && |value.Tracks()[q]| == value.counts[q]
  {
    OffsetMonotone(value.counts, q + 1, |value.counts|);
  }

  lemma {:induction false} OwnersAscend(counts: seq<nat>, i: nat, j: nat)
    requires i < j < Offset(counts, |counts|)
    ensures var owners := Repeat<int>(Range(0, |counts|), counts);
            |owners| == Offset(counts, |counts|) && owners[i] <= owners[j]
  {
    var all: seq<int> := Range(0, |counts|);
    var p := OwnerOf(counts, i);
    var q := OwnerOf(counts, j);
    RepeatLength(all, counts);
    RepeatAt(all, counts, p, i);
    RepeatAt(all, counts, q, j);
    if q < p {
      OffsetMonotone(counts, q + 1, p);
    }
  }

  function Mapped(): int -> bool {
    (place: int) => place >= 0
  }

  lemma {:induction false} MappedAreInOrder(deleted: seq<nat>, n: nat)
    ensures Filter(Mapped(), RowMap(deleted, n)) == Range(0, Survivors(deleted, n))
  {
    if n > 0 {
      var front, last := RowMap(deleted, n - 1), RowMap(deleted, n)[n - 1];
      MappedAreInOrder(deleted, n - 1);
      assert RowMap(deleted, n) == front + [last];
      FilterAppend(Mapped(), front, [last]);
      assert Filter(Mapped(), [last]) == if last >= 0 then [last] else [];
    }
  }

  function PlaceOrder(): (int, int) -> bool {
    (a: int, b: int) => a <= b
  }

  /** The mapped places, sorted, are exactly 0, 1, 2, ... */
  lemma MappedAreAllPlaces(deleted: seq<nat>, n: nat)
    ensures var mapped := Filter(Mapped(), RowMap(deleted, n));
            StableSort(PlaceOrder(), mapped) == Range(0, |mapped|)
  {
    MappedAreInOrder(deleted, n);
    SortOfSorted(PlaceOrder(), Filter(Mapped(), RowMap(deleted, n)));
  }

  /** The assertions about the shape of the output: the offsets run from zero to the row count by the
      counts, the rows are sorted by point, and every column has one cell per row. */
  lemma VerifyShape<V>(base: Csr<V>, plan: Plan, extra: seq<nat>, zero: V, out: Materialised<V>)
    requires base.Valid() && plan.Valid(|base.counts|) && |extra| == plan.ExtraRows()
    requires StandsFor(base, plan, extra, zero, out)
    ensures |out.offsets| == |out.value.counts| + 1
    ensures out.offsets[0] == 0 && out.offsets[|out.value.counts|] == |out.pointIndexes|
    ensures forall q :: 0 <= q < |out.value.counts| ==> out.offsets[q + 1] - out.offsets[q] == out.value.counts[q]
    ensures forall i, j :: 0 <= i < j < |out.pointIndexes| ==> out.pointIndexes[i] <= out.pointIndexes[j]
    ensures |out.value.images| == |out.pointIndexes|
    ensures forall key :: key in out.value.columns ==> |out.value.columns[key]| == |out.pointIndexes|
  {
    OffsetsAreSums(out.value.counts);
    PointIndexesAscend(out.value.counts);
  }

  lemma {:induction false} OffsetsAreSums(counts: seq<nat>)
    ensures Offsets(counts)[0] == 0 && Offsets(counts)[|counts|] == Offset(counts, |counts|)
    ensures forall q :: 0 <= q < |counts| ==> Offsets(counts)[q + 1] - Offsets(counts)[q] == counts[q]
  {
  }

  lemma {:induction false} PointIndexesAscend(counts: seq<nat>)
    ensures var owners := Repeat<int>(Range(0, |counts|), counts);
            && |owners| == Offset(counts, |counts|)
            && forall i, j :: 0 <= i < j < |owners| ==> owners[i] <= owners[j]
  {
    var owners := Repeat<int>(Range(0, |counts|), counts);
    RepeatLength<int>(Range(0, |counts|), counts);
    forall i, j | 0 <= i < j < |owners| ensures owners[i] <= owners[j] {
      OwnersAscend(counts, i, j);
    }
  }

  lemma VerifyModified<V>(base: Csr<V>, plan: Plan, extra: seq<nat>, zero: V, out: Materialised<V>, p: nat)
    requires base.Valid() && plan.Valid(|base.counts|) && |extra| == plan.ExtraRows()
    requires StandsFor(base, plan, extra, zero, out) && p in plan.modified
    ensures p < |base.counts|
    ensures var q := out.rowMap[p]; 0 <= q < |out.value.counts| && out.value.counts[q] == base.counts[p] + 1
  {
    var m :| 0 <= m < |plan.modified| && plan.modified[m] == p;
    assert plan.modified[m] < |base.counts|;
    SurvivorTrack(base, plan, extra, zero, p);
    EditedRowsSize(base, plan, extra, zero, p);
    TrackLengths(out.value, Survivors(plan.deleted, p));
  }

  lemma CountsAreLengths<V>(value: Csr<V>, tracks: seq<seq<Row<V>>>)
    requires value.Valid() && value.Tracks() == tracks
    ensures |tracks| == |value.counts| && forall q :: 0 <= q < |tracks| ==> |tracks[q]| == value.counts[q]
  {
    forall q | 0 <= q < |value.counts| ensures |value.Tracks()[q]| == value.counts[q] {
      TrackLengths(value, q);
    }
  }

  lemma NewTrackLength<V>(base: Csr<V>, plan: Plan, extra: seq<nat>, zero: V, j: nat)
    requires base.Valid() && |extra| == plan.ExtraRows() && j < plan.newPoints
    ensures var q := Survivors(plan.deleted, |base.counts|) + j;
            |EditedTracks(base, plan, extra, zero)[q]| == 2
  {
    EditedNewAt(base, plan, extra, zero, j, Survivors(plan.deleted, |base.counts|) + j);
  }

  lemma VerifyNew<V>(base: Csr<V>, plan: Plan, extra: seq<nat>, zero: V, out: Materialised<V>, j: nat)
    requires base.Valid() && plan.Valid(|base.counts|) && |extra| == plan.ExtraRows()
    requires StandsFor(base, plan, extra, zero, out) && j < plan.newPoints
    ensures plan.newPoints <= |out.value.counts| && out.value.counts[|out.value.counts| - plan.newPoints + j] == 2
  {
    CountsAreLengths(out.value, EditedTracks(base, plan, extra, zero));
    NewTrackLength(base, plan, extra, zero, j);
  }

  /** The assertions about the edits: the mapped places sorted are all the places there are; each
      modified point carries one more row than in the base, at its place; each new point two. */
  lemma VerifyEdits<V>(base: Csr<V>, plan: Plan, extra: seq<nat>, zero: V, out: Materialised<V>)
    requires base.Valid() && plan.Valid(|base.counts|) && |extra| == plan.ExtraRows()
    requires StandsFor(base, plan, extra, zero, out)
    ensures var mapped := Filter(Mapped(), out.rowMap); StableSort(PlaceOrder(), mapped) == Range(0, |mapped|)
    ensures forall p :: p in plan.modified ==>
              && p < |out.rowMap| && 0 <= out.rowMap[p] < |out.value.counts|
              && out.value.counts[out.rowMap[p]] == base.counts[p] + 1
    ensures plan.newPoints <= |out.value.counts|
    ensures forall q :: |out.value.counts| - plan.newPoints <= q < |out.value.counts| ==> out.value.counts[q] == 2
  {
    MappedAreAllPlaces(plan.deleted, |base.counts|);
    forall p | p in plan.modified
      ensures && p < |out.rowMap| && 0 <= out.rowMap[p] < |out.value.counts|
              && out.value.counts[out.rowMap[p]] == base.counts[p] + 1
    {
      VerifyModified(base, plan, extra, zero, out, p);
    }
    assert |out.value.counts| == |out.value.Tracks()|;
    forall q | |out.value.counts| - plan.newPoints <= q < |out.value.counts| ensures out.value.counts[q] == 2 {
      VerifyNew(base, plan, extra, zero, out, q - (|out.value.counts| - plan.newPoints));
    }
  }

  // ----- drawing the plan -----

  function AscendingOrder(): (nat, nat) -> bool {
    (a: nat, b: nat) => a <= b
  }

  function Edits(points: nat, edits: nat): nat { if edits < points then edits else points }

  function Deletions(points: nat, edits: nat): nat {
    var e := Edits(points, edits);
    if e / 2 < points - e then e / 2 else points - e
  }

  /** `build_edits`, the points picked at random without replacement being a parameter. */
  function BuildEdits(points: nat, edits: nat, newPoints: nat, picked: seq<nat>): Plan
    requires |picked| == Edits(points, edits) + Deletions(points, edits)
  {
    var e := Edits(points, edits);
    Plan(StableSort(AscendingOrder(), picked[..e]), StableSort(AscendingOrder(), picked[e..]), newPoints)
  }

  ghost predicate Distinct(xs: seq<nat>) {
    forall i, j :: 0 <= i < j < |xs| ==> xs[i] != xs[j]
  }

  lemma {:induction false} InsertAscending(x: nat, ys: seq<nat>)
    requires Ascending(ys) && x !in ys
    ensures Ascending(Insert(AscendingOrder(), x, ys))
  {
    if |ys| == 0 || x <= ys[0] {
      AscendingInFront(x, ys);
    } else {
      var rest := Insert(AscendingOrder(), x, ys[1..]);
      InsertAscending(x, ys[1..]);
      InsertMultiset(AscendingOrder(), x, ys[1..]);
      forall j | 0 <= j < |rest| ensures ys[0] < rest[j] {
        assert rest[j] in multiset(rest);
        assert rest[j] == x || rest[j] in ys[1..];
      }
      AscendingInFront(ys[0], rest);
    }
  }

  lemma AscendingInFront(x: nat, ys: seq<nat>)
    requires Ascending(ys) && forall j :: 0 <= j < |ys| ==> x < ys[j]
    ensures Ascending([x] + ys)
  {
  }

  lemma {:induction false} SortDistinct(xs: seq<nat>)
    requires Distinct(xs)
    ensures Ascending(StableSort(AscendingOrder(), xs))
  {
    if |xs| > 0 {
      SortDistinct(xs[1..]);
      SortMembers(AscendingOrder(), xs[1..]);
      InsertAscending(xs[0], StableSort(AscendingOrder(), xs[1..]));
    }
  }

  /** The modified and the deleted points are ascending, in range and disjoint, whatever was drawn. */
  lemma BuildEditsIsValid(points: nat, edits: nat, newPoints: nat, picked: seq<nat>)
    requires |picked| == Edits(points, edits) + Deletions(points, edits)
    requires InBounds(picked, points) && Distinct(picked)
    ensures BuildEdits(points, edits, newPoints, picked).Valid(points)
  {
    var e := Edits(points, edits);
    var plan := BuildEdits(points, edits, newPoints, picked);
    SortDistinct(picked[..e]);
    SortDistinct(picked[e..]);
    SortMembers(AscendingOrder(), picked[..e]);
    SortMembers(AscendingOrder(), picked[e..]);
    forall i | 0 <= i < |plan.modified| ensures plan.modified[i] < points {
      assert plan.modified[i] in picked[..e];
    }
    forall i | 0 <= i < |plan.deleted| ensures plan.deleted[i] < points {
      assert plan.deleted[i] in picked[e..];
    }
    forall p | p in plan.modified ensures p !in plan.deleted {
      var i := IndexIn(picked[..e], p);
      forall j | 0 <= j < |picked[e..]| ensures picked[e..][j] != p {
        assert picked[i] != picked[e + j];
      }
    }
  }

  /** The first draws, as many as edits and points allow, are modified; the rest, half as many where so
      many are left, are deleted. */
  lemma DrawsAreEdited(points: nat, edits: nat, newPoints: nat, picked: seq<nat>)
    requires |picked| == Edits(points, edits) + Deletions(points, edits)
    ensures var plan := BuildEdits(points, edits, newPoints, picked);
            var modified, deleted := |plan.modified|, |plan.deleted|;
            && modified <= edits && modified <= points && (modified == edits || modified == points)
            && 2 * deleted <= modified && modified + deleted <= points
            && (modified < 2 * (deleted + 1) || modified + deleted == points)
            && modified + deleted == |picked|
            && multiset(plan.modified) == multiset(picked[..modified])
            && multiset(plan.deleted) == multiset(picked[modified..])
            && plan.newPoints == newPoints
  {
    var e := Edits(points, edits);
    SortMultiset(AscendingOrder(), picked[..e]);
    SortMultiset(AscendingOrder(), picked[e..]);
  }
}
