/** A reconstruction's observations indexed both ways (scripts/kdf_constellation_eval.py:178-265): a
    sorted array of packed (image, feature) keys, and per-point runs of rows. Both must answer as a
    scan of the observation rows would. */
module GroundTruth {
  import opened Arrays
  import opened TrackSort

  /** One observation the reconstruction uses, its image in the corpus's numbering. */
  datatype Observed = Observed(image: nat, feature: nat, point: nat)

  datatype Match = Match(slot: nat, image: nat, feature: nat)

  const SHIFT: nat := 0x1_0000_0000

  // ----- renumbering the images -----

  /** The last corpus image that names a reconstruction image, or -1. */
  function CorpusImage(kdfToSfmr: seq<int>, sfmr: nat): (k: int)
    ensures -1 <= k < |kdfToSfmr|
    ensures k >= 0 ==> kdfToSfmr[k] == sfmr
    ensures forall j :: k < j < |kdfToSfmr| ==> kdfToSfmr[j] != sfmr
  {
    if |kdfToSfmr| == 0 then -1
    else if kdfToSfmr[|kdfToSfmr| - 1] == sfmr then |kdfToSfmr| - 1
    else CorpusImage(kdfToSfmr[..|kdfToSfmr| - 1], sfmr)
  }

  /** The rows whose image is in the corpus, renumbered. */
  function KeptRows(images: seq<nat>, features: seq<nat>, points: seq<nat>, kdfToSfmr: seq<int>): seq<Observed>
    requires |images| == |features| == |points|
  {
    if |images| == 0 then []
    else
      var n := |images| - 1;
      var image := CorpusImage(kdfToSfmr, images[n]);
      KeptRows(images[..n], features[..n], points[..n], kdfToSfmr)
      + (if image >= 0 then [Observed(image, features[n], points[n])] else [])
  }

  function Named(images: seq<nat>, kdfToSfmr: seq<int>): nat -> bool {
    (r: nat) => r < |images| && images[r] in kdfToSfmr
  }

  /** Row `r` renumbered: its own feature and point, and the last corpus index that names its image. */
  ghost predicate KeptFrom(o: Observed, images: seq<nat>, features: seq<nat>, points: seq<nat>, kdfToSfmr: seq<int>,
                           r: nat)
    requires |images| == |features| == |points|
  {
    && r < |images| && o.feature == features[r] && o.point == points[r]
    && o.image < |kdfToSfmr| && kdfToSfmr[o.image] == images[r] && images[r] !in kdfToSfmr[o.image + 1..]
  }

  lemma {:induction false} KeptRowsSelect(images: seq<nat>, features: seq<nat>, points: seq<nat>, kdfToSfmr: seq<int>,
                                          n: nat)
    requires |images| == |features| == |points| && n <= |images|
    ensures var kept := KeptRows(images[..n], features[..n], points[..n], kdfToSfmr);
            var at := Select(Named(images, kdfToSfmr), 0, n);
            && |kept| == |at|
            && forall k :: 0 <= k < |at| ==> KeptFrom(kept[k], images, features, points, kdfToSfmr, at[k])
  {
    if n > 0 {
      KeptRowsSelect(images, features, points, kdfToSfmr, n - 1);
      FrontOfPrefix(images, n);
      FrontOfPrefix(features, n);
      FrontOfPrefix(points, n);
    }
  }

  lemma FrontOfPrefix<T>(xs: seq<T>, n: nat)
    requires 0 < n <= |xs|
    ensures xs[..n][..n - 1] == xs[..n - 1]
  {
  }

  /** The rows kept are, in order, those of an image the corpus names. */
  lemma {:induction false} KeptRowsAre(images: seq<nat>, features: seq<nat>, points: seq<nat>, kdfToSfmr: seq<int>)
    returns (at: seq<nat>)
    requires |images| == |features| == |points|
    ensures Ascending(at) && forall r: nat :: r in at <==> r < |images| && images[r] in kdfToSfmr
    ensures var kept := KeptRows(images, features, points, kdfToSfmr);
            && |kept| == |at|
            && forall k :: 0 <= k < |at| ==> KeptFrom(kept[k], images, features, points, kdfToSfmr, at[k])
  {
    var keep := Named(images, kdfToSfmr);
    at := Select(keep, 0, |images|);
    SelectAscending(keep, 0, |images|);
    forall r: nat ensures r in at <==> r < |images| && images[r] in kdfToSfmr {
      assert r < |images| && images[r] in kdfToSfmr <==> keep(r);
    }
    KeptRowsSelect(images, features, points, kdfToSfmr, |images|);
    assert images[..|images|] == images && features[..|images|] == features && points[..|images|] == points;
  }

  // ----- the scans -----

  /** The point of the first row with this image and feature, or -1. */
  function ScanPoint(rows: seq<Observed>, image: nat, feature: nat): int {
    if |rows| == 0 then -1
    else
      var found := ScanPoint(rows[..|rows| - 1], image, feature);
      var last := rows[|rows| - 1];
      if found >= 0 then found else if last.image == image && last.feature == feature then last.point else -1
  }

  /** The matches of one slot: the rows of its point that are in other images. */
  function ScanSlot(rows: seq<Observed>, image: nat, slot: nat, point: int): seq<Match> {
    if |rows| == 0 then []
    else
      var last := rows[|rows| - 1];
      ScanSlot(rows[..|rows| - 1], image, slot, point)
      + (if last.point == point && last.image != image then [Match(slot, last.image, last.feature)] else [])
  }

  /** The correspondences of the first features of a constellation. */
  function ScanMatches(rows: seq<Observed>, image: nat, features: seq<nat>): seq<Match> {
    if |features| == 0 then []
    else
      var slot := |features| - 1;
      ScanMatches(rows, image, features[..slot])
      + ScanSlot(rows, image, slot, ScanPoint(rows, image, features[slot]))
  }

  function InOtherImage(rows: seq<Observed>, image: nat, point: int): nat -> bool {
    (r: nat) => r < |rows| && rows[r].point == point && rows[r].image != image
  }

  lemma {:induction false} ScanSlotSelects(rows: seq<Observed>, image: nat, slot: nat, point: int, n: nat)
    requires n <= |rows|
    ensures var matches, at := ScanSlot(rows[..n], image, slot, point), Select(InOtherImage(rows, image, point), 0, n);
            |matches| == |at| && forall k :: 0 <= k < |at| ==> IsMatchOf(rows, slot, at[k], matches[k])
  {
    if n > 0 {
      ScanSlotSelects(rows, image, slot, point, n - 1);
      assert rows[..n][..n - 1] == rows[..n - 1];
    }
  }

  ghost predicate IsMatchOf(rows: seq<Observed>, slot: nat, r: nat, m: Match) {
    r < |rows| && m == Match(slot, rows[r].image, rows[r].feature)
  }

  /** One slot's matches are, in row order, the image and feature of every row of the point in another
      image. */
  lemma {:induction false} SlotMatchesAre(rows: seq<Observed>, image: nat, slot: nat, point: int)
    returns (at: seq<nat>)
    ensures Ascending(at)
    ensures forall r: nat :: r in at <==> r < |rows| && rows[r].point == point && rows[r].image != image
    ensures var matches := ScanSlot(rows, image, slot, point);
            |matches| == |at| && forall k :: 0 <= k < |at| ==> IsMatchOf(rows, slot, at[k], matches[k])
  {
    var keep := InOtherImage(rows, image, point);
    at := Select(keep, 0, |rows|);
    SelectAscending(keep, 0, |rows|);
    forall r: nat ensures r in at <==> r < |rows| && rows[r].point == point && rows[r].image != image {
      assert r < |rows| && rows[r].point == point && rows[r].image != image <==> keep(r);
    }
    ScanSlotSelects(rows, image, slot, point, |rows|);
    assert rows[..|rows|] == rows;
  }

  ghost function SlotLists(rows: seq<Observed>, image: nat, features: seq<nat>): (lists: seq<seq<Match>>)
    ensures |lists| == |features|
    ensures forall slot :: 0 <= slot < |features| ==>
              lists[slot] == ScanSlot(rows, image, slot, ScanPoint(rows, image, features[slot]))
  {
    seq(|features|, slot requires 0 <= slot < |features| =>
      ScanSlot(rows, image, slot, ScanPoint(rows, image, features[slot])))
  }

  /** The correspondences are the slots' lists end to end. */
  lemma {:induction false} MatchesBySlot(rows: seq<Observed>, image: nat, features: seq<nat>)
    ensures ScanMatches(rows, image, features) == Flatten(SlotLists(rows, image, features))
  {
    if |features| > 0 {
      var k := |features| - 1;
      MatchesBySlot(rows, image, features[..k]);
      assert SlotLists(rows, image, features)[..k] == SlotLists(rows, image, features[..k]);
    }
  }

  ghost predicate SharePoint(rows: seq<Observed>, i: nat, j: nat) {
    exists a, b ::
      && 0 <= a < |rows| && 0 <= b < |rows|
      && rows[a].image == i && rows[b].image == j && rows[a].point == rows[b].point
  }

  /** The other images sharing a point with `image`. */
  ghost predicate IsCovisible(rows: seq<Observed>, image: nat, others: set<nat>) {
    forall j: nat :: j in others <==> j != image && SharePoint(rows, image, j)
  }

  // ----- the packed keys -----

  /** `image << 32 | feature` for a feature of 32 bits. */
  function Pack(image: nat, feature: nat): nat {
    image * SHIFT + feature
  }

  lemma PackIsInjective(i: nat, f: nat, j: nat, g: nat)
    requires f < SHIFT && g < SHIFT && Pack(i, f) == Pack(j, g)
    ensures i == j && f == g
  {
  }

  function KeysOf(rows: seq<Observed>): (keys: seq<nat>)
    ensures |keys| == |rows|
  {
    seq(|rows|, r requires 0 <= r < |rows| => Pack(rows[r].image, rows[r].feature))
  }

  function KeyAt(keys: seq<nat>, i: nat): nat { if i < |keys| then keys[i] else 0 }

  function ByKey(keys: seq<nat>): (nat, nat) -> bool {
    (a: nat, b: nat) => KeyAt(keys, a) <= KeyAt(keys, b)
  }

  function KeyOrder(rows: seq<Observed>): seq<nat> {
    Argsort(ByKey(KeysOf(rows)), |rows|)
  }

  lemma KeyOrderIsStable(rows: seq<Observed>)
    ensures IsPermutation(KeyOrder(rows), |rows|) && StablySorted(ByKey(KeysOf(rows)), KeyOrder(rows))
  {
    ArgsortIsPermutation(ByKey(KeysOf(rows)), |rows|);
  }

  /** `searchsorted(keys, want)`: the first place whose key reaches `want`. */
  method SearchSorted(keys: seq<nat>, want: nat) returns (pos: nat)
    requires forall i, j :: 0 <= i < j < |keys| ==> keys[i] <= keys[j]
    ensures pos <= |keys|
    ensures forall i :: 0 <= i < pos ==> keys[i] < want
    ensures forall i :: pos <= i < |keys| ==> keys[i] >= want
  {
    var lo, hi := 0, |keys|;
    while lo < hi
      invariant lo <= hi <= |keys|
      invariant forall i :: 0 <= i < lo ==> keys[i] < want
      invariant forall i :: hi <= i < |keys| ==> keys[i] >= want
    {
      var mid := (lo + hi) / 2;
      if keys[mid] < want {
        lo := mid + 1;
      } else {
        hi := mid;
      }
    }
    pos := lo;
  }

  /** The first row with a key is the one a scan stops at. */
  lemma {:induction false} ScanStopsAtFirst(rows: seq<Observed>, image: nat, feature: nat, first: int)
    requires -1 <= first < |rows|
    requires first >= 0 ==> rows[first].image == image && rows[first].feature == feature
    requires forall r :: 0 <= r < (if first >= 0 then first else |rows|) ==>
               !(rows[r].image == image && rows[r].feature == feature)
    ensures ScanPoint(rows, image, feature) == if first >= 0 then rows[first].point else -1
  {
    if |rows| > 0 {
      var n := |rows| - 1;
      ScanStopsAtFirst(rows[..n], image, feature, if first < n then first else -1);
    }
  }

  ghost predicate SmallFeatures(rows: seq<Observed>) {
    forall r :: 0 <= r < |rows| ==> rows[r].feature < 0x1_0000_0000
  }

  /** What the binary search lands on is the first row a scan would find. */
  lemma {:induction false} SearchIsScan(rows: seq<Observed>, image: nat, feature: nat, pos: nat)
    requires SmallFeatures(rows) && feature < SHIFT && IsPermutation(KeyOrder(rows), |rows|) && pos <= |rows|
    requires forall i :: 0 <= i < pos ==> KeysOf(rows)[KeyOrder(rows)[i]] < Pack(image, feature)
    requires forall i :: pos <= i < |rows| ==> KeysOf(rows)[KeyOrder(rows)[i]] >= Pack(image, feature)
    ensures ScanPoint(rows, image, feature)
         == if pos < |rows| && KeysOf(rows)[KeyOrder(rows)[pos]] == Pack(image, feature)
            then rows[KeyOrder(rows)[pos]].point else -1
  {
    var keys, order, want := KeysOf(rows), KeyOrder(rows), Pack(image, feature);
    KeyOrderIsStable(rows);
    var hit := pos < |rows| && keys[order[pos]] == want;
    var first: int := if hit then order[pos] else -1;
    if hit {
      PackIsInjective(rows[first].image, rows[first].feature, image, feature);
    }
    forall r | 0 <= r < (if first >= 0 then first else |rows|)
      ensures !(rows[r].image == image && rows[r].feature == feature)
    {
      assert r in order;
      var at := IndexIn(order, r);
      if at > pos && pos < |rows| {
        NotEarlier(keys, order, pos, at);
      }
    }
    ScanStopsAtFirst(rows, image, feature, first);
  }

  lemma NotEarlier(keys: seq<nat>, order: seq<nat>, pos: nat, at: nat)
    requires StablySorted(ByKey(keys), order) && pos < at < |order| && InBounds(order, |keys|)
    ensures keys[order[pos]] < keys[order[at]] || (keys[order[pos]] == keys[order[at]] && order[pos] < order[at])
  {
    assert ByKey(keys)(order[pos], order[at]);
    if keys[order[pos]] == keys[order[at]] {
      assert ByKey(keys)(order[at], order[pos]);
    }
  }

  // ----- the runs per point -----

  function PointsOf(rows: seq<Observed>): (points: seq<int>)
    ensures |points| == |rows|
  {
    seq(|rows|, r requires 0 <= r < |rows| => rows[r].point as int)
  }

  /** `point.max() + 1`. */
  function PointCount(rows: seq<Observed>): (n: nat)
    ensures forall r :: 0 <= r < |rows| ==> rows[r].point < n
  {
    if |rows| == 0 then 0 else Max(PointCount(rows[..|rows| - 1]), rows[|rows| - 1].point + 1)
  }

  /** `argsort(point, kind="stable")`, as the two-key sort with nothing to choose by second. */
  function PointOrder(rows: seq<Observed>): seq<nat> {
    Argsort(LexLe(PointsOf(rows), []), |rows|)
  }

  ghost function Runs(rows: seq<Observed>, n: nat): (runs: seq<seq<nat>>)
    ensures |runs| == n
  {
    seq(n, p requires 0 <= p => Positions(PointsOf(rows), p))
  }

  lemma {:induction false} BlocksAreRuns(rows: seq<Observed>, n: nat)
    ensures Blocks(PointsOf(rows), [], Range(0, |rows|), n) == Flatten(Runs(rows, n))
  {
    if n > 0 {
      var points := PointsOf(rows);
      BlocksAreRuns(rows, n - 1);
      assert Runs(rows, n)[..n - 1] == Runs(rows, n - 1);
      FilterRange(OwnedBy(points, n - 1), 0, |rows|);
      SortOfSorted(ImageLe([]), Positions(points, n - 1));
    }
  }

  /** Cut at the offsets of the counts, the order gives each point its rows in row order. */
  lemma {:induction false} PointOrderIsRuns(rows: seq<Observed>)
    ensures IsPermutation(PointOrder(rows), |rows|)
    ensures var counts := BinCount(PointsOf(rows), PointCount(rows));
            && Offset(counts, |counts|) == |rows|
            && forall p :: 0 <= p < |counts| ==> Stretch(counts, PointOrder(rows), p) == Positions(PointsOf(rows), p)
  {
    var n, points := PointCount(rows), PointsOf(rows);
    PointOrderIsPermutation(rows);
    PointOrderIsFlat(rows);
    forall p: nat | p < n ensures Stretch(BinCount(points, n), PointOrder(rows), p) == Positions(points, p) {
      FlattenStretch(Runs(rows, n), p);
    }
  }

  lemma LexIsPreorder(points: seq<int>)
    ensures TotalPreorder(LexLe(points, []))
  {
  }

  lemma PointOrderIsPermutation(rows: seq<Observed>)
    ensures IsPermutation(PointOrder(rows), |rows|)
  {
    LexIsPreorder(PointsOf(rows));
    ArgsortIsPermutation(LexLe(PointsOf(rows), []), |rows|);
  }

  lemma {:induction false} PointOrderIsFlat(rows: seq<Observed>)
    ensures var n, runs := PointCount(rows), Runs(rows, PointCount(rows));
            && PointOrder(rows) == Flatten(runs) && Lengths(runs) == BinCount(PointsOf(rows), n)
            && Offset(Lengths(runs), n) == |PointOrder(rows)| == |rows|
  {
    var n := PointCount(rows);
    SortIsBlocks(PointsOf(rows), [], Range(0, |rows|), n);
    BlocksAreRuns(rows, n);
    FlattenLength(Runs(rows, n));
  }

  lemma RunBounds(rows: seq<Observed>, p: nat)
    requires p < PointCount(rows)
    ensures var counts := BinCount(PointsOf(rows), PointCount(rows));
            && Offset(counts, p) <= Offset(counts, p + 1) <= |PointOrder(rows)| == |rows|
            && PointOrder(rows)[Offset(counts, p)..Offset(counts, p + 1)] == Positions(PointsOf(rows), p)
  {
    var counts := BinCount(PointsOf(rows), PointCount(rows));
    PointOrderIsRuns(rows);
    StretchIsSlice(counts, PointOrder(rows), p);
  }

  // ----- reading a run -----

  /** The matches the rows of a run give. */
  function RunMatches(rows: seq<Observed>, image: nat, slot: nat, run: seq<nat>): seq<Match>
    requires InBounds(run, |rows|)
  {
    if |run| == 0 then []
    else
      var last := rows[run[|run| - 1]];
      RunMatches(rows, image, slot, run[..|run| - 1])
      + (if last.image != image then [Match(slot, last.image, last.feature)] else [])
  }

  lemma {:induction false} RunMatchesNext(rows: seq<Observed>, image: nat, slot: nat, run: seq<nat>, k: nat, next: nat)
    requires InBounds(run, |rows|) && next == k + 1 <= |run|
    ensures var o := rows[run[k]];
            RunMatches(rows, image, slot, run[..next])
            == RunMatches(rows, image, slot, run[..k])
               + (if o.image != image then [Match(slot, o.image, o.feature)] else [])
  {
    assert run[..next][..k] == run[..k];
  }

  /** Between two places the columns hold the images and features of a run of rows. */
  ghost predicate Reads(obsImage: seq<nat>, obsFeature: seq<nat>, lo: nat, hi: nat, rows: seq<Observed>, run: seq<nat>)
  {
    && lo <= hi <= |obsImage| == |obsFeature| && |run| == hi - lo && InBounds(run, |rows|)
    && (forall o :: lo <= o < hi ==> obsImage[o] == rows[run[o - lo]].image)
    && (forall o :: lo <= o < hi ==> obsFeature[o] == rows[run[o - lo]].feature)
  }

  lemma SliceReads(rows: seq<Observed>, order: seq<nat>, lo: nat, hi: nat)
    requires InBounds(order, |rows|) && lo <= hi <= |order|
    ensures Reads(Gather(Images(rows), order), Gather(Features(rows), order), lo, hi, rows, order[lo..hi])
  {
  }

  /** The rows of a run read off the columns, those in the query's own image passed over. */
  method ReadRun(obsImage: seq<nat>, obsFeature: seq<nat>, lo: nat, hi: nat, image: nat, slot: nat,
                 ghost rows: seq<Observed>, ghost run: seq<nat>)
    returns (matches: seq<Match>)
    requires Reads(obsImage, obsFeature, lo, hi, rows, run)
    ensures matches == RunMatches(rows, image, slot, run)
  {
    matches := [];
    for o := lo to hi
      invariant matches == RunMatches(rows, image, slot, run[..o - lo])
    {
      RunMatchesNext(rows, image, slot, run, o - lo, o + 1 - lo);
      if obsImage[o] == image {
        continue;
      }
      matches := matches + [Match(slot, obsImage[o], obsFeature[o])];
    }
    assert run[..hi - lo] == run;
  }

  lemma {:induction false} RunMatchesAppend(rows: seq<Observed>, image: nat, slot: nat, run: seq<nat>, r: nat)
    requires InBounds(run, |rows|) && r < |rows|
    ensures RunMatches(rows, image, slot, run + [r])
         == RunMatches(rows, image, slot, run)
            + (if rows[r].image != image then [Match(slot, rows[r].image, rows[r].feature)] else [])
  {
    assert (run + [r])[..|run|] == run;
  }

  lemma {:induction false} ScanSlotNext(rows: seq<Observed>, image: nat, slot: nat, point: int, n: nat, next: nat)
    requires next == n + 1 <= |rows|
    ensures ScanSlot(rows[..next], image, slot, point)
         == ScanSlot(rows[..n], image, slot, point)
            + (if rows[n].point == point && rows[n].image != image
               then [Match(slot, rows[n].image, rows[n].feature)] else [])
  {
    assert rows[..next][..n] == rows[..n];
  }

  lemma {:induction false} OwnedMatchesNext(rows: seq<Observed>, image: nat, slot: nat, p: nat, n: nat, next: nat)
    requires next == n + 1 <= |rows|
    ensures var owned := OwnedBy(PointsOf(rows), p);
            RunMatches(rows, image, slot, Select(owned, 0, next))
            == RunMatches(rows, image, slot, Select(owned, 0, n))
               + (if rows[n].point == p && rows[n].image != image
                  then [Match(slot, rows[n].image, rows[n].feature)] else [])
  {
    var owned := OwnedBy(PointsOf(rows), p);
    assert owned(n) == (rows[n].point == p);
    RunMatchesAppend(rows, image, slot, Select(owned, 0, n), n);
  }

  lemma {:induction false} ScanSlotIsRun(rows: seq<Observed>, image: nat, slot: nat, p: nat, n: nat)
    requires n <= |rows|
    ensures ScanSlot(rows[..n], image, slot, p)
         == RunMatches(rows, image, slot, Select(OwnedBy(PointsOf(rows), p), 0, n))
  {
    if n > 0 {
      ScanSlotIsRun(rows, image, slot, p, n - 1);
      ScanSlotNext(rows, image, slot, p, n - 1, n);
      OwnedMatchesNext(rows, image, slot, p, n - 1, n);
    }
  }

  lemma {:induction false} ScanSlotReadsPositions(rows: seq<Observed>, image: nat, slot: nat, p: nat)
    ensures ScanSlot(rows, image, slot, p) == RunMatches(rows, image, slot, Positions(PointsOf(rows), p))
  {
    ScanSlotIsRun(rows, image, slot, p, |rows|);
    assert rows[..|rows|] == rows;
  }

  lemma {:induction false} ScanPointInRange(rows: seq<Observed>, image: nat, feature: nat)
    ensures -1 <= ScanPoint(rows, image, feature) < PointCount(rows)
    ensures ScanPoint(rows, image, feature) >= 0 ==>
              exists r ::
                && 0 <= r < |rows| && rows[r].image == image && rows[r].feature == feature
                && rows[r].point == ScanPoint(rows, image, feature)
  {
    if |rows| > 0 {
      var front := rows[..|rows| - 1];
      ScanPointInRange(front, image, feature);
      if ScanPoint(front, image, feature) >= 0 {
        var r :| 0 <= r < |front| && front[r].image == image && front[r].feature == feature
            && front[r].point == ScanPoint(front, image, feature);
        assert rows[r] == front[r];
      } else {
        assert rows[|rows| - 1] == rows[|front|];
      }
    }
  }

  lemma PositionsHold(rows: seq<Observed>, p: nat, r: nat)
    ensures r in Positions(PointsOf(rows), p) <==> r < |rows| && rows[r].point == p
  {
    var run := Positions(PointsOf(rows), p);
    SelectAscending(OwnedBy(PointsOf(rows), p), 0, |rows|);
    if r in run {
      var i :| 0 <= i < |run| && run[i] == r;
      assert OwnedBy(PointsOf(rows), p)(run[i]);
    }
    if r < |rows| && rows[r].point == p {
      assert OwnedBy(PointsOf(rows), p)(r);
    }
  }

  // ----- the class -----

  class Index {
    ghost const rows: seq<Observed>
    const image: seq<nat>
    const point: seq<nat>
    const keys: seq<nat>
    const keyPoint: seq<nat>
    const obsImage: seq<nat>
    const obsFeature: seq<nat>
    const pointStart: seq<nat>
    /** The covisible sets worked out so far. */
    var memo: map<nat, set<nat>>

    ghost predicate Valid()
      reads this
    {
      && |rows| > 0 && SmallFeatures(rows)
      && IsPermutation(KeyOrder(rows), |rows|) && IsPermutation(PointOrder(rows), |rows|)
      && image == Images(rows) && point == Points(rows)
      && keys == Gather(KeysOf(rows), KeyOrder(rows)) && keyPoint == Gather(Points(rows), KeyOrder(rows))
      && obsImage == Gather(Images(rows), PointOrder(rows)) && obsFeature == Gather(Features(rows), PointOrder(rows))
      && pointStart == Offsets(BinCount(PointsOf(rows), PointCount(rows)))
      && (forall i :: i in memo ==> IsCovisible(rows, i, memo[i]))
    }

    constructor (images: seq<nat>, features: seq<nat>, points: seq<nat>, kdfToSfmr: seq<int>)
      requires |images| == |features| == |points|
      requires |KeptRows(images, features, points, kdfToSfmr)| > 0
      requires SmallFeatures(KeptRows(images, features, points, kdfToSfmr))
      ensures Valid() && rows == KeptRows(images, features, points, kdfToSfmr)
      ensures memo == map[]
    {
      var kept := KeptRows(images, features, points, kdfToSfmr);
      KeyOrderIsStable(kept);
      PointOrderIsRuns(kept);
      rows := kept;
      image, point := Images(kept), Points(kept);
      keys := Gather(KeysOf(kept), KeyOrder(kept));
      keyPoint := Gather(Points(kept), KeyOrder(kept));
      obsImage := Gather(Images(kept), PointOrder(kept));
      obsFeature := Gather(Features(kept), PointOrder(kept));
      pointStart := Offsets(BinCount(PointsOf(kept), PointCount(kept)));
      memo := map[];
    }

    method Lookup(want: nat) returns (found: int)
      requires Valid()
      ensures forall i: nat, f: nat :: f < SHIFT && want == Pack(i, f) ==> found == ScanPoint(rows, i, f)
    {
      KeyOrderIsStable(rows);
      forall i, j | 0 <= i < j < |keys| ensures keys[i] <= keys[j] {
        NotEarlier(KeysOf(rows), KeyOrder(rows), i, j);
      }
      var pos := SearchSorted(keys, want);
      assert forall i :: 0 <= i < |rows| ==> KeysOf(rows)[KeyOrder(rows)[i]] == keys[i];
      assert forall i :: 0 <= i < |rows| ==> rows[KeyOrder(rows)[i]].point == keyPoint[i];
      forall i: nat, f: nat | f < SHIFT && want == Pack(i, f)
        ensures ScanPoint(rows, i, f) == if pos < |keys| && keys[pos] == want then keyPoint[pos] else -1
      {
        SearchIsScan(rows, i, f, pos);
      }
      var at := if pos < |keys| then pos else |keys| - 1;
      found := if keys[at] == want then keyPoint[at] else -1;
    }

    /** A lookup per feature, each answering as the first hit of a scan of the rows would. */
    method PointOf(image: nat, features: seq<nat>) returns (out: seq<int>)
      requires Valid() && forall k :: 0 <= k < |features| ==> features[k] < 0x1_0000_0000
      ensures |out| == |features|
      ensures forall k :: 0 <= k < |out| ==> out[k] == ScanPoint(rows, image, features[k])
    {
      out := [];
      for k := 0 to |features|
        invariant |out| == k && forall j :: 0 <= j < k ==> out[j] == ScanPoint(rows, image, features[j])
      {
        var found := Lookup(Pack(image, features[k]));
        out := out + [found];
      }
    }

    /** The run of rows of a point, in row order. */
    lemma RunAt(p: nat)
      requires Valid() && p < PointCount(rows)
      ensures p + 1 < |pointStart| && pointStart[p] <= pointStart[p + 1] <= |rows|
      ensures PointOrder(rows)[pointStart[p]..pointStart[p + 1]] == Positions(PointsOf(rows), p)
    {
      RunBounds(rows, p);
    }

    lemma RunReads(p: nat)
      requires Valid() && p < PointCount(rows)
      ensures p + 1 < |pointStart|
      ensures Reads(obsImage, obsFeature, pointStart[p], pointStart[p + 1], rows, Positions(PointsOf(rows), p))
    {
      RunAt(p);
      SliceReads(rows, PointOrder(rows), pointStart[p], pointStart[p + 1]);
    }

    method SlotMatches(image: nat, slot: nat, p: nat) returns (matches: seq<Match>)
      requires Valid() && p < PointCount(rows)
      ensures matches == ScanSlot(rows, image, slot, p)
    {
      RunReads(p);
      ScanSlotReadsPositions(rows, image, slot, p);
      matches := ReadRun(obsImage, obsFeature, pointStart[p], pointStart[p + 1], image, slot, rows,
                         Positions(PointsOf(rows), p));
    }

    /** The runs of the features' points, read off slot by slot, give the scan's matches in its order. */
    method Correspondences(image: nat, features: seq<nat>) returns (matches: seq<Match>)
      requires Valid() && forall k :: 0 <= k < |features| ==> features[k] < 0x1_0000_0000
      ensures matches == ScanMatches(rows, image, features)
    {
      var points := PointOf(image, features);
      matches := [];
      for slot := 0 to |points|
        invariant matches == ScanMatches(rows, image, features[..slot])
      {
        assert features[..slot + 1][..slot] == features[..slot];
        ScanPointInRange(rows, image, features[slot]);
        if points[slot] < 0 {
          NoSuchPoint(rows, image, slot, points[slot]);
          continue;
        }
        var more := SlotMatches(image, slot, points[slot]);
        matches := matches + more;
      }
      assert features[..|features|] == features;
    }

    /** The images of one point's run. */
    method ImagesOfPoint(p: nat) returns (images: set<nat>)
      requires Valid() && p < PointCount(rows)
      ensures forall j: nat :: j in images <==> SharedThrough(rows, {p}, j)
    {
      RunAt(p);
      var lo, hi := pointStart[p], pointStart[p + 1];
      images := set o | lo <= o < hi :: obsImage[o];
      forall j: nat ensures j in images <==> SharedThrough(rows, {p}, j) {
        RunImages(rows, p, j, PointOrder(rows), lo, hi);
        assert j in images <==> exists o :: lo <= o < hi && obsImage[o] == j;
        assert forall o :: lo <= o < hi ==> obsImage[o] == rows[PointOrder(rows)[o]].image;
      }
    }

    /** The union of the images of every point the image observes, less itself; kept once found. */
    method Covisible(i: nat) returns (others: set<nat>)
      requires Valid()
      modifies this`memo
      ensures Valid() && i in memo && others == memo[i] && IsCovisible(rows, i, others)
      ensures forall j: nat :: j in others <==>
                && j != i
                && exists a, b ::
                     && 0 <= a < |rows| && 0 <= b < |rows|
                     && rows[a].image == i && rows[b].image == j && rows[a].point == rows[b].point
      ensures forall j :: j in old(memo) ==> j in memo && memo[j] == old(memo)[j]
    {
      if i !in memo {
        var points := set r | 0 <= r < |image| && image[r] == i :: point[r];
        var left := points;
        others := {};
        while left != {}
          invariant left <= points && Valid() && memo == old(memo)
          invariant forall j: nat :: j in others <==> SharedThrough(rows, points - left, j)
          decreases left
        {
          var p :| p in left;
          assert p < PointCount(rows);
          var images := ImagesOfPoint(p);
          forall j: nat ensures SharedThrough(rows, points - left + {p}, j) <==> j in others + images {
            SharedByOneMore(rows, points - left, p, j);
          }
          assert points - (left - {p}) == points - left + {p};
          left := left - {p};
          others := others + images;
        }
        assert points - left == points;
        forall p: nat ensures p in points <==> Observes(rows, i, p) {
          if Observes(rows, i, p) {
            var r :| 0 <= r < |rows| && rows[r].image == i && rows[r].point == p;
            assert image[r] == i && point[r] == p;
          }
        }
        forall j: nat ensures j in others <==> SharePoint(rows, i, j) {
          SharedIsCovisible(rows, i, points, j);
        }
        others := others - {i};
        memo := memo[i := others];
      }
      others := memo[i];
    }
  }

  // ----- the columns of the rows -----

  function Images(rows: seq<Observed>): (r: seq<nat>)
    ensures |r| == |rows|
  {
    seq(|rows|, k requires 0 <= k < |rows| => rows[k].image)
  }

  function Features(rows: seq<Observed>): (r: seq<nat>)
    ensures |r| == |rows|
  {
    seq(|rows|, k requires 0 <= k < |rows| => rows[k].feature)
  }

  function Points(rows: seq<Observed>): (r: seq<nat>)
    ensures |r| == |rows|
  {
    seq(|rows|, k requires 0 <= k < |rows| => rows[k].point)
  }

  lemma {:induction false} NoSuchPoint(rows: seq<Observed>, image: nat, slot: nat, point: int)
    requires point < 0
    ensures ScanSlot(rows, image, slot, point) == []
  {
    if |rows| > 0 {
      NoSuchPoint(rows[..|rows| - 1], image, slot, point);
    }
  }

  /** Some row of one of these points is in image `j`. */
  ghost predicate SharedThrough(rows: seq<Observed>, points: set<nat>, j: nat) {
    exists r :: 0 <= r < |rows| && rows[r].point in points && rows[r].image == j
  }

  lemma SharedByOneMore(rows: seq<Observed>, points: set<nat>, p: nat, j: nat)
    ensures SharedThrough(rows, points + {p}, j) <==> SharedThrough(rows, points, j) || SharedThrough(rows, {p}, j)
  {
  }

  /** The images in one point's run are those of its rows. */
  lemma RunImages(rows: seq<Observed>, p: nat, j: nat, order: seq<nat>, lo: nat, hi: nat)
    requires lo <= hi <= |order| && InBounds(order, |rows|) && order[lo..hi] == Positions(PointsOf(rows), p)
    ensures SharedThrough(rows, {p}, j) <==> exists o :: lo <= o < hi && rows[order[o]].image == j
  {
    if SharedThrough(rows, {p}, j) {
      var r :| 0 <= r < |rows| && rows[r].point in {p} && rows[r].image == j;
      PositionsHold(rows, p, r);
      var k :| 0 <= k < hi - lo && order[lo..hi][k] == r;
      assert order[lo + k] == r;
    }
    if o :| lo <= o < hi && rows[order[o]].image == j {
      assert order[lo..hi][o - lo] == order[o];
      PositionsHold(rows, p, order[o]);
    }
  }

  ghost predicate Observes(rows: seq<Observed>, i: nat, p: nat) {
    exists r :: 0 <= r < |rows| && rows[r].image == i && rows[r].point == p
  }

  lemma SharedIsCovisible(rows: seq<Observed>, i: nat, points: set<nat>, j: nat)
    requires forall p: nat :: p in points <==> Observes(rows, i, p)
    ensures SharedThrough(rows, points, j) <==> SharePoint(rows, i, j)
  {
    if SharedThrough(rows, points, j) {
      var r :| 0 <= r < |rows| && rows[r].point in points && rows[r].image == j;
      assert Observes(rows, i, rows[r].point);
      assert SharePoint(rows, i, j);
    }
    if SharePoint(rows, i, j) {
      var a, b :| 0 <= a < |rows| && 0 <= b < |rows| && rows[a].image == i && rows[b].image == j
          && rows[a].point == rows[b].point;
      assert Observes(rows, i, rows[b].point);
    }
  }

  // ----- what the answers have in common -----

  /** Covisibility is symmetric. */
  lemma CovisibleIsSymmetric(rows: seq<Observed>, i: nat, j: nat, ofI: set<nat>, ofJ: set<nat>)
    requires IsCovisible(rows, i, ofI) && IsCovisible(rows, j, ofJ)
    ensures j in ofI <==> i in ofJ
  {
  }

  lemma {:induction false} SlotMatchesShare(rows: seq<Observed>, image: nat, slot: nat, point: nat, m: nat)
    requires m < |ScanSlot(rows, image, slot, point)|
    ensures var match_ := ScanSlot(rows, image, slot, point)[m];
            && match_.image != image
            && exists r ::
                 && 0 <= r < |rows| && rows[r].point == point
                 && rows[r].image == match_.image && rows[r].feature == match_.feature
  {
    var front := rows[..|rows| - 1];
    if m < |ScanSlot(front, image, slot, point)| {
      SlotMatchesShare(front, image, slot, point, m);
      var match_ := ScanSlot(front, image, slot, point)[m];
      var r :| 0 <= r < |front| && front[r].point == point && front[r].image == match_.image
          && front[r].feature == match_.feature;
      assert rows[r] == front[r];
    } else {
      assert rows[|rows| - 1].point == point;
    }
  }

  /** Every image a correspondence names is covisible with the query's. */
  lemma {:induction false} MatchesAreCovisible(rows: seq<Observed>, image: nat, features: seq<nat>, others: set<nat>,
                                               m: nat)
    requires IsCovisible(rows, image, others) && m < |ScanMatches(rows, image, features)|
    ensures ScanMatches(rows, image, features)[m].image in others
    decreases |features|
  {
    var slot := |features| - 1;
    var front := ScanMatches(rows, image, features[..slot]);
    if m < |front| {
      MatchesAreCovisible(rows, image, features[..slot], others, m);
    } else {
      var point := ScanPoint(rows, image, features[slot]);
      ScanPointInRange(rows, image, features[slot]);
      if point < 0 {
        NoSuchPoint(rows, image, slot, point);
      } else {
        SlotMatchesShare(rows, image, slot, point, m - |front|);
        assert SharePoint(rows, image, ScanMatches(rows, image, features)[m].image);
      }
    }
  }
}
