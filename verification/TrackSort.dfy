/** Sorting gathered observation rows by (point, image): one stable sort over all the rows is one
    stable sort by image per point, the points laid end to end. */
module TrackSort {
  import opened Arrays

  /** One observation: its image, and its cell of every other observation column present. */
  datatype Row<V> = Row(image: nat, cells: map<string, V>)

  ghost function ByImage<V>(): (Row<V>, Row<V>) -> bool {
    (a: Row<V>, b: Row<V>) => a.image <= b.image
  }

  // ----- picking one point's rows out of a gathered column -----

  function PointAt(owners: seq<int>, i: nat): int { if i < |owners| then owners[i] else 0 }

  function OwnedBy(owners: seq<int>, q: int): nat -> bool {
    (i: nat) => PointAt(owners, i) == q
  }

  function Positions(owners: seq<int>, q: int): (r: seq<nat>)
    ensures InBounds(r, |owners|)
  {
    Select(OwnedBy(owners, q), 0, |owners|)
  }

  /** The rows of point `q`, in their gathered order. */
  function Pick<T>(owners: seq<int>, rows: seq<T>, q: int): seq<T>
    requires |owners| == |rows|
  {
    Gather(rows, Positions(owners, q))
  }

  lemma GatherAppend<T>(rows: seq<T>, xs: seq<nat>, ys: seq<nat>)
    requires InBounds(xs, |rows|) && InBounds(ys, |rows|)
    ensures Gather(rows, xs + ys) == Gather(rows, xs) + Gather(rows, ys)
  {
  }

  lemma GatherLeft<T>(r1: seq<T>, r2: seq<T>, xs: seq<nat>)
    requires InBounds(xs, |r1|)
    ensures InBounds(xs, |r1 + r2|) && Gather(r1 + r2, xs) == Gather(r1, xs)
  {
  }

  lemma GatherRight<T>(r1: seq<T>, r2: seq<T>, xs: seq<nat>, ys: seq<nat>)
    requires InBounds(ys, |r2|) && |xs| == |ys|
    requires forall i :: 0 <= i < |ys| ==> xs[i] == ys[i] + |r1|
    ensures InBounds(xs, |r1 + r2|) && Gather(r1 + r2, xs) == Gather(r2, ys)
  {
  }

  lemma GatherBoth<T>(r1: seq<T>, r2: seq<T>, front: seq<nat>, own: seq<nat>, back: seq<nat>)
    requires InBounds(front, |r1|) && InBounds(own, |r2|) && |back| == |own|
    requires forall i :: 0 <= i < |own| ==> back[i] == own[i] + |r1|
    ensures InBounds(front + back, |r1 + r2|) && Gather(r1 + r2, front + back) == Gather(r1, front) + Gather(r2, own)
  {
    GatherLeft(r1, r2, front);
    GatherRight(r1, r2, back, own);
    GatherAppend(r1 + r2, front, back);
  }

  lemma PickAppend<T>(o1: seq<int>, r1: seq<T>, o2: seq<int>, r2: seq<T>, q: int)
    requires |o1| == |r1| && |o2| == |r2|
    ensures Pick(o1 + o2, r1 + r2, q) == Pick(o1, r1, q) + Pick(o2, r2, q)
  {
    var k := |o1|;
    SelectSplit(OwnedBy(o1 + o2, q), 0, k, k + |o2|);
    SelectSame(OwnedBy(o1 + o2, q), OwnedBy(o1, q), 0, k);
    SelectShift(OwnedBy(o1 + o2, q), OwnedBy(o2, q), k, |o2|);
    var front, own, back := Positions(o1, q), Positions(o2, q), Select(OwnedBy(o1 + o2, q), k, k + |o2|);
    assert Positions(o1 + o2, q) == front + back;
    GatherBoth(r1, r2, front, own, back);
  }

  /** A point that owns one stretch of the gathered rows picks that stretch. */
  lemma PickStretch<T>(owners: seq<int>, rows: seq<T>, q: int, lo: nat, hi: nat)
    requires |owners| == |rows| && lo <= hi <= |rows|
    requires forall i :: 0 <= i < |owners| ==> (owners[i] == q <==> lo <= i < hi)
    ensures Pick(owners, rows, q) == rows[lo..hi]
  {
    SelectInterval(OwnedBy(owners, q), lo, hi, |owners|);
  }

  lemma PickFill<T>(owner: int, rows: seq<T>, q: int)
    ensures Pick(Fill(|rows|, owner), rows, q) == if owner == q then rows else []
  {
    if owner == q {
      PickStretch(Fill(|rows|, owner), rows, q, 0, |rows|);
    } else {
      PickStretch(Fill(|rows|, owner), rows, q, 0, 0);
    }
  }

  ghost function Both(keep: nat -> bool, owners: seq<int>, q: int): nat -> bool {
    (r: nat) => keep(r) && PointAt(owners, r) == q
  }

  /** Picking from a masked gather is gathering under the stronger mask. */
  lemma {:induction false} PickSelected<T>(keep: nat -> bool, owners: seq<int>, rows: seq<T>, q: int, n: nat)
    requires n <= |owners| == |rows|
    ensures var kept := Select(keep, 0, n);
            var both := Select(Both(keep, owners, q), 0, n);
            Pick(Gather(owners, kept), Gather(rows, kept), q) == Gather(rows, both)
  {
    if n > 0 {
      PickSelected(keep, owners, rows, q, n - 1);
      if keep(n - 1) {
        PickOneMore(owners, rows, Select(keep, 0, n - 1), n - 1, q);
        GatherOneMore(rows, Select(Both(keep, owners, q), 0, n - 1), n - 1);
      }
    }
  }

  lemma GatherOneMore<T>(column: seq<T>, index: seq<nat>, i: nat)
    requires InBounds(index, |column|) && i < |column|
    ensures Gather(column, index + [i]) == Gather(column, index) + [column[i]]
  {
  }

  lemma PickOneMore<T>(owners: seq<int>, rows: seq<T>, index: seq<nat>, i: nat, q: int)
    requires InBounds(index, |owners|) && i < |owners| == |rows|
    ensures Pick(Gather(owners, index + [i]), Gather(rows, index + [i]), q)
         == Pick(Gather(owners, index), Gather(rows, index), q) + (if owners[i] == q then [rows[i]] else [])
  {
    GatherOneMore(owners, index, i);
    GatherOneMore(rows, index, i);
    PickAppend(Gather(owners, index), Gather(rows, index), [owners[i]], [rows[i]], q);
    PickFill(owners[i], [rows[i]], q);
    assert Fill(1, owners[i]) == [owners[i]];
  }

  // ----- the re-sort splits into one sort per point -----

  function ImageAt(images: seq<nat>, i: nat): nat { if i < |images| then images[i] else 0 }

  /** `lexsort((images, owners))`: by point, then by image. */
  function LexLe(owners: seq<int>, images: seq<nat>): (nat, nat) -> bool {
    (a: nat, b: nat) =>
      PointAt(owners, a) < PointAt(owners, b)
      || (PointAt(owners, a) == PointAt(owners, b) && ImageAt(images, a) <= ImageAt(images, b))
  }

  ghost function ImageLe(images: seq<nat>): (nat, nat) -> bool {
    (a: nat, b: nat) => ImageAt(images, a) <= ImageAt(images, b)
  }

  /** One point's indexes, sorted by image alone. */
  ghost function Block(owners: seq<int>, images: seq<nat>, index: seq<nat>, q: int): seq<nat> {
    StableSort(ImageLe(images), Filter(OwnedBy(owners, q), index))
  }

  /** The blocks of points 0..n-1 one after the other. */
  ghost function Blocks(owners: seq<int>, images: seq<nat>, index: seq<nat>, n: nat): seq<nat> {
    if n == 0 then [] else Blocks(owners, images, index, n - 1) + Block(owners, images, index, n - 1)
  }

  lemma {:induction false} InsertInFront<T>(le: (T, T) -> bool, x: T, ys: seq<T>, zs: seq<T>)
    requires |zs| > 0 ==> le(x, zs[0])
    ensures Insert(le, x, ys + zs) == Insert(le, x, ys) + zs
  {
    if |ys| == 0 {
      assert ys + zs == zs;
    } else if le(x, ys[0]) {
    } else {
      InsertInFront(le, x, ys[1..], zs);
      assert (ys + zs)[1..] == ys[1..] + zs;
    }
  }

  lemma {:induction false} InsertBehind<T>(le: (T, T) -> bool, x: T, ys: seq<T>, zs: seq<T>)
    requires forall i :: 0 <= i < |ys| ==> !le(x, ys[i])
    ensures Insert(le, x, ys + zs) == ys + Insert(le, x, zs)
  {
    if |ys| == 0 {
      assert ys + zs == zs;
    } else {
      InsertBehind(le, x, ys[1..], zs);
      assert (ys + zs)[1..] == ys[1..] + zs;
    }
  }

  lemma {:induction false} InsertSame<T>(le: (T, T) -> bool, le': (T, T) -> bool, x: T, ys: seq<T>)
    requires forall i :: 0 <= i < |ys| ==> le(x, ys[i]) == le'(x, ys[i])
    ensures Insert(le, x, ys) == Insert(le', x, ys)
  {
    if |ys| > 0 && !le(x, ys[0]) {
      InsertSame(le, le', x, ys[1..]);
    }
  }

  lemma BlockOwner(owners: seq<int>, images: seq<nat>, index: seq<nat>, q: int)
    ensures forall i :: i in Block(owners, images, index, q) ==> PointAt(owners, i) == q
  {
    SortMembers(ImageLe(images), Filter(OwnedBy(owners, q), index));
    FilterMembers<nat>(OwnedBy(owners, q), index);
  }

  lemma {:induction false} BlocksOwners(owners: seq<int>, images: seq<nat>, index: seq<nat>, n: nat)
    ensures forall i :: i in Blocks(owners, images, index, n) ==> PointAt(owners, i) < n
  {
    if n > 0 {
      BlocksOwners(owners, images, index, n - 1);
      BlockOwner(owners, images, index, n - 1);
    }
  }

  lemma BlockWith(owners: seq<int>, images: seq<nat>, index: seq<nat>, q: int)
    requires |index| > 0
    ensures Block(owners, images, index, q)
         == if PointAt(owners, index[0]) == q
            then Insert(LexLe(owners, images), index[0], Block(owners, images, index[1..], q))
            else Block(owners, images, index[1..], q)
  {
    var block := Block(owners, images, index[1..], q);
    if PointAt(owners, index[0]) == q {
      BlockOwner(owners, images, index[1..], q);
      forall i | 0 <= i < |block|
        ensures LexLe(owners, images)(index[0], block[i]) == ImageLe(images)(index[0], block[i])
      {
        assert block[i] in block;
      }
      InsertSame(LexLe(owners, images), ImageLe(images), index[0], block);
      var mine := Filter(OwnedBy(owners, q), index[1..]);
      assert ([index[0]] + mine)[1..] == mine;
    }
  }

  /** The point blocks below the entry's own, which it sorts behind. */
  lemma {:induction false} InsertPastBlocks(owners: seq<int>, images: seq<nat>, x: nat, index: seq<nat>, n: nat,
                                            block: seq<nat>)
    requires n <= PointAt(owners, x)
    ensures Insert(LexLe(owners, images), x, Blocks(owners, images, index, n) + block)
         == Blocks(owners, images, index, n) + Insert(LexLe(owners, images), x, block)
  {
    var front := Blocks(owners, images, index, n);
    BlocksOwners(owners, images, index, n);
    forall i | 0 <= i < |front| ensures !LexLe(owners, images)(x, front[i]) {
      assert front[i] in front;
    }
    InsertBehind(LexLe(owners, images), x, front, block);
  }

  lemma {:induction false} InsertBeforeBlock(owners: seq<int>, images: seq<nat>, x: nat, index: seq<nat>, q: int,
                                             front: seq<nat>)
    requires PointAt(owners, x) < q
    ensures Insert(LexLe(owners, images), x, front + Block(owners, images, index, q))
         == Insert(LexLe(owners, images), x, front) + Block(owners, images, index, q)
  {
    var block := Block(owners, images, index, q);
    BlockOwner(owners, images, index, q);
    assert |block| > 0 ==> block[0] in block;
    InsertInFront(LexLe(owners, images), x, front, block);
  }

  lemma {:induction false} BlocksWithout(owners: seq<int>, images: seq<nat>, index: seq<nat>, n: nat)
    requires |index| > 0 && n <= PointAt(owners, index[0])
    ensures Blocks(owners, images, index, n) == Blocks(owners, images, index[1..], n)
    decreases n
  {
    if n > 0 {
      BlocksWithout(owners, images, index, n - 1);
      BlockWith(owners, images, index, n - 1);
    }
  }

  /** The blocks of an index are those of its tail with its first entry inserted. */
  ghost predicate InsertsFirst(owners: seq<int>, images: seq<nat>, index: seq<nat>, n: nat)
    requires |index| > 0
  {
    Blocks(owners, images, index, n) == Insert(LexLe(owners, images), index[0], Blocks(owners, images, index[1..], n))
  }

  lemma {:induction false} InsertOneMore(owners: seq<int>, images: seq<nat>, index: seq<nat>, rest: seq<nat>, n: nat)
    requires |index| > 0 && rest == index[1..]
    requires Blocks(owners, images, index, n) + Block(owners, images, index, n)
          == Insert(LexLe(owners, images), index[0], Blocks(owners, images, rest, n) + Block(owners, images, rest, n))
    ensures InsertsFirst(owners, images, index, n + 1)
  {
  }

  lemma {:induction false} InsertIntoOwnBlock(owners: seq<int>, images: seq<nat>, index: seq<nat>, rest: seq<nat>,
                                              n: nat)
    requires |index| > 0 && rest == index[1..] && PointAt(owners, index[0]) == n
    ensures Blocks(owners, images, index, n) + Block(owners, images, index, n)
         == Insert(LexLe(owners, images), index[0], Blocks(owners, images, rest, n) + Block(owners, images, rest, n))
  {
    BlocksWithout(owners, images, index, n);
    BlockWith(owners, images, index, n);
    InsertPastBlocks(owners, images, index[0], rest, n, Block(owners, images, rest, n));
  }

  lemma {:induction false} InsertBelowBlock(owners: seq<int>, images: seq<nat>, index: seq<nat>, rest: seq<nat>, n: nat)
    requires |index| > 0 && rest == index[1..] && PointAt(owners, index[0]) < n
    requires InsertsFirst(owners, images, index, n)
    ensures Blocks(owners, images, index, n) + Block(owners, images, index, n)
         == Insert(LexLe(owners, images), index[0], Blocks(owners, images, rest, n) + Block(owners, images, rest, n))
  {
    BlockWith(owners, images, index, n);
    InsertBeforeBlock(owners, images, index[0], rest, n, Blocks(owners, images, rest, n));
  }

  lemma InsertStep(owners: seq<int>, images: seq<nat>, index: seq<nat>, n: nat, next: nat)
    requires |index| > 0 && next == n + 1
    requires PointAt(owners, index[0]) == n || (PointAt(owners, index[0]) < n && InsertsFirst(owners, images, index, n))
    ensures InsertsFirst(owners, images, index, next)
  {
    if PointAt(owners, index[0]) == n {
      InsertIntoOwnBlock(owners, images, index, index[1..], n);
    } else {
      InsertBelowBlock(owners, images, index, index[1..], n);
    }
    InsertOneMore(owners, images, index, index[1..], n);
  }

  lemma {:induction false} InsertIntoBlocks(owners: seq<int>, images: seq<nat>, index: seq<nat>, n: nat)
    requires |index| > 0 && 0 <= PointAt(owners, index[0]) < n
    ensures InsertsFirst(owners, images, index, n)
    decreases n
  {
    if PointAt(owners, index[0]) < n - 1 {
      InsertIntoBlocks(owners, images, index, n - 1);
    }
    InsertStep(owners, images, index, n - 1, n);
  }

  /** Sorting by (point, image) sorts each point's rows by image and lays the points end to end. */
  lemma {:induction false} SortIsBlocks(owners: seq<int>, images: seq<nat>, index: seq<nat>, n: nat)
    requires forall i :: 0 <= i < |index| ==> 0 <= PointAt(owners, index[i]) < n
    ensures StableSort(LexLe(owners, images), index) == Blocks(owners, images, index, n)
  {
    if |index| == 0 {
      BlocksOfNothing(owners, images, n);
    } else {
      SortIsBlocks(owners, images, index[1..], n);
      InsertIntoBlocks(owners, images, index, n);
    }
  }

  lemma {:induction false} BlocksOfNothing(owners: seq<int>, images: seq<nat>, n: nat)
    ensures Blocks(owners, images, [], n) == []
  {
    if n > 0 {
      BlocksOfNothing(owners, images, n - 1);
    }
  }

  // ----- sorting indexes and then gathering is gathering and then sorting rows -----

  lemma {:induction false} GatherInsert<V>(rows: seq<Row<V>>, images: seq<nat>, x: nat, ys: seq<nat>)
    requires |images| == |rows| && (forall i :: 0 <= i < |rows| ==> rows[i].image == images[i])
    requires x < |rows| && InBounds(ys, |rows|)
    ensures InBounds(Insert(ImageLe(images), x, ys), |rows|)
    ensures Gather(rows, Insert(ImageLe(images), x, ys)) == Insert(ByImage(), rows[x], Gather(rows, ys))
  {
    if |ys| == 0 || ImageLe(images)(x, ys[0]) {
    } else {
      GatherInsert(rows, images, x, ys[1..]);
      assert Gather(rows, ys)[1..] == Gather(rows, ys[1..]);
    }
  }

  lemma {:induction false} GatherSorted<V>(rows: seq<Row<V>>, images: seq<nat>, index: seq<nat>)
    requires |images| == |rows| && (forall i :: 0 <= i < |rows| ==> rows[i].image == images[i])
    requires InBounds(index, |rows|)
    ensures InBounds(StableSort(ImageLe(images), index), |rows|)
    ensures Gather(rows, StableSort(ImageLe(images), index)) == StableSort(ByImage(), Gather(rows, index))
  {
    if |index| > 0 {
      GatherSorted(rows, images, index[1..]);
      GatherInsert(rows, images, index[0], StableSort(ImageLe(images), index[1..]));
      assert Gather(rows, index)[1..] == Gather(rows, index[1..]);
    }
  }

  lemma BlockIsTrack<V>(owners: seq<int>, rows: seq<Row<V>>, images: seq<nat>, q: nat)
    requires |owners| == |rows| == |images| && (forall i :: 0 <= i < |rows| ==> rows[i].image == images[i])
    ensures var block := Block(owners, images, Range(0, |rows|), q);
            && InBounds(block, |rows|)
            && Gather(rows, block) == StableSort(ByImage(), Pick(owners, rows, q))
            && Gather(owners, block) == Fill(|block|, q as int)
  {
    FilterRange(OwnedBy(owners, q), 0, |rows|);
    GatherSorted(rows, images, Positions(owners, q));
    var block := Block(owners, images, Range(0, |rows|), q);
    BlockOwner(owners, images, Range(0, |rows|), q);
    forall i | 0 <= i < |block| ensures owners[block[i]] == q {
      assert block[i] in block;
    }
  }

  /** The re-sorted rows are the tracks laid end to end, and the re-sorted point column says
      which track each row came from. */
  lemma {:induction false} BlocksAreTracks<V>(owners: seq<int>, rows: seq<Row<V>>, images: seq<nat>,
                                              tracks: seq<seq<Row<V>>>)
    requires |owners| == |rows| == |images| && (forall i :: 0 <= i < |rows| ==> rows[i].image == images[i])
    requires forall q :: 0 <= q < |tracks| ==> tracks[q] == StableSort(ByImage(), Pick(owners, rows, q))
    ensures var order := Blocks(owners, images, Range(0, |rows|), |tracks|);
            && InBounds(order, |rows|)
            && Gather(rows, order) == Flatten(tracks)
            && Gather(owners, order) == Repeat<int>(Range(0, |tracks|), Lengths(tracks))
    decreases |tracks|
  {
    if |tracks| > 0 {
      var q := |tracks| - 1;
      BlocksAreTracks(owners, rows, images, tracks[..q]);
      BlockIsTrack(owners, rows, images, q);
      TwoBlocks(owners, rows, Blocks(owners, images, Range(0, |rows|), q), Block(owners, images, Range(0, |rows|), q));
      assert Range(0, q + 1)[..q] == Range(0, q);
      assert Lengths(tracks)[..q] == Lengths(tracks[..q]);
    }
  }

  lemma TwoBlocks<T>(owners: seq<int>, rows: seq<T>, front: seq<nat>, block: seq<nat>)
    requires |owners| == |rows| && InBounds(front, |rows|) && InBounds(block, |rows|)
    ensures InBounds(front + block, |rows|)
    ensures Gather(rows, front + block) == Gather(rows, front) + Gather(rows, block)
    ensures Gather(owners, front + block) == Gather(owners, front) + Gather(owners, block)
  {
  }

  /** `bincount(points, minlength=n)`. */
  function BinCount(points: seq<int>, n: nat): (r: seq<nat>)
    ensures |r| == n
  {
    seq(n, q requires 0 <= q < n => |Positions(points, q)|)
  }

  lemma {:induction false} BinCountOfRepeat(counts: seq<nat>)
    ensures BinCount(Repeat<int>(Range(0, |counts|), counts), |counts|) == counts
  {
    forall q: nat | q < |counts|
      ensures |Positions(Repeat<int>(Range(0, |counts|), counts), q)| == counts[q]
    {
      PositionsInRepeat(counts, q);
    }
  }

  lemma OwnedInRepeat(counts: seq<nat>, q: nat, r: nat)
    requires q < |counts| && r < Offset(counts, |counts|)
    ensures OwnedBy(Repeat<int>(Range(0, |counts|), counts), q)(r)
         == (Offset(counts, q) <= r < Offset(counts, q + 1))
  {
    var o := OwnerOf(counts, r);
    RepeatAt<int>(Range(0, |counts|), counts, o, r);
    if Offset(counts, q) <= r < Offset(counts, q + 1) {
      OwnerIsUnique(counts, r, q, o);
    }
  }

  lemma {:induction false} PositionsInRepeat(counts: seq<nat>, q: nat)
    requires q < |counts|
    ensures |Positions(Repeat<int>(Range(0, |counts|), counts), q)| == counts[q]
  {
    var points := Repeat<int>(Range(0, |counts|), counts);
    RepeatLength<int>(Range(0, |counts|), counts);
    OffsetMonotone(counts, q + 1, |counts|);
    forall r: nat | r < |points| ensures OwnedBy(points, q)(r) == (Offset(counts, q) <= r < Offset(counts, q + 1)) {
      OwnedInRepeat(counts, q, r);
    }
    SelectInterval(OwnedBy(points, q), Offset(counts, q), Offset(counts, q + 1), |points|);
  }
}
