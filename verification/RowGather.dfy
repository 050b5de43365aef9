/** The three parts `materialise` gathers its rows from (scripts/measure_edit_costs.py:222-247) and
    what one materialised point picks out of each: base rows carried over under a mask, base rows
    of modified points, and extra rows. */
module RowGather {
  import opened Arrays
  import opened TrackSort

  // ----- what one point picks out of each part of the gathered rows -----

  lemma GatherRange<T>(rows: seq<T>, lo: nat, hi: nat)
    requires lo <= hi <= |rows|
    ensures Gather(rows, Range(lo, hi)) == rows[lo..hi]
  {
  }

  function Marked(mask: seq<bool>): nat -> bool {
    (r: nat) => r < |mask| && mask[r]
  }

  /** `flatnonzero(mask)`. */
  function FlatNonzero(mask: seq<bool>): (r: seq<nat>)
    ensures InBounds(r, |mask|)
  {
    Select(Marked(mask), 0, |mask|)
  }

  lemma KeptMask(counts: seq<nat>, keep: seq<bool>, rowMap: seq<int>, p: nat, q: int, r: nat)
    requires |keep| == |rowMap| == |counts| && r < Offset(counts, |counts|)
    requires forall o :: 0 <= o < |counts| && keep[o] && rowMap[o] == q ==> o == p
    ensures Both(Marked(Repeat(keep, counts)), Repeat(rowMap, counts), q)(r)
        <==> p < |counts| && keep[p] && rowMap[p] == q && Offset(counts, p) <= r < Offset(counts, p + 1)
  {
    var o := OwnerOf(counts, r);
    RepeatAt(keep, counts, o, r);
    RepeatAt(rowMap, counts, o, r);
    assert keep[o] && rowMap[o] == q ==> o == p;
    assert Marked(Repeat(keep, counts))(r) == keep[o];
    if p < |counts| && Offset(counts, p) <= r < Offset(counts, p + 1) {
      OwnerIsUnique(counts, r, p, o);
    }
  }

  /** The rows of the points a per-point mask keeps. */
  function KeptRows(counts: seq<nat>, keep: seq<bool>, n: nat): (r: seq<nat>)
    requires |keep| == |counts| && n == Offset(counts, |counts|)
    ensures InBounds(r, n)
  {
    RepeatLength(keep, counts);
    FlatNonzero(Repeat(keep, counts))
  }

  /** The materialised point of each of those rows. */
  function KeptOwners(counts: seq<nat>, keep: seq<bool>, rowMap: seq<int>): (r: seq<int>)
    requires |keep| == |rowMap| == |counts|
    ensures |r| == |KeptRows(counts, keep, Offset(counts, |counts|))|
  {
    RepeatLength(rowMap, counts);
    Gather(Repeat(rowMap, counts), KeptRows(counts, keep, Offset(counts, |counts|)))
  }

  /** Of the rows kept, those landing at `q` are the stretch of the one point that lands there. */
  lemma SelectKept(counts: seq<nat>, keep: seq<bool>, rowMap: seq<int>, p: nat, q: int)
    requires |keep| == |rowMap| == |counts|
    requires forall o :: 0 <= o < |counts| && keep[o] && rowMap[o] == q ==> o == p
    ensures p < |counts| ==> Offset(counts, p) <= Offset(counts, p + 1)
    ensures Select(Both(Marked(Repeat(keep, counts)), Repeat(rowMap, counts), q), 0, Offset(counts, |counts|))
         == if p < |counts| && keep[p] && rowMap[p] == q then Range(Offset(counts, p), Offset(counts, p + 1)) else []
  {
    var mine := Both(Marked(Repeat(keep, counts)), Repeat(rowMap, counts), q);
    var n := Offset(counts, |counts|);
    forall r: nat | r < n
      ensures mine(r) <==> p < |counts| && keep[p] && rowMap[p] == q && Offset(counts, p) <= r < Offset(counts, p + 1)
    {
      KeptMask(counts, keep, rowMap, p, q, r);
    }
    if p < |counts| && keep[p] && rowMap[p] == q {
      OffsetMonotone(counts, p + 1, |counts|);
      SelectInterval(mine, Offset(counts, p), Offset(counts, p + 1), n);
    } else {
      SelectInterval(mine, 0, 0, n);
    }
  }

  /** The rows kept under a per-point mask, where at most point `p` is kept and lands at `q`. */
  lemma {:induction false} PickKept<T>(counts: seq<nat>, keep: seq<bool>, rowMap: seq<int>, rows: seq<T>, p: nat,
                                       q: int)
    requires |keep| == |rowMap| == |counts| && |rows| == Offset(counts, |counts|)
    requires forall o :: 0 <= o < |counts| && keep[o] && rowMap[o] == q ==> o == p
    ensures Pick(KeptOwners(counts, keep, rowMap), Gather(rows, KeptRows(counts, keep, |rows|)), q)
         == if p < |counts| && keep[p] && rowMap[p] == q then Stretch(counts, rows, p) else []
  {
    var mask, owners := Repeat(keep, counts), Repeat(rowMap, counts);
    RepeatLength(keep, counts);
    RepeatLength(rowMap, counts);
    PickSelected(Marked(mask), owners, rows, q, |rows|);
    SelectKept(counts, keep, rowMap, p, q);
    if p < |counts| && keep[p] && rowMap[p] == q {
      OffsetMonotone(counts, p + 1, |counts|);
      GatherRange(rows, Offset(counts, p), Offset(counts, p + 1));
    }
  }

  /** The rows `addition_rows` gathers: every modified point's base rows, point by point. */
  function BaseRows(counts: seq<nat>, modified: seq<nat>): (r: seq<nat>)
    requires InBounds(modified, |counts|)
    ensures InBounds(r, Offset(counts, |counts|))
  {
    if |modified| == 0 then []
    else
      var p := modified[|modified| - 1];
      OffsetMonotone(counts, p + 1, |counts|);
      BaseRows(counts, modified[..|modified| - 1]) + Range(Offset(counts, p), Offset(counts, p + 1))
  }

  /** The materialised point of each of those rows. */
  function AddedOwners(counts: seq<nat>, rowMap: seq<int>, modified: seq<nat>): (r: seq<int>)
    requires InBounds(modified, |counts|) && |rowMap| == |counts|
    ensures |r| == |BaseRows(counts, modified)|
  {
    if |modified| == 0 then []
    else
      var p := modified[|modified| - 1];
      AddedOwners(counts, rowMap, modified[..|modified| - 1]) + Fill(counts[p], rowMap[p])
  }

  /** It is `row_map[repeat(modified, counts[modified])]`. */
  lemma {:induction false} AddedOwnersIsRepeat(counts: seq<nat>, rowMap: seq<int>, modified: seq<nat>)
    requires InBounds(modified, |counts|) && |rowMap| == |counts|
    ensures AddedOwners(counts, rowMap, modified) == Repeat(Gather(rowMap, modified), Gather(counts, modified))
  {
    if |modified| > 0 {
      var k := |modified| - 1;
      AddedOwnersIsRepeat(counts, rowMap, modified[..k]);
      assert Gather(counts, modified)[..k] == Gather(counts, modified[..k]);
      assert Gather(rowMap, modified)[..k] == Gather(rowMap, modified[..k]);
    }
  }

  /** The modified tracks' rows, where exactly the one at position `at` lands at `q`. */
  lemma {:induction false} PickAdded<T>(counts: seq<nat>, rowMap: seq<int>, rows: seq<T>, modified: seq<nat>, at: int,
                                        q: int)
    requires InBounds(modified, |counts|) && |rowMap| == |counts| && |rows| == Offset(counts, |counts|)
    requires forall i :: 0 <= i < |modified| ==> (rowMap[modified[i]] == q <==> i == at)
    ensures Pick(AddedOwners(counts, rowMap, modified), Gather(rows, BaseRows(counts, modified)), q)
         == if 0 <= at < |modified| then Stretch(counts, rows, modified[at]) else []
  {
    if |modified| > 0 {
      var k := |modified| - 1;
      PickAdded(counts, rowMap, rows, modified[..k], at, q);
      PickAddedStep(counts, rowMap, rows, modified, modified[..k], modified[k], q);
    }
  }

  lemma {:induction false} PickAddedStep<T>(counts: seq<nat>, rowMap: seq<int>, rows: seq<T>, modified: seq<nat>,
                                            front: seq<nat>, m: nat, q: int)
    requires InBounds(modified, |counts|) && |rowMap| == |counts| && |rows| == Offset(counts, |counts|)
    requires |modified| > 0 && front == modified[..|modified| - 1] && m == modified[|modified| - 1]
    ensures Pick(AddedOwners(counts, rowMap, modified), Gather(rows, BaseRows(counts, modified)), q)
         == Pick(AddedOwners(counts, rowMap, front), Gather(rows, BaseRows(counts, front)), q)
            + (if rowMap[m] == q then Stretch(counts, rows, m) else [])
  {
    AddedStep(counts, rows, modified);
    PickFill(rowMap[m], Stretch(counts, rows, m), q);
    PickAppend(AddedOwners(counts, rowMap, front), Gather(rows, BaseRows(counts, front)),
               Fill(counts[m], rowMap[m]), Stretch(counts, rows, m), q);
  }

  lemma BaseRowsStep(counts: seq<nat>, modified: seq<nat>, k: nat, m: nat)
    requires InBounds(modified, |counts|) && |modified| == k + 1 && m == modified[k]
    ensures Offset(counts, m) <= Offset(counts, m + 1) <= Offset(counts, |counts|)
    ensures BaseRows(counts, modified) == BaseRows(counts, modified[..k])
        + Range(Offset(counts, m), Offset(counts, m + 1))
  {
    OffsetMonotone(counts, m + 1, |counts|);
  }

  lemma GatherWithRange<T>(rows: seq<T>, all: seq<nat>, front: seq<nat>, lo: nat, hi: nat)
    requires InBounds(all, |rows|) && lo <= hi <= |rows| && all == front + Range(lo, hi) && InBounds(front, |rows|)
    ensures Gather(rows, all) == Gather(rows, front) + rows[lo..hi]
  {
  }

  lemma GatherWithStretch<T>(counts: seq<nat>, rows: seq<T>, all: seq<nat>, front: seq<nat>, p: nat)
    requires p < |counts| && |rows| == Offset(counts, |counts|) && Offset(counts, p) <= Offset(counts, p + 1) <= |rows|
    requires InBounds(all, |rows|) && InBounds(front, |rows|)
    requires all == front + Range(Offset(counts, p), Offset(counts, p + 1))
    ensures Gather(rows, all) == Gather(rows, front) + Stretch(counts, rows, p)
  {
    GatherWithRange(rows, all, front, Offset(counts, p), Offset(counts, p + 1));
  }

  lemma {:induction false} AddedStep<T>(counts: seq<nat>, rows: seq<T>, modified: seq<nat>)
    requires InBounds(modified, |counts|) && |rows| == Offset(counts, |counts|) && |modified| > 0
    ensures Gather(rows, BaseRows(counts, modified))
         == Gather(rows, BaseRows(counts, modified[..|modified| - 1])) + Stretch(counts, rows, modified[|modified| - 1])
  {
    var k := |modified| - 1;
    var m := modified[k];
    BaseRowsStep(counts, modified, k, m);
    GatherWithStretch(counts, rows, BaseRows(counts, modified), BaseRows(counts, modified[..k]), m);
  }

  /** Where at most one owner is `q`, its row is all that is picked. */
  lemma PickExtra<T>(owners: seq<int>, rows: seq<T>, at: int, q: int)
    requires |owners| == |rows|
    requires forall i :: 0 <= i < |owners| ==> (owners[i] == q <==> i == at)
    ensures Pick(owners, rows, q) == if 0 <= at < |rows| then [rows[at]] else []
  {
    if 0 <= at < |rows| {
      PickStretch(owners, rows, q, at, at + 1);
    } else {
      PickStretch(owners, rows, q, 0, 0);
    }
  }

  /** The materialised point of each new point's rows, the new points starting at `s`. */
  function NewOwners(s: nat, c: nat): (r: seq<int>) {
    Repeat<int>(Range(s, s + c), Fill<nat>(c, 2))
  }

  lemma {:induction false} NewOwnersAt(s: nat, c: nat)
    ensures |NewOwners(s, c)| == 2 * c
    ensures forall i :: 0 <= i < 2 * c ==> NewOwners(s, c)[i] == s + i / 2
  {
    if c > 0 {
      NewOwnersAt(s, c - 1);
      assert Range(s, s + c)[..c - 1] == Range(s, s + c - 1);
      assert Fill<nat>(c, 2)[..c - 1] == Fill<nat>(c - 1, 2);
      assert NewOwners(s, c) == NewOwners(s, c - 1) + Fill<int>(2, s + c - 1);
    }
  }

  lemma PickNew<T>(s: nat, c: nat, rows: seq<T>, q: int)
    requires |rows| == 2 * c
    ensures |NewOwners(s, c)| == 2 * c
    ensures Pick(NewOwners(s, c), rows, q) == if s <= q < s + c then rows[2 * (q - s)..2 * (q - s) + 2] else []
  {
    NewOwnersAt(s, c);
    if s <= q < s + c {
      PickStretch(NewOwners(s, c), rows, q, 2 * (q - s), 2 * (q - s) + 2);
    } else {
      PickStretch(NewOwners(s, c), rows, q, 0, 0);
    }
  }

  // ----- the gathered rows, before the re-sort -----

  /** The materialised point of every gathered row: carried over, re-added, and extra. The new
      points start at `s`. */
  function AllOwners(counts: seq<nat>, keep: seq<bool>, rowMap: seq<int>, modified: seq<nat>, s: nat, c: nat): seq<int>
    requires |keep| == |rowMap| == |counts| && InBounds(modified, |counts|)
  {
    KeptOwners(counts, keep, rowMap)
    + AddedOwners(counts, rowMap, modified)
    + (Gather(rowMap, modified) + NewOwners(s, c))
  }

  /** A base column's gathered cells, with the extra rows' cells `tail` behind them. */
  function AllRows<T>(counts: seq<nat>, keep: seq<bool>, modified: seq<nat>, column: seq<T>, tail: seq<T>): seq<T>
    requires |keep| == |counts| && |column| == Offset(counts, |counts|) && InBounds(modified, |counts|)
  {
    Gather(column, KeptRows(counts, keep, |column|)) + Gather(column, BaseRows(counts, modified)) + tail
  }

  /** The rows after the gathered ones: a modified point picks its single one, a new point its pair. */
  lemma PickTail<T>(owners: seq<int>, tail: seq<T>, s: nat, c: nat, at: int, q: int)
    requires |tail| == |owners| + 2 * c
    requires forall i :: 0 <= i < |owners| ==> (owners[i] == q <==> i == at)
    ensures |owners + NewOwners(s, c)| == |tail|
    ensures Pick(owners + NewOwners(s, c), tail, q)
         == (if 0 <= at < |owners| then [tail[at]] else [])
          + (if s <= q < s + c then tail[|owners|..][2 * (q - s)..2 * (q - s) + 2] else [])
  {
    var front, back := tail[..|owners|], tail[|owners|..];
    assert tail == front + back;
    PickExtra(owners, front, at, q);
    PickNew(s, c, back, q);
    PickAppend(owners, front, NewOwners(s, c), back, q);
  }

  lemma PickThree<T>(o1: seq<int>, r1: seq<T>, o2: seq<int>, r2: seq<T>, o3: seq<int>, r3: seq<T>, q: int)
    requires |o1| == |r1| && |o2| == |r2| && |o3| == |r3|
    ensures Pick(o1 + o2 + o3, r1 + r2 + r3, q) == Pick(o1, r1, q) + Pick(o2, r2, q) + Pick(o3, r3, q)
  {
    PickAppend(o1, r1, o2, r2, q);
    PickAppend(o1 + o2, r1 + r2, o3, r3, q);
  }

  /** What materialised point `q` picks: at most one carried-over track `p`, at most one modified
      track with its extra row, and at most one new point's two rows. */
  lemma {:induction false} PickAll<T>(counts: seq<nat>, keep: seq<bool>, rowMap: seq<int>, modified: seq<nat>, s: nat,
                                      c: nat, rows: seq<T>, tail: seq<T>, p: nat, at: int, q: int)
    requires |keep| == |rowMap| == |counts| && |rows| == Offset(counts, |counts|) && InBounds(modified, |counts|)
    requires |tail| == |modified| + 2 * c
    requires forall o :: 0 <= o < |counts| && keep[o] && rowMap[o] == q ==> o == p
    requires forall i :: 0 <= i < |modified| ==> (rowMap[modified[i]] == q <==> i == at)
    ensures |AllOwners(counts, keep, rowMap, modified, s, c)| == |AllRows(counts, keep, modified, rows, tail)|
    ensures Pick(AllOwners(counts, keep, rowMap, modified, s, c), AllRows(counts, keep, modified, rows, tail), q)
         == (if p < |counts| && keep[p] && rowMap[p] == q then Stretch(counts, rows, p) else [])
          + (if 0 <= at < |modified| then Stretch(counts, rows, modified[at]) else [])
          + ((if 0 <= at < |modified| then [tail[at]] else [])
             + (if s <= q < s + c then tail[|modified|..][2 * (q - s)..2 * (q - s) + 2] else []))
  {
    PickTail(Gather(rowMap, modified), tail, s, c, at, q);
    PickKept(counts, keep, rowMap, rows, p, q);
    PickAdded(counts, rowMap, rows, modified, at, q);
    PickThree(KeptOwners(counts, keep, rowMap), Gather(rows, KeptRows(counts, keep, |rows|)),
              AddedOwners(counts, rowMap, modified), Gather(rows, BaseRows(counts, modified)),
              Gather(rowMap, modified) + NewOwners(s, c), tail, q);
  }
}
