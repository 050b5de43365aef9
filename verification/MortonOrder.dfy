/** The Morton order over ranked coordinates (scripts/kdf_descriptor_orderings.py:72-109). */
module MortonOrder {
  import opened Arrays

  type Cell = seq<nat>

  function Pow2(b: nat): (p: nat)
    ensures p > 0
  {
    if b == 0 then 1 else 2 * Pow2(b - 1)
  }

  /** `x >> b`, and its lowest bit. */
  function Top(x: nat, b: nat): nat { Quotient(x, Pow2(b)) }

  function Quotient(x: nat, p: nat): nat
    requires p > 0
  {
    x / p
  }

  function Bit(x: nat, b: nat): (r: nat)
    ensures r <= 1
  {
    Top(x, b) % 2
  }

  lemma TopSplits(x: nat, b: nat)
    ensures Top(x, b) == 2 * Top(x, b + 1) + Bit(x, b)
  {
    HalfOfQuotient(x, Pow2(b));
  }

  lemma HalfOfQuotient(x: nat, p: nat)
    requires p > 0
    ensures x / (2 * p) == x / p / 2
  {
    var q, r := x / p, x % p;
    assert x == q * p + r;
    var h, s := q / 2, q % 2;
    assert q == 2 * h + s;
    assert x == h * (2 * p) + (s * p + r);
    assert 0 <= s * p + r < 2 * p by {
      assert s == 0 || s == 1;
    }
    QuotientIs(x, 2 * p, h, s * p + r);
  }

  lemma AtLeastOnce(k: int, m: nat)
    requires k >= 1
    ensures k * m >= m
  {
  }

  lemma QuotientIs(x: nat, m: nat, q: nat, r: nat)
    requires m > 0 && r < m && x == q * m + r
    ensures x / m == q && x % m == r
  {
    var d, e := x / m, x % m;
    assert x == d * m + e;
    assert (q - d) * m == e - r && (d - q) * m == r - e;
    if d < q {
      AtLeastOnce(q - d, m);
    } else if q < d {
      AtLeastOnce(d - q, m);
    }
  }

  lemma {:induction false} TopOfSmall(x: nat, b: nat)
    requires x < Pow2(b)
    ensures Top(x, b) == 0
  {
    QuotientIs(x, Pow2(b), 0, x);
  }

  lemma TopMonotone(x: nat, y: nat, b: nat)
    requires x <= y
    ensures Top(x, b) <= Top(y, b)
  {
    QuotientMonotone(x, y, Pow2(b));
  }

  lemma QuotientMonotone(x: nat, y: nat, p: nat)
    requires x <= y && p > 0
    ensures x / p <= y / p
  {
    var q, r := x / p, y / p;
    assert x == q * p + x % p && y == r * p + y % p;
    assert (q - r) * p == q * p - r * p;
    if r < q {
      AtLeastOnce(q - r, p);
    }
  }

  // ----- the key -----

  /** One bit of each of the first `d` axes appended to a key. */
  function Axes(key: nat, cell: Cell, b: nat, d: nat): nat
    requires d <= |cell|
  {
    if d == 0 then key else 2 * Axes(key, cell, b, d - 1) + Bit(cell[d - 1], b)
  }

  /** The key after the `n` highest of `bits` bits of every axis. */
  function Key(cell: Cell, bits: nat, n: nat): nat
    requires n <= bits
  {
    if n == 0 then 0 else Axes(Key(cell, bits, n - 1), cell, bits - n, |cell|)
  }

  ghost predicate InGrid(cell: Cell, bits: nat) {
    forall d :: 0 <= d < |cell| ==> cell[d] < Pow2(bits)
  }

  /** Every axis no further along. */
  ghost predicate Dominated(a: Cell, b: Cell) {
    |a| == |b| && forall d :: 0 <= d < |a| ==> a[d] <= b[d]
  }

  /** The cells agree on the bits above `b`, and on bit `b` too on the first `d` axes. */
  ghost predicate Agree(a: Cell, b: Cell, bit: nat, d: nat) {
    && |a| == |b|
    && (forall e :: 0 <= e < |a| ==>
          Top(a[e], if e < d then bit else bit + 1) == Top(b[e], if e < d then bit else bit + 1))
  }

  /** Equal keys so far are equal bits so far. */
  ghost predicate KeysTell(ka: nat, kb: nat, a: Cell, b: Cell, bit: nat, d: nat) {
    ka == kb ==> Agree(a, b, bit, d)
  }

  lemma KeysTellNext(ka: nat, kb: nat, a: Cell, b: Cell, bit: nat, d: nat)
    requires |a| == |b| && d < |a| && KeysTell(ka, kb, a, b, bit, d)
    ensures KeysTell(2 * ka + Bit(a[d], bit), 2 * kb + Bit(b[d], bit), a, b, bit, d + 1)
  {
    TopSplits(a[d], bit);
    TopSplits(b[d], bit);
  }

  lemma {:induction false} AxesTell(ka: nat, kb: nat, a: Cell, b: Cell, bit: nat, d: nat)
    requires |a| == |b| && d <= |a| && KeysTell(ka, kb, a, b, bit, 0)
    ensures KeysTell(Axes(ka, a, bit, d), Axes(kb, b, bit, d), a, b, bit, d)
    decreases d
  {
    if d > 0 {
      AxesTell(ka, kb, a, b, bit, d - 1);
      KeysTellNext(Axes(ka, a, bit, d - 1), Axes(kb, b, bit, d - 1), a, b, bit, d - 1);
    }
  }

  lemma {:induction false} KeyTells(a: Cell, b: Cell, bits: nat, n: nat)
    requires |a| == |b| && InGrid(a, bits) && InGrid(b, bits) && n <= bits
    ensures Key(a, bits, n) == Key(b, bits, n) ==>
              forall e :: 0 <= e < |a| ==> Top(a[e], bits - n) == Top(b[e], bits - n)
    decreases n
  {
    if n == 0 {
      forall e | 0 <= e < |a| ensures Top(a[e], bits) == Top(b[e], bits) {
        TopOfSmall(a[e], bits);
        TopOfSmall(b[e], bits);
      }
    } else {
      KeyTells(a, b, bits, n - 1);
      AxesTell(Key(a, bits, n - 1), Key(b, bits, n - 1), a, b, bits - n, |a|);
    }
  }

  lemma TopZero(x: nat)
    ensures Top(x, 0) == x
  {
  }

  /** Different grid cells have different keys. */
  lemma {:induction false} KeyIsInjective(a: Cell, b: Cell, bits: nat)
    requires |a| == |b| && InGrid(a, bits) && InGrid(b, bits) && Key(a, bits, bits) == Key(b, bits, bits)
    ensures a == b
  {
    KeyTells(a, b, bits, bits);
    forall e | 0 <= e < |a| ensures a[e] == b[e] {
      TopZero(a[e]);
      TopZero(b[e]);
    }
  }

  lemma KeyAxisUp(ka: nat, kb: nat, a: Cell, b: Cell, bit: nat, d: nat)
    requires Dominated(a, b) && d < |a| && ka <= kb && KeysTell(ka, kb, a, b, bit, d)
    ensures 2 * ka + Bit(a[d], bit) <= 2 * kb + Bit(b[d], bit)
  {
    TopSplits(a[d], bit);
    TopSplits(b[d], bit);
    TopMonotone(a[d], b[d], bit);
  }

  lemma {:induction false} AxesUp(ka: nat, kb: nat, a: Cell, b: Cell, bit: nat, d: nat)
    requires Dominated(a, b) && d <= |a| && ka <= kb && KeysTell(ka, kb, a, b, bit, 0)
    ensures Axes(ka, a, bit, d) <= Axes(kb, b, bit, d)
    decreases d
  {
    if d > 0 {
      AxesUp(ka, kb, a, b, bit, d - 1);
      AxesTell(ka, kb, a, b, bit, d - 1);
      KeyAxisUp(Axes(ka, a, bit, d - 1), Axes(kb, b, bit, d - 1), a, b, bit, d - 1);
    }
  }

  /** The key rises with every axis. */
  lemma {:induction false} KeyIsMonotone(a: Cell, b: Cell, bits: nat, n: nat)
    requires Dominated(a, b) && InGrid(a, bits) && InGrid(b, bits) && n <= bits
    ensures Key(a, bits, n) <= Key(b, bits, n)
    decreases n
  {
    if n > 0 {
      KeyIsMonotone(a, b, bits, n - 1);
      KeyTells(a, b, bits, n - 1);
      AxesUp(Key(a, bits, n - 1), Key(b, bits, n - 1), a, b, bits - n, |a|);
    }
  }

  // ----- where the bits of the axes stand in the key -----

  lemma LowBit(key: nat, bit: nat)
    requires bit <= 1
    ensures Bit(2 * key + bit, 0) == bit
  {
    QuotientIs(2 * key + bit, 2, key, bit);
  }

  lemma HigherBit(key: nat, bit: nat, i: nat)
    requires bit <= 1
    ensures Bit(2 * key + bit, i + 1) == Bit(key, i)
  {
    QuotientOfDouble(key, bit, Pow2(i));
  }

  lemma QuotientOfDouble(key: nat, bit: nat, p: nat)
    requires bit <= 1 && p > 0
    ensures (2 * key + bit) / (2 * p) == key / p
  {
    var q, r := key / p, key % p;
    assert key == q * p + r;
    assert 2 * key + bit == q * (2 * p) + (2 * r + bit);
    QuotientIs(2 * key + bit, 2 * p, q, 2 * r + bit);
  }

  /** Axis `e`'s bit stands as far up as there are axes after it ... */
  lemma {:induction false} AxisBit(key: nat, cell: Cell, b: nat, d: nat, e: nat)
    requires e < d <= |cell|
    ensures Bit(Axes(key, cell, b, d), d - 1 - e) == Bit(cell[e], b)
    decreases d
  {
    var front := Axes(key, cell, b, d - 1);
    if e == d - 1 {
      LowBit(front, Bit(cell[e], b));
    } else {
      AxisBit(key, cell, b, d - 1, e);
      HigherBit(front, Bit(cell[d - 1], b), d - 2 - e);
    }
  }

  /** ... and the bits before move up by one per axis. */
  lemma {:induction false} EarlierBit(key: nat, cell: Cell, b: nat, d: nat, i: nat)
    requires d <= |cell|
    ensures Bit(Axes(key, cell, b, d), d + i) == Bit(key, i)
    decreases d
  {
    if d > 0 {
      EarlierBit(key, cell, b, d - 1, i);
      HigherBit(Axes(key, cell, b, d - 1), Bit(cell[d - 1], b), d - 1 + i);
    }
  }

  lemma KeyBitUp(cell: Cell, bits: nat, n: nat, x: nat)
    requires 0 < n <= bits
    ensures Bit(Key(cell, bits, n), |cell| + x) == Bit(Key(cell, bits, n - 1), x)
  {
    EarlierBit(Key(cell, bits, n - 1), cell, bits - n, |cell|, x);
  }

  /** A bit entered `rounds` rounds before the last stands that many times the axes further up. */
  lemma {:induction false} KeyBitAfter(cell: Cell, bits: nat, n: nat, b: nat, e: nat, rounds: nat, lift: nat)
    requires n <= bits && b == bits - n + rounds < bits && e < |cell| && lift == rounds * |cell|
    ensures Bit(Key(cell, bits, n), lift + (|cell| - 1 - e)) == Bit(cell[e], b)
    decreases n
  {
    if rounds == 0 {
      AxisBit(Key(cell, bits, n - 1), cell, b, |cell|, e);
    } else {
      MoreRounds(rounds, |cell|, lift);
      KeyBitAfter(cell, bits, n - 1, b, e, rounds - 1, lift - |cell|);
      KeyBitUp(cell, bits, n, lift - |cell| + (|cell| - 1 - e));
    }
  }

  lemma MoreRounds(rounds: nat, dims: nat, lift: nat)
    requires rounds > 0 && lift == rounds * dims
    ensures lift >= dims && lift - dims == (rounds - 1) * dims
  {
    AtLeastOnce(rounds, dims);
  }

  /** The key interleaves the axes: bit `b` of axis `e` is one of as many bits as axes, from the bit
      `b` times the axes on, the first axis highest. */
  lemma {:induction false} KeyInterleaves(cell: Cell, bits: nat, b: nat, e: nat)
    requires b < bits && e < |cell|
    ensures b * |cell| + (|cell| - 1 - e) >= 0
    ensures Bit(Key(cell, bits, bits), b * |cell| + (|cell| - 1 - e)) == Bit(cell[e], b)
  {
    KeyBitAfter(cell, bits, bits, b, e, b, b * |cell|);
  }

  // ----- the key in a machine word -----

  /** `keys << 1 | bit` on an unsigned word of `w` bits: the top bit falls off. */
  function ShiftIn(key: nat, bit: nat, w: nat): nat
    requires bit <= 1
  {
    2 * key % Pow2(w) + bit
  }

  function WordAxes(key: nat, cell: Cell, b: nat, d: nat, w: nat): nat
    requires d <= |cell|
  {
    if d == 0 then key else ShiftIn(WordAxes(key, cell, b, d - 1, w), Bit(cell[d - 1], b), w)
  }

  function WordKey(cell: Cell, bits: nat, n: nat, w: nat): nat
    requires n <= bits
  {
    if n == 0 then 0 else WordAxes(WordKey(cell, bits, n - 1, w), cell, bits - n, |cell|, w)
  }

  lemma EvenRemainder(word: nat, half: nat)
    requires half > 0
    ensures 2 * word % (2 * half) == 2 * (word % half)
  {
    var q, r := word / half, word % half;
    assert word == q * half + r;
    assert 2 * word == q * (2 * half) + 2 * r;
    QuotientIs(2 * word, 2 * half, q, 2 * r);
  }

  lemma Regroup(q: nat, p: nat, r: nat, bit: nat, half: nat)
    ensures 2 * (q * (2 * half) + (p * half + r)) + bit == (2 * q + p) * (2 * half) + (2 * r + bit)
  {
  }

  lemma ShiftInIsModulo(key: nat, word: nat, bit: nat, half: nat)
    requires half > 0 && bit <= 1 && word == key % (2 * half)
    ensures 2 * word % (2 * half) + bit == (2 * key + bit) % (2 * half)
  {
    var q, e := Divide(key, 2 * half);
    var p, r := Divide(word, half);
    EvenRemainder(word, half);
    ShiftExact(q, p, r, bit, half);
  }

  lemma Divide(x: nat, m: nat) returns (q: nat, r: nat)
    requires m > 0
    ensures x == q * m + r && r < m && r == x % m
  {
    q, r := x / m, x % m;
  }

  lemma ShiftExact(q: nat, p: nat, r: nat, bit: nat, half: nat)
    requires bit <= 1 && r < half
    ensures (2 * (q * (2 * half) + (p * half + r)) + bit) % (2 * half) == 2 * r + bit
  {
    Regroup(q, p, r, bit, half);
    QuotientIs(2 * (q * (2 * half) + (p * half + r)) + bit, 2 * half, 2 * q + p, 2 * r + bit);
  }

  lemma {:induction false} WordAxesIsModulo(key: nat, word: nat, cell: Cell, b: nat, d: nat, w: nat)
    requires w > 0 && d <= |cell| && word == key % Pow2(w)
    ensures WordAxes(word, cell, b, d, w) == Axes(key, cell, b, d) % Pow2(w)
    decreases d
  {
    if d > 0 {
      WordAxesIsModulo(key, word, cell, b, d - 1, w);
      ShiftInIsModulo(Axes(key, cell, b, d - 1), WordAxes(word, cell, b, d - 1, w), Bit(cell[d - 1], b), Pow2(w - 1));
    }
  }

  /** The word holds the key modulo 2^w. */
  lemma {:induction false} WordKeyIsModulo(cell: Cell, bits: nat, n: nat, w: nat)
    requires w > 0 && n <= bits
    ensures WordKey(cell, bits, n, w) == Key(cell, bits, n) % Pow2(w)
    decreases n
  {
    if n == 0 {
      QuotientIs(0, Pow2(w), 0, 0);
    } else {
      WordKeyIsModulo(cell, bits, n - 1, w);
      WordAxesIsModulo(Key(cell, bits, n - 1), WordKey(cell, bits, n - 1, w), cell, bits - n, |cell|, w);
    }
  }

  lemma {:induction false} AxesBound(key: nat, cell: Cell, b: nat, d: nat, k: nat)
    requires d <= |cell| && key < Pow2(k)
    ensures Axes(key, cell, b, d) < Pow2(k + d)
    decreases d
  {
    if d > 0 {
      AxesBound(key, cell, b, d - 1, k);
    }
  }

  /** The key is as long as the bits shifted in. */
  lemma {:induction false} KeyBound(cell: Cell, bits: nat, n: nat)
    requires n <= bits
    ensures Key(cell, bits, n) < Pow2(n * |cell|)
    decreases n
  {
    if n > 0 {
      KeyBound(cell, bits, n - 1);
      AxesBound(Key(cell, bits, n - 1), cell, bits - n, |cell|, (n - 1) * |cell|);
      assert (n - 1) * |cell| + |cell| == n * |cell|;
    }
  }

  lemma {:induction false} Pow2Monotone(a: nat, b: nat)
    requires a <= b
    ensures Pow2(a) <= Pow2(b)
    decreases b - a
  {
    if a < b {
      Pow2Monotone(a, b - 1);
    }
  }

  /** While the bits fit the word, nothing falls off. */
  lemma {:induction false} WordHoldsKey(cell: Cell, bits: nat, w: nat)
    requires w > 0 && bits * |cell| <= w
    ensures WordKey(cell, bits, bits, w) == Key(cell, bits, bits)
  {
    WordKeyIsModulo(cell, bits, bits, w);
    KeyBound(cell, bits, bits);
    Pow2Monotone(bits * |cell|, w);
    QuotientIs(Key(cell, bits, bits), Pow2(w), 0, Key(cell, bits, bits));
  }

  // ----- when the bits do not fit -----

  /** The cell furthest along the first axis by half the grid, at the start of every other. */
  function FarCell(dims: nat, bits: nat): (cell: Cell)
    requires dims > 0 && bits > 0
    ensures |cell| == dims
  {
    [Pow2(bits - 1)] + Fill(dims - 1, 0)
  }

  lemma {:induction false} Pow2Splits(a: nat, b: nat)
    ensures Pow2(a + b) == Pow2(a) * Pow2(b)
    decreases b
  {
    if b > 0 {
      Pow2Splits(a, b - 1);
      assert Pow2(a + b) == 2 * Pow2(a + (b - 1));
    }
  }

  lemma {:induction false} TopOfPow2(a: nat, b: nat)
    requires b <= a
    ensures Top(Pow2(a), b) == Pow2(a - b)
  {
    Pow2Splits(a - b, b);
    QuotientIs(Pow2(a), Pow2(b), Pow2(a - b), 0);
  }

  lemma {:induction false} Pow2IsEven(b: nat)
    ensures Pow2(b) % 2 == if b == 0 then 1 else 0
  {
    if b > 0 {
      QuotientIs(Pow2(b), 2, Pow2(b - 1), 0);
    }
  }

  lemma FarCellBit(dims: nat, bits: nat, d: nat, b: nat)
    requires dims > 0 && b < bits && d < dims
    ensures Bit(FarCell(dims, bits)[d], b) == if d == 0 && b == bits - 1 then 1 else 0
  {
    if d == 0 {
      TopOfPow2(bits - 1, b);
      Pow2IsEven(bits - 1 - b);
    } else {
      TopOfSmall(0, b);
    }
  }

  lemma {:induction false} FarAxes(dims: nat, bits: nat, key: nat, b: nat, d: nat)
    requires dims > 0 && b < bits && d <= dims
    requires b == bits - 1 ==> key == 0
    ensures Axes(key, FarCell(dims, bits), b, d)
         == if b == bits - 1 then (if d == 0 then 0 else Pow2(d - 1)) else key * Pow2(d)
    decreases d
  {
    if d > 0 {
      FarAxes(dims, bits, key, b, d - 1);
      FarCellBit(dims, bits, d - 1, b);
    }
  }

  lemma {:induction false} FarKey(dims: nat, bits: nat, n: nat)
    requires dims > 0 && 0 < n <= bits
    ensures n * dims > 0 && Key(FarCell(dims, bits), bits, n) == Pow2(n * dims - 1)
    decreases n
  {
    if n == 1 {
      FarAxes(dims, bits, 0, bits - 1, dims);
    } else {
      FarKey(dims, bits, n - 1);
      FarAxes(dims, bits, Key(FarCell(dims, bits), bits, n - 1), bits - n, dims);
      ShiftedTop(n - 1, dims);
    }
  }

  lemma ShiftedTop(n: nat, dims: nat)
    requires n > 0 && dims > 0
    ensures n * dims > 0 && (n + 1) * dims > 0
    ensures Pow2(n * dims - 1) * Pow2(dims) == Pow2((n + 1) * dims - 1)
  {
    AtLeastOnce(n, dims);
    assert (n + 1) * dims == n * dims + dims;
    Pow2Splits(n * dims - 1, dims);
  }

  lemma {:induction false} OriginAxes(cell: Cell, b: nat, d: nat)
    requires d <= |cell| && forall e :: 0 <= e < |cell| ==> cell[e] == 0
    ensures Axes(0, cell, b, d) == 0
  {
    if d > 0 {
      OriginAxes(cell, b, d - 1);
      TopOfSmall(0, b);
    }
  }

  lemma {:induction false} OriginKey(cell: Cell, bits: nat, n: nat)
    requires n <= bits && forall e :: 0 <= e < |cell| ==> cell[e] == 0
    ensures Key(cell, bits, n) == 0
    decreases n
  {
    if n > 0 {
      OriginKey(cell, bits, n - 1);
      OriginAxes(cell, bits - n, |cell|);
    }
  }

  ghost predicate SameWordKey(a: Cell, b: Cell, dims: nat, bits: nat, w: nat) {
    && |a| == |b| == dims && InGrid(a, bits) && InGrid(b, bits)
    && WordKey(a, bits, bits, w) == WordKey(b, bits, bits, w)
  }

  ghost predicate WordKeysTell(dims: nat, bits: nat, w: nat) {
    forall a: Cell, b: Cell :: SameWordKey(a, b, dims, bits, w) ==> a == b
  }

  /** The word key tells every two grid cells apart exactly when the axes' bits fit the word. */
  lemma WordKeysTellExactly(dims: nat, bits: nat, w: nat)
    requires w > 0 && dims > 0 && bits > 0
    ensures WordKeysTell(dims, bits, w) <==> bits * dims <= w
  {
    if bits * dims <= w {
      forall a: Cell, b: Cell | SameWordKey(a, b, dims, bits, w) ensures a == b {
        WordHoldsKey(a, bits, w);
        WordHoldsKey(b, bits, w);
        KeyIsInjective(a, b, bits);
      }
    } else {
      var far, origin := FarCell(dims, bits), Fill<nat>(dims, 0);
      FarKey(dims, bits, bits);
      OriginKey(origin, bits, bits);
      WordKeyIsModulo(far, bits, bits, w);
      WordKeyIsModulo(origin, bits, bits, w);
      Pow2Splits(bits * dims - 1 - w, w);
      QuotientIs(Pow2(bits * dims - 1), Pow2(w), Pow2(bits * dims - 1 - w), 0);
      QuotientIs(0, Pow2(w), 0, 0);
      assert SameWordKey(far, origin, dims, bits, w) && far[0] != origin[0];
    }
  }

  // ----- the grid -----

  /** The largest value of an axis, `(1 << bits) - 1`. */
  function Scale(bits: nat): (s: nat)
    ensures bits > 0 ==> s > 0
  {
    Pow2(bits) - 1
  }

  /** A rank among `n`, scaled into `bits` bits. */
  function GridValue(rank: nat, n: nat, bits: nat): nat {
    rank * Scale(bits) / (if n > 1 then n - 1 else 1)
  }

  lemma {:induction false} GridValueInRange(rank: nat, n: nat, bits: nat)
    requires rank < n
    ensures GridValue(rank, n, bits) < Pow2(bits)
  {
    ScaledQuotient(rank, if n > 1 then n - 1 else 1, Scale(bits));
  }

  lemma ScaledQuotient(rank: nat, m: nat, s: nat)
    requires rank <= m && m > 0
    ensures rank * s / m <= s
  {
    Distribute(rank, m - rank, s);
    NextMultiple(s, m);
    QuotientBelow(rank * s, m, s + 1);
  }

  lemma GridValueMonotone(rank: nat, other: nat, n: nat, bits: nat)
    requires rank <= other
    ensures GridValue(rank, n, bits) <= GridValue(other, n, bits)
  {
    var scale := Scale(bits);
    assert rank * scale <= other * scale;
    QuotientMonotone(rank * scale, other * scale, if n > 1 then n - 1 else 1);
  }

  // ----- how many points a bucket holds -----

  lemma Distribute(a: nat, b: nat, s: nat)
    ensures (a + b) * s == a * s + b * s
  {
  }

  lemma MultipleOrder(a: nat, b: nat, s: nat)
    requires s > 0
    ensures a * s <= b * s <==> a <= b
  {
    if a <= b {
      Distribute(a, b - a, s);
    } else {
      Distribute(b, a - b, s);
      AtLeastOnce(a - b, s);
    }
  }

  lemma QuotientBelow(x: nat, m: nat, k: nat)
    requires m > 0
    ensures x / m < k <==> x < k * m
  {
    var q, r := Divide(x, m);
    Distribute(q, 1, m);
    MultipleOrder(q + 1, k, m);
    MultipleOrder(k, q, m);
  }

  /** The least `c` with `x <= c * s`. */
  function Ceiling(x: nat, s: nat): nat
    requires s > 0
  {
    (x + s - 1) / s
  }

  lemma CeilingAtMost(x: nat, s: nat, c: nat)
    requires s > 0
    ensures Ceiling(x, s) <= c <==> x <= c * s
  {
    QuotientBelow(x + s - 1, s, c + 1);
    Distribute(c, 1, s);
  }

  /** A ceiling taken `m` further on is no more than the ceiling of `m` over `s` further on, and no
      less than its floor. */
  lemma CeilingRises(x: nat, m: nat, s: nat)
    requires s > 0
    ensures Ceiling(x + m, s) <= Ceiling(x, s) + Ceiling(m, s)
  {
    var c, e := Ceiling(x, s), Ceiling(m, s);
    CeilingAtMost(x, s, c);
    CeilingAtMost(m, s, e);
    Distribute(c, e, s);
    CeilingAtMost(x + m, s, c + e);
  }

  lemma CeilingKeepsUp(x: nat, m: nat, s: nat)
    requires s > 0
    ensures Ceiling(x, s) + m / s <= Ceiling(x + m, s)
  {
    var c, f := Ceiling(x, s), Ceiling(x + m, s);
    var d := m / s;
    QuotientBelow(m, s, d);
    CeilingAtMost(x + m, s, f);
    MultipleOrder(d, f, s);
    Distribute(d, f - d, s);
    CeilingAtMost(x, s, f - d);
  }

  /** The first rank of bucket `v` of `s + 1` over the ranks `0..m`; one past the last rank, past the
      last bucket. */
  function BucketStart(v: nat, m: nat, s: nat): nat
    requires s > 0
  {
    if v <= s then Ceiling(v * m, s) else m + 1
  }

  lemma BucketStartsRise(v: nat, m: nat, s: nat)
    requires 0 < s && v < s
    ensures m / s <= BucketStart(v + 1, m, s) - BucketStart(v, m, s) <= Ceiling(m, s)
  {
    NextMultiple(v, m);
    CeilingStep(v * m, (v + 1) * m, m, s);
  }

  lemma CeilingStep(x: nat, y: nat, m: nat, s: nat)
    requires s > 0 && y == x + m
    ensures m / s <= Ceiling(y, s) - Ceiling(x, s) <= Ceiling(m, s)
  {
    CeilingRises(x, m, s);
    CeilingKeepsUp(x, m, s);
  }

  lemma NextMultiple(v: nat, m: nat)
    ensures (v + 1) * m == v * m + m
  {
  }

  lemma BucketStartAtMost(v: nat, m: nat, s: nat)
    requires 0 < s && v <= s
    ensures BucketStart(v, m, s) <= m
  {
    Distribute(v, s - v, m);
    CeilingAtMost(v * m, s, m);
  }

  lemma LastStart(m: nat, s: nat)
    requires s > 0 && m > 0
    ensures BucketStart(s, m, s) == m
  {
    CeilingAtMost(s * m, s, m);
    CeilingAtMost(s * m, s, m - 1);
    Distribute(m - 1, 1, s);
  }

  /** A bucket starts at the first rank whose value is as high. */
  lemma ValueAtLeast(rank: nat, n: nat, bits: nat, v: nat)
    requires n > 1 && bits > 0 && rank < n
    ensures v <= GridValue(rank, n, bits) <==> BucketStart(v, n - 1, Scale(bits)) <= rank
  {
    if v <= Scale(bits) {
      QuotientBelow(rank * Scale(bits), n - 1, v);
      CeilingAtMost(v * (n - 1), Scale(bits), rank);
    } else {
      GridValueInRange(rank, n, bits);
    }
  }

  /** Only the last rank has the top value. */
  lemma TopValueIsLastRank(rank: nat, n: nat, bits: nat)
    requires n > 1 && bits > 0 && rank < n
    ensures GridValue(rank, n, bits) == Scale(bits) <==> rank == n - 1
  {
    LastStart(n - 1, Scale(bits));
    ValueAtLeast(rank, n, bits, Scale(bits));
    GridValueInRange(rank, n, bits);
  }

  function RankIn(axis: seq<nat>, ranks: nat -> bool): nat -> bool {
    (i: nat) => i < |axis| && ranks(axis[i])
  }

  function ValueIs(n: nat, bits: nat, v: nat): nat -> bool {
    (rank: nat) => GridValue(rank, n, bits) == v
  }

  /** The points whose value along an axis is `v`. */
  function Bucket(axis: seq<nat>, n: nat, bits: nat, v: nat): seq<nat> {
    Select(RankIn(axis, ValueIs(n, bits, v)), 0, n)
  }

  /** As many points have their rank in a stretch of the ranks as the stretch is long. */
  lemma {:induction false} StretchOfRanks(axis: seq<nat>, n: nat, ranks: nat -> bool, lo: nat, hi: nat)
    requires IsPermutation(axis, n) && lo <= hi <= n
    requires forall r: nat :: r < n ==> (ranks(r) <==> lo <= r < hi)
    ensures |Select(RankIn(axis, ranks), 0, n)| == hi - lo
  {
    var points := Select(RankIn(axis, ranks), 0, n);
    SelectAscending(RankIn(axis, ranks), 0, n);
    var found := Gather(axis, points);
    forall i, j | 0 <= i < j < |found| ensures found[i] != found[j] {
      assert points[i] < points[j];
    }
    forall r: nat ensures r in found <==> r in Range(lo, hi) {
      FoundExactly(axis, n, ranks, points, lo, hi, r);
    }
    SameMembersSameSize(found, Range(lo, hi));
  }

  lemma FoundExactly(axis: seq<nat>, n: nat, ranks: nat -> bool, points: seq<nat>, lo: nat, hi: nat, r: nat)
    requires IsPermutation(axis, n) && lo <= hi <= n && InBounds(points, n)
    requires forall k: nat :: k < n ==> (ranks(k) <==> lo <= k < hi)
    requires forall i :: 0 <= i < |points| ==> RankIn(axis, ranks)(points[i])
    requires forall i :: 0 <= i < n && RankIn(axis, ranks)(i) ==> i in points
    ensures r in Gather(axis, points) <==> r in Range(lo, hi)
  {
    var found := Gather(axis, points);
    if r in found {
      var k := IndexIn(found, r);
      assert RankIn(axis, ranks)(points[k]) && found[k] == axis[points[k]];
      assert Range(lo, hi)[r - lo] == r;
    }
    if r in Range(lo, hi) {
      var i := IndexIn(axis, r);
      assert RankIn(axis, ranks)(i);
      assert found[IndexIn(points, i)] == r;
    }
  }

  lemma SameMembersSameSize(xs: seq<nat>, ys: seq<nat>)
    requires NoRepeats(xs) && NoRepeats(ys) && forall r: nat :: r in xs <==> r in ys
    ensures |xs| == |ys|
  {
    DistinctSet(xs);
    DistinctSet(ys);
    assert Elements(xs) == Elements(ys);
  }

  /** Along an axis the top bucket holds one point, and every other the floor or the ceiling of an
      even share of the rest. */
  lemma BucketsAreEven(axis: seq<nat>, n: nat, bits: nat, v: nat)
    requires n > 1 && bits > 0 && IsPermutation(axis, n) && v <= Scale(bits)
    ensures v == Scale(bits) ==> |Bucket(axis, n, bits, v)| == 1
    ensures v < Scale(bits) ==> (n - 1) / Scale(bits) <= |Bucket(axis, n, bits, v)| <= Ceiling(n - 1, Scale(bits))
  {
    var lo, hi := BucketStart(v, n - 1, Scale(bits)), BucketStart(v + 1, n - 1, Scale(bits));
    if v < Scale(bits) {
      BucketStartsRise(v, n - 1, Scale(bits));
      BucketStartAtMost(v + 1, n - 1, Scale(bits));
    } else {
      LastStart(n - 1, Scale(bits));
    }
    forall r: nat | r < n ensures ValueIs(n, bits, v)(r) <==> lo <= r < hi {
      ValueAtLeast(r, n, bits, v);
      ValueAtLeast(r, n, bits, v + 1);
    }
    StretchOfRanks(axis, n, ValueIs(n, bits, v), lo, hi);
  }

  /** One ranking of the `n` points per axis. */
  ghost predicate AreRanks(ranks: seq<seq<nat>>, n: nat) {
    forall d :: 0 <= d < |ranks| ==> IsPermutation(ranks[d], n)
  }

  function CellOf(ranks: seq<seq<nat>>, n: nat, bits: nat, i: nat): (cell: Cell)
    requires forall d :: 0 <= d < |ranks| ==> |ranks[d]| == n
    requires i < n
    ensures |cell| == |ranks|
  {
    seq(|ranks|, d requires 0 <= d < |ranks| => GridValue(ranks[d][i], n, bits))
  }

  lemma CellsInGrid(ranks: seq<seq<nat>>, n: nat, bits: nat, i: nat)
    requires AreRanks(ranks, n) && i < n
    ensures InGrid(CellOf(ranks, n, bits, i), bits)
  {
    forall d | 0 <= d < |ranks| ensures CellOf(ranks, n, bits, i)[d] < Pow2(bits) {
      GridValueInRange(ranks[d][i], n, bits);
    }
  }

  /** A point's value along an axis is its rank's share of the axis, rounded down. */
  lemma {:induction false} CellValue(ranks: seq<seq<nat>>, n: nat, bits: nat, i: nat, d: nat)
    requires AreRanks(ranks, n) && i < n && d < |ranks|
    ensures var value, rank, steps := CellOf(ranks, n, bits, i)[d], ranks[d][i], if n > 1 then n - 1 else 1;
            value * steps <= rank * (Pow2(bits) - 1) < (value + 1) * steps
  {
    FloorOfQuotient(ranks[d][i] * Scale(bits), if n > 1 then n - 1 else 1);
  }

  lemma FloorOfQuotient(x: nat, m: nat)
    requires m > 0
    ensures x / m * m <= x < (x / m + 1) * m
  {
    var q, r := Divide(x, m);
    Distribute(q, 1, m);
  }

  // ----- the order -----

  function KeyAt(keys: seq<nat>, i: nat): nat { if i < |keys| then keys[i] else 0 }

  function ByKey(keys: seq<nat>): (nat, nat) -> bool {
    (a: nat, b: nat) => KeyAt(keys, a) <= KeyAt(keys, b)
  }

  ghost function WordKeys(ranks: seq<seq<nat>>, n: nat, bits: nat, w: nat): (keys: seq<nat>)
    requires AreRanks(ranks, n)
    ensures |keys| == n
  {
    seq(n, i requires 0 <= i < n => WordKey(CellOf(ranks, n, bits, i), bits, bits, w))
  }

  method OrderProjection(ranks: seq<seq<nat>>, n: nat, bits: nat, w: nat) returns (order: seq<nat>)
    requires AreRanks(ranks, n)
    ensures order == Argsort(ByKey(WordKeys(ranks, n, bits, w)), n)
  {
    var grid := seq(n, i requires 0 <= i < n => CellOf(ranks, n, bits, i));
    var keys: seq<nat> := seq(n, i requires 0 <= i < n => 0);
    var bit: nat := bits;
    while bit > 0
      invariant bit <= bits && |keys| == n
      invariant forall i :: 0 <= i < n ==> keys[i] == WordKey(grid[i], bits, bits - bit, w)
    {
      bit := bit - 1;
      ghost var before := keys;
      for d := 0 to |ranks|
        invariant |keys| == n
        invariant forall i :: 0 <= i < n ==> keys[i] == WordAxes(before[i], grid[i], bit, d, w)
      {
        keys := seq(n, i requires 0 <= i < n => ShiftIn(keys[i], Bit(grid[i][d], bit), w));
      }
    }
    assert keys == WordKeys(ranks, n, bits, w);
    order := Argsort(ByKey(keys), n);
  }

  /** The order is a permutation in which a point whose cell another's strictly dominates comes
      before it, and points of one cell keep their index order. */
  lemma OrderFollowsDomination(ranks: seq<seq<nat>>, n: nat, bits: nat, w: nat, i: nat, j: nat)
    requires AreRanks(ranks, n) && w > 0 && bits * |ranks| <= w && i < n && j < n
    ensures var order := Argsort(ByKey(WordKeys(ranks, n, bits, w)), n);
            var a, b := CellOf(ranks, n, bits, i), CellOf(ranks, n, bits, j);
            && IsPermutation(order, n) && i in order && j in order
            && (Dominated(a, b) && (a != b || i < j) ==> IndexIn(order, i) < IndexIn(order, j))
  {
    var keys := WordKeys(ranks, n, bits, w);
    var order := Argsort(ByKey(keys), n);
    var a, b := CellOf(ranks, n, bits, i), CellOf(ranks, n, bits, j);
    ArgsortIsPermutation(ByKey(keys), n);
    CellsInGrid(ranks, n, bits, i);
    CellsInGrid(ranks, n, bits, j);
    WordHoldsKey(a, bits, w);
    WordHoldsKey(b, bits, w);
    if Dominated(a, b) && (a != b || i < j) {
      KeyIsMonotone(a, b, bits, bits);
      if a != b && keys[i] == keys[j] {
        KeyIsInjective(a, b, bits);
      }
      var x, y := IndexIn(order, i), IndexIn(order, j);
      if y < x {
        InOrder(ByKey(keys), order, y, x);
      }
    }
  }

  /** Earlier in the order is a lower key, its bits above the word dropped, or the same and a lower index. */
  lemma {:induction false} OrderIsByKey(ranks: seq<seq<nat>>, n: nat, bits: nat, w: nat, x: nat, y: nat)
    requires AreRanks(ranks, n) && w > 0 && x < y < n
    ensures var order := Argsort(ByKey(WordKeys(ranks, n, bits, w)), n);
            && IsPermutation(order, n)
            && var i, j := order[x], order[y];
               var a := Key(CellOf(ranks, n, bits, i), bits, bits) % Pow2(w);
               var b := Key(CellOf(ranks, n, bits, j), bits, bits) % Pow2(w);
               a < b || (a == b && i < j)
  {
    var keys := WordKeys(ranks, n, bits, w);
    var order := Argsort(ByKey(keys), n);
    ArgsortIsPermutation(ByKey(keys), n);
    InOrder(ByKey(keys), order, x, y);
    WordKeyIsModulo(CellOf(ranks, n, bits, order[x]), bits, bits, w);
    WordKeyIsModulo(CellOf(ranks, n, bits, order[y]), bits, bits, w);
  }

  lemma InOrder(le: (nat, nat) -> bool, order: seq<nat>, y: nat, x: nat)
    requires StablySorted(le, order) && y < x < |order|
    ensures le(order[y], order[x]) && (le(order[x], order[y]) ==> order[y] < order[x])
  {
  }

  /** A point no further along than another on any axis gets a cell the other's dominates. */
  lemma LowerRanksAreDominated(ranks: seq<seq<nat>>, n: nat, bits: nat, i: nat, j: nat)
    requires AreRanks(ranks, n) && i < n && j < n
    requires forall d :: 0 <= d < |ranks| ==> ranks[d][i] <= ranks[d][j]
    ensures Dominated(CellOf(ranks, n, bits, i), CellOf(ranks, n, bits, j))
  {
    forall d | 0 <= d < |ranks| ensures GridValue(ranks[d][i], n, bits) <= GridValue(ranks[d][j], n, bits) {
      GridValueMonotone(ranks[d][i], ranks[d][j], n, bits);
    }
  }
}
