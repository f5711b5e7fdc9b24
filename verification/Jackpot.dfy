/** The jackpot words: a tile of running dot products folded into sixteen message words. */
module Jackpot {

  /** Signal rows and the noise added to them. */
  datatype Side = Side(signal: seq<seq<int>>, noise: seq<seq<int>>) {
    ghost predicate Covers(rows: nat, k: nat) {
      && rows <= |signal| && rows <= |noise|
      && forall u | 0 <= u < rows :: k <= |signal[u]| && k <= |noise[u]|
    }

    /** Row `u`, signal plus noise. */
    ghost function Row(u: nat, k: nat): (x: seq<int>)
      requires Covers(u + 1, k)
      ensures |x| == k
    {
      seq(k, l requires 0 <= l < k => signal[u][l] + noise[u][l])
    }
  }

  ghost function Dot(x: seq<int>, y: seq<int>, n: nat): (d: int)
    requires n <= |x| && n <= |y|
  {
    if n == 0 then 0 else Dot(x, y, n - 1) + x[n - 1] * y[n - 1]
  }

  // ----- 32-bit accumulators -----

  const WORD: nat := 0x1_0000_0000

  function Int32(x: int): (r: int)
    ensures -0x8000_0000 <= r < 0x8000_0000
    ensures -0x8000_0000 <= x < 0x8000_0000 ==> r == x
  {
    (x + 0x8000_0000) % WORD - 0x8000_0000
  }

  lemma Int32Adds(x: int, y: int)
    ensures Int32(Int32(x) + y) == Int32(x + y)
  {
    var a := x + 0x8000_0000;
    assert Int32(x) == a % WORD - 0x8000_0000;
    assert a == a / WORD * WORD + a % WORD;
    ModShift(a % WORD + y, a / WORD);
  }

  lemma ModShift(x: int, q: int)
    ensures (x + q * WORD) % WORD == x % WORD
  {
  }

  ghost predicate Small(x: seq<int>) {
    forall i | 0 <= i < |x| :: -126 <= x[i] <= 126
  }

  lemma {:induction false} DotBound(x: seq<int>, y: seq<int>, n: nat)
    requires n <= |x| && n <= |y| && Small(x) && Small(y)
    ensures -15876 * n <= Dot(x, y, n) <= 15876 * n
    decreases n
  {
    if n > 0 {
      DotBound(x, y, n - 1);
      ProductBound(x[n - 1], y[n - 1]);
    }
  }

  lemma ProductAtMost(a: int, b: int)
    requires -126 <= a <= 126 && -126 <= b <= 126
    ensures a * b <= 15876
  {
    if a >= 0 {
      assert a * b <= a * 126;
    } else {
      assert a * b <= a * -126;
    }
  }

  lemma ProductBound(a: int, b: int)
    requires -126 <= a <= 126 && -126 <= b <= 126
    ensures -15876 <= a * b <= 15876
  {
    ProductAtMost(a, b);
    ProductAtMost(-a, b);
  }

  predicate Fits(d: int) {
    Int32(d) == d
  }

  /** No 32-bit accumulator overflows, whatever the rows, exactly up to length 135266. */
  lemma AccumulatorsFitExactly(k: nat)
    ensures k <= 135266 <==>
      forall x: seq<int>, y: seq<int> | |x| == k && |y| == k && Small(x) && Small(y) :: Fits(Dot(x, y, k))
  {
    if k <= 135266 {
      forall x: seq<int>, y: seq<int> | |x| == k && |y| == k && Small(x) && Small(y) ensures Fits(Dot(x, y, k)) {
        DotBound(x, y, k);
      }
    } else {
      var x := seq(k, _ => 126);
      DotOfLargest(x, k);
      assert !Fits(Dot(x, x, k));
    }
  }

  lemma {:induction false} DotOfLargest(x: seq<int>, n: nat)
    requires n <= |x| && forall i | 0 <= i < |x| :: x[i] == 126
    ensures Dot(x, x, n) == 15876 * n
    decreases n
  {
    if n > 0 {
      DotOfLargest(x, n - 1);
    }
  }

  // ----- the tile -----

  /** Cell (u, v): the dot product of the first `n` terms, as the accumulator holds it. */
  ghost function Cell(a: Side, b: Side, u: nat, v: nat, k: nat, n: nat): (c: int)
    requires a.Covers(u + 1, k) && b.Covers(v + 1, k) && n <= k
  {
    Int32(Dot(a.Row(u, k), b.Row(v, k), n))
  }

  ghost predicate Inputs(a: Side, b: Side, h: nat, w: nat, k: nat) {
    a.Covers(h, k) && b.Covers(w, k)
  }

  /** Every cell holds `n` terms, save those before (u, v) in reading order, which hold `m`. */
  ghost predicate TileHolds(tile: array2<int>, a: Side, b: Side, k: nat, n: nat, m: nat, u: nat, v: nat)
    requires Inputs(a, b, tile.Length0, tile.Length1, k) && n <= k && m <= k
    reads tile
  {
    forall i, j | 0 <= i < tile.Length0 && 0 <= j < tile.Length1 ::
      tile[i, j] == Cell(a, b, i, j, k, if i < u || (i == u && j < v) then m else n)
  }

  /** One cell's terms of one stage. */
  method AddTerms(c: int, a: Side, b: Side, u: nat, v: nat, k: nat, from: nat, to: nat) returns (r: int)
    requires a.Covers(u + 1, k) && b.Covers(v + 1, k) && from <= to <= k
    requires c == Cell(a, b, u, v, k, from)
    ensures r == Cell(a, b, u, v, k, to)
  {
    hide Int32;
    r := c;
    ghost var x, y := a.Row(u, k), b.Row(v, k);
    for l := from to to
      invariant r == Int32(Dot(x, y, l))
    {
      Int32Adds(Dot(x, y, l), x[l] * y[l]);
      r := Int32(r + (a.signal[u][l] + a.noise[u][l]) * (b.signal[v][l] + b.noise[v][l]));
    }
  }

  /** One stage over the whole tile. */
  method AddStage(tile: array2<int>, a: Side, b: Side, k: nat, from: nat, to: nat)
    requires Inputs(a, b, tile.Length0, tile.Length1, k) && from <= to <= k
    requires TileHolds(tile, a, b, k, from, to, 0, 0)
    modifies tile
    ensures TileHolds(tile, a, b, k, to, to, 0, 0)
  {
    hide Cell;
    for u := 0 to tile.Length0
      invariant TileHolds(tile, a, b, k, from, to, u, 0)
    {
      for v := 0 to tile.Length1
        invariant TileHolds(tile, a, b, k, from, to, u, v)
      {
        tile[u, v] := AddTerms(tile[u, v], a, b, u, v, k, from, to);
      }
    }
  }

  // ----- the message words -----

  type Word = bv32

  function Uint(x: int): (w: Word) {
    (x % WORD) as Word
  }

  function Xor(x: Word, y: Word): (w: Word) {
    x ^ y
  }

  function RotL13(x: Word): (w: Word) {
    (x << 13) | (x >> 19)
  }

  /** The exclusive or of the cells before (u, v) in reading order, each after `n` terms. */
  ghost function XorBefore(a: Side, b: Side, w: nat, k: nat, n: nat, u: nat, v: nat): (x: Word)
    requires v <= w && n <= k && b.Covers(w, k) && a.Covers(if v > 0 then u + 1 else u, k)
    decreases u, v
  {
    if v > 0 then Xor(XorBefore(a, b, w, k, n, u, v - 1), Uint(Cell(a, b, u, v - 1, k, n)))
    else if u > 0 then XorBefore(a, b, w, k, n, u - 1, w)
    else 0
  }

  method XorTile(tile: array2<int>, a: Side, b: Side, k: nat, n: nat) returns (xored: Word)
    requires Inputs(a, b, tile.Length0, tile.Length1, k) && n <= k
    requires TileHolds(tile, a, b, k, n, n, 0, 0)
    ensures xored == XorBefore(a, b, tile.Length1, k, n, tile.Length0, 0)
  {
    hide Cell, Uint, Xor;
    xored := 0;
    for u := 0 to tile.Length0
      invariant xored == XorBefore(a, b, tile.Length1, k, n, u, 0)
    {
      for v := 0 to tile.Length1
        invariant xored == XorBefore(a, b, tile.Length1, k, n, u, v)
      {
        xored := Xor(xored, Uint(tile[u, v]));
      }
    }
  }

  /** How many terms stage `s` ends with. */
  function StageEnd(s: nat, r: nat): (n: nat) {
    (s + 1) * r
  }

  lemma StageFits(s: nat, k: nat, r: nat)
    requires r > 0
    ensures s < k / r <==> StageEnd(s, r) <= k
  {
    var q := k / r;
    DivBounds(k, r);
    MulMonotone(s + 1, q, r);
    MulMonotone(q + 1, s + 1, r);
  }

  lemma DivBounds(k: nat, r: nat)
    requires r > 0
    ensures k / r * r <= k < (k / r + 1) * r
  {
  }

  lemma MulMonotone(x: nat, y: nat, r: nat)
    ensures x <= y ==> x * r <= y * r
  {
  }

  /** The tile's exclusive or after each stage. */
  ghost function Stages(a: Side, b: Side, h: nat, w: nat, k: nat, r: nat): (x: seq<Word>)
    requires Inputs(a, b, h, w, k) && r > 0
    ensures |x| == k / r
  {
    seq(k / r, s requires 0 <= s < k / r => StageFits(s, k, r); XorBefore(a, b, w, k, StageEnd(s, r), h, 0))
  }

  /** Word `t` after the stages `x`: a stage that is its turn rotates it and mixes in. */
  function Folded(x: seq<Word>, t: nat): (word: Word) {
    if x == [] then 0
    else
      var last, word := |x| - 1, Folded(x[..|x| - 1], t);
      if last % 16 == t then Xor(RotL13(word), x[last]) else word
  }

  /** The sixteen words of the signal-plus-noise product, stage after stage. */
  method Compute(h: nat, w: nat, k: nat, r: nat, a: Side, b: Side) returns (msg: array<Word>)
    requires Inputs(a, b, h, w, k) && r > 0
    ensures fresh(msg) && msg.Length == 16
    ensures forall t | 0 <= t < 16 :: msg[t] == Folded(Stages(a, b, h, w, k, r), t)
  {
    hide Stages, Folded, TileHolds, StageEnd, XorBefore;
    var tile := new int[h, w]((_, _) => 0);
    msg := new Word[16](_ => 0);
    ghost var x := Stages(a, b, h, w, k, r);
    ghost var s := 0;
    var ll := r;
    EmptyTile(tile, a, b, k);
    NothingFolded();
    StageStarts(r);
    while ll <= k
      invariant ll == StageEnd(s, r) && ll >= r && s <= k / r
      invariant ll - r <= k && TileHolds(tile, a, b, k, ll - r, ll - r, 0, 0)
      invariant forall t | 0 <= t < 16 :: msg[t] == Folded(x[..s], t)
      decreases k - ll
    {
      StageFits(s, k, r);
      HoldsAnyway(tile, a, b, k, ll - r, ll);
      AddStage(tile, a, b, k, ll - r, ll);
      var xored := XorTile(tile, a, b, k, ll);
      StageValue(a, b, h, w, k, r, s);
      var tid := (ll / r - 1) % 16;
      StageNumber(s, r);
      FoldStep(x, s);
      msg[tid] := Xor(RotL13(msg[tid]), xored);
      ll := ll + r;
      s := s + 1;
    }
    StageFits(s, k, r);
    assert x[..s] == x;
  }

  lemma EmptyTile(tile: array2<int>, a: Side, b: Side, k: nat)
    requires Inputs(a, b, tile.Length0, tile.Length1, k)
    requires forall i, j | 0 <= i < tile.Length0 && 0 <= j < tile.Length1 :: tile[i, j] == 0
    ensures TileHolds(tile, a, b, k, 0, 0, 0, 0)
  {
  }

  /** With no cell before (0, 0) the second count does not matter. */
  lemma HoldsAnyway(tile: array2<int>, a: Side, b: Side, k: nat, n: nat, m: nat)
    requires Inputs(a, b, tile.Length0, tile.Length1, k) && n <= k && m <= k
    requires TileHolds(tile, a, b, k, n, n, 0, 0)
    ensures TileHolds(tile, a, b, k, n, m, 0, 0)
  {
    hide Cell;
  }

  lemma NothingFolded()
    ensures forall t :: Folded([], t) == 0
  {
  }

  lemma StageStarts(r: nat)
    ensures StageEnd(0, r) == r
  {
  }

  lemma StageValue(a: Side, b: Side, h: nat, w: nat, k: nat, r: nat, s: nat)
    requires Inputs(a, b, h, w, k) && r > 0 && StageEnd(s, r) <= k
    ensures s < k / r && Stages(a, b, h, w, k, r)[s] == XorBefore(a, b, w, k, StageEnd(s, r), h, 0)
  {
    hide XorBefore, StageEnd;
    StageFits(s, k, r);
  }

  lemma StageNumber(s: nat, r: nat)
    requires r > 0
    ensures StageEnd(s, r) / r == s + 1 && StageEnd(s, r) + r == StageEnd(s + 1, r)
  {
    StageFits(s, (s + 1) * r, r);
    StageFits(s + 1, (s + 1) * r, r);
    assert (s + 2) * r == (s + 1) * r + r;
  }

  lemma FoldStep(x: seq<Word>, s: nat)
    requires s < |x|
    ensures forall t | 0 <= t < 16 ::
      Folded(x[..s + 1], t) == if s % 16 == t then Xor(RotL13(Folded(x[..s], t)), x[s]) else Folded(x[..s], t)
  {
    hide Xor, RotL13;
    assert x[..s + 1][..s] == x[..s];
  }

  // ----- the words in closed form -----

  function RotBy(x: Word, m: nat): (w: Word) {
    if m == 0 then x else RotL13(RotBy(x, m - 1))
  }

  /** The exclusive or of the first `m` stages that fall to word `t`, each rotated once by 13 for every
      later one, out of `total`, that falls to it too. */
  function Mixed(x: seq<Word>, t: nat, m: nat, total: nat): (w: Word)
    requires m <= |x| && m <= total
  {
    if m == 0 then 0
    else if (m - 1) % 16 == t then Xor(Mixed(x, t, m - 1, total), RotBy(x[m - 1], (total - m) / 16))
    else Mixed(x, t, m - 1, total)
  }

  lemma RotXor(x: Word, y: Word)
    ensures RotL13(Xor(x, y)) == Xor(RotL13(x), RotL13(y))
  {
  }

  lemma RotZero()
    ensures RotL13(0) == 0
  {
  }

  lemma LaterStages(m: nat, total: nat, t: nat)
    requires 0 < m <= total && (m - 1) % 16 == t
    ensures (total + 1 - m) / 16 == (total - m) / 16 + if total % 16 == t then 1 else 0
  {
  }

  /** One more stage for word `t` rotates all that came before once more. */
  lemma {:induction false} MixedShifts(x: seq<Word>, t: nat, m: nat, total: nat)
    requires m <= |x| && m <= total && t < 16
    ensures Mixed(x, t, m, total + 1)
      == if total % 16 == t then RotL13(Mixed(x, t, m, total)) else Mixed(x, t, m, total)
  {
    hide Xor, RotL13;
    if m == 0 {
      RotZero();
    } else {
      MixedShifts(x, t, m - 1, total);
      if (m - 1) % 16 == t {
        LaterStages(m, total, t);
        RotXor(Mixed(x, t, m - 1, total), RotBy(x[m - 1], (total - m) / 16));
      }
    }
  }

  lemma {:induction false} MixedOfPrefix(x: seq<Word>, t: nat, m: nat, n: nat, total: nat)
    requires m <= n <= |x| && m <= total
    ensures Mixed(x[..n], t, m, total) == Mixed(x, t, m, total)
  {
    if m > 0 {
      MixedOfPrefix(x, t, m - 1, n, total);
    }
  }

  /** The folding loop computes the closed form. */
  lemma {:induction false} FoldedIsMixed(x: seq<Word>, t: nat)
    requires t < 16
    ensures Folded(x, t) == Mixed(x, t, |x|, |x|)
  {
    hide Xor, RotL13;
    if x != [] {
      var n := |x| - 1;
      FoldedIsMixed(x[..n], t);
      MixedOfPrefix(x, t, n, n, n);
      MixedShifts(x, t, n, n);
    }
  }

  // ----- exactness -----

  /** Signal of seven bits and noise of seven bits. */
  ghost predicate Int7s(s: Side, rows: nat, k: nat)
    requires s.Covers(rows, k)
  {
    forall u, l | 0 <= u < rows && 0 <= l < k :: -63 <= s.signal[u][l] <= 63 && -63 <= s.noise[u][l] <= 63
  }

  /** On such sides the accumulator is the exact dot product after every number of terms. */
  lemma CellIsExact(a: Side, b: Side, h: nat, w: nat, k: nat, u: nat, v: nat, n: nat)
    requires Inputs(a, b, h, w, k) && Int7s(a, h, k) && Int7s(b, w, k)
    requires u < h && v < w && n <= k <= 135266
    ensures Cell(a, b, u, v, k, n) == Dot(a.Row(u, k), b.Row(v, k), n)
  {
    DotBound(a.Row(u, k), b.Row(v, k), n);
  }
}
