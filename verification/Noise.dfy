/** Noise matrices: rows cut from one hashed stream, and sparse pairs of distinct indices. */
module Noise {
  import opened Digests
  import opened Blake3
  import opened MerkleTrees

  // ----- the hashed stream -----

  /** The 64-byte message of block `index`: the number `index + 1` in one of the first eight words,
      and the seed behind them. */
  function Message(index: Word, seed: seq<Byte>, at: nat): (m: seq<Byte>)
    requires |seed| == 32 && at < 8
    ensures |m| == 64
  {
    seq(64, i requires 0 <= i < 64 =>
      if i >= 32 then seed[i - 32]
      else if 4 * at <= i < 4 * at + 4 then LeBytes(index + 1)[i - 4 * at]
      else 0)
  }

  /** Keyed BLAKE3 of that one-block message (start, end, root and keyed flags). */
  function RandomHash(index: Word, seed: seq<Byte>, key: seq<Byte>, at: nat): (h: seq<Byte>)
    requires |seed| == 32 && |key| == 32 && at < 8
    ensures |h| == 32
  {
    hide *;
    BytesOf(Compress(BlockWords(key)[..8], BlockWords(Message(index, seed, at)), 0, 64, 27))[..32]
  }

  // ----- uniform rows -----

  /** A stream byte as noise: its low six bits, less 32. */
  function Uniform(b: Byte): (v: int)
    ensures -32 <= v <= 31
  {
    (b % 64) as int - 32
  }

  /** Element `i` of the stream, the matrix read row after row. */
  function StreamAt(seed: seq<Byte>, key: seq<Byte>, i: nat): (v: int)
    requires |seed| == 32 && |key| == 32 && i < LIMIT
    ensures -32 <= v <= 31
  {
    Uniform(RandomHash(Index(i / 32), seed, key, 0)[i % 32])
  }

  /** Blocks are numbered in 31 bits. */
  const LIMIT: nat := 0x8000_0000 * 32

  function Index(block: nat): Word
    requires block < 0x8000_0000
  {
    block as Word
  }

  /** The elements of one block that fall in [start, end) go to the next free places of the row. */
  method FillFromBlock(seed: seq<Byte>, key: seq<Byte>, block: nat, start: nat, end: nat, row: array<int>, written: nat)
    returns (next: nat)
    requires |seed| == 32 && |key| == 32 && start <= end < LIMIT && end - start == row.Length
    requires block * 32 < end && start < (block + 1) * 32
    requires written == if block * 32 <= start then 0 else block * 32 - start
    requires forall j | 0 <= j < written :: row[j] == StreamAt(seed, key, start + j)
    modifies row
    ensures next == if (block + 1) * 32 >= end then row.Length else (block + 1) * 32 - start
    ensures forall j | 0 <= j < next :: row[j] == StreamAt(seed, key, start + j)
  {
    hide RandomHash, Uniform, Index;
    var hash := RandomHash(Index(block), seed, key, 0);
    next := written;
    for i := 0 to 32
      invariant next == Clamp(block * 32 + i - start, end - start)
      invariant forall j | 0 <= j < next :: row[j] == StreamAt(seed, key, start + j)
    {
      var absIdx := block * 32 + i;
      if absIdx < start || absIdx >= end {
        continue;
      }
      BlockAndPlace(block, i);
      row[next] := Uniform(hash[i]);
      next := next + 1;
    }
  }

  function Clamp(x: int, n: nat): (c: nat)
    ensures c <= n
  {
    if x < 0 then 0 else if x > n then n else x
  }

  lemma BlockAndPlace(block: nat, i: nat)
    requires i < 32
    ensures (block * 32 + i) / 32 == block && (block * 32 + i) % 32 == i
  {
  }

  /** One row: elements [start, end) of the stream. */
  method FillRow(seed: seq<Byte>, key: seq<Byte>, start: nat, end: nat) returns (row: array<int>)
    requires |seed| == 32 && |key| == 32 && start <= end < LIMIT
    ensures fresh(row) && row.Length == end - start
    ensures forall j | 0 <= j < row.Length :: row[j] == StreamAt(seed, key, start + j)
  {
    hide StreamAt;
    row := new int[end - start];
    var written := 0;
    var block := start / 32;
    var endBlock := (end + 31) / 32;
    while block < endBlock
      invariant start / 32 <= block <= endBlock || block == start / 32
      invariant block < endBlock ==> written == if block * 32 <= start then 0 else block * 32 - start
      invariant block >= endBlock ==> written == row.Length
      invariant written <= row.Length
      invariant forall j | 0 <= j < written :: row[j] == StreamAt(seed, key, start + j)
    {
      written := FillFromBlock(seed, key, block, start, end, row, written);
      block := block + 1;
    }
  }

  function RowStart(index: nat, numCols: nat): (i: nat) {
    index * numCols
  }

  /** The asked-for rows of the matrix, each exactly its slice of the stream. */
  method GenerateUniformRandomMatrix(seed: seq<Byte>, key: seq<Byte>, rowIndices: seq<nat>, numCols: nat)
    returns (rows: seq<seq<int>>)
    requires |seed| == 32 && |key| == 32
    requires forall r | 0 <= r < |rowIndices| :: RowStart(rowIndices[r], numCols) + numCols < LIMIT
    ensures |rows| == |rowIndices|
    ensures forall r | 0 <= r < |rows| :: IsRow(seed, key, rows[r], rowIndices[r], numCols)
  {
    hide StreamAt, RowStart, IsRow;
    rows := [];
    for r := 0 to |rowIndices|
      invariant |rows| == r
      invariant forall j | 0 <= j < r :: IsRow(seed, key, rows[j], rowIndices[j], numCols)
    {
      var start := RowStart(rowIndices[r], numCols);
      var row := FillRow(seed, key, start, start + numCols);
      RowFilled(seed, key, row[..], rowIndices[r], numCols);
      rows := rows + [row[..]];
    }
  }

  predicate IsRow(seed: seq<Byte>, key: seq<Byte>, row: seq<int>, index: nat, numCols: nat)
    requires |seed| == 32 && |key| == 32 && RowStart(index, numCols) + numCols < LIMIT
  {
    |row| == numCols
    && forall c | 0 <= c < numCols :: row[c] == StreamAt(seed, key, RowStart(index, numCols) + c)
  }

  lemma RowFilled(seed: seq<Byte>, key: seq<Byte>, row: seq<int>, index: nat, numCols: nat)
    requires |seed| == 32 && |key| == 32 && RowStart(index, numCols) + numCols < LIMIT && |row| == numCols
    requires forall j | 0 <= j < |row| :: row[j] == StreamAt(seed, key, RowStart(index, numCols) + j)
    ensures IsRow(seed, key, row, index, numCols)
  {
  }

  // ----- sparse pairs -----

  datatype Pair = Pair(first: nat, second: nat)

  const WORD: nat := 0x1_0000_0000

  /** The high 32 bits of a 64-bit product: `b` of 2^32 parts of `a`. */
  function MulHi(a: nat, b: nat): (h: nat)
    requires a < WORD && b < WORD
    ensures h < WORD && (a > 0 ==> h < a)
  {
    MulHiBound(a, b);
    a * b / WORD
  }

  lemma MulHiBound(a: nat, b: nat)
    requires b < WORD
    ensures a * b <= a * WORD && (a > 0 ==> a * b < a * WORD)
    ensures a * b / WORD <= a && (a > 0 ==> a * b / WORD < a)
  {
  }

  /** Bitwise operations on naturals, from the low bit up. */
  function And(x: nat, y: nat): (r: nat)
    ensures r <= y
  {
    if x == 0 || y == 0 then 0 else x % 2 * (y % 2) + 2 * And(x / 2, y / 2)
  }

  function Xor(x: nat, y: nat): (r: nat)
    ensures r == x <==> y == 0
  {
    if x == 0 && y == 0 then 0 else (x + y) % 2 + 2 * Xor(x / 2, y / 2)
  }

  /** One pair from one random word. */
  function PairOf(rank: nat, rand: nat): (p: Pair)
    requires 1 <= rank < WORD && rand < WORD
  {
    var first := And(rand, rank - 1);
    Pair(first, Xor(first, 1 + MulHi(rank - 1, rand)))
  }

  predicate InRange(p: Pair, rank: nat) {
    p.first < rank && p.second < rank && p.first != p.second
  }

  lemma {:induction false} XorStaysBelow(x: nat, y: nat, n: nat)
    requires IsPow2(n) && x < n && y < n
    ensures Xor(x, y) < n
  {
    if n > 1 {
      XorStaysBelow(x / 2, y / 2, n / 2);
    }
  }

  /** Below a number that is not a power of two, some exclusive or with its predecessor is not below it. */
  lemma {:induction false} XorEscapes(n: nat) returns (d: nat)
    requires n >= 2 && !IsPow2(n)
    ensures 1 <= d < n && Xor(n - 1, d) >= n
  {
    if n % 2 == 1 {
      d := 1;
      assert Xor(n - 1, 1) == 1 + 2 * Xor((n - 1) / 2, 0);
    } else {
      var half := XorEscapes(n / 2);
      d := 2 * half;
      assert (n - 1) / 2 == n / 2 - 1;
      assert Xor(n - 1, d) == (n - 1 + d) % 2 + 2 * Xor(n / 2 - 1, half);
    }
  }

  lemma DoubleOnes(h: nat, n: nat)
    requires n > 0
    ensures h * Pow2(n) + Pow2(n) - 1 == 2 * (h * Pow2(n - 1) + Pow2(n - 1) - 1) + 1
  {
    var p := Pow2(n - 1);
    assert h * (2 * p) == 2 * (h * p);
  }

  lemma AndOdd(half: nat, m: nat)
    requires m > 0
    ensures And(2 * half + 1, m) == m % 2 + 2 * And(half, m / 2)
  {
    assert (2 * half + 1) / 2 == half && (2 * half + 1) % 2 == 1;
  }

  /** A word ending in `n` ones keeps every `n`-bit number under "and". */
  lemma {:induction false} AndLowOnes(h: nat, n: nat, m: nat)
    requires m < Pow2(n)
    ensures And(h * Pow2(n) + Pow2(n) - 1, m) == m
    decreases n
  {
    if n > 0 && m > 0 {
      hide And;
      var half := h * Pow2(n - 1) + Pow2(n - 1) - 1;
      DoubleOnes(h, n);
      AndLowOnes(h, n - 1, m / 2);
      AndOdd(half, m);
    }
  }

  /** The random word that makes the pair's indices differ by exactly `d`. */
  function Chosen(m: nat, d: nat): (rand: nat)
    requires 0 < m < 0x1_0000 && d < m
  {
    d * 0x1_0000 / m * 0x1_0000 + 0xFFFF
  }

  lemma ChosenGives(m: nat, d: nat)
    requires 0 < m < 0x1_0000 && d < m
    ensures Chosen(m, d) < WORD && MulHi(m, Chosen(m, d)) == d
  {
    var h := d * 0x1_0000 / m;
    assert h * m <= d * 0x1_0000 < (h + 1) * m;
    Quotient(h, m, d * 0x1_0000);
    var product := m * (h * 0x1_0000 + 0xFFFF);
    assert product == h * m * 0x1_0000 + m * 0xFFFF;
    assert product == (h + 1) * m * 0x1_0000 - m;
    assert d * WORD <= product < (d + 1) * WORD;
    DivIs(product, d);
  }

  lemma Quotient(h: nat, m: nat, n: nat)
    requires m > 0 && h * m <= n < m * 0x1_0000
    ensures h < 0x1_0000
  {
  }

  lemma DivIs(x: nat, d: nat)
    requires d * WORD <= x < (d + 1) * WORD
    ensures x / WORD == d
  {
  }

  /** Every random word gives two distinct indices below a 16-bit rank exactly when the rank is a power
      of two and not one. */
  lemma PairsInRangeExactly(rank: nat)
    requires 1 <= rank <= 0x1_0000
    ensures rank > 1 && IsPow2(rank) <==> forall rand: nat | rand < WORD :: InRange(PairOf(rank, rand), rank)
  {
    hide PairOf, InRange, IsPow2;
    if rank == 1 {
      OneIndex();
    } else if IsPow2(rank) {
      forall rand: nat | rand < WORD ensures InRange(PairOf(rank, rand), rank) {
        PairInRange(rank, rand);
      }
    } else {
      var rand := PairEscapes(rank);
    }
  }

  lemma OneIndex()
    ensures !InRange(PairOf(1, 0), 1)
  {
  }

  lemma PairEscapes(rank: nat) returns (rand: nat)
    requires 2 <= rank <= 0x1_0000 && !IsPow2(rank)
    ensures rand < WORD && !InRange(PairOf(rank, rand), rank)
  {
    hide And, Xor, MulHi, IsPow2;
    var d := XorEscapes(rank);
    rand := Chosen(rank - 1, d - 1);
    ChosenGives(rank - 1, d - 1);
    ChosenKeeps(rank - 1, d - 1);
  }

  lemma ChosenKeeps(m: nat, d: nat)
    requires 0 < m < 0x1_0000 && d < m
    ensures And(Chosen(m, d), m) == m
  {
    hide And;
    Pow16();
    AndLowOnes(d * 0x1_0000 / m, 16, m);
  }

  lemma Pow16()
    ensures Pow2(16) == 0x1_0000
  {
    assert Pow2(4) == 16;
    assert Pow2(8) == 256;
    assert Pow2(12) == 4096;
  }

  lemma PairInRange(rank: nat, rand: nat)
    requires 2 <= rank < WORD && IsPow2(rank) && rand < WORD
    ensures InRange(PairOf(rank, rand), rank)
  {
    XorStaysBelow(And(rand, rank - 1), 1 + MulHi(rank - 1, rand), rank);
  }

  function Value(w: Word): (n: nat)
    ensures n < WORD
  {
    w as nat
  }

  const LINE_LIMIT: nat := 0x8000_0000

  /** The random word of a line: eight lines to a hash, numbered in the message's second word. */
  function RandAt(seed: seq<Byte>, key: seq<Byte>, line: nat): (rand: nat)
    requires |seed| == 32 && |key| == 32 && line < LINE_LIMIT
    ensures rand < WORD
  {
    hide RandomHash, Index, LeWord, Value;
    var j := line % 8;
    Value(LeWord(RandomHash(Index(line / 8), seed, key, 1)[4 * j .. 4 * j + 4]))
  }

  /** The pairs of one hash. */
  method FillPairs(seed: seq<Byte>, key: seq<Byte>, chunk: nat, rank: nat, result: array<Pair>)
    requires |seed| == 32 && |key| == 32 && 1 <= rank < WORD
    requires chunk * 8 < result.Length < LINE_LIMIT
    modifies result
    ensures forall i | 0 <= i < result.Length ::
      result[i] == if chunk * 8 <= i < chunk * 8 + 8 then PairOf(rank, RandAt(seed, key, i)) else old(result[i])
  {
    hide RandomHash, Index, PairOf, Value, LeWord;
    var hash := RandomHash(Index(chunk), seed, key, 1);
    var len := if result.Length - chunk * 8 < 8 then result.Length - chunk * 8 else 8;
    for j := 0 to len
      invariant forall i | 0 <= i < result.Length ::
        result[i] == if chunk * 8 <= i < chunk * 8 + j then PairOf(rank, RandAt(seed, key, i)) else old(result[i])
    {
      var rand := Value(LeWord(hash[j * 4 .. j * 4 + 4]));
      LineAndPlace(chunk, j);
      result[chunk * 8 + j] := PairOf(rank, rand);
    }
  }

  lemma LineAndPlace(chunk: nat, j: nat)
    requires j < 8
    ensures (chunk * 8 + j) / 8 == chunk && (chunk * 8 + j) % 8 == j
  {
  }

  method GeneratePermutationMatrix(seed: seq<Byte>, key: seq<Byte>, k: nat, rank: nat) returns (result: array<Pair>)
    requires |seed| == 32 && |key| == 32 && 1 <= rank < WORD && k < LINE_LIMIT
    ensures fresh(result) && result.Length == k
    ensures forall i | 0 <= i < k :: result[i] == PairOf(rank, RandAt(seed, key, i))
  {
    hide PairOf, RandAt;
    result := new Pair[k](_ => Pair(0, 0));
    var chunk := 0;
    while chunk * 8 < k
      invariant forall i | 0 <= i < k && i < chunk * 8 :: result[i] == PairOf(rank, RandAt(seed, key, i))
    {
      FillPairs(seed, key, chunk, rank, result);
      chunk := chunk + 1;
    }
  }

  // ----- sparse noise -----

  /** A difference cut to a signed byte. */
  function SByte(x: int): (b: int)
    ensures -128 <= b <= 127 && (-128 <= x <= 127 ==> b == x)
  {
    (x + 128) % 256 - 128
  }

  predicate Within(values: seq<int>, least: int, most: int) {
    forall i | 0 <= i < |values| :: least <= values[i] <= most
  }

  /** The noise of one row: differences of the paired values, exact and between -63 and 63 on rows of
      six-bit values. */
  method ApplySparsePermutation(perm: seq<Pair>, vector: seq<int>) returns (result: seq<int>)
    requires forall i | 0 <= i < |perm| :: perm[i].first < |vector| && perm[i].second < |vector|
    ensures |result| == |perm|
    ensures forall i | 0 <= i < |perm| :: result[i] == SByte(vector[perm[i].first] - vector[perm[i].second])
    ensures Within(vector, -32, 31) ==> Within(result, -63, 63)
    ensures Within(vector, -32, 31) ==>
      forall i | 0 <= i < |perm| :: result[i] == vector[perm[i].first] - vector[perm[i].second]
  {
    result := [];
    for i := 0 to |perm|
      invariant |result| == i
      invariant forall j | 0 <= j < i :: result[j] == SByte(vector[perm[j].first] - vector[perm[j].second])
      invariant Within(vector, -32, 31) ==>
        forall j | 0 <= j < i :: -63 <= result[j] <= 63 && result[j] == vector[perm[j].first] - vector[perm[j].second]
    {
      result := result + [SByte(vector[perm[i].first] - vector[perm[i].second])];
    }
  }
}
