/** The jackpot of seven-bit signals under sparse noise, end to end. */
module NoisyJackpot {
  import opened Digests
  import opened MerkleTrees
  import opened Noise
  import opened Jackpot

  /** Rows of six-bit values, one for every index a pair may name. */
  predicate SixBit(rows: seq<seq<int>>, rank: nat) {
    forall u | 0 <= u < |rows| :: |rows[u]| == rank && Within(rows[u], -32, 31)
  }

  predicate PairsFit(perm: seq<Pair>, rank: nat) {
    forall i | 0 <= i < |perm| :: InRange(perm[i], rank)
  }

  /** The noise as plain integer differences. */
  ghost function Differences(row: seq<int>, perm: seq<Pair>): (d: seq<int>)
    requires PairsFit(perm, |row|)
    ensures |d| == |perm|
  {
    seq(|perm|, i requires 0 <= i < |perm| =>
      assert InRange(perm[i], |row|); row[perm[i].first] - row[perm[i].second])
  }

  ghost function NoiseRows(rows: seq<seq<int>>, perm: seq<Pair>, rank: nat): (noise: seq<seq<int>>)
    requires SixBit(rows, rank) && PairsFit(perm, rank)
    ensures |noise| == |rows| && forall u | 0 <= u < |rows| :: |noise[u]| == |perm|
  {
    seq(|rows|, u requires 0 <= u < |rows| => Differences(rows[u], perm))
  }

  /** No difference is cut by its signed byte. */
  method SparseNoise(perm: seq<Pair>, rows: seq<seq<int>>, rank: nat) returns (noise: seq<seq<int>>)
    requires SixBit(rows, rank) && PairsFit(perm, rank)
    ensures noise == NoiseRows(rows, perm, rank)
  {
    hide Within, InRange;
    noise := [];
    for u := 0 to |rows|
      invariant |noise| == u
      invariant forall j | 0 <= j < u :: noise[j] == Differences(rows[j], perm)
    {
      PairsNamed(perm, rank);
      var row := ApplySparsePermutation(perm, rows[u]);
      assert row == Differences(rows[u], perm);
      noise := noise + [row];
    }
  }

  lemma PairsNamed(perm: seq<Pair>, rank: nat)
    requires PairsFit(perm, rank)
    ensures forall i | 0 <= i < |perm| :: perm[i].first < rank && perm[i].second < rank
  {
    forall i | 0 <= i < |perm| ensures perm[i].first < rank && perm[i].second < rank {
      assert InRange(perm[i], rank);
    }
  }

  lemma NoiseIsInt7(rows: seq<seq<int>>, perm: seq<Pair>, rank: nat, u: nat, l: nat)
    requires SixBit(rows, rank) && PairsFit(perm, rank) && u < |rows| && l < |perm|
    ensures -63 <= NoiseRows(rows, perm, rank)[u][l] <= 63
  {
    assert Within(rows[u], -32, 31) && |rows[u]| == rank;
    assert InRange(perm[l], rank);
  }

  predicate Signals(secret: seq<seq<int>>, rows: nat, k: nat) {
    |secret| == rows && forall u | 0 <= u < rows :: |secret[u]| == k && Within(secret[u], -63, 63)
  }

  lemma SidesAreInt7(secret: seq<seq<int>>, rows: seq<seq<int>>, perm: seq<Pair>, rank: nat, h: nat, k: nat)
    requires SixBit(rows, rank) && PairsFit(perm, rank) && |rows| == h && |perm| == k && Signals(secret, h, k)
    ensures var side := Side(secret, NoiseRows(rows, perm, rank)); side.Covers(h, k) && Int7s(side, h, k)
  {
    hide NoiseRows;
    var side := Side(secret, NoiseRows(rows, perm, rank));
    forall u, l | 0 <= u < h && 0 <= l < k
      ensures -63 <= side.signal[u][l] <= 63 && -63 <= side.noise[u][l] <= 63
    {
      assert Within(secret[u], -63, 63);
      NoiseIsInt7(rows, perm, rank, u, l);
    }
  }

  /** From the raw noise matrices to the sixteen words: the closed form over the tile's exclusive ors,
      with no accumulator wrapped at any stage. */
  method Compute(h: nat, w: nat, k: nat, r: nat, rank: nat, secretA: seq<seq<int>>, secretB: seq<seq<int>>,
      eAl: seq<seq<int>>, eAr: seq<Pair>, eBl: seq<Pair>, eBr: seq<seq<int>>)
    returns (msg: array<Word>, ghost a: Side, ghost b: Side)
    requires r > 0 && k <= 135266 && Signals(secretA, h, k) && Signals(secretB, w, k)
    requires SixBit(eAl, rank) && PairsFit(eAr, rank) && |eAl| == h && |eAr| == k
    requires SixBit(eBr, rank) && PairsFit(eBl, rank) && |eBr| == w && |eBl| == k
    ensures a == Side(secretA, NoiseRows(eAl, eAr, rank)) && b == Side(secretB, NoiseRows(eBr, eBl, rank))
    ensures Inputs(a, b, h, w, k) && fresh(msg) && msg.Length == 16
    ensures forall t | 0 <= t < 16 :: msg[t] == Mixed(Stages(a, b, h, w, k, r), t, k / r, k / r)
    ensures forall u, v, n | 0 <= u < h && 0 <= v < w && 0 <= n <= k ::
      Cell(a, b, u, v, k, n) == Dot(a.Row(u, k), b.Row(v, k), n)
  {
    hide SixBit, PairsFit, NoiseRows, Signals, Stages, Mixed, Folded, Cell, Dot, Int7s;
    var noiseA := SparseNoise(eAr, eAl, rank);
    var noiseB := SparseNoise(eBl, eBr, rank);
    a, b := Side(secretA, noiseA), Side(secretB, noiseB);
    SidesAreInt7(secretA, eAl, eAr, rank, h, k);
    SidesAreInt7(secretB, eBr, eBl, rank, w, k);
    msg := Jackpot.Compute(h, w, k, r, Side(secretA, noiseA), Side(secretB, noiseB));
    forall t | 0 <= t < 16 ensures msg[t] == Mixed(Stages(a, b, h, w, k, r), t, k / r, k / r) {
      FoldedIsMixed(Stages(a, b, h, w, k, r), t);
    }
    forall u, v, n | 0 <= u < h && 0 <= v < w && 0 <= n <= k
      ensures Cell(a, b, u, v, k, n) == Dot(a.Row(u, k), b.Row(v, k), n)
    {
      CellIsExact(a, b, h, w, k, u, v, n);
    }
  }

  // ----- from seeds -----

  /** "A_tensor" and "B_tensor", zero-padded to 32 bytes. */
  const A_LABEL: seq<Byte> := [0x41, 0x5f, 0x74, 0x65, 0x6e, 0x73, 0x6f, 0x72] + Zeros(24)
  const B_LABEL: seq<Byte> := [0x42, 0x5f, 0x74, 0x65, 0x6e, 0x73, 0x6f, 0x72] + Zeros(24)

  ghost predicate InLimit(indices: seq<nat>, rank: nat) {
    forall u | 0 <= u < |indices| :: RowStart(indices[u], rank) + rank < LIMIT
  }

  /** One row of six-bit noise. */
  ghost function UniformRow(tag: seq<Byte>, seed: seq<Byte>, index: nat, rank: nat): (row: seq<int>)
    requires |tag| == 32 && |seed| == 32 && RowStart(index, rank) + rank < LIMIT
    ensures |row| == rank
  {
    seq(rank, c requires 0 <= c < rank => StreamAt(tag, seed, RowStart(index, rank) + c))
  }

  /** The rows of six-bit noise a seed gives. */
  ghost function UniformRows(tag: seq<Byte>, seed: seq<Byte>, indices: seq<nat>, rank: nat): (rows: seq<seq<int>>)
    requires |tag| == 32 && |seed| == 32 && InLimit(indices, rank)
    ensures |rows| == |indices|
  {
    seq(|indices|, u requires 0 <= u < |indices| => UniformRow(tag, seed, indices[u], rank))
  }

  /** The index pairs a seed gives. */
  ghost function SeedPairs(tag: seq<Byte>, seed: seq<Byte>, k: nat, rank: nat): (perm: seq<Pair>)
    requires |tag| == 32 && |seed| == 32 && k < LINE_LIMIT && 1 <= rank < Noise.WORD
    ensures |perm| == k
  {
    seq(k, i requires 0 <= i < k => PairOf(rank, RandAt(tag, seed, i)))
  }

  lemma UniformRowIsSixBit(tag: seq<Byte>, seed: seq<Byte>, index: nat, rank: nat)
    requires |tag| == 32 && |seed| == 32 && RowStart(index, rank) + rank < LIMIT
    ensures Within(UniformRow(tag, seed, index, rank), -32, 31)
  {
    hide RowStart, RandomHash, Uniform;
    forall c | 0 <= c < rank ensures -32 <= UniformRow(tag, seed, index, rank)[c] <= 31 {
      assert UniformRow(tag, seed, index, rank)[c] == StreamAt(tag, seed, RowStart(index, rank) + c);
    }
  }

  lemma UniformRowsAreSixBit(tag: seq<Byte>, seed: seq<Byte>, indices: seq<nat>, rank: nat)
    requires |tag| == 32 && |seed| == 32 && InLimit(indices, rank)
    ensures SixBit(UniformRows(tag, seed, indices, rank), rank)
  {
    hide UniformRow, RowStart, Within;
    forall u | 0 <= u < |indices| ensures Within(UniformRows(tag, seed, indices, rank)[u], -32, 31) {
      UniformRowIsSixBit(tag, seed, indices[u], rank);
    }
  }

  lemma SeedPairsFit(tag: seq<Byte>, seed: seq<Byte>, k: nat, rank: nat)
    requires |tag| == 32 && |seed| == 32 && k < LINE_LIMIT && 2 <= rank < Noise.WORD && IsPow2(rank)
    ensures PairsFit(SeedPairs(tag, seed, k, rank), rank)
  {
    hide RandAt, PairOf, InRange, IsPow2;
    forall i | 0 <= i < k ensures InRange(SeedPairs(tag, seed, k, rank)[i], rank) {
      PairInRange(rank, RandAt(tag, seed, i));
    }
  }

  lemma RowIsUniform(tag: seq<Byte>, seed: seq<Byte>, row: seq<int>, index: nat, rank: nat)
    requires |tag| == 32 && |seed| == 32 && RowStart(index, rank) + rank < LIMIT && IsRow(tag, seed, row, index, rank)
    ensures row == UniformRow(tag, seed, index, rank)
  {
    hide StreamAt, RowStart;
  }

  method UniformNoise(tag: seq<Byte>, seed: seq<Byte>, indices: seq<nat>, rank: nat) returns (rows: seq<seq<int>>)
    requires |tag| == 32 && |seed| == 32 && InLimit(indices, rank)
    ensures rows == UniformRows(tag, seed, indices, rank) && SixBit(rows, rank)
  {
    hide RowStart, UniformRow, SixBit, IsRow;
    UniformRowsAreSixBit(tag, seed, indices, rank);
    rows := GenerateUniformRandomMatrix(tag, seed, indices, rank);
    ghost var spec := UniformRows(tag, seed, indices, rank);
    forall u | 0 <= u < |rows| ensures rows[u] == spec[u] {
      RowIsUniform(tag, seed, rows[u], indices[u], rank);
    }
  }

  method PairNoise(tag: seq<Byte>, seed: seq<Byte>, k: nat, rank: nat) returns (perm: seq<Pair>)
    requires |tag| == 32 && |seed| == 32 && k < LINE_LIMIT && 2 <= rank < Noise.WORD && IsPow2(rank)
    ensures perm == SeedPairs(tag, seed, k, rank) && PairsFit(perm, rank)
  {
    var pairs := GeneratePermutationMatrix(tag, seed, k, rank);
    SeedPairsFit(tag, seed, k, rank);
    hide RandAt, PairOf, PairsFit, IsPow2;
    perm := pairs[..];
  }

  /** From two noise seeds to the sixteen words, for any power-of-two rank from two up: the stage length
      is the rank, every index is in range, and no byte or accumulator wraps. */
  method FromSeeds(h: nat, w: nat, k: nat, r: nat, secretA: seq<seq<int>>, secretB: seq<seq<int>>,
      aSeed: seq<Byte>, bSeed: seq<Byte>, aRows: seq<nat>, bCols: seq<nat>)
    returns (msg: array<Word>, ghost a: Side, ghost b: Side)
    requires |aSeed| == 32 && |bSeed| == 32 && 2 <= r < Noise.WORD && IsPow2(r) && k <= 135266
    requires |aRows| == h && |bCols| == w && InLimit(aRows, r) && InLimit(bCols, r)
    requires Signals(secretA, h, k) && Signals(secretB, w, k)
    ensures SixBit(UniformRows(A_LABEL, aSeed, aRows, r), r) && PairsFit(SeedPairs(A_LABEL, aSeed, k, r), r)
    ensures SixBit(UniformRows(B_LABEL, bSeed, bCols, r), r) && PairsFit(SeedPairs(B_LABEL, bSeed, k, r), r)
    ensures a == Side(secretA, NoiseRows(UniformRows(A_LABEL, aSeed, aRows, r), SeedPairs(A_LABEL, aSeed, k, r), r))
    ensures b == Side(secretB, NoiseRows(UniformRows(B_LABEL, bSeed, bCols, r), SeedPairs(B_LABEL, bSeed, k, r), r))
    ensures Inputs(a, b, h, w, k) && fresh(msg) && msg.Length == 16
    ensures forall t | 0 <= t < 16 :: msg[t] == Mixed(Stages(a, b, h, w, k, r), t, k / r, k / r)
    ensures forall u, v, n | 0 <= u < h && 0 <= v < w && 0 <= n <= k ::
      Cell(a, b, u, v, k, n) == Dot(a.Row(u, k), b.Row(v, k), n)
  {
    assert |A_LABEL| == 32 && |B_LABEL| == 32;
    hide SixBit, PairsFit, NoiseRows, Signals, Stages, Mixed, Cell, Dot, UniformRows, SeedPairs, IsPow2, InLimit;
    var eAl := UniformNoise(A_LABEL, aSeed, aRows, r);
    var eAr := PairNoise(A_LABEL, aSeed, k, r);
    var eBl := PairNoise(B_LABEL, bSeed, k, r);
    var eBr := UniformNoise(B_LABEL, bSeed, bCols, r);
    msg, a, b := Compute(h, w, k, r, r, secretA, secretB, eAl, eAr, eBl, eBr);
  }
}
