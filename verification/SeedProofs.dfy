/** Proofs made without the matrix: from its leaf chaining values and either the opened chunks or the
    seed they are regenerated from.
 */
module SeedProofs {
  import opened Digests
  import opened MerkleTrees
  import opened MerkleProofs
  import opened ProofVerification
  import opened Extraction
  import opened SeedExpansion
  import opened Emitters

  const USIZE: nat := 0x1_0000_0000_0000_0000

  // ----- the chunks that rows touch -----

  /** The chunks below n that the rows touch. */
  ghost function Touched(rows: seq<nat>, width: nat, n: nat): (s: set<nat>)
    ensures Below(s, n)
  {
    set c: nat | c < n && TouchedBy(rows, |rows|, width, c)
  }

  /** A matrix that fits the address space, and rows of it. */
  predicate RowsOf(rows: seq<nat>, numRows: nat, width: nat) {
    && numRows > 0 && width > 0 && numRows * width < USIZE
    && rows != [] && forall k | 0 <= k < |rows| :: rows[k] < numRows
  }

  lemma RowFits(row: nat, numRows: nat, width: nat)
    requires row < numRows
    ensures (row + 1) * width <= numRows * width
  {
  }

  /** The list computed for rows of the matrix is in range and is what they touch. */
  lemma IndicesAreTouched(rows: seq<nat>, numRows: nat, width: nat, indices: seq<nat>)
    requires RowsOf(rows, numRows, width) && Increasing(indices)
    requires forall c: nat :: c in indices <==> TouchedBy(rows, |rows|, width, c)
    ensures var n := ChunkCount(numRows * width); var s := Touched(rows, width, n);
      && indices != [] && AllBelow(indices, n) && indices == Ascending(s, n) && Elements(indices) == s && s != {}
  {
    var size := numRows * width;
    var n := ChunkCount(size);
    forall k | 0 <= k < |rows| ensures (rows[k] + 1) * width <= size {
      RowFits(rows[k], numRows, width);
    }
    RowsInRange(rows, width, rows[0], indices, size);
    hide ChunkCount, TouchedBy;
    var s := Touched(rows, width, n);
    assert forall c: nat | c in indices :: c < n;
    assert Elements(indices) == s;
    assert indices[0] in s;
    OnlyAscending(indices, s, n);
  }

  // ----- a proof over a table of leaf values -----

  /** What an emitter gives for the leaves `s` of a table: any chunks, with the table's siblings and root. */
  ghost predicate OverTable(p: MerkleProof, key: Key, cvs: seq<Digest>, s: set<nat>)
    requires |cvs| >= 2
  {
    && s != {} && Below(s, |cvs|) && p.leafIndices == Ascending(s, |cvs|) && |p.leafData| == |p.leafIndices|
    && p.totalLeaves == |cvs| && p.root == TopRoot(key, cvs) && p.siblings == Siblings(key, cvs, s)
  }

  lemma TableProofIsSane(p: MerkleProof, key: Key, cvs: seq<Digest>, s: set<nat>)
    requires |cvs| >= 2 && OverTable(p, key, cvs, s)
    ensures SanityCheck(p) && InRange(p, |cvs|) && Elements(p.leafIndices) == s
  {
    hide TopRoot, Siblings;
    var c :| c in s;
    assert c in p.leafIndices;
  }

  /** Whatever digests the table holds, such a proof verifies exactly when every chunk it carries hashes to
      its entry of the table. */
  lemma TableProofVerifiesExactly(p: MerkleProof, key: Key, cvs: seq<Digest>, s: set<nat>)
    requires |cvs| >= 2 && OverTable(p, key, cvs, s)
    ensures Verifies(p, key) <==> forall k | 0 <= k < |p.leafIndices| :: LeafIsTabled(p, key, cvs, k)
  {
    TableProofIsSane(p, key, cvs, s);
    SaneInRange(p, key, |cvs|);
    KnownIs(p, key, cvs, s);
    hide Verifies, LeafMap, Siblings, TopRoot, RootFrom, SanityCheck;
    var cur := LeafMap(key, p.leafIndices, p.leafData);
    if Verifies(p, key) {
      RootBinds(key, cvs, key, cur, p.siblings);
    }
    if cur == Known(s, cvs) {
      HonestProofFolds(key, cvs, s);
    }
  }

  /** The siblings of one leaf alone are none. */
  method TableSiblings(layers: seq<seq<Digest>>, n: nat, indices: seq<nat>, ghost key: Key, ghost cvs: seq<Digest>)
    returns (siblings: seq<Digest>)
    requires n == |cvs| >= 1 && indices != [] && AllBelow(indices, n)
    requires if n == 1 then layers == [cvs] else LayersOf(key, cvs, layers)
    ensures siblings == Siblings(key, cvs, Elements(indices))
  {
    TableIsSized(key, cvs, layers);
    assert n == 1 ==> Depth(1) == 0;
    assert n == 1 ==> Stored(layers, 1, Elements(indices)) == [];
    hide LayersOf, Sized, Stored, Depth;
    var r := SiblingsFromLayers(layers, n, indices, key, cvs);
    siblings := r.value;
    NoSiblings(key, cvs, Elements(indices));
  }

  lemma TableIsSized(key: Key, cvs: seq<Digest>, layers: seq<seq<Digest>>)
    requires cvs != [] && if |cvs| == 1 then layers == [cvs] else LayersOf(key, cvs, layers)
    ensures Sized(layers, |cvs|)
  {
    if |cvs| == 1 {
      assert layers[1..] == [];
    } else {
      assert layers[0..] == layers;
      LayersAreSized(key, cvs, layers, 0);
      FirstLevel(key, cvs, layers);
    }
  }

  lemma {:induction false} LayersAreSized(key: Key, cvs: seq<Digest>, layers: seq<seq<Digest>>, k: nat)
    requires LayersOf(key, cvs, layers) && k < |layers|
    ensures Sized(layers[k..], |layers[k]|)
    decreases |layers| - k
  {
    var rest := layers[k..];
    assert rest[1..] == layers[k + 1..];
    if k + 1 < |layers| {
      LayersAreSized(key, cvs, layers, k + 1);
      LayerSizes(key, cvs, layers, k);
    }
  }

  lemma LayerSizes(key: Key, cvs: seq<Digest>, layers: seq<seq<Digest>>, k: nat)
    requires LayersOf(key, cvs, layers) && k + 1 < |layers|
    ensures |layers[k + 1]| == Half(|layers[k]|)
  {
    if k + 2 < |layers| {
      assert layers[k + 1] == Layer(key, cvs, k + 1);
    }
  }

  // ----- from the opened chunks -----

  /** The opened chunks hash to their entries of the table. */
  method ChunksMatch(leafData: seq<seq<Byte>>, indices: seq<nat>, leafCvs: seq<Digest>, key: Key) returns (ok: bool)
    requires |leafData| == |indices| && AllBelow(indices, |leafCvs|)
    ensures ok <==> forall k | 0 <= k < |indices| :: Chunk(key, leafData[k], indices[k]) == leafCvs[indices[k]]
  {
    for k := 0 to |indices|
      invariant forall j | 0 <= j < k :: Chunk(key, leafData[j], indices[j]) == leafCvs[indices[j]]
    {
      if Chunk(key, leafData[k], indices[k]) != leafCvs[indices[k]] {
        return false;
      }
    }
    ok := true;
  }

  /** A proof from leaf values and the opened chunks alone. It is refused exactly when the sizes do not fit,
      a row is out of range or an opened chunk does not hash to its leaf value; what is not refused
      verifies against the root it comes with, whatever the other leaf values are. */
  method ProofFromLeafCvs(leafCvs: seq<Digest>, leafData: seq<seq<Byte>>, key: Key, rows: seq<nat>,
                          numRows: nat, width: nat)
    returns (r: Result<MerkleProof>)
    ensures var n := ChunkCount(numRows * width); var indices := Ascending(Touched(rows, width, n), n);
      r.Ok? <==>
        && RowsOf(rows, numRows, width) && |leafCvs| == n && |leafData| == |indices|
        && forall k | 0 <= k < |indices| :: Chunk(key, leafData[k], indices[k]) == leafCvs[indices[k]]
    ensures r.Ok? && |leafCvs| >= 2 ==>
      && OverTable(r.value, key, leafCvs, Touched(rows, width, |leafCvs|)) && r.value.leafData == leafData
      && Verifies(r.value, key)
    ensures r.Ok? && |leafCvs| == 1 ==>
      leafData != [] && r.value == MerkleProof(leafData, [0], 1, RootChunk(key, leafData[0]), [])
  {
    if leafCvs == [] || leafData == [] || rows == [] || numRows == 0 || width == 0 {
      NothingOpened(leafCvs, leafData, rows, numRows, width);
      return Err("empty input");
    }
    var dataLen := numRows * width;
    if dataLen >= USIZE {
      return Err("num_rows * row_width overflowed");
    }
    var n := ChunkCount(dataLen);
    if |leafCvs| != n {
      return Err("leaf_cvs count mismatch");
    }
    if exists k | 0 <= k < |rows| :: rows[k] >= numRows {
      return Err("row index out of bounds");
    }
    var indices := LeafIndicesFromRows(rows, width);
    IndicesAreTouched(rows, numRows, width, indices);
    if |leafData| != |indices| {
      return Err("leaf_data_len mismatch");
    }
    ghost var s := Touched(rows, width, n);
    hide *;
    var ok := ChunksMatch(leafData, indices, leafCvs, key);
    if !ok {
      return Err("leaf data/CV mismatch at opened leaf");
    }
    var built := LayersFromLeafCvs(leafCvs, key, if n == 1 then Some(leafData[0]) else None);
    var siblings := TableSiblings(built.value.0, n, indices, key, leafCvs);
    var p := MerkleProof(leafData, indices, n, built.value.1, siblings);
    if n == 1 {
      OnlyFirst(s, indices);
      NoSiblings(key, leafCvs, s);
    } else {
      TabledIs(p, key, leafCvs, s);
      TableProofVerifiesExactly(p, key, leafCvs, s);
    }
    r := Ok(p);
  }

  lemma NothingOpened(leafCvs: seq<Digest>, leafData: seq<seq<Byte>>, rows: seq<nat>, numRows: nat, width: nat)
    requires leafCvs == [] || leafData == [] || rows == [] || numRows == 0 || width == 0
    ensures var n := ChunkCount(numRows * width);
      !(RowsOf(rows, numRows, width) && |leafCvs| == n && |leafData| == |Ascending(Touched(rows, width, n), n)|)
  {
    if RowsOf(rows, numRows, width) {
      SizeIsPositive(numRows, width);
      FirstIsTouched(rows, numRows, width);
    }
  }

  lemma SizeIsPositive(numRows: nat, width: nat)
    requires numRows > 0 && width > 0
    ensures ChunkCount(numRows * width) >= 1
  {
  }

  /** Rows of the matrix touch some chunk of it. */
  lemma FirstIsTouched(rows: seq<nat>, numRows: nat, width: nat)
    requires RowsOf(rows, numRows, width)
    ensures var n := ChunkCount(numRows * width); Ascending(Touched(rows, width, n), n) != []
  {
    var n, c := ChunkCount(numRows * width), rows[0] * width / 1024;
    RowTouchesRange(rows[0], width, c);
    RowFits(rows[0], numRows, width);
    assert TouchedBy(rows, |rows|, width, c);
    hide TouchedBy, ChunkCount;
    assert c < n;
    assert c in Touched(rows, width, n);
    assert c in Ascending(Touched(rows, width, n), n);
  }

  lemma OnlyFirst(s: set<nat>, indices: seq<nat>)
    requires indices == Ascending(s, 1) && indices != []
    ensures indices == [0]
  {
    assert Ascending(s, 0) == [];
  }

  lemma TabledIs(p: MerkleProof, key: Key, cvs: seq<Digest>, s: set<nat>)
    requires |cvs| >= 2 && s != {} && Below(s, |cvs|) && p.leafIndices == Ascending(s, |cvs|)
    requires |p.leafData| == |p.leafIndices| && p.totalLeaves == |cvs|
    requires p.root == TopRoot(key, cvs) && p.siblings == Siblings(key, cvs, s)
    ensures OverTable(p, key, cvs, s)
    ensures forall k | 0 <= k < |p.leafIndices| ::
      p.leafIndices[k] < |cvs| &&
      (LeafIsTabled(p, key, cvs, k) <==> Chunk(key, p.leafData[k], p.leafIndices[k]) == cvs[p.leafIndices[k]])
  {
    hide TopRoot, Siblings;
  }

  // ----- from the seed -----

  datatype SeedTree = SeedTree(
    seed: seq<Byte>, layers: seq<seq<Digest>>, root: Digest, numRows: nat, width: nat, dataLen: nat)

  /** What `BuildSeedTree` keeps of a table of leaf values. */
  ghost predicate SeedTreeOf(t: SeedTree, cvs: seq<Digest>, key: Key) {
    && |t.seed| == 32 && t.numRows > 0 && t.width > 0 && t.dataLen == t.numRows * t.width < USIZE
    && |cvs| == ChunkCount(t.dataLen) >= 1
    && if |cvs| == 1 then t.layers == [cvs] && t.root == RootChunk(key, Matrix(t.seed, t.dataLen))
       else LayersOf(key, cvs, t.layers) && t.root == TopRoot(key, cvs)
  }

  method BuildSeedTree(leafCvs: seq<Digest>, seed: seq<Byte>, key: Key, numRows: nat, width: nat)
    returns (r: Result<SeedTree>)
    requires |seed| == 32
    ensures r.Ok? <==>
      numRows > 0 && width > 0 && numRows * width < USIZE && |leafCvs| == ChunkCount(numRows * width)
    ensures r.Ok? ==>
      SeedTreeOf(r.value, leafCvs, key) && r.value.seed == seed && r.value.numRows == numRows && r.value.width == width
  {
    hide LayersOf, TopRoot, Matrix;
    if numRows == 0 || width == 0 {
      return Err("num_rows and row_width must be > 0");
    }
    SizeIsPositive(numRows, width);
    if leafCvs == [] {
      return Err("leaf_cvs_len must be non-zero");
    }
    var dataLen := numRows * width;
    if dataLen >= USIZE {
      return Err("num_rows * row_width overflowed");
    }
    var expected := ChunkCount(dataLen);
    if |leafCvs| != expected {
      return Err("leaf_cvs count mismatch");
    }
    var single: Option<seq<Byte>> := None;
    if expected == 1 {
      var leaf := ExpandLeaf(seed, dataLen, 0);
      LeafOfMatrix(seed, dataLen, 0);
      OneChunkMatrix(seed, dataLen);
      single := Some(leaf);
    }
    hide ChunkCount;
    var built := LayersFromLeafCvs(leafCvs, key, single);
    r := Ok(SeedTree(seed, built.value.0, built.value.1, numRows, width, dataLen));
  }

  /** The regenerated leaf is the chunk of the padded matrix. */
  lemma LeafOfMatrix(seed: seq<Byte>, len: nat, c: nat)
    requires c < ChunkCount(len)
    ensures c < ChunkCount(|Matrix(seed, len)|)
    ensures ProofLeaf(Expansion(seed, 0, len), c) == ChunkBytes(Matrix(seed, len), c)
  {
    hide Expansion;
    var data := Expansion(seed, 0, len);
    var padded := PadToChunk(data);
    assert ChunkBytes(padded, c) == padded[c * 1024 .. c * 1024 + 1024];
  }

  lemma OneChunkMatrix(seed: seq<Byte>, len: nat)
    requires ChunkCount(len) == 1
    ensures |Matrix(seed, len)| == 1024 && ChunkBytes(Matrix(seed, len), 0) == Matrix(seed, len)
    ensures ProofLeaf(Matrix(seed, len), 0) == Matrix(seed, len)
  {
    hide Expansion;
  }

  /** Regenerates the opened leaves. */
  method ExpandLeaves(seed: seq<Byte>, dataLen: nat, indices: seq<nat>) returns (leaves: seq<seq<Byte>>)
    requires |seed| == 32 && dataLen < USIZE && AllBelow(indices, ChunkCount(|Matrix(seed, dataLen)|))
    ensures |leaves| == |indices|
    ensures forall k | 0 <= k < |indices| :: leaves[k] == ChunkBytes(Matrix(seed, dataLen), indices[k])
  {
    hide Matrix, Expansion, ChunkBytes, ProofLeaf, ChunkCount;
    leaves := [];
    for k := 0 to |indices|
      invariant |leaves| == k
      invariant forall j | 0 <= j < k :: leaves[j] == ChunkBytes(Matrix(seed, dataLen), indices[j])
    {
      var leaf := ExpandLeaf(seed, dataLen, indices[k]);
      LeafOfMatrix(seed, dataLen, indices[k]);
      leaves := leaves + [leaf];
    }
  }

  /** A proof for rows out of the kept layers, with its chunks regenerated. */
  method SeedProof(t: SeedTree, rows: seq<nat>, ghost cvs: seq<Digest>, ghost key: Key) returns (r: Result<MerkleProof>)
    requires SeedTreeOf(t, cvs, key)
    ensures r.Ok? <==> RowsOf(rows, t.numRows, t.width)
    ensures r.Ok? && |cvs| == 1 ==>
      |Matrix(t.seed, t.dataLen)| == 1024 && r.value == OneLeafProof(key, Matrix(t.seed, t.dataLen))
    ensures r.Ok? && |cvs| >= 2 ==> OverTable(r.value, key, cvs, Touched(rows, t.width, |cvs|))
    ensures r.Ok? ==> forall k | 0 <= k < |r.value.leafIndices| ::
      && r.value.leafIndices[k] < ChunkCount(|Matrix(t.seed, t.dataLen)|) && |r.value.leafData| == |r.value.leafIndices|
      && r.value.leafData[k] == ChunkBytes(Matrix(t.seed, t.dataLen), r.value.leafIndices[k])
  {
    TreeHas(t, cvs, key);
    if rows == [] {
      return Err("row_indices_len must be > 0");
    }
    if exists k | 0 <= k < |rows| :: rows[k] >= t.numRows {
      return Err("row index out of bounds");
    }
    var indices := LeafIndicesFromRows(rows, t.width);
    IndicesAreTouched(rows, t.numRows, t.width, indices);
    var n := |t.layers[0]|;
    ghost var s := Touched(rows, t.width, n);
    hide *;
    var leafData := ExpandLeaves(t.seed, t.dataLen, indices);
    var siblings := TableSiblings(t.layers, n, indices, key, cvs);
    var p := MerkleProof(leafData, indices, n, t.root, siblings);
    if n == 1 {
      OnlyFirst(s, indices);
      NoSiblings(key, cvs, s);
      OneChunkMatrix(t.seed, t.dataLen);
      OneLeafIs(key, Matrix(t.seed, t.dataLen), p);
    } else {
      TabledIs(p, key, cvs, s);
    }
    r := Ok(p);
  }

  lemma TreeHas(t: SeedTree, cvs: seq<Digest>, key: Key)
    requires SeedTreeOf(t, cvs, key)
    ensures t.layers != [] && t.layers[0] == cvs && |t.seed| == 32 && t.numRows > 0 && t.width > 0
    ensures t.dataLen == t.numRows * t.width < USIZE && |cvs| == ChunkCount(t.dataLen) >= 1
    ensures ChunkCount(|Matrix(t.seed, t.dataLen)|) == ChunkCount(t.dataLen)
    ensures if |cvs| == 1 then t.layers == [cvs] && t.root == RootChunk(key, Matrix(t.seed, t.dataLen))
            else LayersOf(key, cvs, t.layers) && t.root == TopRoot(key, cvs)
  {
    if |cvs| > 1 {
      FirstLevel(key, cvs, t.layers);
    }
    hide LayersOf, TopRoot, Expansion;
  }

  lemma OneLeafIs(key: Key, data: seq<Byte>, p: MerkleProof)
    requires |data| == 1024 && ProofLeaf(data, 0) == data && |p.leafData| == 1 && p.leafData[0] == data
    requires p.leafIndices == [0] && p.totalLeaves == 1 && p.root == RootChunk(key, data) && p.siblings == []
    ensures p == OneLeafProof(key, data)
  {
    hide ProofLeaf;
    assert p.leafData == [data];
  }

  /** Chunk c of the seed's matrix hashes to its entry of the table. */
  predicate SeedLeaf(seed: seq<Byte>, len: nat, key: Key, cvs: seq<Digest>, c: nat) {
    && c < |cvs| && c < ChunkCount(|Matrix(seed, len)|)
    && cvs[c] == Chunk(key, ChunkBytes(Matrix(seed, len), c), c)
  }

  lemma SeedProofChecks(p: MerkleProof, seed: seq<Byte>, len: nat, key: Key, cvs: seq<Digest>, s: set<nat>)
    requires |cvs| >= 2 && OverTable(p, key, cvs, s)
    requires forall k | 0 <= k < |p.leafIndices| ::
      && p.leafIndices[k] < ChunkCount(|Matrix(seed, len)|)
      && p.leafData[k] == ChunkBytes(Matrix(seed, len), p.leafIndices[k])
    ensures Verifies(p, key) <==> forall c | c in s :: SeedLeaf(seed, len, key, cvs, c)
  {
    TableProofVerifiesExactly(p, key, cvs, s);
    TableProofIsSane(p, key, cvs, s);
    hide Verifies, TopRoot, Siblings, Matrix, ChunkBytes, SanityCheck;
    forall k | 0 <= k < |p.leafIndices|
      ensures p.leafIndices[k] in s
      ensures LeafIsTabled(p, key, cvs, k) <==> SeedLeaf(seed, len, key, cvs, p.leafIndices[k])
    {
      assert p.leafIndices[k] in Elements(p.leafIndices);
    }
    if forall k | 0 <= k < |p.leafIndices| :: LeafIsTabled(p, key, cvs, k) {
      forall c | c in s ensures SeedLeaf(seed, len, key, cvs, c) {
        var k :| 0 <= k < |p.leafIndices| && p.leafIndices[k] == c;
        assert LeafIsTabled(p, key, cvs, k);
      }
    }
  }

  /** Over the true table it is the proof of the whole matrix. */
  lemma SeedProofIsHonest(p: MerkleProof, seed: seq<Byte>, len: nat, key: Key, s: set<nat>)
    requires var cvs := LeafCvs(key, Matrix(seed, len));
      |cvs| >= 2 && OverTable(p, key, cvs, s)
    requires forall k | 0 <= k < |p.leafIndices| ::
      && p.leafIndices[k] < ChunkCount(|Matrix(seed, len)|)
      && p.leafData[k] == ChunkBytes(Matrix(seed, len), p.leafIndices[k])
    ensures |Matrix(seed, len)| > 1024 && s != {} && Below(s, ChunkCount(|Matrix(seed, len)|))
    ensures p == HonestProof(key, Matrix(seed, len), s)
  {
    var data := Matrix(seed, len);
    assert |data| % 1024 == 0;
    HonestFields(key, data, s);
    hide Matrix, LeafCvs, TopRoot, Siblings, ProofLeaf, ChunkBytes, Ascending, HonestProof, ChunkCount;
    var h := HonestProof(key, data, s);
    forall k | 0 <= k < |p.leafIndices| ensures p.leafData[k] == h.leafData[k] {
      PaddedLeaf(data, p.leafIndices[k]);
    }
    assert p.leafData == h.leafData;
  }

  /** From a seed and a table of leaf values to a proof for rows. Whatever the table holds, the proof
      verifies exactly when the entries of the opened chunks are those of the seed's matrix; over the
      seed's own table it is the proof of the whole matrix, against its root. */
  method SeedToProof(leafCvs: seq<Digest>, seed: seq<Byte>, key: Key, numRows: nat, width: nat, rows: seq<nat>)
    returns (r: Result<MerkleProof>)
    requires |seed| == 32
    ensures r.Ok? <==> RowsOf(rows, numRows, width) && |leafCvs| == ChunkCount(numRows * width)
    ensures r.Ok? && |leafCvs| >= 2 ==>
      (Verifies(r.value, key) <==>
       forall c | c in Touched(rows, width, |leafCvs|) :: SeedLeaf(seed, numRows * width, key, leafCvs, c))
    ensures var m := Matrix(seed, numRows * width);
      r.Ok? && |leafCvs| >= 2 && leafCvs == LeafCvs(key, m) ==>
        && |m| > 1024 && ChunkCount(|m|) == |leafCvs|
        && r.value == HonestProof(key, m, Touched(rows, width, |leafCvs|))
        && r.value.root == Blake3Root(key, m) && Verifies(r.value, key)
    ensures var m := Matrix(seed, numRows * width);
      r.Ok? && |leafCvs| == 1 ==>
        |m| == 1024 && r.value == OneLeafProof(key, m) && r.value.root == Blake3Root(key, m) && !Verifies(r.value, key)
  {
    hide *;
    ghost var len := numRows * width;
    var built := BuildSeedTree(leafCvs, seed, key, numRows, width);
    if built.Err? {
      GoodSizes(rows, numRows, width);
      return Err(built.message);
    }
    var t := built.value;
    TreeHas(t, leafCvs, key);
    r := SeedProof(t, rows, leafCvs, key);
    if r.Ok? {
      ghost var p, n := r.value, |leafCvs|;
      if n >= 2 {
        ghost var s := Touched(rows, width, n);
        SeedProofChecks(p, seed, len, key, leafCvs, s);
        if leafCvs == LeafCvs(key, Matrix(seed, len)) {
          SeedProofIsHonest(p, seed, len, key, s);
          HonestSeedProof(p, seed, len, key, s);
        }
      } else {
        OneLeafProofNeverVerifies(key, Matrix(seed, len), key);
        OneLeafRoot(key, Matrix(seed, len));
      }
    }
  }

  lemma GoodSizes(rows: seq<nat>, numRows: nat, width: nat)
    ensures RowsOf(rows, numRows, width) ==> numRows > 0 && width > 0 && numRows * width < USIZE
  {
  }

  lemma OneLeafRoot(key: Key, data: seq<Byte>)
    requires 0 < |data| <= 1024
    ensures OneLeafProof(key, data).root == Blake3Root(key, data)
  {
    hide ProofLeaf;
  }

  lemma HonestSeedProof(p: MerkleProof, seed: seq<Byte>, len: nat, key: Key, s: set<nat>)
    requires var m := Matrix(seed, len);
      |m| > 1024 && s != {} && Below(s, ChunkCount(|m|)) && p == HonestProof(key, m, s)
    ensures p.root == Blake3Root(key, Matrix(seed, len)) && Verifies(p, key)
  {
    var m := Matrix(seed, len);
    assert |m| % 1024 == 0;
    hide Matrix, Verifies, Siblings, ProofLeaf;
    HonestProofVerifiesExactly(key, m, s);
    TopRootIsLeftBalanced(key, LeafCvs(key, m));
  }
}
