/** The two audit verifiers and the round trip from builder to verifier. */
module AuditVerification {
  import opened Digests
  import opened MerkleTrees
  import opened Blake3
  import opened SeedExpansion
  import opened ProofVerification
  import opened Audit

  /** The root an opening claims: a leaf of a one-leaf tree is hashed as the root. */
  function OpeningRoot(key: Key, leaf: seq<Byte>, index: nat, path: seq<Digest>): (root: Digest) {
    if path == [] then RootChunk(key, leaf) else FoldPath(key, Chunk(key, leaf, index), index, path)
  }

  // ----- Rust -----

  datatype Verdict = Accepted | Denied(message: string)

  /** Opening i holds leaf data whose path folds to the root. */
  ghost predicate OpeningHolds(key: Key, leaves: seq<seq<Byte>>, indices: seq<nat>, levels: nat,
                               siblings: seq<Digest>, root: Digest, i: nat)
    requires |indices| == |leaves| && |siblings| == |indices| * levels && i < |indices|
  {
    OpeningRoot(key, leaves[i], indices[i], OpeningPath(siblings, i, |indices|, levels)) == root
  }

  /** A well-shaped buffer all of whose openings fold to the root. */
  ghost predicate Accepts(leaves: seq<seq<Byte>>, indices: seq<nat>, totalLeaves: nat,
                          siblings: seq<Digest>, key: Key, root: Digest)
    requires |leaves| == |indices|
  {
    && indices != [] && IsPow2(totalLeaves) && |siblings| == |indices| * Log2(totalLeaves)
    && AllBelow(indices, totalLeaves)
    && forall i | 0 <= i < |indices| :: OpeningHolds(key, leaves, indices, Log2(totalLeaves), siblings, root, i)
  }

  /** The Rust loop accepts exactly such buffers. */
  method VerifyAuditPaths(leaves: seq<seq<Byte>>, indices: seq<nat>, totalLeaves: nat,
                          siblings: seq<Digest>, key: Key, root: Digest)
    returns (v: Verdict)
    requires |leaves| == |indices|
    ensures v.Accepted? <==> Accepts(leaves, indices, totalLeaves, siblings, key, root)
  {
    if indices == [] {
      return Denied("leaf_count must be > 0");
    }
    if totalLeaves == 0 {
      return Denied("total_leaves must be > 0");
    }
    if !IsPow2(totalLeaves) {
      return Denied("total_leaves must be a power of two");
    }
    var levels := Log2(totalLeaves);
    if |siblings| != |indices| * levels {
      return Denied("wrong sibling count");
    }
    hide FoldPath;
    for i := 0 to |indices|
      invariant forall j | 0 <= j < i ::
        indices[j] < totalLeaves && OpeningHolds(key, leaves, indices, levels, siblings, root, j)
    {
      if indices[i] >= totalLeaves {
        return Denied("leaf index out of bounds");
      }
      var path := OpeningPath(siblings, i, |indices|, levels);
      var node := RustFold(key, leaves[i], indices[i], path, totalLeaves == 1);
      if node != root {
        assert !OpeningHolds(key, leaves, indices, levels, siblings, root, i);
        return Denied("audit path root mismatch");
      }
    }
    v := Accepted;
  }

  method RustFold(key: Key, leaf: seq<Byte>, index: nat, path: seq<Digest>, single: bool) returns (node: Digest)
    requires single <==> path == []
    ensures node == OpeningRoot(key, leaf, index, path)
  {
    node := if single then RootChunk(key, leaf) else Chunk(key, leaf, index);
    var idx := index;
    var levels := |path|;
    for level := 0 to levels
      invariant level < levels ==> FoldPath(key, node, idx, path[level..]) == OpeningRoot(key, leaf, index, path)
      invariant level == levels ==> node == OpeningRoot(key, leaf, index, path)
    {
      var (left, right) := if idx % 2 == 0 then (node, path[level]) else (path[level], node);
      node := if level == levels - 1 then Root(key, left, right) else Parent(key, left, right);
      idx := idx / 2;
    }
  }

  // ----- the indices the pool asks for -----

  const DOMAIN: seq<Byte> := [0x61, 0x6b, 0x6f, 0x79, 0x61, 0x2d, 0x61, 0x75, 0x64, 0x69, 0x74, 0x2d, 0x76, 0x31]

  function XofInput(claimedHash: seq<Byte>, seed: seq<Byte>, auditK: nat): (b: seq<Byte>)
    requires |claimedHash| == 32 && |seed| == 32
  {
    DOMAIN + claimedHash + seed + LeBytes(Low32(auditK))
  }

  /** Word i of the output, reduced below the leaf count. */
  function Drawn(out: seq<Byte>, i: nat, totalLeaves: nat): (index: nat)
    requires 4 * i + 4 <= |out| && totalLeaves > 0
    ensures index < totalLeaves
  {
    LeWord(out[4 * i .. 4 * i + 4]) as nat % totalLeaves
  }

  /** K indices drawn from the extended output, each reduced below the leaf count. */
  function Derive(claimedHash: seq<Byte>, seed: seq<Byte>, auditK: nat, totalLeaves: nat): (indices: seq<nat>)
    requires |claimedHash| == 32 && |seed| == 32 && totalLeaves > 0
    ensures |indices| == auditK && AllBelow(indices, totalLeaves)
  {
    var out := XofRange(XofInput(claimedHash, seed, auditK), 0, 4 * auditK);
    seq(auditK, i requires 0 <= i < auditK => Drawn(out, i, totalLeaves))
  }

  datatype DeriveResult = Derived(indices: seq<nat>) | WrongLength | KOutOfRange | NoLeaves | NotPowerOfTwoLeaves

  /** The C# derivation: each refusal on exactly its condition, in the code's order. */
  method DeriveIndices(claimedHash: seq<Byte>, seed: seq<Byte>, auditK: nat, totalLeaves: nat)
    returns (r: DeriveResult)
    ensures r.WrongLength? <==> |claimedHash| != 32 || |seed| != 32
    ensures !r.WrongLength? ==>
      && (r.KOutOfRange? <==> auditK > 64)
      && (r.NoLeaves? <==> 0 < auditK <= 64 && totalLeaves == 0)
      && (r.NotPowerOfTwoLeaves? <==> 0 < auditK <= 64 && totalLeaves != 0 && !IsPow2(totalLeaves))
    ensures r.Derived? && auditK == 0 ==> r.indices == []
    ensures r.Derived? && auditK > 0 ==> r.indices == Derive(claimedHash, seed, auditK, totalLeaves)
  {
    if |claimedHash| != 32 || |seed| != 32 {
      return WrongLength;
    }
    if auditK == 0 {
      return Derived([]);
    }
    if auditK > 64 {
      return KOutOfRange;
    }
    if totalLeaves == 0 {
      return NoLeaves;
    }
    if !IsPow2(totalLeaves) {
      return NotPowerOfTwoLeaves;
    }
    XofInputFits(claimedHash, seed, auditK);
    hide *;
    var xofUsed := new Byte[4 * auditK](_ => 0);
    Xof(XofInput(claimedHash, seed, auditK), xofUsed);
    var indices := DrawAll(xofUsed[..], auditK, totalLeaves);
    DeriveIs(claimedHash, seed, auditK, totalLeaves, indices);
    r := Derived(indices);
  }

  lemma XofInputFits(claimedHash: seq<Byte>, seed: seq<Byte>, auditK: nat)
    requires |claimedHash| == 32 && |seed| == 32
    ensures |XofInput(claimedHash, seed, auditK)| == 82
  {
  }

  lemma DeriveIs(claimedHash: seq<Byte>, seed: seq<Byte>, auditK: nat, totalLeaves: nat, indices: seq<nat>)
    requires |claimedHash| == 32 && |seed| == 32 && totalLeaves > 0 && |indices| == auditK
    requires var out := XofRange(XofInput(claimedHash, seed, auditK), 0, 4 * auditK);
      forall i | 0 <= i < auditK :: indices[i] == Drawn(out, i, totalLeaves)
    ensures indices == Derive(claimedHash, seed, auditK, totalLeaves)
  {
    hide XofRange, XofInput, Drawn;
  }

  /** Decodes the output word by word. */
  method DrawAll(out: seq<Byte>, auditK: nat, totalLeaves: nat) returns (indices: seq<nat>)
    requires |out| == 4 * auditK && totalLeaves > 0
    ensures |indices| == auditK && forall i | 0 <= i < auditK :: indices[i] == Drawn(out, i, totalLeaves)
  {
    hide LeWord;
    var drawn := new nat[auditK](_ => 0);
    for i := 0 to auditK
      invariant forall j | 0 <= j < i :: drawn[j] == Drawn(out, j, totalLeaves)
    {
      var word := LeWord(out[4 * i .. 4 * i + 4]) as nat;
      drawn[i] := word % totalLeaves;
    }
    indices := drawn[..];
  }

  // ----- C# -----

  datatype AuditError = Ok | WrongSiblingLength | TotalLeavesNotPowerOfTwo | MerklePathMismatch | KAboveSpecMax

  /** The verifier's level count: the leaf count is first cut to 32 bits. */
  function CsLevels(totalLeaves: nat): (levels: nat) {
    if totalLeaves == 1 then 0 else Log2(totalLeaves % 0x1_0000_0000)
  }

  /** Opening i, with its leaf regenerated from the seed. */
  ghost predicate SeedOpeningHolds(seed: seq<Byte>, key: Key, root: Digest, indices: seq<nat>, levels: nat,
                                   siblings: seq<Digest>, i: nat)
    requires i < |indices| && |siblings| == |indices| * levels
  {
    OpeningRoot(key, Expansion(seed, indices[i] * 1024, 1024), indices[i],
      OpeningPath(siblings, i, |indices|, levels)) == root
  }

  method Verify(claimedHash: seq<Byte>, seed: seq<Byte>, key: Key, hashB: Digest, auditK: nat, totalLeaves: nat,
                siblings: seq<Digest>)
    returns (e: AuditError, failingIndex: int)
    requires |claimedHash| == 32 && |seed| == 32 && totalLeaves < 0x1_0000_0000_0000_0000
    ensures e == KAboveSpecMax <==> auditK > 64
    ensures auditK <= 64 ==> (e == TotalLeavesNotPowerOfTwo <==> !IsPow2(totalLeaves))
    ensures auditK <= 64 && IsPow2(totalLeaves) ==>
      (e == WrongSiblingLength <==> |siblings| != auditK * CsLevels(totalLeaves))
    ensures auditK <= 64 && IsPow2(totalLeaves) && |siblings| == auditK * CsLevels(totalLeaves) ==>
      var indices, levels := Derive(claimedHash, seed, auditK, totalLeaves), CsLevels(totalLeaves);
      && (e == Ok <==> forall i | 0 <= i < auditK :: SeedOpeningHolds(seed, key, hashB, indices, levels, siblings, i))
      && (e == MerklePathMismatch ==>
            && 0 <= failingIndex < auditK
            && !SeedOpeningHolds(seed, key, hashB, indices, levels, siblings, failingIndex)
            && forall i | 0 <= i < failingIndex :: SeedOpeningHolds(seed, key, hashB, indices, levels, siblings, i))
    ensures e != MerklePathMismatch ==> failingIndex == -1
  {
    failingIndex := -1;
    if auditK > 64 {
      return KAboveSpecMax, -1;
    }
    if totalLeaves == 0 || !IsPow2(totalLeaves) {
      return TotalLeavesNotPowerOfTwo, -1;
    }
    if auditK == 0 {
      return if siblings == [] then Ok else WrongSiblingLength, -1;
    }
    var levels := CsLevels(totalLeaves);
    if |siblings| != auditK * levels {
      return WrongSiblingLength, -1;
    }
    var derived := DeriveIndices(claimedHash, seed, auditK, totalLeaves);
    var indices := derived.indices;
    assert forall i | 0 <= i < auditK :: indices[i] < 0x1_0000_0000 by {
      forall i | 0 <= i < auditK ensures indices[i] < 0x1_0000_0000 {
        ShortIndex(claimedHash, seed, auditK, totalLeaves, i);
      }
    }
    hide *;
    failingIndex := VerifyOpenings(seed, key, hashB, indices, levels, siblings);
    e := if failingIndex == -1 then Ok else MerklePathMismatch;
  }

  /** The first opening that does not hold, or -1. */
  method VerifyOpenings(seed: seq<Byte>, key: Key, hashB: Digest, indices: seq<nat>, levels: nat, siblings: seq<Digest>)
    returns (failing: int)
    requires |seed| == 32 && |siblings| == |indices| * levels
    requires forall i | 0 <= i < |indices| :: indices[i] < 0x1_0000_0000
    ensures failing == -1 || 0 <= failing < |indices|
    ensures failing == -1 ==>
      forall i | 0 <= i < |indices| :: SeedOpeningHolds(seed, key, hashB, indices, levels, siblings, i)
    ensures failing != -1 ==>
      && !SeedOpeningHolds(seed, key, hashB, indices, levels, siblings, failing)
      && forall i | 0 <= i < failing :: SeedOpeningHolds(seed, key, hashB, indices, levels, siblings, i)
  {
    hide Expansion, OpeningRoot, OpeningPath;
    for i := 0 to |indices|
      invariant forall j | 0 <= j < i :: SeedOpeningHolds(seed, key, hashB, indices, levels, siblings, j)
    {
      var leafBytes := new Byte[1024](_ => 0);
      ExpandRangeRaw(seed, indices[i] * 1024, leafBytes);
      var path := OpeningPath(siblings, i, |indices|, levels);
      var root := CsFold(key, leafBytes[..], indices[i], path);
      if root != hashB {
        return i;
      }
    }
    failing := -1;
  }

  /** A derived index is a 32-bit word. */
  lemma ShortIndex(claimedHash: seq<Byte>, seed: seq<Byte>, auditK: nat, totalLeaves: nat, i: nat)
    requires |claimedHash| == 32 && |seed| == 32 && totalLeaves > 0 && i < auditK
    ensures Derive(claimedHash, seed, auditK, totalLeaves)[i] < 0x1_0000_0000
  {
    hide XofRange, LeWord, XofInput;
    var out := XofRange(XofInput(claimedHash, seed, auditK), 0, 4 * auditK);
    var w := LeWord(out[4 * i .. 4 * i + 4]) as nat;
    ModAtMost(w, totalLeaves);
  }

  lemma ModAtMost(w: nat, m: nat)
    requires m > 0
    ensures w % m <= w
  {
    if w < m {
    } else {
      assert w % m < m;
    }
  }

  method CsFold(key: Key, leaf: seq<Byte>, index: nat, path: seq<Digest>) returns (root: Digest)
    ensures root == OpeningRoot(key, leaf, index, path)
  {
    var levels := |path|;
    var node := Chunk(key, leaf, index);
    var cur := index;
    var lvl := 0;
    while lvl < levels - 1
      invariant lvl == 0 || lvl <= levels - 1
      invariant levels > 0 ==> FoldPath(key, node, cur, path[lvl..]) == OpeningRoot(key, leaf, index, path)
    {
      var sibling := path[lvl];
      node := if cur % 2 == 0 then Parent(key, node, sibling) else Parent(key, sibling, node);
      cur := cur / 2;
      lvl := lvl + 1;
    }
    if levels == 0 {
      root := RootChunk(key, leaf);
    } else {
      var top := path[levels - 1];
      root := if cur % 2 == 0 then Root(key, node, top) else Root(key, top, node);
    }
  }

  // ----- round trip and binding -----

  /** One opening against the root of `data`, for any leaf, key and path offered. */
  lemma OpeningBinds(key: Key, data: seq<Byte>, key': Key, leaf: seq<Byte>, index: nat, path: seq<Digest>)
    requires |data| > 1024 && IsPow2(ChunkCount(|data|)) && index < ChunkCount(|data|)
    requires |path| == Log2(ChunkCount(|data|))
    ensures OpeningRoot(key', leaf, index, path) == Blake3Root(key, data) <==>
      key' == key && leaf == ChunkBytes(data, index) && path == Path(key, LeafCvs(key, data), index)
  {
    var leaves := LeafCvs(key, data);
    PairedRoot(key, data);
    assert leaves[index] == Chunk(key, ChunkBytes(data, index), index);
    hide Path, FoldPath, TopRoot, Blake3Root, LeafCvs, ChunkBytes, IsPow2;
    PathBinds(key, leaves, index, key', Chunk(key', leaf, index), path);
  }

  lemma PairedRoot(key: Key, data: seq<Byte>)
    requires |data| > 1024
    ensures ChunkCount(|data|) >= 2 && TopRoot(key, LeafCvs(key, data)) == Blake3Root(key, data)
    ensures Log2(ChunkCount(|data|)) >= 1
  {
    TopRootIsLeftBalanced(key, LeafCvs(key, data));
    hide TopRoot, Subtree, LeafCvs;
  }

  /** What the Rust verifier accepts against the root of chunk-aligned or ragged `data` with a
      power-of-two leaf count: exactly the committed leaves with the emitted paths. */
  lemma RustAcceptsExactly(key: Key, data: seq<Byte>, key': Key, leaves: seq<seq<Byte>>, indices: seq<nat>,
                           siblings: seq<Digest>)
    requires |data| > 1024 && IsPow2(ChunkCount(|data|)) && AllBelow(indices, ChunkCount(|data|))
    requires indices != [] && |leaves| == |indices| && |siblings| == |indices| * Log2(ChunkCount(|data|))
    ensures
      (forall i | 0 <= i < |indices| ::
         OpeningHolds(key', leaves, indices, Log2(ChunkCount(|data|)), siblings, Blake3Root(key, data), i))
      <==>
      && key' == key
      && (forall i | 0 <= i < |indices| :: leaves[i] == ChunkBytes(data, indices[i]))
      && IsAuditBuffer(key, LeafCvs(key, data), indices, siblings)
  {
    var levels := Log2(ChunkCount(|data|));
    hide OpeningRoot, Path, Blake3Root, ChunkBytes, LeafCvs, OpeningPath;
    forall i | 0 <= i < |indices|
      ensures OpeningHolds(key', leaves, indices, levels, siblings, Blake3Root(key, data), i) <==>
        && key' == key && leaves[i] == ChunkBytes(data, indices[i])
        && OpeningPath(siblings, i, |indices|, levels) == Path(key, LeafCvs(key, data), indices[i])
    {
      OpeningBinds(key, data, key', leaves[i], indices[i], OpeningPath(siblings, i, |indices|, levels));
    }
    assert 0 <= 0 < |indices|;
    if forall i | 0 <= i < |indices| ::
      OpeningHolds(key', leaves, indices, levels, siblings, Blake3Root(key, data), i) {
      assert OpeningHolds(key', leaves, indices, levels, siblings, Blake3Root(key, data), 0);
    }
  }

  /** The verifier's copy of leaf `index`, regenerated without the zero tail, is the committed one. */
  predicate LeafRegenerates(seed: seq<Byte>, len: nat, index: nat)
    requires index < ChunkCount(len)
  {
    Expansion(seed, index * 1024, 1024) == ChunkBytes(Matrix(seed, len), index)
  }

  lemma RegeneratesIs(seed: seq<Byte>, len: nat, index: nat)
    requires index < ChunkCount(len)
    ensures index < ChunkCount(|Matrix(seed, len)|)
    ensures LeafRegenerates(seed, len, index) <==>
      Expansion(seed, index * 1024, 1024) == ChunkBytes(Matrix(seed, len), index)
  {
    hide Expansion, ChunkBytes, Matrix;
  }

  lemma TailIsZero(front: seq<Byte>, tail: seq<Byte>, n: nat)
    requires |tail| == n
    ensures front + tail == front + Zeros(n) <==> forall i | 0 <= i < n :: tail[i] == 0
  {
    if front + tail == front + Zeros(n) {
      forall i | 0 <= i < n ensures tail[i] == 0 {
        assert (front + tail)[|front| + i] == tail[i] && (front + Zeros(n))[|front| + i] == 0;
      }
    }
    if forall i | 0 <= i < n :: tail[i] == 0 {
      assert tail == Zeros(n);
    }
  }

  /** A chunk of the padded matrix: the expansion as far as it goes, then zeros. */
  lemma ChunkSplits(seed: seq<Byte>, len: nat, index: nat, valid: nat)
    requires index < ChunkCount(len) && valid == if len - index * 1024 < 1024 then len - index * 1024 else 1024
    ensures index < ChunkCount(|Matrix(seed, len)|) && index * 1024 + valid <= len
    ensures ChunkBytes(Matrix(seed, len), index) == Expansion(seed, index * 1024, valid) + Zeros(1024 - valid)
    ensures len % 1024 == 0 || index < ChunkCount(len) - 1 ==> valid == 1024
  {
    hide Expansion;
    ExpansionIsSlice(seed, index * 1024, valid, len);
  }

  /** Every leaf but a short last one regenerates; that one does only if the seed's bytes past the
      end of the matrix are all zero. */
  lemma RegeneratesExactly(seed: seq<Byte>, len: nat, index: nat)
    requires index < ChunkCount(len)
    ensures LeafRegenerates(seed, len, index) <==>
      (forall i | 0 <= i < 1024 && len <= index * 1024 + i :: Expansion(seed, index * 1024, 1024)[i] == 0)
    ensures len % 1024 == 0 || index < ChunkCount(len) - 1 ==> LeafRegenerates(seed, len, index)
  {
    hide *;
    var at := index * 1024;
    var valid := if len - at < 1024 then len - at else 1024;
    ChunkSplits(seed, len, index, valid);
    RangesAgree(seed, at, valid);
    RegeneratesIs(seed, len, index);
    var leaf, front := Expansion(seed, at, 1024), Expansion(seed, at, valid);
    assert leaf == front + leaf[valid..];
    TailIsZero(front, leaf[valid..], 1024 - valid);
    assert forall i | valid <= i < 1024 :: leaf[i] == leaf[valid..][i - valid];
  }

  lemma RangesAgree(seed: seq<Byte>, at: nat, n: nat)
    requires n <= 1024
    ensures Expansion(seed, at, 1024)[..n] == Expansion(seed, at, n)
  {
    hide XofByte, Int7;
  }

  /** The C# verifier against the root of a seed's matrix with a power-of-two leaf count: it accepts
      exactly the emitted paths, under the tree's key, provided the drawn leaves regenerate. */
  lemma CsAcceptsExactly(key: Key, seed: seq<Byte>, len: nat, key': Key, indices: seq<nat>, siblings: seq<Digest>)
    requires ChunkCount(len) >= 2 && IsPow2(ChunkCount(len)) && AllBelow(indices, ChunkCount(len))
    requires indices != [] && |siblings| == |indices| * Log2(ChunkCount(len))
    ensures
      (forall i | 0 <= i < |indices| ::
         SeedOpeningHolds(seed, key', Blake3Root(key, Matrix(seed, len)), indices, Log2(ChunkCount(len)), siblings, i))
      <==>
      && key' == key
      && (forall i | 0 <= i < |indices| :: LeafRegenerates(seed, len, indices[i]))
      && IsAuditBuffer(key, LeafCvs(key, Matrix(seed, len)), indices, siblings)
  {
    var data := Matrix(seed, len);
    var leaves := seq(|indices|, i requires 0 <= i < |indices| => Expansion(seed, indices[i] * 1024, 1024));
    RustAcceptsExactly(key, data, key', leaves, indices, siblings);
    hide Expansion, Matrix, OpeningRoot, Path, Blake3Root, ChunkBytes, LeafCvs, OpeningPath, IsAuditBuffer;
    var levels, root := Log2(ChunkCount(len)), Blake3Root(key, data);
    forall i | 0 <= i < |indices|
      ensures SeedOpeningHolds(seed, key', root, indices, levels, siblings, i)
         <==> OpeningHolds(key', leaves, indices, levels, siblings, root, i)
      ensures LeafRegenerates(seed, len, indices[i]) <==> leaves[i] == ChunkBytes(data, indices[i])
    {
    }
  }

  /** The chunks asked for. */
  function Opened(data: seq<Byte>, indices: seq<nat>): (leaves: seq<seq<Byte>>)
    requires AllBelow(indices, ChunkCount(|data|))
    ensures |leaves| == |indices|
  {
    seq(|indices|, i requires 0 <= i < |indices| => ChunkBytes(data, indices[i]))
  }

  /** The Rust side of the round trip: from the tree over the same data the same siblings are read, and
      its verifier accepts them for the committed chunks unless there is nothing to open. */
  method ReadAndVerify(data: seq<Byte>, key: Key, indices: seq<nat>, siblings: seq<Digest>, order: seq<nat>)
    returns (paths: PathsResult, verdict: Verdict)
    requires |data| > 1024 && IsPow2(ChunkCount(|data|)) && AllBelow(indices, ChunkCount(|data|))
    requires IsAuditBuffer(key, LeafCvs(key, data), indices, siblings)
    requires forall s | s in order :: s * 64 < ChunkCount(|data|)
    requires forall s: nat | s * 64 < ChunkCount(|data|) :: s in order
    ensures paths == Paths(siblings)
    ensures verdict.Accepted? <==> indices != []
  {
    hide IsAuditBuffer, LeafCvs, Blake3Root, OpeningHolds, Log2, IsPow2, ChunkBytes, Layer, TopRoot;
    var t := BuildTree(data, key, order);
    paths := GetAuditPaths(t, indices);
    TreeCount(t, key, data);
    AuditBufferIsUnique(key, LeafCvs(key, data), indices, siblings, paths.siblings);
    verdict := VerifyAuditPaths(Opened(data, indices), indices, ChunkCount(|data|), siblings, key,
      Blake3Root(key, data));
    BufferLength(key, LeafCvs(key, data), indices, siblings);
    if indices != [] {
      RustAcceptsExactly(key, data, key, Opened(data, indices), indices, siblings);
    }
  }

  lemma TreeCount(t: MerkleTree, key: Key, data: seq<Byte>)
    requires TreeOf(t, key, data)
    ensures t.key == key && t.data == data && t.layers != [] && t.NumLeaves() == ChunkCount(|data|)
  {
    FirstLevel(key, LeafCvs(key, data), t.layers);
  }

  lemma BufferLength(key: Key, leaves: seq<Digest>, indices: seq<nat>, buffer: seq<Digest>)
    requires IsPow2(|leaves|) && AllBelow(indices, |leaves|) && IsAuditBuffer(key, leaves, indices, buffer)
    ensures |buffer| == |indices| * Log2(|leaves|)
  {
  }

  lemma AlignedMatrix(seed: seq<Byte>, len: nat)
    requires len % 1024 == 0
    ensures Matrix(seed, len) == Expansion(seed, 0, len) && (ChunkCount(len) >= 2 ==> len > 1024)
  {
    hide Expansion;
  }

  /** Build, then verify: for any seed and shape with n * k a multiple of 1024 and a power-of-two
      leaf count of at least two, the siblings the C# builder makes for the derived indices pass the C#
      verifier, are the ones the Rust emitter reads from its tree, and pass the Rust verifier whenever
      there is an opening at all. */
  method BuildThenVerify(claimedHash: seq<Byte>, seed: seq<Byte>, key: Key, n: nat, k: nat, auditK: nat,
                         order: seq<nat>)
    returns (e: AuditError, built: BuildResult, paths: PathsResult, verdict: Verdict)
    requires |claimedHash| == 32 && |seed| == 32 && auditK <= 64
    requires n > 0 && k > 0 && n * k < 0x8000_0000 && n * k % 1024 == 0
    requires ChunkCount(n * k) >= 2 && IsPow2(ChunkCount(n * k))
    requires forall s | s in order :: s * 64 < ChunkCount(n * k)
    requires forall s: nat | s * 64 < ChunkCount(n * k) :: s in order
    ensures e == Ok
    ensures built.Built? && paths == Paths(built.siblings)
    ensures verdict.Accepted? <==> auditK > 0
  {
    hide *;
    var len := n * k;
    var matrix := new Byte[len](_ => 0);
    ExpandRaw(seed, n, k, matrix);
    AlignedMatrix(seed, len);
    ghost var data := Matrix(seed, len);
    assert matrix[..] == matrix[..len] == data;
    var indices := Derive(claimedHash, seed, auditK, ChunkCount(len));
    built := BuildSiblings(matrix[..], key, indices);
    e := VerifySiblings(claimedHash, seed, key, len, auditK, indices, built.siblings);
    paths, verdict := ReadAndVerify(matrix[..], key, indices, built.siblings, order);
  }

  lemma PadAligned(data: seq<Byte>)
    requires |data| > 1024 && |data| % 1024 == 0
    ensures PadToChunk(data) == data && ChunkCount(|data|) >= 2
  {
  }

  lemma EmptyBuffer(key: Key, leaves: seq<Digest>, indices: seq<nat>)
    requires IsPow2(|leaves|) && AllBelow(indices, |leaves|)
    ensures indices == [] ==> IsAuditBuffer(key, leaves, indices, [])
  {
    hide Path, IsPow2, Log2;
    assert indices == [] ==> |indices| * Log2(|leaves|) == 0;
  }

  /** The builder's success, on aligned data with a power-of-two leaf count. */
  method BuildSiblings(data: seq<Byte>, key: Key, indices: seq<nat>) returns (built: BuildResult)
    requires |data| > 1024 && |data| % 1024 == 0 && IsPow2(ChunkCount(|data|))
    requires AllBelow(indices, ChunkCount(|data|)) && |indices| <= 64
    ensures built.Built? && IsAuditBuffer(key, LeafCvs(key, data), indices, built.siblings)
  {
    hide *;
    PadAligned(data);
    EmptyBuffer(key, LeafCvs(key, data), indices);
    built := Build(data, key, indices);
  }

  lemma OpeningsHold(key: Key, seed: seq<Byte>, len: nat, indices: seq<nat>, siblings: seq<Digest>)
    requires len % 1024 == 0 && ChunkCount(len) >= 2 && IsPow2(ChunkCount(len)) && AllBelow(indices, ChunkCount(len))
    requires IsAuditBuffer(key, LeafCvs(key, Matrix(seed, len)), indices, siblings)
    ensures |siblings| == |indices| * Log2(ChunkCount(len))
    ensures forall i | 0 <= i < |indices| ::
      SeedOpeningHolds(seed, key, Blake3Root(key, Matrix(seed, len)), indices, Log2(ChunkCount(len)), siblings, i)
  {
    BufferLength(key, LeafCvs(key, Matrix(seed, len)), indices, siblings);
    hide Expansion, IsPow2, IsAuditBuffer, Matrix, LeafCvs, Log2, Blake3Root, SeedOpeningHolds, LeafRegenerates;
    forall i | 0 <= i < |indices| ensures LeafRegenerates(seed, len, indices[i]) {
      RegeneratesExactly(seed, len, indices[i]);
    }
    if indices != [] {
      CsAcceptsExactly(key, seed, len, key, indices, siblings);
    }
  }

  lemma Levels(total: nat)
    requires 2 <= total < 0x1_0000_0000
    ensures CsLevels(total) == Log2(total)
  {
    hide Log2;
  }

  /** The C# verifier on those siblings. */
  method VerifySiblings(claimedHash: seq<Byte>, seed: seq<Byte>, key: Key, len: nat, auditK: nat,
                        indices: seq<nat>, siblings: seq<Digest>)
    returns (e: AuditError)
    requires |claimedHash| == 32 && |seed| == 32 && auditK <= 64
    requires len < 0x8000_0000 && len % 1024 == 0 && ChunkCount(len) >= 2 && IsPow2(ChunkCount(len))
    requires indices == Derive(claimedHash, seed, auditK, ChunkCount(len))
    requires |Matrix(seed, len)| == len && IsAuditBuffer(key, LeafCvs(key, Matrix(seed, len)), indices, siblings)
    ensures e == Ok
  {
    OpeningsHold(key, seed, len, indices, siblings);
    Levels(ChunkCount(len));
    hide *;
    var failing;
    e, failing := Verify(claimedHash, seed, key, Blake3Root(key, Matrix(seed, len)), auditK, ChunkCount(len), siblings);
  }
}
