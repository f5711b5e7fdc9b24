/** `get_multileaf_proof` and `compute_root`, and what a proof that verifies says about the tree. */
module ProofVerification {
  import opened Digests
  import opened MerkleTrees
  import opened MerkleProofs

  // ----- ascending index lists -----

  ghost predicate Increasing(s: seq<nat>) {
    forall i, j | 0 <= i < j < |s| :: s[i] < s[j]
  }

  /** The elements of s below n in ascending order. */
  function Ascending(s: set<nat>, n: nat): (out: seq<nat>)
    ensures Increasing(out)
    ensures forall k | 0 <= k < |out| :: out[k] in s && out[k] < n
    ensures forall i | i in s && i < n :: i in out
  {
    if n == 0 then [] else if n - 1 in s then Ascending(s, n - 1) + [n - 1] else Ascending(s, n - 1)
  }

  function Elements(s: seq<nat>): set<nat> {
    set i | i in s
  }

  ghost predicate AllBelow(s: seq<nat>, n: nat) {
    forall k | 0 <= k < |s| :: s[k] < n
  }

  lemma {:induction false} IncreasingIsAscending(s: seq<nat>, n: nat)
    requires Increasing(s) && AllBelow(s, n)
    ensures s == Ascending(Elements(s), n)
  {
    OnlyAscending(s, Elements(s), n);
  }

  lemma LargestIsLast(list: seq<nat>, n: nat)
    requires Increasing(list) && AllBelow(list, n) && n > 0 && n - 1 in list
    ensures list != []
    ensures var front := list[..|list| - 1];
      list == front + [n - 1] && Increasing(front) && AllBelow(front, n - 1)
  {
    var k :| 0 <= k < |list| && list[k] == n - 1;
    var last := |list| - 1;
    assert list[last] >= n - 1;
    forall j | 0 <= j < last ensures list[j] < n - 1 {
      assert list[j] < list[last];
    }
  }

  lemma FirstBelow(list: seq<nat>, n: nat)
    requires AllBelow(list, n)
    ensures list != [] ==> list[0] < n
  {
  }

  lemma NoLargest(list: seq<nat>, n: nat)
    requires AllBelow(list, n) && n > 0 && n - 1 !in list
    ensures AllBelow(list, n - 1)
  {
    forall k | 0 <= k < |list| ensures list[k] < n - 1 {
      assert list[k] in list;
    }
  }

  lemma FrontMembers(front: seq<nat>, s: set<nat>, n: nat)
    requires n > 0 && forall i | 0 <= i < n :: i in s <==> i in front + [n - 1]
    ensures forall i | 0 <= i < n - 1 :: i in s <==> i in front
  {
    forall i | 0 <= i < n - 1 ensures i in s <==> i in front {
      assert i in front + [n - 1] <==> i in front;
    }
  }

  lemma {:induction false} OnlyAscending(list: seq<nat>, s: set<nat>, n: nat)
    requires Increasing(list) && AllBelow(list, n)
    requires forall i | 0 <= i < n :: i in s <==> i in list
    ensures list == Ascending(s, n)
  {
    hide Increasing, AllBelow;
    if n == 0 {
      FirstBelow(list, 0);
    } else if n - 1 in s {
      LargestIsLast(list, n);
      var front := list[..|list| - 1];
      FrontMembers(front, s, n);
      OnlyAscending(front, s, n - 1);
      assert list == Ascending(s, n - 1) + [n - 1];
    } else {
      NoLargest(list, n);
      OnlyAscending(list, s, n - 1);
    }
  }

  // ----- the prover -----

  /** A leaf as a proof carries it: 1024 bytes, a short last chunk zero-padded. */
  function ProofLeaf(data: seq<Byte>, i: nat): (leaf: seq<Byte>)
    requires i < ChunkCount(|data|)
    ensures |leaf| == 1024
  {
    ChunkBytes(data, i) + Zeros(1024 - |ChunkBytes(data, i)|)
  }

  /** The proof the tree over `data` gives for a set of leaves. */
  function HonestProof(key: Key, data: seq<Byte>, s: set<nat>): (p: MerkleProof)
    requires |data| > 1024 && Below(s, ChunkCount(|data|))
  {
    var leaves := LeafCvs(key, data);
    var indices := Ascending(s, |leaves|);
    MerkleProof(seq(|indices|, k requires 0 <= k < |indices| => ProofLeaf(data, indices[k])),
                indices, |leaves|, TopRoot(key, leaves), Siblings(key, leaves, s))
  }

  method ScanLevel(s: set<nat>, level: seq<Digest>, siblings0: seq<Digest>) returns (siblings: seq<Digest>)
    ensures siblings == siblings0 + EmitFrom(s, level, 0)
  {
    siblings := siblings0;
    for i := 0 to |level|
      invariant siblings + EmitFrom(s, level, i) == siblings0 + EmitFrom(s, level, 0)
    {
      ghost var before := siblings;
      if i in s {
        if i % 2 == 1 {
          if i - 1 !in s {
            siblings := siblings + [level[i - 1]];
          }
        } else if i + 1 !in s && i + 1 < |level| {
          siblings := siblings + [level[i + 1]];
        }
      }
      assert siblings == before + EmitAt(s, level, i);
      assert before + EmitFrom(s, level, i) == siblings + EmitFrom(s, level, i + 1);
    }
  }

  lemma SiblingsSplit(key: Key, level: seq<Digest>, s: set<nat>, done: seq<Digest>)
    requires |level| > 1
    ensures done + Siblings(key, level, s) ==
      (done + EmitFrom(s, level, 0)) + Siblings(key, Combine(key, level), Parents(s))
    ensures (|level| + 1) / 2 == Half(|level|) < |level|
  {
    hide EmitFrom, Combine, Parents;
    var here, tail := EmitFrom(s, level, 0), Siblings(key, Combine(key, level), Parents(s));
    assert done + (here + tail) == (done + here) + tail;
  }

  lemma NoSiblings(key: Key, level: seq<Digest>, s: set<nat>)
    ensures |level| <= 1 ==> Siblings(key, level, s) == []
  {
  }

  /** The level-by-level walk over stored layers. */
  method WalkLayers(ghost key: Key, ghost leaves: seq<Digest>, layers: seq<seq<Digest>>, s: set<nat>)
    returns (siblings: seq<Digest>)
    requires LayersOf(key, leaves, layers) && s != {}
    ensures siblings == Siblings(key, leaves, s)
  {
    hide *;
    siblings := [];
    var current := s;
    FirstLevel(key, leaves, layers);
    var levelLen := |layers[0]|;
    var level := 0;
    assert siblings + Siblings(key, leaves, s) == Siblings(key, leaves, s);
    while levelLen > 1 && current != {}
      invariant level < |layers| && current != {}
      invariant levelLen == |Layer(key, leaves, level)| == |layers[level]|
      invariant levelLen > 1 ==> layers[level] == Layer(key, leaves, level)
      invariant siblings + Siblings(key, Layer(key, leaves, level), current) == Siblings(key, leaves, s)
      decreases levelLen
    {
      var nodes := layers[level];
      SiblingsSplit(key, nodes, current, siblings);
      siblings := ScanLevel(current, nodes, siblings);
      NextLevel(key, leaves, layers, level);
      ParentsNonEmpty(current);
      current := Parents(current);
      levelLen := (levelLen + 1) / 2;
      level := level + 1;
    }
    NoSiblings(key, Layer(key, leaves, level), current);
    assert siblings + [] == siblings;
  }

  lemma ParentsNonEmpty(s: set<nat>)
    requires s != {}
    ensures Parents(s) != {}
  {
    var i :| i in s;
    assert i / 2 in Parents(s);
  }

  /** The tree over at most one chunk: its only node is the root. */
  ghost predicate OneChunkTree(t: MerkleTree) {
    0 < |t.data| <= 1024 && t.layers == [[RootChunk(t.key, t.data)]]
  }

  /** The proof such a tree gives: its chunk, padded, and no sibling. */
  function OneLeafProof(key: Key, data: seq<Byte>): (p: MerkleProof)
    requires 0 < |data| <= 1024
  {
    MerkleProof([ProofLeaf(data, 0)], [0], 1, RootChunk(key, data), [])
  }

  method GetMultileafProof(t: MerkleTree, leafIndices: seq<nat>) returns (p: MerkleProof)
    requires TreeOf(t, t.key, t.data) || OneChunkTree(t)
    requires leafIndices != [] && AllBelow(leafIndices, t.NumLeaves())
    ensures TreeOf(t, t.key, t.data) ==>
      Below(Elements(leafIndices), ChunkCount(|t.data|)) && p == HonestProof(t.key, t.data, Elements(leafIndices))
    ensures OneChunkTree(t) ==> p == OneLeafProof(t.key, t.data)
  {
    HasLayers(t);
    hide *;
    var unique := Elements(leafIndices);
    var totalLeaves := t.NumLeaves();
    ghost var leaves := LeafCvs(t.key, t.data);
    TreeShape(t, leafIndices);
    var sorted := Ascending(unique, totalLeaves);
    var leafData := seq(|sorted|, k requires 0 <= k < |sorted| => ProofLeaf(t.data, sorted[k]));
    var siblings: seq<Digest> := [];
    if totalLeaves > 1 {
      siblings := WalkLayers(t.key, leaves, t.layers, unique);
    }
    p := MerkleProof(leafData, sorted, totalLeaves, t.RootDigest(), siblings);
    if totalLeaves > 1 {
      TreeProofShape(t, leafIndices, p);
    } else {
      OneProofShape(t, leafIndices, p);
    }
  }

  lemma HasLayers(t: MerkleTree)
    requires TreeOf(t, t.key, t.data) || OneChunkTree(t)
    ensures t.layers != []
  {
  }

  lemma TreeShape(t: MerkleTree, leafIndices: seq<nat>)
    requires TreeOf(t, t.key, t.data) || OneChunkTree(t)
    requires leafIndices != [] && t.layers != [] && AllBelow(leafIndices, t.NumLeaves())
    ensures t.NumLeaves() == ChunkCount(|t.data|) && t.layers[|t.layers| - 1] != [] && Elements(leafIndices) != {}
    ensures t.NumLeaves() > 1 <==> TreeOf(t, t.key, t.data)
    ensures t.NumLeaves() == 1 <==> OneChunkTree(t)
    ensures TreeOf(t, t.key, t.data) ==> LayersOf(t.key, LeafCvs(t.key, t.data), t.layers)
    ensures Below(Elements(leafIndices), ChunkCount(|t.data|))
  {
    assert leafIndices[0] in Elements(leafIndices);
    if TreeOf(t, t.key, t.data) {
      FirstLevel(t.key, LeafCvs(t.key, t.data), t.layers);
    }
    hide Layer, TopRoot;
  }

  lemma TreeProofShape(t: MerkleTree, leafIndices: seq<nat>, p: MerkleProof)
    requires TreeOf(t, t.key, t.data) && Below(Elements(leafIndices), ChunkCount(|t.data|))
    requires p.leafIndices == Ascending(Elements(leafIndices), ChunkCount(|t.data|)) &&
      p.totalLeaves == ChunkCount(|t.data|)
    requires |p.leafData| == |p.leafIndices|
      && forall k | 0 <= k < |p.leafData| ::
        p.leafIndices[k] < ChunkCount(|t.data|) && p.leafData[k] == ProofLeaf(t.data, p.leafIndices[k])
    requires t.layers[|t.layers| - 1] != [] && p.root == t.RootDigest()
    requires p.siblings == Siblings(t.key, LeafCvs(t.key, t.data), Elements(leafIndices))
    ensures p == HonestProof(t.key, t.data, Elements(leafIndices))
  {
    TreeRoot(t);
    hide TreeOf, ProofLeaf, LeafCvs, Ascending, TopRoot, Siblings, Elements, ChunkCount;
    assert p.leafData == HonestProof(t.key, t.data, Elements(leafIndices)).leafData;
  }

  lemma TreeRoot(t: MerkleTree)
    requires TreeOf(t, t.key, t.data) && t.layers != [] && t.layers[|t.layers| - 1] != []
    ensures |t.data| > 1024 && t.RootDigest() == TopRoot(t.key, LeafCvs(t.key, t.data))
  {
    TopRootOfLayer(t.key, LeafCvs(t.key, t.data), |t.layers| - 2);
    hide LeafCvs, TopRoot, Layer;
  }

  lemma OneProofShape(t: MerkleTree, leafIndices: seq<nat>, p: MerkleProof)
    requires OneChunkTree(t) && leafIndices != [] && AllBelow(leafIndices, 1) && ChunkCount(|t.data|) == 1
    requires p.leafIndices == Ascending(Elements(leafIndices), 1) && p.totalLeaves == 1
    requires |p.leafData| == |p.leafIndices| && forall k | 0 <= k < |p.leafData| ::
      p.leafIndices[k] < 1 && p.leafData[k] == ProofLeaf(t.data, p.leafIndices[k])
    requires p.root == t.RootDigest() && p.siblings == []
    ensures p == OneLeafProof(t.key, t.data)
  {
    hide ProofLeaf;
    assert leafIndices[0] == 0 && 0 in Elements(leafIndices);
    assert Ascending(Elements(leafIndices), 1) == [0] by {
      assert Ascending(Elements(leafIndices), 0) == [];
    }
    assert p.leafData == [ProofLeaf(t.data, 0)];
  }

  /** The one-chunk root is hashed as a root, the verifier hashes the leaf as a chunk: such a proof
      verifies under no key. */
  lemma OneLeafProofNeverVerifies(key: Key, data: seq<Byte>, key': Key)
    requires 0 < |data| <= 1024
    ensures SanityCheck(OneLeafProof(key, data)) && !Verifies(OneLeafProof(key, data), key')
  {
    hide ProofLeaf;
    var p := OneLeafProof(key, data);
    LeafMapStep(key', p.leafIndices, p.leafData);
  }

  lemma FirstLevel(key: Key, leaves: seq<Digest>, layers: seq<seq<Digest>>)
    requires LayersOf(key, leaves, layers)
    ensures layers != [] && layers[0] == Layer(key, leaves, 0) == leaves
  {
  }

  lemma NextLevel(key: Key, leaves: seq<Digest>, layers: seq<seq<Digest>>, level: nat)
    requires LayersOf(key, leaves, layers)
    requires level < |layers| && |layers[level]| > 1
    ensures level + 1 < |layers|
    ensures Layer(key, leaves, level + 1) == Combine(key, Layer(key, leaves, level))
    ensures |layers[level + 1]| == Half(|layers[level]|)
    ensures |layers[level + 1]| > 1 ==> layers[level + 1] == Layer(key, leaves, level + 1)
  {
    assert level != |layers| - 1;
    if level < |layers| - 2 {
      assert layers[level + 1] == Layer(key, leaves, level + 1);
    }
  }

  // ----- the verifier -----

  /** What `compute_root` does: it may also panic, on a one-leaf proof that does not open leaf 0. */
  datatype RootOutcome = Panics | Refused | Computed(root: Digest)

  /** The leaf map: indices and leaves are zipped, a later duplicate index wins. */
  function LeafMap(key: Key, indices: seq<nat>, data: seq<seq<Byte>>): (m: map<nat, Digest>) {
    if indices == [] || data == [] then map[]
    else if |indices| > |data| then LeafMap(key, indices[..|data|], data)
    else
      var k := |indices| - 1;
      LeafMap(key, indices[..k], data[..k])[indices[k] := Chunk(key, data[k], indices[k])]
  }

  function ScanBound(indices: seq<nat>, n: nat): (b: nat)
    ensures b >= n && AllBelow(indices, b)
    ensures AllBelow(indices, n) ==> b == n
  {
    if indices == [] then n else
      var b := ScanBound(indices[1..], n);
      assert forall k | 1 <= k < |indices| :: indices[k] == indices[1..][k - 1];
      if indices[0] < b then b else indices[0] + 1
  }

  function RootOfProof(p: MerkleProof, key: Key): (r: RootOutcome) {
    if p.leafIndices == [] then Refused else
      var current := LeafMap(key, p.leafIndices, p.leafData);
      if p.totalLeaves == 1 then
        if p.siblings != [] then Refused else if 0 in current then Computed(current[0]) else Panics
      else
        match RootFrom(key, current, ScanBound(p.leafIndices, p.totalLeaves), p.totalLeaves, p.siblings)
        case Some(root) => Computed(root)
        case None => Refused
  }

  predicate Verifies(p: MerkleProof, key: Key) {
    RootOfProof(p, key) == Computed(p.root)
  }

  predicate SanityCheck(p: MerkleProof) {
    && p.leafIndices != []
    && |p.leafIndices| == |p.leafData|
    && forall i | 0 <= i < |p.leafIndices| - 1 :: p.leafIndices[i] < p.leafIndices[i + 1]
  }

  method ComputeRoot(p: MerkleProof, key: Key) returns (r: RootOutcome)
    ensures r == RootOfProof(p, key)
  {
    if p.leafIndices == [] {
      return Refused;
    }
    var current: map<nat, Digest> := LeafMap(key, p.leafIndices, p.leafData);
    var levelLen: nat := p.totalLeaves;
    if levelLen == 1 {
      if p.siblings != [] {
        return Refused;
      }
      return if 0 in current then Computed(current[0]) else Panics;
    }
    var sibs := p.siblings;
    var bound := ScanBound(p.leafIndices, levelLen);
    ghost var result := RootFrom(key, current, bound, levelLen, sibs);
    while levelLen > 2
      invariant RootFrom(key, current, bound, levelLen, sibs) == result
    {
      var next: map<nat, Digest> := map[];
      ghost var folded := FoldFrom(key, current, levelLen, bound, 0, next, sibs);
      for i := 0 to bound
        invariant FoldFrom(key, current, levelLen, bound, i, next, sibs) == folded
      {
        if i in current {
          if i % 2 == 0 {
            if i + 1 in current {
              next := next[i / 2 := Parent(key, current[i], current[i + 1])];
            } else if i + 1 < levelLen {
              if sibs == [] {
                return Refused;
              }
              next, sibs := next[i / 2 := Parent(key, current[i], sibs[0])], sibs[1..];
            } else {
              next := next[i / 2 := current[i]];
            }
          } else if i - 1 !in current {
            if sibs == [] {
              return Refused;
            }
            next, sibs := next[i / 2 := Parent(key, sibs[0], current[i])], sibs[1..];
          }
        }
      }
      current := next;
      bound := (bound + 1) / 2;
      levelLen := (levelLen + 1) / 2;
    }
    var left, right;
    if 0 in current {
      left := current[0];
    } else {
      if sibs == [] {
        return Refused;
      }
      left, sibs := sibs[0], sibs[1..];
    }
    if 1 in current {
      right := current[1];
    } else {
      if sibs == [] {
        return Refused;
      }
      right, sibs := sibs[0], sibs[1..];
    }
    if sibs != [] {
      return Refused;
    }
    r := Computed(Root(key, left, right));
  }

  // ----- the leaf map of a well-formed proof -----

  lemma SaneLengths(p: MerkleProof)
    requires SanityCheck(p)
    ensures |p.leafIndices| == |p.leafData|
  {
  }

  lemma SaneIsIncreasing(p: MerkleProof)
    requires SanityCheck(p)
    ensures Increasing(p.leafIndices)
  {
    forall i, j | 0 <= i < j < |p.leafIndices|
      ensures p.leafIndices[i] < p.leafIndices[j]
    {
      StepsAddUp(p.leafIndices, i, j);
    }
  }

  lemma {:induction false} StepsAddUp(s: seq<nat>, i: nat, j: nat)
    requires forall k | 0 <= k < |s| - 1 :: s[k] < s[k + 1]
    requires i < j < |s|
    ensures s[i] < s[j]
  {
    if i + 1 < j {
      StepsAddUp(s, i, j - 1);
      assert s[j - 1] < s[j - 1 + 1];
    }
  }

  lemma LeafMapStep(key: Key, indices: seq<nat>, data: seq<seq<Byte>>)
    requires indices != [] && |indices| == |data|
    ensures var k := |indices| - 1;
      LeafMap(key, indices, data) ==
        LeafMap(key, indices[..k], data[..k])[indices[k] := Chunk(key, data[k], indices[k])]
  {
  }

  lemma ElementsStep(indices: seq<nat>)
    requires indices != []
    ensures var k := |indices| - 1; Elements(indices) == Elements(indices[..k]) + {indices[k]}
  {
    var k := |indices| - 1;
    assert indices == indices[..k] + [indices[k]];
  }

  lemma {:induction false} LeafMapAt(key: Key, indices: seq<nat>, data: seq<seq<Byte>>)
    requires Increasing(indices) && |indices| == |data|
    ensures LeafMap(key, indices, data).Keys == Elements(indices)
    ensures forall k | 0 <= k < |indices| :: LeafMap(key, indices, data)[indices[k]] == Chunk(key, data[k], indices[k])
  {
    if indices != [] {
      var k := |indices| - 1;
      var front, last := indices[..k], indices[k];
      LeafMapAt(key, front, data[..k]);
      LeafMapStep(key, indices, data);
      hide LeafMap;
      ElementsStep(indices);
      var m := LeafMap(key, front, data[..k]);
      forall j | 0 <= j < k ensures m[last := Chunk(key, data[k], last)][indices[j]] ==
        Chunk(key, data[j], indices[j]) {
        assert front[j] == indices[j] < last;
      }
    }
  }

  // ----- completeness and binding of whole proofs -----

  ghost predicate InRange(p: MerkleProof, n: nat) {
    AllBelow(p.leafIndices, n)
  }

  /** The proof's leaves are the committed chunks. */
  ghost predicate LeavesCommitted(p: MerkleProof, data: seq<Byte>)
    requires |p.leafIndices| == |p.leafData|
  {
    forall k | 0 <= k < |p.leafIndices| ::
      p.leafIndices[k] < ChunkCount(|data|) && p.leafData[k] == ChunkBytes(data, p.leafIndices[k])
  }

  lemma SaneInRange(p: MerkleProof, key: Key, n: nat)
    requires SanityCheck(p) && InRange(p, n) && p.totalLeaves == n >= 2
    ensures Increasing(p.leafIndices) && p.leafIndices == Ascending(Elements(p.leafIndices), n)
    ensures var cur := LeafMap(key, p.leafIndices, p.leafData);
      && cur != map[] && cur.Keys == Elements(p.leafIndices) && Below(cur.Keys, n)
      && (Verifies(p, key) <==> RootFrom(key, cur, n, n, p.siblings) == Some(p.root))
  {
    SaneIsIncreasing(p);
    IncreasingIsAscending(p.leafIndices, n);
    LeafMapAt(key, p.leafIndices, p.leafData);
    assert p.leafIndices[0] in LeafMap(key, p.leafIndices, p.leafData);
  }

  /** Chunk k of the proof hashes to its entry of the table. */
  ghost predicate LeafIsTabled(p: MerkleProof, key: Key, cvs: seq<Digest>, k: nat)
    requires k < |p.leafIndices| == |p.leafData|
  {
    p.leafIndices[k] < |cvs| && Chunk(key, p.leafData[k], p.leafIndices[k]) == cvs[p.leafIndices[k]]
  }

  /** The leaf map of a proof is the table at its indices exactly when every chunk is. */
  lemma KnownIs(p: MerkleProof, key: Key, cvs: seq<Digest>, s: set<nat>)
    requires SanityCheck(p) && Elements(p.leafIndices) == s && Below(s, |cvs|)
    ensures LeafMap(key, p.leafIndices, p.leafData) == Known(s, cvs) <==>
      forall k | 0 <= k < |p.leafIndices| :: LeafIsTabled(p, key, cvs, k)
  {
    SaneIsIncreasing(p);
    LeafMapAt(key, p.leafIndices, p.leafData);
    hide LeafMap, Increasing;
    var m, known := LeafMap(key, p.leafIndices, p.leafData), Known(s, cvs);
    forall k | 0 <= k < |p.leafIndices|
      ensures p.leafIndices[k] in s &&
        (LeafIsTabled(p, key, cvs, k) <==> m[p.leafIndices[k]] == known[p.leafIndices[k]])
    {
      assert p.leafIndices[k] in s;
    }
    if forall k | 0 <= k < |p.leafIndices| :: LeafIsTabled(p, key, cvs, k) {
      forall i | i in m ensures m[i] == known[i] {
        var k :| 0 <= k < |p.leafIndices| && p.leafIndices[k] == i;
        assert LeafIsTabled(p, key, cvs, k);
      }
    }
  }

  /** The leaves of p, hashed under key, are the leaf nodes of the tree over data. */
  lemma LeavesMatch(key: Key, data: seq<Byte>, p: MerkleProof)
    requires |data| > 1024 && SanityCheck(p) && p.totalLeaves == ChunkCount(|data|)
    requires InRange(p, ChunkCount(|data|))
    ensures Below(Elements(p.leafIndices), ChunkCount(|data|))
    ensures LeafMap(key, p.leafIndices, p.leafData) == Known(Elements(p.leafIndices), LeafCvs(key, data))
       <==> LeavesCommitted(p, data)
  {
    KnownIs(p, key, LeafCvs(key, data), Elements(p.leafIndices));
    hide LeafMap, Known, ChunkBytes, ChunkCount;
    forall k | 0 <= k < |p.leafIndices|
      ensures p.leafIndices[k] < ChunkCount(|data|)
      ensures LeafIsTabled(p, key, LeafCvs(key, data), k) <==> p.leafData[k] == ChunkBytes(data, p.leafIndices[k])
    {
    }
  }

  /** Binding: a well-formed in-range proof that carries the root and the leaf count of the tree
      over `data` verifies, under whatever key, exactly when the key is the tree's key, its
      leaves are the committed chunks and its siblings are those the prover emits. */
  lemma ProofVerifiesExactlyWhenTrue(key: Key, data: seq<Byte>, p: MerkleProof, key': Key)
    requires |data| > 1024 && SanityCheck(p) && InRange(p, ChunkCount(|data|))
    requires p.totalLeaves == ChunkCount(|data|) && p.root == Blake3Root(key, data)
    ensures Below(Elements(p.leafIndices), ChunkCount(|data|))
    ensures Verifies(p, key') <==>
      && key' == key
      && LeavesCommitted(p, data)
      && p.siblings == Siblings(key, LeafCvs(key, data), Elements(p.leafIndices))
  {
    var leaves := LeafCvs(key, data);
    var s := Elements(p.leafIndices);
    TopRootIsLeftBalanced(key, leaves);
    SaneInRange(p, key', |leaves|);
    LeavesMatch(key, data, p);
    var cur := LeafMap(key', p.leafIndices, p.leafData);
    if Verifies(p, key') {
      RootBinds(key, leaves, key', cur, p.siblings);
    }
    if key' == key && cur == Known(s, leaves) && p.siblings == Siblings(key, leaves, s) {
      HonestProofFolds(key, leaves, s);
    }
  }

  lemma PaddedLeaf(data: seq<Byte>, i: nat)
    requires i < ChunkCount(|data|)
    ensures ProofLeaf(data, i) == ChunkBytes(data, i) <==> |data| % 1024 == 0 || i < ChunkCount(|data|) - 1
  {
  }

  lemma HonestLeavesCommitted(key: Key, data: seq<Byte>, s: set<nat>)
    requires |data| > 1024 && Below(s, ChunkCount(|data|))
    ensures LeavesCommitted(HonestProof(key, data, s), data) <==>
      |data| % 1024 == 0 || ChunkCount(|data|) - 1 !in s
  {
    var p := HonestProof(key, data, s);
    hide ProofLeaf, ChunkBytes, Siblings, TopRoot, ChunkCount;
    forall k | 0 <= k < |p.leafIndices|
      ensures p.leafData[k] == ChunkBytes(data, p.leafIndices[k]) <==>
        |data| % 1024 == 0 || p.leafIndices[k] != ChunkCount(|data|) - 1
    {
      PaddedLeaf(data, p.leafIndices[k]);
    }
    var last := ChunkCount(|data|) - 1;
    if last in s && |data| % 1024 != 0 {
      assert last in p.leafIndices;
    }
  }

  /** Completeness, exactly: the prover's own proof verifies unless it opens a short last chunk,
      which it pads but the tree hashed unpadded. */
  lemma HonestProofVerifiesExactly(key: Key, data: seq<Byte>, s: set<nat>)
    requires |data| > 1024 && s != {} && Below(s, ChunkCount(|data|))
    ensures SanityCheck(HonestProof(key, data, s))
    ensures Verifies(HonestProof(key, data, s), key) <==>
      |data| % 1024 == 0 || ChunkCount(|data|) - 1 !in s
  {
    var p := HonestProof(key, data, s);
    var first :| first in s;
    assert first in p.leafIndices;
    assert Elements(p.leafIndices) == s;
    TopRootIsLeftBalanced(key, LeafCvs(key, data));
    hide Siblings, TopRoot, LeafCvs, Blake3Root, Verifies;
    ProofVerifiesExactlyWhenTrue(key, data, p, key);
    HonestLeavesCommitted(key, data, s);
  }

  /** Over chunk-aligned data a verifying proof is the prover's proof. */
  lemma VerifiedProofIsHonest(key: Key, data: seq<Byte>, p: MerkleProof, key': Key)
    requires |data| > 1024 && |data| % 1024 == 0 && SanityCheck(p) && InRange(p, ChunkCount(|data|))
    requires p.totalLeaves == ChunkCount(|data|) && p.root == Blake3Root(key, data)
    ensures Below(Elements(p.leafIndices), ChunkCount(|data|))
    ensures Verifies(p, key') <==> key' == key && p == HonestProof(key, data, Elements(p.leafIndices))
  {
    hide *;
    ProofVerifiesExactlyWhenTrue(key, data, p, key');
    SaneIsIncreasing(p);
    SaneLengths(p);
    RangeIs(p, p.totalLeaves);
    IncreasingIsAscending(p.leafIndices, p.totalLeaves);
    var h := HonestProof(key, data, Elements(p.leafIndices));
    HonestParts(key, data, Elements(p.leafIndices));
    LeavesAreHonest(data, p, h);
  }

  lemma RangeIs(p: MerkleProof, n: nat)
    ensures InRange(p, n) <==> AllBelow(p.leafIndices, n)
  {
  }

  lemma HonestParts(key: Key, data: seq<Byte>, s: set<nat>)
    requires |data| > 1024 && |data| % 1024 == 0 && Below(s, ChunkCount(|data|))
    ensures var h := HonestProof(key, data, s);
      && h.leafIndices == Ascending(s, ChunkCount(|data|)) && |h.leafData| == |h.leafIndices|
      && h.totalLeaves == ChunkCount(|data|) && h.root == Blake3Root(key, data)
      && h.siblings == Siblings(key, LeafCvs(key, data), s) && LeavesCommitted(h, data)
  {
    HonestLeavesCommitted(key, data, s);
    TopRootIsLeftBalanced(key, LeafCvs(key, data));
    hide Siblings, TopRoot, ProofLeaf, Ascending, LeavesCommitted;
  }

  /** Two proofs of the same committed leaves carry the same bytes. */
  lemma LeavesAreHonest(data: seq<Byte>, p: MerkleProof, h: MerkleProof)
    requires |p.leafData| == |p.leafIndices| && |h.leafData| == |h.leafIndices| && p.leafIndices == h.leafIndices
    requires LeavesCommitted(h, data)
    ensures LeavesCommitted(p, data) <==> p.leafData == h.leafData
  {
    hide ChunkBytes;
  }
}
