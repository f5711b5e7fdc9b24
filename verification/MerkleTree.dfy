/** The bottom-up Merkle tree and the left-balanced tree it computes. */
module MerkleTrees {
  import opened Digests

  // ----- the layers, as the code pairs them -----

  function Half(n: nat): (h: nat)
    ensures 2 <= n ==> 0 < h < n
  {
    (n + 1) / 2
  }

  /** How many layers of more than one node a tree of n leaves has. */
  function Depth(n: nat): (d: nat)
    decreases n
  {
    if n <= 1 then 0 else 1 + Depth(Half(n))
  }

  /** The other node of a pair. */
  function Sibling(i: nat): (j: nat) {
    if i % 2 == 0 then i + 1 else i - 1
  }

  /** One layer up: adjacent nodes are paired and an odd last node is promoted unchanged. */
  function Combine(key: Key, prev: seq<Digest>): (next: seq<Digest>)
    ensures |next| == Half(|prev|)
  {
    seq(Half(|prev|), i requires 0 <= i < Half(|prev|) =>
      if 2 * i + 1 < |prev| then Parent(key, prev[2 * i], prev[2 * i + 1]) else prev[2 * i])
  }

  function Layer(key: Key, leaves: seq<Digest>, k: nat): (layer: seq<Digest>)
    ensures leaves != [] ==> layer != []
    ensures |layer| <= |leaves|
  {
    if k == 0 then leaves else Combine(key, Layer(key, leaves, k - 1))
  }

  lemma LayerZero(key: Key, leaves: seq<Digest>)
    ensures Layer(key, leaves, 0) == leaves
  {
  }

  /** The root over a layer of at least two nodes. */
  function TopRoot(key: Key, layer: seq<Digest>): (root: Digest)
    requires |layer| >= 2
    ensures root.Root? && root.key == key
    decreases |layer|
  {
    if |layer| == 2 then Root(key, layer[0], layer[1]) else TopRoot(key, Combine(key, layer))
  }

  // ----- the tree of section 2.1 of the BLAKE3 paper -----

  predicate IsPow2(n: nat) {
    n == 1 || (n > 1 && n % 2 == 0 && IsPow2(n / 2))
  }

  function Pow2(k: nat): (p: nat)
    ensures p >= 1
  {
    if k == 0 then 1 else 2 * Pow2(k - 1)
  }

  /** The size of the left subtree: the largest power of two below n. */
  function Split(n: nat): (p: nat)
    requires n >= 2
    ensures 0 < p < n <= 2 * p
  {
    if n == 2 then 1 else 2 * Split(Half(n))
  }

  lemma {:induction false} SplitIsPow2(n: nat, k: nat)
    requires n >= 2
    ensures Pow2(k) < n <= 2 * Pow2(k) <==> Split(n) == Pow2(k)
  {
    if n > 2 && k > 0 {
      SplitIsPow2(Half(n), k - 1);
    }
  }

  /** The non-root chaining value of a left-balanced subtree. */
  function Subtree(key: Key, leaves: seq<Digest>): (cv: Digest)
    requires leaves != []
    decreases |leaves|
  {
    if |leaves| == 1 then leaves[0] else
      var p := Split(|leaves|);
      Parent(key, Subtree(key, leaves[..p]), Subtree(key, leaves[p..]))
  }

  /** The BLAKE3 root of `data`. */
  function Blake3Root(key: Key, data: seq<Byte>): (root: Digest) {
    if |data| <= 1024 then RootChunk(key, data) else
      var leaves := LeafCvs(key, data);
      var p := Split(|leaves|);
      Root(key, Subtree(key, leaves[..p]), Subtree(key, leaves[p..]))
  }

  // ----- the layers are that tree -----

  /** The first leaf under node (k, i): i * 2^k, see `FirstLeafIsProduct`. */
  function FirstLeaf(k: nat, i: nat): (s: nat) {
    if k == 0 then i else FirstLeaf(k - 1, 2 * i)
  }

  /** One past the last leaf under node (k, i) of a tree with n leaves. */
  function NodeEnd(n: nat, k: nat, i: nat): (e: nat)
    ensures e <= n
  {
    if FirstLeaf(k, i + 1) <= n then FirstLeaf(k, i + 1) else n
  }

  lemma Doubled(i: nat, p: nat)
    ensures (2 * i) * p == i * (2 * p)
  {
  }

  lemma {:induction false} FirstLeafIsProduct(k: nat, i: nat)
    ensures FirstLeaf(k, i) == i * Pow2(k)
  {
    if k > 0 {
      FirstLeafIsProduct(k - 1, 2 * i);
      Doubled(i, Pow2(k - 1));
    }
  }

  lemma {:induction false} FirstLeafStep(k: nat, i: nat)
    ensures FirstLeaf(k, i + 1) == FirstLeaf(k, i) + Pow2(k)
  {
    if k > 0 {
      FirstLeafStep(k - 1, 2 * i);
      FirstLeafStep(k - 1, 2 * i + 1);
      assert 2 * (i + 1) == 2 * i + 2;
    }
  }

  lemma {:induction false} FirstLeafMonotone(k: nat, i: nat, j: nat)
    requires i <= j
    ensures FirstLeaf(k, i) <= FirstLeaf(k, j)
  {
    if k > 0 {
      FirstLeafMonotone(k - 1, 2 * i, 2 * j);
    }
  }

  /** Layer k has just enough nodes to cover the leaves. */
  lemma {:induction false} LayerLength(key: Key, leaves: seq<Digest>, k: nat)
    requires leaves != []
    ensures var m := |Layer(key, leaves, k)|;
      FirstLeaf(k, m - 1) < |leaves| <= FirstLeaf(k, m)
  {
    if k > 0 {
      LayerLength(key, leaves, k - 1);
      var m, h := |Layer(key, leaves, k - 1)|, |Layer(key, leaves, k)|;
      FirstLeafMonotone(k - 1, 2 * (h - 1), m - 1);
      FirstLeafMonotone(k - 1, m, 2 * h);
    }
  }

  /** The leaves under node (k, i). */
  function NodeLeaves(leaves: seq<Digest>, k: nat, i: nat): (span: seq<Digest>)
    requires FirstLeaf(k, i) < |leaves|
    ensures span != []
  {
    FirstLeafStep(k, i);
    leaves[FirstLeaf(k, i) .. NodeEnd(|leaves|, k, i)]
  }

  lemma NodeInRange(key: Key, leaves: seq<Digest>, k: nat, i: nat)
    requires i < |Layer(key, leaves, k)|
    ensures FirstLeaf(k, i) < |leaves|
  {
    LayerLength(key, leaves, k);
    FirstLeafMonotone(k, i, |Layer(key, leaves, k)| - 1);
  }

  /** Node (k, i) is the left-balanced subtree over leaves [i * 2^k, min((i + 1) * 2^k, n)). */
  lemma {:induction false} NodeIsSubtree(key: Key, leaves: seq<Digest>, k: nat, i: nat)
    requires i < |Layer(key, leaves, k)|
    ensures FirstLeaf(k, i) < |leaves|
    ensures Layer(key, leaves, k)[i] == Subtree(key, NodeLeaves(leaves, k, i))
    decreases k
  {
    hide *;
    NodeInRange(key, leaves, k, i);
    if k > 0 {
      LayerNode(key, leaves, k, i);
      NodeIsSubtree(key, leaves, k - 1, 2 * i);
      if 2 * i + 1 < |Layer(key, leaves, k - 1)| {
        NodeIsSubtree(key, leaves, k - 1, 2 * i + 1);
        NodeSplits(leaves, k, i);
        SubtreeSplits(key, NodeLeaves(leaves, k, i));
      } else {
        NodePromoted(key, leaves, k, i);
        NodeLeavesAre(leaves, k, i);
        NodeLeavesAre(leaves, k - 1, 2 * i);
      }
    } else {
      BaseNode(key, leaves, i);
    }
  }

  /** A node of a layer in terms of the layer below. */
  lemma LayerNode(key: Key, leaves: seq<Digest>, k: nat, i: nat)
    requires k > 0 && i < |Layer(key, leaves, k)|
    ensures var prev := Layer(key, leaves, k - 1);
      && 2 * i < |prev| <= 2 * |Layer(key, leaves, k)|
      && (2 * i + 1 < |prev| ==> Layer(key, leaves, k)[i] == Parent(key, prev[2 * i], prev[2 * i + 1]))
      && (2 * i + 1 >= |prev| ==> |prev| == 2 * i + 1 && Layer(key, leaves, k)[i] == prev[2 * i])
  {
  }

  lemma SubtreeSplits(key: Key, leaves: seq<Digest>)
    requires |leaves| >= 2
    ensures var p := Split(|leaves|);
      Subtree(key, leaves) == Parent(key, Subtree(key, leaves[..p]), Subtree(key, leaves[p..]))
  {
    hide Split;
  }

  lemma BaseNode(key: Key, leaves: seq<Digest>, i: nat)
    requires i < |Layer(key, leaves, 0)|
    ensures FirstLeaf(0, i) == i < |leaves| && NodeLeaves(leaves, 0, i) == [leaves[i]]
    ensures Layer(key, leaves, 0)[i] == Subtree(key, NodeLeaves(leaves, 0, i))
  {
  }

  lemma NodeLeavesAre(leaves: seq<Digest>, k: nat, i: nat)
    requires FirstLeaf(k, i) < |leaves|
    ensures FirstLeaf(k, i) < NodeEnd(|leaves|, k, i)
    ensures NodeLeaves(leaves, k, i) == leaves[FirstLeaf(k, i) .. NodeEnd(|leaves|, k, i)]
  {
    FirstLeafStep(k, i);
  }

  /** The two halves of node (k, i), in leaf numbers. */
  lemma NodeBounds(n: nat, k: nat, i: nat)
    requires k > 0 && FirstLeaf(k - 1, 2 * i + 1) < n
    ensures var lo, q := FirstLeaf(k, i), Pow2(k - 1);
      && FirstLeaf(k - 1, 2 * i) == lo && FirstLeaf(k - 1, 2 * i + 1) == lo + q
      && NodeEnd(n, k - 1, 2 * i) == lo + q && NodeEnd(n, k - 1, 2 * i + 1) == NodeEnd(n, k, i)
      && q < NodeEnd(n, k, i) - lo <= 2 * q
  {
    FirstLeafStep(k - 1, 2 * i);
    FirstLeafStep(k - 1, 2 * i + 1);
    assert 2 * (i + 1) == 2 * i + 1 + 1;
  }

  lemma NodeSplits(leaves: seq<Digest>, k: nat, i: nat)
    requires k > 0 && FirstLeaf(k - 1, 2 * i + 1) < |leaves|
    ensures FirstLeaf(k, i) < |leaves| && FirstLeaf(k - 1, 2 * i) < |leaves|
    ensures var whole := NodeLeaves(leaves, k, i);
      && |whole| >= 2
      && whole[..Split(|whole|)] == NodeLeaves(leaves, k - 1, 2 * i)
      && whole[Split(|whole|)..] == NodeLeaves(leaves, k - 1, 2 * i + 1)
  {
    NodeBounds(|leaves|, k, i);
    hide *;
    var lo, q := FirstLeaf(k, i), Pow2(k - 1);
    var whole := NodeLeaves(leaves, k, i);
    NodeLeavesAre(leaves, k, i);
    NodeLeavesAre(leaves, k - 1, 2 * i);
    NodeLeavesAre(leaves, k - 1, 2 * i + 1);
    SplitIsPow2(|whole|, k - 1);
    assert whole[..q] == leaves[lo .. lo + q];
    assert whole[q..] == leaves[lo + q .. lo + |whole|];
  }

  lemma NodePromoted(key: Key, leaves: seq<Digest>, k: nat, i: nat)
    requires k > 0 && leaves != [] && |Layer(key, leaves, k - 1)| == 2 * i + 1
    ensures FirstLeaf(k, i) == FirstLeaf(k - 1, 2 * i) < |leaves|
    ensures NodeEnd(|leaves|, k, i) == NodeEnd(|leaves|, k - 1, 2 * i) == |leaves|
  {
    LayerLength(key, leaves, k - 1);
    FirstLeafMonotone(k - 1, 2 * i + 1, 2 * (i + 1));
  }

  /** The root over layer k does not depend on k. */
  lemma {:induction false} TopRootOfLayer(key: Key, leaves: seq<Digest>, k: nat)
    requires |Layer(key, leaves, k)| >= 2
    ensures |leaves| >= 2 && TopRoot(key, Layer(key, leaves, k)) == TopRoot(key, leaves)
  {
    if k > 0 {
      TopRootOfLayer(key, leaves, k - 1);
    }
  }

  lemma {:induction false} TopRootIsRootOfTwo(key: Key, leaves: seq<Digest>, k: nat)
    requires |Layer(key, leaves, k)| == 2
    ensures |leaves| >= 2
    ensures var p := Split(|leaves|);
      TopRoot(key, leaves) == Root(key, Subtree(key, leaves[..p]), Subtree(key, leaves[p..]))
  {
    TopRootOfLayer(key, leaves, k);
    NodeIsSubtree(key, leaves, k, 0);
    NodeIsSubtree(key, leaves, k, 1);
    LayerLength(key, leaves, k);
    FirstLeafIsProduct(k, 0);
    NodeSplits(leaves, k + 1, 0);
    assert NodeLeaves(leaves, k + 1, 0) == leaves;
  }

  lemma {:induction false} TwoNodeLayer(key: Key, leaves: seq<Digest>, k: nat) returns (m: nat)
    requires |Layer(key, leaves, k)| >= 2
    ensures |Layer(key, leaves, m)| == 2
    decreases |Layer(key, leaves, k)|
  {
    if |Layer(key, leaves, k)| == 2 {
      m := k;
    } else {
      m := TwoNodeLayer(key, leaves, k + 1);
    }
  }

  /** Pairing bottom-up with promotion gives the left-balanced root for every leaf count above one. */
  lemma TopRootIsLeftBalanced(key: Key, leaves: seq<Digest>)
    requires |leaves| >= 2
    ensures var p := Split(|leaves|);
      TopRoot(key, leaves) == Root(key, Subtree(key, leaves[..p]), Subtree(key, leaves[p..]))
  {
    var k := TwoNodeLayer(key, leaves, 0);
    TopRootIsRootOfTwo(key, leaves, k);
  }

  // ----- construction -----

  datatype MerkleTree = MerkleTree(key: Key, layers: seq<seq<Digest>>, data: seq<Byte>) {
    /** The root: the one node of the last layer. The source panics on the empty tree, whose last layer
        is empty. */
    function RootDigest(): (r: Digest)
      requires layers != [] && layers[|layers| - 1] != []
    {
      layers[|layers| - 1][0]
    }

    function NumLeaves(): nat
      requires layers != []
    {
      |layers[0]|
    }
  }

  /** Layers 0 .. m are the pairing layers, layer m has two nodes, and above it is the root. */
  ghost predicate LayersOf(key: Key, leaves: seq<Digest>, layers: seq<seq<Digest>>) {
    && |layers| >= 2
    && (forall k | 0 <= k < |layers| - 1 :: layers[k] == Layer(key, leaves, k))
    && |layers[|layers| - 2]| == 2
    && layers[|layers| - 1] == [TopRoot(key, layers[|layers| - 2])]
  }

  /** What `BuildTree` returns for data of more than one chunk. */
  ghost predicate TreeOf(t: MerkleTree, key: Key, data: seq<Byte>) {
    t.key == key && t.data == data && |data| > 1024 && LayersOf(key, LeafCvs(key, data), t.layers)
  }

  /** Fills one 64-chunk segment of the leaf table. */
  method ProcessSegment(key: Key, data: seq<Byte>, segment: nat, cvs: array<Digest>)
    requires cvs.Length == ChunkCount(|data|)
    requires segment * 64 < cvs.Length
    modifies cvs
    ensures forall i | 0 <= i < cvs.Length ::
      cvs[i] == if segment * 64 <= i < (segment + 1) * 64 then LeafCvs(key, data)[i] else old(cvs[i])
  {
    hide LeafCvs, ChunkBytes;
    var startChunk := segment * 64;
    var startByte := startChunk * 1024;
    var endByte := if (segment + 1) * 65536 <= |data| then (segment + 1) * 65536 else |data|;
    var segmentData := data[startByte..endByte];
    var numFull := |segmentData| / 1024;
    for i := 0 to numFull
      invariant forall j | 0 <= j < cvs.Length ::
        cvs[j] == if startChunk <= j < startChunk + i then LeafCvs(key, data)[j] else old(cvs[j])
    {
      SegmentChunk(key, data, startByte, endByte, startChunk, i, (i + 1) * 1024);
      cvs[startChunk + i] := Chunk(key, segmentData[i * 1024..(i + 1) * 1024], startChunk + i);
    }
    if |segmentData| % 1024 != 0 {
      SegmentChunk(key, data, startByte, endByte, startChunk, numFull, |segmentData|);
      cvs[startChunk + numFull] := Chunk(key, segmentData[numFull * 1024..], startChunk + numFull);
    }
  }

  /** A chunk of the segment, full or the data's short last, is that chunk of the data. */
  lemma SegmentChunk(key: Key, data: seq<Byte>, from: nat, to: nat, first: nat, i: nat, end: nat)
    requires from <= to <= |data| && from == first * 1024 && i * 1024 < end <= to - from
    requires end == (i + 1) * 1024 || (end < (i + 1) * 1024 && from + end == |data|)
    ensures first + i < ChunkCount(|data|)
    ensures Chunk(key, data[from..to][i * 1024..end], first + i) == LeafCvs(key, data)[first + i]
  {
    SliceOfSlice(data, from, to, i * 1024, end);
    assert from + i * 1024 == (first + i) * 1024;
  }

  /** The leaf table, whatever order the segments are processed in. */
  method HashChunks(key: Key, data: seq<Byte>, order: seq<nat>) returns (cvs: seq<Digest>)
    requires forall s | s in order :: s * 64 < ChunkCount(|data|)
    requires forall s: nat | s * 64 < ChunkCount(|data|) :: s in order
    ensures cvs == LeafCvs(key, data)
  {
    if data == [] {
      return [];
    }
    var all := new Digest[ChunkCount(|data|)](_ => Junk(Zeros(32)));
    for n := 0 to |order|
      invariant forall i | 0 <= i < all.Length && i / 64 in order[..n] :: all[i] == LeafCvs(key, data)[i]
    {
      assert order[n] in order;
      ProcessSegment(key, data, order[n], all);
      assert order[..n + 1] == order[..n] + [order[n]];
    }
    assert order[..|order|] == order;
    forall i | 0 <= i < all.Length
      ensures all[i] == LeafCvs(key, data)[i]
    {
      assert (i / 64) * 64 < ChunkCount(|data|);
    }
    cvs := all[..];
  }

  ghost predicate LayerPrefix(key: Key, leaves: seq<Digest>, layers: seq<seq<Digest>>) {
    layers != [] && forall k | 0 <= k < |layers| :: layers[k] == Layer(key, leaves, k)
  }

  lemma LayerPrefixGrows(key: Key, leaves: seq<Digest>, layers: seq<seq<Digest>>)
    requires LayerPrefix(key, leaves, layers)
    ensures LayerPrefix(key, leaves, layers + [Combine(key, layers[|layers| - 1])])
  {
    hide Combine;
    assert Layer(key, leaves, |layers|) == Combine(key, layers[|layers| - 1]);
  }

  lemma LayersComplete(key: Key, leaves: seq<Digest>, layers: seq<seq<Digest>>)
    requires LayerPrefix(key, leaves, layers) && |layers[|layers| - 1]| == 2
    ensures var last := layers[|layers| - 1];
      && LayersOf(key, leaves, layers + [[Root(key, last[0], last[1])]])
      && |leaves| >= 2 && Root(key, last[0], last[1]) == TopRoot(key, leaves)
  {
    var last := layers[|layers| - 1];
    TopOfPair(key, last);
    PrefixAt(key, leaves, layers, |layers| - 1);
    TopRootOfLayer(key, leaves, |layers| - 1);
    var full := layers + [[Root(key, last[0], last[1])]];
    hide Layer, Combine, TopRoot;
    assert full[|full| - 2] == last;
    assert forall k | 0 <= k < |layers| :: full[k] == layers[k];
  }

  lemma TopOfPair(key: Key, pair: seq<Digest>)
    requires |pair| == 2
    ensures TopRoot(key, pair) == Root(key, pair[0], pair[1])
  {
  }

  lemma PrefixAt(key: Key, leaves: seq<Digest>, layers: seq<seq<Digest>>, k: nat)
    requires LayerPrefix(key, leaves, layers) && k < |layers|
    ensures layers[k] == Layer(key, leaves, k)
  {
    hide Layer;
  }

  /** Pairs layers until two nodes remain and puts their root on top. */
  method BuildLayers(key: Key, leaves: seq<Digest>) returns (layers: seq<seq<Digest>>)
    requires |leaves| >= 2
    ensures LayersOf(key, leaves, layers)
    ensures layers[|layers| - 1] == [TopRoot(key, leaves)]
  {
    hide Combine, TopRoot;
    layers := [leaves];
    assert LayerPrefix(key, leaves, layers);
    hide LayerPrefix, LayersOf, Layer;
    while |layers[|layers| - 1]| > 2
      invariant layers != []
      invariant LayerPrefix(key, leaves, layers)
      invariant |layers[|layers| - 1]| >= 2
      decreases |layers[|layers| - 1]|
    {
      LayerPrefixGrows(key, leaves, layers);
      layers := layers + [Combine(key, layers[|layers| - 1])];
    }
    var last := layers[|layers| - 1];
    LayersComplete(key, leaves, layers);
    layers := layers + [[Root(key, last[0], last[1])]];
  }

  /** `order` is the order in which the parallel leaf pass runs its segments. */
  method BuildTree(data: seq<Byte>, key: Key, order: seq<nat>) returns (t: MerkleTree)
    requires forall s | s in order :: s * 64 < ChunkCount(|data|)
    requires forall s: nat | s * 64 < ChunkCount(|data|) :: s in order
    ensures data == [] ==> t == MerkleTree(key, [[]], [])
    ensures 0 < |data| <= 1024 ==> t == MerkleTree(key, [[RootChunk(key, data)]], data)
    ensures |data| > 1024 ==> TreeOf(t, key, data)
    ensures data != [] ==> t.layers != [] && t.layers[|t.layers| - 1] == [Blake3Root(key, data)]
  {
    if data == [] {
      return MerkleTree(key, [[]], []);
    }
    if |data| <= 1024 {
      return MerkleTree(key, [[RootChunk(key, data)]], data);
    }
    var leaves := HashChunks(key, data, order);
    var layers := BuildLayers(key, leaves);
    TopRootIsLeftBalanced(key, leaves);
    t := MerkleTree(key, layers, data);
  }
}
