/** Audit openings: independent leaf-to-root paths in a tree with a power-of-two leaf count.
    A 32-byte slot of the flat sibling buffer holds one digest.
 */
module Audit {
  import opened Digests
  import opened MerkleTrees
  import opened Blake3
  import opened SeedExpansion
  import opened ProofVerification

  // ----- paths -----

  function Log2(n: nat): (k: nat) {
    if n <= 1 then 0 else 1 + Log2(n / 2)
  }

  /** i shifted right by k bits. */
  function Shift(i: nat, k: nat): (j: nat) {
    if k == 0 then i else Shift(i / 2, k - 1)
  }

  /** The siblings met on the way from node i of a level to the root. */
  function Path(key: Key, level: seq<Digest>, i: nat): (path: seq<Digest>)
    requires IsPow2(|level|) && i < |level|
    ensures |path| == Log2(|level|)
    decreases |level|
  {
    if |level| == 1 then [] else [level[Sibling(i)]] + Path(key, Combine(key, level), i / 2)
  }

  /** Folding a node with the siblings above it; the last combination is the root's. */
  function FoldPath(key: Key, node: Digest, i: nat, path: seq<Digest>): (root: Digest)
    requires path != []
    ensures root.Root?
    decreases |path|
  {
    var (left, right) := if i % 2 == 0 then (node, path[0]) else (path[0], node);
    if |path| == 1 then Root(key, left, right) else FoldPath(key, Parent(key, left, right), i / 2, path[1..])
  }

  /** A parent equals the level's parent above `i` exactly when its key and both halves do. */
  lemma PairBinds(key: Key, level: seq<Digest>, i: nat, key': Key, node: Digest, other: Digest)
    requires |level| >= 2 && i < |level| && Sibling(i) < |level|
    ensures var (left, right) := if i % 2 == 0 then (node, other) else (other, node);
      && (Parent(key', left, right) == Combine(key, level)[i / 2] <==>
          key' == key && node == level[i] && other == level[Sibling(i)])
      && (|level| == 2 ==> (Root(key', left, right) == TopRoot(key, level) <==>
          key' == key && node == level[i] && other == level[Sibling(i)]))
  {
  }

  lemma PathSplits(key: Key, level: seq<Digest>, i: nat)
    requires |level| >= 2 && IsPow2(|level|) && i < |level|
    ensures |level| % 2 == 0 && Sibling(i) < |level| && IsPow2(|Combine(key, level)|) && i / 2 < |Combine(key, level)|
    ensures |Combine(key, level)| < |level| && Log2(|level|) == 1 + Log2(|Combine(key, level)|)
    ensures Path(key, level, i) == [level[Sibling(i)]] + Path(key, Combine(key, level), i / 2)
    ensures |level| > 2 ==> |Combine(key, level)| >= 2 && TopRoot(key, level) == TopRoot(key, Combine(key, level))
    ensures |level| == 2 ==> Path(key, Combine(key, level), i / 2) == []
  {
  }

  /** A path of the right length folds to the root of the level exactly when it starts at the true
      node, under the tree's key, and holds the true siblings. */
  lemma {:induction false} PathBinds(key: Key, level: seq<Digest>, i: nat, key': Key, node: Digest, path: seq<Digest>)
    requires |level| >= 2 && IsPow2(|level|) && i < |level| && |path| == Log2(|level|)
    ensures FoldPath(key', node, i, path) == TopRoot(key, level) <==>
      key' == key && node == level[i] && path == Path(key, level, i)
    decreases |level|
  {
    var up := Combine(key, level);
    var (left, right) := if i % 2 == 0 then (node, path[0]) else (path[0], node);
    assert path == [path[0]] + path[1..];
    PathSplits(key, level, i);
    PairBinds(key, level, i, key', node, path[0]);
    if |level| > 2 {
      hide Combine, TopRoot, Path;
      PathBinds(key, up, i / 2, key', Parent(key', left, right), path[1..]);
    }
  }

  lemma {:induction false} LayerOfCombine(key: Key, level: seq<Digest>, k: nat)
    ensures Layer(key, Combine(key, level), k) == Layer(key, level, k + 1)
  {
    if k > 0 {
      LayerOfCombine(key, level, k - 1);
    }
  }

  lemma AnyLevel(n: nat, k: nat)
    requires k < Log2(n)
    ensures n >= 2
  {
  }

  lemma ShiftFirst(i: nat, k: nat)
    ensures k == 0 ==> Shift(i, k) == i
    ensures k > 0 ==> Shift(i, k) == Shift(i / 2, k - 1)
  {
  }

  /** Sibling k of the path is read at layer k, beside the k-th ancestor. */
  lemma {:induction false} PathAt(key: Key, level: seq<Digest>, i: nat, k: nat)
    requires IsPow2(|level|) && i < |level| && k < Log2(|level|)
    ensures var layer := Layer(key, level, k);
      Sibling(Shift(i, k)) < |layer| && |layer| % 2 == 0 && Path(key, level, i)[k] == layer[Sibling(Shift(i, k))]
    decreases k
  {
    hide *;
    AnyLevel(|level|, k);
    PathSplits(key, level, i);
    if k == 0 {
      LayerZero(key, level);
      ShiftFirst(i, 0);
    } else {
      var up := Combine(key, level);
      PathAt(key, up, i / 2, k - 1);
      LayerOfCombine(key, level, k - 1);
      ShiftFirst(i, k);
      assert Path(key, level, i)[k] == Path(key, up, i / 2)[k - 1];
    }
  }

  lemma {:induction false} ShiftStep(i: nat, k: nat)
    ensures Shift(i, k + 1) == Shift(i, k) / 2
  {
    if k > 0 {
      ShiftStep(i / 2, k - 1);
    }
  }

  // ----- builders -----

  /** The flat buffer for K openings: one whole path after another, in the order asked for. */
  ghost predicate IsAuditBuffer(key: Key, leaves: seq<Digest>, indices: seq<nat>, buffer: seq<Digest>)
    requires IsPow2(|leaves|) && AllBelow(indices, |leaves|)
  {
    var levels := Log2(|leaves|);
    && |buffer| == |indices| * levels
    && forall i | 0 <= i < |indices| :: OpeningPath(buffer, i, |indices|, levels) == Path(key, leaves, indices[i])
  }

  /** The path of opening i of n. */
  function OpeningPath(buffer: seq<Digest>, i: nat, n: nat, levels: nat): (path: seq<Digest>)
    requires i < n && |buffer| == n * levels
    ensures |path| == levels
  {
    SlotFits(i, n, levels);
    buffer[i * levels .. i * levels + levels]
  }

  /** The relation fixes the buffer: whatever two emitters satisfy it agree digest by digest. */
  lemma AuditBufferIsUnique(key: Key, leaves: seq<Digest>, indices: seq<nat>, a: seq<Digest>, b: seq<Digest>)
    requires IsPow2(|leaves|) && AllBelow(indices, |leaves|)
    requires IsAuditBuffer(key, leaves, indices, a) && IsAuditBuffer(key, leaves, indices, b)
    ensures a == b
  {
    hide Path, IsPow2, Log2;
    var n, levels := |indices|, Log2(|leaves|);
    forall t | 0 <= t < |a| ensures a[t] == b[t] {
      var i, r := SlotOf(t, n, levels);
      assert OpeningPath(a, i, n, levels) == OpeningPath(b, i, n, levels);
      SlotAt(a, i, r, n, levels);
      SlotAt(b, i, r, n, levels);
    }
  }

  lemma SlotOf(t: nat, n: nat, levels: nat) returns (i: nat, r: nat)
    requires t < n * levels
    ensures i < n && r < levels && t == i * levels + r
  {
    i, r := t / levels, t % levels;
    assert i >= n ==> i * levels >= n * levels;
  }

  lemma SlotAt(buffer: seq<Digest>, i: nat, r: nat, n: nat, levels: nat)
    requires i < n && r < levels && |buffer| == n * levels
    ensures i * levels + r < |buffer| && OpeningPath(buffer, i, n, levels)[r] == buffer[i * levels + r]
  {
    SlotFits(i, n, levels);
  }

  /** Writes one path at slot `at` of the buffer, reading stored layers. */
  method CopyPath(ghost key: Key, ghost leaves: seq<Digest>, layers: seq<seq<Digest>>, start: nat,
                  buffer: array<Digest>, at: nat, levels: nat)
    requires IsPow2(|leaves|) && start < |leaves| && levels == Log2(|leaves|)
    requires |layers| >= levels && forall k | 0 <= k < levels :: layers[k] == Layer(key, leaves, k)
    requires at + levels <= buffer.Length
    modifies buffer
    ensures buffer[at .. at + levels] == Path(key, leaves, start)
    ensures forall t | 0 <= t < buffer.Length && !(at <= t < at + levels) :: buffer[t] == old(buffer[t])
  {
    var idx := start;
    for level := 0 to levels
      invariant idx == Shift(start, level)
      invariant forall t | 0 <= t < level :: buffer[at + t] == Path(key, leaves, start)[t]
      invariant forall t | 0 <= t < buffer.Length && !(at <= t < at + level) :: buffer[t] == old(buffer[t])
    {
      PathAt(key, leaves, start, level);
      ShiftStep(start, level);
      buffer[at + level] := layers[level][Sibling(idx)];
      idx := idx / 2;
    }
  }

  /** The first i openings of the buffer hold their paths. */
  ghost predicate FilledTo(key: Key, leaves: seq<Digest>, indices: seq<nat>, buffer: seq<Digest>, i: nat, levels: nat)
    requires IsPow2(|leaves|) && AllBelow(indices, |leaves|)
  {
    && i <= |indices| && |buffer| == |indices| * levels
    && forall j | 0 <= j < i :: OpeningPath(buffer, j, |indices|, levels) == Path(key, leaves, indices[j])
  }

  lemma FillStarts(key: Key, leaves: seq<Digest>, indices: seq<nat>, buffer: seq<Digest>, levels: nat)
    requires IsPow2(|leaves|) && AllBelow(indices, |leaves|) && |buffer| == |indices| * levels
    ensures FilledTo(key, leaves, indices, buffer, 0, levels)
  {
  }

  lemma FillGrows(key: Key, leaves: seq<Digest>, indices: seq<nat>, before: seq<Digest>, after: seq<Digest>, i: nat,
                  levels: nat)
    requires IsPow2(|leaves|) && AllBelow(indices, |leaves|) && i < |indices| && indices[i] < |leaves|
    requires FilledTo(key, leaves, indices, before, i, levels) && |after| == |before|
    requires i * levels + levels <= |after| && after[i * levels .. i * levels + levels] == Path(key, leaves, indices[i])
    requires forall t | 0 <= t < |after| && !(i * levels <= t < i * levels + levels) :: after[t] == before[t]
    ensures FilledTo(key, leaves, indices, after, i + 1, levels)
  {
    hide Path, IsPow2, AllBelow, OpeningPath;
    var n := |indices|;
    forall j | 0 <= j < i + 1
      ensures indices[j] < |leaves| && OpeningPath(after, j, n, levels) == Path(key, leaves, indices[j])
    {
      IndexBelow(indices, |leaves|, j);
      if j < i {
        SlotKept(before, after, j, i, n, levels);
      } else {
        SlotIs(after, i, n, levels);
      }
    }
  }

  lemma FillEnds(key: Key, leaves: seq<Digest>, indices: seq<nat>, buffer: seq<Digest>, levels: nat)
    requires IsPow2(|leaves|) && AllBelow(indices, |leaves|) && levels == Log2(|leaves|)
    requires FilledTo(key, leaves, indices, buffer, |indices|, levels)
    ensures IsAuditBuffer(key, leaves, indices, buffer)
  {
    hide Path, IsPow2, Log2, OpeningPath;
  }

  lemma IndexBelow(indices: seq<nat>, n: nat, i: nat)
    requires AllBelow(indices, n) && i < |indices|
    ensures indices[i] < n
  {
  }

  lemma SlotsAtLeast(n: nat, levels: nat)
    ensures n * levels >= 0
  {
  }

  /** Fills the buffer opening by opening. */
  method CopyPaths(ghost key: Key, ghost leaves: seq<Digest>, layers: seq<seq<Digest>>, indices: seq<nat>, levels: nat)
    returns (out: seq<Digest>)
    requires IsPow2(|leaves|) && AllBelow(indices, |leaves|) && levels == Log2(|leaves|)
    requires |layers| >= levels && forall k | 0 <= k < levels :: layers[k] == Layer(key, leaves, k)
    ensures IsAuditBuffer(key, leaves, indices, out)
  {
    hide *;
    var n := |indices|;
    SlotsAtLeast(n, levels);
    var buffer := new Digest[n * levels](_ => Junk([]));
    FillStarts(key, leaves, indices, buffer[..], levels);
    for i := 0 to n
      invariant FilledTo(key, leaves, indices, buffer[..], i, levels)
    {
      SlotFits(i, n, levels);
      IndexBelow(indices, |leaves|, i);
      ghost var before := buffer[..];
      CopyPath(key, leaves, layers, indices[i], buffer, i * levels, levels);
      FillGrows(key, leaves, indices, before, buffer[..], i, levels);
    }
    out := buffer[..];
    FillEnds(key, leaves, indices, out, levels);
  }

  lemma SlotIs(buffer: seq<Digest>, i: nat, n: nat, levels: nat)
    requires i < n && |buffer| == n * levels
    ensures i * levels + levels <= |buffer|
    ensures OpeningPath(buffer, i, n, levels) == buffer[i * levels .. i * levels + levels]
  {
    SlotFits(i, n, levels);
  }

  /** Writing slot `i` leaves an earlier slot alone. */
  lemma SlotKept(a: seq<Digest>, b: seq<Digest>, j: nat, i: nat, n: nat, levels: nat)
    requires j < i < n && |a| == |b| == n * levels
    requires forall t | 0 <= t < |a| && !(i * levels <= t < i * levels + levels) :: b[t] == a[t]
    ensures OpeningPath(b, j, n, levels) == OpeningPath(a, j, n, levels)
  {
    SlotFits(j, n, levels);
    SlotsApart(j, i, levels);
  }

  lemma SlotFits(i: nat, n: nat, levels: nat)
    requires i < n
    ensures 0 <= i * levels <= i * levels + levels == (i + 1) * levels <= n * levels
  {
  }

  lemma SlotsApart(j: nat, i: nat, levels: nat)
    requires j < i
    ensures j * levels + levels == (j + 1) * levels <= i * levels
  {
  }

  datatype BuildResult = Built(siblings: seq<Digest>) | TooManyOpenings | TooFewLeaves | NotPowerOfTwo | IndexOutOfRange

  /** The C# builder: the whole table of chaining values, then one path per opening. */
  method Build(bytes: seq<Byte>, key: Key, indices: seq<nat>) returns (r: BuildResult)
    ensures var padded := PadToChunk(bytes); var n := if bytes == [] then 1 else ChunkCount(|bytes|);
      && (r.TooManyOpenings? <==> |indices| > 64)
      && (|indices| <= 64 && indices == [] ==> r == Built([]))
      && (0 < |indices| <= 64 ==>
            && (r.TooFewLeaves? <==> n < 2)
            && (r.NotPowerOfTwo? <==> n >= 2 && !IsPow2(n))
            && (r.IndexOutOfRange? <==> n >= 2 && IsPow2(n) && !AllBelow(indices, n))
            && (r.Built? ==>
                  n >= 2 && IsPow2(n) && AllBelow(indices, n) && |LeafCvs(key, padded)| == n
                  && IsAuditBuffer(key, LeafCvs(key, padded), indices, r.siblings)))
  {
    if |indices| > 64 {
      return TooManyOpenings;
    }
    if indices == [] {
      return Built([]);
    }
    var padded := PadToChunk(bytes);
    var n := if bytes == [] then 1 else |padded| / 1024;
    if n < 2 {
      return TooFewLeaves;
    }
    if !IsPow2(n) {
      return NotPowerOfTwo;
    }
    if exists k | 0 <= k < |indices| :: indices[k] >= n {
      return IndexOutOfRange;
    }
    var leaves := LeafCvs(key, padded);
    var levels := Log2(n);
    var table := CvTable(key, leaves, levels);
    hide LeafCvs, IsAuditBuffer;
    var out := CopyPaths(key, leaves, table, indices, levels);
    r := Built(out);
  }

  /** Every level of the table; the top combination is the root's. */
  method CvTable(key: Key, leaves: seq<Digest>, levels: nat) returns (table: seq<seq<Digest>>)
    requires |leaves| >= 2 && IsPow2(|leaves|) && levels == Log2(|leaves|)
    ensures |table| == levels + 1
    ensures forall k | 0 <= k < levels :: table[k] == Layer(key, leaves, k)
    ensures table[levels] == [TopRoot(key, leaves)]
  {
    table := [leaves];
    assert LayerPrefix(key, leaves, table);
    hide Combine, Layer, LayerPrefix, TopRoot, IsPow2, Log2;
    for lvl := 0 to levels
      invariant |table| == lvl + 1
      invariant lvl < levels ==> LayerPrefix(key, leaves, table)
      invariant lvl == levels ==> LayerPrefix(key, leaves, table[..levels]) && table[levels] == [TopRoot(key, leaves)]
    {
      var cur := table[lvl];
      TableLevel(key, leaves, table, levels);
      var next := CombineTable(key, cur, lvl == levels - 1);
      assert table == (table + [next])[..lvl + 1];
      LayerPrefixGrows(key, leaves, table);
      table := table + [next];
    }
    forall k | 0 <= k < levels ensures table[k] == Layer(key, leaves, k) {
      PrefixAt(key, leaves, table[..levels], k);
    }
  }

  lemma TableLevel(key: Key, leaves: seq<Digest>, table: seq<seq<Digest>>, levels: nat)
    requires |leaves| >= 2 && IsPow2(|leaves|) && Log2(|leaves|) == levels
    requires LayerPrefix(key, leaves, table) && |table| <= levels
    ensures var cur := table[|table| - 1];
      && |cur| % 2 == 0 && |cur| >= 2
      && (|cur| == 2 <==> |table| == levels)
      && (|table| == levels ==> TopRoot(key, leaves) == Root(key, cur[0], cur[1]))
  {
    var k := |table| - 1;
    PowLayer(key, leaves, k);
    var cur := table[k];
    hide Layer;
    assert cur == Layer(key, leaves, k);
    TopRootOfLayer(key, leaves, k);
  }

  /** Below its logarithm every layer of a power-of-two tree is a power of two. */
  lemma {:induction false} PowLayer(key: Key, leaves: seq<Digest>, k: nat)
    requires |leaves| >= 2 && IsPow2(|leaves|) && k < Log2(|leaves|)
    ensures var m := |Layer(key, leaves, k)|; m >= 2 && IsPow2(m) && Log2(m) == Log2(|leaves|) - k
  {
    if k > 0 {
      PowLayer(key, leaves, k - 1);
    }
  }

  method CombineTable(key: Key, cur: seq<Digest>, isTop: bool) returns (next: seq<Digest>)
    requires |cur| % 2 == 0
    ensures !isTop ==> next == Combine(key, cur)
    ensures isTop ==> |next| == |cur| / 2 && forall j | 0 <= j < |next| ::
      next[j] == Root(key, cur[2 * j], cur[2 * j + 1])
  {
    var table := new Digest[|cur| / 2](_ => Junk([]));
    for j := 0 to |cur| / 2
      invariant forall t | 0 <= t < j ::
        table[t] == if isTop then Root(key, cur[2 * t], cur[2 * t + 1]) else Parent(key, cur[2 * t], cur[2 * t + 1])
    {
      table[j] := if isTop then Root(key, cur[2 * j], cur[2 * j + 1]) else Parent(key, cur[2 * j], cur[2 * j + 1]);
    }
    next := table[..];
  }

  datatype PathsResult = Paths(siblings: seq<Digest>) | Rejected(message: string)

  /** A tree as built: over nothing, over one chunk, or over more. */
  ghost predicate BuiltTree(t: MerkleTree) {
    (t.layers == [[]] && t.data == []) || OneChunkTree(t) || TreeOf(t, t.key, t.data)
  }

  lemma BuiltLeaves(t: MerkleTree)
    requires BuiltTree(t)
    ensures t.layers != [] && t.NumLeaves() == ChunkCount(|t.data|)
    ensures t.NumLeaves() >= 2 <==> TreeOf(t, t.key, t.data)
  {
    if TreeOf(t, t.key, t.data) {
      FirstLevel(t.key, LeafCvs(t.key, t.data), t.layers);
    }
    hide LayersOf, LeafCvs;
  }

  /** The Rust emitter, over any built tree. Over at most one chunk there is nothing beside a leaf, and over
      nothing index 0 still counts as in range. */
  method GetAuditPaths(t: MerkleTree, indices: seq<nat>) returns (r: PathsResult)
    requires BuiltTree(t)
    ensures t.layers != [] && t.NumLeaves() == ChunkCount(|t.data|)
    ensures t.data != [] ==> (r.Rejected? <==> !IsPow2(t.NumLeaves()) || !AllBelow(indices, t.NumLeaves()))
    ensures t.data != [] && r.Paths? ==> IsAuditBuffer(t.key, LeafCvs(t.key, t.data), indices, r.siblings)
    ensures t.data == [] ==> r == if AllBelow(indices, 1) then Paths([]) else Rejected("leaf index out of bounds")
  {
    ghost var leaves := LeafCvs(t.key, t.data);
    BuiltLeaves(t);
    hide LeafCvs, IsAuditBuffer;
    var n := t.NumLeaves();
    if !IsPow2(n) && n != 0 {
      return Rejected("total_leaves must be a power of two for audit_proof v1");
    }
    if exists k | 0 <= k < |indices| :: indices[k] >= if n == 0 then 1 else n {
      return Rejected("leaf index out of bounds");
    }
    if n <= 1 {
      NothingBeside(t.key, leaves, indices);
      return Paths([]);
    }
    var levels := Log2(n);
    StoredLevels(t.key, leaves, t.layers);
    hide Layer;
    var out := CopyPaths(t.key, leaves, t.layers, indices, levels);
    r := Paths(out);
  }

  lemma NothingBeside(key: Key, leaves: seq<Digest>, indices: seq<nat>)
    ensures |leaves| == 1 && AllBelow(indices, 1) ==> IsAuditBuffer(key, leaves, indices, [])
  {
  }

  /** A stored power-of-two tree has its logarithm of layers below the root. */
  lemma StoredLevels(key: Key, leaves: seq<Digest>, layers: seq<seq<Digest>>)
    requires LayersOf(key, leaves, layers) && IsPow2(|leaves|)
    ensures |layers| - 1 == Log2(|leaves|)
  {
    var k := |layers| - 2;
    assert layers[k] == Layer(key, leaves, k);
    LevelsLeft(key, leaves, k);
    hide Layer;
    assert Log2(2) == 1;
  }

  lemma {:induction false} LevelsLeft(key: Key, leaves: seq<Digest>, k: nat)
    requires IsPow2(|leaves|) && |Layer(key, leaves, k)| >= 2
    ensures IsPow2(|Layer(key, leaves, k)|) && Log2(|leaves|) == k + Log2(|Layer(key, leaves, k)|)
  {
    if k > 0 {
      LevelsLeft(key, leaves, k - 1);
    }
  }
}
