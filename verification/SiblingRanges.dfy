/** Labelling the siblings of a proof with byte ranges. */
module SiblingRanges {
  import opened Digests
  import opened MerkleTrees
  import opened MerkleProofs
  import opened ProofVerification
  import opened Extraction

  datatype Position = Position(level: nat, index: nat)

  datatype Range = Range(start: nat, end: nat, cv: Digest)

  // ----- the positions at which siblings are needed -----

  function NeededAt(s: set<nat>, n: nat, i: nat, k: nat): (out: seq<Position>) {
    if i !in s then []
    else if i % 2 == 1 then (if i - 1 in s then [] else [Position(k, i - 1)])
    else if i + 1 !in s && i + 1 < n then [Position(k, i + 1)]
    else []
  }

  function NeededFrom(s: set<nat>, n: nat, bound: nat, i: nat, k: nat): (out: seq<Position>)
    decreases bound - i
  {
    if i >= bound then [] else NeededAt(s, n, i, k) + NeededFrom(s, n, bound, i + 1, k)
  }

  /** The positions of all siblings, from level k of n nodes up. */
  function Needed(s: set<nat>, n: nat, bound: nat, k: nat): (out: seq<Position>)
    decreases n
  {
    if n <= 1 then [] else NeededFrom(s, n, bound, 0, k) + Needed(Parents(s), Half(n), Half(bound), k + 1)
  }

  /** The label of a position in a tree over `size` bytes. */
  function Label(pos: Position, size: nat, cv: Digest): (r: Range) {
    var end := FirstLeaf(pos.level, pos.index + 1) * 1024;
    Range(FirstLeaf(pos.level, pos.index) * 1024, if end <= size then end else size, cv)
  }

  /** The first positions, labelled with the siblings in order. */
  function Labels(needed: seq<Position>, size: nat, siblings: seq<Digest>): (out: seq<Range>)
    ensures |out| == Min(|needed|, |siblings|)
  {
    seq(Min(|needed|, |siblings|), t requires 0 <= t < Min(|needed|, |siblings|) =>
      Label(needed[t], size, siblings[t]))
  }

  /** One level of the labelling loop. */
  method LabelLevel(current: set<nat>, n: nat, bound: nat, level: nat, size: nat, siblings: seq<Digest>,
                    ranges0: seq<Range>, ghost done: seq<Position>)
    returns (ranges: seq<Range>)
    requires ranges0 == Labels(done, size, siblings)
    ensures ranges == Labels(done + NeededFrom(current, n, bound, 0, level), size, siblings)
  {
    ranges := ranges0;
    ghost var prefix := done;
    assert prefix + NeededFrom(current, n, bound, 0, level) == done + NeededFrom(current, n, bound, 0, level);
    for i := 0 to bound
      invariant ranges == Labels(prefix, size, siblings)
      invariant prefix + NeededFrom(current, n, bound, i, level) == done + NeededFrom(current, n, bound, 0, level)
    {
      ghost var step := NeededAt(current, n, i, level);
      ghost var rest := NeededFrom(current, n, bound, i + 1, level);
      assert prefix + (step + rest) == (prefix + step) + rest;
      if i in current {
        var sib := if i % 2 == 0 then i + 1 else i - 1;
        var needSib := if i % 2 == 1 then sib !in current else sib < n && sib !in current;
        if needSib && |ranges| < |siblings| {
          var chunk := 1024 * Pow2(level);
          LabelIsProduct(level, sib);
          var end := (sib + 1) * chunk;
          ghost var before := ranges;
          ranges := ranges + [Range(sib * chunk, if end <= size then end else size, siblings[|ranges|])];
          assert step == [Position(level, sib)];
          LabelsGrow(prefix, Position(level, sib), size, siblings);
        } else if needSib {
          LabelsFull(prefix, step, size, siblings);
        }
      }
      prefix := prefix + step;
    }
  }

  lemma LabelIsProduct(level: nat, i: nat)
    ensures FirstLeaf(level, i) * 1024 == i * (1024 * Pow2(level))
    ensures FirstLeaf(level, i + 1) * 1024 == (i + 1) * (1024 * Pow2(level))
  {
    FirstLeafIsProduct(level, i);
    FirstLeafIsProduct(level, i + 1);
    var p := Pow2(level);
    assert i * (1024 * p) == (i * p) * 1024;
    assert (i + 1) * (1024 * p) == ((i + 1) * p) * 1024;
  }

  lemma LabelsGrow(done: seq<Position>, pos: Position, size: nat, siblings: seq<Digest>)
    requires |Labels(done, size, siblings)| < |siblings|
    ensures Labels(done + [pos], size, siblings)
         == Labels(done, size, siblings) + [Label(pos, size, siblings[|done|])]
  {
  }

  lemma LabelsFull(done: seq<Position>, more: seq<Position>, size: nat, siblings: seq<Digest>)
    requires |Labels(done, size, siblings)| >= |siblings|
    ensures Labels(done + more, size, siblings) == Labels(done, size, siblings)
  {
  }

  /** For every proof: the siblings are paired, in order, with the positions that need one. */
  method ComputeSiblingRanges(p: MerkleProof, size: nat) returns (ranges: seq<Range>)
    ensures var n := ChunkCount(size);
      ranges == Labels(Needed(Elements(p.leafIndices), n, ScanBound(p.leafIndices, n), 0), size, p.siblings)
  {
    hide *;
    var current := Elements(p.leafIndices);
    var n: nat := ChunkCount(size);
    var bound: nat := ScanBound(p.leafIndices, n);
    ghost var all := Needed(current, n, bound, 0);
    ranges := [];
    NothingLabelled(all, size, p.siblings);
    NoneOrSome(p.leafIndices);
    if p.leafIndices == [] || p.siblings == [] {
      NothingNeeded(current, n, bound, 0);
      return;
    }
    ghost var done: seq<Position> := [];
    var level := 0;
    assert done + all == all;
    while n > 1 && current != {} && |ranges| < |p.siblings|
      invariant current != {}
      invariant ranges == Labels(done, size, p.siblings)
      invariant done + Needed(current, n, bound, level) == all
      decreases n
    {
      NeededStep(current, n, bound, level, done);
      ranges := LabelLevel(current, n, bound, level, size, p.siblings, ranges, done);
      done := done + NeededFrom(current, n, bound, 0, level);
      ParentsNonEmpty(current);
      current := Parents(current);
      n := (n + 1) / 2;
      bound := (bound + 1) / 2;
      level := level + 1;
    }
    if |ranges| >= |p.siblings| {
      LabelsFull(done, Needed(current, n, bound, level), size, p.siblings);
    } else {
      NeededEnds(current, n, bound, level);
      assert done + [] == done;
    }
  }

  lemma NothingLabelled(all: seq<Position>, size: nat, siblings: seq<Digest>)
    ensures Labels([], size, siblings) == []
    ensures siblings == [] ==> Labels(all, size, siblings) == []
  {
  }

  lemma NoneOrSome(indices: seq<nat>)
    ensures Elements(indices) == {} <==> indices == []
  {
    if indices != [] {
      assert indices[0] in Elements(indices);
    }
  }

  lemma NeededStep(s: set<nat>, n: nat, bound: nat, k: nat, done: seq<Position>)
    requires n > 1
    ensures (n + 1) / 2 == Half(n) && (bound + 1) / 2 == Half(bound) && (n + 1) / 2 < n
    ensures done + Needed(s, n, bound, k)
         == (done + NeededFrom(s, n, bound, 0, k)) + Needed(Parents(s), Half(n), Half(bound), k + 1)
  {
    hide NeededFrom, Parents;
    var here, tail := NeededFrom(s, n, bound, 0, k), Needed(Parents(s), Half(n), Half(bound), k + 1);
    assert done + (here + tail) == (done + here) + tail;
  }

  lemma NeededEnds(s: set<nat>, n: nat, bound: nat, k: nat)
    requires n <= 1
    ensures Needed(s, n, bound, k) == []
  {
  }

  lemma {:induction false} NothingNeeded(s: set<nat>, n: nat, bound: nat, k: nat)
    ensures s == {} ==> Needed(s, n, bound, k) == []
    decreases n
  {
    if n > 1 {
      NothingNeededFrom(n, bound, 0, k);
      NothingNeeded(Parents(s), Half(n), Half(bound), k + 1);
    }
  }

  lemma {:induction false} NothingNeededFrom(n: nat, bound: nat, i: nat, k: nat)
    ensures NeededFrom({}, n, bound, i, k) == []
    decreases bound - i
  {
    if i < bound {
      NothingNeededFrom(n, bound, i + 1, k);
    }
  }

  // ----- the siblings of an honest proof sit at those positions -----

  /** The digests found at positions of the tree over `leaves`. */
  ghost predicate FoundAt(key: Key, leaves: seq<Digest>, needed: seq<Position>, sibs: seq<Digest>) {
    && |needed| == |sibs|
    && forall t | 0 <= t < |needed| ::
      && needed[t].index < |Layer(key, leaves, needed[t].level)|
      && sibs[t] == Layer(key, leaves, needed[t].level)[needed[t].index]
  }

  lemma FoundAtAppend(key: Key, leaves: seq<Digest>, a: seq<Position>, x: seq<Digest>, b: seq<Position>, y: seq<Digest>)
    requires FoundAt(key, leaves, a, x) && FoundAt(key, leaves, b, y)
    ensures FoundAt(key, leaves, a + b, x + y)
  {
    hide Layer;
  }

  lemma {:induction false} LevelFound(key: Key, leaves: seq<Digest>, s: set<nat>, k: nat, i: nat)
    requires var level := Layer(key, leaves, k); i <= |level|
    ensures var level := Layer(key, leaves, k);
      FoundAt(key, leaves, NeededFrom(s, |level|, |level|, i, k), EmitFrom(s, level, i))
    decreases |Layer(key, leaves, k)| - i
  {
    hide Layer;
    var level := Layer(key, leaves, k);
    if i < |level| {
      LevelFound(key, leaves, s, k, i + 1);
      FoundAtAppend(key, leaves, NeededAt(s, |level|, i, k), EmitAt(s, level, i),
                    NeededFrom(s, |level|, |level|, i + 1, k), EmitFrom(s, level, i + 1));
    }
  }

  lemma {:induction false} SiblingsFound(key: Key, leaves: seq<Digest>, s: set<nat>, k: nat)
    requires leaves != []
    ensures var level := Layer(key, leaves, k);
      FoundAt(key, leaves, Needed(s, |level|, |level|, k), Siblings(key, level, s))
    decreases |Layer(key, leaves, k)|
  {
    var level := Layer(key, leaves, k);
    if |level| > 1 {
      LevelFound(key, leaves, s, k, 0);
      assert Layer(key, leaves, k + 1) == Combine(key, level);
      SiblingsFound(key, leaves, Parents(s), k + 1);
      hide Layer, FoundAt, NeededFrom, EmitFrom, Combine;
      FoundAtAppend(key, leaves, NeededFrom(s, |level|, |level|, 0, k), EmitFrom(s, level, 0),
                    Needed(Parents(s), Half(|level|), Half(|level|), k + 1),
                    Siblings(key, Combine(key, level), Parents(s)));
    }
  }

  // ----- what the labels say -----

  /** Whole chunks of the data, its last one possibly short. */
  ghost predicate Whole(data: seq<Byte>, start: nat, end: nat) {
    start % 1024 == 0 && start < end <= |data| && (end % 1024 == 0 || end == |data|)
  }

  lemma WholeChunks(data: seq<Byte>, start: nat, end: nat)
    requires Whole(data, start, end)
    ensures start / 1024 < ChunkCount(end) <= ChunkCount(|data|)
  {
  }

  /** The left-balanced subtree over those chunks. */
  ghost function NodeOver(key: Key, data: seq<Byte>, start: nat, end: nat): (d: Digest)
    requires Whole(data, start, end)
  {
    WholeChunks(data, start, end);
    Subtree(key, LeafCvs(key, data)[start / 1024 .. ChunkCount(end)])
  }

  /** A range of whole chunks labelled with the subtree over them. */
  ghost predicate TrueRange(key: Key, data: seq<Byte>, r: Range) {
    Whole(data, r.start, r.end) && r.cv == NodeOver(key, data, r.start, r.end)
  }

  /** Where the bytes of node (k, i) end. */
  function NodeStop(size: nat, k: nat, i: nat): (e: nat) {
    Min(NodeEnd(ChunkCount(size), k, i) * 1024, size)
  }

  lemma LabelStops(pos: Position, size: nat, cv: Digest)
    ensures Label(pos, size, cv).end == NodeStop(size, pos.level, pos.index)
  {
    hide FirstLeaf;
  }

  lemma NodeIsWhole(data: seq<Byte>, k: nat, i: nat)
    requires FirstLeaf(k, i) < ChunkCount(|data|)
    ensures FirstLeaf(k, i) < NodeEnd(ChunkCount(|data|), k, i)
    ensures Whole(data, FirstLeaf(k, i) * 1024, NodeStop(|data|, k, i))
    ensures ChunkCount(NodeStop(|data|, k, i)) == NodeEnd(ChunkCount(|data|), k, i)
  {
    FirstLeafStep(k, i);
    hide FirstLeaf;
  }

  lemma NodeOverIs(key: Key, data: seq<Byte>, k: nat, i: nat)
    requires FirstLeaf(k, i) < ChunkCount(|data|)
    ensures Whole(data, FirstLeaf(k, i) * 1024, NodeStop(|data|, k, i))
    ensures NodeOver(key, data, FirstLeaf(k, i) * 1024, NodeStop(|data|, k, i))
         == Subtree(key, NodeLeaves(LeafCvs(key, data), k, i))
  {
    NodeIsWhole(data, k, i);
    NodeLeavesAre(LeafCvs(key, data), k, i);
    hide NodeStop, NodeEnd, FirstLeaf, Subtree, LeafCvs, NodeLeaves, Whole, ChunkCount;
    assert FirstLeaf(k, i) * 1024 / 1024 == FirstLeaf(k, i);
  }

  lemma SiblingIsSubtree(key: Key, leaves: seq<Digest>, s: set<nat>, t: nat)
    requires leaves != [] && t < |Needed(s, |leaves|, |leaves|, 0)|
    ensures |Siblings(key, leaves, s)| == |Needed(s, |leaves|, |leaves|, 0)|
    ensures var pos := Needed(s, |leaves|, |leaves|, 0)[t];
      && FirstLeaf(pos.level, pos.index) < |leaves|
      && Siblings(key, leaves, s)[t] == Subtree(key, NodeLeaves(leaves, pos.level, pos.index))
  {
    SiblingsFound(key, leaves, s, 0);
    hide Needed, Siblings, Subtree;
    var pos := Needed(s, |leaves|, |leaves|, 0)[t];
    NodeIsSubtree(key, leaves, pos.level, pos.index);
  }

  /** The labels of an honest proof are true, for data of any length. */
  lemma HonestRangesTrue(key: Key, data: seq<Byte>, s: set<nat>, t: nat)
    requires |data| > 1024 && Below(s, ChunkCount(|data|))
    requires var n := ChunkCount(|data|); t < |Needed(s, n, n, 0)|
    ensures var leaves, n := LeafCvs(key, data), ChunkCount(|data|);
      && |Siblings(key, leaves, s)| == |Needed(s, n, n, 0)|
      && TrueRange(key, data, Labels(Needed(s, n, n, 0), |data|, Siblings(key, leaves, s))[t])
  {
    var leaves, n := LeafCvs(key, data), ChunkCount(|data|);
    var pos := Needed(s, n, n, 0)[t];
    SiblingIsSubtree(key, leaves, s, t);
    NodeOverIs(key, data, pos.level, pos.index);
    LabelStops(pos, |data|, Siblings(key, leaves, s)[t]);
    hide Needed, Siblings, Subtree, NodeOver, NodeStop, LeafCvs, FirstLeaf, NodeLeaves, Whole, ChunkCount;
    assert Labels(Needed(s, n, n, 0), |data|, Siblings(key, leaves, s))[t] ==
      Label(pos, |data|, Siblings(key, leaves, s)[t]);
  }
}
