/** What the Rust audit verifier accepts when the leaf count is only claimed: the root of any tree, a
    power of two or not, against openings under any claimed count.
 */
module AuditCount {
  import opened Digests
  import opened MerkleTrees
  import opened ProofVerification
  import opened LeafBinding
  import opened Audit
  import opened AuditVerification

  // ----- where an opening puts its leaf -----

  /** The low k bits of i, lowest first. */
  function Bits(i: nat, k: nat): (q: seq<bool>)
    ensures |q| == k
  {
    if k == 0 then [] else [i % 2 == 1] + Bits(i / 2, k - 1)
  }

  /** A folded node hangs in the result where the bits of its index lead. */
  lemma {:induction false} FoldReaches(key: Key, node: Digest, i: nat, path: seq<Digest>)
    requires path != []
    ensures Reaches(FoldPath(key, node, i, path), Bits(i, |path|), node)
    decreases |path|
  {
    var (left, right) := if i % 2 == 0 then (node, path[0]) else (path[0], node);
    if |path| == 1 {
      assert Bits(i, 1) == [i % 2 == 1];
      assert [i % 2 == 1][..0] == [];
    } else {
      FoldReaches(key, Parent(key, left, right), i / 2, path[1..]);
      hide Reaches;
      ReachesChild(FoldPath(key, node, i, path), Bits(i / 2, |path| - 1), Parent(key, left, right), i % 2 == 1);
    }
  }

  /** Leaf c of n is promoted at no level. */
  predicate Opens(c: nat, n: nat)
    requires 2 <= n && c < n
    decreases n
  {
    n == 2 || ((c % 2 == 1 || c + 1 < n) && Opens(c / 2, Half(n)))
  }

  lemma OpensStep(c: nat, n: nat)
    requires 2 < n && c < n
    ensures 2 <= Half(n) < n && c / 2 < Half(n)
    ensures Opens(c, n) <==> !(c % 2 == 0 && c + 1 == n) && Opens(c / 2, Half(n))
    ensures Depth(n) == 1 + Depth(Half(n))
  {
  }

  lemma BitsStep(c: nat, k: nat)
    ensures k == 0 ==> Bits(c, k) == []
    ensures k > 0 ==> Bits(c, k) == [c % 2 == 1] + Bits(c / 2, k - 1)
  {
  }

  lemma TwoLeaves(c: nat, k: nat)
    requires c < 2
    ensures Turns(c, 2) == Bits(c, k) <==> Opens(c, 2) && k == Depth(2)
  {
    assert Depth(1) == 0 && Depth(2) == 1;
    assert Bits(c, 1) == [c % 2 == 1];
    assert k != 1 ==> |Bits(c, k)| != 1;
  }

  lemma SameHead(x: bool, a: seq<bool>, b: seq<bool>)
    ensures [x] + a == [x] + b <==> a == b
  {
    assert ([x] + a)[1..] == a && ([x] + b)[1..] == b;
  }

  /** A leaf hangs at the bits of its index exactly when it is promoted nowhere and the bits are as many
      as the tree is deep. */
  lemma {:induction false} TurnsAreBits(c: nat, n: nat, k: nat)
    requires 2 <= n && c < n
    ensures Turns(c, n) == Bits(c, k) <==> Opens(c, n) && k == Depth(n)
    decreases n
  {
    hide *;
    if n == 2 {
      TwoLeaves(c, k);
    } else {
      TurnsStep(c, n);
      OpensStep(c, n);
      BitsStep(c, k);
      if c % 2 == 0 && c + 1 == n {
        LastTurnsRight(Half(n));
      } else if k > 0 {
        TurnsAreBits(c / 2, Half(n), k - 1);
        SameHead(c % 2 == 1, Turns(c / 2, Half(n)), Bits(c / 2, k - 1));
      }
    }
  }

  // ----- the path of such a leaf -----

  /** The siblings on the way up from a node that is promoted nowhere. */
  function OpenPath(key: Key, level: seq<Digest>, i: nat): (path: seq<Digest>)
    requires |level| >= 2 && i < |level| && Opens(i, |level|)
    ensures |path| == Depth(|level|)
    decreases |level|
  {
    if |level| == 2 then [level[Sibling(i)]]
    else [level[Sibling(i)]] + OpenPath(key, Combine(key, level), i / 2)
  }

  /** Such a path folds to the root of the level exactly when it starts at the true node, under the
      tree's key, and holds the true siblings. */
  lemma {:induction false} OpenPathBinds(key: Key, level: seq<Digest>, i: nat, key': Key, node: Digest,
                                         path: seq<Digest>)
    requires |level| >= 2 && i < |level| && Opens(i, |level|) && |path| == Depth(|level|)
    ensures FoldPath(key', node, i, path) == TopRoot(key, level) <==>
      key' == key && node == level[i] && path == OpenPath(key, level, i)
    decreases |level|
  {
    var up := Combine(key, level);
    var (left, right) := if i % 2 == 0 then (node, path[0]) else (path[0], node);
    assert path == [path[0]] + path[1..];
    assert Depth(2) == 1;
    PairBinds(key, level, i, key', node, path[0]);
    if |level| > 2 {
      hide Combine, OpenPath;
      OpenPathSplits(key, level, i);
      OpenPathBinds(key, up, i / 2, key', Parent(key', left, right), path[1..]);
    }
  }

  lemma OpenPathSplits(key: Key, level: seq<Digest>, i: nat)
    requires |level| > 2 && i < |level| && Opens(i, |level|)
    ensures i / 2 < |Combine(key, level)| && Opens(i / 2, |Combine(key, level)|)
    ensures OpenPath(key, level, i) == [level[Sibling(i)]] + OpenPath(key, Combine(key, level), i / 2)
    ensures TopRoot(key, level) == TopRoot(key, Combine(key, level))
  {
  }

  /** With a power of two of leaves none is promoted, and the path is the one audits use. */
  lemma {:induction false} PowerOpens(key: Key, level: seq<Digest>, i: nat)
    requires |level| >= 2 && IsPow2(|level|) && i < |level|
    ensures Opens(i, |level|) && OpenPath(key, level, i) == Path(key, level, i)
    decreases |level|
  {
    PathSplits(key, level, i);
    if |level| > 2 {
      PowerOpens(key, Combine(key, level), i / 2);
    } else {
      assert Path(key, level, i) == [level[Sibling(i)]] + [];
    }
  }

  // ----- openings against a root -----

  /** One opening, of any length, against the root of any data of more than one chunk: it folds to the root
      exactly when its leaf is the committed chunk at its index, promoted nowhere, and its path is as
      long as the tree is deep and holds the true siblings. */
  lemma OpeningFoldsExactly(key: Key, data: seq<Byte>, key': Key, leaf: seq<Byte>, index: nat, path: seq<Digest>)
    requires |data| > 1024
    ensures OpeningRoot(key', leaf, index, path) == Blake3Root(key, data) <==>
      var n := ChunkCount(|data|);
      && key' == key && index < n && leaf == ChunkBytes(data, index) && Opens(index, n)
      && path == OpenPath(key, LeafCvs(key, data), index)
  {
    var leaves, n := LeafCvs(key, data), ChunkCount(|data|);
    TopRootIsLeftBalanced(key, leaves);
    assert TopRoot(key, leaves) == Blake3Root(key, data);
    hide TopRoot, Subtree, OpenPath, FoldPath;
    if OpeningRoot(key', leaf, index, path) == Blake3Root(key, data) {
      FoldedIsInPlace(key, data, key', leaf, index, path);
    }
    if index < n && Opens(index, n) && |path| == Depth(n) {
      OpenPathBinds(key, leaves, index, key', Chunk(key', leaf, index), path);
      assert path != [] by { assert Depth(n) > 0; }
    }
  }

  lemma FoldedIsInPlace(key: Key, data: seq<Byte>, key': Key, leaf: seq<Byte>, index: nat, path: seq<Digest>)
    requires |data| > 1024 && OpeningRoot(key', leaf, index, path) == Blake3Root(key, data)
    ensures path != [] && index < ChunkCount(|data|) && Opens(index, ChunkCount(|data|)) &&
      |path| == Depth(ChunkCount(|data|))
  {
    var leaves, node := LeafCvs(key, data), Chunk(key', leaf, index);
    TopRootIsLeftBalanced(key, leaves);
    assert TopRoot(key, leaves) == Blake3Root(key, data);
    FoldReaches(key', node, index, path);
    var j, below := RootReachesOnlyItsLevel(key, leaves, Bits(index, |path|), node);
    assert below == [];
    assert [] + Turns(j, |leaves|) == Turns(j, |leaves|);
    TurnsAreBits(j, |leaves|, |path|);
  }

  /** The true opening of one leaf. */
  ghost predicate TrueOpening(key: Key, data: seq<Byte>, leaf: seq<Byte>, index: nat, path: seq<Digest>)
    requires |data| > 1024
  {
    var n := ChunkCount(|data|);
    && index < n && leaf == ChunkBytes(data, index) && Opens(index, n)
    && path == OpenPath(key, LeafCvs(key, data), index)
  }

  /** What the Rust verifier accepts against the root of any data of more than one chunk, whatever count is
      claimed: the count must be the power of two of the tree's depth, and the openings must be true. */
  lemma AcceptsExactly(key: Key, data: seq<Byte>, key': Key, leaves: seq<seq<Byte>>, indices: seq<nat>,
                       total: nat, siblings: seq<Digest>)
    requires |data| > 1024 && |leaves| == |indices|
    ensures Accepts(leaves, indices, total, siblings, key', Blake3Root(key, data)) <==>
      && indices != [] && key' == key
      && total == Pow2(Depth(ChunkCount(|data|))) && |siblings| == |indices| * Depth(ChunkCount(|data|))
      && forall i | 0 <= i < |indices| ::
           TrueOpening(key, data, leaves[i], indices[i], OpeningPath(siblings, i, |indices|, Depth(ChunkCount(|data|))))
  {
    var root, depth := Blake3Root(key, data), Depth(ChunkCount(|data|));
    hide *;
    PowerHasLog(depth);
    if Accepts(leaves, indices, total, siblings, key', root) {
      AcceptedIs(leaves, indices, total, siblings, key', root);
      LogFixesPower(total, depth);
      OpeningTrue(key, data, key', leaves, indices, Log2(total), siblings, 0);
      forall i | 0 <= i < |indices|
        ensures TrueOpening(key, data, leaves[i], indices[i], OpeningPath(siblings, i, |indices|, Log2(total)))
      {
        OpeningTrue(key, data, key', leaves, indices, Log2(total), siblings, i);
      }
    }
    if indices != [] && key' == key && total == Pow2(depth) && |siblings| == |indices| * depth
       && forall i | 0 <= i < |indices| ::
            TrueOpening(key, data, leaves[i], indices[i], OpeningPath(siblings, i, |indices|, depth))
    {
      forall i | 0 <= i < |indices|
        ensures indices[i] < total && OpeningHolds(key', leaves, indices, depth, siblings, root, i)
      {
        OpeningTrue(key, data, key', leaves, indices, depth, siblings, i);
        DepthReaches(ChunkCount(|data|));
      }
      AcceptedIs(leaves, indices, total, siblings, key', root);
      IndicesBelow(indices, total);
    }
  }

  lemma IndicesBelow(indices: seq<nat>, n: nat)
    requires forall i | 0 <= i < |indices| :: indices[i] < n
    ensures AllBelow(indices, n)
  {
  }

  lemma AcceptedIs(leaves: seq<seq<Byte>>, indices: seq<nat>, total: nat, siblings: seq<Digest>, key: Key, root: Digest)
    requires |leaves| == |indices|
    ensures Accepts(leaves, indices, total, siblings, key, root) <==>
      && indices != [] && IsPow2(total) && |siblings| == |indices| * Log2(total) && AllBelow(indices, total)
      && forall i | 0 <= i < |indices| :: OpeningHolds(key, leaves, indices, Log2(total), siblings, root, i)
  {
    hide OpeningHolds, IsPow2, Log2, AllBelow;
  }

  lemma OpeningTrue(key: Key, data: seq<Byte>, key': Key, leaves: seq<seq<Byte>>, indices: seq<nat>, levels: nat,
                    siblings: seq<Digest>, i: nat)
    requires |data| > 1024 && |leaves| == |indices| && |siblings| == |indices| * levels && i < |indices|
    ensures OpeningHolds(key', leaves, indices, levels, siblings, Blake3Root(key, data), i) <==>
      key' == key && TrueOpening(key, data, leaves[i], indices[i], OpeningPath(siblings, i, |indices|, levels))
    ensures TrueOpening(key, data, leaves[i], indices[i], OpeningPath(siblings, i, |indices|, levels)) ==>
      levels == Depth(ChunkCount(|data|)) && indices[i] < ChunkCount(|data|)
  {
    hide OpeningRoot, Blake3Root, LeafCvs, ChunkBytes, Opens, Depth;
    OpeningFoldsExactly(key, data, key', leaves[i], indices[i], OpeningPath(siblings, i, |indices|, levels));
  }

  // ----- powers of two -----

  lemma DoubleHasLog(p: nat)
    requires p >= 1
    ensures IsPow2(1) && Log2(1) == 0
    ensures IsPow2(2 * p) <==> IsPow2(p)
    ensures Log2(2 * p) == 1 + Log2(p)
  {
    assert (2 * p) / 2 == p && (2 * p) % 2 == 0;
  }

  lemma {:induction false} PowerHasLog(k: nat)
    ensures IsPow2(Pow2(k)) && Log2(Pow2(k)) == k
  {
    hide IsPow2, Log2;
    if k > 0 {
      PowerHasLog(k - 1);
    }
    DoubleHasLog(if k == 0 then 1 else Pow2(k - 1));
  }

  lemma {:induction false} LogFixesPower(n: nat, k: nat)
    requires IsPow2(n)
    ensures Log2(n) == k <==> n == Pow2(k)
    decreases n
  {
    PowerHasLog(k);
    if n > 1 && k > 0 {
      LogFixesPower(n / 2, k - 1);
    }
  }

  /** A tree's leaves fit the power of two of its depth, and are as many only if they are a power of two. */
  lemma {:induction false} DepthReaches(n: nat)
    requires n >= 1
    ensures n <= Pow2(Depth(n)) && (IsPow2(n) <==> n == Pow2(Depth(n)))
    decreases n
  {
    if n > 1 {
      DepthReaches(Half(n));
    }
  }

  // ----- when the leaf count is bound -----

  /** Beside a leaf count that is no power of two the verifier accepts the true opening of every leaf that is
      promoted nowhere, under a larger count. */
  lemma AuditCountNotBound(key: Key, data: seq<Byte>, c: nat)
    requires |data| > 1024 && !IsPow2(ChunkCount(|data|)) && c < ChunkCount(|data|) && Opens(c, ChunkCount(|data|))
    ensures var n := ChunkCount(|data|);
      && Accepts([ChunkBytes(data, c)], [c], Pow2(Depth(n)), OpenPath(key, LeafCvs(key, data), c), key,
        Blake3Root(key, data))
      && Pow2(Depth(n)) > n
  {
    var n := ChunkCount(|data|);
    var path := OpenPath(key, LeafCvs(key, data), c);
    DepthReaches(n);
    hide OpenPath, LeafCvs, Depth, ChunkBytes, Accepts, Blake3Root;
    AcceptsExactly(key, data, key, [ChunkBytes(data, c)], [c], Pow2(Depth(n)), path);
    assert OpeningPath(path, 0, 1, Depth(n)) == path;
  }

  lemma {:induction false} FirstOpens(n: nat)
    requires n >= 2
    ensures Opens(0, n)
    decreases n
  {
    if n > 2 {
      FirstOpens(Half(n));
    }
  }

  /** Acceptance forces the claimed leaf count to be the true one exactly when that is a power of two;
      otherwise the first leaf opens under a larger count. */
  lemma AuditCountBoundExactly(key: Key, data: seq<Byte>)
    requires |data| > 1024
    ensures var n := ChunkCount(|data|);
      IsPow2(n) <==>
      forall leaves: seq<seq<Byte>>, indices: seq<nat>, total: nat, siblings: seq<Digest>, key': Key |
        |leaves| == |indices| && Accepts(leaves, indices, total, siblings, key', Blake3Root(key, data)) :: total == n
  {
    var n := ChunkCount(|data|);
    DepthReaches(n);
    hide Accepts, Blake3Root, Depth, IsPow2;
    if IsPow2(n) {
      forall leaves: seq<seq<Byte>>, indices: seq<nat>, total: nat, siblings: seq<Digest>, key': Key |
        |leaves| == |indices| && Accepts(leaves, indices, total, siblings, key', Blake3Root(key, data))
        ensures total == n
      {
        AcceptsExactly(key, data, key', leaves, indices, total, siblings);
      }
    } else {
      FirstOpens(n);
      AuditCountNotBound(key, data, 0);
    }
  }
}
