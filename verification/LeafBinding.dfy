/** What a verifying proof binds when its claimed leaf count or its indices are not checked. */
module LeafBinding {
  import opened Digests
  import opened MerkleTrees
  import opened MerkleProofs
  import opened ProofVerification

  // ----- where a leaf hangs -----

  /** The turns from leaf c of n up to the root, false for a left child; promotion makes no turn. */
  function Turns(c: nat, n: nat): (q: seq<bool>)
    requires 2 <= n && c < n
    ensures q != []
    decreases n
  {
    if n == 2 then [c == 1]
    else if c % 2 == 1 || c + 1 < n then [c % 2 == 1] + Turns(c / 2, Half(n))
    else Turns(c / 2, Half(n))
  }

  /** d hangs in the tree term r where the turns, read from the top down, lead. */
  ghost predicate Reaches(r: Digest, q: seq<bool>, d: Digest)
    decreases |q|
  {
    if q == [] then r == d
    else (r.Parent? || r.Root?) && Reaches(if q[|q| - 1] then r.right else r.left, q[..|q| - 1], d)
  }

  /** One more turn at the bottom. */
  lemma {:induction false} ReachesChild(r: Digest, q: seq<bool>, x: Digest, turn: bool)
    requires Reaches(r, q, x) && (x.Parent? || x.Root?)
    ensures Reaches(r, [turn] + q, if turn then x.right else x.left)
    decreases |q|
  {
    if q == [] {
      assert ([turn] + q)[..0] == [];
    } else {
      var top := |q| - 1;
      ReachesChild(if q[top] then r.right else r.left, q[..top], x, turn);
      assert ([turn] + q)[..top + 1] == [turn] + q[..top];
    }
  }

  /** What folding makes of node c: a half of its parent, or the promoted node itself. */
  ghost predicate Hangs(cur: map<nat, Digest>, n: nat, c: nat, next: map<nat, Digest>)
    requires c in cur
  {
    && c / 2 in next
    && (c % 2 == 1 ==> next[c / 2].Parent? && next[c / 2].right == cur[c])
    && (c % 2 == 0 && c + 1 < n ==> next[c / 2].Parent? && next[c / 2].left == cur[c])
    && (c % 2 == 0 && c + 1 >= n ==> next[c / 2] == cur[c])
  }

  lemma {:induction false} LevelHangs(key: Key, cur: map<nat, Digest>, n: nat, i: nat,
                                      next: map<nat, Digest>, sibs: seq<Digest>, c: nat)
    requires Below(cur.Keys, n) && c in cur && i <= c && !(c == i && Paired(cur, i))
    requires FoldFrom(key, cur, n, n, i, next, sibs).Folded?
    ensures Hangs(cur, n, c, FoldFrom(key, cur, n, n, i, next, sibs).next)
    decreases n - i
  {
    if i == c || (i + 1 == c && Paired(cur, c)) {
      FoldResultAt(key, cur, n, n, i, next, sibs);
      var f := FoldAt(key, cur, n, i, next, sibs);
      assert Hangs(cur, n, c, f.next);
    } else {
      var f := FoldAt(key, cur, n, i, next, sibs);
      LevelHangs(key, cur, n, i + 1, f.next, f.rest, c);
    }
  }

  /** In a root that computes, every in-range leaf hangs where the claimed leaf count puts it. */
  lemma {:induction false} LeafHangs(key: Key, cur: map<nat, Digest>, n: nat, sibs: seq<Digest>, c: nat)
    requires n >= 2 && Below(cur.Keys, n) && c in cur
    requires RootFrom(key, cur, n, n, sibs).Some?
    ensures Reaches(RootFrom(key, cur, n, n, sibs).value, Turns(c, n), cur[c])
    decreases n
  {
    var root := RootFrom(key, cur, n, n, sibs).value;
    if n > 2 {
      var f := FoldFrom(key, cur, n, n, 0, map[], sibs);
      LevelHangs(key, cur, n, 0, map[], sibs, c);
      FoldKeys(key, cur, n, n, 0, map[], sibs);
      ParentsBelow(cur.Keys, n);
      LeafHangs(key, f.next, Half(n), f.rest, c / 2);
      hide RootFrom, FoldFrom, Reaches;
      if c % 2 == 1 || c + 1 < n {
        ReachesChild(root, Turns(c / 2, Half(n)), f.next[c / 2], c % 2 == 1);
      }
    } else {
      assert [c == 1][..0] == [];
    }
  }

  /** From a node of the next level to the node below it that the chunk hangs in. */
  lemma DownOne(key: Key, level: seq<Digest>, i: nat, inner: seq<bool>, d: Digest) returns (j: nat, below: seq<bool>)
    requires |level| > 2 && i < |Combine(key, level)| == Half(|level|) && d.Chunk? &&
      Reaches(Combine(key, level)[i], inner, d)
    ensures j < |level| && Reaches(level[j], below, d) && inner + Turns(i, Half(|level|)) == below + Turns(j, |level|)
  {
    if 2 * i + 1 < |level| {
      assert Combine(key, level)[i] == Parent(key, level[2 * i], level[2 * i + 1]);
      var top := |inner| - 1;
      j, below := if inner[top] then 2 * i + 1 else 2 * i, inner[..top];
      hide Combine, Reaches;
      assert Turns(j, |level|) == [inner[top]] + Turns(i, Half(|level|));
      assert inner == below + [inner[top]];
    } else {
      j, below := 2 * i, inner;
    }
  }

  /** Whatever chunk hangs in the root of a level hangs in one of the level's nodes, below the turns of
      that node. */
  lemma {:induction false} RootReachesOnlyItsLevel(key: Key, level: seq<Digest>, q: seq<bool>, d: Digest)
    returns (j: nat, below: seq<bool>)
    requires |level| >= 2 && d.Chunk? && Reaches(TopRoot(key, level), q, d)
    ensures j < |level| && q == below + Turns(j, |level|) && Reaches(level[j], below, d)
    decreases |level|
  {
    if |level| == 2 {
      TopOfPair(key, level);
      j, below := if q[|q| - 1] then 1 else 0, q[..|q| - 1];
    } else {
      assert TopRoot(key, level) == TopRoot(key, Combine(key, level));
      var i, inner := RootReachesOnlyItsLevel(key, Combine(key, level), q, d);
      hide *;
      j, below := DownOne(key, level, i, inner, d);
      assert inner + Turns(i, Half(|level|)) == below + Turns(j, |level|);
    }
  }

  /** A proof with indices below the count it claims, verifying against the root of `data`. */
  ghost predicate Claims(key: Key, data: seq<Byte>, p: MerkleProof, key': Key) {
    SanityCheck(p) && InRange(p, p.totalLeaves) && p.root == Blake3Root(key, data) && Verifies(p, key')
  }

  /** Every leaf such a proof carries is the committed chunk at its index, and hangs in the claimed tree
      where it hangs in the true one. */
  lemma LeafInPlace(key: Key, data: seq<Byte>, p: MerkleProof, key': Key, k: nat)
    requires |data| > 1024 && Claims(key, data, p, key') && k < |p.leafIndices|
    ensures var c, n := p.leafIndices[k], ChunkCount(|data|);
      && key' == key && c < n && p.leafData[k] == ChunkBytes(data, c)
      && p.totalLeaves >= 2 && c < p.totalLeaves && Turns(c, p.totalLeaves) == Turns(c, n)
  {
    var leaves, c, m := LeafCvs(key, data), p.leafIndices[k], p.totalLeaves;
    TopRootIsLeftBalanced(key, leaves);
    SaneIsIncreasing(p);
    LeafMapAt(key', p.leafIndices, p.leafData);
    var cur := LeafMap(key', p.leafIndices, p.leafData);
    assert m >= 2;
    LeafHangs(key', cur, m, p.siblings, c);
    var j, below := RootReachesOnlyItsLevel(key, leaves, Turns(c, m), cur[c]);
    assert below == [];
    assert [] + Turns(j, |leaves|) == Turns(j, |leaves|);
  }

  /** Whatever leaf count a proof claims, if its indices are below that count and it verifies
      against the root of `data`, then every leaf it carries is the committed chunk at its index. */
  lemma LeavesBoundForAnyLeafCount(key: Key, data: seq<Byte>, p: MerkleProof, key': Key)
    requires |data| > 1024 && SanityCheck(p) && InRange(p, p.totalLeaves)
    requires p.root == Blake3Root(key, data) && Verifies(p, key')
    ensures key' == key && LeavesCommitted(p, data)
  {
    LeafInPlace(key, data, p, key', 0);
    forall k | 0 <= k < |p.leafIndices|
      ensures p.leafIndices[k] < ChunkCount(|data|) && p.leafData[k] == ChunkBytes(data, p.leafIndices[k])
    {
      LeafInPlace(key, data, p, key', k);
    }
  }

  // ----- when the leaf count is bound -----

  lemma TurnsOfTwo(c: nat)
    requires c < 2
    ensures Turns(c, 2) == [c == 1]
  {
  }

  /** One level up: a turn, or none for the last node of an odd level. */
  lemma TurnsStep(c: nat, n: nat)
    requires 2 < n && c < n
    ensures 2 <= Half(n) < n && c / 2 < Half(n) && (c == n - 1 ==> c / 2 == Half(n) - 1)
    ensures Turns(c, n) ==
      if c % 2 == 0 && c + 1 == n then Turns(c / 2, Half(n)) else [c % 2 == 1] + Turns(c / 2, Half(n))
  {
    HalfStep(c, n);
    hide Half;
  }

  lemma HalfStep(c: nat, n: nat)
    requires 2 < n && c < n
    ensures 2 <= Half(n) < n && c / 2 < Half(n) && (c == n - 1 ==> c / 2 == Half(n) - 1)
  {
  }

  /** The last node's first turn is to the right: until then it is promoted. */
  lemma {:induction false} LastTurnsRight(n: nat)
    requires n >= 2
    ensures Turns(n - 1, n)[0]
    decreases n
  {
    hide *;
    if n == 2 {
      TurnsOfTwo(1);
    } else {
      TurnsStep(n - 1, n);
      LastTurnsRight(Half(n));
    }
  }

  lemma MoreTurns(c: nat, m: nat)
    requires m >= 2 && c < 2
    ensures m > 2 ==> |Turns(c, m)| >= 2
  {
  }

  /** The place of its last node fixes the size of a level. */
  lemma {:induction false} LastFixesCount(n: nat, m: nat)
    requires 2 <= n <= m && Turns(n - 1, m) == Turns(n - 1, n)
    ensures m == n
    decreases n
  {
    LastTurnsRight(n);
    if n == 2 {
      MoreTurns(1, m);
    } else if n % 2 == 0 {
      var up, up' := Turns(n / 2 - 1, Half(n)), Turns(n / 2 - 1, Half(m));
      assert Turns(n - 1, n)[1..] == up && Turns(n - 1, m)[1..] == up';
      LastFixesCount(Half(n), Half(m));
    }
  }

  /** So does the place of either node of the last pair. */
  lemma LastPairFixesCount(c: nat, n: nat, m: nat)
    requires n >= 2 && m >= 2 && c < n && c < m && c / 2 == (n - 1) / 2
    requires Turns(c, m) == Turns(c, n)
    ensures m == n
  {
    if c == n - 1 {
      LastFixesCount(n, m);
    } else if n == 2 {
      MoreTurns(0, m);
    } else {
      if m == n - 1 {
        LastTurnsRight(m);
      }
      var up, up' := Turns(c / 2, Half(n)), Turns(c / 2, Half(m));
      assert Turns(c, n)[1..] == up && Turns(c, m)[1..] == up';
      LastFixesCount(Half(n), Half(m));
    }
  }

  /** With no node of the last pair known, a level folds the same one node shorter or longer. */
  lemma {:induction false} FoldSame(key: Key, cur: map<nat, Digest>, n: nat, m: nat, i: nat,
                                    next: map<nat, Digest>, sibs: seq<Digest>)
    requires forall c | c in cur :: c + 1 < n && c + 1 < m
    ensures FoldFrom(key, cur, n, n, i, next, sibs) == FoldFrom(key, cur, m, m, i, next, sibs)
    decreases n + m - i
  {
    if i < n || i < m {
      var f := FoldAt(key, cur, n, i, next, sibs);
      if f.Folded? {
        FoldSame(key, cur, n, m, i + 1, f.next, f.rest);
      }
    }
  }

  /** The size that pairs up to the same next level. */
  function Other(n: nat): (m: nat)
    requires n >= 1
    ensures m != n && Half(m) == Half(n)
  {
    if n % 2 == 0 then n - 1 else n + 1
  }

  lemma NoneOfLastPair(s: set<nat>, n: nat)
    requires n >= 2 && Below(s, n) && s != {} && forall c | c in s :: c / 2 != (n - 1) / 2
    ensures n >= 3 && Other(n) >= 3 && forall c | c in s :: c + 1 < n && c + 1 < Other(n)
  {
    var c :| c in s;
    assert c < n && c / 2 != (n - 1) / 2;
  }

  lemma RootSame(key: Key, cur: map<nat, Digest>, n: nat, m: nat, sibs: seq<Digest>)
    requires n > 2 && m > 2 && Half(n) == Half(m) && forall c | c in cur :: c + 1 < n && c + 1 < m
    ensures RootFrom(key, cur, n, n, sibs) == RootFrom(key, cur, m, m, sibs)
  {
    FoldSame(key, cur, n, m, 0, map[], sibs);
    hide FoldFrom;
  }

  lemma HonestIs(key: Key, data: seq<Byte>, s: set<nat>)
    requires |data| > 1024 && Below(s, ChunkCount(|data|))
    ensures var h, n := HonestProof(key, data, s), ChunkCount(|data|);
      && h.totalLeaves == n && h.root == Blake3Root(key, data)
      && AllBelow(h.leafIndices, n) && Elements(h.leafIndices) == s
  {
    TopRootIsLeftBalanced(key, LeafCvs(key, data));
    hide TopRoot, Siblings, ProofLeaf, LeafCvs;
  }

  /** What the change of the count leaves as it was. */
  lemma OtherIsSane(h: MerkleProof, s: set<nat>, n: nat, p: MerkleProof)
    requires SanityCheck(h) && Elements(h.leafIndices) == s && AllBelow(h.leafIndices, n)
    requires n >= 1 && p == h.(totalLeaves := Other(n)) && forall c | c in s :: c + 1 < Other(n)
    ensures SanityCheck(p) && InRange(h, n) && InRange(p, p.totalLeaves) && p.totalLeaves != n &&
      Half(p.totalLeaves) == Half(n)
  {
    hide Other, Half;
    forall k | 0 <= k < |h.leafIndices| ensures h.leafIndices[k] < p.totalLeaves {
      assert h.leafIndices[k] in s;
    }
  }

  lemma ClaimsIs(key: Key, data: seq<Byte>, p: MerkleProof, key': Key)
    requires SanityCheck(p) && InRange(p, p.totalLeaves) && p.root == Blake3Root(key, data) && Verifies(p, key')
    ensures Claims(key, data, p, key')
  {
    hide SanityCheck, InRange, Blake3Root, Verifies;
  }

  /** The leaf count is not bound by the root alone: the prover's proof that opens no leaf of the last
      pair also verifies under the other count, for every tree and every such set of leaves. */
  lemma LeafCountNotBound(key: Key, data: seq<Byte>, s: set<nat>)
    requires |data| > 1024 && s != {} && Below(s, ChunkCount(|data|))
    requires forall c | c in s :: c / 2 != (ChunkCount(|data|) - 1) / 2
    ensures var n := ChunkCount(|data|); var p := HonestProof(key, data, s).(totalLeaves := Other(n));
      Claims(key, data, p, key) && Elements(p.leafIndices) == s && p.totalLeaves != n
  {
    hide *;
    var n, h := ChunkCount(|data|), HonestProof(key, data, s);
    var p := h.(totalLeaves := Other(n));
    HonestProofVerifiesExactly(key, data, s);
    HonestIs(key, data, s);
    NoneOfLastPair(s, n);
    OtherIsSane(h, s, n, p);
    SaneInRange(h, key, n);
    SaneInRange(p, key, p.totalLeaves);
    RootSame(key, LeafMap(key, h.leafIndices, h.leafData), n, p.totalLeaves, h.siblings);
    ClaimsIs(key, data, p, key);
  }

  /** Opening the leaves `s` forces the leaf count to be claimed right exactly when one of them is in
      the last pair. */
  lemma LeafCountBoundExactly(key: Key, data: seq<Byte>, s: set<nat>)
    requires |data| > 1024 && s != {} && Below(s, ChunkCount(|data|))
    ensures var n := ChunkCount(|data|);
      (exists c | c in s :: c / 2 == (n - 1) / 2) <==>
      (forall p: MerkleProof, key': Key | Claims(key, data, p, key') && Elements(p.leafIndices) == s ::
        p.totalLeaves == n)
  {
    var n := ChunkCount(|data|);
    if c :| c in s && c / 2 == (n - 1) / 2 {
      forall p: MerkleProof, key': Key | Claims(key, data, p, key') && Elements(p.leafIndices) == s
        ensures p.totalLeaves == n
      {
        var k :| 0 <= k < |p.leafIndices| && p.leafIndices[k] == c;
        LeafInPlace(key, data, p, key', k);
        LastPairFixesCount(c, n, p.totalLeaves);
      }
    } else {
      LeafCountNotBound(key, data, s);
    }
  }

  /** Out-of-range indices are not refused: beside a true leaf 0 of a two-leaf tree, any leaf at
      any index from 2 up verifies, although it is no leaf of the tree. */
  lemma OutOfRangeLeafAccepted(key: Key, data: seq<Byte>, index: nat, extra: seq<Byte>)
    requires |data| == 2 * 1024 && index >= 2
    ensures var leaves := LeafCvs(key, data);
      var p := MerkleProof([ChunkBytes(data, 0), extra], [0, index], 2, Blake3Root(key, data), [leaves[1]]);
      SanityCheck(p) && p.totalLeaves == |leaves| && Verifies(p, key) && !LeavesCommitted(p, data)
  {
    var leaves := LeafCvs(key, data);
    TopRootIsLeftBalanced(key, leaves);
    var indices, chunks := [0, index], [ChunkBytes(data, 0), extra];
    assert indices[..1] == [0] && chunks[..1] == [ChunkBytes(data, 0)];
    assert LeafMap(key, [0], [ChunkBytes(data, 0)]) == map[0 := leaves[0]];
    assert LeafMap(key, indices, chunks) == map[0 := leaves[0], index := Chunk(key, extra, index)];
  }

  /** The guard that is missing: a verifying proof with the tree's leaf count carries only
      committed leaves if and only if its indices are below that count. */
  lemma LeavesCommittedExactlyInRange(key: Key, data: seq<Byte>, p: MerkleProof, key': Key)
    requires |data| > 1024 && SanityCheck(p) && p.totalLeaves == ChunkCount(|data|)
    requires p.root == Blake3Root(key, data) && Verifies(p, key')
    ensures LeavesCommitted(p, data) <==> InRange(p, p.totalLeaves)
  {
    if InRange(p, p.totalLeaves) {
      LeavesBoundForAnyLeafCount(key, data, p, key');
    }
  }
}
