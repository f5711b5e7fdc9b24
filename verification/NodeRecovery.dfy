/** Recomputing inner nodes of a tree from the labelled siblings and the opened leaves of a proof. */
module NodeRecovery {
  import opened Digests
  import opened MerkleTrees
  import opened MerkleProofs
  import opened ProofVerification
  import opened Extraction
  import opened SiblingRanges

  // ----- the midpoint -----

  /** The smallest power of two that is at least x. */
  function NextPow2(x: nat): (p: nat)
    ensures x <= p && p >= 1 && (x < 2 ==> p == 1)
    ensures x >= 2 ==> p < 2 * x && p % 2 == 0
  {
    if x <= 1 then 1 else
      var p := NextPow2(Half(x));
      HalfOf(x, p);
      2 * p
  }

  lemma HalfOf(x: nat, p: nat)
    requires x >= 2 && Half(x) <= p && (Half(x) >= 2 ==> p < 2 * Half(x) && p % 2 == 0) && (Half(x) < 2 ==> p == 1)
    ensures 1 <= Half(x) < x && x <= 2 * p < 2 * x
  {
    assert Half(x) >= 2 ==> p + 2 <= 2 * Half(x);
  }

  /** Where the code splits a range. */
  function Mid(start: nat, end: nat): (mid: nat)
    requires start + 2 <= end
    ensures start < mid < end
  {
    start + NextPow2(end - start) / 2
  }

  lemma NextPow2Halves(x: nat)
    requires x >= 2
    ensures NextPow2(x) == 2 * NextPow2((x + 1) / 2)
  {
  }

  lemma NextPow2By32(x: nat)
    requires x > 32
    ensures NextPow2(x) == 32 * NextPow2((x + 31) / 32)
  {
    hide NextPow2;
    var a := (x + 1) / 2;
    var b := (a + 1) / 2;
    var c := (b + 1) / 2;
    var d := (c + 1) / 2;
    NextPow2Halves(x);
    NextPow2Halves(a);
    NextPow2Halves(b);
    NextPow2Halves(c);
    NextPow2Halves(d);
    assert (d + 1) / 2 == (x + 31) / 32;
  }

  lemma {:induction false} NextPow2IsSplit(c: nat)
    requires c >= 2
    ensures NextPow2(c) == 2 * Split(c)
  {
    if c > 2 {
      NextPow2IsSplit(Half(c));
    }
  }

  /** The midpoint of a run of chunks, the last possibly short, is where the tree splits it. */
  lemma MidpointSplits(len: nat)
    requires len > 1024
    ensures ChunkCount(len) >= 2 && NextPow2(len) / 2 == Split(ChunkCount(len)) * 1024
  {
    hide NextPow2, Split;
    NextPow2By32(len);
    NextPow2By32((len + 31) / 32);
    assert ((len + 31) / 32 + 31) / 32 == ChunkCount(len);
    NextPow2IsSplit(ChunkCount(len));
  }

  lemma Midpoint(start: nat, end: nat)
    requires start % 1024 == 0 && end > start + 1024
    ensures var mid, lo, hi := Mid(start, end), start / 1024, ChunkCount(end);
      lo + 2 <= hi && mid % 1024 == 0 && mid / 1024 == ChunkCount(mid) == lo + Split(hi - lo)
  {
    MidpointSplits(end - start);
    hide NextPow2, Split;
    assert ChunkCount(end - start) == ChunkCount(end) - start / 1024;
  }

  // ----- recomputing a range -----

  ghost predicate Labelled(ranges: seq<Range>, start: nat, end: nat) {
    exists t | 0 <= t < |ranges| :: ranges[t].start == start && ranges[t].end == end
  }

  /** The leaves at these indices copy 1024 bytes from `start` on. */
  ghost predicate Covered(indices: seq<nat>, start: nat) {
    TotalOverlap(indices, start, start + 1024) == 1024
  }

  /** With ascending indices that is to say that every one of those bytes is opened. */
  lemma CoveredIs(indices: seq<nat>, start: nat)
    requires Increasing(indices)
    ensures Covered(indices, start) <==> forall q: nat | start <= q < start + 1024 :: Opened(indices, q)
  {
    TotalIsCount(indices, start, start + 1024);
    CountAll(indices, start, start + 1024);
    hide TotalOverlap, CountOpened;
  }

  /** The range can be rebuilt from the labels and the opened leaves. */
  ghost predicate Recoverable(ranges: seq<Range>, indices: seq<nat>, start: nat, end: nat)
    requires start <= end
    decreases end - start
  {
    || Labelled(ranges, start, end)
    || (end == start + 1024 && Covered(indices, start))
    || (end >= start + 2 && end != start + 1024
        && Recoverable(ranges, indices, start, Mid(start, end)) && Recoverable(ranges, indices, Mid(start, end), end))
  }

  /** The recursion comes to an end: an unlabelled range of at most one byte is split into itself for ever,
      and a right half is not looked at when the left one is missing. */
  ghost predicate Ends(ranges: seq<Range>, indices: seq<nat>, start: nat, end: nat)
    requires start <= end
    decreases end - start
  {
    || Labelled(ranges, start, end)
    || end == start + 1024
    || (end >= start + 2 && Ends(ranges, indices, start, Mid(start, end))
        && (Recoverable(ranges, indices, start, Mid(start, end)) ==> Ends(ranges, indices, Mid(start, end), end)))
  }

  /** The recursion into whole chunks ends, whatever the labels and the opened leaves are. */
  lemma {:induction false} AlignedEnds(ranges: seq<Range>, indices: seq<nat>, start: nat, end: nat)
    requires start % 1024 == 0 && end % 1024 == 0 && start < end
    ensures Ends(ranges, indices, start, end)
    decreases end - start
  {
    hide *;
    EndsStep(ranges, indices, start, end);
    if end > start + 1024 {
      Midpoint(start, end);
      AlignedEnds(ranges, indices, start, Mid(start, end));
      AlignedEnds(ranges, indices, Mid(start, end), end);
    }
  }

  lemma EndsStep(ranges: seq<Range>, indices: seq<nat>, start: nat, end: nat)
    requires start <= end
    ensures end == start + 1024 ==> Ends(ranges, indices, start, end)
    ensures end >= start + 2 && Ends(ranges, indices, start, Mid(start, end)) &&
      Ends(ranges, indices, Mid(start, end), end)
      ==> Ends(ranges, indices, start, end)
  {
    hide Labelled, Recoverable, Mid;
  }

  datatype CvResult = Cv(cv: Digest) | Missing | Endless

  method FindRange(ranges: seq<Range>, start: nat, end: nat) returns (r: Option<Digest>)
    ensures r.Some? <==> Labelled(ranges, start, end)
    ensures r.Some? ==> Range(start, end, r.value) in ranges
  {
    for t := 0 to |ranges|
      invariant forall u | 0 <= u < t :: ranges[u].start != start || ranges[u].end != end
    {
      if ranges[t].start == start && ranges[t].end == end {
        return Some(ranges[t].cv);
      }
    }
    return None;
  }

  ghost predicate TrueLabels(ranges: seq<Range>, key: Key, data: seq<Byte>) {
    forall t | 0 <= t < |ranges| :: TrueRange(key, data, ranges[t])
  }

  /** The opened leaves that start in the range are chunks of `data`. */
  ghost predicate CommittedIn(p: MerkleProof, data: seq<Byte>, start: nat, end: nat)
    requires |p.leafIndices| == |p.leafData|
  {
    forall k | 0 <= k < |p.leafIndices| && start <= p.leafIndices[k] * 1024 < end ::
      p.leafIndices[k] < ChunkCount(|data|) && p.leafData[k] == ChunkBytes(data, p.leafIndices[k])
  }

  /** The proof is sane, the labels are true and so are the leaves opened in the range. */
  ghost predicate Sound(p: MerkleProof, ranges: seq<Range>, key: Key, data: seq<Byte>, start: nat, end: nat) {
    SanityCheck(p) && TrueLabels(ranges, key, data) && CommittedIn(p, data, start, end)
  }

  method LeafCv(p: MerkleProof, start: nat, key: Key, ghost data: seq<Byte>) returns (r: Option<Digest>)
    requires forall k | 0 <= k < |p.leafData| :: |p.leafData[k]| == 1024
    ensures r.Some? <==> Covered(LeafIndices(p), start)
    ensures SaneAligned(p, data, start) && r.Some? ==> r.value == LeafCvs(key, data)[start / 1024]
  {
    var bytes := ExtractBytes(p, start, 1024);
    if bytes.None? {
      return None;
    }
    r := Some(Chunk(key, bytes.value, start / 1024));
    if SaneAligned(p, data, start) {
      HeldLeafIsTrue(p, data, start, bytes.value);
    }
  }

  lemma HeldLeafIsTrue(p: MerkleProof, data: seq<Byte>, start: nat, bytes: seq<Byte>)
    requires SaneAligned(p, data, start) && |bytes| == 1024
    requires forall i | 0 <= i < 1024 :: HoldsByte(p, start + i, bytes[i])
    ensures start / 1024 < ChunkCount(|data|) && bytes == ChunkBytes(data, start / 1024)
  {
    hide *;
    HeldByteIsTrue(p, data, start, 0, bytes[0]);
    forall i | 0 <= i < 1024 ensures bytes[i] == ChunkBytes(data, start / 1024)[i] {
      HeldByteIsTrue(p, data, start, i, bytes[i]);
    }
  }

  /** A whole chunk of the data whose leaf, if opened, is that chunk. */
  ghost predicate SaneAligned(p: MerkleProof, data: seq<Byte>, start: nat) {
    && SanityCheck(p) && start % 1024 == 0 && start + 1024 <= |data|
    && CommittedIn(p, data, start, start + 1024)
  }

  lemma HeldByteIsTrue(p: MerkleProof, data: seq<Byte>, start: nat, i: nat, b: Byte)
    requires SaneAligned(p, data, start) && i < 1024 && HoldsByte(p, start + i, b)
    ensures start / 1024 < ChunkCount(|data|) && |ChunkBytes(data, start / 1024)| == 1024
    ensures ChunkBytes(data, start / 1024)[i] == b
  {
    var k :| 0 <= k < |p.leafIndices| && k < |p.leafData| && p.leafIndices[k] == (start + i) / 1024
      && |p.leafData[k]| == 1024 && p.leafData[k][(start + i) % 1024] == b;
    assert p.leafIndices[k] * 1024 == start;
  }

  /** r is the right answer for the range: a value exactly when it is recoverable, endless exactly when the
      recursion does not end, and for whole chunks the true subtree when labels and leaves are sound. */
  ghost predicate Answers(p: MerkleProof, ranges: seq<Range>, key: Key, data: seq<Byte>,
                          start: nat, end: nat, r: CvResult)
    requires start <= end
  {
    && (r.Cv? <==> Recoverable(ranges, LeafIndices(p), start, end))
    && (r.Endless? <==> !Ends(ranges, LeafIndices(p), start, end))
    && (r.Cv? && Sound(p, ranges, key, data, start, end) && Whole(data, start, end) ==>
          r.cv == NodeOver(key, data, start, end))
  }

  lemma AnswerFromLabel(p: MerkleProof, ranges: seq<Range>, key: Key, data: seq<Byte>, start: nat, end: nat, cv: Digest)
    requires start <= end && Range(start, end, cv) in ranges
    ensures Answers(p, ranges, key, data, start, end, Cv(cv))
  {
    hide NodeOver, CommittedIn, Whole;
    var t :| 0 <= t < |ranges| && ranges[t] == Range(start, end, cv);
    assert Labelled(ranges, start, end);
  }

  lemma OneLeafSubtree(key: Key, leaves: seq<Digest>, lo: nat)
    requires lo < |leaves|
    ensures Subtree(key, leaves[lo..lo + 1]) == leaves[lo]
  {
  }

  lemma AnswerFromLeaf(p: MerkleProof, ranges: seq<Range>, key: Key, data: seq<Byte>, start: nat, r: Option<Digest>)
    requires !Labelled(ranges, start, start + 1024)
    requires r.Some? <==> Covered(LeafIndices(p), start)
    requires SaneAligned(p, data, start) && r.Some? ==> r.value == LeafCvs(key, data)[start / 1024]
    ensures Answers(p, ranges, key, data, start, start + 1024, if r.Some? then Cv(r.value) else Missing)
  {
    hide CommittedIn, Covered, Labelled, LeafCvs, Subtree, TrueLabels;
    if start % 1024 == 0 && start + 1024 <= |data| {
      assert ChunkCount(start + 1024) == start / 1024 + 1;
      OneLeafSubtree(key, LeafCvs(key, data), start / 1024);
    }
  }

  /** With true labels a piece of a chunk that is not labelled cannot be rebuilt. */
  lemma {:induction false} NoPieces(ranges: seq<Range>, indices: seq<nat>, key: Key, data: seq<Byte>,
                                    start: nat, end: nat)
    requires TrueLabels(ranges, key, data)
    requires start < end <= |data| && start / 1024 == (end - 1) / 1024 && end < start + 1024 &&
      !Labelled(ranges, start, end)
    ensures !Recoverable(ranges, indices, start, end)
    decreases end - start
  {
    hide NextPow2, NodeOver;
    if end >= start + 2 {
      var mid := Mid(start, end);
      NoPieces(ranges, indices, key, data, start, mid);
    }
  }

  lemma HalvesAreWhole(data: seq<Byte>, start: nat, end: nat)
    requires Whole(data, start, end) && end > start + 1024
    ensures Whole(data, start, Mid(start, end)) && Whole(data, Mid(start, end), end)
    ensures start / 1024 + 2 <= ChunkCount(end) <= ChunkCount(|data|)
    ensures var lo, hi := start / 1024, ChunkCount(end);
      Mid(start, end) / 1024 == ChunkCount(Mid(start, end)) == lo + Split(hi - lo)
  {
    Midpoint(start, end);
    WholeChunks(data, start, end);
    hide Split, NextPow2, ChunkCount;
  }

  /** The subtree over more than one chunk is the parent of those over its halves. */
  lemma NodeOverSplits(key: Key, data: seq<Byte>, start: nat, end: nat)
    requires Whole(data, start, end) && end > start + 1024
    ensures var mid := Mid(start, end);
      && Whole(data, start, mid) && Whole(data, mid, end)
      && NodeOver(key, data, start, end) == Parent(key, NodeOver(key, data, start, mid), NodeOver(key, data, mid, end))
  {
    hide *;
    HalvesAreWhole(data, start, end);
    var mid := Mid(start, end);
    SubtreeOfSlice(key, LeafCvs(key, data), start / 1024, ChunkCount(end));
    OverIs(key, data, start, end);
    OverIs(key, data, start, mid);
    OverIs(key, data, mid, end);
  }

  lemma OverIs(key: Key, data: seq<Byte>, start: nat, end: nat)
    requires Whole(data, start, end)
    ensures start / 1024 < ChunkCount(end) <= ChunkCount(|data|) == |LeafCvs(key, data)|
    ensures NodeOver(key, data, start, end) == Subtree(key, LeafCvs(key, data)[start / 1024 .. ChunkCount(end)])
  {
    WholeChunks(data, start, end);
    hide LeafCvs, Subtree, ChunkCount, Whole;
  }

  lemma SubtreeOfSlice(key: Key, leaves: seq<Digest>, lo: nat, hi: nat)
    requires lo + 2 <= hi <= |leaves|
    ensures var mid := lo + Split(hi - lo);
      Subtree(key, leaves[lo..hi]) == Parent(key, Subtree(key, leaves[lo..mid]), Subtree(key, leaves[mid..hi]))
  {
    hide *;
    var p, whole := Split(hi - lo), leaves[lo..hi];
    SubtreeSplits(key, whole);
    assert whole[..p] == leaves[lo..lo + p] && whole[p..] == leaves[lo + p..hi];
  }

  /** What the recursion makes of its two halves. */
  function Joined(key: Key, left: CvResult, right: CvResult): (r: CvResult) {
    if !left.Cv? then left else if !right.Cv? then right else Cv(Parent(key, left.cv, right.cv))
  }

  lemma AnswerFromHalves(p: MerkleProof, ranges: seq<Range>, key: Key, data: seq<Byte>, start: nat, end: nat,
                         left: CvResult, right: CvResult)
    requires start + 2 <= end && end != start + 1024 && !Labelled(ranges, start, end)
    requires var mid := Mid(start, end);
      Answers(p, ranges, key, data, start, mid, left) && (left.Cv? ==> Answers(p, ranges, key, data, mid, end, right))
    ensures Answers(p, ranges, key, data, start, end, Joined(key, left, right))
  {
    hide TrueLabels, NodeOver, Mid, Labelled;
    var r := Joined(key, left, right);
    if r.Cv? && Sound(p, ranges, key, data, start, end) && Whole(data, start, end) {
      if end < start + 1024 {
        NoPieces(ranges, LeafIndices(p), key, data, start, end);
      } else {
        NodeOverSplits(key, data, start, end);
      }
    }
  }

  /** Recomputes any byte range from the labels and the opened leaves. Whole chunks always get an answer or
      an error. */
  method ComputeCv(p: MerkleProof, start: nat, end: nat, ranges: seq<Range>, key: Key, ghost data: seq<Byte>)
    returns (r: CvResult)
    requires start <= end && forall k | 0 <= k < |p.leafData| :: |p.leafData[k]| == 1024
    ensures Answers(p, ranges, key, data, start, end, r)
    ensures start % 1024 == 0 && end % 1024 == 0 && start < end ==> !r.Endless?
    decreases end - start
  {
    hide *;
    var found := FindRange(ranges, start, end);
    if found.Some? {
      r := Cv(found.value);
      AnswerFromLabel(p, ranges, key, data, start, end, found.value);
    } else if end - start == 1024 {
      var leaf := LeafCv(p, start, key, data);
      r := if leaf.Some? then Cv(leaf.value) else Missing;
      AnswerFromLeaf(p, ranges, key, data, start, leaf);
    } else if end - start < 2 {
      r := Endless;
      AnswerEndless(p, ranges, key, data, start, end);
    } else {
      var mid := Mid(start, end);
      var left := ComputeCv(p, start, mid, ranges, key, data);
      var right: CvResult := Missing;
      if left.Cv? {
        right := ComputeCv(p, mid, end, ranges, key, data);
      }
      r := Joined(key, left, right);
      AnswerFromHalves(p, ranges, key, data, start, end, left, right);
    }
    AlignedAnswer(p, ranges, key, data, start, end, r);
  }

  lemma AlignedAnswer(p: MerkleProof, ranges: seq<Range>, key: Key, data: seq<Byte>, start: nat, end: nat, r: CvResult)
    requires start <= end && Answers(p, ranges, key, data, start, end, r)
    ensures start % 1024 == 0 && end % 1024 == 0 && start < end ==> !r.Endless?
  {
    if start % 1024 == 0 && end % 1024 == 0 && start < end {
      AlignedEnds(ranges, LeafIndices(p), start, end);
    }
    hide Recoverable, Ends, LeafIndices, Sound, Whole, NodeOver;
  }

  lemma AnswerEndless(p: MerkleProof, ranges: seq<Range>, key: Key, data: seq<Byte>, start: nat, end: nat)
    requires start <= end < start + 2 && !Labelled(ranges, start, end)
    ensures Answers(p, ranges, key, data, start, end, Endless)
  {
    hide Labelled, Sound, Whole;
  }

  // ----- the ancestors of opened leaves -----

  /** The ancestors at level k of the nodes in s. */
  function Ancestors(s: set<nat>, k: nat): (a: set<nat>) {
    if k == 0 then s else Parents(Ancestors(s, k - 1))
  }

  lemma {:induction false} AncestorsBelow(key: Key, leaves: seq<Digest>, s: set<nat>, k: nat)
    requires Below(s, |leaves|)
    ensures Below(Ancestors(s, k), |Layer(key, leaves, k)|)
  {
    if k > 0 {
      AncestorsBelow(key, leaves, s, k - 1);
      ParentsBelow(Ancestors(s, k - 1), |Layer(key, leaves, k - 1)|);
    }
  }

  /** A node that is not known, next to one that is, needs a sibling. */
  lemma {:induction false} NeededAtLevel(s: set<nat>, n: nat, i: nat, k: nat, d: nat)
    requires d < n && d !in s && i <= Sibling(d) < n
    requires Sibling(d) in s
    ensures Position(k, d) in NeededFrom(s, n, n, i, k)
    decreases n - i
  {
    var c := Sibling(d);
    if i == c {
      assert NeededAt(s, n, c, k) == [Position(k, d)];
    } else {
      NeededAtLevel(s, n, i + 1, k, d);
    }
  }

  lemma {:induction false} NeededContains(key: Key, leaves: seq<Digest>, s: set<nat>, j: nat, k: nat, pos: Position)
    requires j <= k && |Layer(key, leaves, k)| > 1
    requires var n := |Layer(key, leaves, k)|; pos in NeededFrom(Ancestors(s, k), n, n, 0, k)
    ensures var n := |Layer(key, leaves, j)|; pos in Needed(Ancestors(s, j), n, n, j)
    decreases k - j
  {
    LayersShrink(key, leaves, j, k);
    if j < k {
      NeededContains(key, leaves, s, j + 1, k, pos);
      hide NeededFrom;
      var n := |Layer(key, leaves, j)|;
      assert Ancestors(s, j + 1) == Parents(Ancestors(s, j)) && |Layer(key, leaves, j + 1)| == Half(n);
    }
  }

  lemma {:induction false} LayersShrink(key: Key, leaves: seq<Digest>, j: nat, k: nat)
    requires j <= k
    ensures |Layer(key, leaves, k)| <= |Layer(key, leaves, j)|
    decreases k - j
  {
    if j < k {
      LayersShrink(key, leaves, j, k - 1);
    }
  }

  /** A sibling that is needed at a level is not itself known there, and is beside one that is. */
  lemma {:induction false} NeededIsUnknown(s: set<nat>, n: nat, i: nat, k: nat, pos: Position)
    requires pos in NeededFrom(s, n, n, i, k)
    ensures pos.level == k && pos.index !in s && Sibling(pos.index) in s
    decreases n - i
  {
    if pos !in NeededAt(s, n, i, k) {
      NeededIsUnknown(s, n, i + 1, k, pos);
    }
  }

  lemma {:induction false} NeededIsNoAncestor(s: set<nat>, n: nat, k: nat, pos: Position)
    requires pos in Needed(Ancestors(s, k), n, n, k)
    ensures pos.index !in Ancestors(s, pos.level) && Sibling(pos.index) in Ancestors(s, pos.level)
    decreases n
  {
    hide NeededFrom;
    if pos in NeededFrom(Ancestors(s, k), n, n, 0, k) {
      NeededIsUnknown(Ancestors(s, k), n, 0, k, pos);
    } else {
      assert Ancestors(s, k + 1) == Parents(Ancestors(s, k));
      NeededIsNoAncestor(s, Half(n), k + 1, pos);
    }
  }

  /** The node over leaf c at level k is an ancestor of c. */
  lemma {:induction false} AncestorOver(s: set<nat>, k: nat, c: nat, d: nat)
    requires c in s && FirstLeaf(k, d) <= c < FirstLeaf(k, d + 1)
    ensures d in Ancestors(s, k)
  {
    if k > 0 {
      assert 2 * (d + 1) == 2 * d + 1 + 1;
      var child := if c < FirstLeaf(k - 1, 2 * d + 1) then 2 * d else 2 * d + 1;
      AncestorOver(s, k - 1, c, child);
      assert child / 2 == d;
    }
  }

  /** The labels of the honest proof for s. */
  ghost function HonestRanges(key: Key, data: seq<Byte>, s: set<nat>): (ranges: seq<Range>) {
    var n := ChunkCount(|data|);
    Labels(Needed(s, n, n, 0), |data|, Siblings(key, LeafCvs(key, data), s))
  }

  /** No label covers the start of an opened leaf. */
  lemma LabelsMissOpened(key: Key, data: seq<Byte>, s: set<nat>, t: nat, c: nat)
    requires t < |HonestRanges(key, data, s)| && c in s
    ensures var r := HonestRanges(key, data, s)[t]; !(r.start <= c * 1024 < r.end)
  {
    var n := ChunkCount(|data|);
    var pos := Needed(s, n, n, 0)[t];
    hide Needed, Siblings, FirstLeaf, LeafCvs;
    var r := HonestRanges(key, data, s)[t];
    assert r == Label(pos, |data|, Siblings(key, LeafCvs(key, data), s)[t]);
    assert Ancestors(s, 0) == s;
    NeededIsNoAncestor(s, n, 0, pos);
    if r.start <= c * 1024 < r.end {
      AncestorOver(s, pos.level, c, pos.index);
    }
  }

  lemma Unlabelled(key: Key, data: seq<Byte>, s: set<nat>, c: nat, start: nat, end: nat)
    requires c in s && start <= c * 1024 < end
    ensures !Labelled(HonestRanges(key, data, s), start, end)
  {
    hide HonestRanges;
    var ranges := HonestRanges(key, data, s);
    if t :| 0 <= t < |ranges| && ranges[t].start == start && ranges[t].end == end {
      LabelsMissOpened(key, data, s, t, c);
    }
  }

  lemma BaseLevel(key: Key, leaves: seq<Digest>, s: set<nat>)
    ensures Ancestors(s, 0) == s && Layer(key, leaves, 0) == leaves
  {
  }

  /** A node beside a known one is labelled with its whole byte range. */
  lemma SiblingLabelled(key: Key, data: seq<Byte>, s: set<nat>, k: nat, d: nat)
    requires |data| > 1024
    requires var m := |Layer(key, LeafCvs(key, data), k)|;
      d < m && d !in Ancestors(s, k) && Sibling(d) < m
    requires Sibling(d) in Ancestors(s, k)
    ensures Labelled(HonestRanges(key, data, s), FirstLeaf(k, d) * 1024, NodeStop(|data|, k, d))
  {
    hide Needed, Siblings, NeededFrom, LeafCvs, Layer, Ancestors, FirstLeaf, NodeStop;
    var leaves, n := LeafCvs(key, data), ChunkCount(|data|);
    var m := |Layer(key, leaves, k)|;
    BaseLevel(key, leaves, s);
    NeededAtLevel(Ancestors(s, k), m, 0, k, d);
    NeededContains(key, leaves, s, 0, k, Position(k, d));
    SiblingsFound(key, leaves, s, 0);
    PositionLabelled(Needed(s, n, n, 0), |data|, Siblings(key, leaves, s), Position(k, d));
  }

  lemma PositionLabelled(needed: seq<Position>, size: nat, siblings: seq<Digest>, pos: Position)
    requires |needed| == |siblings| && pos in needed
    ensures Labelled(Labels(needed, size, siblings), FirstLeaf(pos.level, pos.index) * 1024,
      NodeStop(size, pos.level, pos.index))
  {
    hide FirstLeaf, NodeStop;
    var t :| 0 <= t < |needed| && needed[t] == pos;
    LabelStops(pos, size, siblings[t]);
    assert Labels(needed, size, siblings)[t] == Label(pos, size, siblings[t]);
  }

  // ----- which nodes are recoverable -----

  /** Data of more than one chunk, with the indices of `s` in range and opened in ascending order. */
  ghost predicate Openable(data: seq<Byte>, s: set<nat>, indices: seq<nat>) {
    |data| > 1024 && Below(s, ChunkCount(|data|)) && Increasing(indices) && Elements(indices) == s
  }

  /** Node (k, i) is over no short chunk that is opened. */
  ghost predicate NoShortLeaf(data: seq<Byte>, s: set<nat>, k: nat, i: nat) {
    var n := ChunkCount(|data|);
    |data| % 1024 == 0 || n - 1 !in s || NodeEnd(n, k, i) < n
  }

  ghost predicate NodeRecoverable(key: Key, data: seq<Byte>, s: set<nat>, indices: seq<nat>, k: nat, i: nat) {
    && FirstLeaf(k, i) * 1024 <= NodeStop(|data|, k, i)
    && Recoverable(HonestRanges(key, data, s), indices, FirstLeaf(k, i) * 1024, NodeStop(|data|, k, i))
  }

  /** From an honest proof every ancestor-or-self of an opened leaf is recoverable, unless a short chunk
      under it is opened. */
  lemma {:induction false} AncestorsRecoverable(key: Key, data: seq<Byte>, s: set<nat>, indices: seq<nat>, k: nat,
                                                i: nat)
    requires Openable(data, s, indices) && i in Ancestors(s, k) && NoShortLeaf(data, s, k, i)
    ensures NodeRecoverable(key, data, s, indices, k, i)
    decreases k, 0
  {
    hide NodeRecoverable, Ancestors, Layer, NoShortLeaf, NodeEnd;
    var leaves := LeafCvs(key, data);
    if k == 0 {
      LeafRecoverable(key, data, s, indices, i);
    } else {
      var c := AncestorChild(key, leaves, s, k, i);
      if 2 * i + 1 < |Layer(key, leaves, k - 1)| {
        NodeInRange(key, leaves, k - 1, 2 * i + 1);
        ShortBelow(data, s, k, i);
        ChildRecoverable(key, data, s, indices, k - 1, 2 * i, c);
        ChildRecoverable(key, data, s, indices, k - 1, 2 * i + 1, c);
        JoinHalves(key, data, s, indices, k, i);
      } else {
        NodePromoted(key, leaves, k, i);
        SameEnd(data, s, k, i);
        AncestorsRecoverable(key, data, s, indices, k - 1, 2 * i);
        JoinPromoted(key, data, s, indices, k, i);
      }
    }
  }

  /** A node over no opened short chunk has children of that kind. */
  lemma ShortBelow(data: seq<Byte>, s: set<nat>, k: nat, i: nat)
    requires k > 0 && FirstLeaf(k - 1, 2 * i + 1) < ChunkCount(|data|) && NoShortLeaf(data, s, k, i)
    ensures NoShortLeaf(data, s, k - 1, 2 * i) && NoShortLeaf(data, s, k - 1, 2 * i + 1)
  {
    NodeBounds(ChunkCount(|data|), k, i);
    hide NodeEnd, FirstLeaf;
  }

  lemma SameEnd(data: seq<Byte>, s: set<nat>, k: nat, i: nat)
    requires k > 0 && NodeEnd(ChunkCount(|data|), k, i) == NodeEnd(ChunkCount(|data|), k - 1, 2 * i)
    ensures NoShortLeaf(data, s, k, i) <==> NoShortLeaf(data, s, k - 1, 2 * i)
    ensures NodeStop(|data|, k, i) == NodeStop(|data|, k - 1, 2 * i)
  {
    hide NodeEnd;
  }

  lemma LeafRecoverable(key: Key, data: seq<Byte>, s: set<nat>, indices: seq<nat>, i: nat)
    requires Openable(data, s, indices) && i in Ancestors(s, 0) && NoShortLeaf(data, s, 0, i)
    ensures NodeRecoverable(key, data, s, indices, 0, i)
  {
    hide HonestRanges;
    assert FirstLeaf(0, i) == i && FirstLeaf(0, i + 1) == i + 1;
    assert NodeStop(|data|, 0, i) == i * 1024 + 1024;
    assert i in indices;
    assert forall q: nat | i * 1024 <= q < i * 1024 + 1024 :: q / 1024 == i;
    CoveredIs(indices, i * 1024);
    hide Covered, Increasing;
  }

  /** The bytes of a node split where the bytes of its children meet. */
  lemma SpanBytes(size: nat, k: nat, i: nat)
    requires k > 0 && FirstLeaf(k - 1, 2 * i + 1) < ChunkCount(size)
    ensures var start, stop := FirstLeaf(k, i) * 1024, NodeStop(size, k, i);
      && start + 1024 < stop && start == FirstLeaf(k - 1, 2 * i) * 1024
      && Mid(start, stop) == FirstLeaf(k - 1, 2 * i + 1) * 1024 == NodeStop(size, k - 1, 2 * i)
      && stop == NodeStop(size, k - 1, 2 * i + 1)
  {
    var n := ChunkCount(size);
    NodeBounds(n, k, i);
    var start, stop, end := FirstLeaf(k, i) * 1024, NodeStop(size, k, i), NodeEnd(n, k, i);
    hide FirstLeaf, NodeEnd, Mid, Split;
    SplitIsPow2(end - FirstLeaf(k, i), k - 1);
    assert ChunkCount(stop) == end;
    Midpoint(start, stop);
  }

  lemma JoinHalves(key: Key, data: seq<Byte>, s: set<nat>, indices: seq<nat>, k: nat, i: nat)
    requires k > 0 && FirstLeaf(k - 1, 2 * i + 1) < ChunkCount(|data|)
    requires NodeRecoverable(key, data, s, indices, k - 1, 2 * i)
    requires NodeRecoverable(key, data, s, indices, k - 1, 2 * i + 1)
    ensures NodeRecoverable(key, data, s, indices, k, i)
  {
    SpanBytes(|data|, k, i);
    hide HonestRanges, FirstLeaf, NodeStop, Mid;
  }

  lemma JoinPromoted(key: Key, data: seq<Byte>, s: set<nat>, indices: seq<nat>, k: nat, i: nat)
    requires k > 0 && FirstLeaf(k, i) == FirstLeaf(k - 1, 2 * i)
    requires NodeStop(|data|, k, i) == NodeStop(|data|, k - 1, 2 * i)
    requires NodeRecoverable(key, data, s, indices, k - 1, 2 * i)
    ensures NodeRecoverable(key, data, s, indices, k, i)
  {
    hide HonestRanges, FirstLeaf, NodeStop, Recoverable;
  }

  lemma AncestorChild(key: Key, leaves: seq<Digest>, s: set<nat>, k: nat, i: nat) returns (c: nat)
    requires k > 0 && i in Ancestors(s, k) && Below(s, |leaves|)
    ensures c in Ancestors(s, k - 1) && c / 2 == i == (2 * i) / 2 == (2 * i + 1) / 2
    ensures var m := |Layer(key, leaves, k - 1)|;
      leaves != [] && 2 * i < m && (m <= 2 * i + 1 ==> m == 2 * i + 1 && c == 2 * i)
  {
    c :| c in Ancestors(s, k - 1) && c / 2 == i;
    AncestorsBelow(key, leaves, s, k - 1);
    hide Layer, Ancestors;
  }

  /** Either of two paired nodes, one of them an ancestor, is recoverable. */
  lemma {:induction false} ChildRecoverable(key: Key, data: seq<Byte>, s: set<nat>, indices: seq<nat>,
                                            k: nat, d: nat, c: nat)
    requires Openable(data, s, indices) && c in Ancestors(s, k) && d / 2 == c / 2 && NoShortLeaf(data, s, k, d)
    requires d < |Layer(key, LeafCvs(key, data), k)|
    ensures NodeRecoverable(key, data, s, indices, k, d)
    decreases k, 1
  {
    if d in Ancestors(s, k) {
      AncestorsRecoverable(key, data, s, indices, k, d);
    } else {
      assert c == Sibling(d);
      var leaves := LeafCvs(key, data);
      AncestorsBelow(key, leaves, s, k);
      NodeInRange(key, leaves, k, d);
      NodeIsWhole(data, k, d);
      hide Layer, Ancestors, FirstLeaf, NodeStop, LeafCvs, HonestRanges;
      SiblingLabelled(key, data, s, k, d);
    }
  }

  // ----- an opened short chunk -----

  /** Nothing labelled starts where less than a chunk starts: the recursion into it never ends. */
  lemma {:induction false} PiecesEndless(ranges: seq<Range>, indices: seq<nat>, start: nat, end: nat)
    requires start < end < start + 1024
    requires forall e | start < e <= end :: !Labelled(ranges, start, e)
    ensures !Ends(ranges, indices, start, end)
    decreases end - start
  {
    hide Labelled;
    if end >= start + 2 {
      PiecesEndless(ranges, indices, start, Mid(start, end));
    }
  }

  lemma {:induction false} LastAncestor(key: Key, leaves: seq<Digest>, s: set<nat>, k: nat)
    requires leaves != [] && |leaves| - 1 in s
    ensures |Layer(key, leaves, k)| - 1 in Ancestors(s, k)
  {
    if k > 0 {
      LastAncestor(key, leaves, s, k - 1);
      assert (|Layer(key, leaves, k - 1)| - 1) / 2 == |Layer(key, leaves, k)| - 1;
    }
  }

  /** The last node of a layer is the one over the last leaf. */
  lemma LastNode(key: Key, leaves: seq<Digest>, k: nat, i: nat)
    requires i < |Layer(key, leaves, k)|
    ensures NodeEnd(|leaves|, k, i) == |leaves| <==> i == |Layer(key, leaves, k)| - 1
  {
    LayerLength(key, leaves, k);
    if i + 1 < |Layer(key, leaves, k)| {
      NodeInRange(key, leaves, k, i + 1);
    }
    hide FirstLeaf, Layer;
  }

  /** When the short last chunk is opened, the recursion into any node over it never ends. */
  lemma {:induction false} ShortLeafEndless(key: Key, data: seq<Byte>, s: set<nat>, indices: seq<nat>, k: nat, i: nat)
    requires Openable(data, s, indices) && |data| % 1024 != 0 && ChunkCount(|data|) - 1 in s
    requires i == |Layer(key, LeafCvs(key, data), k)| - 1
    ensures FirstLeaf(k, i) * 1024 < |data|
    ensures !Ends(HonestRanges(key, data, s), indices, FirstLeaf(k, i) * 1024, |data|)
    decreases k
  {
    hide *;
    var leaves := LeafCvs(key, data);
    LastStart(key, data, s, indices, k, i);
    if k == 0 {
      BaseLevel(key, leaves, s);
      FirstLeafBase(i);
      ShortLeafItself(key, data, s, indices);
    } else {
      LayerNode(key, leaves, k, i);
      var m := |Layer(key, leaves, k - 1)|;
      if m == 2 * i + 1 {
        NodePromoted(key, leaves, k, i);
        ShortLeafEndless(key, data, s, indices, k - 1, 2 * i);
      } else {
        ShortLeafEndless(key, data, s, indices, k - 1, 2 * i + 1);
        RightIsEndless(key, data, s, indices, k, i);
      }
    }
  }

  /** No label is over the last node of a layer. */
  lemma LastStart(key: Key, data: seq<Byte>, s: set<nat>, indices: seq<nat>, k: nat, i: nat)
    requires Openable(data, s, indices) && ChunkCount(|data|) - 1 in s
    requires i == |Layer(key, LeafCvs(key, data), k)| - 1
    ensures ChunkCount(|data|) == |LeafCvs(key, data)| >= 2 && FirstLeaf(k, i) * 1024 < |data|
    ensures !Labelled(HonestRanges(key, data, s), FirstLeaf(k, i) * 1024, |data|)
  {
    NodeInRange(key, LeafCvs(key, data), k, i);
    LastChunk(data);
    hide FirstLeaf, Layer, LeafCvs, HonestRanges, Labelled, ChunkCount;
    Unlabelled(key, data, s, ChunkCount(|data|) - 1, FirstLeaf(k, i) * 1024, |data|);
  }

  lemma ShortLeafItself(key: Key, data: seq<Byte>, s: set<nat>, indices: seq<nat>)
    requires |data| > 1024 && |data| % 1024 != 0 && ChunkCount(|data|) - 1 in s
    ensures var start := (ChunkCount(|data|) - 1) * 1024;
      start < |data| && !Ends(HonestRanges(key, data, s), indices, start, |data|)
  {
    LastChunk(data);
    var last := ChunkCount(|data|) - 1;
    hide HonestRanges, Labelled, ChunkCount, Ends;
    forall e | last * 1024 < e <= |data| ensures !Labelled(HonestRanges(key, data, s), last * 1024, e) {
      Unlabelled(key, data, s, last, last * 1024, e);
    }
    PiecesEndless(HonestRanges(key, data, s), indices, last * 1024, |data|);
  }

  lemma FirstLeafBase(i: nat)
    ensures FirstLeaf(0, i) == i
  {
  }

  lemma LastChunk(data: seq<Byte>)
    requires |data| > 1024
    ensures var n := ChunkCount(|data|); n >= 2 && (n - 1) * 1024 < |data| <= n * 1024
    ensures |data| % 1024 != 0 ==> |data| < ChunkCount(|data|) * 1024
  {
  }

  lemma RightIsEndless(key: Key, data: seq<Byte>, s: set<nat>, indices: seq<nat>, k: nat, i: nat)
    requires Openable(data, s, indices) && ChunkCount(|data|) - 1 in s && k > 0
    requires |Layer(key, LeafCvs(key, data), k - 1)| == 2 * i + 2
    requires FirstLeaf(k - 1, 2 * i + 1) * 1024 < |data| && FirstLeaf(k, i) * 1024 < |data|
    requires !Ends(HonestRanges(key, data, s), indices, FirstLeaf(k - 1, 2 * i + 1) * 1024, |data|)
    requires !Labelled(HonestRanges(key, data, s), FirstLeaf(k, i) * 1024, |data|)
    ensures !Ends(HonestRanges(key, data, s), indices, FirstLeaf(k, i) * 1024, |data|)
  {
    hide *;
    var leaves, n := LeafCvs(key, data), ChunkCount(|data|);
    LastAncestor(key, leaves, s, k - 1);
    LastNode(key, leaves, k - 1, 2 * i);
    LastNode(key, leaves, k - 1, 2 * i + 1);
    NodeInRange(key, leaves, k - 1, 2 * i + 1);
    LeftHasNoShort(data, s, k - 1, 2 * i);
    ChildRecoverable(key, data, s, indices, k - 1, 2 * i, 2 * i + 1);
    SpanBytes(|data|, k, i);
    StopAtEnd(|data|, k - 1, 2 * i + 1);
    LeftThenEndless(HonestRanges(key, data, s), indices, FirstLeaf(k, i) * 1024, |data|,
                    FirstLeaf(k - 1, 2 * i + 1) * 1024) by {
      RecoverableIs(key, data, s, indices, k - 1, 2 * i);
    }
  }

  lemma LeftHasNoShort(data: seq<Byte>, s: set<nat>, k: nat, i: nat)
    requires NodeEnd(ChunkCount(|data|), k, i) != ChunkCount(|data|)
    ensures NoShortLeaf(data, s, k, i)
  {
  }

  lemma StopAtEnd(size: nat, k: nat, i: nat)
    requires NodeEnd(ChunkCount(size), k, i) == ChunkCount(size)
    ensures NodeStop(size, k, i) == size
  {
  }

  lemma RecoverableIs(key: Key, data: seq<Byte>, s: set<nat>, indices: seq<nat>, k: nat, i: nat)
    requires NodeRecoverable(key, data, s, indices, k, i)
    ensures FirstLeaf(k, i) * 1024 <= NodeStop(|data|, k, i)
    ensures Recoverable(HonestRanges(key, data, s), indices, FirstLeaf(k, i) * 1024, NodeStop(|data|, k, i))
  {
  }

  lemma LeftThenEndless(ranges: seq<Range>, indices: seq<nat>, start: nat, end: nat, mid: nat)
    requires start + 1024 < end && mid == Mid(start, end) && !Labelled(ranges, start, end)
    requires Recoverable(ranges, indices, start, mid) && !Ends(ranges, indices, mid, end)
    ensures !Ends(ranges, indices, start, end)
  {
    hide Recoverable, Mid;
  }

  // ----- nodes over no opened leaf -----

  lemma {:induction false} FirstLeafInjective(k: nat, i: nat, j: nat)
    requires FirstLeaf(k, i) == FirstLeaf(k, j)
    ensures i == j
  {
    if k > 0 {
      FirstLeafInjective(k - 1, 2 * i, 2 * j);
    }
  }

  /** A node that starts where one of a higher level does is a left one. */
  lemma {:induction false} SameStartIsEven(j: nat, d: nat, k: nat, i: nat)
    requires j < k && FirstLeaf(j, d) == FirstLeaf(k, i)
    ensures d % 2 == 0
    decreases k
  {
    if j == k - 1 {
      FirstLeafInjective(j, d, 2 * i);
    } else {
      SameStartIsEven(j, d, k - 1, 2 * i);
    }
  }

  lemma {:induction false} Pow2Grows(j: nat, k: nat)
    requires j <= k
    ensures Pow2(j) <= Pow2(k) && (j < k ==> 2 * Pow2(j) <= Pow2(k))
    decreases k
  {
    if j < k {
      Pow2Grows(j, k - 1);
    }
  }

  /** Of two nodes that start together the higher ends no earlier. */
  lemma HigherEndsLater(size: nat, j: nat, d: nat, k: nat, i: nat)
    requires k <= j && FirstLeaf(j, d) == FirstLeaf(k, i)
    ensures NodeStop(size, k, i) <= NodeStop(size, j, d)
  {
    FirstLeafStep(j, d);
    FirstLeafStep(k, i);
    Pow2Grows(k, j);
    hide FirstLeaf, Pow2, ChunkCount;
  }

  /** An ancestor is over an opened leaf. */
  lemma {:induction false} AncestorHasLeaf(s: set<nat>, k: nat, d: nat) returns (c: nat)
    requires d in Ancestors(s, k)
    ensures c in s && FirstLeaf(k, d) <= c < FirstLeaf(k, d + 1)
  {
    if k == 0 {
      c := d;
    } else {
      var e :| e in Ancestors(s, k - 1) && e / 2 == d;
      c := AncestorHasLeaf(s, k - 1, e);
      FirstLeafMonotone(k - 1, 2 * d, e);
      FirstLeafMonotone(k - 1, e + 1, 2 * (d + 1));
    }
  }

  /** Where a label of an honest proof comes from. */
  lemma LabelIs(key: Key, data: seq<Byte>, s: set<nat>, start: nat, end: nat) returns (pos: Position)
    requires Labelled(HonestRanges(key, data, s), start, end)
    ensures FirstLeaf(pos.level, pos.index) * 1024 == start && NodeStop(|data|, pos.level, pos.index) == end
    ensures pos.index !in Ancestors(s, pos.level) && Sibling(pos.index) in Ancestors(s, pos.level)
  {
    var n, ranges := ChunkCount(|data|), HonestRanges(key, data, s);
    var t :| 0 <= t < |ranges| && ranges[t].start == start && ranges[t].end == end;
    pos := Needed(s, n, n, 0)[t];
    hide Needed, Siblings, FirstLeaf, LeafCvs, NodeStop, Ancestors;
    assert ranges[t] == Label(pos, |data|, Siblings(key, LeafCvs(key, data), s)[t]);
    LabelStops(pos, |data|, ranges[t].cv);
    BaseLevel(key, [], s);
    NeededIsNoAncestor(s, n, 0, pos);
  }

  /** The pair of a left node lies in every higher node that starts there. */
  lemma PairInside(s: set<nat>, j: nat, d: nat, k: nat, i: nat)
    requires j < k && FirstLeaf(j, d) == FirstLeaf(k, i) && Sibling(d) in Ancestors(s, j)
    ensures i in Ancestors(s, k)
  {
    SameStartIsEven(j, d, k, i);
    var c := AncestorHasLeaf(s, j, d + 1);
    FirstLeafStep(j, d);
    FirstLeafStep(j, d + 1);
    FirstLeafStep(k, i);
    Pow2Grows(j, k);
    hide FirstLeaf, Pow2, Ancestors;
    AncestorOver(s, k, c, i);
  }

  /** No label starts where a node over no opened leaf starts and ends before it does. */
  lemma NoLabelInside(key: Key, data: seq<Byte>, s: set<nat>, k: nat, i: nat, end: nat)
    requires i !in Ancestors(s, k) && end < NodeStop(|data|, k, i)
    ensures !Labelled(HonestRanges(key, data, s), FirstLeaf(k, i) * 1024, end)
  {
    hide *;
    if Labelled(HonestRanges(key, data, s), FirstLeaf(k, i) * 1024, end) {
      var pos := LabelIs(key, data, s, FirstLeaf(k, i) * 1024, end);
      if pos.level < k {
        PairInside(s, pos.level, pos.index, k, i);
      } else {
        HigherEndsLater(|data|, pos.level, pos.index, k, i);
      }
    }
  }

  /** Going up from node i of m, the first sibling met is known; a node without one is promoted. */
  predicate Beside(m: nat, known: set<nat>, i: nat)
    decreases m
  {
    if Sibling(i) < m then Sibling(i) in known else m > 1 && Beside(Half(m), Parents(known), i / 2)
  }

  lemma NextLayer(key: Key, leaves: seq<Digest>, s: set<nat>, k: nat, i: nat)
    requires i < |Layer(key, leaves, k)|
    ensures |Layer(key, leaves, k + 1)| == Half(|Layer(key, leaves, k)|) && i / 2 < |Layer(key, leaves, k + 1)|
    ensures Ancestors(s, k + 1) == Parents(Ancestors(s, k))
  {
  }

  /** A promoted node: the same leaves at the next level, and an ancestor there exactly when it is one. */
  lemma PromotedIs(key: Key, leaves: seq<Digest>, s: set<nat>, k: nat, i: nat)
    requires i < |Layer(key, leaves, k)| <= Sibling(i) && Below(s, |leaves|)
    ensures FirstLeaf(k + 1, i / 2) == FirstLeaf(k, i)
    ensures NodeEnd(|leaves|, k + 1, i / 2) == NodeEnd(|leaves|, k, i)
    ensures i / 2 in Ancestors(s, k + 1) ==> i in Ancestors(s, k)
  {
    var m := |Layer(key, leaves, k)|;
    assert m == i + 1 && i == 2 * (i / 2);
    NodePromoted(key, leaves, k + 1, i / 2);
    AncestorsBelow(key, leaves, s, k);
    hide FirstLeaf, NodeEnd, Layer;
    if i / 2 in Ancestors(s, k + 1) {
      var e :| e in Ancestors(s, k) && e / 2 == i / 2;
    }
  }

  /** A node over no opened leaf is labelled exactly when the first sibling above it is an ancestor. */
  lemma {:induction false} LabelledExactly(key: Key, data: seq<Byte>, s: set<nat>, k: nat, i: nat)
    requires |data| > 1024 && Below(s, ChunkCount(|data|))
    requires i < |Layer(key, LeafCvs(key, data), k)| && i !in Ancestors(s, k)
    ensures Labelled(HonestRanges(key, data, s), FirstLeaf(k, i) * 1024, NodeStop(|data|, k, i)) <==>
      Beside(|Layer(key, LeafCvs(key, data), k)|, Ancestors(s, k), i)
    decreases |Layer(key, LeafCvs(key, data), k)|
  {
    hide *;
    var leaves := LeafCvs(key, data);
    var m := |Layer(key, leaves, k)|;
    BesideStep(m, Ancestors(s, k), i);
    LeafCount(key, data);
    if Sibling(i) < m {
      PairedLabel(key, data, s, k, i);
    } else {
      PromotedIs(key, leaves, s, k, i);
      NextLayer(key, leaves, s, k, i);
      StopFromEnd(|data|, k, i, k + 1, i / 2);
      if m > 1 {
        HalfShrinks(m);
        LabelledExactly(key, data, s, k + 1, i / 2);
      } else {
        RootUnlabelled(key, data, s, k, i);
      }
    }
  }

  lemma BesideStep(m: nat, known: set<nat>, i: nat)
    ensures Sibling(i) < m ==> (Beside(m, known, i) <==> Sibling(i) in known)
    ensures Sibling(i) >= m ==> (Beside(m, known, i) <==> m > 1 && Beside(Half(m), Parents(known), i / 2))
  {
    hide Sibling, Half, Parents;
  }

  lemma LeafCount(key: Key, data: seq<Byte>)
    ensures |LeafCvs(key, data)| == ChunkCount(|data|)
  {
  }

  lemma HalfShrinks(m: nat)
    requires m > 1
    ensures Half(m) < m
  {
  }

  lemma StopFromEnd(size: nat, k: nat, i: nat, j: nat, d: nat)
    requires NodeEnd(ChunkCount(size), k, i) == NodeEnd(ChunkCount(size), j, d)
    ensures NodeStop(size, k, i) == NodeStop(size, j, d)
  {
    hide NodeEnd;
  }

  /** A paired node ends before any higher node that starts where it does. */
  lemma PairedEndsEarlier(key: Key, data: seq<Byte>, k: nat, i: nat, j: nat, d: nat)
    requires |data| > 1024 && i < |Layer(key, LeafCvs(key, data), k)| &&
      Sibling(i) < |Layer(key, LeafCvs(key, data), k)|
    requires k < j && FirstLeaf(j, d) == FirstLeaf(k, i)
    ensures NodeStop(|data|, k, i) < NodeStop(|data|, j, d)
  {
    hide *;
    SameStartIsEven(k, i, j, d);
    LeftSibling(i);
    NodeInRange(key, LeafCvs(key, data), k, i + 1);
    LeafCount(key, data);
    LastChunk(data);
    FirstLeafStep(k, i);
    FirstLeafStep(j, d);
    Pow2Grows(k, j);
    EndsAre(|data|, k, i);
    EndsAre(|data|, j, d);
    StopsDiffer(|data|, ChunkCount(|data|), NodeEnd(ChunkCount(|data|), k, i), NodeEnd(ChunkCount(|data|), j, d));
  }

  lemma LeftSibling(i: nat)
    ensures i % 2 == 0 ==> Sibling(i) == i + 1
  {
  }

  lemma EndsAre(size: nat, k: nat, i: nat)
    ensures var n := ChunkCount(size);
      && NodeEnd(n, k, i) == Min(FirstLeaf(k, i + 1), n)
      && (FirstLeaf(k, i + 1) <= n ==> NodeEnd(n, k, i) == FirstLeaf(k, i + 1))
      && (FirstLeaf(k, i + 1) > n ==> NodeEnd(n, k, i) == n)
      && NodeStop(size, k, i) == Min(NodeEnd(n, k, i) * 1024, size) && Pow2(k) >= 1
  {
    hide FirstLeaf, ChunkCount;
  }

  lemma StopsDiffer(size: nat, n: nat, x: nat, y: nat)
    requires x < y <= n && (n - 1) * 1024 < size
    ensures Min(x * 1024, size) < Min(y * 1024, size)
  {
  }

  lemma PowPositive(k: nat)
    ensures Pow2(k) >= 1
  {
  }

  /** A paired node that is no ancestor is labelled exactly when its sibling is one. */
  lemma PairedLabel(key: Key, data: seq<Byte>, s: set<nat>, k: nat, i: nat)
    requires |data| > 1024 && Below(s, ChunkCount(|data|))
    requires var m := |Layer(key, LeafCvs(key, data), k)|; i < m && Sibling(i) < m
    requires i !in Ancestors(s, k)
    ensures Labelled(HonestRanges(key, data, s), FirstLeaf(k, i) * 1024, NodeStop(|data|, k, i)) <==>
      Sibling(i) in Ancestors(s, k)
  {
    hide *;
    if Sibling(i) in Ancestors(s, k) {
      SiblingLabelled(key, data, s, k, i);
    }
    if Labelled(HonestRanges(key, data, s), FirstLeaf(k, i) * 1024, NodeStop(|data|, k, i)) {
      var pos := LabelIs(key, data, s, FirstLeaf(k, i) * 1024, NodeStop(|data|, k, i));
      if pos.level == k {
        FirstLeafInjective(k, pos.index, i);
      } else if pos.level < k {
        PairInside(s, pos.level, pos.index, k, i);
      } else {
        PairedEndsEarlier(key, data, k, i, pos.level, pos.index);
      }
    }
  }

  /** Nothing above the last pair is labelled. */
  lemma RootUnlabelled(key: Key, data: seq<Byte>, s: set<nat>, k: nat, i: nat)
    requires |data| > 1024 && Below(s, ChunkCount(|data|)) && i !in Ancestors(s, k)
    requires |Layer(key, LeafCvs(key, data), k)| == 1 && i == 0
    ensures !Labelled(HonestRanges(key, data, s), FirstLeaf(k, i) * 1024, NodeStop(|data|, k, i))
  {
    var leaves := LeafCvs(key, data);
    if Labelled(HonestRanges(key, data, s), FirstLeaf(k, i) * 1024, NodeStop(|data|, k, i)) {
      var pos := LabelIs(key, data, s, FirstLeaf(k, i) * 1024, NodeStop(|data|, k, i));
      var c := AncestorHasLeaf(s, pos.level, Sibling(pos.index));
      LayerLength(key, leaves, k);
      FirstLeafIsProduct(k, 0);
      hide FirstLeaf, Ancestors, Layer;
      AncestorOver(s, k, c, 0);
    }
  }

  /** A range that starts with a whole chunk which is not opened, and at whose start nothing is labelled, is
      missing. */
  lemma {:induction false} LeftMissing(ranges: seq<Range>, indices: seq<nat>, start: nat, end: nat)
    requires start % 1024 == 0 && start + 1024 <= end && !Covered(indices, start)
    requires forall e | start < e <= end :: !Labelled(ranges, start, e)
    ensures !Recoverable(ranges, indices, start, end) && Ends(ranges, indices, start, end)
    decreases end - start
  {
    hide Labelled, Covered;
    if end > start + 1024 {
      Midpoint(start, end);
      hide Mid, Split, ChunkCount;
      LeftMissing(ranges, indices, start, Mid(start, end));
    }
  }

  /** The bytes of the node are less than a chunk: it is the short last leaf, or that leaf promoted. */
  ghost predicate ShortNode(data: seq<Byte>, k: nat, i: nat) {
    |data| % 1024 != 0 && FirstLeaf(k, i) == ChunkCount(|data|) - 1
  }

  lemma ShortNodeIs(data: seq<Byte>, k: nat, i: nat)
    requires |data| > 1024 && FirstLeaf(k, i) < ChunkCount(|data|)
    ensures var start, stop := FirstLeaf(k, i) * 1024, NodeStop(|data|, k, i);
      start < stop && (stop < start + 1024 <==> ShortNode(data, k, i))
  {
    FirstLeafStep(k, i);
    PowPositive(k);
    LastChunk(data);
    hide FirstLeaf, Pow2;
  }

  /** A node over no opened leaf that is not labelled cannot be rebuilt, and asking for it ends unless it is
      a short one. */
  lemma StrangerIs(key: Key, data: seq<Byte>, s: set<nat>, indices: seq<nat>, k: nat, i: nat)
    requires Openable(data, s, indices) && FirstLeaf(k, i) < ChunkCount(|data|) && i !in Ancestors(s, k)
    requires !Labelled(HonestRanges(key, data, s), FirstLeaf(k, i) * 1024, NodeStop(|data|, k, i))
    ensures var ranges, start, stop := HonestRanges(key, data, s), FirstLeaf(k, i) * 1024, NodeStop(|data|, k, i);
      && start < stop && !Recoverable(ranges, indices, start, stop)
      && (Ends(ranges, indices, start, stop) <==> !ShortNode(data, k, i))
  {
    hide *;
    var ranges, start, stop := HonestRanges(key, data, s), FirstLeaf(k, i) * 1024, NodeStop(|data|, k, i);
    OpenableIs(data, s, indices);
    ShortNodeIs(data, k, i);
    forall e | start < e <= stop ensures !Labelled(ranges, start, e) {
      if e < stop {
        NoLabelInside(key, data, s, k, i, e);
      }
    }
    if ShortNode(data, k, i) {
      PiecesEndless(ranges, indices, start, stop);
      EndlessIsMissing(ranges, indices, start, stop);
    } else {
      NotCovered(data, s, indices, k, i);
      LeftMissing(ranges, indices, start, stop);
    }
  }

  lemma OpenableIs(data: seq<Byte>, s: set<nat>, indices: seq<nat>)
    requires Openable(data, s, indices)
    ensures |data| > 1024 && Below(s, ChunkCount(|data|)) && Increasing(indices) && Elements(indices) == s
  {
  }

  /** What can be rebuilt is rebuilt in the end. */
  lemma {:induction false} EndlessIsMissing(ranges: seq<Range>, indices: seq<nat>, start: nat, end: nat)
    requires start <= end
    ensures Recoverable(ranges, indices, start, end) ==> Ends(ranges, indices, start, end)
    decreases end - start
  {
    hide Labelled, Covered;
    if end >= start + 2 && end != start + 1024 {
      EndlessIsMissing(ranges, indices, start, Mid(start, end));
      EndlessIsMissing(ranges, indices, Mid(start, end), end);
    }
  }

  lemma NotCovered(data: seq<Byte>, s: set<nat>, indices: seq<nat>, k: nat, i: nat)
    requires Openable(data, s, indices) && i !in Ancestors(s, k)
    ensures !Covered(indices, FirstLeaf(k, i) * 1024)
  {
    var lo := FirstLeaf(k, i);
    CoveredIs(indices, lo * 1024);
    hide Covered, Ancestors;
    if Covered(indices, lo * 1024) {
      assert Opened(indices, lo * 1024);
      assert lo in s;
      FirstLeafStep(k, i);
      PowPositive(k);
      AncestorOver(s, k, lo, i);
    }
  }

  // ----- prove, label, recompute -----

  /** What asking for node (k, i) of the tree comes to when the leaves `s` are opened. */
  ghost function Outcome(key: Key, data: seq<Byte>, s: set<nat>, k: nat, i: nat): (r: CvResult)
    requires i < |Layer(key, LeafCvs(key, data), k)|
  {
    var layer := Layer(key, LeafCvs(key, data), k);
    if i in Ancestors(s, k) then if NoShortLeaf(data, s, k, i) then Cv(layer[i]) else Endless
    else if Beside(|layer|, Ancestors(s, k), i) then Cv(layer[i])
    else if ShortNode(data, k, i) then Endless
    else Missing
  }

  /** `compute_cv` over an honest proof, asked for any node of any layer. Over an opened leaf it answers with
      the pairing-layer node, unless the data ends in a short chunk that is opened under that node, and then
      it never returns. Beside such a node it answers with the node. Anywhere else it fails, and never
      returns when the node is the short chunk itself. On chunk-aligned data it always returns, and
      whatever it answers is the node. */
  method RecomputeNode(t: MerkleTree, leafIndices: seq<nat>, k: nat, i: nat) returns (r: CvResult)
    requires TreeOf(t, t.key, t.data)
    requires leafIndices != [] && AllBelow(leafIndices, t.NumLeaves())
    requires i < |Layer(t.key, LeafCvs(t.key, t.data), k)|
    ensures r == Outcome(t.key, t.data, Elements(leafIndices), k, i)
    ensures r.Cv? ==> r.cv == Layer(t.key, LeafCvs(t.key, t.data), k)[i]
    ensures |t.data| % 1024 == 0 ==> !r.Endless?
  {
    HasLayers(t);
    hide *;
    ghost var s, leaves := Elements(leafIndices), LeafCvs(t.key, t.data);
    TreeLeaves(t, leafIndices);
    var n := t.NumLeaves();
    var p := GetMultileafProof(t, leafIndices);
    HonestProofVerifiesExactly(t.key, t.data, s);
    HonestShape(t.key, t.data, s);
    var ranges := ComputeSiblingRanges(p, |t.data|);
    assert ranges == HonestRanges(t.key, t.data, s) by { HonestRangesAre(t.key, t.data, s); }
    NodeInRange(t.key, leaves, k, i);
    NodeIsWhole(t.data, k, i);
    WholeIs(t.data, FirstLeaf(k, i) * 1024, NodeStop(|t.data|, k, i));
    r := ComputeCv(p, FirstLeaf(k, i) * 1024, NodeStop(|t.data|, k, i), ranges, t.key, t.data);
    OutcomeShape(t.key, t.data, s, k, i);
    if i !in Ancestors(s, k) {
      AnswerOfStranger(t.key, t.data, s, k, i, p, r);
    } else if NoShortLeaf(t.data, s, k, i) {
      AncestorsRecoverable(t.key, t.data, s, p.leafIndices, k, i);
      AnswerIsNode(t.key, t.data, s, k, i, p, r);
    } else {
      AnswerIsEndless(t.key, t.data, s, k, i, p, r);
    }
  }

  /** A short chunk that is not opened: of four leaves the first is opened, the last lies under a wider label,
      and asking for it never returns. */
  lemma ShortLeafUnderLabel(key: Key, data: seq<Byte>)
    requires 3072 < |data| < 4096
    ensures 3 < |Layer(key, LeafCvs(key, data), 0)| && Outcome(key, data, {0}, 0, 3) == Endless
  {
    BaseLevel(key, LeafCvs(key, data), {0});
    FirstLeafBase(3);
    assert Sibling(3) == 2 && 2 !in {0};
    hide Layer, LeafCvs, Ancestors, FirstLeaf;
  }

  lemma OutcomeShape(key: Key, data: seq<Byte>, s: set<nat>, k: nat, i: nat)
    requires i < |Layer(key, LeafCvs(key, data), k)|
    ensures var r, layer := Outcome(key, data, s, k, i), Layer(key, LeafCvs(key, data), k);
      && (r.Cv? ==> r.cv == layer[i]) && (|data| % 1024 == 0 ==> !r.Endless?)
      && (i in Ancestors(s, k) ==> r == if NoShortLeaf(data, s, k, i) then Cv(layer[i]) else Endless)
      && (i !in Ancestors(s, k) ==>
            r == if Beside(|layer|, Ancestors(s, k), i) then Cv(layer[i])
                 else if ShortNode(data, k, i) then Endless else Missing)
  {
    hide Layer, LeafCvs, Ancestors, Beside, FirstLeaf, NodeEnd;
  }

  lemma WholeIs(data: seq<Byte>, start: nat, end: nat)
    requires Whole(data, start, end)
    ensures start < end
  {
  }

  lemma TreeLeaves(t: MerkleTree, leafIndices: seq<nat>)
    requires TreeOf(t, t.key, t.data) && leafIndices != [] && t.layers != [] && AllBelow(leafIndices, t.NumLeaves())
    ensures t.NumLeaves() == ChunkCount(|t.data|) && |t.data| > 1024
    ensures Elements(leafIndices) != {} && Below(Elements(leafIndices), ChunkCount(|t.data|))
    ensures |LeafCvs(t.key, t.data)| == ChunkCount(|t.data|)
  {
    assert leafIndices[0] in Elements(leafIndices);
    FirstLevel(t.key, LeafCvs(t.key, t.data), t.layers);
    hide LayersOf, LeafCvs;
  }

  lemma HonestShape(key: Key, data: seq<Byte>, s: set<nat>)
    requires |data| > 1024 && Below(s, ChunkCount(|data|))
    ensures var p := HonestProof(key, data, s);
      && Elements(p.leafIndices) == s
      && ScanBound(p.leafIndices, ChunkCount(|data|)) == ChunkCount(|data|)
      && p.siblings == Siblings(key, LeafCvs(key, data), s)
      && Openable(data, s, p.leafIndices) && |p.leafIndices| == |p.leafData| && LeafIndices(p) == p.leafIndices
      && forall k | 0 <= k < |p.leafData| :: |p.leafData[k]| == 1024
  {
    hide ProofLeaf, Siblings, TopRoot;
  }

  lemma HonestRangesAre(key: Key, data: seq<Byte>, s: set<nat>)
    ensures var n := ChunkCount(|data|);
      HonestRanges(key, data, s) == Labels(Needed(s, n, n, 0), |data|, Siblings(key, LeafCvs(key, data), s))
  {
    hide Needed, Labels, Siblings, LeafCvs;
  }

  /** The labels of an honest proof and its leaves under a node are sound when no short chunk is opened
      there. */
  lemma HonestSound(key: Key, data: seq<Byte>, s: set<nat>, k: nat, i: nat)
    requires |data| > 1024 && Below(s, ChunkCount(|data|)) && NoShortLeaf(data, s, k, i)
    requires SanityCheck(HonestProof(key, data, s))
    ensures var p, ranges := HonestProof(key, data, s), HonestRanges(key, data, s);
      Sound(p, ranges, key, data, FirstLeaf(k, i) * 1024, NodeStop(|data|, k, i))
  {
    HonestLabels(key, data, s);
    SaneLengths(HonestProof(key, data, s));
    var p, n, stop := HonestProof(key, data, s), ChunkCount(|data|), NodeStop(|data|, k, i);
    hide HonestRanges, TrueLabels, Siblings, ProofLeaf, TopRoot, ChunkBytes, FirstLeaf, ChunkCount, NodeEnd,
      SanityCheck;
    forall t | 0 <= t < |p.leafIndices| && FirstLeaf(k, i) * 1024 <= p.leafIndices[t] * 1024 < stop
      ensures p.leafIndices[t] < n && p.leafData[t] == ChunkBytes(data, p.leafIndices[t])
    {
      assert p.leafIndices[t] in s;
      PaddedLeaf(data, p.leafIndices[t]);
    }
  }

  lemma HonestLabels(key: Key, data: seq<Byte>, s: set<nat>)
    requires |data| > 1024 && Below(s, ChunkCount(|data|))
    ensures TrueLabels(HonestRanges(key, data, s), key, data)
  {
    hide TrueRange, Needed, Siblings;
    forall t | 0 <= t < |HonestRanges(key, data, s)|
      ensures TrueRange(key, data, HonestRanges(key, data, s)[t])
    {
      HonestRangesTrue(key, data, s, t);
    }
  }

  /** A recoverable node over no opened short chunk is answered with. */
  lemma AnswerIsNode(key: Key, data: seq<Byte>, s: set<nat>, k: nat, i: nat, p: MerkleProof, r: CvResult)
    requires |data| > 1024 && Below(s, ChunkCount(|data|)) && SanityCheck(p) && LeafIndices(p) == p.leafIndices
    requires NoShortLeaf(data, s, k, i) && NodeRecoverable(key, data, s, p.leafIndices, k, i)
    requires p == HonestProof(key, data, s) && i < |Layer(key, LeafCvs(key, data), k)|
    requires FirstLeaf(k, i) * 1024 < NodeStop(|data|, k, i)
    requires Answers(p, HonestRanges(key, data, s), key, data, FirstLeaf(k, i) * 1024, NodeStop(|data|, k, i), r)
    ensures r == Cv(Layer(key, LeafCvs(key, data), k)[i])
  {
    HonestSound(key, data, s, k, i);
    NodeIsSubtree(key, LeafCvs(key, data), k, i);
    NodeOverIs(key, data, k, i);
    hide FirstLeaf, HonestRanges, Layer, LeafCvs, Sound, Recoverable, Ends, HonestProof, NodeStop,
      NodeOver, Whole, Subtree, LeafIndices, SanityCheck, NoShortLeaf;
  }

  lemma AnswerIsEndless(key: Key, data: seq<Byte>, s: set<nat>, k: nat, i: nat, p: MerkleProof, r: CvResult)
    requires Openable(data, s, p.leafIndices) && LeafIndices(p) == p.leafIndices && i in Ancestors(s, k)
    requires FirstLeaf(k, i) * 1024 < NodeStop(|data|, k, i) && !NoShortLeaf(data, s, k, i)
    requires Answers(p, HonestRanges(key, data, s), key, data, FirstLeaf(k, i) * 1024, NodeStop(|data|, k, i), r)
    ensures r.Endless?
  {
    var leaves := LeafCvs(key, data);
    AncestorsBelow(key, leaves, s, k);
    LastNode(key, leaves, k, i);
    StopAtEnd(|data|, k, i);
    hide FirstLeaf, HonestRanges, Layer, LeafCvs, Ancestors, Openable, Sound, Recoverable, Ends, LeafIndices;
    ShortLeafEndless(key, data, s, p.leafIndices, k, i);
  }

  /** A node over no opened leaf is over no opened short one. */
  lemma StrangerHasNoShort(key: Key, data: seq<Byte>, s: set<nat>, k: nat, i: nat)
    requires |data| > 1024 && i < |Layer(key, LeafCvs(key, data), k)| && i !in Ancestors(s, k)
    ensures NoShortLeaf(data, s, k, i)
  {
    var leaves := LeafCvs(key, data);
    if ChunkCount(|data|) - 1 in s && NodeEnd(ChunkCount(|data|), k, i) == ChunkCount(|data|) {
      LastNode(key, leaves, k, i);
      LastAncestor(key, leaves, s, k);
    }
    hide Layer, Ancestors, LeafCvs;
  }

  /** The answer for a node over no opened leaf. */
  lemma AnswerOfStranger(key: Key, data: seq<Byte>, s: set<nat>, k: nat, i: nat, p: MerkleProof, r: CvResult)
    requires Openable(data, s, p.leafIndices) && SanityCheck(p) && LeafIndices(p) == p.leafIndices
    requires i < |Layer(key, LeafCvs(key, data), k)| && i !in Ancestors(s, k)
    requires p == HonestProof(key, data, s) && FirstLeaf(k, i) * 1024 < NodeStop(|data|, k, i)
    requires Answers(p, HonestRanges(key, data, s), key, data, FirstLeaf(k, i) * 1024, NodeStop(|data|, k, i), r)
    ensures r == if Beside(|Layer(key, LeafCvs(key, data), k)|, Ancestors(s, k), i)
                 then Cv(Layer(key, LeafCvs(key, data), k)[i])
                 else if ShortNode(data, k, i) then Endless else Missing
  {
    hide *;
    OpenableIs(data, s, p.leafIndices);
    LabelledExactly(key, data, s, k, i);
    StrangerHasNoShort(key, data, s, k, i);
    NodeInRange(key, LeafCvs(key, data), k, i);
    LeafCount(key, data);
    if Labelled(HonestRanges(key, data, s), FirstLeaf(k, i) * 1024, NodeStop(|data|, k, i)) {
      LabelledIsRecoverable(key, data, s, p.leafIndices, k, i);
      AnswerIsNode(key, data, s, k, i, p, r);
    } else {
      StrangerIs(key, data, s, p.leafIndices, k, i);
      AnswerIs(p, HonestRanges(key, data, s), key, data, FirstLeaf(k, i) * 1024, NodeStop(|data|, k, i), r);
    }
  }

  lemma LabelledIsRecoverable(key: Key, data: seq<Byte>, s: set<nat>, indices: seq<nat>, k: nat, i: nat)
    requires FirstLeaf(k, i) * 1024 < NodeStop(|data|, k, i)
    requires Labelled(HonestRanges(key, data, s), FirstLeaf(k, i) * 1024, NodeStop(|data|, k, i))
    ensures NodeRecoverable(key, data, s, indices, k, i)
  {
    hide FirstLeaf, NodeStop, HonestRanges, Labelled;
  }

  lemma AnswerIs(p: MerkleProof, ranges: seq<Range>, key: Key, data: seq<Byte>, start: nat, end: nat, r: CvResult)
    requires start <= end && Answers(p, ranges, key, data, start, end, r)
    ensures r.Cv? <==> Recoverable(ranges, LeafIndices(p), start, end)
    ensures r.Endless? <==> !Ends(ranges, LeafIndices(p), start, end)
  {
    hide Recoverable, Ends, LeafIndices, Sound, Whole, NodeOver;
  }
}
