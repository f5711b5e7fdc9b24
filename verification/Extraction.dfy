/** Reading committed bytes back out of the opened leaves of a proof. */
module Extraction {
  import opened Digests
  import opened MerkleTrees
  import opened MerkleProofs
  import opened ProofVerification
  import opened LeafBinding

  function Max(a: nat, b: nat): nat { if a < b then b else a }

  function Min(a: nat, b: nat): nat { if a < b then a else b }

  /** The chunk holding position q is among the opened ones. */
  predicate Opened(indices: seq<nat>, q: nat) {
    q / 1024 in indices
  }

  /** How many positions of [start, end) are opened. */
  ghost function CountOpened(indices: seq<nat>, start: nat, end: nat): (c: nat) {
    if end <= start then 0
    else CountOpened(indices, start, end - 1) + if Opened(indices, end - 1) then 1 else 0
  }

  /** How much of [start, end) lies in leaf i. */
  function OverlapLen(i: nat, start: nat, end: nat): (len: nat) {
    if Min(end, i * 1024 + 1024) <= Max(start, i * 1024) then 0
    else Min(end, i * 1024 + 1024) - Max(start, i * 1024)
  }

  lemma {:induction false} CountStep(indices: seq<nat>, k: nat, start: nat, end: nat)
    requires k < |indices| && Increasing(indices)
    ensures CountOpened(indices[..k + 1], start, end)
         == CountOpened(indices[..k], start, end) + OverlapLen(indices[k], start, end)
  {
    if start < end {
      CountStep(indices, k, start, end - 1);
      var c := (end - 1) / 1024;
      assert indices[..k + 1] == indices[..k] + [indices[k]];
      assert forall j | 0 <= j < k :: indices[..k][j] < indices[k];
      assert c == indices[k] <==> indices[k] * 1024 <= end - 1 < indices[k] * 1024 + 1024;
    }
  }

  /** How many bytes of [start, end) the leaves copy, one that is opened twice counted twice. */
  ghost function TotalOverlap(indices: seq<nat>, start: nat, end: nat): (t: nat) {
    if indices == [] then 0
    else TotalOverlap(indices[..|indices| - 1], start, end) + OverlapLen(indices[|indices| - 1], start, end)
  }

  lemma {:induction false} TotalIsCount(indices: seq<nat>, start: nat, end: nat)
    requires Increasing(indices)
    ensures TotalOverlap(indices, start, end) == CountOpened(indices, start, end)
    decreases |indices|
  {
    if indices == [] {
      CountNone(start, end);
    } else {
      var k := |indices| - 1;
      TotalIsCount(indices[..k], start, end);
      CountStep(indices, k, start, end);
      assert indices[..k + 1] == indices;
    }
  }

  lemma {:induction false} CountAll(indices: seq<nat>, start: nat, end: nat)
    requires start <= end
    ensures CountOpened(indices, start, end) <= end - start
    ensures CountOpened(indices, start, end) == end - start <==>
      forall q: nat | start <= q < end :: Opened(indices, q)
  {
    if start < end {
      CountAll(indices, start, end - 1);
    }
  }

  lemma {:induction false} CountNone(start: nat, end: nat)
    ensures CountOpened([], start, end) == 0
  {
    if start < end {
      CountNone(start, end - 1);
    }
  }

  /** An opened leaf holds byte b at global position q. */
  ghost predicate HoldsByte(p: MerkleProof, q: nat, b: Byte) {
    exists k | 0 <= k < |p.leafIndices| && k < |p.leafData| ::
      p.leafIndices[k] == q / 1024 && |p.leafData[k]| == 1024 && p.leafData[k][q % 1024] == b
  }

  /** Every opened position of [start, start + |bytes|) among the first k leaves is copied. */
  ghost predicate Filled(p: MerkleProof, k: nat, start: nat, bytes: seq<Byte>)
    requires k <= |p.leafIndices|
  {
    forall i | 0 <= i < |bytes| :: Opened(p.leafIndices[..k], start + i) ==> HoldsByte(p, start + i, bytes[i])
  }

  /** Copies the overlap of leaf k into the result. */
  method CopyLeaf(p: MerkleProof, k: nat, start: nat, result: array<Byte>) returns (len: nat)
    requires k < |p.leafIndices| && k < |p.leafData| && |p.leafData[k]| == 1024
    modifies result
    ensures len == OverlapLen(p.leafIndices[k], start, start + result.Length)
    ensures forall i | 0 <= i < result.Length ::
      result[i] == if (start + i) / 1024 == p.leafIndices[k] then p.leafData[k][(start + i) % 1024] else old(result[i])
  {
    var end := start + result.Length;
    var leafStart := p.leafIndices[k] * 1024;
    var leafEnd := leafStart + 1024;
    len := 0;
    if leafStart < end && start < leafEnd {
      var copyStart := Max(start, leafStart);
      var copyEnd := Min(end, leafEnd);
      len := copyEnd - copyStart;
      forall i | 0 <= i < len {
        result[copyStart - start + i] := p.leafData[k][copyStart - leafStart + i];
      }
    }
  }

  lemma FilledStep(p: MerkleProof, k: nat, start: nat, before: seq<Byte>, after: seq<Byte>)
    requires k < |p.leafIndices| && k < |p.leafData| && |p.leafData[k]| == 1024
    requires |before| == |after| && Filled(p, k, start, before)
    requires forall i | 0 <= i < |after| ::
      after[i] == if (start + i) / 1024 == p.leafIndices[k] then p.leafData[k][(start + i) % 1024] else before[i]
    ensures Filled(p, k + 1, start, after)
  {
    assert p.leafIndices[..k + 1] == p.leafIndices[..k] + [p.leafIndices[k]];
    forall i | 0 <= i < |after| && Opened(p.leafIndices[..k + 1], start + i)
      ensures HoldsByte(p, start + i, after[i])
    {
      if (start + i) / 1024 != p.leafIndices[k] {
        assert Opened(p.leafIndices[..k], start + i);
      }
    }
  }

  /** The indices that come with a leaf. */
  function LeafIndices(p: MerkleProof): (indices: seq<nat>)
    ensures |p.leafIndices| == |p.leafData| ==> indices == p.leafIndices
  {
    p.leafIndices[..Min(|p.leafIndices|, |p.leafData|)]
  }

  /** Extraction succeeds exactly when as many bytes are copied as are asked for. On a well-formed proof
      these are the ranges whose touched chunks are all opened, and then every byte is the one the opened
      leaf holds. */
  method ExtractBytes(p: MerkleProof, start: nat, length: nat) returns (r: Option<seq<Byte>>)
    requires forall k | 0 <= k < |p.leafData| :: |p.leafData[k]| == 1024
    ensures r.Some? <==> TotalOverlap(LeafIndices(p), start, start + length) == length
    ensures SanityCheck(p) ==>
      (r.Some? <==> forall q: nat | start <= q < start + length :: Opened(p.leafIndices, q))
    ensures r.Some? ==> |r.value| == length
    ensures SanityCheck(p) && r.Some? ==>
      forall i | 0 <= i < length :: HoldsByte(p, start + i, r.value[i])
  {
    hide *;
    var result := new Byte[length](_ => 0);
    var copied: nat := 0;
    var pairs := Min(|p.leafIndices|, |p.leafData|);
    NothingCopied(p, start, result[..]);
    for k := 0 to pairs
      invariant copied == TotalOverlap(p.leafIndices[..k], start, start + length)
      invariant Filled(p, k, start, result[..])
    {
      ghost var before := result[..];
      var len := CopyLeaf(p, k, start, result);
      copied := copied + len;
      TotalStep(p.leafIndices, k, start, start + length);
      FilledStep(p, k, start, before, result[..]);
    }
    CopiedAll(p, start, result[..], copied);
    r := if copied != length then None else Some(result[..]);
  }

  lemma NothingCopied(p: MerkleProof, start: nat, bytes: seq<Byte>)
    ensures TotalOverlap(p.leafIndices[..0], start, start + |bytes|) == 0 && Filled(p, 0, start, bytes)
    ensures Min(|p.leafIndices|, |p.leafData|) <= |p.leafIndices| && Min(|p.leafIndices|, |p.leafData|) <= |p.leafData|
  {
  }

  lemma TotalStep(indices: seq<nat>, k: nat, start: nat, end: nat)
    requires k < |indices|
    ensures TotalOverlap(indices[..k + 1], start, end) ==
      TotalOverlap(indices[..k], start, end) + OverlapLen(indices[k], start, end)
  {
    hide OverlapLen;
    assert indices[..k + 1][..k] == indices[..k];
  }

  /** What the loop has done when it is through. */
  lemma CopiedAll(p: MerkleProof, start: nat, bytes: seq<Byte>, copied: nat)
    requires var pairs := Min(|p.leafIndices|, |p.leafData|);
      && pairs <= |p.leafIndices| && Filled(p, pairs, start, bytes)
      && copied == TotalOverlap(p.leafIndices[..pairs], start, start + |bytes|)
    ensures copied == TotalOverlap(LeafIndices(p), start, start + |bytes|)
    ensures SanityCheck(p) ==>
      (copied == |bytes| <==> forall q: nat | start <= q < start + |bytes| :: Opened(p.leafIndices, q))
    ensures SanityCheck(p) && copied == |bytes| ==>
      forall i | 0 <= i < |bytes| :: HoldsByte(p, start + i, bytes[i])
  {
    hide HoldsByte, TotalOverlap, CountOpened, Increasing, Opened;
    if SanityCheck(p) {
      SaneIsIncreasing(p);
      assert p.leafIndices[..|p.leafIndices|] == p.leafIndices;
      TotalIsCount(p.leafIndices, start, start + |bytes|);
      CountAll(p.leafIndices, start, start + |bytes|);
    }
  }

  /** Bytes held by committed leaves are the committed bytes. */
  lemma HeldByteIsCommitted(p: MerkleProof, data: seq<Byte>, q: nat, b: Byte)
    requires |p.leafIndices| == |p.leafData| && LeavesCommitted(p, data) && HoldsByte(p, q, b)
    ensures q < |data| && data[q] == b
  {
  }

  lemma ClaimIs(key: Key, data: seq<Byte>, p: MerkleProof, key': Key)
    requires Claims(key, data, p, key')
    ensures SanityCheck(p) && InRange(p, p.totalLeaves) && p.root == Blake3Root(key, data) && Verifies(p, key')
  {
    hide SanityCheck, InRange, Verifies, Blake3Root;
  }

  /** Reading from any proof that verifies, whatever leaf count it claims: a range extracts exactly when
      every byte of it lies in an opened chunk, and then it is the committed bytes. */
  method ReadVerified(p: MerkleProof, start: nat, len: nat, ghost key: Key, ghost data: seq<Byte>, ghost key': Key)
    returns (r: Option<seq<Byte>>)
    requires |data| > 1024 && Claims(key, data, p, key')
    requires forall k | 0 <= k < |p.leafData| :: |p.leafData[k]| == 1024
    ensures r.Some? <==> forall q: nat | start <= q < start + len :: Opened(p.leafIndices, q)
    ensures r.Some? ==> |r.value| == len && (len > 0 ==> start + len <= |data| && r.value == data[start .. start + len])
  {
    hide *;
    ClaimIs(key, data, p, key');
    LeavesBoundForAnyLeafCount(key, data, p, key');
    SaneLengths(p);
    r := ExtractBytes(p, start, len);
    if r.Some? {
      HeldBytesAreCommitted(p, data, start, r.value);
    }
  }

  lemma HeldBytesAreCommitted(p: MerkleProof, data: seq<Byte>, start: nat, bytes: seq<Byte>)
    requires |p.leafIndices| == |p.leafData| && LeavesCommitted(p, data)
    requires forall i | 0 <= i < |bytes| :: HoldsByte(p, start + i, bytes[i])
    ensures bytes != [] ==> start + |bytes| <= |data| && bytes == data[start .. start + |bytes|]
  {
    hide LeavesCommitted, HoldsByte;
    forall i | 0 <= i < |bytes| ensures start + i < |data| && bytes[i] == data[start + i] {
      HeldByteIsCommitted(p, data, start + i, bytes[i]);
    }
    if bytes != [] {
      HeldByteIsCommitted(p, data, start + |bytes| - 1, bytes[|bytes| - 1]);
    }
  }

  // ----- rows of a matrix -----

  /** Chunk c holds a byte of row `row` of a matrix with `cols` bytes a row. */
  ghost predicate RowTouches(row: nat, cols: nat, c: nat) {
    exists q: nat | row * cols <= q < (row + 1) * cols :: q / 1024 == c
  }

  lemma RowTouchesRange(row: nat, cols: nat, c: nat)
    requires cols > 0
    ensures 0 <= row * cols < (row + 1) * cols == row * cols + cols
    ensures RowTouches(row, cols, c) <==> row * cols / 1024 <= c <= ((row + 1) * cols - 1) / 1024
  {
    var lo := row * cols;
    assert (row + 1) * cols == lo + cols;
    if lo / 1024 <= c <= (lo + cols - 1) / 1024 {
      var q := Max(lo, c * 1024);
      assert lo <= q < lo + cols && q / 1024 == c;
    }
  }

  /** Chunk c holds a byte of one of the first k rows. */
  ghost predicate TouchedBy(rows: seq<nat>, k: nat, cols: nat, c: nat)
    requires k <= |rows|
  {
    exists j | 0 <= j < k :: RowTouches(rows[j], cols, c)
  }

  /** The chunks that hold the given rows, ascending. */
  method LeafIndicesFromRows(rows: seq<nat>, cols: nat) returns (indices: seq<nat>)
    requires cols > 0
    ensures Increasing(indices)
    ensures forall c: nat :: c in indices <==> TouchedBy(rows, |rows|, cols, c)
  {
    var found: set<nat> := {};
    var bound: nat := 0;
    hide RowTouches;
    for k := 0 to |rows|
      invariant Below(found, bound)
      invariant forall c: nat :: c in found <==> TouchedBy(rows, k, cols, c)
    {
      RowTouchesRange(rows[k], cols, 0);
      var first: nat := rows[k] * cols / 1024;
      var last: nat := ((rows[k] + 1) * cols - 1) / 1024;
      ghost var before := found;
      for i := first to last + 1
        invariant forall c: nat :: c in found <==> c in before || first <= c < i
        invariant Below(found, Max(bound, last + 1))
      {
        found := found + {i};
      }
      bound := Max(bound, last + 1);
      forall c: nat
        ensures c in found <==> TouchedBy(rows, k + 1, cols, c)
      {
        RowTouchesRange(rows[k], cols, c);
        TouchedStep(rows, k, cols, c);
      }
    }
    indices := Ascending(found, bound);
  }

  lemma TouchedStep(rows: seq<nat>, k: nat, cols: nat, c: nat)
    requires k < |rows|
    ensures TouchedBy(rows, k + 1, cols, c) <==> TouchedBy(rows, k, cols, c) || RowTouches(rows[k], cols, c)
  {
  }

  lemma LeafCountOf(t: MerkleTree)
    requires TreeOf(t, t.key, t.data)
    ensures t.layers != [] && t.NumLeaves() == ChunkCount(|t.data|) && |t.data| > 1024
  {
    hide Layer, LeafCvs;
    LayerZero(t.key, LeafCvs(t.key, t.data));
  }

  /** Opening rows: proving the leaves computed for `rows` of a chunk-aligned matrix gives a proof
      from which each of those rows extracts, byte for byte. */
  method ProveAndReadRow(t: MerkleTree, rows: seq<nat>, cols: nat, row: nat) returns (bytes: seq<Byte>)
    requires TreeOf(t, t.key, t.data) && |t.data| % 1024 == 0
    requires cols > 0 && row in rows
    requires forall k | 0 <= k < |rows| :: (rows[k] + 1) * cols <= |t.data|
    ensures row * cols <= (row + 1) * cols <= |t.data|
    ensures bytes == t.data[row * cols .. (row + 1) * cols]
  {
    hide *;
    var indices := LeafIndicesFromRows(rows, cols);
    RowsInRange(rows, cols, row, indices, |t.data|);
    LeafCountOf(t);
    var p := GetMultileafProof(t, indices);
    RowOpened(t.key, t.data, indices, row * cols, row * cols + cols);
    var r := ReadVerified(p, row * cols, cols, t.key, t.data, t.key);
    bytes := r.value;
  }

  lemma RowsInRange(rows: seq<nat>, cols: nat, row: nat, indices: seq<nat>, size: nat)
    requires cols > 0 && row in rows
    requires forall k | 0 <= k < |rows| :: (rows[k] + 1) * cols <= size
    requires forall c: nat :: c in indices <==> TouchedBy(rows, |rows|, cols, c)
    ensures indices != [] && AllBelow(indices, ChunkCount(size))
    ensures 0 <= row * cols < (row + 1) * cols == row * cols + cols <= size
    ensures forall q: nat | row * cols <= q < (row + 1) * cols :: Opened(indices, q)
  {
    var at :| 0 <= at < |rows| && rows[at] == row;
    assert (rows[at] + 1) * cols <= size;
    RowTouchesRange(row, cols, row * cols / 1024);
    assert TouchedBy(rows, |rows|, cols, row * cols / 1024);
    forall q: nat | row * cols <= q < (row + 1) * cols
      ensures Opened(indices, q)
    {
      assert RowTouches(rows[at], cols, q / 1024);
      assert TouchedBy(rows, |rows|, cols, q / 1024);
    }
    forall k | 0 <= k < |indices|
      ensures indices[k] < ChunkCount(size)
    {
      var c := indices[k];
      assert c in indices;
      var j :| 0 <= j < |rows| && RowTouches(rows[j], cols, c);
      assert (rows[j] + 1) * cols <= size;
      RowTouchesRange(rows[j], cols, c);
    }
  }

  lemma RowOpened(key: Key, data: seq<Byte>, indices: seq<nat>, lo: nat, hi: nat)
    requires |data| > 1024 && |data| % 1024 == 0 && indices != [] && AllBelow(indices, ChunkCount(|data|))
    requires forall q: nat | lo <= q < hi :: Opened(indices, q)
    ensures Below(Elements(indices), ChunkCount(|data|))
    ensures var p := HonestProof(key, data, Elements(indices));
      && Claims(key, data, p, key)
      && (forall k | 0 <= k < |p.leafData| :: |p.leafData[k]| == 1024)
      && forall q: nat | lo <= q < hi :: Opened(p.leafIndices, q)
  {
    var s := Elements(indices);
    assert indices[0] in s;
    HonestProofVerifiesExactly(key, data, s);
    HonestIs(key, data, s);
    hide ProofLeaf, Siblings, TopRoot, LeafCvs, Verifies, Blake3Root;
    var p := HonestProof(key, data, s);
    forall q: nat | lo <= q < hi
      ensures Opened(p.leafIndices, q)
    {
      assert Opened(indices, q);
      assert q / 1024 in s;
    }
  }
}
