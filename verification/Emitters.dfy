/** The other builders and provers: the Rust tree rebuilt from leaf chaining values, and the
    C# root and proof builders. All agree with the tree and the prover of MerkleTrees and MerkleProofs.
 */
module Emitters {
  import opened Digests
  import opened MerkleTrees
  import opened MerkleProofs
  import opened ProofVerification
  import opened Extraction

  datatype Result<+T> = Ok(value: T) | Err(message: string)

  // ----- Rust, from leaf chaining values -----

  /** Layers and root from precomputed leaf values; a single leaf needs its bytes for the root. */
  method LayersFromLeafCvs(leafCvs: seq<Digest>, key: Key, singleLeaf: Option<seq<Byte>>)
    returns (r: Result<(seq<seq<Digest>>, Digest)>)
    ensures r.Err? <==> leafCvs == [] || (|leafCvs| == 1 && singleLeaf.None?)
    ensures r.Ok? && |leafCvs| == 1 ==> r.value == ([leafCvs], RootChunk(key, singleLeaf.value))
    ensures r.Ok? && |leafCvs| >= 2 ==> LayersOf(key, leafCvs, r.value.0) && r.value.1 == TopRoot(key, leafCvs)
  {
    if leafCvs == [] {
      return Err("leaf_cvs must be non-empty");
    }
    if |leafCvs| == 1 {
      if singleLeaf.None? {
        return Err("single-leaf Merkle root requires the selected leaf data");
      }
      return Ok(([leafCvs], RootChunk(key, singleLeaf.value)));
    }
    var layers := BuildLayers(key, leafCvs);
    r := Ok((layers, layers[|layers| - 1][0]));
  }

  /** As many layers as there are have the sizes that n leaves pair up to. */
  ghost predicate Sized(layers: seq<seq<Digest>>, n: nat)
    decreases |layers|
  {
    layers == [] || (|layers[0]| == n && Sized(layers[1..], Half(n)))
  }

  /** The siblings of `s`, each level read from its own layer. */
  function Stored(layers: seq<seq<Digest>>, n: nat, s: set<nat>): (out: seq<Digest>)
    requires |layers| >= Depth(n)
    decreases n
  {
    if n <= 1 then [] else EmitFrom(s, layers[0], 0) + Stored(layers[1..], Half(n), Parents(s))
  }

  /** The siblings read out of stored layers. Layers may be missing at the top: it fails exactly when one
      is needed, or when nothing is asked for. */
  method SiblingsFromLayers(layers: seq<seq<Digest>>, totalLeaves: nat, leafIndices: seq<nat>,
                            ghost key: Key, ghost leaves: seq<Digest>)
    returns (r: Result<seq<Digest>>)
    requires Sized(layers, totalLeaves) && AllBelow(leafIndices, totalLeaves)
    ensures r.Err? <==> leafIndices == [] || |layers| < Depth(totalLeaves)
    ensures r.Ok? ==> r.value == Stored(layers, totalLeaves, Elements(leafIndices))
    ensures LayersOf(key, leaves, layers) && totalLeaves == |leaves| ==>
      (r.Err? <==> leafIndices == []) && (r.Ok? ==> r.value == Siblings(key, leaves, Elements(leafIndices)))
  {
    hide *;
    if LayersOf(key, leaves, layers) && totalLeaves == |leaves| {
      StoredIsSiblings(key, leaves, layers, Elements(leafIndices));
    }
    if leafIndices == [] {
      return Err("leaf_indices must be non-empty");
    }
    var siblings: seq<Digest> := [];
    var current := Elements(leafIndices);
    SomeElements(leafIndices, totalLeaves);
    var levelLen := totalLeaves;
    var level := 0;
    assert layers[0..] == layers;
    ghost var all := if |layers| >= Depth(totalLeaves) then Stored(layers, totalLeaves, current) else [];
    while levelLen > 1 && current != {}
      invariant level <= |layers| && current != {} && Below(current, levelLen) && Sized(layers[level..], levelLen)
      invariant |layers| >= Depth(totalLeaves) <==> |layers[level..]| >= Depth(levelLen)
      invariant |layers[level..]| >= Depth(levelLen) ==> siblings + Stored(layers[level..], levelLen, current) == all
      decreases levelLen
    {
      if level >= |layers| {
        DepthStep(levelLen);
        return Err("missing merkle layer");
      }
      LayerStep(layers[level..], levelLen, current);
      assert layers[level..][1..] == layers[level + 1..];
      ghost var before, emitted := siblings, EmitFrom(current, layers[level], 0);
      siblings := ScanStored(current, layers[level], levelLen, siblings);
      ParentsNonEmpty(current);
      current := Parents(current);
      levelLen := (levelLen + 1) / 2;
      level := level + 1;
      if |layers[level..]| >= Depth(levelLen) {
        Regroup(before, emitted, Stored(layers[level..], levelLen, current));
      }
    }
    NoMoreStored(layers[level..], levelLen, current);
    assert siblings + [] == siblings;
    r := Ok(siblings);
  }

  /** One level of the walk. */
  method ScanStored(current: set<nat>, nodes: seq<Digest>, levelLen: nat, siblings0: seq<Digest>)
    returns (siblings: seq<Digest>)
    requires |nodes| == levelLen
    ensures siblings == siblings0 + EmitFrom(current, nodes, 0)
  {
    siblings := siblings0;
    for idx := 0 to levelLen
      invariant siblings + EmitFrom(current, nodes, idx) == siblings0 + EmitFrom(current, nodes, 0)
    {
      ghost var before := siblings;
      if idx in current {
        if idx % 2 == 1 {
          if idx - 1 !in current {
            siblings := siblings + [nodes[idx - 1]];
          }
        } else if idx + 1 !in current && idx + 1 < levelLen {
          siblings := siblings + [nodes[idx + 1]];
        }
      }
      assert siblings == before + EmitAt(current, nodes, idx);
      EmitStep(current, nodes, idx, []);
      Regroup(before, EmitAt(current, nodes, idx), EmitFrom(current, nodes, idx + 1));
    }
    assert siblings + [] == siblings;
  }

  lemma Regroup(a: seq<Digest>, b: seq<Digest>, c: seq<Digest>)
    ensures a + (b + c) == (a + b) + c
  {
  }

  lemma SomeElements(indices: seq<nat>, n: nat)
    requires indices != [] && AllBelow(indices, n)
    ensures Elements(indices) != {} && Below(Elements(indices), n)
  {
    assert indices[0] in Elements(indices);
  }

  lemma DepthStep(n: nat)
    ensures n > 1 ==> Depth(n) == 1 + Depth(Half(n))
    ensures n <= 1 ==> Depth(n) == 0
  {
  }

  lemma LayerStep(layers: seq<seq<Digest>>, n: nat, s: set<nat>)
    requires layers != [] && n > 1 && Sized(layers, n) && Below(s, n)
    ensures (n + 1) / 2 == Half(n) < n && |layers[0]| == n && Sized(layers[1..], Half(n)) && Below(Parents(s), Half(n))
    ensures |layers| >= Depth(n) <==> |layers[1..]| >= Depth(Half(n))
    ensures |layers| >= Depth(n) ==>
      Stored(layers, n, s) == EmitFrom(s, layers[0], 0) + Stored(layers[1..], Half(n), Parents(s))
  {
    hide EmitFrom;
    ParentsBelow(s, n);
  }

  lemma NoMoreStored(layers: seq<seq<Digest>>, n: nat, s: set<nat>)
    ensures n <= 1 ==> Depth(n) == 0 && Stored(layers, n, s) == []
  {
  }

  /** On a tree's own layers none is missing and the stored siblings are the prover's. */
  lemma StoredIsSiblings(key: Key, leaves: seq<Digest>, layers: seq<seq<Digest>>, s: set<nat>)
    requires LayersOf(key, leaves, layers)
    ensures |layers| >= Depth(|leaves|) && Stored(layers, |leaves|, s) == Siblings(key, leaves, s)
  {
    LayersTail(key, leaves, layers, 0, s);
    assert layers[0..] == layers;
    LayerZero(key, leaves);
  }

  lemma {:induction false} LayersTail(key: Key, leaves: seq<Digest>, layers: seq<seq<Digest>>, k: nat, s: set<nat>)
    requires LayersOf(key, leaves, layers) && k < |layers| && |layers[k]| == |Layer(key, leaves, k)|
    ensures var level := Layer(key, leaves, k);
      |layers[k..]| >= Depth(|level|) && Stored(layers[k..], |level|, s) == Siblings(key, level, s)
    decreases |layers| - k
  {
    hide EmitFrom, Combine;
    var level := Layer(key, leaves, k);
    if |level| > 1 {
      NextLevel(key, leaves, layers, k);
      assert layers[k] == level;
      LayersTail(key, leaves, layers, k + 1, Parents(s));
      assert layers[k..][1..] == layers[k + 1..];
    }
  }

  // ----- C# -----

  /** The next level into a fresh table, two nodes at a time. */
  method CombineLevel(key: Key, cvs: seq<Digest>) returns (next: seq<Digest>)
    ensures next == Combine(key, cvs)
  {
    var table := new Digest[Half(|cvs|)](_ => Junk([]));
    var i := 0;
    while i < |cvs|
      invariant i % 2 == 0 && i <= 2 * Half(|cvs|)
      invariant forall j | 0 <= j < i / 2 :: table[j] == Combine(key, cvs)[j]
    {
      table[i / 2] := if i + 1 < |cvs| then Parent(key, cvs[i], cvs[i + 1]) else cvs[i];
      i := i + 2;
    }
    next := table[..];
  }

  /** The padded bytes the C# tree is built over: never fewer than one chunk. */
  function CsPadded(data: seq<Byte>): (p: seq<Byte>)
    ensures |p| >= 1024 && |p| % 1024 == 0
  {
    if data == [] then Zeros(1024) else PadToChunk(data)
  }

  /** The C# root is the BLAKE3 root of the padded bytes. */
  method MerkleRoot(data: seq<Byte>, key: Key) returns (root: Digest)
    ensures root == Blake3Root(key, CsPadded(data))
  {
    var padded := CsPadded(data);
    var totalLeaves := |padded| / 1024;
    if totalLeaves == 1 {
      return RootChunk(key, padded);
    }
    var cvs := LeafTable(key, padded);
    ghost var leaves := cvs;
    while |cvs| > 2
      invariant |cvs| >= 2
      invariant TopRoot(key, cvs) == TopRoot(key, leaves)
      decreases |cvs|
    {
      cvs := CombineLevel(key, cvs);
    }
    TopRootIsLeftBalanced(key, leaves);
    root := Root(key, cvs[0], cvs[1]);
  }

  method LeafTable(key: Key, padded: seq<Byte>) returns (cvs: seq<Digest>)
    requires |padded| % 1024 == 0
    ensures cvs == LeafCvs(key, padded)
  {
    var table := new Digest[|padded| / 1024](_ => Junk([]));
    for i := 0 to |padded| / 1024
      invariant forall j | 0 <= j < i :: table[j] == LeafCvs(key, padded)[j]
    {
      table[i] := Chunk(key, padded[i * 1024 .. i * 1024 + 1024], i);
    }
    cvs := table[..];
  }

  /** One level of the C# walk over the sorted map of known nodes. */
  method WalkLevel(key: Key, known: map<nat, Digest>, allCvs: seq<Digest>, siblings0: seq<Digest>)
    returns (next: map<nat, Digest>, siblings: seq<Digest>)
    requires Below(known.Keys, |allCvs|)
    ensures next.Keys == Parents(known.Keys)
    ensures siblings == siblings0 + EmitFrom(known.Keys, allCvs, 0)
  {
    hide EmitFrom, Parents;
    next, siblings := map[], siblings0;
    NothingKnown(known.Keys, |allCvs|);
    for index := 0 to |allCvs|
      invariant next.Keys == Parents(Upto(known.Keys, index))
      invariant siblings + EmitFrom(known.Keys, allCvs, index) == siblings0 + EmitFrom(known.Keys, allCvs, 0)
    {
      ParentsUptoStep(known.Keys, index);
      ghost var before := siblings;
      if index in known {
        var cv := known[index];
        if index % 2 == 0 {
          if index + 1 in known {
            next := next[index / 2 := Parent(key, cv, known[index + 1])];
          } else if index + 1 < |allCvs| {
            siblings := siblings + [allCvs[index + 1]];
            next := next[index / 2 := Parent(key, cv, allCvs[index + 1])];
          } else {
            next := next[index / 2 := cv];
          }
        } else if index - 1 !in known {
          siblings := siblings + [allCvs[index - 1]];
          next := next[index / 2 := Parent(key, allCvs[index - 1], cv)];
        }
      }
      assert siblings == before + EmitAt(known.Keys, allCvs, index);
      EmitJoin(known.Keys, allCvs, index, before);
    }
    EmitEnds(known.Keys, allCvs);
    assert siblings + [] == siblings;
  }

  lemma NothingKnown(s: set<nat>, n: nat)
    ensures Parents(Upto(s, 0)) == {} && (Below(s, n) ==> Upto(s, n) == s)
  {
  }

  lemma EmitJoin(s: set<nat>, level: seq<Digest>, i: nat, before: seq<Digest>)
    requires i < |level|
    ensures before + EmitFrom(s, level, i) == (before + EmitAt(s, level, i)) + EmitFrom(s, level, i + 1)
  {
    hide EmitAt;
  }

  lemma EmitEnds(s: set<nat>, level: seq<Digest>)
    ensures EmitFrom(s, level, |level|) == []
  {
  }

  /** The C# sibling list over a leaf table. With nothing known it names the two top nodes. */
  method CsSiblings(key: Key, leaves: seq<Digest>, required: set<nat>) returns (siblings: seq<Digest>)
    requires |leaves| >= 2 && Below(required, |leaves|)
    ensures required != {} ==> siblings == Siblings(key, leaves, required)
    ensures required == {} ==> |siblings| == 2 && TopRoot(key, leaves) == Root(key, siblings[0], siblings[1])
  {
    var known: map<nat, Digest> := map i | i in required :: leaves[i];
    var allCvs := leaves;
    siblings := [];
    assert known.Keys == required;
    assert siblings + Siblings(key, leaves, required) == Siblings(key, leaves, required);
    hide EmitFrom, Combine, Siblings, TopRoot, Parents;
    while |allCvs| > 2
      invariant |allCvs| >= 2 && Below(known.Keys, |allCvs|)
      invariant known.Keys == {} <==> required == {}
      invariant required == {} ==> siblings == []
      invariant TopRoot(key, allCvs) == TopRoot(key, leaves)
      invariant siblings + Siblings(key, allCvs, known.Keys) == Siblings(key, leaves, required)
      decreases |allCvs|
    {
      NextSiblings(key, allCvs, known.Keys);
      ParentsBelow(known.Keys, |allCvs|);
      known, siblings := WalkLevel(key, known, allCvs, siblings);
      allCvs := CombineLevel(key, allCvs);
    }
    TopOfTwoEmits(key, allCvs, known.Keys);
    TopOfPair(key, allCvs);
    if required != {} {
      var i :| i in known.Keys;
    }
    if 0 !in known {
      siblings := siblings + [allCvs[0]];
    }
    if 1 !in known {
      siblings := siblings + [allCvs[1]];
    }
  }

  lemma NextSiblings(key: Key, level: seq<Digest>, s: set<nat>)
    requires |level| > 2
    ensures TopRoot(key, level) == TopRoot(key, Combine(key, level))
    ensures s == {} <==> Parents(s) == {}
    ensures s == {} ==> EmitFrom(s, level, 0) == []
    ensures forall done: seq<Digest> ::
      done + Siblings(key, level, s) == (done + EmitFrom(s, level, 0)) + Siblings(key, Combine(key, level), Parents(s))
  {
    if s == {} {
      NothingEmitted(s, level, 0);
    } else {
      ParentsNonEmpty(s);
    }
    forall done: seq<Digest>
      ensures done + Siblings(key, level, s)
           == (done + EmitFrom(s, level, 0)) + Siblings(key, Combine(key, level), Parents(s))
    {
      SiblingsSplit(key, level, s, done);
    }
  }

  lemma {:induction false} NothingEmitted(s: set<nat>, level: seq<Digest>, i: nat)
    requires s == {}
    ensures EmitFrom(s, level, i) == []
    decreases |level| - i
  {
    if i < |level| {
      NothingEmitted(s, level, i + 1);
    }
  }

  datatype InclusionProof = InclusionProof(
    leafData: seq<seq<Byte>>, leafIndices: seq<nat>, totalLeaves: nat, siblings: seq<Digest>)

  /** The chunks below n that the rows touch. */
  method RequiredChunks(rows: seq<nat>, width: nat, n: nat) returns (required: set<nat>)
    requires width > 0
    ensures forall c: nat :: c in required <==> c < n && TouchedBy(rows, |rows|, width, c)
  {
    required := {};
    hide RowTouches;
    for k := 0 to |rows|
      invariant forall c: nat :: c in required <==> c < n && TouchedBy(rows, k, width, c)
    {
      RowTouchesRange(rows[k], width, 0);
      assert (rows[k] + 1) * width == rows[k] * width + width;
      var byteStart: nat := rows[k] * width;
      var byteEnd: nat := byteStart + width - 1;
      var chunkStart, chunkEnd := byteStart / 1024, byteEnd / 1024;
      ghost var before := required;
      var c: nat := chunkStart;
      while c <= chunkEnd && c < n
        invariant chunkStart <= c
        invariant c <= chunkEnd + 1
        invariant forall x: nat :: x in required <==> x in before || (x < n && chunkStart <= x < c)
      {
        required := required + {c};
        c := c + 1;
      }
      forall x: nat
        ensures x in required <==> x < n && TouchedBy(rows, k + 1, width, x)
      {
        RowTouchesRange(rows[k], width, x);
        TouchedStep(rows, k, width, x);
      }
    }
  }

  /** The C# proof for matrix rows is the Rust proof, over the padded bytes, for the in-range
      chunks those rows touch. */
  method BuildProof(data: seq<Byte>, key: Key, rows: seq<nat>, width: nat)
    returns (p: InclusionProof, ghost required: set<nat>)
    requires width > 0
    ensures var padded := PadToChunk(data); var n := ChunkCount(|data|);
      if n <= 1 then p == InclusionProof([CsPadded(data)], [0], 1, [])
      else
        && |padded| > 1024 && Below(required, ChunkCount(|padded|)) && ChunkCount(|padded|) == n
        && (forall c: nat :: c in required <==> c < n && TouchedBy(rows, |rows|, width, c))
        && var h := HonestProof(key, padded, required);
          && p.leafData == h.leafData && p.leafIndices == h.leafIndices && p.totalLeaves == h.totalLeaves
          && (required != {} ==> p.siblings == h.siblings)
          && (required == {} ==> |p.siblings| == 2 && h.root == Root(key, p.siblings[0], p.siblings[1]))
  {
    hide *;
    required := {};
    var padded := PadToChunk(data);
    PaddedShape(data);
    var n := |padded| / 1024;
    if n <= 1 {
      return InclusionProof([CsPadded(data)], [0], 1, []), {};
    }
    var chunks := RequiredChunks(rows, width, n);
    required := chunks;
    InBounds(chunks, n);
    var leafIndices := Ascending(chunks, n);
    var leafData := LeafChunks(padded, leafIndices);
    var leaves := LeafTable(key, padded);
    var siblings := CsSiblings(key, leaves, chunks);
    p := InclusionProof(leafData, leafIndices, n, siblings);
    HonestFields(key, padded, chunks);
    assert leafData == HonestProof(key, padded, chunks).leafData;
  }

  lemma PaddedShape(data: seq<Byte>)
    ensures var p := PadToChunk(data);
      |p| % 1024 == 0 && |p| / 1024 == ChunkCount(|data|) == ChunkCount(|p|) && |p| == |p| / 1024 * 1024
  {
  }

  lemma InBounds(chunks: set<nat>, n: nat)
    requires forall c | c in chunks :: c < n
    ensures Below(chunks, n) && AllBelow(Ascending(chunks, n), n)
  {
    hide Ascending;
  }

  lemma HonestFields(key: Key, padded: seq<Byte>, chunks: set<nat>)
    requires |padded| > 1024 && Below(chunks, ChunkCount(|padded|))
    ensures var h, n := HonestProof(key, padded, chunks), ChunkCount(|padded|);
      && h.leafIndices == Ascending(chunks, n) && h.totalLeaves == n && |h.leafData| == |h.leafIndices|
      && AllBelow(h.leafIndices, n)
      && (forall k | 0 <= k < |h.leafIndices| :: h.leafData[k] == ProofLeaf(padded, h.leafIndices[k]))
      && |LeafCvs(key, padded)| == n && h.root == TopRoot(key, LeafCvs(key, padded))
      && h.siblings == Siblings(key, LeafCvs(key, padded), chunks)
  {
    hide Ascending, ProofLeaf, TopRoot, Siblings;
  }

  method LeafChunks(padded: seq<Byte>, indices: seq<nat>) returns (leafData: seq<seq<Byte>>)
    requires |padded| % 1024 == 0 && AllBelow(indices, ChunkCount(|padded|))
    ensures |leafData| == |indices|
    ensures forall k | 0 <= k < |indices| :: leafData[k] == ProofLeaf(padded, indices[k])
  {
    leafData := [];
    for k := 0 to |indices|
      invariant |leafData| == k
      invariant forall j | 0 <= j < k :: leafData[j] == ProofLeaf(padded, indices[j])
    {
      var i := indices[k];
      PaddedLeaf(padded, i);
      leafData := leafData + [padded[i * 1024 .. i * 1024 + 1024]];
    }
  }

  /** Every proof the C# builder makes for rows of the matrix verifies under the Rust verifier
      against the C# root. */
  lemma CsProofVerifies(key: Key, data: seq<Byte>, required: set<nat>, p: InclusionProof)
    requires ChunkCount(|data|) >= 2 && required != {} && Below(required, ChunkCount(|data|))
    requires |PadToChunk(data)| > 1024 && ChunkCount(|PadToChunk(data)|) == ChunkCount(|data|)
    requires var h := HonestProof(key, PadToChunk(data), required);
      && p.leafData == h.leafData && p.leafIndices == h.leafIndices
      && p.totalLeaves == h.totalLeaves && p.siblings == h.siblings
    ensures Verifies(MerkleProof(p.leafData, p.leafIndices, p.totalLeaves, Blake3Root(key, CsPadded(data)),
      p.siblings), key)
  {
    HonestProofVerifiesExactly(key, PadToChunk(data), required);
    TopRootIsLeftBalanced(key, LeafCvs(key, PadToChunk(data)));
    hide Verifies;
  }
}
