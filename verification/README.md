# ARC-miner: a Dafny model of its proof-carrying core

ARC-miner mines by committing to large matrices, opening small parts of them, and searching nonces.
This project models the parts of the repository that others must be able to trust:

- the keyed BLAKE3 Merkle tree, its multi-leaf and audit proofs, and every emitter and verifier of them (Rust and C#);
- BLAKE3 itself as the C# code runs it, its seekable output, and the matrix a seed expands to;
- the hash kernels (SHA-256d on a midstate, three-fold SHA3-256, the unrolled BLAKE3 challenge) against the standards;
- the concurrent searches, the outbound event stream and the σ-to-job map, as state machines over all interleavings;
- compact targets, noise and jackpot arithmetic, and periodic index patterns.

Merkle digests are symbolic terms (`Chunk`, `Parent`, `Root`, `RootChunk`, and `Junk` for any other 32 bytes), so hashing
is injective by construction and "binding" means equality of terms. The hash kernels are modelled on real 32- and 64-bit
words. Integer widths are written out wherever wrap-around can show: 32-bit accumulators, signed bytes, the work-item
count, wrapped strides.

Loops and in-place code are methods over arrays and mutable variables, each proved against a specification function or a
stated property; the theorems are about those specifications.

## Where the code does not do what one might expect

Each of these comes with the exact condition under which the expected behaviour holds, proved for all inputs.

- A multi-leaf proof that opens a short last chunk never verifies: the prover pads the chunk, the tree hashed it unpadded
  (`HonestProofVerifiesExactly`).
- `sanity_check` and `compute_root` do not refuse indices at or above the leaf count; an accepted proof carries only
  committed leaves exactly when its indices are below the count (`OutOfRangeLeafAccepted`,
  `LeavesCommittedExactlyInRange`).
- The leaves of an accepted proof are bound by the root whatever leaf count it claims (`LeavesBoundForAnyLeafCount`), the
  leaf count itself is not (`LeafCountNotBound`): it is forced exactly when one of the opened leaves is in the last pair
  (`LeafCountBoundExactly`).
- A proof of a one-chunk tree never verifies: the tree's root is hashed as a root, the verifier hashes the leaf as a chunk
  (`OneLeafProofNeverVerifies`).
- The C# audit verifier regenerates a whole chunk from the seed, so a short last chunk is accepted only when the bytes past
  the matrix happen to be zero (`RegeneratesExactly`). No seed with a non-zero tail is named here: that would take
  BLAKE3 evaluated on constants.
- The Rust audit verifier takes the leaf count from the caller. It accepts only the power of two of the tree's depth
  (`AcceptsExactly`), so the true count is forced exactly when it is a power of two (`AuditCountBoundExactly`); beside any
  other count it accepts the openings of leaves that are promoted nowhere (`AuditCountNotBound`).
- `compute_cv` need not return on data that ends in a short chunk. Over an honest proof it never returns exactly for a node
  over that chunk when the chunk is opened (`ShortLeafEndless`), and for the chunk itself, or its promotion, when it is
  neither opened nor beside a node over an opened leaf (`ShortLeafUnderLabel`); for every other node of every layer it
  answers with the node or fails (`RecomputeNode`). On chunk-aligned ranges it always returns (`AlignedEnds`).
- A nonce window with count + per - 1 >= 2^32 wraps its work-item count and misses its last nonce
  (`WrapMissesTheLastNonce`).
- `FromIndices` returns three dimensions even for a list that needs more (`ThreeDimensionsAreNotEnough`), and the six-byte
  form of a correct shape can describe another list (`BytesMayChangeTheList`). The bytes describe the accepted list
  exactly when some three dimensions do and each of the three returned has a stride of 1 to 256 times the extent before it
  and a length of 1 to 256 (`BytesKeepTheListExactly`).
- Noise pairs stay below a rank exactly when the rank is a power of two above one (`PairsInRangeExactly`).
- Sequence numbers on the wire need not rise (`NumbersMayCross`). They rise in every run whose producers take numbers one
  at a time and after Auth (`SerialRunsRise`), and from a given moment on exactly when that moment is in order
  (`NumbersRiseExactly`).
- A writer task cancelled before it is scheduled never drains: the account of accepted events is complete exactly when the
  loop was entered or nothing was accepted (`AccountIsCompleteExactly`), and any number of events up to the channel's
  capacity can be lost that way (`EventsMayBeLost`).

## Layout

| file | subject |
|---|---|
| `Digests.dfy`, `MerkleTree.dfy` | symbolic digests, the leaf table, pairing layers, the left-balanced tree |
| `MerkleProof.dfy`, `ProofVerification.dfy`, `LeafBinding.dfy` | folding, completeness, binding |
| `Extraction.dfy`, `SiblingRanges.dfy`, `NodeRecovery.dfy` | reading rows, labelling siblings, recomputing nodes |
| `Emitters.dfy` | the other emitters, from leaf values and in C# |
| `Blake3.dfy`, `SeedExpansion.dfy`, `SeedProofs.dfy` | the hash, its extended output, seed expansion, proofs without the matrix |
| `Audit.dfy`, `AuditVerification.dfy`, `AuditCount.dfy` | audit paths, both verifiers, the round trip, the claimed leaf count |
| `Sha256.dfy`, `Keccak.dfy`, `Challenge.dfy` | fast hash forms against their references |
| `ChallengeWorkers.dfy`, `NonceSearch.dfy`, `HeaderSearch.dfy` | concurrent searches, and the two block-header searches |
| `OutboundStream.dfy`, `StreamOrder.dfy`, `SigmaJobs.dfy` | the event stream, its numbering, the σ-to-job map |
| `CompactTargets.dfy`, `Noise.dfy`, `Jackpot.dfy`, `NoisyJackpot.dfy`, `LcgInt7.dfy` | arithmetic |
| `PeriodicPatterns.dfy`, `PatternBytes.dfy` | shape inference and its byte form |

## Model

| member | source | states |
|---|---|---|
| MerkleTrees.ProcessSegment | native/pearl-blake3/src/hasher.rs:144-179 | a 64-chunk segment writes exactly its own leaves of the table, the data's short last chunk included, and nothing else |
| MerkleTrees.HashChunks | native/pearl-blake3/src/hasher.rs:113-127 | the segments, taken in any order and any number of times, leave the chaining value of every chunk |
| MerkleTrees.NodeIsSubtree | native/pearl-blake3/src/hasher.rs:130-142 | node i of layer k of the odd-promoting pairing is the recursive left-balanced subtree over leaves i·2^k up to min((i+1)·2^k, n) |
| MerkleTrees.TopRootIsLeftBalanced | native/pearl-blake3/src/merkle.rs:63-75 | for every leaf count above one the paired-up root is the root of section 2.1 of the BLAKE3 paper |
| MerkleTrees.BuildLayers | native/pearl-blake3/src/merkle.rs:63-75 | the stored layers are all pairing layers down to two nodes with the root on top |
| MerkleTrees.BuildTree | native/pearl-blake3/src/merkle.rs:43-82 | empty, one-chunk and longer data each give their tree, and its top is the BLAKE3 root of the data |
| MerkleProofs.HonestProofFolds | native/pearl-blake3/src/merkle.rs:280-349 | folding any non-empty leaf set with the emitted siblings consumes exactly those siblings and reaches the root |
| MerkleProofs.RootBinds | native/pearl-blake3/src/merkle.rs:280-349 | whatever nodes and siblings fold to a level's root, under whatever key, are that level's own nodes and exactly the emitted siblings |
| ProofVerification.WalkLayers | native/pearl-blake3/src/merkle.rs:126-148 | the level walk over stored layers emits the canonical sibling list |
| ProofVerification.GetMultileafProof | native/pearl-blake3/src/merkle.rs:102-157 | for any order and duplication of in-range indices the proof is the one canonical proof of their set |
| ProofVerification.OneLeafProofNeverVerifies | native/pearl-blake3/src/merkle.rs:269-299 | the proof of a one-chunk tree verifies under no key |
| ProofVerification.ComputeRoot | native/pearl-blake3/src/merkle.rs:280-349 | the loop's outcome, with its none and its panic cases, is the root function that completeness and binding are about |
| ProofVerification.ProofVerifiesExactlyWhenTrue | native/pearl-blake3/src/merkle.rs:280-354 | a well-formed in-range proof with the tree's root and leaf count verifies if and only if the key is the tree's, every leaf is the committed chunk and the siblings are the emitted ones |
| ProofVerification.HonestProofVerifiesExactly | native/pearl-blake3/src/merkle.rs:102-157 | the prover's proof verifies if and only if the data is chunk-aligned or the last chunk is not opened |
| ProofVerification.VerifiedProofIsHonest | native/pearl-blake3/src/merkle.rs:352-354 | over chunk-aligned data a proof verifies if and only if it is the prover's proof under the tree's key |
| LeafBinding.LeafHangs | native/pearl-blake3/src/merkle.rs:280-349 | in a root that computes, every leaf hangs at the turns its index and the claimed count give it |
| LeafBinding.RootReachesOnlyItsLevel | native/pearl-blake3/src/merkle.rs:280-349 | a chunk hangs in the root of a level only inside one of the level's nodes, below exactly that node's turns |
| LeafBinding.LeavesBoundForAnyLeafCount | native/pearl-blake3/src/merkle.rs:280-354 | whatever leaf count a proof claims, if its indices are below it and it verifies, its leaves are the committed chunks at those indices |
| LeafBinding.LastPairFixesCount | native/pearl-blake3/src/merkle.rs:297-329 | the turns of either leaf of the last pair determine the leaf count |
| LeafBinding.LeafCountNotBound | native/pearl-blake3/src/merkle.rs:280-349 | for every tree, the prover's proof of any leaves outside the last pair also verifies with one leaf more or less claimed |
| LeafBinding.LeafCountBoundExactly | native/pearl-blake3/src/merkle.rs:280-354 | opening a set of leaves forces every accepted proof to claim the true count if and only if the set meets the last pair |
| LeafBinding.OutOfRangeLeafAccepted | native/pearl-blake3/src/merkle.rs:252-266 | beside a true leaf of a two-leaf tree any leaf at any index from two up passes the checks and verifies |
| LeafBinding.LeavesCommittedExactlyInRange | native/pearl-blake3/src/merkle.rs:280-354 | a verifying proof with the tree's leaf count carries only committed leaves if and only if its indices are below the count |
| Extraction.CopyLeaf | native/pearl-blake3/src/merkle.rs:357-376 | one leaf overwrites exactly the result bytes whose positions lie in its chunk and reports their number |
| Extraction.ExtractBytes | native/pearl-blake3/src/merkle.rs:357-376 | for every proof, succeeds if and only if the leaves copy as many bytes as asked for; on a sane one if and only if every byte of the range lies in an opened chunk, and then returns the byte the opened leaf holds at each position |
| Extraction.ReadVerified | native/pearl-blake3/src/merkle.rs:352-376 | from any proof that verifies, whatever count it claims, a range extracts if and only if all its bytes lie in opened chunks, and then it is the committed bytes |
| Extraction.LeafIndicesFromRows | native/pearl-blake3/src/merkle.rs:212-226 | the ascending list holds a chunk if and only if it shares a byte with one of the rows |
| Extraction.ProveAndReadRow | native/pearl-blake3/src/merkle.rs:212-376 | proving the chunks computed for a set of rows and extracting any of those rows returns that row of the committed matrix |
| SiblingRanges.ComputeSiblingRanges | native/pearl-blake3/src/merkle.rs:379-417 | for every proof, siblings are paired in order with the positions that need one, each labelled with the bytes of its node |
| SiblingRanges.HonestRangesTrue | native/pearl-blake3/src/merkle.rs:379-417 | every label of an honest proof, over data of any length, names the byte range of the node whose chaining value it carries |
| NodeRecovery.MidpointSplits | native/pearl-blake3/src/merkle.rs:434 | half the next power of two of a byte length is where the left-balanced tree splits its chunks, a short last chunk included |
| NodeRecovery.ComputeCv | native/pearl-blake3/src/merkle.rs:420-439 | for every proof and byte range: a value if and only if the range is recoverable from labels and opened leaves, endless recursion if and only if an unlabelled range of at most one byte is reached and never on whole chunks, and from true labels and committed leaves the true subtree value |
| NodeRecovery.AlignedEnds | native/pearl-blake3/src/merkle.rs:429-437 | the recursion into any run of whole chunks ends, whatever the labels and leaves |
| NodeRecovery.AncestorsRecoverable | native/pearl-blake3/src/merkle.rs:420-439 | from an honest proof every ancestor-or-self of an opened leaf that is over no opened short chunk is recoverable |
| NodeRecovery.LabelsMissOpened | native/pearl-blake3/src/merkle.rs:379-417 | no label of an honest proof covers the start of an opened leaf |
| NodeRecovery.ShortLeafEndless | native/pearl-blake3/src/merkle.rs:429-437 | once a short last chunk is opened the recursion into any node over it does not end |
| NodeRecovery.NoLabelInside | native/pearl-blake3/src/merkle.rs:379-417 | no label starts where a node over no opened leaf starts and ends before it |
| NodeRecovery.LabelledExactly | native/pearl-blake3/src/merkle.rs:379-417 | a node over no opened leaf is labelled if and only if the first sibling met going up from it is over one |
| NodeRecovery.StrangerIs | native/pearl-blake3/src/merkle.rs:420-439 | a node over no opened leaf that is not labelled cannot be rebuilt, and asking for it ends if and only if it is not the short last chunk |
| NodeRecovery.ShortLeafUnderLabel | native/pearl-blake3/src/merkle.rs:429-437 | with four leaves, a short last one and only the first opened, asking for the last never returns |
| NodeRecovery.RecomputeNode | native/pearl-blake3/src/merkle.rs:379-439 | prove, label, recompute, for every node of every layer: over an opened leaf the pairing-layer node, or endless when an opened short chunk is under it; beside such a node the node; elsewhere an error, or endless for the short chunk itself; on chunk-aligned data it always returns, and whatever it answers is the node |
| Emitters.LayersFromLeafCvs | native/pearl-mining-capi/src/lib.rs:820-862 | layers rebuilt from leaf values are the tree's layers with the tree's root; the two error cases are exactly none and a single leaf without its bytes |
| Emitters.SiblingsFromLayers | native/pearl-mining-capi/src/lib.rs:864-898 | fails exactly on an empty index list or a missing layer, otherwise reads each level's siblings from its own layer; on a tree's layers none is missing and the list is the Rust prover's |
| Emitters.StoredIsSiblings | native/pearl-mining-capi/src/lib.rs:877-895 | a tree's stored layers suffice, and the siblings read from them are those of the recursive definition |
| Emitters.MerkleRoot | src/Akoya.Crypto/Blake3.cs:346-400 | the C# root is the BLAKE3 root of the zero-padded data, a zero chunk for empty data |
| Emitters.WalkLevel | src/Akoya.Crypto/MerkleProofBuilder.cs:106-148 | one pass over the sorted known nodes leaves their parents known and appends the level's canonical siblings |
| Emitters.CsSiblings | src/Akoya.Crypto/MerkleProofBuilder.cs:96-170 | the C# sibling list equals the Rust list for every non-empty chunk set, and for none names the two top nodes |
| Emitters.RequiredChunks | src/Akoya.Crypto/MerkleProofBuilder.cs:57-67 | the chunks required for a set of rows are those below the count that share a byte with one |
| Emitters.BuildProof | src/Akoya.Crypto/MerkleProofBuilder.cs:30-179 | the C# proof is, field by field, the Rust proof over the padded data for the in-range chunks the rows touch |
| Emitters.CsProofVerifies | src/Akoya.Crypto/MerkleProofBuilder.cs:30-179 | such a proof passes the Rust verifier against the C# root |
| Blake3.CompressInPlace | src/Akoya.Crypto/Blake3.cs:423-475 | the seven in-place rounds with permutation between them are the compression function of section 2.2 of the BLAKE3 paper |
| Blake3.LoadBlock | src/Akoya.Crypto/Blake3.cs:479-494 | full words, ragged tail word and zero words together are the block padded with zeros and read little-endian |
| Blake3.Hash | src/Akoya.Crypto/Blake3.cs:45-80 | the chained blocks give the first 32 bytes of the extended output |
| Blake3.Xof | src/Akoya.Crypto/Blake3.cs:153-209 | the streamed buffer is the extended output from byte zero, for every length |
| Blake3.XofAt | src/Akoya.Crypto/Blake3.cs:92-146 | the buffer is the extended output from any byte offset |
| Blake3.XofRangeIsSlice | src/Akoya.Crypto/Blake3.cs:92-209 | reading at an offset is slicing the stream |
| SeedExpansion.ExpandRaw | src/Akoya.Crypto/BSeedExpander.cs:33-56 | the first n·k bytes are the seed's expansion and the rest of the buffer is untouched |
| SeedExpansion.ExpandRangeRaw | src/Akoya.Crypto/BSeedExpander.cs:69-87 | the buffer is the expansion from the given offset |
| SeedExpansion.ExpansionIsSlice | src/Akoya.Crypto/BSeedExpander.cs:69-87 | any range of the expansion is a slice of the whole |
| SeedExpansion.ExpandLeaf | native/pearl-mining-capi/src/lib.rs:768-776 | a leaf regenerated on its own is that chunk of the zero-padded full expansion, and zeros past its end |
| SeedProofs.TableProofVerifiesExactly | native/pearl-mining-capi/src/lib.rs:820-898 | a proof made over any table of leaf values verifies if and only if each chunk it carries hashes to its entry |
| SeedProofs.ProofFromLeafCvs | native/pearl-mining-capi/src/lib.rs:1063-1207 | refused exactly on sizes that do not fit, a row out of range or an opened chunk that does not hash to its leaf value; what is not refused verifies against its root, whatever the other leaf values are |
| SeedProofs.BuildSeedTree | native/pearl-mining-capi/src/lib.rs:778-818 | refused exactly on sizes that do not fit; otherwise the table's layers and root, for one chunk the root of the regenerated chunk |
| SeedProofs.SeedProof | native/pearl-mining-capi/src/lib.rs:1325-1420 | refused exactly without rows or on a row out of range; otherwise the chunks the rows touch, regenerated from the seed, with the table's siblings |
| SeedProofs.SeedProofIsHonest | native/pearl-mining-capi/src/lib.rs:1325-1420 | over the seed's own leaf values it is the proof the tree over the whole matrix gives |
| SeedProofs.SeedToProof | native/pearl-mining-capi/src/lib.rs:998-1420 | seed, layers, regenerated leaves and siblings together: the proof verifies if and only if the leaf values of the opened chunks are the seed's, and over the seed's own table it equals the honest proof of the expanded matrix and verifies against its root |
| Audit.PathBinds | src/Akoya.Crypto/AuditProofVerifier.cs:81-117 | a path of the right length folds to a level's root if and only if key, node and every sibling are the true ones |
| Audit.PathAt | native/pearl-blake3/src/merkle.rs:190-206 | the k-th sibling is read at layer k beside the k-th ancestor |
| Audit.Build | src/Akoya.Crypto/AuditProofBuilder.cs:40-147 | each refusal happens on exactly its condition, and otherwise every opening's slot, duplicates included, holds its leaf's path |
| Audit.CvTable | src/Akoya.Crypto/AuditProofBuilder.cs:105-119 | the table's levels are the tree's layers and its top is the tree's root |
| Audit.GetAuditPaths | native/pearl-blake3/src/merkle.rs:168-209 | for any built tree, one-chunk and empty ones included: refuses exactly a non-power-of-two count or an index out of range, and otherwise emits the audit buffer, which is one and the same for every emitter |
| Audit.AuditBufferIsUnique | src/Akoya.Crypto/AuditProofBuilder.cs:126-144 | two buffers that hold every opening's path are equal digest by digest |
| AuditVerification.VerifyAuditPaths | native/pearl-mining-capi/src/lib.rs:460-541 | accepts if and only if the shape is right and every opening folds to the expected root |
| AuditVerification.DeriveIndices | src/Akoya.Crypto/AuditIndexDeriver.cs:38-77 | each refusal on exactly its condition, and otherwise index i is word i of the extended output over domain, claimed hash, seed and K, reduced below the leaf count |
| AuditVerification.Verify | src/Akoya.Crypto/AuditProofVerifier.cs:43-128 | each error on exactly its condition in the code's order, and a mismatch names the first opening that does not fold to the root |
| AuditVerification.OpeningBinds | src/Akoya.Crypto/AuditProofVerifier.cs:81-117 | an opening folds to the root of the data if and only if key, leaf bytes and path are the true ones |
| AuditVerification.RustAcceptsExactly | native/pearl-mining-capi/src/lib.rs:488-538 | all openings hold if and only if the leaves are the committed chunks and the buffer is the emitted one |
| AuditVerification.RegeneratesExactly | src/Akoya.Crypto/AuditProofVerifier.cs:81-95 | a leaf regenerated from the seed is the committed chunk if and only if the expansion is zero past the matrix; always so for full chunks |
| AuditVerification.CsAcceptsExactly | src/Akoya.Crypto/AuditProofVerifier.cs:66-127 | all openings hold if and only if key and buffer are the true ones and every drawn leaf regenerates |
| AuditVerification.ReadAndVerify | native/pearl-mining-capi/src/lib.rs:460-541 | the Rust emitter reads exactly the C# builder's siblings from its own tree, and the Rust verifier accepts them whenever something is opened |
| AuditVerification.BuildThenVerify | src/Akoya.Crypto/AuditProofBuilder.cs:71-146 | for every seed and chunk-aligned power-of-two shape, the siblings built for the derived indices pass the C# verifier, equal the Rust emitter's and pass the Rust verifier |
| AuditCount.TurnsAreBits | native/pearl-mining-capi/src/lib.rs:502-520 | the bits of a leaf's index lead to it from the root if and only if it is promoted nowhere and they are as many as the tree is deep |
| AuditCount.OpenPathBinds | native/pearl-mining-capi/src/lib.rs:502-520 | in a tree of any leaf count a path as long as the tree is deep folds to the root if and only if key, node and siblings are the true ones |
| AuditCount.OpeningFoldsExactly | native/pearl-mining-capi/src/lib.rs:488-527 | an opening of any length folds to the root of any data if and only if it is the true opening of a leaf promoted nowhere |
| AuditCount.AcceptsExactly | native/pearl-mining-capi/src/lib.rs:460-541 | under any claimed count the verifier accepts if and only if the count is the power of two of the tree's depth and every opening is true |
| AuditCount.PowerOpens | native/pearl-blake3/src/merkle.rs:166-167 | with a power of two of leaves none is promoted and the paths are the audit paths |
| AuditCount.AuditCountNotBound | native/pearl-mining-capi/src/lib.rs:473-478 | under any other true count every leaf promoted nowhere opens under a larger claimed count |
| AuditCount.AuditCountBoundExactly | native/pearl-mining-capi/src/lib.rs:473-478 | acceptance forces the true leaf count if and only if that is a power of two |
| Sha256.RolledWord | native/csd-sha256d/csd_sha256d.hpp:29-48 | the word the kernel computes in its 16-word ring at step i is word i of the 64-word schedule |
| Sha256.RollingStep | native/csd-sha256d/csd_sha256d.hpp:29-48 | writing it keeps the ring holding the last sixteen schedule words |
| Sha256.Rounds | native/csd-sha256d/csd_sha256d.hpp:29-48 | the kernel's rounds compute the block function of section 6.2.2 of FIPS 180-4 |
| Sha256.HostBlock | native/csd-sha256d/csd_fused_check.cpp:22-29 | the host's whole-schedule block computes the same block function |
| Sha256.HostHash | native/csd-sha256d/csd_fused_check.cpp:30-36 | padding as in section 5.1.1 and hashing block by block gives SHA-256 of any message |
| Sha256.Sha256dTail | native/csd-sha256d/csd_sha256d.hpp:55-76 | the two hand-filled blocks are the padded second block of the header and the padded digest |
| Sha256.TailIsDoubleHash | native/csd-sha256d/csd_sha256d.hpp:55-76 | on the midstate of the first 64 bytes that digest is SHA-256 of SHA-256 of the whole 84-byte header, for every header and nonce |
| Sha256.LeTarget | native/csd-sha256d/csd_sha256d.hpp:79-83 | the word-wise test is the comparison of 256-bit numbers |
| Keccak.WalkFollowsRhoPi | native/sha3t-keccak/sha3t_keccak.hpp:46-49 | the two tables walk every lane but the first once, and each hop does what rho and pi of FIPS 202 do to that lane |
| Keccak.OffsetsAreTriangular | native/sha3t-keccak/sha3t_keccak.hpp:46-47 | the rotation table is (t+1)(t+2)/2 modulo 64 |
| Keccak.RoundConstantIsGenerated | native/sha3t-keccak/sha3t_keccak.hpp:25-33 | every entry of the constant table is what the bit generator of section 3.2.5 of FIPS 202 gives |
| Keccak.RhoPiInPlace | native/sha3t-keccak/sha3t_keccak.hpp:96-104 | the serial displacement walk equals the simultaneous rho and pi move |
| Keccak.ThetaInPlace | native/sha3t-keccak/sha3t_keccak.hpp:82-94 | the in-place columns equal theta of the old state |
| Keccak.ChiInPlace | native/sha3t-keccak/sha3t_keccak.hpp:106-116 | the row-by-row update equals chi of the old state |
| Keccak.KeccakF | native/sha3t-keccak/sha3t_keccak.hpp:79-121 | 24 in-place rounds equal 24 rounds of theta, rho, pi, chi, iota of section 3.2 of FIPS 202 |
| Keccak.ShortSha3 | native/sha3t-keccak/sha3t_keccak.hpp:135-162 | SHA3-256 of fewer than sixteen lanes is one permutation of lanes, padding bits and zeros |
| Keccak.Sha3tHash | native/sha3t-keccak/sha3t_keccak.hpp:135-162 | the kernel's digest is SHA3-256 applied three times to the 80-byte header with the nonce patched in |
| Keccak.PatchedBytes | native/sha3t-keccak/sha3t_keccak.hpp:140-143 | patching keeps bytes 0 to 75 and ends in the nonce, little-endian |
| Keccak.LeTarget | native/sha3t-keccak/sha3t_keccak.hpp:167-172 | the lane-wise test is the comparison of 256-bit numbers |
| Challenge.ScheduleIsPermutation | src/Akoya.Crypto/ChallengeSolver.cs:99-191 | the constants and zeros written into the seven unrolled rounds are the message permuted six times |
| Challenge.UnrolledIsHash | src/Akoya.Crypto/ChallengeSolver.cs:99-191 | the unrolled register form is BLAKE3 of seed and nonce, for every seed and nonce |
| Challenge.WordZerosAreLeadingZeros | src/Akoya.Crypto/ChallengeSolver.cs:173-190 | counting zeros in byte-reversed words equals counting them byte by byte |
| Challenge.TryNonce | src/Akoya.Crypto/ChallengeSolver.cs:99-191 | the fast test accepts exactly the nonces that win by the definition |
| Challenge.Verify | src/Akoya.Crypto/ChallengeSolver.cs:70-78 | the plain test accepts exactly the same nonces |
| Challenge.LeadingZeroBits | src/Akoya.Crypto/ChallengeSolver.cs:193-202 | the number of leading zero bits of the byte string |
| ChallengeWorkers.NextKeepsInv | src/Akoya.Crypto/ChallengeSolver.cs:43-58 | every step of any worker, and cancellation, keeps the invariant |
| ChallengeWorkers.RunKeepsInv | src/Akoya.Crypto/ChallengeSolver.cs:30-62 | the invariant holds at every moment of every interleaving |
| ChallengeWorkers.SolveIsSound | src/Akoya.Crypto/ChallengeSolver.cs:20-66 | when all workers are gone, a returned nonce wins and is the exchange winner's; nothing is returned only after cancellation; every nonce moved past does not win |
| ChallengeWorkers.OnlyWinnerWrites | src/Akoya.Crypto/ChallengeSolver.cs:49-54 | the shared nonce changes only in the one write of the worker that won the exchange |
| NonceSearch.NextKeepsInv | native/csd-sha256d/csd_sha256d.hpp:92-114 | every step of any work-item keeps tests, claims, slots and counter in agreement |
| NonceSearch.RunKeepsInv | native/sha3t-keccak/sha3t_capi.cpp:167-216 | so at every moment of every interleaving |
| NonceSearch.SearchIsExact | native/csd-sha256d/csd_sha256d.hpp:92-114 | when all items stop, every nonce of the window was hashed exactly once, the counter is the number of winners, and the first min(counter, cap) slots hold distinct winners |
| NonceSearch.WrapMissesTheLastNonce | native/sha3t-keccak/sha3t_capi.cpp:207-216 | once count + per - 1 reaches 2^32 the last nonce of the window is hashed in no run |
| NonceSearch.CopyFound | native/csd-sha256d/csd_capi.cpp:150-158 | reports the full count and copies the slots that fit both the device buffer and the caller's |
| NonceSearch.ReturnedAreWinners | native/csd-sha256d/csd_capi.cpp:150-158 | the caller gets the full count of winners and min(count, both buffers) distinct ones |
| HeaderSearch.CsdTrial | native/csd-sha256d/csd_sha256d.hpp:102-112 | on a header's own midstate and tail words the kernel's test accepts a nonce if and only if the double SHA-256 of the header with that nonce, as a number, is at most the target |
| HeaderSearch.CsdSearchIsExact | native/csd-sha256d/csd_capi.cpp:140-158 | over every interleaving the count reported is the number of nonces in the window that win so, and the nonces returned are distinct ones of them, as many as the buffers hold |
| HeaderSearch.Sha3tTrial | native/sha3t-keccak/sha3t_capi.cpp:174-190 | the kernel's test accepts a nonce if and only if the triple SHA3-256 of the header with that nonce, as a number, is at most the target |
| HeaderSearch.Sha3tSearchIsExact | native/sha3t-keccak/sha3t_capi.cpp:267-301 | the same of the sha3t search |
| CompactTargets.ExpansionIsClose | src/Akoya.Pool/StratumSession.cs:961-1000 | expanding a target's nBits never exceeds it and loses less than one part in 2^15 |
| CompactTargets.ReencodingIsFixed | src/Akoya.Pool/StratumSession.cs:961-1000 | encoding the expansion gives the same nBits |
| CompactTargets.EncodeIsMonotone | src/Akoya.Pool/StratumSession.cs:961-1000 | a larger target never has smaller nBits |
| CompactTargets.ClampIsUnreachable | src/Akoya.Pool/StratumSession.cs:1092-1113 | the quotient of a scaled difficulty of at least one always fits 32 bytes |
| CompactTargets.DifficultyIsAntitone | src/Akoya.Pool/StratumSession.cs:1092-1113 | a higher difficulty never has larger nBits, from any value a pool may send |
| CompactTargets.EncodeFits | src/Akoya.Pool/StratumSession.cs:961-1000 | the encoding is a 32-bit value from which exponent and mantissa read back |
| CompactTargets.TargetToNbits | src/Akoya.Pool/StratumSession.cs:961-1000 | on any byte string, leading zeros, short strings and the sign bit included, the encoding of its value, the length kept modulo 256 as the 32-bit shift keeps it |
| CompactTargets.NbitsToTarget | src/Akoya.Pool/StratumSession.cs:510-522 | for any 32-bit value, the 32 bytes of its expansion with bytes outside the buffer dropped |
| CompactTargets.Render32 | src/Akoya.Pool/StratumSession.cs:1103-1111 | a number that fits is rendered exactly, one that does not becomes all ones |
| CompactTargets.DifficultyToNbits | src/Akoya.Pool/StratumSession.cs:1092-1113 | the encoding of the difficulty's target; what is not a positive number counts as one, and a millionth is the least |
| CompactTargets.NotifyNbits | src/Akoya.Pool/StratumSession.cs:461-476 | the job gets exactly the nBits that vardiff reports for the same difficulty |
| SigmaJobs.NotifiedIs | src/Akoya.Pool/StratumSession.cs:452-459 | a known σ only gets its new job; a new one joins the queue, and past 100 exactly the oldest leaves both structures |
| SigmaJobs.JobTable.constructor | src/Akoya.Pool/StratumSession.cs:41-49 | both structures start empty and consistent |
| SigmaJobs.JobTable.Notify | src/Akoya.Pool/StratumSession.cs:912-920 | the fields change by one notification and stay consistent |
| SigmaJobs.JobTable.JobFor | src/Akoya.Pool/StratumSession.cs:690-698 | a recorded σ gives its job; any other is reported missed with its sixteen-byte prefix, or throws when it is shorter |
| SigmaJobs.RunWellFormed | src/Akoya.Pool/StratumSession.cs:452-459 | after any notifications there are at most 100 entries and the queue lists exactly the keys, each once |
| SigmaJobs.RunOrder | src/Akoya.Pool/StratumSession.cs:452-459 | the queue is the last 100 insertions in order |
| SigmaJobs.RunJobs | src/Akoya.Pool/StratumSession.cs:452-459 | every recorded σ maps to the job it was last notified with |
| SigmaJobs.RecentSigmasAreFound | src/Akoya.Pool/StratumSession.cs:690-698 | the σ of any of the last 100 insertions, and the one notified last, is found with its newest job |
| OutboundStream.StepKeepsPhase | src/Akoya.Pool/MiningSession.cs:286-343 | every step keeps the order of authentication, streaming, closing and draining |
| OutboundStream.StepConserves | src/Akoya.Pool/MiningSession.cs:517-600 | every step conserves accepted events as written, in flight, queued or abandoned, in order |
| OutboundStream.StepKeepsNumbers | src/Akoya.Pool/MiningSession.cs:496-515 | every step keeps handed-out numbers distinct and below the counter |
| OutboundStream.RunKeepsInv | src/Akoya.Pool/MiningSession.cs:286-343 | all of it at every moment of every interleaving of producers, writer and teardown |
| OutboundStream.WireIsFifo | src/Akoya.Pool/MiningSession.cs:300-327 | Auth is the first frame and only there, numbers on the wire are pairwise distinct, and the frames after it are the channel's first acceptances in order |
| OutboundStream.FinishedAccountsForAll | src/Akoya.Pool/MiningSession.cs:574-600 | after the drain every accepted event was written, was the at most one in flight, or was counted abandoned: exactly one of these |
| OutboundStream.AccountIsCompleteExactly | src/Akoya.Pool/MiningSession.cs:312-327 | once the writer's part is over the account is complete if and only if its loop was entered or nothing was accepted; otherwise what is missing is what the channel holds |
| OutboundStream.EventsMayBeLost | src/Akoya.Pool/MiningSession.cs:312-327 | for every number up to the channel's capacity a run that accepts that many events and accounts for none |
| OutboundStream.FinishedIsFinal | src/Akoya.Pool/MiningSession.cs:574-600 | nothing changes afterwards |
| OutboundStream.TallyAbandoned | src/Akoya.Pool/MiningSession.cs:582-593 | the drain's counts by kind are right and add up |
| OutboundStream.NumbersMayCross | src/Akoya.Pool/MiningSession.cs:496-500 | a run in which a later number precedes an earlier one on the wire |
| StreamOrder.SerialRunsRise | src/Akoya.Pool/MiningSession.cs:496-515 | in every run whose producers take numbers one at a time and after Auth, numbers rise strictly along the wire at every moment |
| StreamOrder.DisorderSurfaces | src/Akoya.Pool/MiningSession.cs:496-515 | from any live state with two waiting events, one waiting behind a larger number or a line out of order, a continuation puts a smaller number after a larger one |
| StreamOrder.NumbersRiseExactly | src/Akoya.Pool/MiningSession.cs:496-515 | from a live state every serialized continuation keeps numbers rising along the wire if and only if the state is in order |
| Noise.GenerateUniformRandomMatrix | src/Akoya.Crypto/NoiseGenerator.cs:32-63 | each asked-for row is its slice of one hashed stream, whatever other rows are asked for, with values from -32 to 31 |
| Noise.FillFromBlock | src/Akoya.Crypto/NoiseGenerator.cs:50-59 | one 32-byte block contributes exactly its elements inside the row |
| Noise.MulHi | src/Akoya.Crypto/NoiseGenerator.cs:19 | the high word of a product with a 32-bit number stays below the factor |
| Noise.PairInRange | src/Akoya.Crypto/NoiseGenerator.cs:84-86 | for every power-of-two rank from two up and every random word, two distinct indices below the rank |
| Noise.PairsInRangeExactly | src/Akoya.Crypto/NoiseGenerator.cs:71-86 | for 16-bit ranks this holds of all random words if and only if the rank is a power of two above one |
| Noise.GeneratePermutationMatrix | src/Akoya.Crypto/NoiseGenerator.cs:65-90 | line i's pair comes from its own four bytes of the eight-line hash, ragged last hash included |
| Noise.ApplySparsePermutation | src/Akoya.Crypto/NoiseGenerator.cs:92-102 | differences cut to signed bytes, and on six-bit rows exact and between -63 and 63 |
| Jackpot.AccumulatorsFitExactly | src/Akoya.Crypto/JackpotComputer.cs:27-30 | no 32-bit accumulator overflows for any rows within ±126 if and only if their length is at most 135266 |
| Jackpot.AddStage | src/Akoya.Crypto/JackpotComputer.cs:27-30 | a stage takes every cell from one wrapped prefix dot product to the next |
| Jackpot.Compute | src/Akoya.Crypto/JackpotComputer.cs:16-41 | the sixteen words are the fold of the tile's exclusive or after each stage, with wrapped accumulators, for all inputs |
| Jackpot.FoldedIsMixed | src/Akoya.Crypto/JackpotComputer.cs:37-38 | a word is the exclusive or of the stages that fall to it, each rotated by 13 once for every later one |
| Jackpot.CellIsExact | src/Akoya.Crypto/JackpotComputer.cs:27-30 | with seven-bit signal and noise and length at most 135266 every cell is the exact prefix dot product after every number of terms |
| NoisyJackpot.SparseNoise | src/Akoya.Crypto/JackpotComputer.cs:54-60 | the noise rows are the plain integer differences |
| NoisyJackpot.Compute | src/Akoya.Crypto/JackpotComputer.cs:46-63 | from raw noise matrices the words are the closed form over exact dot products |
| NoisyJackpot.FromSeeds | src/Akoya.Miner/Algos/Prl/ShareBuilder.cs:80-87 | from two noise seeds and any power-of-two rank the words are that closed form, every index in range and nothing wrapped |
| LcgInt7.Fill | src/Akoya.Crypto/LcgInt7.cs:29-56 | element i depends on seed and i alone, ragged tail included, and lies between -63 and 63 |
| PeriodicPatterns.WrappedTestIsExact | src/Akoya.Crypto/MiningConfiguration.cs:75-80 | on an increasing list the wrapped period test is the plain one |
| PeriodicPatterns.CommonPeriod | src/Akoya.Crypto/MiningConfiguration.cs:70-88 | two periods that fit a list together have a common divisor that is a period |
| PeriodicPatterns.GreedyIsBest | src/Akoya.Crypto/MiningConfiguration.cs:70-88 | cutting at the smallest period never costs a dimension against any other way of cutting |
| PeriodicPatterns.FindPeriod | src/Akoya.Crypto/MiningConfiguration.cs:70-88 | the smallest period that divides the length, or none because there is none |
| PeriodicPatterns.Peel | src/Akoya.Crypto/MiningConfiguration.cs:67-91 | terminates with the dimensions cut at smallest periods, each of length two or more: a shape of fewest dimensions that enumerates the list; or fails because no shape of any size does |
| PeriodicPatterns.PeeledShapes | src/Akoya.Crypto/MiningConfiguration.cs:67-91 | what is peeled off enumerates the list, and every stride is an element of it |
| PeriodicPatterns.PeelingIsUnique | src/Akoya.Crypto/MiningConfiguration.cs:67-91 | only one list of dimensions can be peeled off |
| PeriodicPatterns.PeeledIsFewest | src/Akoya.Crypto/MiningConfiguration.cs:67-91 | no way of cutting takes fewer cuts |
| PeriodicPatterns.FromIndices | src/Akoya.Crypto/MiningConfiguration.cs:58-96 | each refusal on exactly its condition; otherwise the first three of the peeled dimensions, padded with the 32-bit extent, and they enumerate the list in order if and only if some three dimensions do |
| PeriodicPatterns.ThreeDimensionsAreNotEnough | src/Akoya.Crypto/MiningConfiguration.cs:92-95 | for every n from 4 to 20 an accepted list that n dimensions enumerate and fewer do not |
| PatternBytes.ToBytes | src/Akoya.Crypto/MiningConfiguration.cs:38-52 | the six bytes, or a division by zero when an extent wraps to zero |
| PatternBytes.BytesRoundTrip | src/Akoya.Crypto/MiningConfiguration.cs:38-52 | reading the bytes back returns the dimensions if and only if each stride is 1 to 256 times the extent before it and each length is 1 to 256 |
| PatternBytes.BytesKeepTheListExactly | src/Akoya.Crypto/MiningConfiguration.cs:38-96 | for every accepted list, the bytes of the inferred shape describe it if and only if some three dimensions do and the three inferred fit their bytes |
| PatternBytes.IndicesToBytes | src/Akoya.Crypto/MiningConfiguration.cs:158-200 | inference and bytes together: what is written describes the given list if and only if a shape was found, three dimensions suffice and they fit |
| PatternBytes.BytesMayChangeTheList | src/Akoya.Crypto/MiningConfiguration.cs:38-96 | the inference gives the list 0, 1, 3, 4 this one shape, which enumerates it, and its bytes read back as 0, 1, 2, 3 |

## Left out

- Collision resistance: Merkle digests are symbolic terms, so binding holds by construction of terms and says nothing about BLAKE3's strength.
- GetMultileafProof: requires a non-empty in-range index list, as the code's assertions do.
- SiblingsFromLayers: takes in-range indices, as both callers check first (`ProofFromLeafCvs`, `SeedProof`), and layers of the sizes their number of leaves pairs up to; otherwise an odd index could reach past a layer and an even one would be passed over.
- ComputeCv: takes ranges that do not end before they start; endless recursion stands for the stack overflow it ends in.
- HashChunks: rayon's schedule is a parameter, the order in which segments run.
- BuildProof: row offsets are unbounded integers; the code's 32-bit byte offsets overflow only on matrices past 2 GB.
- DeriveIndices: says which indices are drawn, not that they are uniform.
- VerifyAuditPaths: buffers arrive as leaf and digest sequences of matching number; pointers and lengths of the C interface are not modelled.
- BSeed context cache, `bseed_merkle_audit_paths`: the same layer reads as `GetAuditPaths` behind an interface.
- ProofFromLeafCvs: buffers arrive as sequences of digests and chunks; null pointers and buffer lengths of the C interface are not modelled.
- GenerateUniformRandomMatrix: stream positions stay below 2^36, where the code's 32-bit block numbers are exact; seeds and keys have 32 bytes.
- GeneratePermutationMatrix: line counts stay below 2^31.
- PairsInRangeExactly: the "only if" half is for ranks of at most 2^16, which the wire's 16-bit rank field cannot exceed; the "if" half (PairInRange) has no such bound.
- Compute: takes a positive stage length and sides that cover the tile; the code would index out of range or divide by zero.
- DifficultyToNbits: the product is taken over real numbers; a double's rounding, and its overflow on difficulties beyond 10^302, are not modelled.
- FromIndices: the documentation promises a shape for the list; the code keeps the first three dimensions of a longer one, and the model follows the code.
- BytesKeepTheListExactly: the reader of the six bytes lives in another repository and is modelled from the layout comment above `ToBytes`.
- SearchIsExact: partial correctness of a finished launch; device scheduling fairness and memory orders beyond one atomic counter are not modelled.
- SolveIsSound: cancellation is a step that may happen at any time; termination depends on chance and is not claimed.
- OutboundStream: waiting of blocked producers, ping tracking, the stall watchdog, GOAWAY handling and reconnects.
- The derivation of the noise seeds, the keyed hash of the jackpot words, share assembly and the proof container formats: fixed layouts around the parts above.
- RandomX, GhostRider and NeuroMorph, device enumeration, SYCL and CUDA code outside the kernels, sockets, TLS, JSON, configuration, dashboard and control interface.
