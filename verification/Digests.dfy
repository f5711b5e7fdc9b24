/** Keyed BLAKE3 outputs as symbolic terms. Two terms are equal only when the same kind of
    hash was taken of the same inputs under the same key. `Junk` stands for a 32-byte value
    that is no hash output, such as one invented by whoever wrote a proof.
 */
module Digests {
  type Byte = bv8
  type Key = seq<Byte>

  datatype Digest =
    | Chunk(key: Key, data: seq<Byte>, index: nat)
    | Parent(key: Key, left: Digest, right: Digest)
    | Root(key: Key, left: Digest, right: Digest)
    | RootChunk(key: Key, data: seq<Byte>)
    | Junk(bytes: seq<Byte>)

  datatype Option<+T> = None | Some(value: T)

  /** The number of chunks `len` bytes occupy. */
  function ChunkCount(len: nat): (n: nat)
    ensures n * 1024 - 1024 < len <= n * 1024 || len == n == 0
  {
    (len + 1023) / 1024
  }

  /** The bytes of chunk `i`; the last chunk may be short. */
  function ChunkBytes(data: seq<Byte>, i: nat): (c: seq<Byte>)
    requires i < ChunkCount(|data|)
    ensures 0 < |c| <= 1024
  {
    data[i * 1024 .. if (i + 1) * 1024 <= |data| then (i + 1) * 1024 else |data|]
  }

  /** The chaining values of all chunks of `data`. */
  function LeafCvs(key: Key, data: seq<Byte>): (cvs: seq<Digest>)
    ensures |cvs| == ChunkCount(|data|)
  {
    seq(ChunkCount(|data|), i requires 0 <= i < ChunkCount(|data|) => Chunk(key, ChunkBytes(data, i), i))
  }

  function Zeros(n: nat): (z: seq<Byte>)
    ensures |z| == n
  {
    seq(n, _ => 0)
  }

  /** `data` zero-padded to a chunk boundary. */
  function PadToChunk(data: seq<Byte>): (p: seq<Byte>)
    ensures |p| == ChunkCount(|data|) * 1024
    ensures data <= p
  {
    data + Zeros(ChunkCount(|data|) * 1024 - |data|)
  }

  lemma SliceOfSlice(s: seq<Byte>, a: nat, b: nat, c: nat, d: nat)
    requires a <= b <= |s| && c <= d <= b - a
    ensures s[a..b][c..d] == s[a + c..a + d]
  {
    var x, y := s[a..b][c..d], s[a + c..a + d];
    assert |x| == |y|;
    forall i | 0 <= i < |x| ensures x[i] == y[i] {
      assert x[i] == s[a..b][c + i];
    }
  }
}
