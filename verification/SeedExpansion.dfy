/** The matrix a 32-byte seed expands to, in full and leaf by leaf. */
module SeedExpansion {
  import opened Digests
  import opened Blake3
  import opened ProofVerification

  /** An output byte mapped to a signed seven-bit value, (b mod 127) - 63, kept as a byte. */
  function Int7(b: Byte): (r: Byte)
    ensures r <= 63 || r >= 193
  {
    (b % 127) - 63
  }

  /** Bytes [offset, offset + n) of the expansion. */
  function Expansion(seed: seq<Byte>, offset: nat, n: nat): (e: seq<Byte>)
    ensures |e| == n
  {
    seq(n, i requires 0 <= i < n => Int7(XofRange(seed, offset, n)[i]))
  }

  /** Maps the buffer in place. */
  method MapToInt7(buffer: array<Byte>)
    modifies buffer
    ensures forall i | 0 <= i < buffer.Length :: buffer[i] == Int7(old(buffer[i]))
  {
    hide Int7;
    for i := 0 to buffer.Length
      invariant forall j | 0 <= j < buffer.Length :: buffer[j] == if j < i then Int7(old(buffer[j])) else old(buffer[j])
    {
      buffer[i] := Int7(buffer[i]);
    }
  }

  /** The whole n by k matrix. */
  method ExpandRaw(seed: seq<Byte>, n: nat, k: nat, destination: array<Byte>)
    requires |seed| == 32 && n > 0 && k > 0
    requires n * k <= destination.Length < 0x8000_0000
    modifies destination
    ensures destination[..n * k] == Expansion(seed, 0, n * k)
    ensures destination[n * k..] == old(destination[n * k..])
  {
    hide Int7, XofRange;
    var xof := new Byte[n * k](_ => 0);
    Xof(seed, xof);
    ghost var raw := xof[..];
    for i := 0 to n * k
      invariant xof[..] == raw
      invariant forall j | 0 <= j < destination.Length ::
        destination[j] == if j < i then Int7(raw[j]) else old(destination[j])
    {
      destination[i] := Int7(xof[i]);
    }
  }

  /** Any byte range of it, without the bytes before. */
  method ExpandRangeRaw(seed: seq<Byte>, byteOffset: nat, destination: array<Byte>)
    requires |seed| == 32 && byteOffset < 0x1_0000_0000_0000_0000 && destination.Length < 0x8000_0000
    modifies destination
    ensures destination[..] == Expansion(seed, byteOffset, destination.Length)
  {
    hide Int7, XofRange;
    XofAt(seed, byteOffset, destination);
    MapToInt7(destination);
  }

  /** A range of the expansion is a slice of the whole. */
  lemma ExpansionIsSlice(seed: seq<Byte>, offset: nat, n: nat, total: nat)
    requires offset + n <= total
    ensures Expansion(seed, offset, n) == Expansion(seed, 0, total)[offset .. offset + n]
  {
    XofRangeIsSlice(seed, offset, n, total);
    hide XofRange, Int7;
  }

  /** The padded matrix of `len` bytes the seed expands to. */
  function Matrix(seed: seq<Byte>, len: nat): (m: seq<Byte>)
    ensures |m| == ChunkCount(len) * 1024 && ChunkCount(|m|) == ChunkCount(len)
  {
    PadToChunk(Expansion(seed, 0, len))
  }

  /** One leaf of the zero-padded matrix, regenerated on its own. */
  method ExpandLeaf(seed: seq<Byte>, dataLen: nat, leaf: nat) returns (bytes: seq<Byte>)
    requires |seed| == 32 && dataLen < 0x1_0000_0000_0000_0000
    ensures bytes == if leaf < ChunkCount(dataLen) then ProofLeaf(Expansion(seed, 0, dataLen), leaf) else Zeros(1024)
  {
    var offset := leaf * 1024;
    if offset < dataLen {
      var valid := if dataLen - offset < 1024 then dataLen - offset else 1024;
      var buffer := new Byte[valid](_ => 0);
      ExpandRangeRaw(seed, offset, buffer);
      ExpansionIsSlice(seed, offset, valid, dataLen);
      hide Expansion;
      bytes := buffer[..] + Zeros(1024 - valid);
    } else {
      bytes := Zeros(1024);
    }
  }
}
