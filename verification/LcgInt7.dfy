/** The seeded int7 stream that fills the A matrix. */
module LcgInt7 {

  type Long = bv64

  function SplitMix64(seed: Long): (r: Long) {
    var z0 := seed + 0x9E37_79B9_7F4A_7C15;
    var z1 := (z0 ^ (z0 >> 30)) * 0xBF58_476D_1CE4_E5B9;
    var z2 := (z1 ^ (z1 >> 27)) * 0x94D0_49BB_1331_11EB;
    z2 ^ (z2 >> 31)
  }

  /** The eight-byte word with number `i`. */
  function WordAt(base: Long, i: nat): (z: Long) {
    SplitMix64(base + (i % 0x1_0000_0000_0000_0000) as Long)
  }

  function BaseSeed(seedLo: Long, seedHi: Long): (base: Long) {
    SplitMix64(seedLo ^ SplitMix64(seedHi))
  }

  /** Byte `b` of a word, low byte first, folded to seven signed bits. */
  function Int7(z: Long, b: nat): (v: int)
    requires b < 8
    ensures -63 <= v <= 63
  {
    ((z >> (8 * b)) & 0xFF) as nat % 127 - 63
  }

  /** Element `i` of the stream depends on the seed and `i` alone, not on how much is filled. */
  function Sample(base: Long, i: nat): (v: int)
    ensures -63 <= v <= 63
  {
    Int7(WordAt(base, i / 8), i % 8)
  }

  /** Writes `n` bytes of word `i`. */
  method FillWord(dst: array<int>, base: Long, i: nat, n: nat)
    requires n <= 8 && i * 8 + n <= dst.Length
    requires forall j | 0 <= j < i * 8 :: dst[j] == Sample(base, j)
    modifies dst
    ensures forall j | 0 <= j < i * 8 + n :: dst[j] == Sample(base, j)
  {
    hide WordAt, Int7;
    var z := WordAt(base, i);
    for b := 0 to n
      invariant forall j | 0 <= j < i * 8 + b :: dst[j] == Sample(base, j)
    {
      WordAndByte(i, b);
      dst[i * 8 + b] := Int7(z, b);
    }
  }

  lemma WordAndByte(i: nat, b: nat)
    requires b < 8
    ensures (i * 8 + b) / 8 == i && (i * 8 + b) % 8 == b
  {
  }

  /** Full words first, then the ragged tail; the cut never shows. */
  method Fill(dst: array<int>, seedLo: Long, seedHi: Long)
    modifies dst
    ensures forall i | 0 <= i < dst.Length :: dst[i] == Sample(BaseSeed(seedLo, seedHi), i)
    ensures forall i | 0 <= i < dst.Length :: -63 <= dst[i] <= 63
  {
    hide Sample, BaseSeed;
    var base := BaseSeed(seedLo, seedHi);
    var n8 := dst.Length / 8;
    for i := 0 to n8
      invariant forall j | 0 <= j < i * 8 :: dst[j] == Sample(base, j)
    {
      FillWord(dst, base, i, 8);
    }
    var tailLen := dst.Length - n8 * 8;
    if tailLen > 0 {
      FillWord(dst, base, n8, tailLen);
    }
  }
}
