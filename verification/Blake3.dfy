/** The BLAKE3 compression, its single-chunk hash and its seekable extended output. */
module Blake3 {
  import opened Digests

  type Word = bv32

  // ----- the compression as a function of values -----

  datatype Quad = Quad(a: Word, b: Word, c: Word, d: Word)

  function RotR(x: Word, n: nat): Word
    requires 0 < n < 32
  {
    (x >> n) | (x << (32 - n))
  }

  function Add(x: Word, y: Word): Word { x + y }

  function XorRotR(x: Word, y: Word, n: nat): Word
    requires 0 < n < 32
  {
    RotR(x ^ y, n)
  }

  /** The quarter round. */
  function Mix(q: Quad, x: Word, y: Word): (r: Quad) {
    var a := Add(Add(q.a, q.b), x);
    var d := XorRotR(q.d, a, 16);
    var c := Add(q.c, d);
    var b := XorRotR(q.b, c, 12);
    var a' := Add(Add(a, b), y);
    var d' := XorRotR(d, a', 8);
    var c' := Add(c, d');
    Quad(a', XorRotR(b, c', 7), c', d')
  }

  /** The quarter round applied to four words of a state. */
  function MixAt(s: seq<Word>, a: nat, b: nat, c: nat, d: nat, x: Word, y: Word): (r: seq<Word>)
    requires |s| == 16 && a < 4 <= b < 8 <= c < 12 <= d < 16
    ensures |r| == 16
  {
    var q := Mix(Quad(s[a], s[b], s[c], s[d]), x, y);
    s[a := q.a][b := q.b][c := q.c][d := q.d]
  }

  function Columns(s: seq<Word>, m: seq<Word>): (r: seq<Word>)
    requires |s| == 16 && |m| == 16
    ensures |r| == 16
  {
    var s0 := MixAt(s, 0, 4, 8, 12, m[0], m[1]);
    var s1 := MixAt(s0, 1, 5, 9, 13, m[2], m[3]);
    var s2 := MixAt(s1, 2, 6, 10, 14, m[4], m[5]);
    MixAt(s2, 3, 7, 11, 15, m[6], m[7])
  }

  function Diagonals(s: seq<Word>, m: seq<Word>): (r: seq<Word>)
    requires |s| == 16 && |m| == 16
    ensures |r| == 16
  {
    var s0 := MixAt(s, 0, 5, 10, 15, m[8], m[9]);
    var s1 := MixAt(s0, 1, 6, 11, 12, m[10], m[11]);
    var s2 := MixAt(s1, 2, 7, 8, 13, m[12], m[13]);
    MixAt(s2, 3, 4, 9, 14, m[14], m[15])
  }

  /** One round: four columns, then four diagonals. */
  function Round(s: seq<Word>, m: seq<Word>): (r: seq<Word>)
    requires |s| == 16 && |m| == 16
    ensures |r| == 16
  {
    Diagonals(Columns(s, m), m)
  }

  const PERMUTATION: seq<nat> := [2, 6, 3, 10, 7, 0, 4, 13, 1, 11, 12, 5, 9, 14, 15, 8]

  function Permute(m: seq<Word>): (r: seq<Word>)
    requires |m| == 16
    ensures |r| == 16
  {
    seq(16, i requires 0 <= i < 16 => m[PERMUTATION[i]])
  }

  /** n rounds, the message permuted between them. */
  function Rounds(s: seq<Word>, m: seq<Word>, n: nat): (r: seq<Word>)
    requires |s| == 16 && |m| == 16
    ensures |r| == 16
    decreases n
  {
    if n == 0 then s else Rounds(Round(s, m), Permute(m), n - 1)
  }

  const IV: seq<Word> := [0x6A09E667, 0xBB67AE85, 0x3C6EF372, 0xA54FF53A, 0x510E527F, 0x9B05688C, 0x1F83D9AB,
    0x5BE0CD19]

  const CHUNK_START: Word := 1
  const CHUNK_END: Word := 2
  const ROOT: Word := 8

  function Low32(n: nat): Word { (n % 0x1_0000_0000) as Word }

  function InitialState(cv: seq<Word>, counter: nat, len: Word, flags: Word): (s: seq<Word>)
    requires |cv| == 8
    ensures |s| == 16
  {
    cv + IV[..4] + [Low32(counter), Low32(counter / 0x1_0000_0000), len, flags]
  }

  function Xor(x: Word, y: Word): Word { x ^ y }

  function Finish(s: seq<Word>, cv: seq<Word>): (out: seq<Word>)
    requires |s| == 16 && |cv| == 8
    ensures |out| == 16
  {
    seq(16, i requires 0 <= i < 16 => if i < 8 then Xor(s[i], s[i + 8]) else Xor(s[i], cv[i - 8]))
  }

  function Compress(cv: seq<Word>, block: seq<Word>, counter: nat, len: Word, flags: Word): (out: seq<Word>)
    requires |cv| == 8 && |block| == 16
    ensures |out| == 16
  {
    Finish(Rounds(InitialState(cv, counter, len, flags), block, 7), cv)
  }

  // ----- the compression as the code runs it, in a state array -----

  method G(s: array<Word>, a: nat, b: nat, c: nat, d: nat, mx: Word, my: Word)
    requires s.Length == 16 && a < 4 <= b < 8 <= c < 12 <= d < 16
    modifies s
    ensures s[..] == MixAt(old(s[..]), a, b, c, d, mx, my)
  {
    hide Add, XorRotR;
    s[a] := Add(Add(s[a], s[b]), mx);
    s[d] := XorRotR(s[d], s[a], 16);
    s[c] := Add(s[c], s[d]);
    s[b] := XorRotR(s[b], s[c], 12);
    s[a] := Add(Add(s[a], s[b]), my);
    s[d] := XorRotR(s[d], s[a], 8);
    s[c] := Add(s[c], s[d]);
    s[b] := XorRotR(s[b], s[c], 7);
  }

  method RoundInPlace(s: array<Word>, m: array<Word>)
    requires s.Length == 16 && m.Length == 16 && s != m
    modifies s
    ensures s[..] == Round(old(s[..]), m[..])
  {
    hide MixAt;
    G(s, 0, 4, 8, 12, m[0], m[1]);
    G(s, 1, 5, 9, 13, m[2], m[3]);
    G(s, 2, 6, 10, 14, m[4], m[5]);
    G(s, 3, 7, 11, 15, m[6], m[7]);
    G(s, 0, 5, 10, 15, m[8], m[9]);
    G(s, 1, 6, 11, 12, m[10], m[11]);
    G(s, 2, 7, 8, 13, m[12], m[13]);
    G(s, 3, 4, 9, 14, m[14], m[15]);
  }

  method CompressInPlace(cv: seq<Word>, block: seq<Word>, counter: nat, len: Word, flags: Word) returns (out: seq<Word>)
    requires |cv| == 8 && |block| == 16 && counter < 0x1_0000_0000_0000_0000
    ensures out == Compress(cv, block, counter, len, flags)
  {
    hide Round, Permute, InitialState, Finish;
    var init := InitialState(cv, counter, len, flags);
    var state := new Word[16](i requires 0 <= i < 16 => init[i]);
    var m := new Word[16](i requires 0 <= i < 16 => block[i]);
    assert state[..] == init && m[..] == block;
    ghost var final := Rounds(init, block, 7);
    for round := 0 to 7
      invariant Rounds(state[..], m[..], 7 - round) == final
    {
      RoundInPlace(state, m);
      if round < 6 {
        ghost var s := state[..];
        PermuteInPlace(m);
        assert state[..] == s;
      }
    }
    var outWords := new Word[16](_ => 0);
    FinishInto(state, cv, outWords);
    out := outWords[..];
  }

  method FinishInto(state: array<Word>, cv: seq<Word>, outWords: array<Word>)
    requires state.Length == 16 && outWords.Length == 16 && state != outWords && |cv| == 8
    modifies outWords
    ensures outWords[..] == Finish(state[..], cv)
  {
    hide Xor;
    for i := 0 to 8
      invariant forall j | 0 <= j < 16 && (j < i || 8 <= j < 8 + i) :: outWords[j] == Finish(state[..], cv)[j]
    {
      outWords[i] := Xor(state[i], state[i + 8]);
      outWords[i + 8] := Xor(state[i + 8], cv[i]);
    }
  }

  method PermuteInPlace(m: array<Word>)
    requires m.Length == 16
    modifies m
    ensures m[..] == Permute(old(m[..]))
  {
    var permuted := new Word[16](_ => 0);
    for i := 0 to 16
      invariant m[..] == old(m[..])
      invariant forall j | 0 <= j < i :: permuted[j] == m[PERMUTATION[j]]
    {
      permuted[i] := m[PERMUTATION[i]];
    }
    forall i | 0 <= i < 16 {
      m[i] := permuted[i];
    }
  }

  // ----- words and bytes -----

  function LeWord(b: seq<Byte>): (w: Word)
    requires |b| == 4
  {
    (b[0] as Word) | ((b[1] as Word) << 8) | ((b[2] as Word) << 16) | ((b[3] as Word) << 24)
  }

  function LeBytes(w: Word): (b: seq<Byte>)
    ensures |b| == 4
  {
    [(w & 0xFF) as Byte, ((w >> 8) & 0xFF) as Byte, ((w >> 16) & 0xFF) as Byte, ((w >> 24) & 0xFF) as Byte]
  }

  function BytesOf(words: seq<Word>): (b: seq<Byte>)
    ensures |b| == 4 * |words|
    ensures forall i | 0 <= i < |b| :: b[i] == LeBytes(words[i / 4])[i % 4]
  {
    seq(4 * |words|, i requires 0 <= i < 4 * |words| => LeBytes(words[i / 4])[i % 4])
  }

  /** Up to 64 bytes as sixteen little-endian words, zero-filled. */
  function BlockWords(data: seq<Byte>): (words: seq<Word>)
    requires |data| <= 64
    ensures |words| == 16
  {
    var p := data + Zeros(64 - |data|);
    seq(16, i requires 0 <= i < 16 => LeWord(p[4 * i .. 4 * i + 4]))
  }

  lemma FullWord(data: seq<Byte>, i: nat)
    requires |data| <= 64 && 4 * i + 4 <= |data|
    ensures BlockWords(data)[i] == LeWord(data[4 * i .. 4 * i + 4])
  {
    hide LeWord;
    assert (data + Zeros(64 - |data|))[4 * i .. 4 * i + 4] == data[4 * i .. 4 * i + 4];
  }

  lemma TailWord(data: seq<Byte>)
    requires |data| <= 64 && |data| % 4 > 0
    ensures var i := |data| / 4; BlockWords(data)[i] == LeWord(data[i * 4 ..] + Zeros(4 - |data| % 4))
  {
    hide LeWord;
    var i := |data| / 4;
    assert (data + Zeros(64 - |data|))[4 * i .. 4 * i + 4] == data[i * 4 ..] + Zeros(4 - |data| % 4);
  }

  lemma EmptyWord(data: seq<Byte>, i: nat)
    requires |data| <= 4 * i && i < 16
    ensures BlockWords(data)[i] == 0
  {
    assert LeWord([0, 0, 0, 0]) == 0;
    hide LeWord;
    assert (data + Zeros(64 - |data|))[4 * i .. 4 * i + 4] == [0, 0, 0, 0];
  }

  method LoadBlock(data: seq<Byte>) returns (words: seq<Word>)
    requires |data| <= 64
    ensures words == BlockWords(data)
  {
    hide *;
    var w := new Word[16](_ => 0);
    var fullWords := |data| / 4;
    for i := 0 to fullWords
      invariant forall j | 0 <= j < i :: w[j] == BlockWords(data)[j]
      invariant forall j | i <= j < 16 :: w[j] == 0
    {
      FullWord(data, i);
      w[i] := LeWord(data[4 * i .. 4 * i + 4]);
    }
    var tail := |data| % 4;
    ghost var done := fullWords;
    if tail > 0 && fullWords < 16 {
      TailWord(data);
      w[fullWords] := LeWord(data[fullWords * 4 ..] + Zeros(4 - tail));
      done := fullWords + 1;
    }
    forall j | done <= j < 16
      ensures w[j] == BlockWords(data)[j]
    {
      EmptyWord(data, j);
    }
    words := w[..];
  }

  // ----- hashing one chunk -----

  /** How many blocks an input of at most 1024 bytes fills. */
  function BlockCount(len: nat): (n: nat)
    ensures n >= 1 && (n - 1) * 64 <= len <= n * 64
  {
    if len == 0 then 1 else (len + 63) / 64
  }

  function BlockAt(input: seq<Byte>, i: nat): (b: seq<Byte>)
    requires i < BlockCount(|input|)
    ensures |b| <= 64
  {
    input[i * 64 .. if (i + 1) * 64 <= |input| then (i + 1) * 64 else |input|]
  }

  /** The chaining value after the first n blocks of a root chunk, none of them the last. */
  function Chain(input: seq<Byte>, n: nat): (cv: seq<Word>)
    requires n < BlockCount(|input|)
    ensures |cv| == 8
  {
    if n == 0 then IV else
      Compress(Chain(input, n - 1), BlockWords(BlockAt(input, n - 1)), 0, 64, if n == 1 then CHUNK_START else 0)[..8]
  }

  function LastFlags(blocks: nat): (f: Word) {
    if blocks == 1 then CHUNK_END | ROOT | CHUNK_START else CHUNK_END | ROOT
  }

  /** The 64 bytes of output block `counter`. */
  function OutputBlock(input: seq<Byte>, counter: nat): (b: seq<Byte>)
    ensures |b| == 64
  {
    var n := BlockCount(|input|);
    var last := BlockAt(input, n - 1);
    BytesOf(Compress(Chain(input, n - 1), BlockWords(last), counter, |last| as Word, LastFlags(n)))
  }

  /** Byte i of the extended output. */
  function XofByte(input: seq<Byte>, i: nat): Byte {
    OutputBlock(input, i / 64)[i % 64]
  }

  /** Bytes [offset, offset + n) of the extended output. */
  function XofRange(input: seq<Byte>, offset: nat, n: nat): (b: seq<Byte>)
    ensures |b| == n
  {
    seq(n, i requires 0 <= i < n => XofByte(input, offset + i))
  }

  /** What is left to compress once all blocks but the last are absorbed. */
  ghost predicate Absorbed(input: seq<Byte>, cv: seq<Word>, block: seq<Word>, len: Word, flags: Word) {
    var n := BlockCount(|input|);
    var last := BlockAt(input, n - 1);
    cv == Chain(input, n - 1) && block == BlockWords(last) && len == |last| as Word && flags == LastFlags(n)
  }

  lemma OutputFromAbsorbed(input: seq<Byte>, cv: seq<Word>, block: seq<Word>, len: Word, flags: Word, counter: nat)
    requires |cv| == 8 && |block| == 16 && Absorbed(input, cv, block, len, flags)
    ensures OutputBlock(input, counter) == BytesOf(Compress(cv, block, counter, len, flags))
  {
    hide Compress, BytesOf;
  }

  lemma InnerBlock(input: seq<Byte>, i: nat)
    requires i + 1 < BlockCount(|input|)
    ensures |BlockAt(input, i)| == 64
  {
  }

  /** Everything before the output loop: absorb all blocks but the last. */
  method AbsorbAllButLast(input: seq<Byte>) returns (cv: seq<Word>, block: seq<Word>, len: Word, flags: Word)
    requires |input| <= 1024
    ensures |cv| == 8 && |block| == 16 && Absorbed(input, cv, block, len, flags)
  {
    hide Compress, BlockWords, LastFlags;
    var totalBlocks := BlockCount(|input|);
    cv := IV;
    for i := 0 to totalBlocks - 1
      invariant cv == Chain(input, i)
    {
      var bytes := BlockAt(input, i);
      InnerBlock(input, i);
      hide BlockAt;
      var words := LoadBlock(bytes);
      var out := CompressInPlace(cv, words, 0, 64, if i == 0 then CHUNK_START else 0);
      cv := out[..8];
    }
    var last := BlockAt(input, totalBlocks - 1);
    block := LoadBlock(last);
    len := |last| as Word;
    flags := LastFlags(totalBlocks);
  }

  /** The 32-byte hash of at most 1024 bytes. */
  function HashOf(input: seq<Byte>): (digest: seq<Byte>)
    ensures |digest| == 32
  {
    OutputBlock(input, 0)[..32]
  }

  method Hash(input: seq<Byte>) returns (digest: seq<Byte>)
    requires |input| <= 1024
    ensures digest == HashOf(input)
  {
    hide Compress, BlockWords, BytesOf;
    var totalBlocks := BlockCount(|input|);
    var cv := IV;
    for i := 0 to totalBlocks
      invariant i < totalBlocks && cv == Chain(input, i)
    {
      var bytes := BlockAt(input, i);
      var words := LoadBlock(bytes);
      var isLast := i == totalBlocks - 1;
      if isLast {
        var out := CompressInPlace(cv, words, 0, |bytes| as Word, LastFlags(totalBlocks));
        return BytesOf(out)[..32];
      }
      assert |bytes| == 64;
      var out := CompressInPlace(cv, words, 0, 64, if i == 0 then CHUNK_START else 0);
      cv := out[..8];
    }
    assert false;
  }

  /** Writes the first `take` bytes of the words, word by word. */
  method CopyWords(words: seq<Word>, output: array<Byte>, at: nat, take: nat)
    requires |words| == 16 && take <= 64 && at + take <= output.Length
    modifies output
    ensures forall i | 0 <= i < output.Length ::
      output[i] == if at <= i < at + take then BytesOf(words)[i - at] else old(output[i])
  {
    hide LeBytes;
    for w := 0 to (take + 3) / 4
      invariant forall i | 0 <= i < output.Length ::
        output[i] == if at <= i < at + take && i < at + 4 * w then BytesOf(words)[i - at] else old(output[i])
    {
      var word := LeBytes(words[w]);
      var n := if take - w * 4 < 4 then take - w * 4 else 4;
      forall i | 0 <= i < n {
        output[at + w * 4 + i] := word[i];
      }
    }
  }

  /** Bytes [0, n) of the output are in place. */
  ghost predicate Streamed(input: seq<Byte>, offset: nat, out: seq<Byte>, n: nat) {
    n <= |out| && forall i | 0 <= i < n :: out[i] == XofByte(input, offset + i)
  }

  lemma StreamedEnds(input: seq<Byte>, offset: nat, out: seq<Byte>)
    ensures Streamed(input, offset, out, 0)
    ensures Streamed(input, offset, out, |out|) ==> out == XofRange(input, offset, |out|)
  {
    hide XofByte;
  }

  lemma StreamedBlock(input: seq<Byte>, offset: nat, before: seq<Byte>, after: seq<Byte>, n: nat, take: nat,
                      skip: nat, block: seq<Byte>)
    requires Streamed(input, offset, before, n) && |after| == |before| && n + take <= |after|
    requires (offset + n) % 64 == skip && skip + take <= 64
    requires block == OutputBlock(input, (offset + n) / 64)
    requires forall i | 0 <= i < |after| :: after[i] == if n <= i < n + take then block[skip + (i - n)] else before[i]
    ensures Streamed(input, offset, after, n + take)
  {
    hide OutputBlock;
    forall i | n <= i < n + take
      ensures after[i] == XofByte(input, offset + i)
    {
      assert (offset + i) / 64 == (offset + n) / 64 && (offset + i) % 64 == skip + (i - n);
    }
  }

  /** One output block of the streaming loop. */
  method StreamBlock(ghost input: seq<Byte>, cv: seq<Word>, block: seq<Word>, len: Word, flags: Word,
                     counter: nat, output: array<Byte>, written: nat)
    returns (toCopy: nat)
    requires |cv| == 8 && |block| == 16 && Absorbed(input, cv, block, len, flags)
    requires written == counter * 64 < output.Length < 0x8000_0000 && Streamed(input, 0, output[..], written)
    modifies output
    ensures toCopy == 64 || (0 < toCopy < 64 && written + toCopy == output.Length)
    ensures Streamed(input, 0, output[..], written + toCopy)
  {
    hide *;
    var xofOut := CompressInPlace(cv, block, counter, len, flags);
    OutputFromAbsorbed(input, cv, block, len, flags, counter);
    var remaining := output.Length - written;
    toCopy := if remaining < 64 then remaining else 64;
    CopyWords(xofOut, output, written, toCopy);
    StreamedBlock(input, 0, old(output[..]), output[..], written, toCopy, 0, BytesOf(xofOut));
  }

  /** Streams the output from its first byte. */
  method Xof(input: seq<Byte>, output: array<Byte>)
    requires |input| <= 1024 && output.Length < 0x8000_0000
    modifies output
    ensures output[..] == XofRange(input, 0, output.Length)
  {
    var cv, block, len, flags := AbsorbAllButLast(input);
    hide *;
    var written: nat := 0;
    var counter: nat := 0;
    StreamedEnds(input, 0, output[..]);
    while written < output.Length
      invariant written <= output.Length
      invariant written < output.Length ==> written == counter * 64
      invariant Streamed(input, 0, output[..], written)
      decreases output.Length - written
    {
      var toCopy := StreamBlock(input, cv, block, len, flags, counter, output, written);
      written := written + toCopy;
      counter := counter + 1;
    }
    StreamedEnds(input, 0, output[..]);
  }

  /** One output block of the seeking loop; the first one starts inside its block. */
  method SeekBlock(ghost input: seq<Byte>, ghost offset: nat, cv: seq<Word>, block: seq<Word>, len: Word, flags: Word,
                   counter: nat, skip: nat, output: array<Byte>, written: nat)
    returns (take: nat)
    requires |cv| == 8 && |block| == 16 && Absorbed(input, cv, block, len, flags)
    requires counter < 0x1_0000_0000_0000_0000 && skip < 64 && offset + written == counter * 64 + skip
    requires written < output.Length && Streamed(input, offset, output[..], written)
    modifies output
    ensures take == 64 - skip || (0 < take < 64 - skip && written + take == output.Length)
    ensures Streamed(input, offset, output[..], written + take)
  {
    hide *;
    var xofOut := CompressInPlace(cv, block, counter, len, flags);
    OutputFromAbsorbed(input, cv, block, len, flags, counter);
    var blockBuf := BytesOf(xofOut);
    take := if output.Length - written < 64 - skip then output.Length - written else 64 - skip;
    forall i | 0 <= i < take {
      output[written + i] := blockBuf[skip + i];
    }
    StreamedBlock(input, offset, old(output[..]), output[..], written, take, skip, blockBuf);
  }

  /** Reads the output at any byte offset, starting at the block that holds it. */
  method XofAt(input: seq<Byte>, byteOffset: nat, output: array<Byte>)
    requires |input| <= 1024 && byteOffset < 0x1_0000_0000_0000_0000 && output.Length < 0x8000_0000
    modifies output
    ensures output[..] == XofRange(input, byteOffset, output.Length)
  {
    var cv, block, len, flags := AbsorbAllButLast(input);
    hide *;
    var counter: nat := byteOffset / 64;
    var skipInFirst: nat := byteOffset % 64;
    var written: nat := 0;
    StreamedEnds(input, byteOffset, output[..]);
    while written < output.Length
      invariant written <= output.Length && skipInFirst < 64
      invariant written < output.Length ==> byteOffset + written == counter * 64 + skipInFirst
      invariant Streamed(input, byteOffset, output[..], written)
      decreases output.Length - written
    {
      var take := SeekBlock(input, byteOffset, cv, block, len, flags, counter, skipInFirst, output, written);
      written := written + take;
      skipInFirst := 0;
      counter := counter + 1;
    }
    StreamedEnds(input, byteOffset, output[..]);
  }

  /** Reading at an offset is slicing the stream. */
  lemma XofRangeIsSlice(input: seq<Byte>, offset: nat, n: nat, total: nat)
    requires offset + n <= total
    ensures XofRange(input, offset, n) == XofRange(input, 0, total)[offset .. offset + n]
  {
    hide XofByte;
  }
}
