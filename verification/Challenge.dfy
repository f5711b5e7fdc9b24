/** The connection challenge: the unrolled trial of a nonce against the plain verification. */
module Challenge {
  import opened Digests
  import opened Blake3

  // ----- the compression on sixteen registers -----

  datatype Words = Words(
    w0: Word, w1: Word, w2: Word, w3: Word, w4: Word, w5: Word, w6: Word, w7: Word,
    w8: Word, w9: Word, w10: Word, w11: Word, w12: Word, w13: Word, w14: Word, w15: Word)

  function WordsOf(s: seq<Word>): (v: Words)
    requires |s| == 16
  {
    Words(s[0], s[1], s[2], s[3], s[4], s[5], s[6], s[7], s[8], s[9], s[10], s[11], s[12], s[13], s[14], s[15])
  }

  /** The eight quarter rounds of one round, on registers, message words in order of use. */
  function Round16(v: Words, m: Words): (r: Words) {
    var q0 := Mix(Quad(v.w0, v.w4, v.w8, v.w12), m.w0, m.w1);
    var u0 := v.(w0 := q0.a, w4 := q0.b, w8 := q0.c, w12 := q0.d);
    var q1 := Mix(Quad(u0.w1, u0.w5, u0.w9, u0.w13), m.w2, m.w3);
    var u1 := u0.(w1 := q1.a, w5 := q1.b, w9 := q1.c, w13 := q1.d);
    var q2 := Mix(Quad(u1.w2, u1.w6, u1.w10, u1.w14), m.w4, m.w5);
    var u2 := u1.(w2 := q2.a, w6 := q2.b, w10 := q2.c, w14 := q2.d);
    var q3 := Mix(Quad(u2.w3, u2.w7, u2.w11, u2.w15), m.w6, m.w7);
    var u3 := u2.(w3 := q3.a, w7 := q3.b, w11 := q3.c, w15 := q3.d);
    var q4 := Mix(Quad(u3.w0, u3.w5, u3.w10, u3.w15), m.w8, m.w9);
    var u4 := u3.(w0 := q4.a, w5 := q4.b, w10 := q4.c, w15 := q4.d);
    var q5 := Mix(Quad(u4.w1, u4.w6, u4.w11, u4.w12), m.w10, m.w11);
    var u5 := u4.(w1 := q5.a, w6 := q5.b, w11 := q5.c, w12 := q5.d);
    var q6 := Mix(Quad(u5.w2, u5.w7, u5.w8, u5.w13), m.w12, m.w13);
    var u6 := u5.(w2 := q6.a, w7 := q6.b, w8 := q6.c, w13 := q6.d);
    var q7 := Mix(Quad(u6.w3, u6.w4, u6.w9, u6.w14), m.w14, m.w15);
    u6.(w3 := q7.a, w4 := q7.b, w9 := q7.c, w14 := q7.d)
  }

  function Permute16(m: Words): (r: Words) {
    Words(m.w2, m.w6, m.w3, m.w10, m.w7, m.w0, m.w4, m.w13, m.w1, m.w11, m.w12, m.w5, m.w9, m.w14, m.w15, m.w8)
  }

  function Rounds16(v: Words, m: Words, n: nat): (r: Words)
    decreases n
  {
    if n == 0 then v else Rounds16(Round16(v, m), Permute16(m), n - 1)
  }

  lemma Mixed0(s: seq<Word>, x: Word, y: Word)
    requires |s| == 16
    ensures var v := WordsOf(s); var q := Mix(Quad(v.w0, v.w4, v.w8, v.w12), x, y);
      WordsOf(MixAt(s, 0, 4, 8, 12, x, y)) == v.(w0 := q.a, w4 := q.b, w8 := q.c, w12 := q.d)
  {
    hide Mix;
  }

  lemma Mixed1(s: seq<Word>, x: Word, y: Word)
    requires |s| == 16
    ensures var v := WordsOf(s); var q := Mix(Quad(v.w1, v.w5, v.w9, v.w13), x, y);
      WordsOf(MixAt(s, 1, 5, 9, 13, x, y)) == v.(w1 := q.a, w5 := q.b, w9 := q.c, w13 := q.d)
  {
    hide Mix;
  }

  lemma Mixed2(s: seq<Word>, x: Word, y: Word)
    requires |s| == 16
    ensures var v := WordsOf(s); var q := Mix(Quad(v.w2, v.w6, v.w10, v.w14), x, y);
      WordsOf(MixAt(s, 2, 6, 10, 14, x, y)) == v.(w2 := q.a, w6 := q.b, w10 := q.c, w14 := q.d)
  {
    hide Mix;
  }

  lemma Mixed3(s: seq<Word>, x: Word, y: Word)
    requires |s| == 16
    ensures var v := WordsOf(s); var q := Mix(Quad(v.w3, v.w7, v.w11, v.w15), x, y);
      WordsOf(MixAt(s, 3, 7, 11, 15, x, y)) == v.(w3 := q.a, w7 := q.b, w11 := q.c, w15 := q.d)
  {
    hide Mix;
  }

  lemma Mixed4(s: seq<Word>, x: Word, y: Word)
    requires |s| == 16
    ensures var v := WordsOf(s); var q := Mix(Quad(v.w0, v.w5, v.w10, v.w15), x, y);
      WordsOf(MixAt(s, 0, 5, 10, 15, x, y)) == v.(w0 := q.a, w5 := q.b, w10 := q.c, w15 := q.d)
  {
    hide Mix;
  }

  lemma Mixed5(s: seq<Word>, x: Word, y: Word)
    requires |s| == 16
    ensures var v := WordsOf(s); var q := Mix(Quad(v.w1, v.w6, v.w11, v.w12), x, y);
      WordsOf(MixAt(s, 1, 6, 11, 12, x, y)) == v.(w1 := q.a, w6 := q.b, w11 := q.c, w12 := q.d)
  {
    hide Mix;
  }

  lemma Mixed6(s: seq<Word>, x: Word, y: Word)
    requires |s| == 16
    ensures var v := WordsOf(s); var q := Mix(Quad(v.w2, v.w7, v.w8, v.w13), x, y);
      WordsOf(MixAt(s, 2, 7, 8, 13, x, y)) == v.(w2 := q.a, w7 := q.b, w8 := q.c, w13 := q.d)
  {
    hide Mix;
  }

  lemma Mixed7(s: seq<Word>, x: Word, y: Word)
    requires |s| == 16
    ensures var v := WordsOf(s); var q := Mix(Quad(v.w3, v.w4, v.w9, v.w14), x, y);
      WordsOf(MixAt(s, 3, 4, 9, 14, x, y)) == v.(w3 := q.a, w4 := q.b, w9 := q.c, w14 := q.d)
  {
    hide Mix;
  }

  lemma RoundOnRegisters(s: seq<Word>, m: seq<Word>)
    requires |s| == 16 && |m| == 16
    ensures WordsOf(Round(s, m)) == Round16(WordsOf(s), WordsOf(m))
  {
    hide Mix, MixAt;
    Mixed0(s, m[0], m[1]);
    var s0 := MixAt(s, 0, 4, 8, 12, m[0], m[1]);
    Mixed1(s0, m[2], m[3]);
    var s1 := MixAt(s0, 1, 5, 9, 13, m[2], m[3]);
    Mixed2(s1, m[4], m[5]);
    var s2 := MixAt(s1, 2, 6, 10, 14, m[4], m[5]);
    Mixed3(s2, m[6], m[7]);
    var s3 := MixAt(s2, 3, 7, 11, 15, m[6], m[7]);
    Mixed4(s3, m[8], m[9]);
    var s4 := MixAt(s3, 0, 5, 10, 15, m[8], m[9]);
    Mixed5(s4, m[10], m[11]);
    var s5 := MixAt(s4, 1, 6, 11, 12, m[10], m[11]);
    Mixed6(s5, m[12], m[13]);
    var s6 := MixAt(s5, 2, 7, 8, 13, m[12], m[13]);
    Mixed7(s6, m[14], m[15]);
  }

  lemma PermuteOnRegisters(m: seq<Word>)
    requires |m| == 16
    ensures WordsOf(Permute(m)) == Permute16(WordsOf(m))
  {
  }

  lemma {:induction false} RoundsOnRegisters(s: seq<Word>, m: seq<Word>, n: nat)
    requires |s| == 16 && |m| == 16
    ensures WordsOf(Rounds(s, m, n)) == Rounds16(WordsOf(s), WordsOf(m), n)
    decreases n
  {
    hide Round, Permute, Round16, Permute16, WordsOf;
    if n > 0 {
      RoundOnRegisters(s, m);
      PermuteOnRegisters(m);
      RoundsOnRegisters(Round(s, m), Permute(m), n - 1);
    }
  }

  // ----- leading zeros -----

  /** The number of zero bits above the highest set bit of a 32-bit word. */
  function Lz32(w: Word): (n: nat)
    ensures n <= 32
  {
    if w >= 0x8000_0000 then 0
    else if w >= 0x4000_0000 then 1
    else if w >= 0x2000_0000 then 2
    else if w >= 0x1000_0000 then 3
    else if w >= 0x0800_0000 then 4
    else if w >= 0x0400_0000 then 5
    else if w >= 0x0200_0000 then 6
    else if w >= 0x0100_0000 then 7
    else if w >= 0x0080_0000 then 8
    else if w >= 0x0040_0000 then 9
    else if w >= 0x0020_0000 then 10
    else if w >= 0x0010_0000 then 11
    else if w >= 0x0008_0000 then 12
    else if w >= 0x0004_0000 then 13
    else if w >= 0x0002_0000 then 14
    else if w >= 0x0001_0000 then 15
    else if w >= 0x0000_8000 then 16
    else if w >= 0x0000_4000 then 17
    else if w >= 0x0000_2000 then 18
    else if w >= 0x0000_1000 then 19
    else if w >= 0x0000_0800 then 20
    else if w >= 0x0000_0400 then 21
    else if w >= 0x0000_0200 then 22
    else if w >= 0x0000_0100 then 23
    else if w >= 0x0000_0080 then 24
    else if w >= 0x0000_0040 then 25
    else if w >= 0x0000_0020 then 26
    else if w >= 0x0000_0010 then 27
    else if w >= 0x0000_0008 then 28
    else if w >= 0x0000_0004 then 29
    else if w >= 0x0000_0002 then 30
    else if w >= 0x0000_0001 then 31
    else 32
  }

  function Reverse(w: Word): Word { (w >> 24) | ((w >> 8) & 0xFF00) | ((w << 8) & 0xFF_0000) | (w << 24) }

  /** The leading zero bits of a byte stream. */
  function LeadingZeros(h: seq<Byte>): (n: nat) {
    if h == [] then 0
    else if h[0] == 0 then 8 + LeadingZeros(h[1..])
    else ByteZeros(h[0])
  }

  function ByteZeros(b: Byte): (n: nat)
    requires b != 0
  {
    Lz32(b as Word) - 24
  }

  lemma ReverseZero(w: Word)
    ensures Reverse(w) == 0 <==> w == 0
  {
  }

  /** The highest set bit of the reversed word is in the first nonzero byte of the stream. */
  lemma ReversedZeros(w: Word)
    requires w != 0
    ensures var b := LeBytes(w);
      && (b[0] != 0 ==> Lz32(Reverse(w)) == ByteZeros(b[0]))
      && (b[0] == 0 && b[1] != 0 ==> Lz32(Reverse(w)) == 8 + ByteZeros(b[1]))
      && (b[0] == 0 && b[1] == 0 && b[2] != 0 ==> Lz32(Reverse(w)) == 16 + ByteZeros(b[2]))
      && (b[0] == 0 && b[1] == 0 && b[2] == 0 ==> b[3] != 0 && Lz32(Reverse(w)) == 24 + ByteZeros(b[3]))
  {
    FirstByte(w);
    SecondByte(w);
    ThirdByte(w);
    FourthByte(w);
    hide Lz32, Reverse;
  }

  lemma FirstByte(w: Word)
    ensures LeBytes(w)[0] != 0 ==> Lz32(Reverse(w)) == ByteZeros(LeBytes(w)[0])
  {
  }

  lemma SecondByte(w: Word)
    ensures var b := LeBytes(w);
      b[0] == 0 && b[1] != 0 ==> Lz32(Reverse(w)) == 8 + ByteZeros(b[1])
  {
  }

  lemma ThirdByte(w: Word)
    ensures var b := LeBytes(w);
      b[0] == 0 && b[1] == 0 && b[2] != 0 ==> Lz32(Reverse(w)) == 16 + ByteZeros(b[2])
  {
  }

  lemma FourthByte(w: Word)
    requires w != 0
    ensures var b := LeBytes(w);
      b[0] == 0 && b[1] == 0 && b[2] == 0 ==> b[3] != 0 && Lz32(Reverse(w)) == 24 + ByteZeros(b[3])
  {
  }

  /** Leading zeros counted word by word. */
  function WordZeros(words: seq<Word>): (n: nat) {
    if words == [] then 0
    else if Reverse(words[0]) == 0 then 32 + WordZeros(words[1..])
    else Lz32(Reverse(words[0]))
  }

  lemma SkipByte(h: seq<Byte>)
    requires h != []
    ensures LeadingZeros(h) == if h[0] == 0 then 8 + LeadingZeros(h[1..]) else ByteZeros(h[0])
  {
    hide ByteZeros;
  }

  lemma OneWord(w: Word, rest: seq<Byte>)
    ensures LeadingZeros(LeBytes(w) + rest) == if w == 0 then 32 + LeadingZeros(rest) else Lz32(Reverse(w))
  {
    if w != 0 {
      ReversedZeros(w);
    } else {
      assert LeBytes(w) == [0, 0, 0, 0];
    }
    hide ByteZeros, LeBytes, Lz32, Reverse;
    var b := LeBytes(w);
    var h := b + rest;
    SkipByte(h);
    SkipByte(h[1..]);
    SkipByte(h[2..]);
    SkipByte(h[3..]);
    hide LeadingZeros;
    assert h[1..][1..] == h[2..] && h[2..][1..] == h[3..] && h[3..][1..] == h[4..] == rest;
  }

  /** The word-wise count is the byte-wise count. */
  lemma {:induction false} WordZerosAreLeadingZeros(words: seq<Word>)
    ensures WordZeros(words) == LeadingZeros(BytesOf(words))
  {
    if words != [] {
      WordZerosAreLeadingZeros(words[1..]);
      OneWord(words[0], BytesOf(words[1..]));
      ReverseZero(words[0]);
      hide LeBytes, Lz32, Reverse;
      assert BytesOf(words) == LeBytes(words[0]) + BytesOf(words[1..]);
    }
  }

  // ----- the trial and the verification -----

  /** The seed as eight little-endian words. */
  datatype Seed = Seed(s0: Word, s1: Word, s2: Word, s3: Word, s4: Word, s5: Word, s6: Word, s7: Word)

  function SeedOf(seed: seq<Byte>): (s: Seed)
    requires |seed| == 32
  {
    Seed(LeWord(seed[0..4]), LeWord(seed[4..8]), LeWord(seed[8..12]), LeWord(seed[12..16]),
         LeWord(seed[16..20]), LeWord(seed[20..24]), LeWord(seed[24..28]), LeWord(seed[28..32]))
  }

  function NonceLow(nonce: nat): Word { Low32(nonce) }

  function NonceHigh(nonce: nat): Word { Low32(nonce / 0x1_0000_0000) }

  /** The hashed bytes: the seed, then the nonce as eight little-endian bytes. */
  function Input(seed: seq<Byte>, nonce: nat): (b: seq<Byte>)
    requires |seed| == 32
    ensures |b| == 40
  {
    seed + LeBytes(NonceLow(nonce)) + LeBytes(NonceHigh(nonce))
  }

  /** What it means for a nonce to win. */
  predicate Wins(seed: seq<Byte>, nonce: nat, difficulty: int)
    requires |seed| == 32
  {
    LeadingZeros(HashOf(Input(seed, nonce))) >= difficulty
  }

  method LeadingZeroBits(h: seq<Byte>) returns (n: nat)
    ensures n == LeadingZeros(h)
  {
    var lz: nat := 0;
    hide ByteZeros;
    assert h[0..] == h;
    for i := 0 to |h|
      invariant LeadingZeros(h) == lz + LeadingZeros(h[i..])
    {
      assert h[i..][1..] == h[i + 1..];
      if h[i] != 0 {
        return lz + ByteZeros(h[i]);
      }
      lz := lz + 8;
    }
    n := lz;
  }

  method Verify(seed: seq<Byte>, nonce: nat, difficulty: int) returns (ok: bool)
    requires |seed| == 32 && nonce < 0x1_0000_0000_0000_0000
    ensures ok <==> Wins(seed, nonce, difficulty)
  {
    var hash := Hash(Input(seed, nonce));
    hide HashOf, LeadingZeros;
    var lz := LeadingZeroBits(hash);
    ok := lz >= difficulty;
  }

  lemma LeRoundTrip(w: Word)
    ensures LeWord(LeBytes(w)) == w
  {
  }

  lemma BlockWordAt(data: seq<Byte>, i: nat)
    requires |data| <= 64 && i < 16
    ensures BlockWords(data)[i] == LeWord((data + Zeros(64 - |data|))[4 * i .. 4 * i + 4])
  {
    hide LeWord;
  }

  lemma MessageBytes(seed: seq<Byte>, nonce: nat)
    requires |seed| == 32
    ensures var p := Input(seed, nonce) + Zeros(24);
      && p[..32] == seed && p[32..36] == LeBytes(NonceLow(nonce)) && p[36..40] == LeBytes(NonceHigh(nonce))
      && forall j | 40 <= j < 64 :: p[j] == 0
  {
    hide LeBytes, NonceLow, NonceHigh;
  }

  lemma ZeroWord(four: seq<Byte>)
    requires |four| == 4 && forall j | 0 <= j < 4 :: four[j] == 0
    ensures LeWord(four) == 0
  {
    assert four == [0, 0, 0, 0];
  }

  /** Word i of the one message block. */
  lemma MessageWord(seed: seq<Byte>, nonce: nat, i: nat)
    requires |seed| == 32 && i < 16
    ensures BlockWords(Input(seed, nonce))[i] ==
      if i < 8 then LeWord(seed[4 * i .. 4 * i + 4])
      else if i == 8 then NonceLow(nonce) else if i == 9 then NonceHigh(nonce) else 0
  {
    hide *;
    BlockWordAt(Input(seed, nonce), i);
    MessageBytes(seed, nonce);
    var p := Input(seed, nonce) + Zeros(24);
    if i < 8 {
      assert p[4 * i .. 4 * i + 4] == p[..32][4 * i .. 4 * i + 4];
    } else if i == 8 {
      LeRoundTrip(NonceLow(nonce));
    } else if i == 9 {
      LeRoundTrip(NonceHigh(nonce));
    } else {
      ZeroWord(p[4 * i .. 4 * i + 4]);
    }
  }

  /** The one message block, as the registers see it. */
  lemma MessageWords(seed: seq<Byte>, nonce: nat)
    requires |seed| == 32
    ensures var s := SeedOf(seed);
      WordsOf(BlockWords(Input(seed, nonce))) ==
        Words(s.s0, s.s1, s.s2, s.s3, s.s4, s.s5, s.s6, s.s7, NonceLow(nonce), NonceHigh(nonce), 0, 0, 0, 0, 0, 0)
  {
    hide LeWord, LeBytes, Low32, BlockWords, Input, NonceLow, NonceHigh;
    MessageWord(seed, nonce, 0);
    MessageWord(seed, nonce, 1);
    MessageWord(seed, nonce, 2);
    MessageWord(seed, nonce, 3);
    MessageWord(seed, nonce, 4);
    MessageWord(seed, nonce, 5);
    MessageWord(seed, nonce, 6);
    MessageWord(seed, nonce, 7);
    MessageWord(seed, nonce, 8);
    MessageWord(seed, nonce, 9);
    MessageWord(seed, nonce, 10);
    MessageWord(seed, nonce, 11);
    MessageWord(seed, nonce, 12);
    MessageWord(seed, nonce, 13);
    MessageWord(seed, nonce, 14);
    MessageWord(seed, nonce, 15);
  }

  /** The unrolled message schedule is the iterated permutation. */
  lemma ScheduleIsPermutation(s: Seed, n0: Word, n1: Word)
    ensures var m := Words(s.s0, s.s1, s.s2, s.s3, s.s4, s.s5, s.s6, s.s7, n0, n1, 0, 0, 0, 0, 0, 0);
      && Permute16(m) == Words(s.s2, s.s6, s.s3, 0, s.s7, s.s0, s.s4, 0, s.s1, 0, 0, s.s5, n1, 0, 0, n0)
      && Permute16(Permute16(m)) == Words(s.s3, s.s4, 0, 0, 0, s.s2, s.s7, 0, s.s6, s.s5, n1, s.s0, 0, 0, n0, s.s1)
      && Permute16(Permute16(Permute16(m))) ==
        Words(0, s.s7, 0, n1, 0, s.s3, 0, 0, s.s4, s.s0, 0, s.s2, s.s5, n0, s.s1, s.s6)
      && Permute16(Permute16(Permute16(Permute16(m)))) ==
        Words(0, 0, n1, 0, 0, 0, 0, n0, s.s7, s.s2, s.s5, s.s3, s.s0, s.s1, s.s6, s.s4)
      && Permute16(Permute16(Permute16(Permute16(Permute16(m))))) ==
        Words(n1, 0, 0, s.s5, n0, 0, 0, s.s1, 0, s.s3, s.s0, 0, s.s2, s.s6, s.s4, s.s7)
      && Permute16(Permute16(Permute16(Permute16(Permute16(Permute16(m)))))) ==
        Words(0, 0, s.s5, s.s0, s.s1, n1, n0, s.s6, 0, 0, s.s2, 0, s.s3, s.s4, s.s7, 0)
  {
  }

  function StartWords(): (v: Words) {
    Words(0x6A09E667, 0xBB67AE85, 0x3C6EF372, 0xA54FF53A, 0x510E527F, 0x9B05688C, 0x1F83D9AB, 0x5BE0CD19,
          0x6A09E667, 0xBB67AE85, 0x3C6EF372, 0xA54FF53A, 0, 0, 40, 1 | 2 | 8)
  }

  lemma StartRegisters()
    ensures WordsOf(InitialState(IV, 0, 40, 1 | 2 | 8)) == StartWords()
  {
    assert Low32(0) == 0;
  }

  /** Seven rounds with the schedule written out, as the trial runs them. */
  function Unrolled(s: Seed, n0: Word, n1: Word): (v: Words) {
    var v0 := StartWords();
    var v1 := Round16(v0, Words(s.s0, s.s1, s.s2, s.s3, s.s4, s.s5, s.s6, s.s7, n0, n1, 0, 0, 0, 0, 0, 0));
    var v2 := Round16(v1, Words(s.s2, s.s6, s.s3, 0, s.s7, s.s0, s.s4, 0, s.s1, 0, 0, s.s5, n1, 0, 0, n0));
    var v3 := Round16(v2, Words(s.s3, s.s4, 0, 0, 0, s.s2, s.s7, 0, s.s6, s.s5, n1, s.s0, 0, 0, n0, s.s1));
    var v4 := Round16(v3, Words(0, s.s7, 0, n1, 0, s.s3, 0, 0, s.s4, s.s0, 0, s.s2, s.s5, n0, s.s1, s.s6));
    var v5 := Round16(v4, Words(0, 0, n1, 0, 0, 0, 0, n0, s.s7, s.s2, s.s5, s.s3, s.s0, s.s1, s.s6, s.s4));
    var v6 := Round16(v5, Words(n1, 0, 0, s.s5, n0, 0, 0, s.s1, 0, s.s3, s.s0, 0, s.s2, s.s6, s.s4, s.s7));
    var v7 := Round16(v6, Words(0, 0, s.s5, s.s0, s.s1, n1, n0, s.s6, 0, 0, s.s2, 0, s.s3, s.s4, s.s7, 0));
    v7
  }

  /** Output word i of the trial. */
  function OutputWords(v: Words): (out: seq<Word>)
    ensures |out| == 8
  {
    [Xor(v.w0, v.w8), Xor(v.w1, v.w9), Xor(v.w2, v.w10), Xor(v.w3, v.w11),
     Xor(v.w4, v.w12), Xor(v.w5, v.w13), Xor(v.w6, v.w14), Xor(v.w7, v.w15)]
  }

  lemma CompressIs(block: seq<Word>)
    requires |block| == 16
    ensures Compress(IV, block, 0, 40, 1 | 2 | 8) == Finish(Rounds(InitialState(IV, 0, 40, 1 | 2 | 8), block, 7), IV)
  {
    hide Finish, Rounds, InitialState;
  }

  lemma SingleBlock(input: seq<Byte>)
    requires |input| == 40
    ensures HashOf(input) == BytesOf(Compress(IV, BlockWords(input), 0, 40, 1 | 2 | 8))[..32]
  {
    hide Compress, BlockWords, BytesOf;
    assert BlockAt(input, 0) == input;
    assert LastFlags(1) == 1 | 2 | 8;
  }

  lemma FinishWords(state: seq<Word>)
    requires |state| == 16
    ensures BytesOf(Finish(state, IV))[..32] == BytesOf(OutputWords(WordsOf(state)))
  {
    hide LeBytes;
    var all, eight := Finish(state, IV), OutputWords(WordsOf(state));
    OutputWordAt(state, 0);
    OutputWordAt(state, 1);
    OutputWordAt(state, 2);
    OutputWordAt(state, 3);
    OutputWordAt(state, 4);
    OutputWordAt(state, 5);
    OutputWordAt(state, 6);
    OutputWordAt(state, 7);
    hide Finish, OutputWords, WordsOf;
    assert all[..8] == eight;
    forall i | 0 <= i < 32 ensures BytesOf(all)[i] == BytesOf(eight)[i] {
      assert all[i / 4] == eight[i / 4];
    }
  }

  lemma OutputWordAt(state: seq<Word>, i: nat)
    requires |state| == 16 && i < 8
    ensures Finish(state, IV)[i] == OutputWords(WordsOf(state))[i]
  {
    hide Xor;
    assert i == 0 || i == 1 || i == 2 || i == 3 || i == 4 || i == 5 || i == 6 || i == 7;
  }

  lemma UnrolledIsRounds(s: Seed, n0: Word, n1: Word)
    ensures Unrolled(s, n0, n1)
         == Rounds16(StartWords(), Words(s.s0, s.s1, s.s2, s.s3, s.s4, s.s5, s.s6, s.s7, n0, n1, 0, 0, 0, 0, 0, 0), 7)
  {
    ScheduleIsPermutation(s, n0, n1);
    hide Round16, StartWords, Permute16;
    var m := Words(s.s0, s.s1, s.s2, s.s3, s.s4, s.s5, s.s6, s.s7, n0, n1, 0, 0, 0, 0, 0, 0);
    SevenRounds(StartWords(), m);
  }

  lemma SevenRounds(v0: Words, m0: Words)
    ensures var m1 := Permute16(m0); var m2 := Permute16(m1); var m3 := Permute16(m2);
      var m4 := Permute16(m3); var m5 := Permute16(m4); var m6 := Permute16(m5);
      Rounds16(v0, m0, 7) ==
        Round16(Round16(Round16(Round16(Round16(Round16(Round16(v0, m0), m1), m2), m3), m4), m5), m6)
  {
    hide Round16, Permute16;
    var m1 := Permute16(m0);
    var m2 := Permute16(m1);
    var m3 := Permute16(m2);
    var v1 := Round16(v0, m0);
    var v2 := Round16(v1, m1);
    var v3 := Round16(v2, m2);
    assert Rounds16(v0, m0, 7) == Rounds16(v3, m3, 4);
  }

  lemma UnrolledIsHash(seed: seq<Byte>, nonce: nat)
    requires |seed| == 32
    ensures BytesOf(OutputWords(Unrolled(SeedOf(seed), NonceLow(nonce), NonceHigh(nonce)))) ==
      HashOf(Input(seed, nonce))
  {
    assert |IV| == 8;
    hide *;
    var input := Input(seed, nonce);
    var block := BlockWords(input);
    var start := InitialState(IV, 0, 40, 1 | 2 | 8);
    SingleBlock(input);
    MessageWords(seed, nonce);
    RoundsOnRegisters(start, block, 7);
    StartRegisters();
    UnrolledIsRounds(SeedOf(seed), NonceLow(nonce), NonceHigh(nonce));
    FinishWords(Rounds(start, block, 7));
    CompressIs(block);
  }

  method TryNonce(s: Seed, nonce: nat, difficulty: int, ghost seed: seq<Byte>) returns (ok: bool)
    requires |seed| == 32 && s == SeedOf(seed)
    ensures ok <==> Wins(seed, nonce, difficulty)
  {
    hide *;
    var n0, n1 := NonceLow(nonce), NonceHigh(nonce);
    var v := Unrolled(s, n0, n1);
    var out := OutputWords(v);
    UnrolledIsHash(seed, nonce);
    WordZerosAreLeadingZeros(out);
    WinsByWords(seed, nonce, difficulty, out);
    FirstWord(out);
    var h0 := Reverse(out[0]);
    if h0 != 0 {
      return Lz32(h0) >= difficulty;
    }
    var lz := CountRest(out[1..]);
    ok := lz >= difficulty;
  }

  lemma WinsByWords(seed: seq<Byte>, nonce: nat, difficulty: int, out: seq<Word>)
    requires |seed| == 32 && BytesOf(out) == HashOf(Input(seed, nonce)) && WordZeros(out) == LeadingZeros(BytesOf(out))
    ensures Wins(seed, nonce, difficulty) <==> WordZeros(out) >= difficulty
  {
    hide HashOf, Input, BytesOf, LeadingZeros, WordZeros;
  }

  lemma FirstWord(words: seq<Word>)
    requires words != []
    ensures WordZeros(words) == if Reverse(words[0]) == 0 then 32 + WordZeros(words[1..]) else Lz32(Reverse(words[0]))
  {
    hide Reverse, Lz32;
  }

  /** The count when the first word is zero: the remaining words, stopping at the first nonzero one. */
  method CountRest(rest: seq<Word>) returns (lz: nat)
    ensures lz == 32 + WordZeros(rest)
  {
    lz := 32;
    assert rest[0..] == rest;
    hide Lz32, Reverse;
    for i := 0 to |rest|
      invariant lz + WordZeros(rest[i..]) == 32 + WordZeros(rest)
    {
      var rev := Reverse(rest[i]);
      assert rest[i..][1..] == rest[i + 1..];
      if rev != 0 {
        return lz + Lz32(rev);
      }
      lz := lz + 32;
    }
  }
}
