/** SHA-256 as section 6.2.2 of FIPS 180-4 gives it, the plain host form that follows it, and the
    kernel form with a precomputed first block and a sixteen-word rolling schedule.
 */
module Sha256 {
  import opened Digests

  type Word = bv32

  // ----- the functions of section 4.1.2 -----

  function RotR(x: Word, n: nat): Word
    requires 0 < n < 32
  {
    (x >> n) | (x << (32 - n))
  }

  function SmallSigma0(x: Word): Word { RotR(x, 7) ^ RotR(x, 18) ^ (x >> 3) }

  function SmallSigma1(x: Word): Word { RotR(x, 17) ^ RotR(x, 19) ^ (x >> 10) }

  function BigSigma0(x: Word): Word { RotR(x, 2) ^ RotR(x, 13) ^ RotR(x, 22) }

  function BigSigma1(x: Word): Word { RotR(x, 6) ^ RotR(x, 11) ^ RotR(x, 25) }

  function Ch(e: Word, f: Word, g: Word): Word { (e & f) ^ (!e & g) }

  function Maj(a: Word, b: Word, c: Word): Word { (a & b) ^ (a & c) ^ (b & c) }

  function Add(x: Word, y: Word): Word { x + y }

  function K(i: nat): Word
    requires i < 64
  {
    [0x428a2f98, 0x71374491, 0xb5c0fbcf, 0xe9b5dba5, 0x3956c25b, 0x59f111f1, 0x923f82a4, 0xab1c5ed5,
     0xd807aa98, 0x12835b01, 0x243185be, 0x550c7dc3, 0x72be5d74, 0x80deb1fe, 0x9bdc06a7, 0xc19bf174,
     0xe49b69c1, 0xefbe4786, 0x0fc19dc6, 0x240ca1cc, 0x2de92c6f, 0x4a7484aa, 0x5cb0a9dc, 0x76f988da,
     0x983e5152, 0xa831c66d, 0xb00327c8, 0xbf597fc7, 0xc6e00bf3, 0xd5a79147, 0x06ca6351, 0x14292967,
     0x27b70a85, 0x2e1b2138, 0x4d2c6dfc, 0x53380d13, 0x650a7354, 0x766a0abb, 0x81c2c92e, 0x92722c85,
     0xa2bfe8a1, 0xa81a664b, 0xc24b8b70, 0xc76c51a3, 0xd192e819, 0xd6990624, 0xf40e3585, 0x106aa070,
     0x19a4c116, 0x1e376c08, 0x2748774c, 0x34b0bcb5, 0x391c0cb3, 0x4ed8aa4a, 0x5b9cca4f, 0x682e6ff3,
     0x748f82ee, 0x78a5636f, 0x84c87814, 0x8cc70208, 0x90befffa, 0xa4506ceb, 0xbef9a3f7, 0xc67178f2][i]
  }

  const IV: seq<Word> := [0x6a09e667, 0xbb67ae85, 0x3c6ef372, 0xa54ff53a, 0x510e527f, 0x9b05688c, 0x1f83d9ab,
    0x5be0cd19]

  // ----- one block -----

  function ScheduleSum(x: Word, s0: Word, y: Word, s1: Word): Word { x + s0 + y + s1 }

  function RolledSum(x: Word, s0: Word, y: Word, s1: Word): Word { x + (s0 + y + s1) }

  /** Word i of the 64-word message schedule. */
  function W(block: seq<Word>, i: nat): (w: Word)
    requires |block| == 16
  {
    if i < 16 then block[i]
    else ScheduleSum(W(block, i - 16), SmallSigma0(W(block, i - 15)), W(block, i - 7), SmallSigma1(W(block, i - 2)))
  }

  /** The eight working variables. */
  datatype Vars = Vars(a: Word, b: Word, c: Word, d: Word, e: Word, f: Word, g: Word, h: Word)

  function Step(v: Vars, k: Word, w: Word): (r: Vars) {
    var t1 := Add(Add(Add(Add(v.h, BigSigma1(v.e)), Ch(v.e, v.f, v.g)), k), w);
    var t2 := Add(BigSigma0(v.a), Maj(v.a, v.b, v.c));
    Vars(Add(t1, t2), v.a, v.b, v.c, Add(v.d, t1), v.e, v.f, v.g)
  }

  /** The working variables after n of the 64 steps. */
  function Steps(v: Vars, block: seq<Word>, n: nat): (r: Vars)
    requires |block| == 16 && n <= 64
  {
    if n == 0 then v else Step(Steps(v, block, n - 1), K(n - 1), W(block, n - 1))
  }

  function VarsOf(s: seq<Word>): (v: Vars)
    requires |s| == 8
  {
    Vars(s[0], s[1], s[2], s[3], s[4], s[5], s[6], s[7])
  }

  function AddInto(s: seq<Word>, v: Vars): (r: seq<Word>)
    requires |s| == 8
    ensures |r| == 8
  {
    [Add(s[0], v.a), Add(s[1], v.b), Add(s[2], v.c), Add(s[3], v.d),
     Add(s[4], v.e), Add(s[5], v.f), Add(s[6], v.g), Add(s[7], v.h)]
  }

  /** The hash value after one more block. */
  function Block(s: seq<Word>, block: seq<Word>): (r: seq<Word>)
    requires |s| == 8 && |block| == 16
    ensures |r| == 8
  {
    AddInto(s, Steps(VarsOf(s), block, 64))
  }

  // ----- the kernel's rounds, with a rolling schedule -----

  /** Before step i the sixteen slots hold the last sixteen schedule words. */
  ghost predicate Rolling(w: seq<Word>, block: seq<Word>, i: nat)
    requires |w| == 16 && |block| == 16
  {
    forall t | i - 16 <= t < i && t >= 0 :: w[t % 16] == W(block, t)
  }

  /** The kernel adds the three new terms first, the host adds them one by one. */
  lemma SumRegroups(x: Word, s0: Word, y: Word, s1: Word)
    ensures RolledSum(x, s0, y, s1) == ScheduleSum(x, s0, y, s1)
  {
  }

  lemma RingPlaces(i: nat)
    requires i >= 16
    ensures (i - 16) % 16 == i % 16 && (i - 15) % 16 == (i + 1) % 16
    ensures (i - 7) % 16 == (i + 9) % 16 && (i - 2) % 16 == (i + 14) % 16
  {
  }

  lemma RollingAt(w: seq<Word>, block: seq<Word>, i: nat, t: nat)
    requires |w| == 16 && |block| == 16 && i - 16 <= t < i && Rolling(w, block, i)
    ensures w[t % 16] == W(block, t)
  {
    hide W;
  }

  /** The word the kernel writes at step i is schedule word i. */
  lemma RolledWord(w: seq<Word>, block: seq<Word>, i: nat)
    requires |w| == 16 && |block| == 16 && 16 <= i && Rolling(w, block, i)
    ensures RolledSum(w[i % 16], SmallSigma0(w[(i + 1) % 16]), w[(i + 9) % 16], SmallSigma1(w[(i + 14) % 16])) ==
      W(block, i)
  {
    hide *;
    ScheduleAt(block, i);
    RingPlaces(i);
    RollingAt(w, block, i, i - 16);
    RollingAt(w, block, i, i - 15);
    RollingAt(w, block, i, i - 7);
    RollingAt(w, block, i, i - 2);
    SumRegroups(W(block, i - 16), SmallSigma0(W(block, i - 15)), W(block, i - 7), SmallSigma1(W(block, i - 2)));
  }

  lemma RollingStep(w: seq<Word>, block: seq<Word>, i: nat)
    requires |w| == 16 && |block| == 16 && 16 <= i && Rolling(w, block, i)
    ensures Rolling(w[i % 16 := W(block, i)], block, i + 1)
  {
    hide W;
    forall t | i - 15 <= t < i
      ensures t % 16 != i % 16
    {
    }
  }

  /** The ring word for step i: the oldest word makes room for the newest. */
  method RollWord(w: array<Word>, ghost block: seq<Word>, i: nat)
    requires w.Length == 16 && |block| == 16 && i >= 16 && Rolling(w[..], block, i)
    modifies w
    ensures Rolling(w[..], block, i + 1)
  {
    hide *;
    ghost var before := w[..];
    RolledWord(before, block, i);
    RollingStep(before, block, i);
    var w15, w2 := w[(i + 1) % 16], w[(i + 14) % 16];
    w[i % 16] := RolledSum(w[i % 16], SmallSigma0(w15), w[(i + 9) % 16], SmallSigma1(w2));
    assert w[..] == before[i % 16 := W(block, i)];
  }

  lemma RoundsStart(st: seq<Word>, block: seq<Word>, v: Vars)
    requires |st| == 8 && |block| == 16 && v == Vars(st[0], st[1], st[2], st[3], st[4], st[5], st[6], st[7])
    ensures Rolling(block, block, 16) && v == VarsOf(st) == Steps(VarsOf(st), block, 0)
  {
  }

  /** The kernel's 64 rounds compute the block function. */
  method Rounds(st: array<Word>, w: array<Word>)
    requires st.Length == 8 && w.Length == 16 && st != w
    modifies st, w
    ensures st[..] == Block(old(st[..]), old(w[..]))
  {
    hide *;
    ghost var block := w[..];
    ghost var start := VarsOf(st[..]);
    var v := Vars(st[0], st[1], st[2], st[3], st[4], st[5], st[6], st[7]);
    RoundsStart(st[..], block, v);
    for i := 0 to 64
      invariant st[..] == old(st[..])
      invariant Rolling(w[..], block, if i < 16 then 16 else i)
      invariant v == Steps(start, block, i)
    {
      if i >= 16 {
        RollWord(w, block, i);
      }
      RollingNow(w[..], block, i);
      StepsNext(start, block, i);
      v := Step(v, K(i), w[i % 16]);
    }
    AddStateInto(st, v);
    BlockIs(old(st[..]), block);
  }

  lemma RollingNow(w: seq<Word>, block: seq<Word>, i: nat)
    requires |w| == 16 && |block| == 16 && Rolling(w, block, if i < 16 then 16 else i + 1)
    ensures w[i % 16] == W(block, i)
  {
    hide W;
  }

  lemma StepsNext(v: Vars, block: seq<Word>, n: nat)
    requires |block| == 16 && n < 64
    ensures Steps(v, block, n + 1) == Step(Steps(v, block, n), K(n), W(block, n))
  {
    hide Step, K, W;
  }

  method AddStateInto(st: array<Word>, v: Vars)
    requires st.Length == 8
    modifies st
    ensures st[..] == AddInto(old(st[..]), v)
  {
    hide Add;
    AddFour(st, 0, v.a, v.b, v.c, v.d);
    AddFour(st, 4, v.e, v.f, v.g, v.h);
  }

  method AddFour(st: array<Word>, at: nat, a: Word, b: Word, c: Word, d: Word)
    requires at + 4 <= st.Length
    modifies st
    ensures st[at] == Add(old(st[at]), a) && st[at + 1] == Add(old(st[at + 1]), b)
    ensures st[at + 2] == Add(old(st[at + 2]), c) && st[at + 3] == Add(old(st[at + 3]), d)
    ensures forall i | 0 <= i < st.Length && !(at <= i < at + 4) :: st[i] == old(st[i])
  {
    hide Add;
    st[at] := Add(st[at], a);
    st[at + 1] := Add(st[at + 1], b);
    st[at + 2] := Add(st[at + 2], c);
    st[at + 3] := Add(st[at + 3], d);
  }

  // ----- whole messages -----

  function BeWord(b: seq<Byte>): (w: Word)
    requires |b| == 4
  {
    ((b[0] as Word) << 24) | ((b[1] as Word) << 16) | ((b[2] as Word) << 8) | (b[3] as Word)
  }

  function BeBytes(w: Word): (b: seq<Byte>)
    ensures |b| == 4
  {
    [((w >> 24) & 0xFF) as Byte, ((w >> 16) & 0xFF) as Byte, ((w >> 8) & 0xFF) as Byte, (w & 0xFF) as Byte]
  }

  lemma BeRoundTrip(w: Word)
    ensures BeWord(BeBytes(w)) == w
  {
  }

  function BlockOf(bytes: seq<Byte>): (block: seq<Word>)
    requires |bytes| == 64
    ensures |block| == 16
  {
    seq(16, i requires 0 <= i < 16 => BeWord(bytes[4 * i .. 4 * i + 4]))
  }

  function Pow256(k: nat): (p: nat)
    ensures p >= 1
  {
    if k == 0 then 1 else 256 * Pow256(k - 1)
  }

  function LengthByte(bits: nat, i: nat): (b: nat)
    requires i < 8
    ensures b < 256
  {
    bits / Pow256(7 - i) % 256
  }

  /** A 64-bit length, most significant byte first. */
  function LengthBytes(bits: nat): (b: seq<Byte>)
    ensures |b| == 8
  {
    seq(8, i requires 0 <= i < 8 => LengthByte(bits, i) as Byte)
  }

  /** The zero bytes between the marker and the length. */
  function PadZeros(len: nat): (z: nat)
    ensures z < 64 && (len + 1 + z) % 64 == 56
  {
    (119 - len % 64) % 64
  }

  /** Padding of section 5.1.1. */
  function Pad(m: seq<Byte>): (p: seq<Byte>)
    ensures |p| % 64 == 0
  {
    m + [0x80] + Zeros(PadZeros(|m|)) + LengthBytes(|m| * 8)
  }

  function HashBlocks(s: seq<Word>, p: seq<Byte>): (r: seq<Word>)
    requires |s| == 8 && |p| % 64 == 0
    ensures |r| == 8
    decreases |p|
  {
    if p == [] then s else HashBlocks(Block(s, BlockOf(p[..64])), p[64..])
  }

  function DigestBytes(s: seq<Word>): (b: seq<Byte>)
    requires |s| == 8
    ensures |b| == 32
  {
    seq(32, i requires 0 <= i < 32 => BeBytes(s[i / 4])[i % 4])
  }

  function Hash(m: seq<Byte>): (digest: seq<Byte>)
    ensures |digest| == 32
  {
    DigestBytes(HashBlocks(IV, Pad(m)))
  }

  /** The host's block function: the whole schedule first, then the steps. */
  method HostBlock(st: array<Word>, bytes: seq<Byte>)
    requires st.Length == 8 && |bytes| == 64
    modifies st
    ensures st[..] == Block(old(st[..]), BlockOf(bytes))
  {
    hide *;
    ghost var block, start := BlockOf(bytes), VarsOf(st[..]);
    BlockIs(st[..], block);
    var v := LoadVars(st);
    var w := HostSchedule(bytes);
    for i := 0 to 64
      invariant st[..] == old(st[..])
      invariant v == Steps(start, block, i)
    {
      StepsNext(start, block, i);
      v := Step(v, K(i), w[i]);
    }
    AddStateInto(st, v);
  }

  method LoadVars(st: array<Word>) returns (v: Vars)
    requires st.Length == 8
    ensures v == VarsOf(st[..])
  {
    v := Vars(st[0], st[1], st[2], st[3], st[4], st[5], st[6], st[7]);
  }

  lemma BlockIs(s: seq<Word>, block: seq<Word>)
    requires |s| == 8 && |block| == 16
    ensures Block(s, block) == AddInto(s, Steps(VarsOf(s), block, 64))
    ensures Steps(VarsOf(s), block, 0) == VarsOf(s)
  {
    hide AddInto, VarsOf;
  }

  lemma ScheduleAt(block: seq<Word>, i: nat)
    requires |block| == 16
    ensures W(block, i) == if i < 16 then block[i]
      else ScheduleSum(W(block, i - 16), SmallSigma0(W(block, i - 15)), W(block, i - 7), SmallSigma1(W(block, i - 2)))
  {
    hide ScheduleSum, SmallSigma0, SmallSigma1;
  }

  method HostSchedule(bytes: seq<Byte>) returns (w: seq<Word>)
    requires |bytes| == 64
    ensures |w| == 64 && forall i | 0 <= i < 64 :: w[i] == W(BlockOf(bytes), i)
  {
    hide *;
    var table := new Word[64](_ => 0);
    LoadWords(bytes, table);
    for i := 16 to 64
      invariant forall j | 0 <= j < i :: table[j] == W(BlockOf(bytes), j)
    {
      ScheduleAt(BlockOf(bytes), i);
      table[i] := ScheduleSum(table[i - 16], SmallSigma0(table[i - 15]), table[i - 7], SmallSigma1(table[i - 2]));
    }
    w := table[..];
  }

  method LoadWords(bytes: seq<Byte>, table: array<Word>)
    requires |bytes| == 64 && table.Length == 64
    modifies table
    ensures forall j | 0 <= j < 16 :: table[j] == W(BlockOf(bytes), j)
  {
    hide BeWord, W;
    for i := 0 to 16
      invariant forall j | 0 <= j < i :: table[j] == W(BlockOf(bytes), j)
    {
      ScheduleAt(BlockOf(bytes), i);
      table[i] := BeWord(bytes[4 * i .. 4 * i + 4]);
    }
  }

  lemma HashBlocksStep(s: seq<Word>, v: seq<Byte>, o: nat)
    requires |s| == 8 && |v| % 64 == 0 && o % 64 == 0 && o < |v|
    ensures o + 64 <= |v|
    ensures HashBlocks(s, v[o..]) == HashBlocks(Block(s, BlockOf(v[o .. o + 64])), v[o + 64..])
  {
    hide Block, BlockOf;
    assert v[o..][..64] == v[o .. o + 64] && v[o..][64..] == v[o + 64..];
  }

  method HostHash(m: seq<Byte>) returns (digest: seq<Byte>)
    ensures digest == Hash(m)
  {
    var v := HostPad(m);
    var st := InitialArray();
    hide Block, DigestBytes, BlockOf, Pad, HashBlocks;
    ghost var final := HashBlocks(IV, v);
    assert v[0..] == v;
    var o := 0;
    while o < |v|
      invariant o <= |v| && o % 64 == 0
      invariant HashBlocks(st[..], v[o..]) == final
    {
      HashBlocksStep(st[..], v, o);
      HostBlock(st, v[o .. o + 64]);
      o := o + 64;
    }
    assert v[o..] == [];
    NoBlocks(st[..]);
    digest := DigestBytes(st[..]);
  }

  lemma NoBlocks(s: seq<Word>)
    requires |s| == 8
    ensures HashBlocks(s, []) == s
  {
  }

  method InitialArray() returns (st: array<Word>)
    ensures fresh(st) && st.Length == 8 && st[..] == IV
  {
    st := new Word[8](i requires 0 <= i < 8 => IV[i]);
  }

  method HostPad(m: seq<Byte>) returns (v: seq<Byte>)
    ensures v == Pad(m)
  {
    v := PadMarker(m);
    ghost var front := v;
    var bits := |m| * 8;
    hide LengthBytes, LengthByte;
    for i := 0 to 8
      invariant v == front + LengthBytes(bits)[..i]
    {
      LengthByteAt(bits, i);
      v := v + [LengthByte(bits, i) as Byte];
    }
  }

  lemma LengthByteAt(bits: nat, i: nat)
    requires i < 8
    ensures LengthBytes(bits)[i] == LengthByte(bits, i) as Byte
  {
    hide LengthByte;
  }

  lemma NoZeros()
    ensures Zeros(0) == []
  {
  }

  lemma OneMoreZero(n: nat)
    ensures Zeros(n + 1) == Zeros(n) + [0]
  {
  }

  /** Short of the padding's end, and only there, the length is not yet 56 modulo 64. */
  lemma PadGoesOn(len: nat, n: nat)
    requires n <= PadZeros(len)
    ensures (len + 1 + n) % 64 != 56 <==> n < PadZeros(len)
  {
  }

  method PadMarker(m: seq<Byte>) returns (v: seq<Byte>)
    ensures v == m + [0x80] + Zeros(PadZeros(|m|))
  {
    v := m + [0x80];
    hide PadZeros, Zeros;
    NoZeros();
    var n: nat := 0;
    assert v == m + [0x80] + Zeros(0);
    while |v| % 64 != 56
      invariant n <= PadZeros(|m|)
      invariant v == m + [0x80] + Zeros(n)
      decreases PadZeros(|m|) - n
    {
      PadGoesOn(|m|, n);
      OneMoreZero(n);
      v := v + [0];
      n := n + 1;
    }
    PadGoesOn(|m|, n);
  }

  // ----- the kernel's double hash -----

  /** The second block of an 84-byte header: five words, the marker and the length. */
  function TailBlock(tail5: seq<Word>, nonce: Word): (b: seq<Word>)
    requires |tail5| == 5
    ensures |b| == 16
  {
    seq(16, i requires 0 <= i < 16 =>
      if i < 4 then tail5[i] else if i == 4 then nonce else if i == 5 then 0x80000000 else if i == 15 then 672 else 0)
  }

  /** The one block of a 32-byte message. */
  function DigestBlock(s: seq<Word>): (b: seq<Word>)
    requires |s| == 8
    ensures |b| == 16
  {
    seq(16, i requires 0 <= i < 16 => if i < 8 then s[i] else if i == 8 then 0x80000000 else if i == 15 then 256 else 0)
  }

  method Sha256dTail(mid: seq<Word>, tail5: seq<Word>, nonce: Word) returns (digest: seq<Word>)
    requires |mid| == 8 && |tail5| == 5
    ensures digest == Block(IV, DigestBlock(Block(mid, TailBlock(tail5, nonce))))
  {
    hide Block, TailBlock, DigestBlock;
    var w := FillTail(tail5, nonce);
    var st := new Word[8](i requires 0 <= i < 8 => mid[i]);
    assert st[..] == mid;
    Rounds(st, w);
    var w2 := FillDigest(st);
    var st2 := InitialArray();
    Rounds(st2, w2);
    digest := st2[..];
  }

  method FillTail(tail5: seq<Word>, nonce: Word) returns (w: array<Word>)
    requires |tail5| == 5
    ensures fresh(w) && w.Length == 16 && w[..] == TailBlock(tail5, nonce)
  {
    w := new Word[16](_ => 0);
    w[0] := tail5[0];
    w[1] := tail5[1];
    w[2] := tail5[2];
    w[3] := tail5[3];
    w[4] := nonce;
    w[5] := 0x80000000;
    w[15] := 672;
  }

  method FillDigest(st: array<Word>) returns (w: array<Word>)
    requires st.Length == 8
    ensures fresh(w) && w.Length == 16 && w[..] == DigestBlock(st[..])
  {
    w := new Word[16](_ => 0);
    for i := 0 to 8
      invariant forall j | 0 <= j < 16 :: w[j] == if j < i then st[j] else 0
    {
      w[i] := st[i];
    }
    w[8] := 0x80000000;
    w[15] := 256;
  }

  lemma LengthOf84()
    ensures LengthBytes(672) == [0, 0, 0, 0, 0, 0, 2, 160]
    ensures LengthBytes(256) == [0, 0, 0, 0, 0, 0, 1, 0]
  {
    SmallLength(672, 2, 160);
    SmallLength(256, 1, 0);
  }

  lemma SmallLength(bits: nat, hi: nat, lo: nat)
    requires bits == 256 * hi + lo && hi < 256 && lo < 256
    ensures LengthBytes(bits) == [0, 0, 0, 0, 0, 0, hi as Byte, lo as Byte]
  {
    hide LengthByte;
    SmallLengthByte(bits, hi, lo, 0);
    SmallLengthByte(bits, hi, lo, 1);
    SmallLengthByte(bits, hi, lo, 2);
    SmallLengthByte(bits, hi, lo, 3);
    SmallLengthByte(bits, hi, lo, 4);
    SmallLengthByte(bits, hi, lo, 5);
    SmallLengthByte(bits, hi, lo, 6);
    SmallLengthByte(bits, hi, lo, 7);
  }

  lemma SmallLengthByte(bits: nat, hi: nat, lo: nat, i: nat)
    requires bits == 256 * hi + lo && hi < 256 && lo < 256 && i < 8
    ensures LengthByte(bits, i) == if i == 6 then hi else if i == 7 then lo else 0
  {
    if i < 6 {
      Pow256Large(7 - i);
      DivSmall(bits, Pow256(7 - i));
    } else {
      assert Pow256(0) == 1 && Pow256(1) == 256;
    }
  }

  lemma DivSmall(x: nat, p: nat)
    requires x < p
    ensures x / p == 0
  {
  }

  lemma {:induction false} Pow256Large(k: nat)
    requires k >= 2
    ensures Pow256(k) >= 65536
  {
    if k > 2 {
      Pow256Large(k - 1);
    } else {
      assert Pow256(1) == 256 && Pow256(0) == 1;
    }
  }

  /** The padded message, byte by byte. */
  lemma PadAt(m: seq<Byte>, j: nat)
    requires j < |Pad(m)|
    ensures Pad(m)[j] ==
      if j < |m| then m[j] else if j == |m| then 0x80
      else if j < |m| + 1 + PadZeros(|m|) then 0 else LengthBytes(|m| * 8)[j - |m| - 1 - PadZeros(|m|)]
  {
    hide LengthBytes;
  }

  /** Four consecutive bytes of the padded message. */
  lemma PadFour(m: seq<Byte>, j: nat)
    requires j + 4 <= |Pad(m)|
    ensures var four := Pad(m)[j .. j + 4];
      four == [Pad(m)[j], Pad(m)[j + 1], Pad(m)[j + 2], Pad(m)[j + 3]]
  {
    hide Pad;
    PadAt(m, j);
    PadAt(m, j + 1);
    PadAt(m, j + 2);
    PadAt(m, j + 3);
  }

  lemma FixedWords()
    ensures BeWord([0x80, 0, 0, 0]) == 0x80000000 && BeWord([0, 0, 0, 0]) == 0
    ensures BeWord([0, 0, 2, 160]) == 672 && BeWord([0, 0, 1, 0]) == 256
  {
  }

  /** Word i of the header's tail. */
  function TailWord(header: seq<Byte>, i: nat): Word
    requires |header| == 84 && i < 5
  {
    BeWord(header[64 + 4 * i .. 68 + 4 * i])
  }

  lemma SecondBlock(header: seq<Byte>, tail5: seq<Word>)
    requires |header| == 84 && |tail5| == 5 && forall i | 0 <= i < 4 :: tail5[i] == TailWord(header, i)
    ensures |Pad(header)| == 128 && Pad(header)[..64] == header[..64]
    ensures BlockOf(Pad(header)[64..]) == TailBlock(tail5, TailWord(header, 4))
  {
    var p := Pad(header);
    assert |p| == 128 && p[64..] == p[64..128];
    hide BeWord, Pad;
    forall i | 0 <= i < 64 ensures p[i] == header[i] {
      PadAt(header, i);
    }
    forall i | 0 <= i < 16
      ensures BlockOf(p[64..])[i] == TailBlock(tail5, TailWord(header, 4))[i]
    {
      SliceOfSlice(p, 64, 128, 4 * i, 4 * i + 4);
      SecondBlockWord(header, i);
    }
  }

  lemma SecondBlockWord(header: seq<Byte>, i: nat)
    requires |header| == 84 && i < 16 && |Pad(header)| == 128
    ensures BeWord(Pad(header)[64 + 4 * i .. 68 + 4 * i]) ==
      if i < 5 then TailWord(header, i) else if i == 5 then 0x80000000 else if i == 15 then 672 else 0
  {
    LengthOf84();
    FixedWords();
    hide BeWord, LengthBytes, Pad;
    var j := 64 + 4 * i;
    PadFour(header, j);
    PadAt(header, j);
    PadAt(header, j + 1);
    PadAt(header, j + 2);
    PadAt(header, j + 3);
    assert i < 5 ==> header[j .. j + 4] == [header[j], header[j + 1], header[j + 2], header[j + 3]];
  }

  lemma OnlyBlock(s: seq<Word>)
    requires |s| == 8
    ensures |Pad(DigestBytes(s))| == 64 && BlockOf(Pad(DigestBytes(s))) == DigestBlock(s)
  {
    var p := Pad(DigestBytes(s));
    assert |p| == 64;
    hide BeWord, Pad, DigestBytes;
    forall i | 0 <= i < 16
      ensures BlockOf(p)[i] == DigestBlock(s)[i]
    {
      OnlyBlockWord(s, i);
    }
  }

  lemma OnlyBlockWord(s: seq<Word>, i: nat)
    requires |s| == 8 && i < 16 && |Pad(DigestBytes(s))| == 64
    ensures BeWord(Pad(DigestBytes(s))[4 * i .. 4 * i + 4]) ==
      if i < 8 then s[i] else if i == 8 then 0x80000000 else if i == 15 then 256 else 0
  {
    hide *;
    var m, j := DigestBytes(s), 4 * i;
    PadFour(m, j);
    if i < 8 {
      DigestPart(s, i);
    } else {
      PadPart(m, i);
    }
  }

  lemma DigestPart(s: seq<Word>, i: nat)
    requires |s| == 8 && i < 8 && |Pad(DigestBytes(s))| == 64
    ensures var p, j := Pad(DigestBytes(s)), 4 * i; BeWord([p[j], p[j + 1], p[j + 2], p[j + 3]]) == s[i]
  {
    var m, j := DigestBytes(s), 4 * i;
    hide *;
    PadAt(m, j);
    PadAt(m, j + 1);
    PadAt(m, j + 2);
    PadAt(m, j + 3);
    DigestFour(s, i);
    BeRoundTrip(s[i]);
  }

  lemma PadPart(m: seq<Byte>, i: nat)
    requires |m| == 32 && 8 <= i < 16 && |Pad(m)| == 64
    ensures var p, j := Pad(m), 4 * i;
      BeWord([p[j], p[j + 1], p[j + 2], p[j + 3]]) == if i == 8 then 0x80000000 else if i == 15 then 256 else 0
  {
    LengthOf84();
    FixedWords();
    hide BeWord, LengthBytes, Pad;
    var j := 4 * i;
    PadAt(m, j);
    PadAt(m, j + 1);
    PadAt(m, j + 2);
    PadAt(m, j + 3);
  }

  lemma DigestFour(s: seq<Word>, i: nat)
    requires |s| == 8 && i < 8
    ensures var m := DigestBytes(s);
      BeBytes(s[i]) == [m[4 * i], m[4 * i + 1], m[4 * i + 2], m[4 * i + 3]]
  {
    hide BeBytes;
  }

  lemma HashOne(s: seq<Word>, p: seq<Byte>)
    requires |s| == 8 && |p| == 64
    ensures HashBlocks(s, p) == Block(s, BlockOf(p))
  {
    hide Block, BlockOf;
    assert p[..64] == p && p[64..] == [];
  }

  lemma HashTwo(s: seq<Word>, p: seq<Byte>)
    requires |s| == 8 && |p| == 128
    ensures HashBlocks(s, p) == Block(Block(s, BlockOf(p[..64])), BlockOf(p[64..]))
  {
    hide Block, BlockOf;
    HashOne(Block(s, BlockOf(p[..64])), p[64..]);
  }

  lemma HashIs(m: seq<Byte>)
    ensures Hash(m) == DigestBytes(HashBlocks(IV, Pad(m)))
  {
    hide DigestBytes, HashBlocks, Pad;
  }

  /** On the midstate of the first 64 bytes, the kernel's digest is SHA-256 of SHA-256 of the
      whole 84-byte header, for every header and every nonce in it. */
  lemma TailIsDoubleHash(header: seq<Byte>, tail5: seq<Word>)
    requires |header| == 84 && |tail5| == 5 && forall i | 0 <= i < 4 :: tail5[i] == TailWord(header, i)
    ensures var mid := Block(IV, BlockOf(header[..64]));
      DigestBytes(Block(IV, DigestBlock(Block(mid, TailBlock(tail5, TailWord(header, 4)))))) == Hash(Hash(header))
  {
    assert |IV| == 8;
    hide *;
    SecondBlock(header, tail5);
    HashTwo(IV, Pad(header));
    HashIs(header);
    var mid := Block(IV, BlockOf(header[..64]));
    var first := Block(mid, TailBlock(tail5, TailWord(header, 4)));
    assert Hash(header) == DigestBytes(first);
    OnlyBlock(first);
    HashOne(IV, Pad(DigestBytes(first)));
    HashIs(DigestBytes(first));
  }

  // ----- the target test -----

  function Pow32(k: nat): (p: nat)
    ensures p >= 1
  {
    if k == 0 then 1 else 0x1_0000_0000 * Pow32(k - 1)
  }

  /** Words as one big-endian number. */
  function Number(words: seq<Word>): (n: nat)
    ensures n < Pow32(|words|)
  {
    if words == [] then 0 else
      NumberBound(words[0] as nat, Number(words[1..]), Pow32(|words| - 1));
      words[0] as nat * Pow32(|words| - 1) + Number(words[1..])
  }

  lemma NumberBound(top: nat, rest: nat, p: nat)
    requires top < 0x1_0000_0000 && rest < p
    ensures top * p + rest < 0x1_0000_0000 * p
  {
    assert top * p <= 0xFFFF_FFFF * p;
  }

  lemma TopWordDecides(a: nat, x: nat, b: nat, y: nat, p: nat)
    requires a < b && x < p
    ensures a * p + x < b * p + y
  {
    assert (a + 1) * p <= b * p;
  }

  lemma CompareTop(h: seq<Word>, t: seq<Word>)
    requires |h| == |t| > 0
    ensures h[0] as nat < t[0] as nat ==> Number(h) < Number(t)
    ensures h[0] as nat > t[0] as nat ==> Number(h) > Number(t)
    ensures h[0] as nat == t[0] as nat ==> (Number(h) <= Number(t) <==> Number(h[1..]) <= Number(t[1..]))
  {
    NumberTop(h);
    NumberTop(t);
    hide *;
    var p := Pow32(|h| - 1);
    var a, b, x, y := h[0] as nat, t[0] as nat, Number(h[1..]), Number(t[1..]);
    if a < b {
      TopWordDecides(a, x, b, y, p);
    } else if b < a {
      TopWordDecides(b, y, a, x, p);
    }
  }

  lemma NumberTop(words: seq<Word>)
    requires words != []
    ensures Number(words) == words[0] as nat * Pow32(|words| - 1) + Number(words[1..])
    ensures Number(words[1..]) < Pow32(|words| - 1)
  {
    hide Pow32;
  }

  /** The word-by-word comparison is the comparison of 256-bit numbers. */
  method LeTarget(h: seq<Word>, t: seq<Word>) returns (ok: bool)
    requires |h| == |t| == 8
    ensures ok <==> Number(h) <= Number(t)
  {
    assert h[0..] == h && t[0..] == t;
    hide Number;
    for i := 0 to 8
      invariant Number(h) <= Number(t) <==> Number(h[i..]) <= Number(t[i..])
    {
      assert h[i..][1..] == h[i + 1..] && t[i..][1..] == t[i + 1..];
      CompareTop(h[i..], t[i..]);
      if h[i] as nat < t[i] as nat {
        return true;
      }
      if h[i] as nat > t[i] as nat {
        return false;
      }
    }
    assert h[8..] == t[8..] == [];
    ok := true;
  }
}
