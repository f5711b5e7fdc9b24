/** Compact nBits targets: the encoder and decoder over 32-byte buffers, and the numbers they denote. */
module CompactTargets {

  type U8 = n: nat | n < 256

  function Pow(k: nat): (p: nat)
    ensures p >= 1
  {
    if k == 0 then 1 else 256 * Pow(k - 1)
  }

  /** A big-endian byte string as a number. */
  function Value(bytes: seq<U8>): (v: nat) {
    if bytes == [] then 0 else Value(bytes[..|bytes| - 1]) * 256 + bytes[|bytes| - 1]
  }

  // ----- the codec on numbers -----

  /** The number of significant bytes. */
  function Len(t: nat): (n: nat)
    ensures n == 0 <==> t == 0
  {
    if t == 0 then 0 else 1 + Len(t / 256)
  }

  /** The top three significant bytes of a nonzero target, shorter ones shifted up. */
  function Top(t: nat): (m: nat)
    requires t > 0
  {
    if Len(t) >= 3 then t / Pow(Len(t) - 3) else t * Pow(3 - Len(t))
  }

  datatype Compact = Compact(exp: nat, mant: nat) {
    function Bits(): nat { exp * 0x100_0000 + mant }
  }

  /** The encoding: a mantissa whose sign bit would be set gives up a byte to the exponent. */
  function Encode(t: nat): (c: Compact) {
    if t == 0 then Compact(0, 0)
    else if Top(t) >= 0x80_0000 then Compact(Len(t) + 1, Top(t) / 256)
    else Compact(Len(t), Top(t))
  }

  /** What byte i of the mantissa contributes: its place must lie inside the 32 bytes. */
  function Part(exp: nat, i: nat, b: nat): (v: nat) {
    if 1 + i <= exp <= 32 + i then b * Pow(exp - 1 - i) else 0
  }

  function Decode(c: Compact): (t: nat) {
    Part(c.exp, 0, c.mant / 65536 % 256) + Part(c.exp, 1, c.mant / 256 % 256) + Part(c.exp, 2, c.mant % 256)
  }

  // ----- bounds -----

  lemma {:induction false} LenBounds(t: nat)
    requires t > 0
    ensures Pow(Len(t) - 1) <= t < Pow(Len(t))
  {
    if t / 256 > 0 {
      LenBounds(t / 256);
    } else {
      assert Pow(1) == 256 * Pow(0);
    }
  }

  lemma {:induction false} PowMonotone(a: nat, b: nat)
    requires a <= b
    ensures Pow(a) <= Pow(b)
    decreases b - a
  {
    if a < b {
      PowMonotone(a, b - 1);
    }
  }

  lemma LenIs(t: nat, n: nat)
    requires n >= 1 && Pow(n - 1) <= t < Pow(n)
    ensures Len(t) == n
  {
    LenBounds(t);
    if Len(t) < n {
      PowMonotone(Len(t), n - 1);
    } else if Len(t) > n {
      PowMonotone(n, Len(t) - 1);
    }
  }

  lemma {:induction false} LenMonotone(t: nat, u: nat)
    requires t <= u
    ensures Len(t) <= Len(u)
  {
    if t > 0 {
      LenBounds(t);
      LenBounds(u);
      if Len(t) > Len(u) {
        PowMonotone(Len(u), Len(t) - 1);
      }
    }
  }

  lemma DivBounds(t: nat, p: nat)
    requires p >= 1
    ensures t / p * p <= t < t / p * p + p
  {
  }

  lemma MulMonotone(a: nat, b: nat, p: nat)
    ensures a <= b ==> a * p <= b * p
    ensures (a + 1) * p == a * p + p
  {
  }

  lemma DivAtLeast(t: nat, p: nat, q: nat)
    requires p >= 1 && q * p <= t
    ensures t / p >= q
  {
    var r := t / p;
    DivBounds(t, p);
    MulMonotone(r + 1, q, p);
    MulMonotone(r, q, p);
  }

  lemma DivBelow(t: nat, p: nat, q: nat)
    requires p >= 1 && t < q * p
    ensures t / p < q
  {
    DivBounds(t, p);
    MulMonotone(q, t / p, p);
  }

  lemma ThreePows(k: nat)
    ensures Pow(k + 2) == 65536 * Pow(k) && Pow(k + 3) == 0x100_0000 * Pow(k)
  {
    assert Pow(k + 1) == 256 * Pow(k);
  }

  /** The top three bytes are a 24-bit number with a nonzero first byte. */
  lemma TopBounds(t: nat)
    requires t > 0
    ensures 0x1_0000 <= Top(t) < 0x100_0000
  {
    LenBounds(t);
    var n := Len(t);
    if n >= 3 {
      var p := Pow(n - 3);
      ThreePows(n - 3);
      hide Pow, Len;
      DivAtLeast(t, p, 0x1_0000);
      DivBelow(t, p, 0x100_0000);
    } else {
      SmallPows();
      hide Pow, Len;
      assert n == 1 || n == 2;
    }
  }

  lemma SmallPows()
    ensures Pow(0) == 1 && Pow(1) == 256 && Pow(2) == 65536 && Pow(3) == 0x100_0000
  {
  }

  lemma DecodeIs(c: Compact)
    ensures Decode(c) ==
      Part(c.exp, 0, c.mant / 65536 % 256) + Part(c.exp, 1, c.mant / 256 % 256) + Part(c.exp, 2, c.mant % 256)
  {
    hide Part;
  }

  lemma TwoPows(k: nat)
    ensures Pow(k + 1) == 256 * Pow(k) && Pow(k + 2) == 65536 * Pow(k)
  {
  }

  /** A mantissa placed at byte k decodes to that many powers of 256. */
  lemma DecodePlaced(mant: nat, k: nat)
    requires mant < 0x100_0000 && (k <= 29 || (k == 30 && mant < 65536))
    ensures Decode(Compact(k + 3, mant)) == mant * Pow(k)
  {
    hide *;
    var b0, b1, b2, p := mant / 65536 % 256, mant / 256 % 256, mant % 256, Pow(k);
    DecodeIs(Compact(k + 3, mant));
    PlacedParts(b0, b1, b2, k, mant);
    TwoPows(k);
    ThreeBytes(mant);
    Distribute(b0, b1, b2, p);
  }

  /** Byte 0 has a place above 2^240 only when it is zero. */
  lemma PlacedParts(b0: nat, b1: nat, b2: nat, k: nat, mant: nat)
    requires mant < 0x100_0000 && b0 == mant / 65536 % 256 && (k <= 29 || (k == 30 && mant < 65536))
    ensures Part(k + 3, 0, b0) == b0 * Pow(k + 2)
    ensures Part(k + 3, 1, b1) == b1 * Pow(k + 1) && Part(k + 3, 2, b2) == b2 * Pow(k)
  {
    hide Pow;
    if k == 30 {
      assert b0 == 0;
    }
  }

  lemma ThreeBytes(m: nat)
    requires m < 0x100_0000
    ensures m == m / 65536 % 256 * 65536 + m / 256 % 256 * 256 + m % 256
  {
    var h := m / 256;
    assert m == h * 256 + m % 256 && h < 65536;
    assert h / 256 == m / 65536;
    assert h == h / 256 * 256 + h % 256;
  }

  lemma Distribute(b0: nat, b1: nat, b2: nat, p: nat)
    ensures (b0 * 65536 + b1 * 256 + b2) * p == b0 * (65536 * p) + b1 * (256 * p) + b2 * p
  {
  }

  /** Encoding a placed mantissa gives it back. */
  lemma EncodePlaced(mant: nat, k: nat)
    requires 0x8000 <= mant < 0x80_0000
    ensures mant * Pow(k) > 0 && Encode(mant * Pow(k)) == Compact(k + 3, mant)
  {
    if mant >= 0x1_0000 {
      PlacedLong(mant, k);
    } else {
      PlacedShort(mant, k);
    }
  }

  lemma PlacedLong(mant: nat, k: nat)
    requires 0x1_0000 <= mant < 0x80_0000
    ensures mant * Pow(k) > 0 && Encode(mant * Pow(k)) == Compact(k + 3, mant)
  {
    var p := Pow(k);
    assert Pow(k + 1) == 256 * p && Pow(k + 2) == 65536 * p && Pow(k + 3) == 0x100_0000 * p;
    hide Pow;
    Between(mant, 0x1_0000, 0x100_0000, p);
    LenIs(mant * p, k + 3);
    ExactDiv(mant, p);
  }

  lemma PlacedShort(mant: nat, k: nat)
    requires 0x8000 <= mant < 0x1_0000
    ensures mant * Pow(k) > 0 && Encode(mant * Pow(k)) == Compact(k + 3, mant)
  {
    var p := Pow(k);
    var t := mant * p;
    assert Pow(k + 1) == 256 * p && Pow(k + 2) == 65536 * p;
    SmallPows();
    assert k >= 1 ==> p == 256 * Pow(k - 1);
    hide Pow;
    Between(mant, 0x100, 0x1_0000, p);
    LenIs(t, k + 2);
    if k >= 1 {
      var q := Pow(k - 1);
      Regroup(mant, q);
      ExactDiv(mant * 256, q);
    }
    assert Top(t) == mant * 256;
  }

  lemma Regroup(m: nat, q: nat)
    ensures m * (256 * q) == m * 256 * q
  {
  }

  lemma Between(m: nat, lo: nat, hi: nat, p: nat)
    requires lo <= m < hi && p >= 1
    ensures lo * p <= m * p < hi * p
  {
  }

  lemma ExactDiv(m: nat, p: nat)
    requires p >= 1
    ensures m * p / p == m
  {
    DivAtLeast(m * p, p, m);
    MulMonotone(m, m, p);
    DivBelow(m * p, p, m + 1);
  }

  // ----- the laws -----

  /** A 32-byte target. */
  ghost predicate IsTarget(t: nat) {
    t < Pow(32)
  }

  /** Expanding the encoding never exceeds the target and loses less than one part in 2^15. */
  lemma ExpansionIsClose(t: nat)
    requires IsTarget(t)
    ensures Decode(Encode(t)) <= t
    ensures t > 0 ==> (t - Decode(Encode(t))) * 0x8000 < t
  {
    if t > 0 {
      LenBounds(t);
      TopBounds(t);
      TargetLen(t);
      if Len(t) < 3 {
        ShortTargetExact(t);
      } else {
        LongTargetClose(t);
      }
    }
  }

  lemma TargetLen(t: nat)
    requires IsTarget(t) && t > 0
    ensures Len(t) <= 32
  {
    hide Pow, Len;
    LenBounds(t);
    if Len(t) > 32 {
      PowMonotone(32, Len(t) - 1);
    }
  }

  /** One- and two-byte targets survive exactly. */
  lemma ShortTargetExact(t: nat)
    requires t > 0 && Len(t) < 3
    ensures Decode(Encode(t)) == t
  {
    LenBounds(t);
    SmallPows();
    hide Pow, Decode;
    if Len(t) == 1 {
      EncodeOneByte(t);
      OneByte(t);
    } else {
      EncodeTwoBytes(t);
      TwoBytes(t);
    }
  }

  lemma EncodeOneByte(t: nat)
    requires 0 < t < 256 && Len(t) == 1
    ensures Encode(t) == if t >= 128 then Compact(2, t * 256) else Compact(1, t * 65536)
  {
    SmallPows();
    hide Pow, Len;
    assert t * 65536 / 256 == t * 256;
  }

  lemma EncodeTwoBytes(t: nat)
    requires 0 < t < 65536 && Len(t) == 2
    ensures Encode(t) == if t >= 32768 then Compact(3, t) else Compact(2, t * 256)
  {
    SmallPows();
    hide Pow, Len;
    assert t * 256 / 256 == t;
  }

  lemma OneByte(t: nat)
    requires t < 256
    ensures Decode(Compact(1, t * 65536)) == t && Decode(Compact(2, t * 256)) == t
  {
    SmallPows();
    hide Pow;
    assert t * 65536 / 65536 == t && t * 256 / 65536 == 0 && t * 256 / 256 == t;
  }

  lemma TwoBytes(t: nat)
    requires t < 65536
    ensures Decode(Compact(2, t * 256)) == t && Decode(Compact(3, t)) == t
  {
    SmallPows();
    hide Pow;
    assert t * 256 / 65536 == t / 256 && t * 256 / 256 == t;
    assert t == t / 256 * 256 + t % 256 && t / 65536 == 0;
  }

  lemma EncodeLong(t: nat)
    requires t > 0 && Len(t) >= 3
    ensures var k, m := Len(t) - 3, Top(t);
      && m == t / Pow(k) && Pow(k + 1) == 256 * Pow(k)
      && Encode(t) == if m >= 0x80_0000 then Compact(k + 1 + 3, m / 256) else Compact(k + 3, m)
  {
    hide Len;
  }

  lemma LongTargetClose(t: nat)
    requires IsTarget(t) && t > 0 && Len(t) >= 3
    ensures Decode(Encode(t)) <= t
    ensures (t - Decode(Encode(t))) * 0x8000 < t
  {
    hide *;
    TargetLen(t);
    TopBounds(t);
    var k, m := Len(t) - 3, Top(t);
    EncodeLong(t);
    DivBounds(t, Pow(k));
    if m >= 0x80_0000 {
      DecodePlaced(m / 256, k + 1);
      Coarser(t, m, Pow(k));
    } else {
      DecodePlaced(m, k);
      Closer(t, m, Pow(k));
    }
  }

  lemma Closer(t: nat, m: nat, p: nat)
    requires p >= 1 && m >= 0x1_0000 && m * p <= t < m * p + p
    ensures (t - m * p) * 0x8000 < t
  {
    assert 0x1_0000 * p <= m * p;
  }

  lemma Coarser(t: nat, m: nat, p: nat)
    requires p >= 1 && m >= 0x80_0000 && m * p <= t < m * p + p
    ensures m / 256 * (256 * p) <= t && (t - m / 256 * (256 * p)) * 0x8000 < t
  {
    var h, r := m / 256, m % 256;
    assert m == h * 256 + r;
    SplitProduct(h, r, p);
    MulMonotone(0x80_0000, m, p);
    MulMonotone(r, 255, p);
  }

  lemma SplitProduct(h: nat, r: nat, p: nat)
    ensures (h * 256 + r) * p == h * (256 * p) + r * p
  {
  }

  /** Re-encoding an expanded target changes nothing: what the job is handed is what vardiff reports. */
  lemma ReencodingIsFixed(t: nat)
    requires IsTarget(t)
    ensures Encode(Decode(Encode(t))) == Encode(t)
  {
    if t > 0 {
      LenBounds(t);
      TopBounds(t);
      TargetLen(t);
      var c := Encode(t);
      if Len(t) < 3 {
        ShortTargetExact(t);
      } else {
        DecodePlaced(c.mant, c.exp - 3);
        EncodePlaced(c.mant, c.exp - 3);
      }
    }
  }

  /** A larger target never has a smaller encoding. */
  lemma EncodeIsMonotone(t: nat, u: nat)
    requires t <= u
    ensures Encode(t).Bits() <= Encode(u).Bits()
  {
    if t > 0 {
      TopBounds(t);
      TopBounds(u);
      LenMonotone(t, u);
      if Len(t) == Len(u) {
        TopMonotone(t, u);
      }
    }
  }

  lemma DivMonotone(t: nat, u: nat, p: nat)
    requires p >= 1 && t <= u
    ensures t / p <= u / p
  {
    DivBounds(t, p);
    DivAtLeast(u, p, t / p);
  }

  lemma {:induction false} TopMonotone(t: nat, u: nat)
    requires 0 < t <= u && Len(t) == Len(u)
    ensures Top(t) <= Top(u)
  {
    hide Pow, Len;
    var n := Len(t);
    if n >= 3 {
      var p := Pow(n - 3);
      DivMonotone(t, u, p);
    } else {
      MulMonotone(t, u, Pow(3 - n));
    }
  }

  // ----- difficulty -----

  const SCALE: nat := 1_000_000

  /** 0xFFFF shifted left by 208 bits. */
  function Diff1Target(): nat { 0xFFFF * Pow(26) }

  /** The share target for a scaled difficulty. */
  function TargetFor(scaled: nat): (t: nat)
    requires scaled >= 1
  {
    Diff1Target() * SCALE / scaled
  }

  /** The quotient always fits in 32 bytes, so the clamp to the largest target is never taken. */
  lemma ClampIsUnreachable(scaled: nat)
    requires scaled >= 1
    ensures IsTarget(TargetFor(scaled))
  {
    var x := Diff1Target() * SCALE;
    DivBounds(x, scaled);
    QuotientAtMost(x, scaled);
    var p := Pow(26);
    assert Pow(27) == 256 * p && Pow(28) == 0x1_0000 * p && Pow(29) == 0x100_0000 * p;
    assert Pow(30) == 0x1_0000_0000 * p && Pow(31) == 0x100_0000_0000 * p && Pow(32) == 0x1_0000_0000_0000 * p;
    assert x == 0xFFFF * 1_000_000 * p;
  }

  lemma QuotientAtMost(x: nat, d: nat)
    requires d >= 1
    ensures x / d <= x
  {
    var q := x / d;
    DivBounds(x, d);
    MulMonotone(1, d, q);
    assert q * d == d * q;
  }

  /** What a pool may send: a number, or one of the values a double has beside them. */
  datatype Difficulty = NotFinite | Finite(value: real)

  /** The difficulty the code goes on with: anything but a positive number counts as one. */
  function Guarded(d: Difficulty): (v: real)
    ensures v > 0.0
  {
    if d.Finite? && d.value > 0.0 then d.value else 1.0
  }

  /** The difficulty in millionths, rounded down, and at least one. */
  function Scaled(d: Difficulty): (scaled: nat)
    ensures scaled >= 1
  {
    var s := Guarded(d) * SCALE as real;
    (if s < 1.0 then 1.0 else s).Floor
  }

  /** A higher difficulty is scaled no lower. */
  lemma ScaledIsMonotone(d: Difficulty, e: Difficulty)
    requires Guarded(d) <= Guarded(e)
    ensures Scaled(d) <= Scaled(e)
  {
    hide Guarded;
    var x, y := Guarded(d) * SCALE as real, Guarded(e) * SCALE as real;
    assert x <= y;
    FloorIsMonotone(if x < 1.0 then 1.0 else x, if y < 1.0 then 1.0 else y);
  }

  lemma FloorIsMonotone(x: real, y: real)
    requires x <= y
    ensures x.Floor <= y.Floor
  {
  }

  /** A higher difficulty never has a larger encoding. */
  lemma DifficultyIsAntitone(d: Difficulty, e: Difficulty)
    requires Guarded(d) <= Guarded(e)
    ensures Encode(TargetFor(Scaled(e))).Bits() <= Encode(TargetFor(Scaled(d))).Bits()
  {
    hide *;
    ScaledIsMonotone(d, e);
    ScaledIsAntitone(Scaled(d), Scaled(e));
  }

  lemma ScaledIsAntitone(d: nat, e: nat)
    requires 1 <= d <= e
    ensures Encode(TargetFor(e)).Bits() <= Encode(TargetFor(d)).Bits()
  {
    hide Diff1Target, Encode;
    QuotientAntitone(Diff1Target() * SCALE, d, e);
    EncodeIsMonotone(TargetFor(e), TargetFor(d));
  }

  lemma QuotientAntitone(x: nat, d: nat, e: nat)
    requires 1 <= d <= e
    ensures x / e <= x / d
  {
    var q := x / e;
    DivBounds(x, e);
    assert q * d <= q * e;
    DivAtLeast(x, d, q);
  }

  // ----- byte strings -----

  lemma {:induction false} ValueBound(b: seq<U8>)
    ensures Value(b) < Pow(|b|)
  {
    if b != [] {
      ValueBound(b[..|b| - 1]);
    }
  }

  lemma {:induction false} ValueConcat(a: seq<U8>, b: seq<U8>)
    ensures Value(a + b) == Value(a) * Pow(|b|) + Value(b)
  {
    if b == [] {
      assert a + b == a;
    } else {
      var c := b[..|b| - 1];
      ValueConcat(a, c);
      assert (a + b)[..|a + b| - 1] == a + c;
      ShiftSum(Value(a), Pow(|c|), Value(c));
    }
  }

  lemma ShiftSum(x: nat, p: nat, y: nat)
    ensures (x * p + y) * 256 == x * (256 * p) + y * 256
  {
  }

  lemma {:induction false} ZerosValue(b: seq<U8>)
    requires forall i | 0 <= i < |b| :: b[i] == 0
    ensures Value(b) == 0
  {
    if b != [] {
      ZerosValue(b[..|b| - 1]);
    }
  }

  /** Leading zero bytes do not change the value. */
  lemma DropZeros(b: seq<U8>, f: nat)
    requires f <= |b| && forall i | 0 <= i < f :: b[i] == 0
    ensures Value(b) == Value(b[f..])
  {
    assert b == b[..f] + b[f..];
    ZerosValue(b[..f]);
    ValueConcat(b[..f], b[f..]);
  }

  /** Three bytes as a 24-bit number. */
  function Join(a: nat, b: nat, c: nat): nat { a * 65536 + b * 256 + c }

  lemma LeadingLength(s: seq<U8>)
    requires s != [] && s[0] != 0
    ensures Value(s) > 0 && Len(Value(s)) == |s|
  {
    var rest := s[1..];
    assert s == [s[0]] + rest;
    ValueConcat([s[0]], rest);
    assert Value([s[0]]) == s[0];
    ValueBound(s);
    hide Pow, Value, Len;
    MulMonotone(1, s[0], Pow(|rest|));
    LenIs(Value(s), |s|);
  }

  lemma ShortValue(s: seq<U8>)
    requires 1 <= |s| <= 2
    ensures |s| == 1 ==> Value(s) * 65536 == Join(s[0], 0, 0)
    ensures |s| == 2 ==> Value(s) * 256 == Join(s[0], s[1], 0)
  {
    if |s| == 2 {
      assert s[..1] == [s[0]];
    }
  }

  /** The length and the top bytes of a string that starts with a nonzero byte. */
  lemma LeadingBytes(s: seq<U8>)
    requires s != [] && s[0] != 0
    ensures Value(s) > 0 && Len(Value(s)) == |s|
    ensures |s| == 1 ==> Top(Value(s)) == Join(s[0], 0, 0)
    ensures |s| == 2 ==> Top(Value(s)) == Join(s[0], s[1], 0)
    ensures |s| >= 3 ==> Top(Value(s)) == Join(s[0], s[1], s[2])
  {
    LeadingLength(s);
    hide Pow, Value, Len;
    SmallPows();
    if |s| >= 3 {
      LeadingThree(s);
    } else {
      ShortValue(s);
    }
  }

  lemma LeadingThree(s: seq<U8>)
    requires |s| >= 3
    ensures Value(s) / Pow(|s| - 3) == Join(s[0], s[1], s[2])
  {
    var three, rest := s[..3], s[3..];
    assert s == three + rest;
    ValueConcat(three, rest);
    ValueBound(rest);
    ThreeValue(three);
    var p, m := Pow(|rest|), Value(three);
    hide Pow, Value;
    DivAtLeast(Value(s), p, m);
    MulMonotone(m, m, p);
    DivBelow(Value(s), p, m + 1);
  }

  lemma ThreeValue(b: seq<U8>)
    requires |b| == 3
    ensures Value(b) == Join(b[0], b[1], b[2])
  {
    var b2, b1 := b[..2], b[..1];
    assert b[..|b| - 1] == b2 && b2[..|b2| - 1] == b1 && b1[..|b1| - 1] == [];
    assert Value(b1) == b[0];
    assert Value(b2) == Value(b1) * 256 + b[1];
  }

  // ----- the code's loops -----

  /** The encoder over a big-endian byte string. */
  method TargetToNbits(target: seq<U8>) returns (nbits: nat)
    ensures nbits == Encode(Value(target)).Bits() % 0x1_0000_0000
  {
    hide *;
    var firstNonZero: nat := 0;
    while firstNonZero < |target| && target[firstNonZero] == 0
      invariant firstNonZero <= |target|
      invariant forall i | 0 <= i < firstNonZero :: target[i] == 0
    {
      firstNonZero := firstNonZero + 1;
    }
    DropZeros(target, firstNonZero);
    if firstNonZero == |target| {
      ZeroTarget(target[firstNonZero..]);
      return 0;
    }
    var len, mantissa := LengthAndMantissa(target, firstNonZero);
    ShiftWraps(Encode(Value(target)), len, mantissa);
    nbits := len % 256 * 0x100_0000 + mantissa;
  }

  /** The byte length and the three top bytes, moved down one byte where they would read as negative. */
  method LengthAndMantissa(target: seq<U8>, f: nat) returns (len: nat, mantissa: nat)
    requires f < |target| && target[f] != 0 && Value(target) == Value(target[f..])
    ensures mantissa < 0x100_0000 && Compact(len, mantissa) == Encode(Value(target))
  {
    ghost var s := target[f..];
    LeadingBytes(s);
    TopBounds(Value(target));
    hide Value, Top, Len;
    len := |target| - f;
    mantissa :=
      if len >= 3 then Join(target[f], target[f + 1], target[f + 2])
      else if len == 2 then Join(target[f], target[f + 1], 0)
      else Join(target[f], 0, 0);
    if mantissa >= 0x80_0000 {
      mantissa := mantissa / 256;
      len := len + 1;
    }
  }

  lemma ZeroTarget(b: seq<U8>)
    requires b == []
    ensures Encode(Value(b)).Bits() % 0x1_0000_0000 == 0
  {
    assert Value(b) == 0;
    hide Value, Top, Len;
    assert Encode(0) == Compact(0, 0);
  }

  lemma Remainder(q: nat, r: nat)
    requires r < 0x1_0000_0000
    ensures (q * 0x1_0000_0000 + r) % 0x1_0000_0000 == r
  {
  }

  /** A 32-bit shift by 24 keeps the low byte of the length. */
  lemma ShiftWraps(c: Compact, len: nat, mantissa: nat)
    requires mantissa < 0x100_0000 && c == Compact(len, mantissa)
    ensures len % 256 * 0x100_0000 + mantissa == c.Bits() % 0x1_0000_0000
  {
    var q, r := len / 256, len % 256 * 0x100_0000 + mantissa;
    assert len == q * 256 + len % 256;
    assert c.Bits() == q * 0x1_0000_0000 + r;
    Remainder(q, r);
  }

  lemma {:induction false} ValueUpdate(b: seq<U8>, pos: nat, x: U8)
    requires pos < |b| && b[pos] == 0
    ensures Value(b[pos := x]) == Value(b) + x * Pow(|b| - 1 - pos)
  {
    var front, back := b[..pos], b[pos + 1..];
    assert b == (front + [0]) + back && b[pos := x] == (front + [x]) + back;
    ValueConcat(front + [0], back);
    ValueConcat(front + [x], back);
    ValueConcat(front, [0]);
    ValueConcat(front, [x]);
    assert Value([x]) == x && Value([0]) == 0;
    AddProduct(Value(front) * Pow(1), x, Pow(|back|));
  }

  lemma AddProduct(y: nat, x: nat, p: nat)
    ensures (y + x) * p == y * p + x * p
  {
  }

  /** What the first n mantissa bytes contribute. */
  ghost function Parts(exp: nat, mant: nat, n: nat): (v: nat)
    requires n <= 3
  {
    if n == 0 then 0 else Parts(exp, mant, n - 1) + Part(exp, n - 1, MantissaByte(mant, n - 1))
  }

  function MantissaByte(mant: nat, i: nat): (b: U8)
    requires i < 3
  {
    if i == 0 then mant / 65536 % 256 else if i == 1 then mant / 256 % 256 else mant % 256
  }

  lemma PartsAreDecode(exp: nat, mant: nat)
    ensures Parts(exp, mant, 3) == Decode(Compact(exp, mant))
  {
    hide Part;
    assert Parts(exp, mant, 2) == Parts(exp, mant, 1) + Part(exp, 1, MantissaByte(mant, 1));
    assert Parts(exp, mant, 1) == Parts(exp, mant, 0) + Part(exp, 0, MantissaByte(mant, 0));
  }

  /** The decoder: any 32-bit value, bytes that fall outside the buffer dropped. */
  method NbitsToTarget(nbits: nat) returns (target: seq<U8>)
    requires nbits < 0x1_0000_0000
    ensures |target| == 32
    ensures Value(target) == Decode(Compact(nbits / 0x100_0000, nbits % 0x100_0000))
  {
    var exp := nbits / 0x100_0000;
    var mant := nbits % 0x100_0000;
    target := seq(32, _ => 0);
    ZerosValue(target);
    PartsAreDecode(exp, mant);
    hide Decode, MantissaByte, Value;
    for i := 0 to 3
      invariant |target| == 32
      invariant forall q | 0 <= q < 32 && q >= 32 - exp + i :: target[q] == 0
      invariant Value(target) == Parts(exp, mant, i)
    {
      var pos := 32 - exp + i;
      if 0 <= pos < 32 {
        ValueUpdate(target, pos, MantissaByte(mant, i));
        target := target[pos := MantissaByte(mant, i)];
      }
    }
  }

  /** The shortest big-endian form; zero has one byte. */
  function MinimalBytes(t: nat): (b: seq<U8>)
    ensures |b| >= 1 && Value(b) == t
  {
    if t < 256 then assert [t][..0] == []; [t]
    else var front := MinimalBytes(t / 256); assert (front + [t % 256])[..|front|] == front; front + [t % 256]
  }

  lemma {:induction false} MinimalLength(t: nat)
    ensures |MinimalBytes(t)| == if t == 0 then 1 else Len(t)
  {
    if t >= 256 {
      MinimalLength(t / 256);
    }
  }

  /** A number in a fixed 32-byte buffer; one that does not fit becomes the largest. */
  method Render32(t: nat) returns (be32: seq<U8>)
    ensures |be32| == 32
    ensures IsTarget(t) ==> Value(be32) == t
    ensures !IsTarget(t) ==> forall i | 0 <= i < 32 :: be32[i] == 255
  {
    var raw := MinimalBytes(t);
    MinimalLength(t);
    FitsByLength(t);
    hide MinimalBytes;
    if |raw| <= 32 {
      be32 := seq(32 - |raw|, _ => 0) + raw;
      DropZeros(be32, 32 - |raw|);
      assert be32[32 - |raw|..] == raw;
    } else {
      be32 := seq(32, _ => 255);
    }
  }

  lemma FitsByLength(t: nat)
    ensures IsTarget(t) <==> t == 0 || Len(t) <= 32
  {
    hide Pow, Len;
    if t > 0 {
      LenBounds(t);
      if Len(t) <= 32 {
        PowMonotone(Len(t), 32);
      } else {
        PowMonotone(32, Len(t) - 1);
      }
    }
  }

  /** The encoding of a difficulty's target, through a 32-byte buffer. */
  method DifficultyToNbits(difficulty: Difficulty) returns (nbits: nat)
    ensures nbits == Encode(TargetFor(Scaled(difficulty))).Bits()
  {
    hide *;
    var scaled := Scaled(difficulty);
    var target := TargetFor(scaled);
    ClampIsUnreachable(scaled);
    EncodeFits(target);
    Unwrapped(Encode(target).Bits());
    var be32 := Render32(target);
    nbits := TargetToNbits(be32);
  }

  lemma Unwrapped(bits: nat)
    requires bits < 0x1_0000_0000
    ensures bits % 0x1_0000_0000 == bits
  {
  }

  /** The array-notify path: difficulty to nBits, expanded for the wire and encoded again for the
      job. The job gets exactly the nBits that vardiff reports for the same difficulty. */
  method NotifyNbits(difficulty: Difficulty) returns (jobBits: nat, reported: nat)
    ensures jobBits == reported == Encode(TargetFor(Scaled(difficulty))).Bits()
  {
    hide *;
    reported := DifficultyToNbits(difficulty);
    var t := TargetFor(Scaled(difficulty));
    ClampIsUnreachable(Scaled(difficulty));
    EncodeFits(t);
    ReencodingIsFixed(t);
    var wire := NbitsToTarget(reported);
    jobBits := TargetToNbits(wire);
    Unwrapped(Encode(t).Bits());
  }

  /** An encoding is a 32-bit value whose two fields read back. */
  lemma EncodeFits(t: nat)
    requires IsTarget(t)
    ensures var c := Encode(t);
      c.Bits() < 0x1_0000_0000 && Compact(c.Bits() / 0x100_0000, c.Bits() % 0x100_0000) == c
  {
    if t > 0 {
      TopBounds(t);
      TargetLen(t);
    }
    var c := Encode(t);
    hide Encode, Top, Len;
  }
}
