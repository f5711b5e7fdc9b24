/** The six-byte form of a periodic pattern: what it keeps and what it loses. */
module PatternBytes {
  import opened Digests
  import opened PeriodicPatterns

  /** The low byte of a 32-bit `n - 1`. */
  function LessOne(n: nat): (b: nat)
    ensures b < 256
  {
    (n + 255) % 256
  }

  function Extent(d: Dim): (n: nat) {
    d.stride * d.length
  }

  function Wrap(n: nat): (w: nat)
    ensures w < WORD && (n < WORD ==> w == n)
  {
    n % WORD
  }

  function Times(n: nat, m: nat): (p: nat) {
    n * m
  }

  function Over(n: nat, m: nat): (q: nat)
    requires m > 0
  {
    n / m
  }

  /** Two bytes a dimension, relative to the extent of the one before; none on a division by zero. */
  function Pack(dims: seq<Dim>, least: nat): (data: Option<seq<nat>>)
    ensures data.Some? ==> |data.value| == 2 * |dims|
  {
    if dims == [] then Some([])
    else if least == 0 then None
    else
      var d := dims[0];
      match Pack(dims[1..], Wrap(Extent(d)))
      case None => None
      case Some(rest) => Some([LessOne(Over(d.stride, least)), LessOne(d.length)] + rest)
  }

  /** What a reader of the bytes makes of them. */
  function Unpack(data: seq<nat>, least: nat): (dims: seq<Dim>) {
    if |data| < 2 then []
    else
      var d := Dim(Times(data[0] + 1, least), data[1] + 1);
      [d] + Unpack(data[2..], Extent(d))
  }

  /** Each stride is a multiple, by 1 to 256, of the extent before it; each length is 1 to 256. */
  predicate Fits(dims: seq<Dim>, least: nat) {
    dims == [] ||
    (var d := dims[0];
     least > 0 && DimFits(d, least) && Fits(dims[1..], Extent(d)))
  }

  predicate DimFits(d: Dim, least: nat)
    requires least > 0
  {
    d.stride % least == 0 && 1 <= d.stride / least <= 256 && 1 <= d.length <= 256
  }

  predicate Returns(data: Option<seq<nat>>, least: nat, dims: seq<Dim>) {
    data.Some? && Unpack(data.value, least) == dims
  }

  /** One dimension survives its two bytes exactly when it fits. */
  lemma DimSurvives(d: Dim, least: nat)
    requires least > 0
    ensures d == Dim(Times(LessOne(Over(d.stride, least)) + 1, least), LessOne(d.length) + 1)
       <==> DimFits(d, least)
  {
    ByteSurvives(d.stride / least);
    ByteSurvives(d.length);
    var f := d.stride / least;
    assert d.stride == least * f + d.stride % least;
    FactorDetermines(least, f, LessOne(f) + 1, d.stride % least);
  }

  lemma ByteSurvives(n: nat)
    ensures LessOne(n) + 1 == n <==> 1 <= n <= 256
  {
  }

  lemma {:induction false} MulBeyond(a: nat, b: nat, c: nat)
    requires b < c
    ensures a * b + a <= a * c
    decreases c
  {
    assert a * c == a * (c - 1) + a;
    if b < c - 1 {
      MulBeyond(a, b, c - 1);
    }
  }

  lemma FactorDetermines(least: nat, f: nat, g: nat, r: nat)
    requires r < least
    ensures least * f + r == g * least <==> f == g && r == 0
  {
    if f < g {
      MulBeyond(least, f, g);
    } else if g < f {
      MulBeyond(least, g, f);
    }
  }

  /** The bytes give the dimensions back exactly when every dimension fits; wrapped products and
      divisions by zero are shut out by that too. */
  lemma {:induction false} BytesRoundTrip(dims: seq<Dim>, least: nat)
    requires forall i | 0 <= i < |dims| :: dims[i].stride < WORD
    ensures Returns(Pack(dims, Wrap(least)), least, dims) <==> Fits(dims, least)
  {
    hide *;
    if dims == [] {
      NothingToPack(least);
    } else if least < WORD {
      BytesRoundTrip(dims[1..], Extent(dims[0]));
      HeadRoundTrip(dims, least);
    } else {
      LargeExtent(dims, least);
    }
  }

  lemma NothingToPack(least: nat)
    ensures Returns(Pack([], Wrap(least)), least, []) && Fits([], least)
  {
  }

  lemma HeadRoundTrip(dims: seq<Dim>, least: nat)
    requires dims != [] && least < WORD
    requires
      var extent := Extent(dims[0]);
      Returns(Pack(dims[1..], Wrap(extent)), extent, dims[1..]) <==> Fits(dims[1..], extent)
    ensures Returns(Pack(dims, Wrap(least)), least, dims) <==> Fits(dims, least)
  {
    hide LessOne, Over, Times, Extent, Wrap, DimFits;
    if least > 0 {
      var d := dims[0];
      DimSurvives(d, least);
      var data, rest := Pack(dims, least), Pack(dims[1..], Wrap(Extent(d)));
      if rest.Some? {
        assert data.value[2..] == rest.value;
        var read := Unpack(data.value, least);
        assert read == dims <==> read[0] == d && read[1..] == dims[1..] by {
          assert dims == [d] + dims[1..];
        }
      }
    }
  }

  /** No 32-bit stride reaches an extent of more than 32 bits. */
  lemma LargeExtent(dims: seq<Dim>, least: nat)
    requires dims != [] && least >= WORD && dims[0].stride < WORD
    ensures !Returns(Pack(dims, Wrap(least)), least, dims) && !Fits(dims, least)
  {
    hide LessOne, Over, Extent, Wrap, Times, DimFits;
    var data := Pack(dims, Wrap(least));
    if data.Some? {
      TimesAtLeast(data.value[0] + 1, least);
    }
    TooFar(dims[0], least);
  }

  lemma TimesAtLeast(n: nat, m: nat)
    requires n >= 1
    ensures Times(n, m) >= m
  {
  }

  lemma TooFar(d: Dim, least: nat)
    requires d.stride < least
    ensures !DimFits(d, least)
  {
  }

  method ToBytes(shape: Shape) returns (data: Option<seq<nat>>)
    ensures data == Pack(shape.Dims(), 1)
  {
    hide LessOne, Over, Extent, Wrap;
    var bytes: seq<nat> := [];
    var minStride := 1;
    var dims := shape.Dims();
    PackEnds(dims);
    for i := 0 to 3
      invariant Pack(dims, 1) == Prepend(bytes, Pack(dims[i..], minStride))
    {
      if minStride == 0 {
        return None;
      }
      var d := dims[i];
      PackStep(dims, i, minStride, bytes);
      bytes := bytes + [LessOne(Over(d.stride, minStride)), LessOne(d.length)];
      minStride := Wrap(Extent(d));
    }
    assert bytes + [] == bytes;
    data := Some(bytes);
  }

  lemma PackEnds(dims: seq<Dim>)
    ensures Pack(dims, 1) == Prepend([], Pack(dims[0..], 1))
    ensures forall least :: Pack(dims[|dims|..], least) == Some([])
  {
    assert dims[0..] == dims;
    if Pack(dims, 1).Some? {
      assert [] + Pack(dims, 1).value == Pack(dims, 1).value;
    }
  }

  lemma PackStep(dims: seq<Dim>, i: nat, least: nat, bytes: seq<nat>)
    requires i < |dims| && least > 0
    ensures
      var d := dims[i];
      var more := bytes + [LessOne(Over(d.stride, least)), LessOne(d.length)];
      Prepend(bytes, Pack(dims[i..], least)) == Prepend(more, Pack(dims[i + 1..], Wrap(Extent(d))))
  {
    hide LessOne, Over, Extent, Wrap;
    assert dims[i..][1..] == dims[i + 1..];
    var rest := Pack(dims[i + 1..], Wrap(Extent(dims[i])));
    if rest.Some? {
      var two := [LessOne(Over(dims[i].stride, least)), LessOne(dims[i].length)];
      assert bytes + (two + rest.value) == bytes + two + rest.value;
    }
  }

  ghost function Prepend(bytes: seq<nat>, data: Option<seq<nat>>): (out: Option<seq<nat>>) {
    match data
    case None => None
    case Some(rest) => Some(bytes + rest)
  }

  // ----- when the bytes keep the list -----

  /** A reader of the bytes enumerates the list. */
  ghost predicate Describes(data: Option<seq<nat>>, pattern: seq<nat>) {
    data.Some? && Enumerate(Unpack(data.value, 1)) == pattern
  }

  /** How many indices the dimensions enumerate. */
  function Size(dims: seq<Dim>): (n: nat) {
    if dims == [] then 1 else Times(Size(dims[..|dims| - 1]), dims[|dims| - 1].length)
  }

  lemma {:induction false} EnumerateSize(dims: seq<Dim>)
    ensures |Enumerate(dims)| == Size(dims)
  {
    if dims != [] {
      EnumerateSize(dims[..|dims| - 1]);
    }
  }

  /** The first index of the second copy that dimension i makes is its stride. */
  lemma {:induction false} StrideIsElement(dims: seq<Dim>, i: nat)
    requires AllAtLeast(dims, 1) && i < |dims| && dims[i].length >= 2
    ensures Size(dims[..i]) < |Enumerate(dims)| && Enumerate(dims)[Size(dims[..i])] == dims[i].stride
    decreases |dims|
  {
    var front, d := dims[..|dims| - 1], dims[|dims| - 1];
    var inner := Enumerate(front);
    RepeatStarts(inner, d);
    EnumerateStarts(front);
    EnumerateSize(dims[..i]);
    if i < |front| {
      StrideIsElement(front, i);
      assert front[..i] == dims[..i];
    } else {
      RepeatIsPeriodic(inner, d);
      RepeatSteps(inner, d, 0);
    }
  }

  /** A product grows with its first factor. */
  lemma {:induction false} FirstGrows(x: nat, y: nat, m: nat)
    requires x <= y && m >= 1
    ensures Times(x, m) <= Times(y, m) && (x < y ==> Times(x, m) < Times(y, m))
    decreases y - x
  {
    if x < y {
      FirstGrows(x + 1, y, m);
      assert (x + 1) * m == x * m + m;
    }
  }

  lemma TimesSwaps(x: nat, m: nat)
    ensures Times(x, m) == Times(m, x)
  {
  }

  lemma ProductsAgree(x: nat, y: nat, m: nat, n: nat)
    requires 1 <= x <= y && 1 <= m <= n
    ensures 1 <= Times(x, m) <= Times(y, n)
    ensures Times(x, m) == Times(y, n) ==> x == y && m == n
  {
    hide Times;
    FirstGrows(x, y, m);
    FirstGrows(m, n, y);
    TimesSwaps(m, y);
    TimesSwaps(n, y);
    TimesAtLeast(x, m);
  }

  /** Dimension by dimension no longer, and at least one. */
  ghost predicate NoLonger(a: seq<Dim>, b: seq<Dim>) {
    |a| == |b| && forall i | 0 <= i < |a| :: 1 <= a[i].length <= b[i].length
  }

  /** Lengths that are no longer multiply to the same size only if they are the same. */
  lemma {:induction false} SameSizeSameLengths(a: seq<Dim>, b: seq<Dim>)
    requires NoLonger(a, b)
    ensures 1 <= Size(a) <= Size(b)
    ensures Size(a) == Size(b) ==> forall i | 0 <= i < |a| :: a[i].length == b[i].length
    decreases |a|
  {
    if a != [] {
      var last := |a| - 1;
      SameSizeSameLengths(a[..last], b[..last]);
      hide Size, Times;
      SizeStep(a);
      SizeStep(b);
      ProductsAgree(Size(a[..last]), Size(b[..last]), a[last].length, b[last].length);
      assert forall i | 0 <= i < last :: a[i] == a[..last][i] && b[i] == b[..last][i];
    }
  }

  lemma SizeStep(dims: seq<Dim>)
    requires dims != []
    ensures Size(dims) == Times(Size(dims[..|dims| - 1]), dims[|dims| - 1].length)
  {
  }

  lemma {:induction false} SameLengthsSameSize(a: seq<Dim>, b: seq<Dim>)
    requires |a| == |b| && forall i | 0 <= i < |a| :: a[i].length == b[i].length
    ensures Size(a) == Size(b)
    decreases |a|
  {
    if a != [] {
      SameLengthsSameSize(a[..|a| - 1], b[..|b| - 1]);
    }
  }

  /** Two enumerations of one list, the first with no longer dimensions: they agree on every dimension
      of length two or more. */
  lemma SameListSameDims(a: seq<Dim>, b: seq<Dim>, i: nat)
    requires NoLonger(a, b) && Enumerate(a) == Enumerate(b) && i < |b|
    ensures a[i].length == b[i].length && (b[i].length >= 2 ==> a[i] == b[i])
  {
    EnumerateSize(a);
    EnumerateSize(b);
    SameSizeSameLengths(a, b);
    if b[i].length >= 2 {
      hide Enumerate, Size;
      StrideIsElement(a, i);
      StrideIsElement(b, i);
      SameLengthsSameSize(a[..i], b[..i]);
    }
  }

  lemma LessOneNoMore(n: nat)
    requires n >= 1
    ensures 1 <= LessOne(n) + 1 <= n
  {
  }

  /** What is read back has as many dimensions, none longer than it was. */
  lemma {:induction false} ReadNoLonger(dims: seq<Dim>, w: nat, least: nat)
    requires AllAtLeast(dims, 1) && Pack(dims, w).Some?
    ensures NoLonger(Unpack(Pack(dims, w).value, least), dims)
    decreases |dims|
  {
    if dims != [] {
      hide LessOne, Over, Times, Extent, Wrap;
      var data, d := Pack(dims, w).value, dims[0];
      var rest := Pack(dims[1..], Wrap(Extent(d))).value;
      assert data[2..] == rest;
      var head := Dim(Times(data[0] + 1, least), data[1] + 1);
      ReadNoLonger(dims[1..], Wrap(Extent(d)), Extent(head));
      LessOneNoMore(d.length);
      var read := Unpack(data, least);
      forall i | 0 <= i < |read| ensures 1 <= read[i].length <= dims[i].length {
        assert i > 0 ==> read[i] == read[1..][i - 1] && dims[i] == dims[1..][i - 1];
      }
    }
  }

  /** The first bytes are those of the first dimensions. */
  lemma {:induction false} PackPrefix(dims: seq<Dim>, r: nat, w: nat, least: nat)
    requires r <= |dims| && Pack(dims, w).Some?
    ensures Pack(dims[..r], w).Some?
    ensures |Unpack(Pack(dims, w).value, least)| == |dims|
    ensures Unpack(Pack(dims[..r], w).value, least) == Unpack(Pack(dims, w).value, least)[..r]
    decreases |dims|
  {
    if dims != [] {
      hide LessOne, Over, Times, Extent, Wrap;
      var data, d := Pack(dims, w).value, dims[0];
      var up := Wrap(Extent(d));
      var rest := Pack(dims[1..], up).value;
      assert data[2..] == rest;
      var head := Dim(Times(data[0] + 1, least), data[1] + 1);
      PackPrefix(dims[1..], if r == 0 then 0 else r - 1, up, Extent(head));
      if r > 0 {
        assert dims[..r][1..] == dims[1..][..r - 1];
        var short := Pack(dims[..r], w).value;
        assert short[2..] == Pack(dims[1..][..r - 1], up).value;
        assert Unpack(data, least) == [head] + Unpack(rest, Extent(head));
      }
    }
  }

  /** Peeled dimensions that are read back fit. */
  lemma PeeledDimsFit(dims: seq<Dim>, r: nat)
    requires r <= |dims| && AllAtLeast(dims, 1) && AllAtLeast(dims[..r], 2) && AllWords(dims)
    requires Pack(dims, 1).Some? && Enumerate(Unpack(Pack(dims, 1).value, 1)) == Enumerate(dims)
    ensures Fits(dims[..r], 1)
  {
    var peeled, read := dims[..r], Unpack(Pack(dims, 1).value, 1);
    ReadNoLonger(dims, 1, 1);
    PackPrefix(dims, r, 1, 1);
    hide Pack, Unpack, Enumerate, Fits;
    forall i | 0 <= i < r ensures read[i] == peeled[i] {
      assert peeled[i].length >= 2;
      SameListSameDims(read, dims, i);
    }
    assert read[..r] == peeled;
    BytesRoundTrip(peeled, 1);
  }

  ghost predicate AllWords(dims: seq<Dim>) {
    forall i | 0 <= i < |dims| :: dims[i].stride < WORD
  }

  // ----- the padding -----

  /** What the dimensions reach, or `least` when there are none. */
  function Reach(dims: seq<Dim>, least: nat): (n: nat) {
    if dims == [] then least else Extent(dims[|dims| - 1])
  }

  /** One dimension more fits exactly when it fits what the others reach. */
  lemma {:induction false} FitsMore(dims: seq<Dim>, d: Dim, least: nat)
    requires Fits(dims, least)
    ensures Fits(dims + [d], least) <==> Reach(dims, least) > 0 && DimFits(d, Reach(dims, least))
    decreases |dims|
  {
    hide Extent, DimFits;
    if dims != [] {
      FitsMore(dims[1..], d, Extent(dims[0]));
      assert (dims + [d])[1..] == dims[1..] + [d];
      assert Reach(dims[1..], Extent(dims[0])) == Reach(dims, least);
    } else {
      assert ([d])[1..] == [];
    }
  }

  lemma FittingExtent(d: Dim, least: nat)
    requires least > 0 && DimFits(d, least)
    ensures 0 < Extent(d) <= 0x1_0000 * least
  {
    var f := d.stride / least;
    assert d.stride == least * f;
    MulBounds(least, f);
    MulBounds(d.stride, d.length);
    assert d.stride >= 1;
  }

  lemma MulBounds(a: nat, b: nat)
    requires 1 <= b <= 256
    ensures a <= a * b <= 256 * a
  {
  }

  /** Two dimensions that fit reach at most 2^32. */
  lemma FittingReach(dims: seq<Dim>)
    requires Fits(dims, 1) && 1 <= |dims| <= 2
    ensures 0 < Reach(dims, 1) <= WORD
  {
    hide Extent, DimFits;
    FittingExtent(dims[0], 1);
    if |dims| == 2 {
      assert dims[1..] == [dims[1]];
      FittingExtent(dims[1], Extent(dims[0]));
    }
  }

  lemma PackFirst(dims: seq<Dim>, w: nat)
    requires dims != [] && Pack(dims, w).Some?
    ensures Pack(dims[1..], Wrap(Extent(dims[0]))).Some?
  {
    hide LessOne, Over, Extent, Wrap;
  }

  /** The wrapped extent before a packed dimension is not zero. */
  lemma {:induction false} PackedReach(dims: seq<Dim>, i: nat, w: nat)
    requires 0 < i < |dims| && Pack(dims, w).Some?
    ensures Wrap(Extent(dims[i - 1])) != 0
    decreases i
  {
    hide LessOne, Over, Extent, Wrap;
    PackFirst(dims, w);
    if i > 1 {
      PackedReach(dims[1..], i - 1, Wrap(Extent(dims[0])));
    }
  }

  /** A padding dimension fits after what it was made from, and reaches no further. */
  lemma PadFits(n: nat)
    requires n > 0
    ensures DimFits(Dim(n, 1), n) && Extent(Dim(n, 1)) == n
  {
  }

  lemma PadMore(dims: seq<Dim>, n: nat)
    requires Fits(dims, 1) && n == Reach(dims, 1) > 0
    ensures Fits(dims + [Dim(n, 1)], 1) && Reach(dims + [Dim(n, 1)], 1) == n
  {
    hide Extent, DimFits, Fits;
    PadFits(n);
    FitsMore(dims, Dim(n, 1), 1);
  }

  /** When the peeled dimensions fit, the padding fits too, or its extent has wrapped to zero and there
      are no bytes. */
  lemma PaddingFits(peeled: seq<Dim>)
    requires Fits(peeled, 1) && |peeled| <= 2 && Pack(Padded(peeled), 1).Some?
    ensures Fits(Padded(peeled), 1)
  {
    hide Fits, Pack, DimFits, Wrap;
    var n := Trailing(peeled);
    if peeled != [] {
      FittingReach(peeled);
      PackedReach(Padded(peeled), |peeled|, 1);
      assert Wrap(Extent(peeled[|peeled| - 1])) == n by { TrailingIs(peeled); }
      WrapIs(Reach(peeled, 1));
    }
    hide Extent, Trailing;
    assert n == Reach(peeled, 1) > 0;
    var t := Dim(n, 1);
    PadMore(peeled, n);
    var one := peeled + [t];
    PadMore(one, n);
    var two := one + [t];
    if |peeled| == 1 {
      assert Padded(peeled) == two;
    } else if peeled == [] {
      PadMore(two, n);
      assert Padded(peeled) == two + [t];
    }
  }

  lemma TrailingIs(peeled: seq<Dim>)
    requires peeled != []
    ensures Trailing(peeled) == Wrap(Extent(peeled[|peeled| - 1]))
  {
  }

  lemma WrapIs(n: nat)
    requires 0 < n <= WORD && Wrap(n) != 0
    ensures Wrap(n) == n
  {
  }

  // ----- the shape of an accepted list -----

  lemma PeeledWords(pattern: seq<nat>, peeled: seq<Dim>)
    requires Valid(pattern) && PeeledTo(pattern, peeled)
    ensures AllAtLeast(peeled, 2) && AllWords(peeled) && Shapes(pattern, peeled)
  {
    PeeledShapes(pattern, peeled);
    hide PeeledTo, Shapes;
    forall i | 0 <= i < |peeled| ensures peeled[i].stride < WORD {
      var at :| 0 <= at < |pattern| && pattern[at] == peeled[i].stride;
    }
  }

  lemma PaddedWords(peeled: seq<Dim>)
    requires AllAtLeast(peeled, 2) && AllWords(peeled)
    ensures var dims := Padded(peeled)[..3]; AllAtLeast(dims, 1) && AllWords(dims)
  {
    TrailingIsWord(peeled);
    hide Trailing;
  }

  lemma TrailingIsWord(peeled: seq<Dim>)
    ensures Trailing(peeled) < WORD
  {
  }

  /** What peeling and padding make of an accepted list. */
  lemma InferredIs(pattern: seq<nat>, peeled: seq<Dim>)
    requires Valid(pattern) && PeeledTo(pattern, peeled)
    ensures var dims := Padded(peeled)[..3];
      && AllAtLeast(dims, 1) && AllWords(dims) && AllAtLeast(peeled, 2)
      && (HasShape(pattern, 3) ==> |peeled| <= 3 && Enumerate(dims) == pattern)
  {
    hide *;
    PeeledWords(pattern, peeled);
    PaddedWords(peeled);
    if HasShape(pattern, 3) {
      HasShapePeels(pattern, 3);
      PeeledIsFewest(pattern, peeled, 3);
      PaddedShapes(pattern, peeled);
      ShapesOfThree(pattern, peeled);
    }
  }

  lemma ShapesOfThree(pattern: seq<nat>, peeled: seq<Dim>)
    requires |peeled| <= 3 && Shapes(pattern, Padded(peeled))
    ensures Enumerate(Padded(peeled)[..3]) == pattern
  {
    hide Enumerate, Trailing;
    assert Padded(peeled)[..3] == Padded(peeled);
  }

  /** Three dimensions that enumerate the list are a shape of it. */
  lemma ReadIsShape(dims: seq<Dim>, pattern: seq<nat>)
    requires |dims| == 3 && AllAtLeast(dims, 1) && Describes(Pack(dims, 1), pattern)
    ensures HasShape(pattern, 3)
  {
    ReadNoLonger(dims, 1, 1);
    hide Pack, Unpack, Enumerate;
    assert Shapes(pattern, Unpack(Pack(dims, 1).value, 1));
  }

  lemma DescribesIs(dims: seq<Dim>, pattern: seq<nat>)
    ensures Describes(Pack(dims, 1), pattern) <==>
      Pack(dims, 1).Some? && Enumerate(Unpack(Pack(dims, 1).value, 1)) == pattern
    ensures Returns(Pack(dims, 1), 1, dims) && Enumerate(dims) == pattern ==> Describes(Pack(dims, 1), pattern)
    ensures Wrap(1) == 1 && (AllWords(dims) ==> forall i | 0 <= i < |dims| :: dims[i].stride < WORD)
  {
    hide Pack, Unpack, Enumerate;
  }

  lemma FewDims(peeled: seq<Dim>)
    requires |peeled| <= 3
    ensures Padded(peeled)[..3] == Padded(peeled) && Padded(peeled)[..|peeled|] == peeled
    ensures |peeled| == 3 ==> Padded(peeled) == peeled
  {
    hide Trailing;
  }

  /** Bytes that describe the list are those of dimensions that fit. */
  lemma DescribedFits(pattern: seq<nat>, peeled: seq<Dim>)
    requires Valid(pattern) && PeeledTo(pattern, peeled) && Describes(Pack(Padded(peeled)[..3], 1), pattern)
    ensures HasShape(pattern, 3) && Fits(Padded(peeled)[..3], 1)
  {
    hide *;
    var dims := Padded(peeled)[..3];
    InferredIs(pattern, peeled);
    ReadIsShape(dims, pattern);
    FewDims(peeled);
    DescribesIs(dims, pattern);
    PeeledDimsFit(dims, |peeled|);
    if |peeled| < 3 {
      PaddingFits(peeled);
    }
  }

  /** For every list the inference accepts, the bytes of the shape it returns describe that list exactly
      when three dimensions can and the three returned fit their bytes. */
  lemma BytesKeepTheListExactly(pattern: seq<nat>, shape: Shape)
    requires Valid(pattern) && Infers(pattern, shape)
    ensures Describes(Pack(shape.Dims(), 1), pattern) <==> HasShape(pattern, 3) && Fits(shape.Dims(), 1)
  {
    var peeled: seq<Dim> :| PeeledTo(pattern, peeled) && shape.Dims() == Padded(peeled)[..3];
    hide *;
    var dims := Padded(peeled)[..3];
    InferredIs(pattern, peeled);
    DescribesIs(dims, pattern);
    BytesRoundTrip(dims, 1);
    if Describes(Pack(dims, 1), pattern) {
      DescribedFits(pattern, peeled);
    }
  }

  /** The inference and the bytes, as a configuration is made and written. */
  method IndicesToBytes(pattern: seq<nat>) returns (r: Outcome, data: Option<seq<nat>>)
    requires forall i | 0 <= i < |pattern| :: pattern[i] < WORD
    ensures r.Found? <==> Valid(pattern) && exists k: nat :: HasShape(pattern, k)
    ensures Describes(data, pattern) <==> r.Found? && HasShape(pattern, 3) && Fits(r.shape.Dims(), 1)
  {
    r := FromIndices(pattern);
    data := None;
    hide HasShape, Enumerate, Infers, Pack, Unpack, Fits;
    if r.Found? {
      data := ToBytes(r.shape);
      BytesKeepTheListExactly(pattern, r.shape);
    }
  }

  // ----- a list the bytes change -----

  const SHAPED: seq<Dim> := [Dim(1, 2), Dim(3, 2), Dim(6, 1)]
  const READ: seq<Dim> := [Dim(1, 2), Dim(2, 2), Dim(4, 1)]

  /** Dimensions that do not fit, and the bytes the code gives them. */
  lemma BytesOfShaped()
    ensures !Fits(SHAPED, 1)
    ensures Pack(SHAPED, 1).Some? && Pack(SHAPED, 1).value == [0, 1, 0, 1, 0, 0]
  {
    assert SHAPED[1..] == [Dim(3, 2), Dim(6, 1)];
    assert SHAPED[1..][1..] == [Dim(6, 1)];
    assert Pack([Dim(6, 1)], 6).value == [0, 0];
    assert Pack(SHAPED[1..], 2).value == [0, 1, 0, 0];
  }

  lemma ReadBytes()
    ensures Unpack([0, 1, 0, 1, 0, 0], 1) == READ
  {
    var data: seq<nat> := [0, 1, 0, 1, 0, 0];
    assert data[2..] == [0, 1, 0, 0];
    assert data[2..][2..] == [0, 0];
    assert Unpack([0, 0], 4) == [Dim(4, 1)];
    assert Unpack([0, 1, 0, 0], 2) == [Dim(2, 2), Dim(4, 1)];
  }

  lemma EnumerateThree(a: Dim, b: Dim, c: Dim)
    requires a == Dim(1, 2) && b.length == 2 && c.length == 1
    ensures Enumerate([a, b, c]) == [0, 1, b.stride, b.stride + 1]
  {
    var dims := [a, b, c];
    assert dims[..2] == [a, b] && dims[..2][..1] == [a] && dims[..2][..1][..0] == [];
    assert Enumerate([a]) == [0, 1];
    assert Repeat([0, 1], b) == [0, 1] + Shifted([0, 1], b.stride) by {
      assert Repeat([0, 1], Dim(b.stride, 1)) == [0, 1];
    }
    assert Enumerate([a, b]) == [0, 1, b.stride, b.stride + 1];
    RepeatStarts(Enumerate([a, b]), c);
  }

  const LIST: seq<nat> := [0, 1, 3, 4]

  lemma PairPeriod()
    ensures Valid([0, 1]) && IsSmallestPeriod([0, 1], 1)
  {
    assert IsPeriod([0, 1], 1);
  }

  lemma NothingToPeel(x: nat)
    ensures PeeledTo([x], [])
  {
  }

  lemma PairPeels()
    ensures Valid([0, 1]) && PeeledTo([0, 1], [Dim(1, 2)])
  {
    hide *;
    var pair: seq<nat> := [0, 1];
    PairPeriod();
    assert pair[..1] == [0];
    NothingToPeel(0);
    PeeledMore(pair, 1, []);
    assert [] + [Dim(1, 2)] == [Dim(1, 2)];
  }

  lemma ListPeriod()
    ensures Valid(LIST) && IsSmallestPeriod(LIST, 2)
  {
    assert LIST[1] + LIST[1] != LIST[1 + 1];
    assert !IsPeriod(LIST, 1);
    assert IsPeriod(LIST, 2);
  }

  /** Peeling 0, 1, 3, 4 takes off two dimensions, and only those. */
  lemma PeeledList(dims: seq<Dim>)
    ensures Valid(LIST) && (PeeledTo(LIST, dims) <==> dims == SHAPED[..2])
  {
    hide PeeledTo, IsSmallestPeriod, Valid;
    PairPeels();
    ListPeriod();
    assert LIST[..2] == [0, 1];
    PeeledMore(LIST, 2, [Dim(1, 2)]);
    assert SHAPED[..2] == [Dim(1, 2)] + [Dim(3, 2)];
    if PeeledTo(LIST, dims) {
      PeelingIsUnique(LIST, dims, SHAPED[..2]);
    }
  }

  lemma PaddedShaped()
    ensures Padded(SHAPED[..2])[..3] == SHAPED
  {
    assert SHAPED[..2] == [Dim(1, 2), Dim(3, 2)];
  }

  /** The shape the inference returns for the list 0, 1, 3, 4 enumerates it, and its bytes describe
      another list. */
  lemma BytesMayChangeTheList(shape: Shape)
    ensures Valid(LIST) && (Infers(LIST, shape) <==> shape.Dims() == SHAPED)
    ensures Enumerate(SHAPED) == LIST && Pack(SHAPED, 1).Some?
    ensures Enumerate(Unpack(Pack(SHAPED, 1).value, 1)) == [0, 1, 2, 3]
  {
    hide Pack, Unpack, Enumerate, PeeledTo, Padded, Valid;
    BytesOfShaped();
    ReadBytes();
    EnumerateThree(Dim(1, 2), Dim(3, 2), Dim(6, 1));
    EnumerateThree(Dim(1, 2), Dim(2, 2), Dim(4, 1));
    PaddedShaped();
    PeeledList(SHAPED[..2]);
    if Infers(LIST, shape) {
      var dims :| PeeledTo(LIST, dims) && shape.Dims() == Padded(dims)[..3];
      PeeledList(dims);
    }
  }
}
