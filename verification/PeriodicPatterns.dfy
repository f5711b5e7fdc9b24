/** Periodic index patterns: inferring a shape from an index list. */
module PeriodicPatterns {

  const WORD: nat := 0x1_0000_0000

  datatype Dim = Dim(stride: nat, length: nat)

  /** Innermost dimension first. */
  datatype Shape = Shape(d0: Dim, d1: Dim, d2: Dim) {
    function Dims(): (d: seq<Dim>)
      ensures |d| == 3
    {
      [d0, d1, d2]
    }
  }

  // ----- what a shape enumerates -----

  /** `inner` repeated `length` times, each copy shifted by one more stride. */
  function Repeat(inner: seq<nat>, d: Dim): (out: seq<nat>)
    ensures |out| == |inner| * d.length
    decreases d.length
  {
    if d.length == 0 then []
    else
      MulStep(|inner|, d.length);
      Repeat(inner, Dim(d.stride, d.length - 1)) + Shifted(inner, (d.length - 1) * d.stride)
  }

  lemma MulStep(a: nat, b: nat)
    requires b > 0
    ensures a * b == a * (b - 1) + a
  {
  }

  function Shifted(s: seq<nat>, shift: nat): (out: seq<nat>)
    ensures |out| == |s|
  {
    seq(|s|, i requires 0 <= i < |s| => s[i] + shift)
  }

  /** The index list of a list of dimensions, innermost first. */
  function Enumerate(dims: seq<Dim>): (out: seq<nat>) {
    if dims == [] then [0] else Repeat(Enumerate(dims[..|dims| - 1]), dims[|dims| - 1])
  }

  // ----- periods -----

  /** The code's test, in 32-bit arithmetic. */
  predicate PeriodicWrapped(p: seq<nat>, period: nat, s: nat)
    requires period < |p|
  {
    forall i | 0 <= i < |p| - period :: (p[i] + s) % WORD == p[i + period]
  }

  predicate Periodic(p: seq<nat>, period: nat, s: nat)
    requires period <= |p|
  {
    forall i | 0 <= i < |p| - period :: p[i] + s == p[i + period]
  }

  ghost predicate Increasing(p: seq<nat>) {
    forall i, j | 0 <= i < j < |p| :: p[i] < p[j]
  }

  /** A list the code accepts: increasing 32-bit values from zero. */
  ghost predicate Valid(p: seq<nat>) {
    p != [] && p[0] == 0 && Increasing(p) && forall i | 0 <= i < |p| :: p[i] < WORD
  }

  /** A sum that wrapped would be smaller than what it started from, so on an increasing list the
      wrapped test is the plain one. */
  lemma WrappedTestIsExact(p: seq<nat>, period: nat, s: nat)
    requires Valid(p) && 0 < period < |p| && s < WORD
    ensures PeriodicWrapped(p, period, s) <==> Periodic(p, period, s)
  {
    if PeriodicWrapped(p, period, s) {
      forall i | 0 <= i < |p| - period ensures p[i] + s == p[i + period] {
        assert (p[i] + s) % WORD == p[i + period];
        assert p[i] < p[i + period];
      }
    }
    if Periodic(p, period, s) {
      forall i | 0 <= i < |p| - period ensures (p[i] + s) % WORD == p[i + period] {
        assert p[i] + s == p[i + period];
      }
    }
  }

  lemma RepeatOnce(p: seq<nat>, s: nat)
    ensures Repeat(p, Dim(s, 1)) == p
  {
    assert Repeat(p, Dim(s, 0)) == [];
    assert Shifted(p, 0) == p;
  }

  lemma RepeatMore(p: seq<nat>, s: nat, n: nat)
    requires n > 0
    ensures Repeat(p, Dim(s, n)) == Repeat(p, Dim(s, n - 1)) + Shifted(p, (n - 1) * s)
  {
  }

  lemma LastPeriod(p: seq<nat>, period: nat, s: nat, n: nat)
    requires 0 < period <= |p| && |p| == period * n && n > 0 && Periodic(p, period, s)
    ensures p[|p| - period..] == Shifted(p[..period], (n - 1) * s)
  {
    hide Periodic;
    MulStep(period, n);
    forall i | 0 <= i < period
      ensures p[|p| - period + i] == p[i] + (n - 1) * s
    {
      PeriodsAddUp(p, period, s, i, n - 1);
    }
  }

  /** A periodic list is its first period repeated. */
  lemma {:induction false} PeriodicIsRepeat(p: seq<nat>, period: nat, s: nat, n: nat)
    requires 0 < period <= |p| && |p| == period * n && Periodic(p, period, s)
    ensures p == Repeat(p[..period], Dim(s, n))
    decreases n
  {
    if n == 1 {
      assert p[..period] == p;
      RepeatOnce(p, s);
    } else if n > 1 {
      MulStep(period, n);
      var k := |p| - period;
      var front := p[..k];
      MulAtLeast(period, n - 1);
      PeriodicIsRepeat(front, period, s, n - 1);
      hide Repeat;
      assert front[..period] == p[..period];
      LastPeriod(p, period, s, n);
      RepeatMore(p[..period], s, n);
      assert p == front + p[k..];
    }
  }

  lemma MulAtLeast(a: nat, b: int)
    ensures b >= 1 ==> a <= a * b
    ensures b <= 0 ==> a * b <= 0
  {
  }

  lemma {:induction false} PeriodsAddUp(p: seq<nat>, period: nat, s: nat, i: nat, m: nat)
    requires 0 < period <= |p| && Periodic(p, period, s) && i + period * m < |p|
    ensures 0 <= period * m && p[i + period * m] == p[i] + m * s
    decreases m
  {
    if m > 0 {
      MulStep(period, m);
      MulStep(s, m);
      PeriodsAddUp(p, period, s, i, m - 1);
      var at := i + period * (m - 1);
      assert p[at] + s == p[at + period];
    }
  }

  // ----- one common period -----

  /** Some proper divisor of the length is a period. */
  ghost predicate HasPeriod(p: seq<nat>) {
    exists period | 0 < period < |p| :: IsPeriod(p, period)
  }

  predicate IsPeriod(p: seq<nat>, period: nat)
    requires 0 < period < |p|
  {
    |p| % period == 0 && Periodic(p, period, p[period])
  }

  ghost predicate IsSmallestPeriod(p: seq<nat>, period: nat)
    requires 0 < period < |p|
  {
    IsPeriod(p, period) && forall j | 0 < j < period :: !IsPeriod(p, j)
  }

  /** Two periods that fit in the list together differ by a period. */
  lemma PeriodsSubtract(p: seq<nat>, a: nat, b: nat)
    requires 0 < a < b && a + b <= |p| && p[0] == 0
    requires Periodic(p, a, p[a]) && Periodic(p, b, p[b])
    ensures Periodic(p, b - a, p[b - a])
  {
    assert p[b - a] + p[a] == p[b - a + a];
    forall i | 0 <= i < |p| - (b - a) ensures p[i] + p[b - a] == p[i + (b - a)] {
      if i >= a {
        assert p[i - a] + p[a] == p[i - a + a];
        assert p[i - a] + p[b] == p[i - a + b];
      } else {
        assert p[i] + p[b] == p[i + b];
        assert p[i + b - a] + p[a] == p[i + b - a + a];
      }
    }
  }

  /** Two such periods have a common divisor that is a period. */
  lemma {:induction false} CommonPeriod(p: seq<nat>, a: nat, b: nat) returns (g: nat)
    requires 0 < a && 0 < b && a + b <= |p| && p[0] == 0
    requires Periodic(p, a, p[a]) && Periodic(p, b, p[b])
    ensures 0 < g <= a && g <= b && a % g == 0 && b % g == 0 && Periodic(p, g, p[g])
    decreases a + b
  {
    hide Periodic;
    if a == b {
      g := a;
    } else if a < b {
      PeriodsSubtract(p, a, b);
      g := CommonPeriod(p, a, b - a);
      ModAdds(a, b - a, g);
    } else {
      PeriodsSubtract(p, b, a);
      g := CommonPeriod(p, a - b, b);
      ModAdds(a - b, b, g);
    }
  }

  lemma ModAdds(a: nat, b: nat, g: nat)
    requires g > 0 && a % g == 0 && b % g == 0
    ensures (a + b) % g == 0
  {
    var x, y := a / g, b / g;
    assert a + b == g * (x + y);
    MultipleMod(g, x + y);
  }

  lemma MultipleMod(g: nat, n: nat)
    requires g > 0
    ensures (g * n) % g == 0
  {
    var q, r := (g * n) / g, (g * n) % g;
    assert g * n == g * q + r;
    assert g * (n - q) == r;
    MulAtLeast(g, n - q);
  }

  /** Divisibility is transitive. */
  lemma ModChain(n: nat, m: nat, g: nat)
    requires g > 0 && m > 0 && n % m == 0 && m % g == 0
    ensures n % g == 0
  {
    var x, y := n / m, m / g;
    assert n == m * x && m == g * y;
    assert g * y * x == g * (y * x);
    MultipleMod(g, y * x);
  }

  // ----- greedy peeling is as good as any -----

  /** Cutting the list down to a period, again and again, reaches one element within `k` cuts. */
  ghost predicate Peels(p: seq<nat>, k: nat)
    decreases k
  {
    |p| == 1 || (k > 0 && exists q | 0 < q < |p| :: PeelsBy(p, q, k))
  }

  ghost predicate PeelsBy(p: seq<nat>, q: nat, k: nat)
    requires k > 0 && 0 < q < |p|
    decreases k, 0
  {
    IsPeriod(p, q) && Peels(p[..q], k - 1)
  }

  lemma {:induction false} PeelsLonger(p: seq<nat>, k: nat)
    requires Peels(p, k)
    ensures Peels(p, k + 1)
    decreases k
  {
    if |p| != 1 {
      var q :| 0 < q < |p| && PeelsBy(p, q, k);
      PeelsLonger(p[..q], k - 1);
      assert PeelsBy(p, q, k + 1);
    }
  }

  /** A period dividing another extends from one stretch of the list to all of it. */
  lemma {:induction false} PeriodExtends(p: seq<nat>, g: nat, q: nat, i: nat)
    requires 0 < g <= q && 2 * q <= |p| && Periodic(p, q, p[q])
    requires Periodic(p[..2 * q], g, p[g])
    requires i + g < |p|
    ensures p[i] + p[g] == p[i + g]
    decreases i
  {
    if i < q {
      assert p[..2 * q][i] + p[g] == p[..2 * q][i + g];
    } else {
      PeriodExtends(p, g, q, i - q);
      assert p[i - q] + p[q] == p[i - q + q];
      assert p[i - q + g] + p[q] == p[i - q + g + q];
    }
  }

  lemma PeriodicPrefix(p: seq<nat>, n: nat, q: nat)
    requires 0 < q < n <= |p| && Periodic(p, q, p[q])
    ensures Periodic(p[..n], q, p[..n][q])
  {
    forall i | 0 <= i < n - q ensures p[..n][i] + p[q] == p[..n][i + q] {
      assert p[i] + p[q] == p[i + q];
    }
  }

  /** The smallest period divides every other. */
  lemma SmallestDivides(p: seq<nat>, q: nat, big: nat)
    requires Valid(p) && 0 < q < |p| && 0 < big < |p|
    requires IsSmallestPeriod(p, q) && IsPeriod(p, big)
    ensures q <= big && big % q == 0
  {
    hide Periodic, Valid;
    assert p[0] == 0 by { ValidStart(p); }
    DivExact(|p|, q);
    DivExact(|p|, big);
    HalfFits(|p|, q);
    HalfFits(|p|, big);
    var g := CommonPeriod(p, q, big);
    ModChain(|p|, q, g);
    assert IsPeriod(p, g);
  }

  lemma ValidStart(p: seq<nat>)
    requires Valid(p)
    ensures p != [] && p[0] == 0
  {
  }

  lemma DivExact(n: nat, m: nat)
    requires 0 < m < n && n % m == 0
    ensures n == m * (n / m) && n / m >= 2
  {
  }

  lemma HalfFits(n: nat, m: nat)
    requires 0 < m < n && n % m == 0
    ensures 2 * m <= n
  {
    DivExact(n, m);
  }

  /** A period of a stretch that the list's own period divides yields one of the list, no larger. */
  lemma PrefixPeriodSpreads(p: seq<nat>, q: nat, big: nat, j: nat) returns (g: nat)
    requires Valid(p) && 0 < j < q < big < |p|
    requires IsPeriod(p, q) && big % q == 0 && IsPeriod(p[..big], j)
    ensures 0 < g <= j && IsPeriod(p, g)
  {
    hide Periodic, Valid;
    ValidStart(p);
    PeriodicPrefix(p, big, q);
    HalfFits(|p|, q);
    HalfFits(big, q);
    g := CommonPeriod(p[..big], j, q);
    ModChain(|p|, q, g);
    PeriodicPrefix(p[..big], 2 * q, g);
    assert p[..big][..2 * q] == p[..2 * q];
    ExtendsToAll(p, g, q);
  }

  /** The smallest period of the list is the smallest period of any longer period's stretch. */
  lemma SmallestOfPrefix(p: seq<nat>, q: nat, big: nat)
    requires Valid(p) && 0 < q < big < |p|
    requires IsSmallestPeriod(p, q) && IsPeriod(p, big)
    ensures IsSmallestPeriod(p[..big], q)
  {
    hide Periodic, Valid;
    SmallestDivides(p, q, big);
    PeriodicPrefix(p, big, q);
    forall j | 0 < j < q ensures !IsPeriod(p[..big], j) {
      if IsPeriod(p[..big], j) {
        var g := PrefixPeriodSpreads(p, q, big, j);
      }
    }
  }

  lemma ExtendsToAll(p: seq<nat>, g: nat, q: nat)
    requires 0 < g <= q && 2 * q <= |p| && Periodic(p, q, p[q])
    requires Periodic(p[..2 * q], g, p[g])
    ensures Periodic(p, g, p[g])
  {
    forall i | 0 <= i < |p| - g ensures p[i] + p[g] == p[i + g] {
      PeriodExtends(p, g, q, i);
    }
  }

  /** Cutting at the smallest period never costs a cut. */
  lemma {:induction false} GreedyIsBest(p: seq<nat>, q: nat, k: nat)
    requires Valid(p) && 0 < q < |p| && IsSmallestPeriod(p, q) && Peels(p, k)
    ensures k > 0 && Peels(p[..q], k - 1)
    decreases k
  {
    hide IsPeriod, Valid, IsSmallestPeriod;
    var big :| 0 < big < |p| && PeelsBy(p, big, k);
    SmallestIsLeast(p, q, big);
    if q < big {
      SmallestOfPrefix(p, q, big);
      ValidPrefix(p, big);
      GreedyIsBest(p[..big], q, k - 1);
      assert p[..big][..q] == p[..q];
      PeelsLonger(p[..q], k - 2);
    }
  }

  lemma SmallestIsLeast(p: seq<nat>, q: nat, big: nat)
    requires 0 < q < |p| && 0 < big < |p| && IsSmallestPeriod(p, q) && IsPeriod(p, big)
    ensures q <= big
  {
  }

  lemma ValidPrefix(p: seq<nat>, n: nat)
    requires Valid(p) && 0 < n <= |p|
    ensures Valid(p[..n])
  {
  }

  // ----- shapes peel -----

  ghost predicate AllAtLeast(dims: seq<Dim>, n: nat) {
    forall i | 0 <= i < |dims| :: dims[i].length >= n
  }

  /** `k` dimensions or fewer enumerate the list. */
  ghost predicate HasShape(p: seq<nat>, k: nat) {
    exists dims: seq<Dim> :: Shapes(p, dims) && |dims| <= k
  }

  ghost predicate Shapes(p: seq<nat>, dims: seq<Dim>) {
    AllAtLeast(dims, 1) && Enumerate(dims) == p
  }

  /** Where a repetition's element comes from. */
  lemma {:induction false} RepeatSteps(inner: seq<nat>, d: Dim, i: nat)
    requires i + |inner| < |inner| * d.length
    ensures Repeat(inner, d)[i] + d.stride == Repeat(inner, d)[i + |inner|]
    decreases d.length
  {
    var less := Dim(d.stride, d.length - 1);
    MulStep(|inner|, d.length);
    if i + |inner| < |inner| * (d.length - 1) {
      RepeatSteps(inner, less, i);
    } else {
      RepeatTail(inner, less, i);
      MulStep(d.stride, d.length - 1);
    }
  }

  /** The last copy. */
  lemma RepeatTail(inner: seq<nat>, d: Dim, i: nat)
    requires d.length > 0 && |inner| * d.length <= i + |inner| < |inner| * d.length + |inner|
    ensures i < |inner| * d.length
    ensures Repeat(inner, d)[i] == inner[i + |inner| - |inner| * d.length] + (d.length - 1) * d.stride
  {
    MulStep(|inner|, d.length);
  }

  lemma RepeatIsPeriodic(inner: seq<nat>, d: Dim)
    requires inner != [] && d.length >= 2 && inner[0] == 0
    ensures |Repeat(inner, d)| > |inner| && IsPeriod(Repeat(inner, d), |inner|)
    ensures Repeat(inner, d)[..|inner|] == inner
  {
    var p := Repeat(inner, d);
    MulStep(|inner|, d.length);
    MulAtLeast(|inner|, d.length - 1);
    MultipleMod(|inner|, d.length);
    RepeatStarts(inner, d);
    RepeatSteps(inner, d, 0);
    forall i | 0 <= i < |p| - |inner| ensures p[i] + p[|inner|] == p[i + |inner|] {
      RepeatSteps(inner, d, i);
    }
  }

  lemma {:induction false} RepeatStarts(inner: seq<nat>, d: Dim)
    requires d.length >= 1
    ensures |inner| <= |Repeat(inner, d)| && Repeat(inner, d)[..|inner|] == inner
    decreases d.length
  {
    MulAtLeast(|inner|, d.length);
    if d.length == 1 {
      assert Shifted(inner, 0) == inner;
      assert Repeat(inner, Dim(d.stride, 0)) == [];
    } else {
      RepeatStarts(inner, Dim(d.stride, d.length - 1));
    }
  }

  lemma {:induction false} EnumerateStarts(dims: seq<Dim>)
    requires AllAtLeast(dims, 1)
    ensures Enumerate(dims) != [] && Enumerate(dims)[0] == 0
  {
    if dims != [] {
      var inner := dims[..|dims| - 1];
      EnumerateStarts(inner);
      RepeatStarts(Enumerate(inner), dims[|dims| - 1]);
      var p := Enumerate(dims);
      assert p[..|Enumerate(inner)|][0] == p[0];
    }
  }

  /** A list enumerated by `k` dimensions peels in `k` cuts: a dimension of length one costs none. */
  lemma {:induction false} ShapesPeel(dims: seq<Dim>)
    requires AllAtLeast(dims, 1)
    ensures Peels(Enumerate(dims), |dims|)
  {
    if dims != [] {
      var front, d := dims[..|dims| - 1], dims[|dims| - 1];
      ShapesPeel(front);
      EnumerateStarts(front);
      var inner := Enumerate(front);
      if d.length == 1 {
        RepeatStarts(inner, d);
        assert Repeat(inner, d) == inner;
        PeelsLonger(inner, |front|);
      } else {
        RepeatIsPeriodic(inner, d);
        assert PeelsBy(Repeat(inner, d), |inner|, |dims|);
      }
    }
  }

  lemma {:induction false} PeelsAtLeast(p: seq<nat>, k: nat, m: nat)
    requires Peels(p, k) && k <= m
    ensures Peels(p, m)
    decreases m
  {
    if k < m {
      PeelsAtLeast(p, k, m - 1);
      PeelsLonger(p, m - 1);
    }
  }

  lemma HasShapePeels(p: seq<nat>, k: nat)
    requires HasShape(p, k)
    ensures Peels(p, k)
  {
    var dims :| Shapes(p, dims) && |dims| <= k;
    ShapesPeel(dims);
    PeelsAtLeast(p, |dims|, k);
  }

  // ----- the inference -----

  datatype Outcome = Found(shape: Shape) | Empty | NotSorted | NotFromZero | NotPeriodic

  method TestPeriod(p: seq<nat>, period: nat) returns (isPeriodic: bool)
    requires Valid(p) && 0 < period < |p|
    ensures isPeriodic <==> Periodic(p, period, p[period])
  {
    hide Valid, Periodic;
    var s := p[period];
    isPeriodic := true;
    for i := 0 to |p| - period
      invariant isPeriodic
      invariant forall j | 0 <= j < i :: (p[j] + s) % WORD == p[j + period]
    {
      if (p[i] + s) % WORD != p[i + period] {
        isPeriodic := false;
        break;
      }
    }
    ValidWord(p, period);
    WrappedTestIsExact(p, period, s);
  }

  lemma ValidWord(p: seq<nat>, i: nat)
    requires Valid(p) && i < |p|
    ensures p[i] < WORD
  {
  }

  /** The smallest period, or none. */
  method FindPeriod(p: seq<nat>) returns (found: bool, period: nat)
    requires Valid(p)
    ensures found <==> HasPeriod(p)
    ensures found ==> 0 < period < |p| && IsSmallestPeriod(p, period)
  {
    hide Valid, Periodic;
    ValidStart(p);
    for k := 1 to |p|
      invariant forall j | 0 < j < k :: !IsPeriod(p, j)
    {
      if |p| % k == 0 {
        var isPeriodic := TestPeriod(p, k);
        if isPeriodic {
          assert IsPeriod(p, k);
          return true, k;
        }
      }
    }
    return false, 0;
  }

  /** After `n` cuts, `p` is what is left of a list that any other way needs at least `n` more cuts for. */
  ghost predicate Tracks(pattern: seq<nat>, p: seq<nat>, n: nat) {
    forall k: nat :: Peels(pattern, k) ==> n <= k && Peels(p, k - n)
  }

  lemma TracksOn(pattern: seq<nat>, p: seq<nat>, n: nat, q: nat)
    requires Valid(p) && 0 < q < |p| && IsSmallestPeriod(p, q) && Tracks(pattern, p, n)
    ensures Tracks(pattern, p[..q], n + 1)
  {
    hide Valid, IsSmallestPeriod, Peels;
    forall k: nat | Peels(pattern, k) ensures n + 1 <= k && Peels(p[..q], k - n - 1) {
      GreedyIsBest(p, q, k - n);
    }
  }

  lemma NothingTracks(pattern: seq<nat>, p: seq<nat>, n: nat)
    requires |p| > 1 && !HasPeriod(p) && Tracks(pattern, p, n)
    ensures forall k: nat :: !HasShape(pattern, k)
  {
    hide IsPeriod, HasShape, Peels, HasPeriod;
    forall k: nat ensures !HasShape(pattern, k) {
      if HasShape(pattern, k) {
        HasShapePeels(pattern, k);
        PeelsHasPeriod(p, k - n);
      }
    }
  }

  lemma PeelsHasPeriod(p: seq<nat>, k: nat)
    requires |p| > 1 && Peels(p, k)
    ensures HasPeriod(p)
  {
    var q :| 0 < q < |p| && PeelsBy(p, q, k);
  }

  lemma FewestTracks(pattern: seq<nat>, p: seq<nat>, n: nat)
    requires Tracks(pattern, p, n)
    ensures forall k: nat :: HasShape(pattern, k) ==> n <= k
  {
    hide HasShape, Peels;
    forall k: nat | HasShape(pattern, k) ensures n <= k {
      HasShapePeels(pattern, k);
    }
  }

  /** The dimensions that cutting at the smallest period, again and again, takes off the list. */
  ghost predicate PeeledTo(p: seq<nat>, dims: seq<Dim>)
    decreases |dims|
  {
    if dims == [] then |p| == 1
    else exists q | 0 < q < |p| :: CutTo(p, q, dims)
  }

  ghost predicate CutTo(p: seq<nat>, q: nat, dims: seq<Dim>)
    requires dims != [] && 0 < q < |p|
    decreases |dims|, 0
  {
    var last := |dims| - 1;
    IsSmallestPeriod(p, q) && dims[last] == Dim(p[q], |p| / q) && PeeledTo(p[..q], dims[..last])
  }

  /** One more dimension, of length two or more and with an element of the list as its stride. */
  lemma PeeledMore(p: seq<nat>, q: nat, inner: seq<Dim>)
    requires Valid(p) && 0 < q < |p| && IsSmallestPeriod(p, q) && PeeledTo(p[..q], inner)
    ensures PeeledTo(p, inner + [Dim(p[q], |p| / q)])
  {
    var dims := inner + [Dim(p[q], |p| / q)];
    assert dims[..|dims| - 1] == inner;
    assert CutTo(p, q, dims);
  }

  /** Whatever is peeled off what is left goes before what was peeled off so far. */
  ghost predicate Leads(pattern: seq<nat>, p: seq<nat>, dims: seq<Dim>) {
    forall inner: seq<Dim> | PeeledTo(p, inner) :: PeeledTo(pattern, inner + dims)
  }

  lemma LeadsOn(pattern: seq<nat>, p: seq<nat>, dims: seq<Dim>, q: nat)
    requires Valid(p) && 0 < q < |p| && IsSmallestPeriod(p, q) && Leads(pattern, p, dims)
    ensures Leads(pattern, p[..q], [Dim(p[q], |p| / q)] + dims)
  {
    hide IsSmallestPeriod, Valid, PeeledTo;
    var d := Dim(p[q], |p| / q);
    forall inner: seq<Dim> | PeeledTo(p[..q], inner) ensures PeeledTo(pattern, inner + ([d] + dims)) {
      PeeledMore(p, q, inner);
      assert inner + ([d] + dims) == (inner + [d]) + dims;
    }
  }

  lemma LeadsStart(pattern: seq<nat>)
    ensures Leads(pattern, pattern, [])
  {
    hide PeeledTo;
    forall inner: seq<Dim> | PeeledTo(pattern, inner) ensures PeeledTo(pattern, inner + []) {
      assert inner + [] == inner;
    }
  }

  lemma LeadsEnd(pattern: seq<nat>, p: seq<nat>, dims: seq<Dim>)
    requires |p| == 1 && Leads(pattern, p, dims)
    ensures PeeledTo(pattern, dims)
  {
    assert PeeledTo(p, []);
    assert [] + dims == dims;
  }

  /** Two ways of peeling take off the same dimensions. */
  lemma {:induction false} PeelingIsUnique(p: seq<nat>, a: seq<Dim>, b: seq<Dim>)
    requires PeeledTo(p, a) && PeeledTo(p, b)
    ensures a == b
    decreases |a|
  {
    if a != [] && b != [] {
      var q :| 0 < q < |p| && CutTo(p, q, a);
      var r :| 0 < r < |p| && CutTo(p, r, b);
      hide IsSmallestPeriod, PeeledTo;
      SmallestIsUnique(p, q, r);
      PeelingIsUnique(p[..q], a[..|a| - 1], b[..|b| - 1]);
      assert a == a[..|a| - 1] + [a[|a| - 1]] && b == b[..|b| - 1] + [b[|b| - 1]];
    }
  }

  lemma SmallestIsUnique(p: seq<nat>, q: nat, r: nat)
    requires 0 < q < |p| && 0 < r < |p| && IsSmallestPeriod(p, q) && IsSmallestPeriod(p, r)
    ensures q == r
  {
    hide IsPeriod;
  }

  /** What peeling takes off enumerates the list, and every dimension is a real one. */
  lemma {:induction false} PeeledShapes(p: seq<nat>, dims: seq<Dim>)
    requires Valid(p) && PeeledTo(p, dims)
    ensures Shapes(p, dims) && AllAtLeast(dims, 2)
    ensures forall i | 0 <= i < |dims| :: dims[i].stride in p
    decreases |dims|
  {
    if dims == [] {
      assert p == [0];
      hide Valid;
    } else {
      var last := |dims| - 1;
      var q :| 0 < q < |p| && CutTo(p, q, dims);
      hide *;
      CutIs(p, q, dims);
      ValidPrefix(p, q);
      PeeledShapes(p[..q], dims[..last]);
      DivExact(|p|, q);
      PeriodicIsRepeat(p, q, p[q], |p| / q);
      RepeatShapes(p, q, dims);
    }
  }

  /** The dimensions of the first period, and one more that repeats it. */
  lemma RepeatShapes(p: seq<nat>, q: nat, dims: seq<Dim>)
    requires dims != [] && 0 < q < |p| && |p| / q >= 2 && dims[|dims| - 1] == Dim(p[q], |p| / q)
    requires p == Repeat(p[..q], Dim(p[q], |p| / q))
    requires var front := dims[..|dims| - 1];
      && Shapes(p[..q], front) && AllAtLeast(front, 2)
      && forall i | 0 <= i < |front| :: front[i].stride in p[..q]
    ensures Shapes(p, dims) && AllAtLeast(dims, 2)
    ensures forall i | 0 <= i < |dims| :: dims[i].stride in p
  {
    hide Repeat;
    var last := |dims| - 1;
    forall i | 0 <= i < |dims| ensures dims[i].stride in p && dims[i].length >= 2 {
      if i < last {
        assert dims[..last][i].stride in p[..q] && dims[..last][i].length >= 2;
      }
    }
  }

  /** No way of peeling, and so no shape, has fewer dimensions. */
  lemma {:induction false} PeeledIsFewest(p: seq<nat>, dims: seq<Dim>, k: nat)
    requires Valid(p) && PeeledTo(p, dims) && Peels(p, k)
    ensures |dims| <= k
    decreases |dims|
  {
    if dims != [] {
      var q :| 0 < q < |p| && CutTo(p, q, dims);
      hide Valid, Peels;
      GreedyIsBest(p, q, k);
      ValidPrefix(p, q);
      PeeledIsFewest(p[..q], dims[..|dims| - 1], k - 1);
    }
  }

  lemma CutIs(p: seq<nat>, q: nat, dims: seq<Dim>)
    requires dims != [] && 0 < q < |p| && CutTo(p, q, dims)
    ensures |p| % q == 0 && Periodic(p, q, p[q]) && dims[|dims| - 1] == Dim(p[q], |p| / q)
    ensures PeeledTo(p[..q], dims[..|dims| - 1])
  {
  }

  /** Peels dimensions off, outermost first, and returns them innermost first: a shape of the list
      with the fewest dimensions there are, or none because there is none. */
  method Peel(pattern: seq<nat>) returns (ok: bool, dims: seq<Dim>)
    requires Valid(pattern)
    ensures ok ==> PeeledTo(pattern, dims) && Shapes(pattern, dims) && AllAtLeast(dims, 2)
    ensures ok ==> forall k: nat :: HasShape(pattern, k) ==> |dims| <= k
    ensures !ok ==> forall k: nat :: !HasShape(pattern, k)
  {
    hide *;
    var p := pattern;
    dims := [];
    TracksStart(pattern);
    LeadsStart(pattern);
    while |p| > 1
      invariant Valid(p) && Leads(pattern, p, dims) && Tracks(pattern, p, |dims|)
      decreases |p|
    {
      var found, period := FindPeriod(p);
      if !found {
        NothingTracks(pattern, p, |dims|);
        return false, dims;
      }
      LeadsOn(pattern, p, dims, period);
      TracksOn(pattern, p, |dims|, period);
      ValidPrefix(p, period);
      dims := [Dim(p[period], |p| / period)] + dims;
      p := p[..period];
    }
    ValidStart(p);
    LeadsEnd(pattern, p, dims);
    PeeledShapes(pattern, dims);
    FewestTracks(pattern, p, |dims|);
    ok := true;
  }

  lemma TracksStart(pattern: seq<nat>)
    ensures Tracks(pattern, pattern, 0)
  {
    hide Peels;
  }

  /** A trailing dimension of length one changes nothing. */
  lemma PadKeepsShape(pattern: seq<nat>, dims: seq<Dim>, stride: nat)
    requires Shapes(pattern, dims)
    ensures Shapes(pattern, dims + [Dim(stride, 1)])
  {
    var padded := dims + [Dim(stride, 1)];
    assert padded[..|dims|] == dims;
    RepeatStarts(Enumerate(dims), Dim(stride, 1));
    assert Repeat(Enumerate(dims), Dim(stride, 1)) == Enumerate(dims);
  }

  /** The stride of the padding: the 32-bit extent of the outermost dimension. */
  function Trailing(dims: seq<Dim>): (stride: nat) {
    if dims == [] then 1 else (dims[|dims| - 1].stride * dims[|dims| - 1].length) % WORD
  }

  /** The dimensions with as many of length one after them as three want. */
  function Padded(dims: seq<Dim>): (padded: seq<Dim>)
    ensures |padded| >= 3 && |padded| >= |dims|
  {
    var t := Dim(Trailing(dims), 1);
    if |dims| >= 3 then dims
    else if |dims| == 2 then dims + [t]
    else if |dims| == 1 then dims + [t, t]
    else [t, t, t]
  }

  /** The shape is the first three of the peeled dimensions, padded. */
  ghost predicate Infers(pattern: seq<nat>, shape: Shape) {
    exists dims: seq<Dim> :: PeeledTo(pattern, dims) && shape.Dims() == Padded(dims)[..3]
  }

  lemma PaddedShapes(pattern: seq<nat>, dims: seq<Dim>)
    requires Shapes(pattern, dims) && |dims| <= 3
    ensures Shapes(pattern, Padded(dims))
  {
    hide Enumerate, AllAtLeast, Shapes, Trailing;
    var stride := Trailing(dims);
    var t := Dim(stride, 1);
    var two, three := dims + [t], dims + [t] + [t];
    PadKeepsShape(pattern, dims, stride);
    PadKeepsShape(pattern, two, stride);
    PadKeepsShape(pattern, three, stride);
    assert |dims| == 1 ==> Padded(dims) == three;
    assert |dims| == 0 ==> Padded(dims) == three + [t];
  }

  /** Pads to three dimensions, and keeps only the first three of a longer list. */
  method Finish(dims: seq<Dim>) returns (shape: Shape)
    ensures shape.Dims() == Padded(dims)[..3]
  {
    var padded := dims;
    var trailing :=
      if dims == [] then 1 else (dims[|dims| - 1].stride * dims[|dims| - 1].length) % WORD;
    while |padded| < 3
      invariant |padded| >= |dims|
      invariant |padded| > |dims| ==> |padded| <= 3
      invariant forall i | 0 <= i < |padded| :: padded[i] == if i < |dims| then dims[i] else Dim(trailing, 1)
    {
      padded := padded + [Dim(trailing, 1)];
    }
    shape := Shape(padded[0], padded[1], padded[2]);
  }

  lemma FirstThree(pattern: seq<nat>, dims: seq<Dim>)
    requires Shapes(pattern, dims)
    requires forall k: nat :: HasShape(pattern, k) ==> |dims| <= k
    ensures Enumerate(Padded(dims)[..3]) == pattern <==> HasShape(pattern, 3)
  {
    hide Enumerate;
    if |dims| <= 3 {
      PaddedShapes(pattern, dims);
      assert Padded(dims)[..3] == Padded(dims);
    } else {
      ThreeAreAShape(pattern, dims);
    }
  }

  lemma ThreeAreAShape(pattern: seq<nat>, dims: seq<Dim>)
    requires |dims| >= 3 && AllAtLeast(dims, 1)
    ensures Enumerate(dims[..3]) == pattern ==> HasShape(pattern, 3)
  {
    hide Enumerate;
    if Enumerate(dims[..3]) == pattern {
      assert Shapes(pattern, dims[..3]);
    }
  }

  /** Infers the shape of an index list. An accepted list is refused only when no shape of any size
      enumerates it; and the three dimensions returned enumerate it, in order, exactly when some three
      dimensions do. */
  method FromIndices(pattern: seq<nat>) returns (r: Outcome)
    requires forall i | 0 <= i < |pattern| :: pattern[i] < WORD
    ensures r.Empty? <==> pattern == []
    ensures r.NotSorted? <==> !Increasing(pattern)
    ensures r.NotFromZero? <==> Increasing(pattern) && pattern != [] && pattern[0] != 0
    ensures r.NotPeriodic? <==> Valid(pattern) && forall k: nat :: !HasShape(pattern, k)
    ensures r.Found? ==> Valid(pattern) && Infers(pattern, r.shape)
    ensures r.Found? ==> (Enumerate(r.shape.Dims()) == pattern <==> HasShape(pattern, 3))
  {
    hide HasShape, Enumerate, Shapes, PeeledTo, Padded;
    if |pattern| == 0 {
      return Empty;
    }
    for i := 1 to |pattern|
      invariant forall a, b | 0 <= a < b < i :: pattern[a] < pattern[b]
    {
      if pattern[i] <= pattern[i - 1] {
        return NotSorted;
      }
    }
    if pattern[0] != 0 {
      return NotFromZero;
    }
    var ok, dims := Peel(pattern);
    if !ok {
      return NotPeriodic;
    }
    ShapedHasShape(pattern, dims);
    FirstThree(pattern, dims);
    var shape := Finish(dims);
    return Found(shape);
  }

  lemma ShapedHasShape(p: seq<nat>, dims: seq<Dim>)
    requires Shapes(p, dims)
    ensures HasShape(p, |dims|)
  {
  }

  // ----- a list that needs four dimensions -----

  /** The subset sums of 1, 3, 9, ..., in order: the counting numbers read in base three. */
  function Cube(n: nat): (p: seq<nat>)
    ensures |p| > 0 && p[0] == 0
  {
    if n == 0 then [0] else Cube(n - 1) + Shifted(Cube(n - 1), Power3(n - 1))
  }

  function Power3(n: nat): (k: nat)
    ensures k >= 1
  {
    if n == 0 then 1 else 3 * Power3(n - 1)
  }

  function CubeDims(n: nat): (dims: seq<Dim>)
    ensures |dims| == n && AllAtLeast(dims, 1)
  {
    if n == 0 then [] else CubeDims(n - 1) + [Dim(Power3(n - 1), 2)]
  }

  lemma EnumerateLast(dims: seq<Dim>, d: Dim)
    ensures Enumerate(dims + [d]) == Repeat(Enumerate(dims), d)
  {
    hide Repeat;
    assert (dims + [d])[..|dims|] == dims;
  }

  lemma {:induction false} CubeIsEnumerated(n: nat)
    ensures Enumerate(CubeDims(n)) == Cube(n)
  {
    if n > 0 {
      CubeIsEnumerated(n - 1);
      var half, stride := Cube(n - 1), Power3(n - 1);
      hide Repeat, Shifted, Enumerate;
      EnumerateLast(CubeDims(n - 1), Dim(stride, 2));
      RepeatMore(half, stride, 2);
      RepeatOnce(half, stride);
      assert 1 * stride == stride;
    }
  }

  lemma {:induction false} CubeBound(n: nat, i: nat)
    requires i < |Cube(n)|
    ensures 2 * Cube(n)[i] < Power3(n)
  {
    if n > 0 {
      var half := Cube(n - 1);
      CubeBound(n - 1, if i < |half| then i else i - |half|);
    }
  }

  lemma {:induction false} CubeIsValid(n: nat)
    requires Power3(n) <= WORD
    ensures Valid(Cube(n))
  {
    var p := Cube(n);
    CubeIncreases(n);
    forall i | 0 <= i < |p| ensures p[i] < WORD {
      CubeBound(n, i);
    }
  }

  lemma {:induction false} CubeIncreases(n: nat)
    ensures Increasing(Cube(n))
  {
    if n > 0 {
      CubeIncreases(n - 1);
      var p, half := Cube(n), Cube(n - 1);
      forall i, j | 0 <= i < j < |p| ensures p[i] < p[j] {
        if i < |half| <= j {
          CubeBound(n - 1, i);
        }
      }
    }
  }

  lemma CubeHalves(n: nat)
    requires n > 0
    ensures var p, half, q := Cube(n), Cube(n - 1), |Cube(n - 1)|;
      && |p| == 2 * q && p[..q] == half && p[q] == Power3(n - 1)
      && (forall i | 0 <= i < q :: p[i] == half[i] && p[i + q] == half[i] + Power3(n - 1))
  {
  }

  /** Two elements of the first half are too small to add up to the first of the second. */
  lemma CubeSmallest(n: nat)
    requires n > 0
    ensures 0 < |Cube(n - 1)| < |Cube(n)| && IsSmallestPeriod(Cube(n), |Cube(n - 1)|)
    ensures Cube(n)[..|Cube(n - 1)|] == Cube(n - 1)
  {
    CubeHalves(n);
    hide Cube, Power3, Shifted;
    var p, half := Cube(n), Cube(n - 1);
    var q := |half|;
    assert |p| == 2 * q && |p| % q == 0 by { MultipleMod(q, 2); }
    assert Periodic(p, q, p[q]);
    forall j | 0 < j < q ensures !IsPeriod(p, j) {
      CubeBound(n - 1, j);
      CubeBound(n - 1, q - j);
      assert p[q - j] + p[j] < p[q - j + j];
    }
  }

  lemma {:induction false} CubePeels(n: nat, k: nat)
    requires Power3(n) <= WORD && Peels(Cube(n), k)
    ensures n <= k
  {
    hide Peels, IsSmallestPeriod, Valid;
    if n > 0 {
      CubeIsValid(n);
      CubeSmallest(n);
      GreedyIsBest(Cube(n), |Cube(n - 1)|, k);
      CubePeels(n - 1, k - 1);
    }
  }

  /** For every `n` from 4 to 20 there is an accepted list that `n` dimensions enumerate and fewer do
      not, so that no three dimensions describe it. */
  lemma ThreeDimensionsAreNotEnough(n: nat)
    requires n > 3 && Power3(n) <= WORD
    ensures Valid(Cube(n)) && HasShape(Cube(n), n) && !HasShape(Cube(n), 3)
  {
    CubeIsValid(n);
    CubeIsEnumerated(n);
    assert Shapes(Cube(n), CubeDims(n));
    if HasShape(Cube(n), 3) {
      HasShapePeels(Cube(n), 3);
      CubePeels(n, 3);
    }
  }
}
