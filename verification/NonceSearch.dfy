/** The device search: work-items scan a window of nonces and append winners through an atomic
    counter. Work-item g tries positions (g, 0), (g, 1), ... of the window.
 */
module NonceSearch {
  const WORD: nat := 0x1_0000_0000

  /** A launch: the window, the nonces per work-item, the buffer and the test. */
  datatype Launch = Launch(base: nat, count: nat, per: nat, cap: nat, wins: nat -> bool) {
    ghost predicate Valid() {
      base < WORD && 0 < count < WORD && 0 < per < WORD
    }

    /** The number of work-items, in 32-bit arithmetic. */
    function Threads(): (n: nat)
      requires per > 0
    {
      (count + per - 1) % WORD / per
    }
  }

  datatype Position = Position(item: nat, j: nat)

  /** The 32-bit window offset of a position. */
  function Offset(l: Launch, p: Position): (i: nat) {
    (p.item * l.per % WORD + p.j) % WORD
  }

  function Nonce(l: Launch, p: Position): (n: nat) {
    (l.base + Offset(l, p)) % WORD
  }

  predicate Wins(l: Launch, p: Position) {
    l.wins(Nonce(l, p))
  }

  /** A work-item scans, has found a winner, or holds a slot it must still store to. */
  datatype Pc = Scan | Claim | Store(slot: nat) | Stop

  datatype Item = Item(pc: Pc, j: nat)

  /** Shared counter and buffer; `claims` and `tests` record, in order, which positions took a slot
      and which were hashed. */
  datatype State = State(items: seq<Item>, counter: nat, found: map<nat, nat>, claims: seq<Position>,
    tests: seq<Position>)

  ghost predicate Init(l: Launch, s: State)
    requires l.per > 0
  {
    && |s.items| == l.Threads()
    && (forall g | 0 <= g < |s.items| :: s.items[g] == Item(Scan, 0))
    && s.counter == 0 && s.found == map[] && s.claims == [] && s.tests == []
  }

  ghost predicate Step(l: Launch, s: State, s': State, g: nat)
    requires g < |s.items|
  {
    var it := s.items[g];
    var p := Position(g, it.j);
    match it.pc
    case Scan =>
      if it.j < l.per && Offset(l, p) < l.count then
        s' == s.(items := s.items[g := if Wins(l, p) then Item(Claim, it.j) else Item(Scan, it.j + 1)],
          tests := s.tests + [p])
      else
        s' == s.(items := s.items[g := Item(Stop, it.j)])
    case Claim =>
      s' == s.(items := s.items[g := Item(Store(s.counter), it.j)], counter := (s.counter + 1) % WORD,
        claims := s.claims + [p])
    case Store(slot) =>
      s' == s.(items := s.items[g := Item(Scan, it.j + 1)],
               found := if slot < l.cap then s.found[slot := Nonce(l, p)] else s.found)
    case Stop => false
  }

  ghost predicate Next(l: Launch, s: State, s': State) {
    exists g: nat | g < |s.items| :: Step(l, s, s', g)
  }

  ghost predicate IsRun(l: Launch, run: seq<State>)
    requires l.per > 0
  {
    run != [] && Init(l, run[0]) && forall i | 0 <= i < |run| - 1 :: Next(l, run[i], run[i + 1])
  }

  // ----- what every step keeps -----

  ghost predicate Distinct(s: seq<Position>) {
    forall a, b | 0 <= a < b < |s| :: s[a] != s[b]
  }

  /** Position p has been hashed. */
  ghost predicate Tested(s: State, p: Position) {
    p.item < |s.items| && var it := s.items[p.item]; p.j < it.j || (p.j == it.j && (it.pc.Claim? || it.pc.Store?))
  }

  /** Position p has taken a slot. */
  ghost predicate Claimed(l: Launch, s: State, p: Position) {
    p.item < |s.items| && Wins(l, p) && var it := s.items[p.item]; p.j < it.j || (p.j == it.j && it.pc.Store?)
  }

  /** An item never leaves its own stretch of the window, and a slot it holds is its own. */
  ghost predicate ItemInv(l: Launch, s: State, g: nat)
    requires g < |s.items|
  {
    var it := s.items[g];
    && it.j <= l.per
    && (forall j: nat | j < it.j :: j < l.per && Offset(l, Position(g, j)) < l.count)
    && (it.pc.Claim? || it.pc.Store? ==>
          it.j < l.per && Offset(l, Position(g, it.j)) < l.count && Wins(l, Position(g, it.j)))
    && (it.pc.Store? ==> it.pc.slot < |s.claims| && s.claims[it.pc.slot] == Position(g, it.j))
    && (it.pc.Stop? ==> it.j == l.per || Offset(l, Position(g, it.j)) >= l.count)
  }

  ghost predicate Pending(s: State, k: nat) {
    exists g | 0 <= g < |s.items| :: s.items[g].pc == Store(k)
  }

  ghost predicate Inv(l: Launch, s: State) {
    && l.per > 0 && |s.items| == l.Threads()
    && (forall g: nat | g < |s.items| :: ItemInv(l, s, g))
    && Distinct(s.tests) && (forall p :: p in s.tests <==> Tested(s, p))
    && Distinct(s.claims) && (forall p :: p in s.claims <==> Claimed(l, s, p))
    && s.counter == |s.claims| % WORD
  }

  /** Slot k of the buffer holds the winner that took it, unless that store is still to come. */
  ghost predicate SlotsInv(l: Launch, s: State) {
    forall k: nat | k < |s.claims| && k < l.cap ::
      Pending(s, k) || (k in s.found && s.found[k] == Nonce(l, s.claims[k]))
  }

  lemma InitEstablishes(l: Launch, s: State)
    requires l.per > 0 && Init(l, s)
    ensures Inv(l, s) && SlotsInv(l, s)
  {
    hide Offset, Nonce;
  }

  lemma StepKeepsItem(l: Launch, s: State, s': State, g: nat, h: nat)
    requires Inv(l, s) && g < |s.items| && Step(l, s, s', g) && h < |s.items| && |s.claims| < WORD
    ensures |s'.items| == |s.items| && ItemInv(l, s', h)
  {
    hide *;
    ItemOf(l, s, g);
    ItemOf(l, s, h);
    if h == g {
      OwnItem(l, s, s', g);
    } else {
      OtherItem(l, s, s', g, h);
    }
  }

  lemma ItemOf(l: Launch, s: State, g: nat)
    requires Inv(l, s) && g < |s.items|
    ensures ItemInv(l, s, g) && (|s.claims| < WORD ==> s.counter == |s.claims|)
  {
    hide ItemInv, Distinct, Tested, Claimed;
  }

  lemma OtherItem(l: Launch, s: State, s': State, g: nat, h: nat)
    requires g < |s.items| && Step(l, s, s', g) && h < |s.items| && h != g && ItemInv(l, s, h)
    ensures |s'.items| == |s.items| && ItemInv(l, s', h)
  {
    hide Offset, Nonce, Wins;
    assert s'.items[h] == s.items[h];
    assert forall k | 0 <= k < |s.claims| :: k < |s'.claims| && s'.claims[k] == s.claims[k];
  }

  lemma OwnItem(l: Launch, s: State, s': State, g: nat)
    requires g < |s.items| && Step(l, s, s', g) && ItemInv(l, s, g) && s.counter == |s.claims|
    ensures |s'.items| == |s.items| && ItemInv(l, s', g)
  {
    hide Offset, Nonce, Wins;
    var it, it' := s.items[g], s'.items[g];
    assert it'.j == it.j || it'.j == it.j + 1;
    forall j: nat | j < it'.j ensures j < l.per && Offset(l, Position(g, j)) < l.count {
      assert j == it.j || j < it.j;
    }
  }

  lemma StepKeepsTests(l: Launch, s: State, s': State, g: nat)
    requires Inv(l, s) && g < |s.items| && Step(l, s, s', g)
    ensures Distinct(s'.tests) && forall p :: p in s'.tests <==> Tested(s', p)
  {
    hide Offset, Nonce, Wins;
    assert ItemInv(l, s, g);
    var here := Position(g, s.items[g].j);
    forall p
      ensures p in s'.tests <==> Tested(s', p)
    {
      assert p in s.tests <==> Tested(s, p);
      assert p.item == g && p.j == here.j ==> p == here;
    }
    if s'.tests != s.tests {
      assert here !in s.tests;
    }
  }

  lemma StepKeepsClaims(l: Launch, s: State, s': State, g: nat)
    requires Inv(l, s) && g < |s.items| && Step(l, s, s', g)
    ensures Distinct(s'.claims) && forall p :: p in s'.claims <==> Claimed(l, s', p)
  {
    hide Offset, Nonce, Wins;
    assert ItemInv(l, s, g);
    var here := Position(g, s.items[g].j);
    forall p
      ensures p in s'.claims <==> Claimed(l, s', p)
    {
      assert p in s.claims <==> Claimed(l, s, p);
      assert p.item == g && p.j == here.j ==> p == here;
    }
    if s'.claims != s.claims {
      assert here !in s.claims;
    }
  }

  lemma StepKeepsSlots(l: Launch, s: State, s': State, g: nat)
    requires Inv(l, s) && SlotsInv(l, s) && g < |s.items| && Step(l, s, s', g) && |s.claims| < WORD
    ensures SlotsInv(l, s')
  {
    hide Offset, Nonce, Wins;
    forall k: nat | k < |s'.claims| && k < l.cap
      ensures Pending(s', k) || (k in s'.found && s'.found[k] == Nonce(l, s'.claims[k]))
    {
      if k == |s.claims| {
        assert s'.items[g].pc == Store(k);
      } else if Pending(s, k) {
        var h :| 0 <= h < |s.items| && s.items[h].pc == Store(k);
        assert ItemInv(l, s, h) && ItemInv(l, s, g);
        if h != g {
          assert s'.items[h].pc == Store(k);
        }
      } else {
        assert ItemInv(l, s, g);
        assert s.items[g].pc != Store(k);
      }
    }
  }

  // ----- positions and offsets -----

  lemma MulMonotone(a: nat, b: nat, m: nat)
    requires a < b
    ensures 0 <= a * m && a * m + m == (a + 1) * m <= b * m
  {
  }

  lemma DivBounds(n: nat, m: nat)
    requires m > 0
    ensures n / m * m <= n < n / m * m + m
  {
  }

  lemma OffsetIs(l: Launch, p: Position)
    requires l.per > 0 && p.item < l.Threads() && p.j < l.per
    ensures 0 <= p.item * l.per
    ensures Offset(l, p) == p.item * l.per + p.j < l.Threads() * l.per <= (l.count + l.per - 1) % WORD < WORD
  {
    DivBounds((l.count + l.per - 1) % WORD, l.per);
    MulMonotone(p.item, l.Threads(), l.per);
    SmallMod(p.item * l.per);
    SmallMod(p.item * l.per + p.j);
  }

  lemma SmallMod(x: nat)
    requires x < WORD
    ensures x % WORD == x
  {
  }

  lemma OffsetsDiffer(l: Launch, p: Position, q: Position)
    requires l.per > 0 && p.item < l.Threads() && p.j < l.per && q.item < l.Threads() && q.j < l.per && p != q
    ensures Offset(l, p) != Offset(l, q)
  {
    OffsetIs(l, p);
    OffsetIs(l, q);
    hide Offset;
    if p.item < q.item {
      MulMonotone(p.item, q.item, l.per);
    } else if q.item < p.item {
      MulMonotone(q.item, p.item, l.per);
    }
  }

  /** The position that covers offset i when the work-item count did not wrap. */
  lemma PositionOf(l: Launch, i: nat) returns (p: Position)
    requires l.Valid() && l.count + l.per - 1 < WORD && i < l.count
    ensures p.item < l.Threads() && p.j < l.per && Offset(l, p) == i
  {
    p := Position(i / l.per, i % l.per);
    var n := l.count + l.per - 1;
    SmallMod(n);
    DivBounds(n, l.per);
    DivBounds(i, l.per);
    DivModSum(i, l.per);
    BelowByProduct(p.item, l.Threads(), l.per, i);
    OffsetIs(l, p);
  }

  lemma DivModSum(i: nat, m: nat)
    requires m > 0
    ensures i == i / m * m + i % m
  {
  }

  lemma BelowByProduct(a: nat, b: nat, m: nat, i: nat)
    requires a * m <= i < b * m
    ensures a < b
  {
  }

  /** The window offsets of a list of positions. */
  ghost function Offsets(l: Launch, ps: seq<Position>): (o: set<nat>) {
    if ps == [] then {} else Offsets(l, ps[1..]) + {Offset(l, ps[0])}
  }

  lemma {:induction false} OffsetsCount(l: Launch, ps: seq<Position>)
    requires l.per > 0 && Distinct(ps)
    requires forall k | 0 <= k < |ps| :: ps[k].item < l.Threads() && ps[k].j < l.per
    ensures |Offsets(l, ps)| == |ps|
    ensures forall i: nat :: i in Offsets(l, ps) <==> exists k | 0 <= k < |ps| :: Offset(l, ps[k]) == i
  {
    hide Offset;
    if ps != [] {
      var rest := ps[1..];
      OffsetsCount(l, rest);
      forall k | 0 <= k < |rest| ensures Offset(l, rest[k]) != Offset(l, ps[0]) {
        OffsetsDiffer(l, ps[k + 1], ps[0]);
      }
      SomeOffset(l, rest, Offset(l, ps[0]));
    }
    forall i: nat
      ensures i in Offsets(l, ps) <==> exists k | 0 <= k < |ps| :: Offset(l, ps[k]) == i
    {
      SomeOffset(l, ps, i);
    }
  }

  lemma {:induction false} SomeOffset(l: Launch, ps: seq<Position>, i: nat)
    ensures i in Offsets(l, ps) <==> exists k | 0 <= k < |ps| :: Offset(l, ps[k]) == i
  {
    hide Offset;
    if ps != [] {
      var rest := ps[1..];
      SomeOffset(l, rest, i);
      if i in Offsets(l, rest) {
        var k :| 0 <= k < |rest| && Offset(l, rest[k]) == i;
        assert ps[k + 1] == rest[k];
      }
      if k :| 0 <= k < |ps| && Offset(l, ps[k]) == i {
        if k > 0 {
          assert rest[k - 1] == ps[k];
        }
      }
    }
  }

  lemma {:induction false} BelowCount(s: set<nat>, n: nat)
    requires forall i | i in s :: i < n
    ensures |s| <= n
  {
    if n == 0 {
      assert s == {};
    } else {
      BelowCount(s - {n - 1}, n - 1);
      assert s == s - {n - 1} + if n - 1 in s then {n - 1} else {};
    }
  }

  lemma ClaimedInWindow(l: Launch, s: State)
    requires Inv(l, s)
    ensures forall k | 0 <= k < |s.claims| ::
      var p := s.claims[k]; p.item < l.Threads() && p.j < l.per && Offset(l, p) < l.count && Wins(l, p)
  {
    hide Offset, Wins;
    forall k | 0 <= k < |s.claims|
      ensures var p := s.claims[k]; p.item < l.Threads() && p.j < l.per && Offset(l, p) < l.count && Wins(l, p)
    {
      var p := s.claims[k];
      assert p in s.claims && Claimed(l, s, p);
      assert ItemInv(l, s, p.item);
      assert p == Position(p.item, p.j);
    }
  }

  /** No more slots are taken than the window has nonces. */
  lemma ClaimsBounded(l: Launch, s: State)
    requires Inv(l, s)
    ensures |s.claims| <= l.count
  {
    ClaimedInWindow(l, s);
    hide Offset, Wins;
    OffsetsCount(l, s.claims);
    BelowCount(Offsets(l, s.claims), l.count);
  }

  lemma StepKeepsCounter(l: Launch, s: State, s': State, g: nat)
    requires g < |s.items| && Step(l, s, s', g) && s.counter == |s.claims| % WORD
    ensures s'.counter == |s'.claims| % WORD
  {
    hide Offset, Nonce, Wins;
  }

  lemma NextKeepsInv(l: Launch, s: State, s': State)
    requires l.Valid() && Inv(l, s) && SlotsInv(l, s) && Next(l, s, s')
    ensures Inv(l, s') && SlotsInv(l, s')
  {
    hide Step, ItemInv, Tested, Claimed, Distinct, SlotsInv, Offset, Nonce, Wins;
    ClaimsBounded(l, s);
    var g: nat :| g < |s.items| && Step(l, s, s', g);
    StepKeepsTests(l, s, s', g);
    StepKeepsClaims(l, s, s', g);
    StepKeepsSlots(l, s, s', g);
    StepKeepsCounter(l, s, s', g);
    StepKeepsItem(l, s, s', g, g);
    forall h: nat | h < |s'.items| ensures ItemInv(l, s', h) {
      StepKeepsItem(l, s, s', g, h);
    }
  }

  lemma {:induction false} RunKeepsInv(l: Launch, run: seq<State>, n: nat)
    requires l.Valid() && IsRun(l, run) && n < |run|
    ensures Inv(l, run[n]) && SlotsInv(l, run[n])
  {
    hide Inv, SlotsInv, Next, Init;
    if n == 0 {
      InitEstablishes(l, run[0]);
    } else {
      RunKeepsInv(l, run, n - 1);
      assert Next(l, run[n - 1], run[n - 1 + 1]);
      NextKeepsInv(l, run[n - 1], run[n]);
    }
  }

  // ----- what a finished search has done -----

  ghost predicate Finished(s: State) {
    forall g | 0 <= g < |s.items| :: s.items[g].pc == Stop
  }

  /** The offsets of a window of n nonces. */
  ghost function Window(n: nat): (w: set<nat>)
    ensures |w| == n && forall i: nat :: i in w <==> i < n
  {
    if n == 0 then {} else Window(n - 1) + {n - 1}
  }

  predicate WinsAt(l: Launch, i: nat) {
    l.wins((l.base + i) % WORD)
  }

  /** The winning offsets of the window. */
  ghost function Hits(l: Launch): (h: set<nat>) {
    set i | i in Window(l.count) && WinsAt(l, i)
  }

  /** The nonce at one of the offsets of a window that starts at `base`. */
  ghost predicate NonceOf(offsets: set<nat>, base: nat, nonce: nat) {
    exists i | i in offsets :: (base + i) % WORD == nonce
  }

  /** The nonce at offset i has been hashed. */
  ghost predicate TestedAt(l: Launch, s: State, i: nat) {
    exists p :: p in s.tests && Offset(l, p) == i
  }

  /** Every position of every work-item inside the window has been hashed. */
  lemma AllPositionsTested(l: Launch, s: State, p: Position)
    requires Inv(l, s) && Finished(s) && p.item < l.Threads() && p.j < l.per && Offset(l, p) < l.count
    ensures p in s.tests && (Wins(l, p) ==> p in s.claims)
  {
    hide Wins;
    assert ItemInv(l, s, p.item);
    var it := s.items[p.item];
    if p.j >= it.j {
      OffsetIs(l, p);
      OffsetIs(l, Position(p.item, it.j));
    }
    hide Offset;
    assert Tested(s, p);
    assert Wins(l, p) ==> Claimed(l, s, p);
  }

  /** Over every interleaving of a launch whose work-item count does not wrap: each nonce of the
      window is hashed exactly once, the counter is the number of winners, and the first
      min(total, cap) buffer slots hold distinct winners. */
  lemma SearchIsExact(l: Launch, run: seq<State>)
    requires l.Valid() && l.count + l.per - 1 < WORD && IsRun(l, run) && Finished(run[|run| - 1])
    ensures var s := run[|run| - 1];
      && Distinct(s.tests) && |s.tests| == l.count
      && (forall i: nat | i < l.count :: TestedAt(l, s, i))
      && s.counter == |Hits(l)|
      && (forall k: nat | k < s.counter && k < l.cap :: k in s.found && NonceOf(Hits(l), l.base, s.found[k]))
      && (forall k: nat, m: nat | k < m < s.counter && m < l.cap ::
            k in s.found && m in s.found && s.found[k] != s.found[m])
  {
    RunKeepsInv(l, run, |run| - 1);
    var s := run[|run| - 1];
    hide *;
    FinishedTests(l, s);
    FinishedClaims(l, s);
    FinishedSlots(l, s);
  }

  lemma FinishedTests(l: Launch, s: State)
    requires l.Valid() && l.count + l.per - 1 < WORD && Inv(l, s) && Finished(s)
    ensures Distinct(s.tests) && |s.tests| == l.count && forall i: nat | i < l.count :: TestedAt(l, s, i)
  {
    hide Offset, Wins;
    TestedInWindow(l, s);
    OffsetsCount(l, s.tests);
    var offs := Offsets(l, s.tests);
    forall i: nat | i < l.count
      ensures TestedAt(l, s, i) && i in offs
    {
      var p := PositionOf(l, i);
      AllPositionsTested(l, s, p);
      var k :| 0 <= k < |s.tests| && s.tests[k] == p;
    }
    assert offs == Window(l.count);
  }

  lemma TestedInWindow(l: Launch, s: State)
    requires Inv(l, s)
    ensures forall k | 0 <= k < |s.tests| ::
      var p := s.tests[k]; p.item < l.Threads() && p.j < l.per && Offset(l, p) < l.count
  {
    hide Offset, Wins;
    forall k | 0 <= k < |s.tests|
      ensures var p := s.tests[k]; p.item < l.Threads() && p.j < l.per && Offset(l, p) < l.count
    {
      var p := s.tests[k];
      assert p in s.tests && Tested(s, p);
      assert ItemInv(l, s, p.item);
      assert p == Position(p.item, p.j);
    }
  }

  lemma FinishedClaims(l: Launch, s: State)
    requires l.Valid() && l.count + l.per - 1 < WORD && Inv(l, s) && Finished(s)
    ensures s.counter == |s.claims| == |Hits(l)|
  {
    ClaimedInWindow(l, s);
    ClaimsBounded(l, s);
    SmallMod(|s.claims|);
    OffsetsCount(l, s.claims);
    hide Offset, Wins;
    var offs := Offsets(l, s.claims);
    forall i | i in Hits(l) ensures i in offs {
      var p := PositionOf(l, i);
      AllPositionsTested(l, s, p);
      WinsAtOffset(l, p);
      var k :| 0 <= k < |s.claims| && s.claims[k] == p;
    }
    forall i | i in offs ensures i in Hits(l) {
      var k :| 0 <= k < |s.claims| && Offset(l, s.claims[k]) == i;
      WinsAtOffset(l, s.claims[k]);
    }
    assert offs == Hits(l);
  }

  lemma WinsAtOffset(l: Launch, p: Position)
    ensures Wins(l, p) <==> WinsAt(l, Offset(l, p))
  {
    hide Offset;
  }

  lemma HitAt(l: Launch, i: nat)
    requires i < l.count && WinsAt(l, i)
    ensures i in Hits(l)
  {
    hide WinsAt;
    assert i in Window(l.count);
  }

  lemma NonceAt(offsets: set<nat>, l: Launch, p: Position)
    requires Offset(l, p) in offsets
    ensures NonceOf(offsets, l.base, Nonce(l, p))
  {
    hide Offset;
  }

  lemma ClaimIsHit(l: Launch, p: Position)
    requires Offset(l, p) < l.count && Wins(l, p)
    ensures NonceOf(Hits(l), l.base, Nonce(l, p))
  {
    hide *;
    WinsAtOffset(l, p);
    HitAt(l, Offset(l, p));
    NonceAt(Hits(l), l, p);
  }

  lemma FinishedSlots(l: Launch, s: State)
    requires l.Valid() && Inv(l, s) && SlotsInv(l, s) && Finished(s) && s.counter == |s.claims|
    ensures forall k: nat | k < s.counter && k < l.cap :: k in s.found && NonceOf(Hits(l), l.base, s.found[k])
    ensures forall k: nat, m: nat | k < m < s.counter && m < l.cap ::
      k in s.found && m in s.found && s.found[k] != s.found[m]
  {
    ClaimedInWindow(l, s);
    hide Offset, Nonce, Inv, NonceOf, Wins;
    forall k: nat | k < s.counter && k < l.cap
      ensures k in s.found && s.found[k] == Nonce(l, s.claims[k]) && NonceOf(Hits(l), l.base, s.found[k])
    {
      assert !Pending(s, k);
      ClaimIsHit(l, s.claims[k]);
    }
    forall k: nat, m: nat | k < m < s.counter && m < l.cap
      ensures k in s.found && m in s.found && s.found[k] != s.found[m]
    {
      ClaimsDiffer(l, s, k, m);
    }
  }

  lemma ClaimsDiffer(l: Launch, s: State, k: nat, m: nat)
    requires l.Valid() && Inv(l, s) && k < m < |s.claims|
    ensures Nonce(l, s.claims[k]) != Nonce(l, s.claims[m])
  {
    ClaimedInWindow(l, s);
    assert s.claims[k] != s.claims[m];
    hide Offset, Inv;
    OffsetsDiffer(l, s.claims[k], s.claims[m]);
    ModDiffers(l.base, Offset(l, s.claims[k]), Offset(l, s.claims[m]));
  }

  lemma ModDiffers(base: nat, a: nat, b: nat)
    requires base < WORD && a < WORD && b < WORD && a != b
    ensures (base + a) % WORD != (base + b) % WORD
  {
  }

  /** The condition is exact: once count + per - 1 reaches 2^32 the work-item count wraps and the
      last nonce of the window is hashed in no run. */
  lemma WrapMissesTheLastNonce(l: Launch, run: seq<State>)
    requires l.Valid() && l.count + l.per - 1 >= WORD && IsRun(l, run)
    ensures forall p | p in run[|run| - 1].tests :: Offset(l, p) != l.count - 1
  {
    RunKeepsInv(l, run, |run| - 1);
    var s := run[|run| - 1];
    TestedInWindow(l, s);
    var n := l.count + l.per - 1;
    assert n % WORD == n - WORD;
    forall p | p in s.tests
      ensures Offset(l, p) != l.count - 1
    {
      var k :| 0 <= k < |s.tests| && s.tests[k] == p;
      OffsetIs(l, p);
    }
  }

  // ----- the host's clipped copy -----

  function Min(a: nat, b: nat): nat { if a < b then a else b }

  /** What the host copies out of the device buffer: what fits both buffers. */
  function Copied(counter: nat, buffer: seq<nat>, foundCap: nat): (out: seq<nat>)
    ensures |out| == Min(counter, Min(foundCap, |buffer|))
  {
    buffer[..Min(counter, Min(foundCap, |buffer|))]
  }

  /** The host reports the full count and copies the winners that fit both buffers. */
  method CopyFound(counter: nat, buffer: seq<nat>, foundCap: nat) returns (total: nat, out: seq<nat>)
    ensures total == counter && out == Copied(counter, buffer, foundCap)
  {
    total := counter;
    var n := if total < foundCap then total else foundCap;
    var kept := if n < |buffer| then n else |buffer|;
    out := [];
    for i := 0 to kept
      invariant out == buffer[..i]
    {
      out := out + [buffer[i]];
    }
  }

  /** The device buffer after a run: stored slots hold what was stored, the others anything. */
  ghost predicate BufferOf(l: Launch, s: State, buffer: seq<nat>) {
    |buffer| == l.cap && forall k: nat | k in s.found && k < l.cap :: buffer[k] == s.found[k]
  }

  /** What the caller gets from a finished launch: the full count of winners, and as many distinct
      winners as both buffers hold. */
  lemma ReturnedAreWinners(l: Launch, run: seq<State>, buffer: seq<nat>, foundCap: nat)
    requires l.Valid() && l.count + l.per - 1 < WORD && IsRun(l, run) && Finished(run[|run| - 1])
    requires BufferOf(l, run[|run| - 1], buffer)
    ensures var s := run[|run| - 1]; var out := Copied(s.counter, buffer, foundCap);
      && s.counter == |Hits(l)|
      && |out| == Min(|Hits(l)|, Min(foundCap, l.cap))
      && (forall k | 0 <= k < |out| :: NonceOf(Hits(l), l.base, out[k]))
      && (forall k, m | 0 <= k < m < |out| :: out[k] != out[m])
  {
    SearchIsExact(l, run);
    hide Hits, IsRun, Finished;
    var s := run[|run| - 1];
    var out := Copied(s.counter, buffer, foundCap);
    forall k | 0 <= k < |out| ensures k in s.found && out[k] == s.found[k] {
      assert k < s.counter && k < l.cap;
    }
  }
}
