/** One outbound stream: producers, the writer and teardown as a state machine over their steps.
    Taking a sequence number and entering the channel are two steps, so producers may interleave.
 */
module OutboundStream {

  const CAPACITY: nat := 1024

  datatype Kind = Auth | Share | Ping | Other

  datatype Event = Event(number: nat, kind: Kind)

  /** The stream's own progress: the Auth frame, the writer's task, its loop and its final drain. A task
      whose token is cancelled before it is scheduled never enters the loop, so it never drains. */
  datatype Phase =
    | Opening
    | Authenticating(auth: Event)
    | Scheduled
    | NeverStarted
    | Reading
    | Writing(event: Event)
    | Completing
    | Draining
    | Finished
    | Failed

  /** `accepted` records, in order, every event the channel took; `pending` are events with a
      number that are not in the channel yet; `inFlight` is the event whose write failed, if any. */
  datatype State = State(
    issued: nat, pending: set<Event>, channel: seq<Event>, closed: bool, phase: Phase,
    wire: seq<Event>, inFlight: seq<Event>, abandoned: seq<Event>, accepted: seq<Event>)

  datatype Action =
    | Assign(kind: Kind) | Accept(event: Event) | Reject(event: Event)
    | AuthAssign | AuthWrite | AuthFail | WriterStart | WriterCancel
    | Take | WriteDone | WriteFail | StopReading | Complete | Drain | DrainEnd
    | Close

  ghost predicate Init(s: State) {
    s == State(0, {}, [], false, Opening, [], [], [], [])
  }

  ghost predicate Step(s: State, a: Action, s': State) {
    match a
    // producers
    case Assign(kind) =>
      kind != Auth && s' == s.(issued := s.issued + 1, pending := s.pending + {Event(s.issued + 1, kind)})
    case Accept(e) =>
      && e in s.pending && !s.closed && |s.channel| < CAPACITY
      && s' == s.(pending := s.pending - {e}, channel := s.channel + [e], accepted := s.accepted + [e])
    case Reject(e) =>
      e in s.pending && s' == s.(pending := s.pending - {e})
    // the Auth frame
    case AuthAssign =>
      s.phase == Opening && s' == s.(issued := s.issued + 1, phase := Authenticating(Event(s.issued + 1, Auth)))
    case AuthWrite =>
      s.phase.Authenticating? && s' == s.(wire := [s.phase.auth], phase := Scheduled)
    case AuthFail =>
      s.phase.Authenticating? && s' == s.(phase := Failed)
    // the writer
    case WriterStart =>
      s.phase == Scheduled && s' == s.(phase := Reading)
    case WriterCancel =>
      s.phase == Scheduled && s' == s.(phase := NeverStarted)
    case Take =>
      && s.phase == Reading && s.channel != []
      && s' == s.(phase := Writing(s.channel[0]), channel := s.channel[1..])
    case WriteDone =>
      s.phase.Writing? && s' == s.(phase := Reading, wire := s.wire + [s.phase.event])
    case WriteFail =>
      s.phase.Writing? && s' == s.(phase := Completing, inFlight := [s.phase.event])
    case StopReading =>
      s.phase == Reading && s' == s.(phase := Completing)
    case Complete =>
      s.phase == Completing && s' == s.(phase := Draining, closed := true)
    case Drain =>
      && s.phase == Draining && s.channel != []
      && s' == s.(channel := s.channel[1..], abandoned := s.abandoned + [s.channel[0]])
    case DrainEnd =>
      s.phase == Draining && s.channel == [] && s' == s.(phase := Finished)
    // teardown
    case Close =>
      s' == s.(closed := true)
  }

  ghost predicate Next(s: State, s': State) {
    exists a :: Step(s, a, s')
  }

  // ----- what every step keeps -----

  /** The event being written, if any. */
  function Current(s: State): seq<Event> {
    if s.phase.Writing? then [s.phase.event] else []
  }

  ghost predicate Started(s: State) {
    !s.phase.Opening? && !s.phase.Authenticating? && !s.phase.Failed?
  }

  /** Events after the Auth frame. */
  function Body(s: State): seq<Event> {
    if s.wire == [] then [] else s.wire[1..]
  }

  /** First in, first out: what was accepted is what was written, then the one being written or
      lost, then what was abandoned, then what still waits. */
  ghost predicate Conserved(s: State) {
    s.accepted == Body(s) + Current(s) + s.inFlight + s.abandoned + s.channel
  }

  ghost predicate PhaseInv(s: State) {
    && (s.wire != [] <==> Started(s))
    && (s.wire != [] ==> s.wire[0].kind == Auth)
    && (s.phase.Authenticating? ==> s.phase.auth.kind == Auth)
    && |s.inFlight| <= 1
    && (s.inFlight != [] ==> s.phase in {Completing, Draining, Finished})
    && (s.abandoned != [] ==> s.phase in {Draining, Finished})
    && (s.phase in {Draining, Finished} ==> s.closed)
    && (s.phase == Finished ==> s.channel == [])
    && (s.phase in {Opening, Scheduled, NeverStarted, Failed} || s.phase.Authenticating? ==> Body(s) == [])
    && |s.channel| <= CAPACITY
  }

  ghost predicate Numbered(s: State) {
    && (forall i | 0 <= i < |s.accepted| :: 1 <= s.accepted[i].number <= s.issued && s.accepted[i].kind != Auth)
    && (forall i, j | 0 <= i < j < |s.accepted| :: s.accepted[i].number != s.accepted[j].number)
    && (forall e | e in s.pending :: 1 <= e.number <= s.issued && e.kind != Auth)
    && (forall e, f | e in s.pending && f in s.pending && e != f :: e.number != f.number)
    && (forall e, i | e in s.pending && 0 <= i < |s.accepted| :: e.number != s.accepted[i].number)
  }

  /** The Auth frame's number, once taken, is nobody else's. */
  ghost predicate AuthNumbered(s: State) {
    (s.phase.Authenticating? ==> Fresh(s, s.phase.auth)) && (s.wire != [] ==> Fresh(s, s.wire[0]))
  }

  ghost predicate Fresh(s: State, auth: Event) {
    && 1 <= auth.number <= s.issued
    && (forall e | e in s.pending :: e.number != auth.number)
    && (forall i | 0 <= i < |s.accepted| :: s.accepted[i].number != auth.number)
  }

  ghost predicate Inv(s: State) {
    PhaseInv(s) && Conserved(s) && Numbered(s) && AuthNumbered(s)
  }

  lemma InitEstablishes(s: State)
    requires Init(s)
    ensures Inv(s)
  {
  }

  lemma StepKeepsPhase(s: State, a: Action, s': State)
    requires PhaseInv(s) && Step(s, a, s')
    ensures PhaseInv(s')
  {
  }

  lemma AcceptConserves(s: State, e: Event, s': State)
    requires Conserved(s) && Step(s, Accept(e), s')
    ensures Conserved(s')
  {
    assert Body(s') == Body(s) && Current(s') == Current(s);
    Append(Body(s) + Current(s) + s.inFlight + s.abandoned, s.channel, [e]);
  }

  lemma TakeConserves(s: State, s': State)
    requires PhaseInv(s) && Conserved(s) && Step(s, Take, s')
    ensures Conserved(s')
  {
    assert s.inFlight == [] && s.abandoned == [] && Body(s') == Body(s);
    Pop(Body(s), s.channel);
  }

  lemma WriteConserves(s: State, s': State)
    requires PhaseInv(s) && Conserved(s) && Step(s, WriteDone, s')
    ensures Conserved(s')
  {
    assert s.inFlight == [] && s.abandoned == [] && s.wire != [];
    Written(s.wire, s.phase.event, s.channel);
  }

  lemma StepConserves(s: State, a: Action, s': State)
    requires PhaseInv(s) && Conserved(s) && Step(s, a, s')
    ensures Conserved(s')
  {
    match a
    case Accept(e) =>
      AcceptConserves(s, e, s');
    case Take =>
      TakeConserves(s, s');
    case WriteDone =>
      WriteConserves(s, s');
    case Drain =>
      PopInto(Body(s) + Current(s) + s.inFlight, s.abandoned, s.channel);
    case _ =>
  }

  lemma Append(a: seq<Event>, b: seq<Event>, c: seq<Event>)
    ensures a + (b + c) == (a + b) + c
  {
  }

  lemma Pop(body: seq<Event>, channel: seq<Event>)
    requires channel != []
    ensures body + [] + [] + [] + channel == body + [channel[0]] + [] + [] + channel[1..]
  {
  }

  lemma Written(wire: seq<Event>, e: Event, channel: seq<Event>)
    requires wire != []
    ensures wire[1..] + [e] + [] + [] + channel == (wire + [e])[1..] + [] + [] + [] + channel
  {
    assert (wire + [e])[1..] == wire[1..] + [e];
  }

  lemma PopInto(front: seq<Event>, abandoned: seq<Event>, channel: seq<Event>)
    requires channel != []
    ensures front + abandoned + channel == front + (abandoned + [channel[0]]) + channel[1..]
  {
  }

  lemma AuthAssignKeepsNumbers(s: State, s': State)
    requires Inv(s) && Step(s, AuthAssign, s')
    ensures Numbered(s') && AuthNumbered(s')
  {
    hide Conserved;
  }

  lemma AuthWriteKeepsNumbers(s: State, s': State)
    requires Inv(s) && Step(s, AuthWrite, s')
    ensures Numbered(s') && AuthNumbered(s')
  {
    hide Conserved, PhaseInv;
  }

  lemma StepKeepsNumbers(s: State, a: Action, s': State)
    requires Inv(s) && Step(s, a, s')
    ensures Numbered(s') && AuthNumbered(s')
  {
    match a
    case Assign(kind) => AssignKeepsNumbers(s, kind, s');
    case Accept(e) => AcceptKeepsNumbers(s, e, s');
    case AuthAssign => AuthAssignKeepsNumbers(s, s');
    case AuthWrite => AuthWriteKeepsNumbers(s, s');
    case _ => OtherStepsKeepNumbers(s, a, s');
  }

  lemma AssignKeepsNumbers(s: State, kind: Kind, s': State)
    requires Inv(s) && Step(s, Assign(kind), s')
    ensures Numbered(s') && AuthNumbered(s')
  {
    hide Conserved, PhaseInv;
  }

  lemma AcceptKeepsNumbered(s: State, e: Event, s': State)
    requires Numbered(s) && e in s.pending
    requires s'.accepted == s.accepted + [e] && s'.pending == s.pending - {e} && s'.issued == s.issued
    ensures Numbered(s')
  {
  }

  lemma AcceptKeepsFresh(s: State, e: Event, s': State)
    requires AuthNumbered(s) && e in s.pending && s'.phase == s.phase && s'.wire == s.wire
    requires s'.accepted == s.accepted + [e] && s'.pending == s.pending - {e} && s'.issued == s.issued
    ensures AuthNumbered(s')
  {
  }

  lemma AcceptKeepsNumbers(s: State, e: Event, s': State)
    requires Inv(s) && Step(s, Accept(e), s')
    ensures Numbered(s') && AuthNumbered(s')
  {
    hide Conserved, PhaseInv;
    assert s'.accepted == s.accepted + [e] && s'.pending == s.pending - {e} && s'.issued == s.issued;
    AcceptKeepsNumbered(s, e, s');
    AcceptKeepsFresh(s, e, s');
  }

  lemma OtherStepsKeepNumbers(s: State, a: Action, s': State)
    requires Inv(s) && Step(s, a, s')
    requires s'.accepted == s.accepted && s'.pending <= s.pending && s'.issued == s.issued
    requires s.wire <= s'.wire && (s'.wire != [] ==> s.wire != [])
    requires s'.phase.Authenticating? ==> s'.phase == s.phase
    ensures Numbered(s') && AuthNumbered(s')
  {
    hide Conserved, PhaseInv, Step;
  }

  lemma NextKeepsInv(s: State, s': State)
    requires Inv(s) && Next(s, s')
    ensures Inv(s')
  {
    var a :| Step(s, a, s');
    StepKeepsPhase(s, a, s');
    StepConserves(s, a, s');
    StepKeepsNumbers(s, a, s');
    hide PhaseInv, Conserved, Numbered, AuthNumbered, Step;
  }

  ghost predicate IsRun(run: seq<State>) {
    run != [] && Init(run[0]) && forall i | 0 <= i < |run| - 1 :: Next(run[i], run[i + 1])
  }

  lemma {:induction false} RunKeepsInv(run: seq<State>, n: nat)
    requires IsRun(run) && n < |run|
    ensures Inv(run[n])
  {
    hide Inv, Next;
    if n == 0 {
      InitEstablishes(run[0]);
    } else {
      RunKeepsInv(run, n - 1);
      assert Next(run[n - 1], run[n - 1 + 1]);
      NextKeepsInv(run[n - 1], run[n]);
    }
  }

  // ----- the promises -----

  /** At every moment of every run: Auth is the first frame, numbers on the wire are pairwise
      distinct, and the frames after Auth are the channel's first acceptances in order. */
  lemma WireIsFifo(run: seq<State>, n: nat)
    requires IsRun(run) && n < |run|
    ensures var s := run[n];
      && (s.wire != [] ==> s.wire[0].kind == Auth)
      && (forall i | 0 < i < |s.wire| :: s.wire[i].kind != Auth)
      && (forall i, j | 0 <= i < j < |s.wire| :: s.wire[i].number != s.wire[j].number)
      && Body(s) <= s.accepted
  {
    RunKeepsInv(run, n);
    var s := run[n];
    forall i | 0 < i < |s.wire|
      ensures s.wire[i] == s.accepted[i - 1]
    {
      assert Body(s)[i - 1] == s.wire[i];
    }
    assert s.wire != [] ==> Fresh(s, s.wire[0]);
  }

  /** Once the writer has finished, every accepted event was written, was the one in flight when the
      writer stopped, or was counted as abandoned: exactly one of them, in that order. */
  lemma FinishedAccountsForAll(run: seq<State>, n: nat)
    requires IsRun(run) && n < |run| && run[n].phase == Finished
    ensures var s := run[n];
      && s.accepted == Body(s) + s.inFlight + s.abandoned
      && |s.inFlight| <= 1 && s.closed
      && |s.accepted| == |Body(s)| + |s.inFlight| + |s.abandoned|
  {
    RunKeepsInv(run, n);
    var s := run[n];
    assert Body(s) + [] + s.inFlight + s.abandoned + [] == Body(s) + s.inFlight + s.abandoned;
  }

  /** The writer's part is over. */
  ghost predicate Over(s: State) {
    s.phase in {Finished, NeverStarted, Failed}
  }

  /** Whenever the writer's part is over, the account is complete exactly when the loop was entered or
      nothing was accepted: what a writer that never ran leaves in the channel is counted nowhere. */
  lemma AccountIsCompleteExactly(run: seq<State>, n: nat)
    requires IsRun(run) && n < |run| && Over(run[n])
    ensures var s := run[n];
      && s.accepted == Body(s) + s.inFlight + s.abandoned + s.channel
      && (s.accepted == Body(s) + s.inFlight + s.abandoned <==> s.phase == Finished || s.accepted == [])
  {
    RunKeepsInv(run, n);
    var s := run[n];
    assert Body(s) + [] + s.inFlight + s.abandoned + s.channel == Body(s) + s.inFlight + s.abandoned + s.channel;
    assert s.phase != Finished ==> Body(s) + s.inFlight + s.abandoned == [];
  }

  /** After the drain nothing more is accepted, so the account stays final. */
  lemma {:induction false} FinishedIsFinal(run: seq<State>, n: nat, m: nat)
    requires IsRun(run) && n <= m < |run| && run[n].phase == Finished
    ensures run[m].phase == Finished && run[m].accepted == run[n].accepted
    ensures run[m].wire == run[n].wire && run[m].abandoned == run[n].abandoned && run[m].inFlight == run[n].inFlight
    decreases m
  {
    hide *;
    if n < m {
      FinishedIsFinal(run, n, m - 1);
      RunKeepsInv(run, m - 1);
      RunStep(run, m - 1);
      FinishedStep(run[m - 1], run[m]);
    }
  }

  lemma RunStep(run: seq<State>, i: nat)
    requires IsRun(run) && i + 1 < |run|
    ensures Next(run[i], run[i + 1])
  {
  }

  lemma FinishedStep(s: State, s': State)
    requires Inv(s) && Next(s, s') && s.phase == Finished
    ensures s'.phase == Finished && s'.accepted == s.accepted && s'.wire == s.wire
    ensures s'.abandoned == s.abandoned && s'.inFlight == s.inFlight
  {
    hide Conserved, Numbered, AuthNumbered;
    var a :| Step(s, a, s');
  }

  // ----- the teardown count -----

  datatype Tally = Tally(total: nat, shares: nat, pings: nat, other: nat)

  function Count(s: seq<Event>, k: Kind): (n: nat) {
    if s == [] then 0 else Count(s[..|s| - 1], k) + if s[|s| - 1].kind == k then 1 else 0
  }

  /** The drain's counters: each kind is counted, and together they are the whole. */
  method TallyAbandoned(stranded: seq<Event>) returns (t: Tally)
    ensures t.total == |stranded| == t.shares + t.pings + t.other
    ensures t.shares == Count(stranded, Share) && t.pings == Count(stranded, Ping)
  {
    var total, shares, pings, other: nat := 0, 0, 0, 0;
    for i := 0 to |stranded|
      invariant total == i == shares + pings + other
      invariant shares == Count(stranded[..i], Share) && pings == Count(stranded[..i], Ping)
    {
      assert stranded[..i + 1][..i] == stranded[..i];
      total := total + 1;
      match stranded[i].kind
      case Share => shares := shares + 1;
      case Ping => pings := pings + 1;
      case _ => other := other + 1;
    }
    assert stranded[..|stranded|] == stranded;
    t := Tally(total, shares, pings, other);
  }

  // ----- what is not promised -----

  lemma AuthSteps(auth: Event) returns (run: seq<State>)
    requires auth == Event(1, Auth)
    ensures IsRun(run) && run[|run| - 1] == State(1, {}, [], false, Scheduled, [auth], [], [], [])
  {
    var s0 := State(0, {}, [], false, Opening, [], [], [], []);
    var s1 := s0.(issued := 1, phase := Authenticating(auth));
    run := [s0];
    run := Extend(run, AuthAssign, s1);
    hide IsRun;
    run := Extend(run, AuthWrite, s1.(wire := [auth], phase := Scheduled));
  }

  lemma FirstSteps(auth: Event) returns (run: seq<State>)
    requires auth == Event(1, Auth)
    ensures IsRun(run) && run[|run| - 1] == State(1, {}, [], false, Reading, [auth], [], [], [])
  {
    run := AuthSteps(auth);
    hide IsRun;
    run := Extend(run, WriterStart, State(1, {}, [], false, Reading, [auth], [], [], []));
  }

  /** Producers that fill the channel before the writer's task is scheduled. */
  lemma {:induction false} AcceptMany(n: nat) returns (run: seq<State>)
    requires n <= CAPACITY
    ensures IsRun(run)
    ensures var s := run[|run| - 1];
      s == State(n + 1, {}, s.channel, false, Scheduled, [Event(1, Auth)], [], [], s.channel) && |s.channel| == n
  {
    if n == 0 {
      run := AuthSteps(Event(1, Auth));
    } else {
      run := AcceptMany(n - 1);
      hide IsRun;
      var s, e := run[|run| - 1], Event(n + 1, Share);
      assert {} + {e} == {e} && {e} - {e} == {};
      var s' := s.(issued := n + 1, pending := {e});
      run := Extend(run, Assign(Share), s');
      run := Extend(run, Accept(e), s'.(pending := {}, channel := s.channel + [e], accepted := s.channel + [e]));
    }
  }

  /** Accepted events can be lost: for every number up to the channel's capacity there is a run whose
      writer never starts and which accepted that many events, none of them written, in flight or counted. */
  lemma EventsMayBeLost(n: nat) returns (run: seq<State>)
    requires n <= CAPACITY
    ensures IsRun(run)
    ensures var s := run[|run| - 1];
      Over(s) && |s.accepted| == n && Body(s) + s.inFlight + s.abandoned == []
  {
    run := AcceptMany(n);
    hide IsRun;
    run := Extend(run, WriterCancel, run[|run| - 1].(phase := NeverStarted));
  }

  /** Two waiting events enter an empty channel. */
  lemma AcceptTwo(run: seq<State>, a: Event, b: Event) returns (longer: seq<State>)
    requires IsRun(run) && a != b
    requires var s := run[|run| - 1]; !s.closed && s.channel == [] && s.accepted == [] && s.pending == {b, a}
    ensures IsRun(longer) && longer != []
    ensures longer[|longer| - 1] == run[|run| - 1].(pending := {}, channel := [a, b], accepted := [a, b])
  {
    var s := run[|run| - 1];
    assert s.pending - {a} == {b} && {b} - {b} == {};
    var s' := s.(pending := {b}, channel := [a], accepted := [a]);
    longer := Extend(run, Accept(a), s');
    hide IsRun;
    longer := Extend(longer, Accept(b), s'.(pending := {}, channel := [a, b], accepted := [a, b]));
  }

  /** Numbers need not rise along the wire: two producers can take 2 and 3 and enter in the other
      order. */
  lemma NumbersMayCross() returns (run: seq<State>)
    ensures IsRun(run)
    ensures var w := run[|run| - 1].wire; |w| == 3 && w[1].number > w[2].number
  {
    var auth, e2, e3 := Event(1, Auth), Event(2, Share), Event(3, Ping);
    run := FirstSteps(auth);
    hide IsRun;
    var s2 := State(1, {}, [], false, Reading, [auth], [], [], []);
    var s3 := s2.(issued := 2, pending := {e2});
    var s4 := s3.(issued := 3, pending := {e2, e3});
    assert {} + {e2} == {e2} && {e2} + {e3} == {e2, e3};
    run := Extend(run, Assign(Share), s3);
    run := Extend(run, Assign(Ping), s4);
    run := AcceptTwo(run, e3, e2);
    run := WriteTwo(run, e3, e2);
  }

  /** The writer sends the two events that wait. */
  lemma WriteTwo(run: seq<State>, a: Event, b: Event) returns (longer: seq<State>)
    requires IsRun(run)
    requires var s := run[|run| - 1]; s.phase == Reading && s.channel == [a, b]
    ensures IsRun(longer) && longer != [] && longer[|longer| - 1].wire == run[|run| - 1].wire + [a, b]
  {
    var s := run[|run| - 1];
    longer := Extend(run, Take, s.(phase := Writing(a), channel := [b]));
    hide IsRun;
    longer := Extend(longer, WriteDone, s.(channel := [b], wire := s.wire + [a]));
    longer := Extend(longer, Take, s.(phase := Writing(b), channel := [], wire := s.wire + [a]));
    longer := Extend(longer, WriteDone, s.(channel := [], wire := s.wire + [a] + [b]));
  }

  lemma Extend(run: seq<State>, a: Action, s': State) returns (longer: seq<State>)
    requires IsRun(run) && Step(run[|run| - 1], a, s')
    ensures IsRun(longer) && longer != [] && longer[|longer| - 1] == s'
  {
    longer := run + [s'];
    assert Next(run[|run| - 1], s');
    hide Step, Next;
    forall i | 0 <= i < |longer| - 1
      ensures Next(longer[i], longer[i + 1])
    {
      if i < |run| - 1 {
        assert Next(run[i], run[i + 1]);
      }
    }
  }
}
