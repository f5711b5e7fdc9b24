/** When sequence numbers rise along the wire, and when they need not. */
module StreamOrder {
  import opened OutboundStream

  ghost predicate Rising(s: seq<Event>) {
    forall i, j | 0 <= i < j < |s| :: s[i].number < s[j].number
  }

  /** Producers take their numbers one at a time: none while another waits to enter the channel, and
      none before the Auth frame has taken its own. */
  ghost predicate SerialNext(s: State, s': State) {
    exists a :: Step(s, a, s') && (a.Assign? ==> s.pending == {} && s.phase != Opening)
  }

  ghost predicate SerialPath(path: seq<State>) {
    path != [] && forall i | 0 <= i < |path| - 1 :: SerialNext(path[i], path[i + 1])
  }

  /** The Auth frame, once it has a number, and everything accepted. */
  function Line(s: State): seq<Event> {
    if s.phase.Authenticating? then [s.phase.auth] + s.accepted
    else if s.wire != [] then [s.wire[0]] + s.accepted
    else s.accepted
  }

  /** Numbers rise along the line, and at most one event waits, numbered above it. */
  ghost predicate InOrder(s: State) {
    if s.phase == Failed then true
    else if s.phase == Opening then s.accepted == [] && s.pending == {}
    else
      && Rising(Line(s))
      && (forall e, i | e in s.pending && 0 <= i < |Line(s)| :: Line(s)[i].number < e.number)
      && (forall e, f | e in s.pending && f in s.pending :: e == f)
  }

  ghost predicate Continues(s: State, path: seq<State>) {
    path != [] && SerialPath(path) && path[0] == s
  }

  // ----- order is kept -----

  lemma LineBelow(s: State)
    requires Inv(s)
    ensures forall i | 0 <= i < |Line(s)| :: Line(s)[i].number <= s.issued
  {
  }

  lemma AssignKeepsOrder(s: State, kind: Kind, s': State)
    requires Inv(s) && InOrder(s) && Step(s, Assign(kind), s') && s.pending == {} && s.phase != Opening
    ensures InOrder(s')
  {
    LineBelow(s);
    hide Inv;
    assert Line(s') == Line(s);
  }

  lemma AcceptKeepsOrder(s: State, e: Event, s': State)
    requires InOrder(s) && Step(s, Accept(e), s')
    ensures InOrder(s')
  {
    if s.phase != Opening && s.phase != Failed {
      assert Line(s') == Line(s) + [e];
      hide Line;
    }
  }

  lemma LineKept(s: State, a: Action, s': State)
    requires Inv(s) && Step(s, a, s') && !a.Assign? && !a.Accept? && !a.AuthAssign?
    ensures s'.phase != Failed ==> Line(s') == Line(s) && s'.pending <= s.pending && s'.accepted == s.accepted
    ensures s'.phase == Opening <==> s.phase == Opening
    ensures s'.phase != Failed ==> s.phase != Failed
  {
    hide Conserved, Numbered, AuthNumbered;
  }

  lemma SameLineKeepsOrder(s: State, s': State)
    requires InOrder(s) && (s'.phase == Opening <==> s.phase == Opening)
    requires s'.phase != Failed ==>
      s.phase != Failed && Line(s') == Line(s) && s'.pending <= s.pending && s'.accepted == s.accepted
    ensures InOrder(s')
  {
    hide Line;
  }

  lemma SerialStepKeepsOrder(s: State, s': State)
    requires Inv(s) && InOrder(s) && SerialNext(s, s')
    ensures InOrder(s')
  {
    var a :| Step(s, a, s') && (a.Assign? ==> s.pending == {} && s.phase != Opening);
    match a
    case Assign(kind) => AssignKeepsOrder(s, kind, s');
    case Accept(e) => AcceptKeepsOrder(s, e, s');
    case AuthAssign =>
    case _ =>
      LineKept(s, a, s');
      SameLineKeepsOrder(s, s');
  }

  lemma {:induction false} SerialPathKeepsOrder(path: seq<State>, n: nat)
    requires SerialPath(path) && Inv(path[0]) && InOrder(path[0]) && n < |path|
    ensures Inv(path[n]) && InOrder(path[n])
  {
    hide Inv, InOrder, SerialNext;
    if n > 0 {
      SerialPathKeepsOrder(path, n - 1);
      assert SerialNext(path[n - 1], path[n - 1 + 1]);
      SerialIsNext(path[n - 1], path[n]);
      NextKeepsInv(path[n - 1], path[n]);
      SerialStepKeepsOrder(path[n - 1], path[n]);
    }
  }

  lemma SerialIsNext(s: State, s': State)
    requires SerialNext(s, s')
    ensures Next(s, s')
  {
  }

  lemma OrderedWireRises(s: State)
    requires Inv(s) && InOrder(s)
    ensures Rising(s.wire)
  {
    if s.wire != [] {
      assert forall i | 0 <= i < |s.wire| :: s.wire[i] == Line(s)[i] by {
        assert Body(s) <= s.accepted;
        assert forall i | 0 < i < |s.wire| :: s.wire[i] == Body(s)[i - 1] == s.accepted[i - 1];
      }
    }
  }

  /** In every run whose producers are serialized, numbers rise strictly along the wire at every moment. */
  lemma SerialRunsRise(run: seq<State>, n: nat)
    requires SerialPath(run) && Init(run[0]) && n < |run|
    ensures Rising(run[n].wire)
  {
    InitEstablishes(run[0]);
    SerialPathKeepsOrder(run, n);
    OrderedWireRises(run[n]);
  }

  // ----- disorder can surface -----

  /** The writer can still write, and the channel is open. */
  ghost predicate Live(s: State) {
    !s.closed && (s.phase in {Opening, Scheduled, Reading} || s.phase.Authenticating? || s.phase.Writing?)
  }

  /** A serialized path from `start` to a state that keeps the invariant. */
  ghost predicate GoesOn(start: State, path: seq<State>) {
    Continues(start, path) && Inv(path[|path| - 1])
  }

  function End(path: seq<State>): State
    requires path != []
  {
    path[|path| - 1]
  }

  lemma Go(start: State, path: seq<State>, a: Action, s': State) returns (longer: seq<State>)
    requires path != [] && GoesOn(start, path) && Step(End(path), a, s') && !a.Assign?
    ensures longer != [] && GoesOn(start, longer) && End(longer) == s'
  {
    hide *;
    longer := path + [s'];
    var s := End(path);
    StepIsSerial(s, a, s');
    SerialIsNext(s, s');
    PathGrows(start, path, s');
    NextKeepsInv(s, s');
    EndOf(longer, s');
  }

  lemma StepIsSerial(s: State, a: Action, s': State)
    requires Step(s, a, s') && !a.Assign?
    ensures SerialNext(s, s')
  {
    hide Step;
  }

  lemma EndOf(path: seq<State>, s: State)
    requires path != [] && path[|path| - 1] == s
    ensures End(path) == s
  {
  }

  lemma PathGrows(start: State, path: seq<State>, s': State)
    requires path != [] && GoesOn(start, path) && SerialNext(End(path), s')
    ensures Inv(End(path)) && (Inv(s') ==> GoesOn(start, path + [s']))
  {
    hide Inv, SerialNext;
    var longer := path + [s'];
    forall i | 0 <= i < |longer| - 1
      ensures SerialNext(longer[i], longer[i + 1])
    {
      if i < |path| - 1 {
        assert SerialNext(path[i], path[i + 1]);
      }
    }
  }

  /** Bring the writer to its loop: nothing is accepted or numbered on the way except Auth itself. */
  lemma ToReading(start: State, path: seq<State>) returns (longer: seq<State>)
    requires path != [] && GoesOn(start, path) && Live(End(path))
    ensures longer != [] && GoesOn(start, longer)
    ensures var s, t := End(path), End(longer);
      && t.phase == Reading && Live(t) && t.pending == s.pending && t.accepted == s.accepted
      && t.wire != []
      && (s.phase != Opening ==> Line(t) == Line(s))
      && (s.phase == Opening ==> t.wire[0].number == s.issued + 1)
  {
    hide GoesOn;
    longer := path;
    var s := End(path);
    if s.phase == Opening {
      s := s.(issued := s.issued + 1, phase := Authenticating(Event(s.issued + 1, Auth)));
      longer := Go(start, longer, AuthAssign, s);
    }
    if s.phase.Authenticating? {
      s := s.(wire := [s.phase.auth], phase := Scheduled);
      longer := Go(start, longer, AuthWrite, s);
    }
    if s.phase == Scheduled {
      s := s.(phase := Reading);
      longer := Go(start, longer, WriterStart, s);
    }
    if s.phase.Writing? {
      WritingHasWire(start, longer);
      s := s.(phase := Reading, wire := s.wire + [s.phase.event]);
      longer := Go(start, longer, WriteDone, s);
    }
    WritingHasWire(start, longer);
  }

  lemma WritingHasWire(start: State, path: seq<State>)
    requires GoesOn(start, path)
    ensures path != [] && (End(path).phase.Writing? || End(path).phase == Reading ==> End(path).wire != [])
  {
  }

  /** Let the writer empty the channel: then the wire is the whole line. */
  lemma {:induction false} Flush(start: State, path: seq<State>) returns (longer: seq<State>)
    requires path != [] && GoesOn(start, path) && End(path).phase == Reading && Live(End(path)) && End(path).wire != []
    ensures longer != [] && GoesOn(start, longer)
    ensures var s, t := End(path), End(longer);
      && t.phase == Reading && Live(t) && t.channel == [] && t.wire == Line(t) == Line(s)
      && t.pending == s.pending && t.accepted == s.accepted && t.wire != [] && t.wire[0] == s.wire[0]
    decreases |End(path).channel|
  {
    hide GoesOn;
    var s := End(path);
    if s.channel == [] {
      longer := path;
      EmptyChannel(start, path);
    } else {
      var taken := s.(phase := Writing(s.channel[0]), channel := s.channel[1..]);
      longer := Go(start, path, Take, taken);
      longer := Go(start, longer, WriteDone, taken.(phase := Reading, wire := taken.wire + [s.channel[0]]));
      longer := Flush(start, longer);
    }
  }

  lemma EmptyChannel(start: State, path: seq<State>)
    requires path != [] && GoesOn(start, path) && End(path).phase == Reading && End(path).channel == []
    ensures End(path).wire == Line(End(path))
  {
    var s := End(path);
    assert Body(s) + [] + [] + [] + [] == Body(s);
  }

  /** One waiting event enters and is written. */
  lemma Send(start: State, path: seq<State>, e: Event) returns (longer: seq<State>)
    requires path != [] && GoesOn(start, path) && End(path).phase == Reading && Live(End(path))
    requires End(path).channel == [] && e in End(path).pending
    ensures longer != [] && GoesOn(start, longer)
    ensures var s, t := End(path), End(longer);
      && t.phase == Reading && Live(t) && t.channel == [] && t.wire == s.wire + [e] && t.pending == s.pending - {e}
  {
    hide GoesOn;
    var s := End(path);
    var entered := s.(pending := s.pending - {e}, channel := [e], accepted := s.accepted + [e]);
    longer := Go(start, path, Accept(e), entered);
    var taken := entered.(phase := Writing(e), channel := []);
    longer := Go(start, longer, Take, taken);
    longer := Go(start, longer, WriteDone, taken.(phase := Reading, wire := taken.wire + [e]));
  }

  /** An event waits behind a number on the wire that is not smaller. */
  ghost predicate Behind(t: State, e: Event) {
    e in t.pending && exists i | 0 <= i < |t.wire| :: t.wire[i].number >= e.number
  }

  /** Two events wait, the first with the smaller number. */
  ghost predicate Together(t: State, e: Event, f: Event) {
    e in t.pending && f in t.pending && e.number < f.number
  }

  /** What remains of the disorder once the line is on the wire. */
  lemma WhyDisorder(s: State, t: State)
    requires Inv(s) && Live(s) && !InOrder(s) && t.wire != [] && t.pending == s.pending
    requires s.phase != Opening ==> t.wire == Line(s)
    requires s.phase == Opening ==> t.wire[0].number == s.issued + 1 && t.wire[1..] == s.accepted
    ensures !Rising(t.wire) || (exists e :: Behind(t, e)) || (exists e, f :: Together(t, e, f))
  {
    if s.phase == Opening {
      if s.accepted != [] {
        assert t.wire[1] == t.wire[1..][0] == s.accepted[0];
      } else {
        var e :| e in s.pending;
        assert t.wire[0].number >= e.number;
        assert Behind(t, e);
      }
    } else if Rising(Line(s)) {
      if e, i :| e in s.pending && 0 <= i < |Line(s)| && Line(s)[i].number >= e.number {
        assert t.wire[i].number >= e.number;
        assert Behind(t, e);
      } else {
        var e, f :| e in s.pending && f in s.pending && e != f;
        assert Together(t, e, f) || Together(t, f, e);
      }
    }
  }

  /** The writer idle in its loop, with everything accepted on the wire. */
  ghost predicate Idle(t: State) {
    t.phase == Reading && Live(t) && t.channel == []
  }

  lemma Prepare(start: State) returns (path: seq<State>)
    requires Inv(start) && Live(start)
    ensures path != [] && GoesOn(start, path) && Idle(End(path))
    ensures var t := End(path);
      && t.wire != [] && t.pending == start.pending
      && (start.phase != Opening ==> t.wire == Line(start))
      && (start.phase == Opening ==> t.wire[0].number == start.issued + 1 && t.wire[1..] == start.accepted)
  {
    path := [start];
    assert GoesOn(start, path);
    hide Inv, GoesOn;
    path := ToReading(start, path);
    path := Flush(start, path);
    LineStarts(End(path));
  }

  lemma WriteBehind(start: State, path: seq<State>, e: Event) returns (longer: seq<State>)
    requires path != [] && GoesOn(start, path) && Idle(End(path)) && Behind(End(path), e)
    ensures longer != [] && GoesOn(start, longer) && !Rising(End(longer).wire)
  {
    hide GoesOn, Rising;
    var t := End(path);
    longer := Send(start, path, e);
    var i :| 0 <= i < |t.wire| && t.wire[i].number >= e.number;
    NotRising(t.wire + [e], i, |t.wire|);
  }

  lemma WriteTogether(start: State, path: seq<State>, e: Event, f: Event) returns (longer: seq<State>)
    requires path != [] && GoesOn(start, path) && Idle(End(path)) && Together(End(path), e, f)
    ensures longer != [] && GoesOn(start, longer) && !Rising(End(longer).wire)
  {
    hide GoesOn, Rising;
    var t := End(path);
    longer := Send(start, path, f);
    longer := Send(start, longer, e);
    NotRising(t.wire + [f] + [e], |t.wire|, |t.wire| + 1);
  }

  /** From a live state that is not in order, the waiting events can be written so that a smaller number
      follows a larger one, with no further number taken by a producer. */
  lemma DisorderSurfaces(start: State) returns (path: seq<State>)
    requires Inv(start) && Live(start) && !InOrder(start)
    ensures Continues(start, path) && !Rising(End(path).wire)
  {
    hide *;
    path := Prepare(start);
    var t := End(path);
    WhyDisorder(start, t);
    if e :| Behind(t, e) {
      path := WriteBehind(start, path, e);
    } else if e, f :| Together(t, e, f) {
      path := WriteTogether(start, path, e, f);
    }
    GoesOnContinues(start, path);
  }

  lemma LineStarts(t: State)
    requires t.phase == Reading && t.wire != [] && t.wire == Line(t)
    ensures t.wire[1..] == t.accepted
  {
  }

  lemma GoesOnContinues(start: State, path: seq<State>)
    requires GoesOn(start, path)
    ensures Continues(start, path)
  {
    hide Inv;
  }

  lemma NotRising(s: seq<Event>, i: nat, j: nat)
    requires i < j < |s| && s[i].number >= s[j].number
    ensures !Rising(s)
  {
  }

  /** Exactly: from any live state that keeps the invariant, every serialized continuation keeps numbers
      rising along the wire if and only if the state is in order. */
  lemma NumbersRiseExactly(s: State)
    requires Inv(s) && Live(s)
    ensures InOrder(s) <==> forall path: seq<State> | Continues(s, path) :: Rising(End(path).wire)
  {
    hide Inv, Live, InOrder, Rising, SerialNext;
    if InOrder(s) {
      forall path: seq<State> | Continues(s, path) ensures Rising(End(path).wire) {
        SerialPathKeepsOrder(path, |path| - 1);
        OrderedWireRises(End(path));
      }
    } else {
      var path := DisorderSurfaces(s);
    }
  }
}
