/** The strided workers of the challenge search, as a state machine over their interleavings. */
module ChallengeWorkers {
  import opened Digests
  import opened Challenge

  const MODULUS: nat := 0x1_0000_0000_0000_0000

  /** Where a worker is: about to read the found flag, to read the cancel token, to hash, to
      compare-exchange the flag, to write the winning nonce, or gone. */
  datatype Pc = ReadFlag | ReadCancel | Hash | Exchange | Write | Gone

  /** `tries` counts the nonces this worker has hashed and moved past. */
  datatype Worker = Worker(pc: Pc, tries: nat)

  datatype State = State(workers: seq<Worker>, flag: bool, found: nat, cancelled: bool, winner: Option<nat>)

  /** The problem every worker works on. */
  datatype Problem = Problem(seed: seq<Byte>, difficulty: int, threads: nat) {
    ghost predicate Valid() {
      |seed| == 32 && threads >= 1
    }
  }

  ghost predicate Win(p: Problem, nonce: nat)
    requires p.Valid()
  {
    Wins(p.seed, nonce, p.difficulty)
  }

  /** The nonce worker t hashes on its i-th try; the 64-bit counter wraps. */
  function Nonce(p: Problem, t: nat, i: nat): (n: nat) {
    (t + p.threads * i) % MODULUS
  }

  ghost predicate Init(p: Problem, s: State) {
    && |s.workers| == p.threads
    && (forall t | 0 <= t < |s.workers| :: s.workers[t] == Worker(ReadFlag, 0))
    && !s.flag && s.found == 0 && s.winner == None
  }

  /** The flags are looked at only every 8192 tries. */
  predicate LooksAtFlags(p: Problem, t: nat, w: Worker)
    requires p.threads >= 1
  {
    (Nonce(p, t, w.tries) / p.threads) % 8192 == 0
  }

  /** One step of worker t. */
  ghost predicate WorkerStep(p: Problem, s: State, s': State, t: nat)
    requires p.Valid() && t < |s.workers|
  {
    var w := s.workers[t];
    var nonce := Nonce(p, t, w.tries);
    match w.pc
    case ReadFlag =>
      s' == s.(workers := s.workers[t := w.(pc :=
        if !LooksAtFlags(p, t, w) then Hash else if s.flag then Gone else ReadCancel)])
    case ReadCancel =>
      s' == s.(workers := s.workers[t := w.(pc := if s.cancelled then Gone else Hash)])
    case Hash =>
      s' == s.(workers := s.workers[t := if Win(p, nonce) then w.(pc := Exchange) else Worker(ReadFlag, w.tries + 1)])
    case Exchange =>
      if s.flag then s' == s.(workers := s.workers[t := w.(pc := Gone)])
      else s' == s.(workers := s.workers[t := w.(pc := Write)], flag := true, winner := Some(t))
    case Write =>
      s' == s.(workers := s.workers[t := w.(pc := Gone)], found := nonce)
    case Gone => false
  }

  ghost predicate Next(p: Problem, s: State, s': State)
    requires p.Valid()
  {
    || (exists t: nat | t < |s.workers| :: WorkerStep(p, s, s', t))
    || s' == s.(cancelled := true)
  }

  // ----- what every step keeps -----

  ghost predicate WorkerInv(p: Problem, s: State, t: nat)
    requires p.Valid() && t < |s.workers|
  {
    var w := s.workers[t];
    && (forall i: nat | i < w.tries :: !Win(p, Nonce(p, t, i)))
    && (w.pc in {Exchange, Write} ==> Win(p, Nonce(p, t, w.tries)))
    && (w.pc == Write ==> s.winner == Some(t))
    && (w.pc == Gone ==> s.flag || s.cancelled)
  }

  ghost predicate Inv(p: Problem, s: State)
    requires p.Valid()
  {
    && |s.workers| == p.threads
    && (s.flag <==> s.winner.Some?)
    && (forall t: nat | t < |s.workers| :: WorkerInv(p, s, t))
    && (s.winner.Some? ==> s.winner.value < p.threads && WinnerInv(p, s, s.winner.value))
  }

  /** The worker that won the exchange has a winning nonce, which is in place once it is gone. */
  ghost predicate WinnerInv(p: Problem, s: State, t: nat)
    requires p.Valid() && t < |s.workers|
  {
    var w := s.workers[t];
    && w.pc in {Write, Gone}
    && Win(p, Nonce(p, t, w.tries))
    && (w.pc == Gone ==> s.found == Nonce(p, t, w.tries))
  }

  lemma InitEstablishes(p: Problem, s: State)
    requires p.Valid() && Init(p, s)
    ensures Inv(p, s)
  {
    hide Win, Nonce, LooksAtFlags;
  }

  lemma StepKeepsOthers(p: Problem, s: State, s': State, t: nat, u: nat)
    requires p.Valid() && Inv(p, s) && t < |s.workers| && WorkerStep(p, s, s', t) && u < |s.workers| && u != t
    ensures |s'.workers| == |s.workers| && WorkerInv(p, s', u)
  {
    hide Win, Nonce, LooksAtFlags;
    assert WorkerInv(p, s, u) && WorkerInv(p, s, t);
  }

  lemma StepKeepsOwn(p: Problem, s: State, s': State, t: nat)
    requires p.Valid() && Inv(p, s) && t < |s.workers| && WorkerStep(p, s, s', t)
    ensures |s'.workers| == |s.workers| && WorkerInv(p, s', t)
  {
    hide Win, Nonce, LooksAtFlags;
    assert WorkerInv(p, s, t);
  }

  lemma StepKeepsInv(p: Problem, s: State, s': State, t: nat)
    requires p.Valid() && Inv(p, s) && t < |s.workers| && WorkerStep(p, s, s', t)
    ensures Inv(p, s')
  {
    hide Win, Nonce, LooksAtFlags;
    StepKeepsOwn(p, s, s', t);
    StepKeepsWinner(p, s, s', t);
    assert s'.flag <==> s'.winner.Some?;
    hide WorkerStep, WorkerInv, WinnerInv;
    forall u: nat | u < |s'.workers| ensures WorkerInv(p, s', u) {
      if u != t {
        StepKeepsOthers(p, s, s', t, u);
      }
    }
  }

  lemma StepKeepsWinner(p: Problem, s: State, s': State, t: nat)
    requires p.Valid() && Inv(p, s) && t < |s.workers| && WorkerStep(p, s, s', t)
    ensures |s'.workers| == |s.workers| && (s'.flag <==> s'.winner.Some?)
    ensures s'.winner.Some? ==> s'.winner.value < p.threads && WinnerInv(p, s', s'.winner.value)
  {
    hide Win, Nonce, LooksAtFlags;
    assert WorkerInv(p, s, t);
  }

  lemma NextKeepsInv(p: Problem, s: State, s': State)
    requires p.Valid() && Inv(p, s) && Next(p, s, s')
    ensures Inv(p, s')
  {
    hide Win, Nonce, LooksAtFlags;
    if t: nat :| t < |s.workers| && WorkerStep(p, s, s', t) {
      StepKeepsInv(p, s, s', t);
    } else {
      forall u: nat | u < |s'.workers| ensures WorkerInv(p, s', u) {
        assert WorkerInv(p, s, u);
      }
    }
  }

  ghost predicate IsRun(p: Problem, run: seq<State>)
    requires p.Valid()
  {
    run != [] && Init(p, run[0]) && forall i | 0 <= i < |run| - 1 :: Next(p, run[i], run[i + 1])
  }

  lemma {:induction false} RunKeepsInv(p: Problem, run: seq<State>, n: nat)
    requires p.Valid() && IsRun(p, run) && n < |run|
    ensures Inv(p, run[n])
  {
    hide Inv, Next;
    if n == 0 {
      InitEstablishes(p, run[0]);
    } else {
      RunKeepsInv(p, run, n - 1);
      assert Next(p, run[n - 1], run[n - 1 + 1]);
      NextKeepsInv(p, run[n - 1], run[n]);
    }
  }

  /** The answer once every worker has been joined. */
  function Answer(s: State): (r: Option<nat>) {
    if s.flag then Some(s.found) else None
  }

  ghost predicate AllGone(s: State) {
    forall t | 0 <= t < |s.workers| :: s.workers[t].pc == Gone
  }

  /** Over every interleaving: a nonce that is returned verifies and belongs to the worker that won
      the exchange; nothing is returned only if the search was cancelled; and every nonce any
      worker moved past does not verify. */
  lemma SolveIsSound(p: Problem, run: seq<State>)
    requires p.Valid() && IsRun(p, run) && AllGone(run[|run| - 1])
    ensures var s := run[|run| - 1];
      && |s.workers| == p.threads
      && (Answer(s).Some? ==>
            && Wins(p.seed, Answer(s).value, p.difficulty)
            && s.winner.Some? && s.winner.value < p.threads
            && Answer(s).value == Nonce(p, s.winner.value, s.workers[s.winner.value].tries))
      && (Answer(s).None? ==> s.cancelled)
      && (forall t: nat, i: nat | t < |s.workers| && i < s.workers[t].tries :: !Win(p, Nonce(p, t, i)))
  {
    hide Nonce, Wins;
    RunKeepsInv(p, run, |run| - 1);
    var s := run[|run| - 1];
    assert WorkerInv(p, s, 0);
    forall t: nat, i: nat | t < |s.workers| && i < s.workers[t].tries
      ensures !Win(p, Nonce(p, t, i))
    {
      assert WorkerInv(p, s, t);
    }
  }

  /** Only the winner of the exchange ever writes the shared nonce, and it writes once. */
  lemma OnlyWinnerWrites(p: Problem, run: seq<State>, n: nat)
    requires p.Valid() && IsRun(p, run) && n + 1 < |run| && run[n].found != run[n + 1].found
    ensures var s, s' := run[n], run[n + 1];
      && s.winner.Some? && s.winner == s'.winner && s.winner.value < |s.workers| == |s'.workers|
      && s.workers[s.winner.value].pc == Write && s'.workers[s.winner.value].pc == Gone
  {
    hide Win, Nonce, LooksAtFlags;
    RunKeepsInv(p, run, n);
    var s, s' := run[n], run[n + 1];
    assert Next(p, s, s');
    var t: nat :| t < |s.workers| && WorkerStep(p, s, s', t);
    assert WorkerInv(p, s, t);
  }
}
