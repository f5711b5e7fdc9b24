/** The record of which job id belongs to which σ, with eviction of the oldest of more than 100. */
module SigmaJobs {

  const LIMIT: nat := 100

  /** The dictionary and its insertion-order companion. */
  datatype Record = Record(jobs: map<string, string>, order: seq<string>)

  ghost predicate Distinct(s: seq<string>) {
    forall a, b | 0 <= a < b < |s| :: s[a] != s[b]
  }

  /** The queue lists exactly the keys, each once, and there are at most 100. */
  ghost predicate WellFormed(r: Record) {
    && Distinct(r.order)
    && (forall x :: x in r.order <==> x in r.jobs)
    && |r.order| <= LIMIT
  }

  // ----- one notification, as a function of values -----

  function Insert(r: Record, sigma: string, job: string): (r': Record) {
    Record(r.jobs[sigma := job], if sigma in r.jobs then r.order else r.order + [sigma])
  }

  function Evict(r: Record): (r': Record)
    decreases |r.order|
  {
    if |r.jobs| > LIMIT && r.order != [] then Evict(Record(r.jobs - {r.order[0]}, r.order[1..])) else r
  }

  function Notified(r: Record, sigma: string, job: string): (r': Record) {
    Evict(Insert(r, sigma, job))
  }

  lemma {:induction false} DistinctSize(s: seq<string>, keys: set<string>)
    requires Distinct(s) && forall x :: x in s <==> x in keys
    ensures |keys| == |s|
  {
    if s == [] {
      assert keys == {};
    } else {
      var rest := s[1..];
      forall x ensures x in rest <==> x in keys - {s[0]} {
        assert x in s <==> x == s[0] || x in rest;
      }
      DistinctSize(rest, keys - {s[0]});
    }
  }

  lemma KnownIs(r: Record, sigma: string, job: string)
    requires WellFormed(r) && sigma in r.jobs
    ensures var n := Record(r.jobs[sigma := job], r.order); Notified(r, sigma, job) == n && WellFormed(n)
  {
    DistinctSize(r.order, r.jobs[sigma := job].Keys);
  }

  lemma NewFits(r: Record, sigma: string, job: string)
    requires WellFormed(r) && sigma !in r.jobs && |r.order| < LIMIT
    ensures var n := Record(r.jobs[sigma := job], r.order + [sigma]);
      Notified(r, sigma, job) == n && WellFormed(n)
  {
    DistinctSize(r.order + [sigma], r.jobs[sigma := job].Keys);
  }

  lemma NewEvicts(r: Record, sigma: string, job: string)
    requires WellFormed(r) && sigma !in r.jobs && |r.order| >= LIMIT
    ensures var n := Record(r.jobs[sigma := job] - {r.order[0]}, r.order[1..] + [sigma]);
      Notified(r, sigma, job) == n && WellFormed(n)
  {
    var i := Record(r.jobs[sigma := job], r.order + [sigma]);
    DistinctSize(i.order, i.jobs.Keys);
    var e := Record(i.jobs - {i.order[0]}, i.order[1..]);
    assert e.order == r.order[1..] + [sigma];
    EvictedIsWellFormed(i, e);
    assert Evict(i) == Evict(e);
  }

  lemma EvictedIsWellFormed(i: Record, e: Record)
    requires Distinct(i.order) && |i.order| == LIMIT + 1 && (forall x :: x in i.order <==> x in i.jobs)
    requires e == Record(i.jobs - {i.order[0]}, i.order[1..])
    ensures WellFormed(e) && Evict(e) == e
  {
    forall x ensures x in e.order <==> x in e.jobs {
      assert x in i.order <==> x == i.order[0] || x in e.order;
    }
    DistinctSize(e.order, e.jobs.Keys);
  }

  /** The full effect of one notification: a known σ only gets the new job; a new one joins the
      queue's end, and past 100 the oldest leaves both structures. */
  lemma NotifiedIs(r: Record, sigma: string, job: string)
    requires WellFormed(r)
    ensures WellFormed(Notified(r, sigma, job))
    ensures Notified(r, sigma, job) ==
      if sigma in r.jobs then Record(r.jobs[sigma := job], r.order)
      else if |r.order| < LIMIT then Record(r.jobs[sigma := job], r.order + [sigma])
      else Record(r.jobs[sigma := job] - {r.order[0]}, r.order[1..] + [sigma])
  {
    hide *;
    if sigma in r.jobs {
      KnownIs(r, sigma, job);
    } else if |r.order| < LIMIT {
      NewFits(r, sigma, job);
    } else {
      NewEvicts(r, sigma, job);
    }
  }

  // ----- the object -----

  datatype Lookup = Recorded(job: string) | Missed(standIn: string) | Throws

  class JobTable {
    var jobs: map<string, string>
    var order: seq<string>

    ghost function Value(): Record
      reads this
    {
      Record(jobs, order)
    }

    constructor ()
      ensures Value() == Record(map[], []) && WellFormed(Value())
    {
      jobs := map[];
      order := [];
    }

    /** Records a notification under the lock. */
    method Notify(sigma: string, job: string)
      requires WellFormed(Value())
      modifies this
      ensures Value() == Notified(old(Value()), sigma, job) && WellFormed(Value())
    {
      NotifiedIs(Value(), sigma, job);
      if sigma !in jobs {
        order := order + [sigma];
      }
      jobs := jobs[sigma := job];
      while |jobs| > LIMIT && order != []
        invariant Evict(Value()) == Notified(old(Value()), sigma, job)
        decreases |order|
      {
        var oldest := order[0];
        order := order[1..];
        jobs := jobs - {oldest};
      }
    }

    /** The job id a share is submitted under. For a σ that is not recorded it is the σ's first sixteen
        bytes, and slicing those off a shorter one throws. */
    method JobFor(sigma: string) returns (r: Lookup)
      ensures r.Recorded? <==> sigma in jobs
      ensures r.Throws? <==> sigma !in jobs && |sigma| < 32
      ensures r.Recorded? ==> r.job == jobs[sigma]
      ensures r.Missed? ==> |sigma| >= 32 && r.standIn == sigma[..32]
    {
      if sigma in jobs {
        return Recorded(jobs[sigma]);
      }
      if |sigma| < 32 {
        return Throws;
      }
      r := Missed(sigma[..32]);
    }
  }

  // ----- runs of notifications -----

  datatype Notification = Notification(sigma: string, job: string)

  function After(ns: seq<Notification>): (r: Record) {
    if ns == [] then Record(map[], []) else
      var n := ns[|ns| - 1];
      Notified(After(ns[..|ns| - 1]), n.sigma, n.job)
  }

  /** Every insertion ever made, oldest first: a σ is inserted when it arrives and is not recorded. */
  function Inserted(ns: seq<Notification>): (log: seq<string>) {
    if ns == [] then [] else
      var before := ns[..|ns| - 1];
      var sigma := ns[|ns| - 1].sigma;
      Inserted(before) + if sigma in After(before).jobs then [] else [sigma]
  }

  ghost predicate Mentioned(ns: seq<Notification>, sigma: string) {
    exists i | 0 <= i < |ns| :: ns[i].sigma == sigma
  }

  lemma MentionedBefore(ns: seq<Notification>, sigma: string)
    requires ns != []
    ensures Mentioned(ns, sigma) <==> ns[|ns| - 1].sigma == sigma || Mentioned(ns[..|ns| - 1], sigma)
  {
    var front := ns[..|ns| - 1];
    if Mentioned(ns, sigma) {
      var i :| 0 <= i < |ns| && ns[i].sigma == sigma;
      assert i < |front| ==> front[i].sigma == sigma;
    }
    if Mentioned(front, sigma) {
      var i :| 0 <= i < |front| && front[i].sigma == sigma;
      assert ns[i].sigma == sigma;
    }
  }

  /** The job of the latest notification for σ. */
  ghost function Latest(ns: seq<Notification>, sigma: string): (job: string)
    requires Mentioned(ns, sigma)
  {
    MentionedBefore(ns, sigma);
    if ns[|ns| - 1].sigma == sigma then ns[|ns| - 1].job else Latest(ns[..|ns| - 1], sigma)
  }

  /** The last n elements, or all of them. */
  function Last(s: seq<string>, n: nat): (t: seq<string>) {
    if |s| <= n then s else s[|s| - n..]
  }

  lemma {:induction false} RunWellFormed(ns: seq<Notification>)
    ensures WellFormed(After(ns))
  {
    if ns != [] {
      RunWellFormed(ns[..|ns| - 1]);
      hide WellFormed, Notified;
      NotifiedIs(After(ns[..|ns| - 1]), ns[|ns| - 1].sigma, ns[|ns| - 1].job);
    }
  }

  /** The queue is the last hundred insertions. */
  lemma {:induction false} RunOrder(ns: seq<Notification>)
    ensures After(ns).order == Last(Inserted(ns), LIMIT)
  {
    if ns != [] {
      var before, n := ns[..|ns| - 1], ns[|ns| - 1];
      RunOrder(before);
      RunWellFormed(before);
      NotifiedIs(After(before), n.sigma, n.job);
      hide *;
      OneMore(ns);
      LastGrows(Inserted(before), n.sigma);
    }
  }

  lemma OneMore(ns: seq<Notification>)
    requires ns != []
    ensures var before, n := ns[..|ns| - 1], ns[|ns| - 1];
      && After(ns) == Notified(After(before), n.sigma, n.job)
      && (n.sigma in After(before).jobs ==> Inserted(ns) == Inserted(before))
      && (n.sigma !in After(before).jobs ==> Inserted(ns) == Inserted(before) + [n.sigma])
  {
    hide Notified;
  }

  lemma LastGrows(log: seq<string>, x: string)
    ensures |Last(log, LIMIT)| < LIMIT ==> Last(log + [x], LIMIT) == Last(log, LIMIT) + [x]
    ensures |Last(log, LIMIT)| >= LIMIT ==> Last(log + [x], LIMIT) == Last(log, LIMIT)[1..] + [x]
  {
  }

  /** Each recorded σ maps to its newest job. */
  lemma {:induction false} RunJobs(ns: seq<Notification>, x: string)
    requires x in After(ns).jobs
    ensures Mentioned(ns, x) && After(ns).jobs[x] == Latest(ns, x)
  {
    var before, n := ns[..|ns| - 1], ns[|ns| - 1];
    RunWellFormed(before);
    NotifiedIs(After(before), n.sigma, n.job);
    MentionedBefore(ns, x);
    hide Notified, WellFormed, Mentioned;
    if x != n.sigma {
      RunJobs(before, x);
    }
  }

  /** The newest σ is always recorded. */
  lemma NewestIsRecorded(ns: seq<Notification>)
    requires ns != []
    ensures ns[|ns| - 1].sigma in After(ns).jobs
  {
    var before, n := ns[..|ns| - 1], ns[|ns| - 1];
    RunWellFormed(before);
    NotifiedIs(After(before), n.sigma, n.job);
  }

  /** What a submitter relies on: the σ of any of the hundred most recent insertions is found, with
      its newest job id, and so is the σ notified last. */
  lemma RecentSigmasAreFound(ns: seq<Notification>, sigma: string)
    requires ns != []
    requires sigma in Last(Inserted(ns), LIMIT) || sigma == ns[|ns| - 1].sigma
    ensures sigma in After(ns).jobs && Mentioned(ns, sigma) && After(ns).jobs[sigma] == Latest(ns, sigma)
    ensures |After(ns).jobs| <= LIMIT
  {
    NewestIsRecorded(ns);
    RunOrder(ns);
    RunWellFormed(ns);
    var r := After(ns);
    hide After, Inserted, Last, Latest, Mentioned;
    DistinctSize(r.order, r.jobs.Keys);
    assert sigma in r.jobs;
    RunJobs(ns, sigma);
  }
}
