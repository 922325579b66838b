/**
  The priority send guard: one job at a time, lowest priority value first, first come first served
  among equals.  A job is a number in order of arrival; `sync` says whether it completes before it
  returns, which makes the guard start the next job from inside the completion.
 */
module SendGuard {
  import opened Packets

  datatype Job = Job(priority: Byte, arrival: nat, sync: bool)

  /** A job that was started, and the jobs it left waiting. */
  datatype StartEvent = StartEvent(job: Job, waiting: seq<Job>)

  datatype Guard = Guard(jobs: seq<Job>, active: bool, started: seq<StartEvent>)

  const IDLE := Guard([], false, [])

  /** Behind every job whose priority value is not larger. */
  function Inserted(jobs: seq<Job>, job: Job): seq<Job> {
    if jobs == [] || jobs[0].priority > job.priority then [job] + jobs
    else [jobs[0]] + Inserted(jobs[1..], job)
  }

  lemma {:induction false} InsertedAt(jobs: seq<Job>, job: Job, at: nat)
    requires at <= |jobs| && forall i :: 0 <= i < at ==> jobs[i].priority <= job.priority
    requires at < |jobs| ==> jobs[at].priority > job.priority
    ensures Inserted(jobs, job) == jobs[..at] + [job] + jobs[at..]
  {
    if at > 0 {
      InsertedAt(jobs[1..], job, at - 1);
      assert jobs[..at] == [jobs[0]] + jobs[1..][..at - 1];
      assert jobs[1..][at - 1..] == jobs[at..];
    }
  }

  function Pump(g: Guard): Guard
    decreases |g.jobs|
  {
    if g.active || g.jobs == [] then g
    else
      var job, rest := g.jobs[0], g.jobs[1..];
      var started := g.started + [StartEvent(job, rest)];
      if job.sync then Pump(Guard(rest, false, started)) else Guard(rest, true, started)
  }

  function Enqueue(g: Guard, job: Job): Guard {
    Pump(g.(jobs := Inserted(g.jobs, job)))
  }

  /** The completion callback of the active job. */
  function Complete(g: Guard): Guard {
    Pump(g.(active := false))
  }

  class SendGuard {
    var jobs: seq<Job>
    var active: bool
    var started: seq<StartEvent>

    ghost function View(): Guard
      reads this
    {
      Guard(jobs, active, started)
    }

    constructor ()
      ensures View() == IDLE
    {
      jobs, active, started := [], false, [];
    }

    method EnqueueJob(job: Job)
      modifies this
      ensures View() == Enqueue(old(View()), job)
    {
      var at := 0;
      while at < |jobs| && jobs[at].priority <= job.priority
        invariant 0 <= at <= |jobs|
        invariant forall i :: 0 <= i < at ==> jobs[i].priority <= job.priority
      {
        at := at + 1;
      }
      InsertedAt(jobs, job, at);
      jobs := jobs[..at] + [job] + jobs[at..];
      PumpJobs();
    }

    /** Starts the front job; a job that completes at once pumps again from its completion. */
    method PumpJobs()
      modifies this
      ensures View() == Pump(old(View()))
      decreases |jobs|
    {
      if active || jobs == [] {
        return;
      }
      active := true;
      var job := jobs[0];
      jobs := jobs[1..];
      started := started + [StartEvent(job, jobs)];
      if job.sync {
        active := false;
        PumpJobs();
      }
    }

    method CompleteJob()
      requires active
      modifies this
      ensures View() == Complete(old(View()))
    {
      active := false;
      PumpJobs();
    }
  }

  // ----- Scheduling -----

  /** Lower priority value first, then earlier arrival. */
  predicate Before(a: Job, b: Job) {
    a.priority < b.priority || (a.priority == b.priority && a.arrival < b.arrival)
  }

  ghost predicate Sorted(jobs: seq<Job>) {
    forall i, j :: 0 <= i < j < |jobs| ==> Before(jobs[i], jobs[j])
  }

  /** Every job started came before all those it left waiting. */
  ghost predicate FairStarts(started: seq<StartEvent>) {
    forall i, j :: 0 <= i < |started| && 0 <= j < |started[i].waiting| ==> Before(started[i].job, started[i].waiting[j])
  }

  function StartedJobs(started: seq<StartEvent>): multiset<Job> {
    if started == [] then multiset{}
    else StartedJobs(started[..|started| - 1]) + multiset{started[|started| - 1].job}
  }

  /** Started jobs that complete later. */
  function Pending(started: seq<StartEvent>): nat {
    if started == [] then 0
    else Pending(started[..|started| - 1]) + if started[|started| - 1].job.sync then 0 else 1
  }

  /** Started plus waiting is everything enqueued. */
  ghost predicate Conserves(g: Guard, enqueued: multiset<Job>) {
    StartedJobs(g.started) + multiset(g.jobs) == enqueued
  }

  /** At most one job is outstanding, and the guard is never idle with jobs waiting. */
  ghost predicate OneAtATime(g: Guard, completed: nat) {
    && Pending(g.started) == completed + (if g.active then 1 else 0)
    && (g.active || g.jobs == [])
  }

  lemma {:induction false} InsertedElements(jobs: seq<Job>, job: Job)
    ensures multiset(Inserted(jobs, job)) == multiset(jobs) + multiset{job}
  {
    if jobs != [] && jobs[0].priority <= job.priority {
      InsertedElements(jobs[1..], job);
      assert jobs == [jobs[0]] + jobs[1..];
    }
  }

  lemma MemberOfInserted(jobs: seq<Job>, job: Job, x: Job)
    requires x in Inserted(jobs, job)
    ensures x in jobs || x == job
  {
    InsertedElements(jobs, job);
    assert x in multiset(Inserted(jobs, job));
  }

  /** A job that arrives last keeps the queue sorted. */
  lemma {:induction false} InsertedSorted(jobs: seq<Job>, job: Job)
    requires Sorted(jobs) && forall x :: x in jobs ==> x.arrival < job.arrival
    ensures Sorted(Inserted(jobs, job))
  {
    if jobs != [] && jobs[0].priority <= job.priority {
      var rest := jobs[1..];
      InsertedSorted(rest, job);
      var tail := Inserted(rest, job);
      forall j | 0 <= j < |tail| ensures Before(jobs[0], tail[j]) {
        MemberOfInserted(rest, job, tail[j]);
      }
    }
  }

  /** What every state of the guard satisfies, for a given account of jobs and completions. */
  ghost predicate Inv(g: Guard, enqueued: multiset<Job>, completed: nat, arrivals: nat) {
    && Sorted(g.jobs)
    && (forall x :: x in g.jobs ==> x.arrival < arrivals)
    && FairStarts(g.started)
    && Conserves(g, enqueued)
  }

  lemma StartFront(g: Guard, enqueued: multiset<Job>, completed: nat, arrivals: nat) returns (h: Guard)
    requires Inv(g, enqueued, completed, arrivals) && !g.active && g.jobs != []
    requires Pending(g.started) == completed
    ensures h == Guard(g.jobs[1..], !g.jobs[0].sync, g.started + [StartEvent(g.jobs[0], g.jobs[1..])])
    ensures Inv(h, enqueued, completed, arrivals)
    ensures Pending(h.started) == completed + if h.active then 1 else 0
  {
    var event := StartEvent(g.jobs[0], g.jobs[1..]);
    h := Guard(g.jobs[1..], !g.jobs[0].sync, g.started + [event]);
    assert h.started[..|g.started|] == g.started;
    assert g.jobs == [g.jobs[0]] + g.jobs[1..];
  }

  /** Pumping, however many jobs it starts, keeps the account and leaves the guard busy or empty. */
  lemma {:induction false} PumpKeepsInv(g: Guard, enqueued: multiset<Job>, completed: nat, arrivals: nat)
    requires Inv(g, enqueued, completed, arrivals)
    requires Pending(g.started) == completed + if g.active then 1 else 0
    ensures Inv(Pump(g), enqueued, completed, arrivals) && OneAtATime(Pump(g), completed)
    decreases |g.jobs|
  {
    if !g.active && g.jobs != [] {
      var h := StartFront(g, enqueued, completed, arrivals);
      if g.jobs[0].sync { PumpKeepsInv(h, enqueued, completed, arrivals); }
    }
  }

  // ----- Whole runs -----

  datatype Op = OpEnqueue(priority: Byte, sync: bool) | OpComplete

  /** The guard with the jobs enqueued and the completions received so far. */
  datatype State = State(guard: Guard, enqueued: seq<Job>, completed: nat)

  /** A completion with no job outstanding does not happen: each job completes once. */
  function Apply(s: State, op: Op): State {
    match op
    case OpEnqueue(priority, sync) =>
      var job := Job(priority, |s.enqueued|, sync);
      State(Enqueue(s.guard, job), s.enqueued + [job], s.completed)
    case OpComplete =>
      if s.guard.active then State(Complete(s.guard), s.enqueued, s.completed + 1) else s
  }

  function Run(ops: seq<Op>): State {
    if ops == [] then State(IDLE, [], 0) else Apply(Run(ops[..|ops| - 1]), ops[|ops| - 1])
  }

  ghost predicate StateInv(s: State) {
    && Inv(s.guard, multiset(s.enqueued), s.completed, |s.enqueued|)
    && OneAtATime(s.guard, s.completed)
  }

  lemma ApplyKeepsInv(s: State, op: Op)
    requires StateInv(s)
    ensures StateInv(Apply(s, op))
  {
    match op
    case OpEnqueue(priority, sync) =>
      var job := Job(priority, |s.enqueued|, sync);
      var g := s.guard.(jobs := Inserted(s.guard.jobs, job));
      InsertedSorted(s.guard.jobs, job);
      InsertedElements(s.guard.jobs, job);
      forall x | x in g.jobs ensures x.arrival < |s.enqueued| + 1 {
        MemberOfInserted(s.guard.jobs, job, x);
      }
      PumpKeepsInv(g, multiset(s.enqueued + [job]), s.completed, |s.enqueued| + 1);
    case OpComplete =>
      if s.guard.active {
        PumpKeepsInv(s.guard.(active := false), multiset(s.enqueued), s.completed + 1, |s.enqueued|);
      }
  }

  /**
    In every run where each job completes once: at most one job is outstanding, the queue is sorted
    by priority and then arrival, every job started came before all those left waiting, started
    plus waiting is everything enqueued, and the guard is never idle with jobs waiting.
   */
  lemma {:induction false} RunSchedules(ops: seq<Op>)
    ensures var s := Run(ops);
            && Sorted(s.guard.jobs)
            && FairStarts(s.guard.started)
            && StartedJobs(s.guard.started) + multiset(s.guard.jobs) == multiset(s.enqueued)
            && Pending(s.guard.started) == s.completed + (if s.guard.active then 1 else 0)
            && (s.guard.active || s.guard.jobs == [])
    ensures StateInv(Run(ops))
  {
    if ops != [] {
      RunSchedules(ops[..|ops| - 1]);
      ApplyKeepsInv(Run(ops[..|ops| - 1]), ops[|ops| - 1]);
    }
  }

  // ----- Which jobs are started -----

  /** The first `n` jobs were started, each leaving the later ones waiting. */
  ghost predicate StartsFront(g: Guard, h: Guard, n: nat) {
    && n <= |g.jobs| && h.jobs == g.jobs[n..] && |h.started| == |g.started| + n
    && h.started[..|g.started|] == g.started
    && forall k :: 0 <= k < n ==> h.started[|g.started| + k] == StartEvent(g.jobs[k], g.jobs[k + 1..])
  }

  /** One job more at the front. */
  lemma OneMoreStarted(g: Guard, h: Guard, r: Guard, m: nat)
    requires g.jobs != [] && h.jobs == g.jobs[1..] && h.started == g.started + [StartEvent(g.jobs[0], g.jobs[1..])]
    requires StartsFront(h, r, m)
    ensures StartsFront(g, r, m + 1)
  {
    var n := |g.started|;
    assert r.started[..n] == r.started[..n + 1][..n];
    assert r.started[n] == r.started[..n + 1][n];
    forall k | 0 <= k < m + 1 ensures r.started[n + k] == StartEvent(g.jobs[k], g.jobs[k + 1..]) {
      if k > 0 {
        assert r.started[n + 1 + (k - 1)] == StartEvent(h.jobs[k - 1], h.jobs[k - 1 + 1..]);
        assert h.jobs[k..] == g.jobs[k + 1..];
      }
    }
    assert h.jobs[m..] == g.jobs[m + 1..];
  }

  /**
    Pumping an idle guard starts the jobs at the front of its queue, up to and including the first that does
    not complete at once; a busy guard starts nothing.
   */
  lemma {:induction false} PumpStartsFront(g: Guard) returns (n: nat)
    ensures StartsFront(g, Pump(g), n)
    ensures g.active ==> n == 0 && Pump(g) == g
    ensures !g.active ==> n == |g.jobs| || (n >= 1 && !g.jobs[n - 1].sync)
    ensures !g.active ==> forall k :: 0 <= k < n - 1 ==> g.jobs[k].sync
    ensures !g.active ==> (Pump(g).active <==> n >= 1 && !g.jobs[n - 1].sync)
    decreases |g.jobs|
  {
    if g.active || g.jobs == [] {
      n := 0;
    } else {
      var h := Guard(g.jobs[1..], !g.jobs[0].sync, g.started + [StartEvent(g.jobs[0], g.jobs[1..])]);
      var m := PumpStartsFront(h);
      n := m + 1;
      OneMoreStarted(g, h, Pump(h), m);
    }
  }

  /** Job number `i` of the queue was started, and it was least. */
  ghost predicate LeastOf(queue: seq<Job>, i: nat, job: Job) {
    i < |queue| && queue[i] == job && forall j :: i < j < |queue| ==> Before(job, queue[j])
  }

  lemma FrontIsLeast(g: Guard, h: Guard, n: nat, k: nat)
    requires StartsFront(g, h, n) && Sorted(g.jobs) && |g.started| <= k < |h.started|
    ensures LeastOf(g.jobs, k - |g.started|, h.started[k].job)
  {
    var i := k - |g.started|;
    assert h.started[|g.started| + i] == StartEvent(g.jobs[i], g.jobs[i + 1..]);
  }

  /** The queue just before the guard is pumped by the next event. */
  function QueueFor(s: State, op: Op): seq<Job> {
    match op
    case OpEnqueue(priority, sync) => Inserted(s.guard.jobs, Job(priority, |s.enqueued|, sync))
    case OpComplete => s.guard.jobs
  }

  /**
    In every run, the jobs started by the next event are taken from the front of the guard's queue, one by
    one, and each is the least by priority and then arrival of those not yet started.
   */
  lemma StartedIsLeast(ops: seq<Op>, op: Op, k: nat)
    requires |Run(ops).guard.started| <= k < |Apply(Run(ops), op).guard.started|
    ensures Run(ops + [op]) == Apply(Run(ops), op)
    ensures LeastOf(QueueFor(Run(ops), op), k - |Run(ops).guard.started|, Apply(Run(ops), op).guard.started[k].job)
  {
    RunSchedules(ops);
    assert (ops + [op])[..|ops|] == ops;
    var s := Run(ops);
    var g := s.guard.(jobs := QueueFor(s, op), active := s.guard.active && op.OpEnqueue?);
    if op.OpEnqueue? { InsertedSorted(s.guard.jobs, Job(op.priority, |s.enqueued|, op.sync)); }
    var n := PumpStartsFront(g);
    FrontIsLeast(g, Pump(g), n, k);
  }
}
