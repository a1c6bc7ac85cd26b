/** The job manager: a bounded pool of workers over a queue of named jobs without duplicates. */
module JobPool {
  import opened Wrappers

  datatype Job = Job(name: string, id: nat)

  /** What the mutex protects. */
  datatype Shared = Shared(activeWorkers: nat, queue: seq<Job>, names: set<string>)

  predicate IsDuplicate(sh: Shared, job: Job) {
    job.name != "" && job.name in sh.names
  }

  function Submitted(sh: Shared, limit: nat, job: Job): Shared {
    if IsDuplicate(sh, job) then sh
    else Shared(
           if sh.activeWorkers < limit then sh.activeWorkers + 1 else sh.activeWorkers,
           sh.queue + [job],
           if job.name != "" then sh.names + {job.name} else sh.names)
  }

  /** A worker takes the first job, or leaves when there is none. */
  function Polled(sh: Shared): Shared
    requires sh.activeWorkers > 0
  {
    if sh.queue == [] then sh.(activeWorkers := sh.activeWorkers - 1) else sh.(queue := sh.queue[1..])
  }

  function Forgotten(sh: Shared, job: Job): Shared {
    sh.(names := sh.names - {job.name})
  }

  class JobManager {
    const maxConcurrentJobs: nat
    var activeWorkers: nat
    var queue: seq<Job>
    var names: set<string>

    function Sh(): Shared
      reads this
    {
      Shared(activeWorkers, queue, names)
    }

    constructor (limit: nat)
      ensures maxConcurrentJobs == limit && Sh() == Shared(0, [], {})
    {
      maxConcurrentJobs, activeWorkers, queue, names := limit, 0, [], {};
    }

    /** `started` says whether a new worker is to run. */
    method Submit(job: Job) returns (started: bool)
      modifies this
      ensures Sh() == Submitted(old(Sh()), maxConcurrentJobs, job)
      ensures started <==> activeWorkers == old(activeWorkers) + 1
    {
      if job.name != "" {
        if job.name in names {
          return false;
        }
        names := names + {job.name};
      }
      queue := queue + [job];
      started := activeWorkers < maxConcurrentJobs;
      if started {
        activeWorkers := activeWorkers + 1;
      }
    }

    /** One turn of a worker at the queue: it leaves when there is nothing to do. */
    method Next() returns (next: Option<Job>)
      requires activeWorkers > 0
      modifies this`activeWorkers, this`queue
      ensures Sh() == Polled(old(Sh()))
      ensures next == if old(queue) == [] then None else Some(old(queue)[0])
    {
      if |queue| == 0 {
        activeWorkers := activeWorkers - 1;
        return None;
      }
      next := Some(queue[0]);
      queue := queue[1..];
    }

    method Forget(job: Job)
      modifies this`names
      ensures Sh() == Forgotten(old(Sh()), job)
    {
      names := names - {job.name};
    }
  }

  // ---------------------------------------------------------------- the pool as a whole

  /** All workers: those about to look at the queue, those running a job, and those whose job has
      ended but whose name is still taken; with the logs of accepted and started jobs. */
  datatype Pool = Pool(limit: nat, sh: Shared, polling: nat, running: seq<Job>, finishing: seq<Job>,
                       accepted: seq<Job>, started: seq<Job>)

  datatype Action = Submit(job: Job) | Poll | End(i: nat) | Finish(i: nat)

  predicate Enabled(p: Pool, a: Action) {
    match a
    case Submit(_) => true
    case Poll => p.polling > 0 && p.sh.activeWorkers > 0
    case End(i) => i < |p.running|
    case Finish(i) => i < |p.finishing|
  }

  function RemoveAt(jobs: seq<Job>, i: nat): seq<Job>
    requires i < |jobs|
  {
    jobs[..i] + jobs[i + 1..]
  }

  function Apply(p: Pool, a: Action): Pool
    requires Enabled(p, a)
  {
    match a
    case Submit(job) =>
      var sh := Submitted(p.sh, p.limit, job);
      p.(sh := sh,
         polling := if sh.activeWorkers > p.sh.activeWorkers then p.polling + 1 else p.polling,
         accepted := if IsDuplicate(p.sh, job) then p.accepted else p.accepted + [job])
    case Poll =>
      if p.sh.queue == [] then p.(sh := Polled(p.sh), polling := p.polling - 1)
      else p.(sh := Polled(p.sh), polling := p.polling - 1,
              running := p.running + [p.sh.queue[0]], started := p.started + [p.sh.queue[0]])
    case End(i) =>
      var job := p.running[i];
      if job.name == "" then p.(running := RemoveAt(p.running, i), polling := p.polling + 1)
      else p.(running := RemoveAt(p.running, i), finishing := p.finishing + [job])
    case Finish(i) =>
      p.(finishing := RemoveAt(p.finishing, i), polling := p.polling + 1, sh := Forgotten(p.sh, p.finishing[i]))
  }

  function Count(jobs: seq<Job>, name: string): nat {
    if jobs == [] then 0 else (if jobs[0].name == name then 1 else 0) + Count(jobs[1..], name)
  }

  lemma {:induction false} CountConcat(a: seq<Job>, b: seq<Job>, name: string)
    ensures Count(a + b, name) == Count(a, name) + Count(b, name)
  {
    if a == [] {
      assert a + b == b;
    } else {
      assert (a + b)[1..] == a[1..] + b;
      CountConcat(a[1..], b, name);
    }
  }

  lemma {:induction false} CountRemoved(jobs: seq<Job>, i: nat, name: string)
    requires i < |jobs|
    ensures Count(jobs, name) == Count(RemoveAt(jobs, i), name) + if jobs[i].name == name then 1 else 0
  {
    if i == 0 {
      assert RemoveAt(jobs, i) == jobs[1..];
    } else {
      CountRemoved(jobs[1..], i - 1, name);
      assert RemoveAt(jobs, i) == [jobs[0]] + RemoveAt(jobs[1..], i - 1);
    }
  }

  /** How many jobs with this name are queued, running or finishing. */
  function Present(p: Pool, name: string): nat {
    Count(p.sh.queue, name) + Count(p.running, name) + Count(p.finishing, name)
  }

  ghost predicate Inv(p: Pool) {
    && p.sh.activeWorkers == p.polling + |p.running| + |p.finishing|
    && p.sh.activeWorkers <= p.limit
    && (p.sh.activeWorkers == p.limit || p.polling >= |p.sh.queue|)
    && p.started + p.sh.queue == p.accepted
    && "" !in p.sh.names
    && (forall n :: n != "" ==> Present(p, n) == if n in p.sh.names then 1 else 0)
    && (forall i :: 0 <= i < |p.finishing| ==> p.finishing[i].name != "")
  }

  /** How a step changes the number of jobs with a name. */
  lemma StepCounts(p: Pool, a: Action, n: string)
    requires Enabled(p, a)
    ensures var p' := Apply(p, a);
            match a
            case Submit(job) => Present(p', n) == Present(p, n) + if job.name == n && !IsDuplicate(p.sh, job) then 1 else 0
            case Poll => Present(p', n) == Present(p, n)
            case End(i) => Present(p', n) == Present(p, n) - if n == "" == p.running[i].name then 1 else 0
            case Finish(i) => Present(p', n) == Present(p, n) - if p.finishing[i].name == n then 1 else 0
  {
    match a {
      case Submit(job) =>
        CountConcat(p.sh.queue, [job], n);
      case Poll =>
        if p.sh.queue != [] {
          CountConcat(p.running, [p.sh.queue[0]], n);
        }
      case End(i) =>
        CountRemoved(p.running, i, n);
        CountConcat(p.finishing, [p.running[i]], n);
      case Finish(i) =>
        CountRemoved(p.finishing, i, n);
    }
  }

  lemma StepKeepsNames(p: Pool, a: Action, n: string)
    requires Inv(p) && Enabled(p, a) && n != ""
    ensures Present(Apply(p, a), n) == if n in Apply(p, a).sh.names then 1 else 0
  {
    StepCounts(p, a, n);
    assert Present(p, n) == if n in p.sh.names then 1 else 0;
    if a.Finish? {
      CountRemoved(p.finishing, a.i, n);
    }
  }

  lemma StepKeepsInv(p: Pool, a: Action)
    requires Inv(p) && Enabled(p, a)
    ensures Inv(Apply(p, a))
  {
    forall n | n != "" ensures Present(Apply(p, a), n) == if n in Apply(p, a).sh.names then 1 else 0 {
      StepKeepsNames(p, a, n);
    }
  }

  function Initial(limit: nat): Pool {
    Pool(limit, Shared(0, [], {}), 0, [], [], [], [])
  }

  ghost predicate Runs(p: Pool, acts: seq<Action>)
    decreases |acts|
  {
    acts == [] || (Enabled(p, acts[0]) && Runs(Apply(p, acts[0]), acts[1..]))
  }

  ghost function After(p: Pool, acts: seq<Action>): Pool
    requires Runs(p, acts)
    decreases |acts|
  {
    if acts == [] then p else After(Apply(p, acts[0]), acts[1..])
  }

  lemma {:induction false} RunsKeepInv(p: Pool, acts: seq<Action>)
    requires Inv(p) && Runs(p, acts)
    ensures Inv(After(p, acts))
    decreases |acts|
  {
    if acts != [] {
      StepKeepsInv(p, acts[0]);
      RunsKeepInv(Apply(p, acts[0]), acts[1..]);
    }
  }

  /** In every run of a new pool: never more workers than the limit; the pool is full or has a free
      worker for each queued job; a non-empty name is taken exactly while one job with it is queued,
      running or finishing; and accepted jobs start exactly once, in the order of acceptance. */
  lemma EveryRunKeepsInv(limit: nat, acts: seq<Action>)
    requires Runs(Initial(limit), acts)
    ensures Inv(After(Initial(limit), acts))
  {
    RunsKeepInv(Initial(limit), acts);
  }

  // ---------------------------------------------------------------- draining

  function Work(p: Pool): nat {
    4 * |p.sh.queue| + p.polling + 3 * |p.running| + 2 * |p.finishing|
  }

  predicate Quiet(p: Pool) {
    p.sh == Shared(0, [], {}) && p.polling == 0 && p.running == [] && p.finishing == []
  }

  /** While there is a worker there is a step to take; without one the pool is at rest. */
  lemma NeverStuck(p: Pool)
    requires Inv(p) && p.limit >= 1
    ensures Quiet(p) || Enabled(p, Poll) || Enabled(p, End(0)) || Enabled(p, Finish(0))
  {
    if p.polling == 0 && p.running == [] && p.finishing == [] {
      assert p.sh.queue == [];
      forall n ensures n !in p.sh.names {
        assert n != "" ==> Present(p, n) == if n in p.sh.names then 1 else 0;
      }
    }
  }

  lemma StepDoesWork(p: Pool, a: Action)
    requires Enabled(p, a) && !a.Submit?
    ensures Work(Apply(p, a)) < Work(p) && Apply(p, a).accepted == p.accepted && Apply(p, a).limit == p.limit
  {}

  /** Once submissions stop, every run takes at most `Work` steps, and a run that cannot go on has
      started every accepted job and let all workers go. */
  lemma {:induction false} PoolDrains(p: Pool, acts: seq<Action>)
    requires Inv(p) && p.limit >= 1 && Runs(p, acts) && forall i :: 0 <= i < |acts| ==> !acts[i].Submit?
    ensures |acts| + Work(After(p, acts)) <= Work(p)
    ensures var e := After(p, acts);
            !Enabled(e, Poll) && !Enabled(e, End(0)) && !Enabled(e, Finish(0)) ==> Quiet(e) && e.started == e.accepted == p.accepted
    decreases |acts|
  {
    if acts == [] {
      NeverStuck(p);
    } else {
      StepKeepsInv(p, acts[0]);
      StepDoesWork(p, acts[0]);
      assert forall i :: 0 <= i < |acts[1..]| ==> acts[1..][i] == acts[i + 1];
      PoolDrains(Apply(p, acts[0]), acts[1..]);
    }
  }

  /** In every run, a job is turned away exactly when it has a name and a job with that name is queued,
      running or finishing; otherwise it is accepted, at the end of the queue. */
  lemma DuplicatesAreTurnedAway(limit: nat, acts: seq<Action>, job: Job)
    requires Runs(Initial(limit), acts)
    ensures var p := After(Initial(limit), acts);
            && Enabled(p, Submit(job))
            && (job.name != "" && Present(p, job.name) > 0 ==> Apply(p, Submit(job)) == p)
            && (job.name == "" || Present(p, job.name) == 0 ==>
                  Apply(p, Submit(job)).accepted == p.accepted + [job] && Apply(p, Submit(job)).sh.queue == p.sh.queue + [job])
  {
    EveryRunKeepsInv(limit, acts);
    var p := After(Initial(limit), acts);
    assert job.name != "" ==> Present(p, job.name) == if job.name in p.sh.names then 1 else 0;
  }
}
