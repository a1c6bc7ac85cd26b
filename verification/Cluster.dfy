/** Obtaining and renewing over a lock file itself: the calls of `Issuance` that take one lock are the
    clients of `FileLock`, and nothing but the protocol of the lock file keeps them apart. */
module Cluster {
  import Wrappers
  import FileLock
  import Issuance

  /** `lock` is the lock all calls take; `work.locks` is bookkeeping here: it is written and no step
      looks at it. */
  datatype State = State(lock: string, files: FileLock.State, work: Issuance.State)

  datatype Action =
    | Lock(a: FileLock.Action)   // a step of a waiter, a keeper or the clock
    | Take(p: nat)               // `Lock` returns
    | Drop(p: nat)               // `Unlock`
    | Work(w: Issuance.Action)   // a step between, before or after

  predicate Waits(s: State, p: nat) {
    p in s.work.procs && s.work.procs[p].phase.Waiting?
  }

  predicate Releases(s: State, p: nat) {
    p in s.work.procs && s.work.procs[p].phase.Releasing?
  }

  ghost predicate Enabled(s: State, a: Action) {
    match a
    case Lock(b) =>
      && !b.WriteMeta? && !b.Unlock? && FileLock.Enabled(s.files, b)
      && (b.Begin? ==> Waits(s, b.c))
    case Take(p) => FileLock.Enabled(s.files, FileLock.WriteMeta(p)) && Waits(s, p)
    case Drop(p) => FileLock.Enabled(s.files, FileLock.Unlock(p)) && Releases(s, p)
    case Work(b) => !b.Acquire? && !b.Release? && Issuance.Enabled(s.work, b)
  }

  ghost function Apply(s: State, a: Action): State
    requires Enabled(s, a)
  {
    match a
    case Lock(b) => s.(files := FileLock.Apply(s.files, b))
    case Take(p) =>
      s.(files := FileLock.Apply(s.files, FileLock.WriteMeta(p)),
         work := Issuance.To(s.work, p, Issuance.Checking).(locks := s.work.locks[s.work.procs[p].lock := p]))
    case Drop(p) =>
      s.(files := FileLock.Apply(s.files, FileLock.Unlock(p)), work := Issuance.Apply(s.work, Issuance.Release(p)))
    case Work(b) => s.(work := Issuance.Apply(s.work, b))
  }

  ghost predicate TakesOneLock(s: State) {
    forall p :: p in s.work.procs ==> s.work.procs[p].lock == s.lock
  }

  ghost predicate Execution(tr: seq<State>, acts: seq<Action>) {
    && |tr| == |acts| + 1 && FileLock.Initial(tr[0].files) && Issuance.Initial(tr[0].work) && TakesOneLock(tr[0])
    && forall i :: 0 <= i < |acts| ==> Enabled(tr[i], acts[i]) && tr[i + 1] == Apply(tr[i], acts[i])
  }

  // ---------------------------------------------------------------- the two sides of a run

  function FilesOf(tr: seq<State>): seq<FileLock.State> {
    seq(|tr|, i requires 0 <= i < |tr| => tr[i].files)
  }

  function WorkOf(tr: seq<State>): seq<Issuance.State> {
    seq(|tr|, i requires 0 <= i < |tr| => tr[i].work)
  }

  /** A step of the other side is one in which no time passes. */
  function FileAction(s: State, a: Action): FileLock.Action {
    match a
    case Lock(b) => b
    case Take(p) => FileLock.WriteMeta(p)
    case Drop(p) => FileLock.Unlock(p)
    case Work(_) => FileLock.Tick(s.files.now)
  }

  /** A step of the other side is one in which no certificate comes due. */
  function WorkAction(a: Action): Issuance.Action {
    match a
    case Lock(_) => Issuance.Age({})
    case Take(p) => Issuance.Acquire(p)
    case Drop(p) => Issuance.Release(p)
    case Work(b) => b
  }

  function FileActions(tr: seq<State>, acts: seq<Action>): seq<FileLock.Action>
    requires |tr| > |acts|
  {
    seq(|acts|, i requires 0 <= i < |acts| => FileAction(tr[i], acts[i]))
  }

  function WorkActions(acts: seq<Action>): seq<Issuance.Action> {
    seq(|acts|, i requires 0 <= i < |acts| => WorkAction(acts[i]))
  }

  lemma FilesRun(tr: seq<State>, acts: seq<Action>)
    requires Execution(tr, acts)
    ensures FileLock.Execution(FilesOf(tr), FileActions(tr, acts))
  {
    forall i | 0 <= i < |acts|
      ensures FileLock.Enabled(tr[i].files, FileAction(tr[i], acts[i]))
      ensures tr[i + 1].files == FileLock.Apply(tr[i].files, FileAction(tr[i], acts[i]))
    {
      assert Enabled(tr[i], acts[i]) && tr[i + 1] == Apply(tr[i], acts[i]);
    }
  }

  function HolderOf(s: State): FileLock.Holder {
    if s.lock in s.work.locks then FileLock.HeldBy(s.work.locks[s.lock]) else FileLock.Free
  }

  /** In timely runs the lock is taken only when it is free, and the bookkeeping names its holder. */
  lemma {:induction false} LockIsTracked(tr: seq<State>, acts: seq<Action>, i: nat)
    requires Execution(tr, acts) && FileLock.Timely(FilesOf(tr), FileActions(tr, acts)) && i < |tr|
    ensures TakesOneLock(tr[i])
    ensures FileLock.Abstracts(tr[i].files, HolderOf(tr[i]))
    ensures i < |acts| && acts[i].Take? ==> HolderOf(tr[i]).Free?
  {
    FilesRun(tr, acts);
    if i > 0 {
      LockIsTracked(tr, acts, i - 1);
      var h' := FileLock.RefinesMutex(FilesOf(tr), FileActions(tr, acts), i - 1, HolderOf(tr[i - 1]));
      BookkeepingFollows(tr[i - 1], acts[i - 1], h');
    }
    if i < |acts| && acts[i].Take? {
      var _ := FileLock.RefinesMutex(FilesOf(tr), FileActions(tr, acts), i, HolderOf(tr[i]));
    }
  }

  lemma BookkeepingFollows(s: State, a: Action, h': FileLock.Holder)
    requires TakesOneLock(s) && Enabled(s, a) && FileLock.MutexStep(HolderOf(s), h', FileAction(s, a))
    ensures TakesOneLock(Apply(s, a)) && h' == HolderOf(Apply(s, a))
  {}

  /** Timely runs over lock files are runs over a mutex. */
  lemma WorkRuns(tr: seq<State>, acts: seq<Action>)
    requires Execution(tr, acts) && FileLock.Timely(FilesOf(tr), FileActions(tr, acts))
    ensures Issuance.Execution(WorkOf(tr), WorkActions(acts))
  {
    forall i | 0 <= i < |acts|
      ensures Issuance.Enabled(tr[i].work, WorkAction(acts[i]))
      ensures tr[i + 1].work == Issuance.Apply(tr[i].work, WorkAction(acts[i]))
    {
      assert Enabled(tr[i], acts[i]) && tr[i + 1] == Apply(tr[i], acts[i]);
      LockIsTracked(tr, acts, i);
    }
  }

  // ---------------------------------------------------------------- what the cluster keeps

  /** Over lock files that are refreshed in time: critical sections of obtaining and renewing never
      overlap, obtaining issues at most one certificate and none if one is stored, and every unforced
      renewal issues while the newest stored certificate is due. */
  lemma ClusterIssuesOnce(tr: seq<State>, acts: seq<Action>, i: nat)
    requires Execution(tr, acts) && FileLock.Timely(FilesOf(tr), FileActions(tr, acts)) && i < |tr|
    ensures forall p, q :: Issuance.Inside(tr[i].work, p) && Issuance.Inside(tr[i].work, q) ==> p == q
    ensures Issuance.ObtainedIn(tr[i].work.log) <= if Issuance.HasAny(tr[0].work) then 0 else 1
    ensures i < |acts| && acts[i].Work? && acts[i].w.Issue? && acts[i].w.p in tr[i].work.procs && tr[i].work.procs[acts[i].w.p].kind == Issuance.Renew(false) ==>
              exists c :: Issuance.IsNewest(tr[i].work, c) && c.id in tr[i].work.due
  {
    WorkRuns(tr, acts);
    Issuance.SingleIssuance(WorkOf(tr), WorkActions(acts), i);
    if i < |acts| && acts[i].Work? && acts[i].w.Issue? && acts[i].w.p in tr[i].work.procs && tr[i].work.procs[acts[i].w.p].kind == Issuance.Renew(false) {
      Issuance.UnforcedOnlyWhenDue(WorkOf(tr), WorkActions(acts), i);
    }
  }

  /** And racing unforced renewals of a due certificate issue at most once, exactly once as soon as any
      of them succeeds. */
  lemma ClusterRenewsOnce(tr: seq<State>, acts: seq<Action>, i: nat)
    requires Execution(tr, acts) && FileLock.Timely(FilesOf(tr), FileActions(tr, acts)) && i < |tr|
    requires Issuance.OnlyUnforced(tr[0].work)
    requires forall c :: Issuance.IsNewest(tr[0].work, c) ==> c.id in tr[0].work.due
    requires forall j :: 0 <= j < |tr| ==> Issuance.IssuedNotDue(tr[j].work)
    requires forall j :: 0 <= j < |acts| && acts[j].Work? ==> Issuance.IssuesNewer(tr[j].work, acts[j].w)
    ensures |tr[i].work.log| <= 1
    ensures forall p :: p in tr[i].work.procs && Issuance.Succeeded(tr[i].work.procs[p].phase) ==> |tr[i].work.log| == 1
  {
    WorkRuns(tr, acts);
    Issuance.RenewalsCoalesce(WorkOf(tr), WorkActions(acts), i);
  }

  /** Every outcome of a call over the lock file is explained, as over a mutex. */
  lemma ClusterOutcomesExplained(tr: seq<State>, acts: seq<Action>, i: nat, p: nat)
    requires Execution(tr, acts) && FileLock.Timely(FilesOf(tr), FileActions(tr, acts)) && i < |tr| && p in tr[i].work.procs
    ensures Issuance.Explained(WorkOf(tr), WorkActions(acts), i, p)
  {
    WorkRuns(tr, acts);
    Issuance.OutcomesExplained(WorkOf(tr), WorkActions(acts), i, p);
  }

  // ---------------------------------------------------------------- work can be done

  /** A run from `start` to `s` in which no lock file is stale and none was read empty too often. */
  ghost predicate Reaches(tr: seq<State>, acts: seq<Action>, start: State, s: State) {
    && Execution(tr, acts) && tr[0] == start && tr[|tr| - 1] == s
    && forall i :: 0 <= i < |tr| ==> FileLock.Refreshed(tr[i].files) && FileLock.FewEmpties(tr[i].files)
  }

  lemma Extend(tr: seq<State>, acts: seq<Action>, start: State, s: State, a: Action) returns (tr': seq<State>, acts': seq<Action>, s': State)
    requires Reaches(tr, acts, start, s) && Enabled(s, a)
    requires FileLock.Refreshed(Apply(s, a).files) && FileLock.FewEmpties(Apply(s, a).files)
    ensures s' == Apply(s, a) && Reaches(tr', acts', start, s')
  {
    s' := Apply(s, a);
    tr', acts' := tr + [s'], acts + [a];
  }

  lemma TakesTheLock(start: State, p: nat) returns (tr: seq<State>, acts: seq<Action>, s: State)
    requires FileLock.Initial(start.files) && Issuance.Initial(start.work) && TakesOneLock(start)
    requires p in start.files.clients && p in start.work.procs && start.work.procs[p].kind.Renew?
    ensures Reaches(tr, acts, start, s)
    ensures FileLock.Holds(s.files, p) && s.files.now == start.files.now && s.files.file.Present?
    ensures s.files.file.content == FileLock.Meta(FileLock.LockMeta(start.files.now, start.files.now))
    ensures forall c :: c in s.files.clients && c != p ==> s.files.clients[c].Idle?
    ensures s.work == start.work.(procs := start.work.procs[p := start.work.procs[p].(phase := Issuance.Checking)], locks := map[start.lock := p])
    ensures s.lock == start.lock
  {
    tr, acts, s := ComesToWait(start, p);
    tr, acts, s := Extend(tr, acts, start, s, Lock(FileLock.Create(p)));
    tr, acts, s := Extend(tr, acts, start, s, Take(p));
    assert s.work.locks == map[start.lock := p];
  }

  lemma ComesToWait(start: State, p: nat) returns (tr: seq<State>, acts: seq<Action>, s: State)
    requires FileLock.Initial(start.files) && Issuance.Initial(start.work) && TakesOneLock(start)
    requires p in start.files.clients && p in start.work.procs && start.work.procs[p].kind.Renew?
    ensures Reaches(tr, acts, start, s)
    ensures s == start.(files := start.files.(clients := start.files.clients[p := FileLock.Trying(0)]),
                        work := start.work.(procs := start.work.procs[p := start.work.procs[p].(phase := Issuance.Waiting)]))
  {
    tr, acts, s := [start], [], start;
    tr, acts, s := Extend(tr, acts, start, s, Work(Issuance.Precheck(p)));
    tr, acts, s := Extend(tr, acts, start, s, Lock(FileLock.Begin(p)));
  }

  /** From any start, a renewal that is forced or finds the stored certificate due can take the lock file,
      issue, save and give the lock back, in a timely run. */
  lemma ClusterCanRenew(start: State, p: nat, newest: Issuance.Cert, site: string, cert: Issuance.Cert)
    returns (tr: seq<State>, acts: seq<Action>, s: State)
    requires FileLock.Initial(start.files) && Issuance.Initial(start.work) && TakesOneLock(start)
    requires p in start.files.clients && p in start.work.procs && start.work.procs[p].kind.Renew? && site in start.work.sites
    requires Issuance.IsNewest(start.work, newest) && (start.work.procs[p].kind.force || newest.id in start.work.due)
    ensures Execution(tr, acts) && tr[0] == start && tr[|tr| - 1] == s && FileLock.Timely(FilesOf(tr), FileActions(tr, acts))
    ensures p in s.work.procs && s.work.procs[p].phase == Issuance.Finished(true)
    ensures s.work.log == [Issuance.Issued(p, start.work.procs[p].kind, cert)]
    ensures site in s.work.store && s.work.store[site].crt == Wrappers.Some(cert) && s.files.file.Absent?
  {
    tr, acts, s := TakesTheLock(start, p);
    assert forall i :: Issuance.HasResources(s.work, i) <==> Issuance.HasResources(start.work, i);
    assert Issuance.IsNewest(s.work, newest);
    tr, acts, s := Extend(tr, acts, start, s, Work(Issuance.Check(p, Wrappers.Some(newest))));
    tr, acts, s := IssuesAndSaves(tr, acts, start, s, p, site, cert);
    tr, acts, s := Extend(tr, acts, start, s, Drop(p));
    FilesRun(tr, acts);
    FileLock.TimelyMeans(FilesOf(tr), FileActions(tr, acts));
  }

  lemma IssuesAndSaves(tr: seq<State>, acts: seq<Action>, start: State, s: State, p: nat, site: string, cert: Issuance.Cert)
    returns (tr': seq<State>, acts': seq<Action>, s': State)
    requires Reaches(tr, acts, start, s) && p in s.work.procs && s.work.procs[p].phase.Issuing? && site in s.work.sites && s.work.log == []
    ensures Reaches(tr', acts', start, s') && s'.files == s.files && s'.lock == s.lock
    ensures p in s'.work.procs && s'.work.procs[p] == s.work.procs[p].(phase := Issuance.Releasing(true)) && s'.work.locks == s.work.locks
    ensures s'.work.log == [Issuance.Issued(p, s.work.procs[p].kind, cert)]
    ensures site in s'.work.store && s'.work.store[site].crt == Wrappers.Some(cert)
  {
    assert FileLock.Refreshed(tr[|tr| - 1].files) && FileLock.FewEmpties(tr[|tr| - 1].files);
    tr', acts', s' := Extend(tr, acts, start, s, Work(Issuance.Issue(p, site, cert)));
    tr', acts', s' := Extend(tr', acts', start, s', Work(Issuance.Save(p)));
    tr', acts', s' := Extend(tr', acts', start, s', Work(Issuance.Save(p)));
    tr', acts', s' := Extend(tr', acts', start, s', Work(Issuance.Save(p)));
  }

  /** Whatever keepers, waiters and the clock do over the lock file they do here, and it leaves the work alone;
      a client begins to wait when its call does. */
  lemma LockStepsGoOn(s: State, b: FileLock.Action)
    requires FileLock.Enabled(s.files, b) && !b.WriteMeta? && !b.Unlock?
    requires b.Begin? ==> b.c in s.work.procs && s.work.procs[b.c].phase == Issuance.Waiting
    ensures Enabled(s, Lock(b)) && Apply(s, Lock(b)) == s.(files := FileLock.Apply(s.files, b))
  {}
}
