/** Cleaning over the lock file itself: the instances of `Cleaning` are the clients of `FileLock`, and
    nothing but the protocol of the lock file keeps them apart. */
module CleaningLock {
  import opened Wrappers
  import FileLock
  import Cleaning

  /** `work.holder` is bookkeeping here: it is written and no step looks at it. */
  datatype State = State(files: FileLock.State, work: Cleaning.Schedule)

  datatype Action =
    | Tick(now: int)
    | Lock(a: FileLock.Action)   // a step of a waiter or a keeper
    | Take(p: nat)               // `Lock` returns
    | Drop(p: nat)               // `Unlock`
    | Work(w: Cleaning.Action)

  predicate Enabled(s: State, a: Action) {
    match a
    case Tick(t) => t >= s.files.now && t >= s.work.now
    case Lock(b) => !b.Tick? && !b.WriteMeta? && !b.Unlock? && FileLock.Enabled(s.files, b)
    case Take(p) => FileLock.Enabled(s.files, FileLock.WriteMeta(p)) && p in s.work.procs && s.work.procs[p].Idle?
    case Drop(p) => FileLock.Enabled(s.files, FileLock.Unlock(p)) && p in s.work.procs && s.work.procs[p].Done?
    case Work(b) => (b.Look? || b.Record?) && Cleaning.Enabled(s.work, b)
  }

  /** One clock tells the age of the lock file and the time since the last cleaning. */
  function Apply(interval: int, s: State, a: Action): State
    requires Enabled(s, a)
  {
    match a
    case Tick(t) => State(FileLock.Apply(s.files, FileLock.Tick(t)), Cleaning.Apply(interval, s.work, Cleaning.Tick(t)))
    case Lock(b) => s.(files := FileLock.Apply(s.files, b))
    case Take(p) =>
      State(FileLock.Apply(s.files, FileLock.WriteMeta(p)),
            s.work.(holder := Some(p), procs := s.work.procs[p := Cleaning.Locked]))
    case Drop(p) =>
      State(FileLock.Apply(s.files, FileLock.Unlock(p)), Cleaning.Apply(interval, s.work, Cleaning.Release(p)))
    case Work(b) => s.(work := Cleaning.Apply(interval, s.work, b))
  }

  ghost predicate Execution(interval: int, tr: seq<State>, acts: seq<Action>) {
    && |tr| == |acts| + 1 && FileLock.Initial(tr[0].files) && Cleaning.Initial(tr[0].work)
    && forall i :: 0 <= i < |acts| ==> Enabled(tr[i], acts[i]) && tr[i + 1] == Apply(interval, tr[i], acts[i])
  }

  // ---------------------------------------------------------------- the two sides of a run

  function FilesOf(tr: seq<State>): seq<FileLock.State> {
    seq(|tr|, i requires 0 <= i < |tr| => tr[i].files)
  }

  function WorkOf(tr: seq<State>): seq<Cleaning.Schedule> {
    seq(|tr|, i requires 0 <= i < |tr| => tr[i].work)
  }

  /** A step of the other side is one in which no time passes. */
  function FileAction(s: State, a: Action): FileLock.Action {
    match a
    case Tick(t) => FileLock.Tick(t)
    case Lock(b) => b
    case Take(p) => FileLock.WriteMeta(p)
    case Drop(p) => FileLock.Unlock(p)
    case Work(_) => FileLock.Tick(s.files.now)
  }

  function WorkAction(s: State, a: Action): Cleaning.Action {
    match a
    case Tick(t) => Cleaning.Tick(t)
    case Lock(_) => Cleaning.Tick(s.work.now)
    case Take(p) => Cleaning.Acquire(p)
    case Drop(p) => Cleaning.Release(p)
    case Work(b) => b
  }

  function FileActions(tr: seq<State>, acts: seq<Action>): seq<FileLock.Action>
    requires |tr| > |acts|
  {
    seq(|acts|, i requires 0 <= i < |acts| => FileAction(tr[i], acts[i]))
  }

  function WorkActions(tr: seq<State>, acts: seq<Action>): seq<Cleaning.Action>
    requires |tr| > |acts|
  {
    seq(|acts|, i requires 0 <= i < |acts| => WorkAction(tr[i], acts[i]))
  }

  lemma FilesRun(interval: int, tr: seq<State>, acts: seq<Action>)
    requires Execution(interval, tr, acts)
    ensures FileLock.Execution(FilesOf(tr), FileActions(tr, acts))
  {
    forall i | 0 <= i < |acts|
      ensures FileLock.Enabled(tr[i].files, FileAction(tr[i], acts[i]))
      ensures tr[i + 1].files == FileLock.Apply(tr[i].files, FileAction(tr[i], acts[i]))
    {
      assert Enabled(tr[i], acts[i]) && tr[i + 1] == Apply(interval, tr[i], acts[i]);
    }
  }

  function HolderOf(s: State): FileLock.Holder {
    match s.work.holder
    case None => FileLock.Free
    case Some(p) => FileLock.HeldBy(p)
  }

  /** In timely runs the lock is taken only when it is free, and the bookkeeping names its holder. */
  lemma {:induction false} LockIsTracked(interval: int, tr: seq<State>, acts: seq<Action>, i: nat)
    requires Execution(interval, tr, acts) && FileLock.Timely(FilesOf(tr), FileActions(tr, acts)) && i < |tr|
    ensures FileLock.Abstracts(tr[i].files, HolderOf(tr[i]))
    ensures i < |acts| && acts[i].Take? ==> tr[i].work.holder.None?
  {
    FilesRun(interval, tr, acts);
    if i > 0 {
      LockIsTracked(interval, tr, acts, i - 1);
      var h' := FileLock.RefinesMutex(FilesOf(tr), FileActions(tr, acts), i - 1, HolderOf(tr[i - 1]));
      BookkeepingFollows(interval, tr[i - 1], acts[i - 1], h');
    }
    if i < |acts| && acts[i].Take? {
      var _ := FileLock.RefinesMutex(FilesOf(tr), FileActions(tr, acts), i, HolderOf(tr[i]));
    }
  }

  lemma BookkeepingFollows(interval: int, s: State, a: Action, h': FileLock.Holder)
    requires Enabled(s, a) && FileLock.MutexStep(HolderOf(s), h', FileAction(s, a))
    ensures h' == HolderOf(Apply(interval, s, a))
  {}

  /** Over a lock file that is refreshed in time: one instance cleans at a time, recorded cleanings are an
      interval apart, and one under way started at least an interval after the last recorded time. */
  lemma CleaningsApart(interval: int, tr: seq<State>, acts: seq<Action>, i: nat)
    requires Execution(interval, tr, acts) && FileLock.Timely(FilesOf(tr), FileActions(tr, acts)) && i < |tr|
    ensures Cleaning.Inv(interval, tr[i].work)
    ensures forall p, q :: Cleaning.Cleans(tr[i].work, p) && Cleaning.Cleans(tr[i].work, q) ==> p == q
  {
    forall k | 0 <= k < |acts|
      ensures Cleaning.Enabled(tr[k].work, WorkAction(tr[k], acts[k]))
      ensures tr[k + 1].work == Cleaning.Apply(interval, tr[k].work, WorkAction(tr[k], acts[k]))
    {
      assert Enabled(tr[k], acts[k]) && tr[k + 1] == Apply(interval, tr[k], acts[k]);
      LockIsTracked(interval, tr, acts, k);
    }
    Cleaning.CleaningsApart(interval, WorkOf(tr), WorkActions(tr, acts), i);
  }

  // ---------------------------------------------------------------- cleaning can be done

  ghost predicate Reaches(interval: int, tr: seq<State>, acts: seq<Action>, start: State, s: State) {
    && Execution(interval, tr, acts) && tr[0] == start && tr[|tr| - 1] == s
    && forall i :: 0 <= i < |tr| ==> FileLock.Refreshed(tr[i].files) && FileLock.FewEmpties(tr[i].files)
  }

  lemma Extend(interval: int, tr: seq<State>, acts: seq<Action>, start: State, s: State, a: Action)
    returns (tr': seq<State>, acts': seq<Action>, s': State)
    requires Reaches(interval, tr, acts, start, s) && Enabled(s, a)
    requires FileLock.Refreshed(Apply(interval, s, a).files) && FileLock.FewEmpties(Apply(interval, s, a).files)
    ensures s' == Apply(interval, s, a) && Reaches(interval, tr', acts', start, s')
  {
    s' := Apply(interval, s, a);
    tr', acts' := tr + [s'], acts + [a];
  }

  lemma TakesTheLock(interval: int, start: State, p: nat, t: int) returns (tr: seq<State>, acts: seq<Action>, s: State)
    requires FileLock.Initial(start.files) && Cleaning.Initial(start.work) && p in start.files.clients && p in start.work.procs
    requires t >= start.files.now && t >= start.work.now
    ensures Reaches(interval, tr, acts, start, s)
    ensures FileLock.Holds(s.files, p) && s.files.now == t && s.files.file.Present?
    ensures s.files.file.content == FileLock.Meta(FileLock.LockMeta(t, t))
    ensures forall c :: c in s.files.clients && c != p ==> s.files.clients[c].Idle?
    ensures s.work == start.work.(now := t, holder := Some(p), procs := start.work.procs[p := Cleaning.Locked])
  {
    tr, acts, s := [start], [], start;
    tr, acts, s := Extend(interval, tr, acts, start, s, Tick(t));
    tr, acts, s := Extend(interval, tr, acts, start, s, Lock(FileLock.Begin(p)));
    tr, acts, s := Extend(interval, tr, acts, start, s, Lock(FileLock.Create(p)));
    tr, acts, s := Extend(interval, tr, acts, start, s, Take(p));
  }

  /** From any start, once the interval has passed since the last cleaning, an instance can take the lock
      file, clean, record it and give the lock back, in a timely run. */
  lemma CleaningCanHappen(interval: int, start: State, p: nat, t: int) returns (tr: seq<State>, acts: seq<Action>, s: State)
    requires FileLock.Initial(start.files) && Cleaning.Initial(start.work) && p in start.files.clients && p in start.work.procs
    requires t >= start.files.now && t >= start.work.now && (start.work.last.Some? ==> t >= start.work.last.value + interval)
    ensures Execution(interval, tr, acts) && tr[0] == start && tr[|tr| - 1] == s && FileLock.Timely(FilesOf(tr), FileActions(tr, acts))
    ensures s.work.log == [Cleaning.Cleaned(t, t)] && s.work.last == Some(t) && s.work.procs == start.work.procs && s.files.file.Absent?
  {
    tr, acts, s := TakesTheLock(interval, start, p, t);
    tr, acts, s := Extend(interval, tr, acts, start, s, Work(Cleaning.Look(p)));
    tr, acts, s := Extend(interval, tr, acts, start, s, Work(Cleaning.Record(p)));
    tr, acts, s := Extend(interval, tr, acts, start, s, Drop(p));
    assert s.work.procs == start.work.procs;
    FilesRun(interval, tr, acts);
    FileLock.TimelyMeans(FilesOf(tr), FileActions(tr, acts));
  }

  /** Whatever keepers and waiters do over the lock file they do here, and it leaves the work alone. */
  lemma LockStepsGoOn(interval: int, s: State, b: FileLock.Action)
    requires FileLock.Enabled(s.files, b) && !b.Tick? && !b.WriteMeta? && !b.Unlock?
    ensures Enabled(s, Lock(b)) && Apply(interval, s, Lock(b)) == s.(files := FileLock.Apply(s.files, b))
  {}
}
