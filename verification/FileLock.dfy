/** The lock-file protocol of one lock name, as interleaved steps of lockers, keepers and unlockers.
    Times are nanoseconds; 0 is the zero time and the clock is always more than two freshness
    intervals past it. */
module FileLock {
  import opened Wrappers

  const FRESHNESS: int := 5_000_000_000
  const EMPTY_LIMIT: nat := 8

  datatype LockMeta = LockMeta(created: int, updated: int)

  predicate FileLockIsStale(meta: LockMeta, now: int) {
    var ref := if meta.updated == 0 then meta.created else meta.updated;
    now - ref > FRESHNESS * 2
  }

  /** A lock file is empty between its creation or truncation and the next write. */
  datatype Content = Blank | Meta(meta: LockMeta)

  /** `gen` tells apart the files created one after the other under the same name: a keeper that has
      a file open goes on writing to that file after it was removed. */
  datatype File = Absent | Present(gen: nat, content: Content)

  /** A client of `Lock` and `Unlock`; `empties` is the count one `Lock` call keeps and never resets. */
  datatype Client =
    | Idle
    | Trying(empties: nat)
    | Removing(empties: nat)
    | Writing(gen: nat)
    | Holding(gen: nat)

  datatype Keeper = Sleeping | Opened(gen: nat, created: int) | Truncated(gen: nat, created: int)

  datatype State = State(now: int, file: File, nextGen: nat, clients: map<nat, Client>, keepers: map<nat, Keeper>)

  datatype Action =
    | Tick(now: int)
    | Begin(c: nat)          // a call of Lock
    | Create(c: nat)         // O_EXCL creation succeeds
    | WriteMeta(c: nat)      // the creator writes its timestamps and starts a keeper
    | Examine(c: nat)        // the file exists: read it and test it for staleness
    | Delete(c: nat)         // remove a file found stale
    | GiveUp(c: nat)         // the context is cancelled
    | Unlock(c: nat)
    | KeeperOpen(k: nat)
    | KeeperTruncate(k: nat)
    | KeeperWrite(k: nat)
    | KeeperEnd(k: nat)      // an error ends the keeper

  predicate Enabled(s: State, a: Action) {
    match a
    case Tick(t) => t >= s.now
    case Begin(c) => c in s.clients && s.clients[c].Idle?
    case Create(c) => c in s.clients && s.clients[c].Trying? && s.file.Absent?
    case WriteMeta(c) => c in s.clients && s.clients[c].Writing?
    case Examine(c) => c in s.clients && s.clients[c].Trying? && s.file.Present?
    case Delete(c) => c in s.clients && s.clients[c].Removing?
    case GiveUp(c) => c in s.clients && s.clients[c].Trying?
    case Unlock(c) => c in s.clients && s.clients[c].Holding?
    case KeeperOpen(k) => k in s.keepers && s.keepers[k].Sleeping?
    case KeeperTruncate(k) => k in s.keepers && s.keepers[k].Opened?
    case KeeperWrite(k) => k in s.keepers && s.keepers[k].Truncated?
    case KeeperEnd(k) => k in s.keepers
  }

  /** A write through a handle reaches the lock file only while that file still has the name. */
  function Through(f: File, gen: nat, content: Content): File {
    if f.Present? && f.gen == gen then Present(gen, content) else f
  }

  /** What a waiter does after reading an existing file: an empty one counts, and from the eighth on
      is treated as stale, because the zero timestamps are. */
  function Examined(f: File, empties: nat, now: int): Client
    requires f.Present?
  {
    if f.content.Blank? then
      if empties + 1 < EMPTY_LIMIT then Trying(empties + 1) else Removing(empties + 1)
    else if FileLockIsStale(f.content.meta, now) then Removing(empties)
    else Trying(empties)
  }

  function Apply(s: State, a: Action): State
    requires Enabled(s, a)
  {
    match a
    case Tick(t) => s.(now := t)
    case Begin(c) => s.(clients := s.clients[c := Trying(0)])
    case Create(c) =>
      s.(file := Present(s.nextGen, Blank), nextGen := s.nextGen + 1, clients := s.clients[c := Writing(s.nextGen)])
    case WriteMeta(c) =>
      var g := s.clients[c].gen;
      s.(file := Through(s.file, g, Meta(LockMeta(s.now, s.now))),
         clients := s.clients[c := Holding(g)], keepers := s.keepers[g := Sleeping])
    case Examine(c) => s.(clients := s.clients[c := Examined(s.file, s.clients[c].empties, s.now)])
    case Delete(c) => s.(file := Absent, clients := s.clients[c := Trying(s.clients[c].empties)])
    case GiveUp(c) => s.(clients := s.clients[c := Idle])
    case Unlock(c) => s.(file := Absent, clients := s.clients[c := Idle])
    case KeeperOpen(k) =>
      if s.file.Present? && s.file.content.Meta?
      then s.(keepers := s.keepers[k := Opened(s.file.gen, s.file.content.meta.created)])
      else s.(keepers := s.keepers - {k})
    case KeeperTruncate(k) =>
      var h := s.keepers[k];
      s.(file := Through(s.file, h.gen, Blank), keepers := s.keepers[k := Truncated(h.gen, h.created)])
    case KeeperWrite(k) =>
      var h := s.keepers[k];
      s.(file := Through(s.file, h.gen, Meta(LockMeta(h.created, s.now))), keepers := s.keepers[k := Sleeping])
    case KeeperEnd(k) => s.(keepers := s.keepers - {k})
  }

  // ---------------------------------------------------------------- runs

  predicate Initial(s: State) {
    s.now > FRESHNESS * 2 && s.file.Absent? && s.keepers == map[] && forall c :: c in s.clients ==> s.clients[c].Idle?
  }

  predicate Holds(s: State, c: nat) {
    c in s.clients && s.clients[c].Holding?
  }

  /** No held file would be found stale. */
  ghost predicate Refreshed(s: State) {
    forall c :: Holds(s, c) && s.file.Present? && s.file.content.Meta? ==>
      !FileLockIsStale(s.file.content.meta, s.now)
  }

  /** No waiter has counted the file empty often enough to give up on it. */
  ghost predicate FewEmpties(s: State) {
    forall c :: c in s.clients && (s.clients[c].Trying? || s.clients[c].Removing?) ==> s.clients[c].empties < EMPTY_LIMIT
  }

  ghost predicate Execution(tr: seq<State>, acts: seq<Action>) {
    && |tr| == |acts| + 1
    && Initial(tr[0])
    && forall i :: 0 <= i < |acts| ==> Enabled(tr[i], acts[i]) && tr[i + 1] == Apply(tr[i], acts[i])
  }

  ghost predicate AllRefreshed(tr: seq<State>) {
    forall i :: 0 <= i < |tr| ==> Refreshed(tr[i])
  }

  ghost predicate AllFewEmpties(tr: seq<State>) {
    forall i :: 0 <= i < |tr| ==> FewEmpties(tr[i])
  }

  // ---------------------------------------------------------------- assumptions on a run

  /** The action writes timestamps into the file that has the lock's name. */
  predicate WritesFile(s: State, a: Action) {
    && s.file.Present?
    && ((a.WriteMeta? && a.c in s.clients && s.clients[a.c].Writing? && s.clients[a.c].gen == s.file.gen)
        || (a.KeeperWrite? && a.k in s.keepers && s.keepers[a.k].Truncated? && s.keepers[a.k].gen == s.file.gen))
  }

  /** The time of the last such write among the first `i` actions. */
  ghost function LastWrite(tr: seq<State>, acts: seq<Action>, i: nat): Option<int>
    requires i <= |acts| < |tr|
  {
    if i == 0 then None
    else if WritesFile(tr[i - 1], acts[i - 1]) then Some(tr[i - 1].now)
    else LastWrite(tr, acts, i - 1)
  }

  /** How often the running call of `Lock` of client `c` has read the file empty. */
  ghost function EmptyReads(tr: seq<State>, acts: seq<Action>, c: nat, i: nat): nat
    requires i <= |acts| < |tr|
  {
    if i == 0 || acts[i - 1] == Begin(c) then 0
    else if acts[i - 1] == Examine(c) && tr[i - 1].file.Present? && tr[i - 1].file.content.Blank?
    then EmptyReads(tr, acts, c, i - 1) + 1
    else EmptyReads(tr, acts, c, i - 1)
  }

  /** Ten seconds, twice the freshness interval, never pass without a write to a file that is held. */
  ghost predicate WrittenInTime(tr: seq<State>, acts: seq<Action>)
    requires |tr| == |acts| + 1
  {
    forall i, c :: 0 <= i < |tr| && Holds(tr[i], c) && tr[i].file.Present? && tr[i].file.content.Meta? ==>
      LastWrite(tr, acts, i).Some? && tr[i].now - LastWrite(tr, acts, i).value <= 10_000_000_000
  }

  /** No single call of `Lock` reads the file empty eight times. */
  ghost predicate SeldomEmpty(tr: seq<State>, acts: seq<Action>)
    requires |tr| == |acts| + 1
  {
    forall i, c: nat :: 0 <= i < |tr| && c in tr[i].clients && (tr[i].clients[c].Trying? || tr[i].clients[c].Removing?) ==>
      EmptyReads(tr, acts, c, i) < 8
  }

  ghost predicate Timely(tr: seq<State>, acts: seq<Action>)
    requires |tr| == |acts| + 1
  {
    WrittenInTime(tr, acts) && SeldomEmpty(tr, acts)
  }

  /** The timestamps in the file are those of the last write to it. */
  ghost predicate Dated(tr: seq<State>, acts: seq<Action>, i: nat)
    requires i <= |acts| < |tr|
  {
    && tr[i].now > 0
    && (tr[i].file.Present? && tr[i].file.content.Meta? ==>
          LastWrite(tr, acts, i) == Some(tr[i].file.content.meta.updated) && tr[i].file.content.meta.updated > 0)
  }

  lemma {:induction false} FileIsDated(tr: seq<State>, acts: seq<Action>, i: nat)
    requires Execution(tr, acts) && i < |tr|
    ensures Dated(tr, acts, i)
  {
    if i > 0 {
      FileIsDated(tr, acts, i - 1);
      var (s, a) := (tr[i - 1], acts[i - 1]);
      assert Enabled(s, a) && tr[i - 1 + 1] == Apply(s, a);
    }
  }

  lemma {:induction false} EmptiesAreCounted(tr: seq<State>, acts: seq<Action>, c: nat, i: nat)
    requires Execution(tr, acts) && i < |tr| && c in tr[i].clients && (tr[i].clients[c].Trying? || tr[i].clients[c].Removing?)
    ensures tr[i].clients[c].empties == EmptyReads(tr, acts, c, i)
  {
    if i > 0 {
      var (s, a) := (tr[i - 1], acts[i - 1]);
      assert Enabled(s, a) && tr[i - 1 + 1] == Apply(s, a);
      if a != Begin(c) {
        assert c in s.clients && (s.clients[c].Trying? || s.clients[c].Removing?);
        EmptiesAreCounted(tr, acts, c, i - 1);
      }
    }
  }

  /** In every run, a waiter that reads timestamps takes the file for stale exactly when the last write to
      it is more than ten seconds ago, and one that reads it empty exactly when that is the eighth time. */
  lemma StaleExactly(tr: seq<State>, acts: seq<Action>, i: nat)
    requires Execution(tr, acts) && i < |acts| && acts[i].Examine?
    ensures var (c, s) := (acts[i].c, tr[i]);
            && c in tr[i + 1].clients && s.file.Present?
            && (s.file.content.Meta? ==>
                  LastWrite(tr, acts, i).Some?
                  && (tr[i + 1].clients[c].Removing? <==> s.now - LastWrite(tr, acts, i).value > 10_000_000_000))
            && (s.file.content.Blank? ==> (tr[i + 1].clients[c].Removing? <==> EmptyReads(tr, acts, c, i + 1) >= 8))
            && tr[i + 1] == s.(clients := s.clients[c := tr[i + 1].clients[c]])
            && (tr[i + 1].clients[c].Removing? || tr[i + 1].clients[c].Trying?)
  {
    assert Enabled(tr[i], acts[i]) && tr[i + 1] == Apply(tr[i], acts[i]);
    FileIsDated(tr, acts, i);
    EmptiesAreCounted(tr, acts, acts[i].c, i);
  }

  /** The assumptions on a run say what the steps rely on. */
  lemma TimelyMeans(tr: seq<State>, acts: seq<Action>)
    requires Execution(tr, acts)
    ensures WrittenInTime(tr, acts) <==> AllRefreshed(tr)
    ensures SeldomEmpty(tr, acts) <==> AllFewEmpties(tr)
  {
    forall i | 0 <= i < |tr| ensures Dated(tr, acts, i) {
      FileIsDated(tr, acts, i);
    }
    forall i, c: nat | 0 <= i < |tr| && c in tr[i].clients && (tr[i].clients[c].Trying? || tr[i].clients[c].Removing?)
      ensures tr[i].clients[c].empties == EmptyReads(tr, acts, c, i)
    {
      EmptiesAreCounted(tr, acts, c, i);
    }
    WrittenIsRefreshed(tr, acts);
  }

  lemma WrittenIsRefreshed(tr: seq<State>, acts: seq<Action>)
    requires |tr| == |acts| + 1 && forall i :: 0 <= i < |tr| ==> Dated(tr, acts, i)
    ensures WrittenInTime(tr, acts) <==> AllRefreshed(tr)
  {
    forall i | 0 <= i < |tr|
      ensures Refreshed(tr[i]) <==> forall c :: Holds(tr[i], c) && tr[i].file.Present? && tr[i].file.content.Meta? ==>
                                      LastWrite(tr, acts, i).Some? && tr[i].now - LastWrite(tr, acts, i).value <= 10_000_000_000
    {
      assert Dated(tr, acts, i);
    }
  }

  // ---------------------------------------------------------------- exclusion

  predicate Owns(s: State, c: nat) {
    c in s.clients && (s.clients[c].Writing? || s.clients[c].Holding?)
  }

  predicate HandleOn(k: Keeper, gen: nat) {
    !k.Sleeping? && k.gen == gen
  }

  ghost predicate Inv(s: State) {
    && (forall c :: Owns(s, c) ==> s.file.Present? && s.file.gen == s.clients[c].gen)
    && (forall c, d :: Owns(s, c) && Owns(s, d) ==> c == d)
    && (s.file.Present? ==> s.file.gen < s.nextGen && exists c :: Owns(s, c))
    && (forall c :: c in s.clients ==> !s.clients[c].Removing?)
    && (forall c :: c in s.clients && s.clients[c].Writing? ==> s.file.Present? && s.file.content.Blank?)
    && (forall c, k :: c in s.clients && s.clients[c].Writing? && k in s.keepers ==> !HandleOn(s.keepers[k], s.clients[c].gen))
    && (forall k :: k in s.keepers && !s.keepers[k].Sleeping? ==> s.keepers[k].gen < s.nextGen)
  }

  lemma KeeperStepKeepsInv(s: State, a: Action)
    requires Inv(s) && Enabled(s, a)
    requires a.KeeperOpen? || a.KeeperTruncate? || a.KeeperWrite? || a.KeeperEnd?
    ensures Inv(Apply(s, a))
  {
    var s' := Apply(s, a);
    assert s'.clients == s.clients;
    if s.file.Present? {
      var c :| Owns(s, c);
      assert Owns(s', c);
    }
    assert forall c :: Owns(s', c) <==> Owns(s, c);
  }

  lemma ClientStepKeepsInv(s: State, a: Action)
    requires Inv(s) && Refreshed(s) && Enabled(s, a)
    requires a.Tick? || a.Begin? || a.Create? || a.WriteMeta? || a.Examine? || a.Delete? || a.GiveUp? || a.Unlock?
    requires FewEmpties(Apply(s, a))
    ensures Inv(Apply(s, a))
  {
    var s' := Apply(s, a);
    if a.Create? {
      assert Owns(s', a.c) && forall d :: Owns(s', d) ==> d == a.c || Owns(s, d);
    } else if a.WriteMeta? {
      assert Owns(s, a.c) && Owns(s', a.c) && forall d :: Owns(s', d) ==> Owns(s, d);
      assert forall d :: d in s'.clients && s'.clients[d].Writing? ==> Owns(s', d);
    } else if a.Unlock? {
      assert Owns(s, a.c) && forall d :: Owns(s', d) ==> d != a.c && Owns(s, d);
    } else if a.Examine? {
      var d :| Owns(s, d);
      assert s.clients[d].Holding? ==> Holds(s, d);
      assert s'.clients[a.c].empties < EMPTY_LIMIT;
      assert forall d :: Owns(s', d) <==> Owns(s, d);
    } else if !a.Delete? {
      assert forall d :: Owns(s', d) <==> Owns(s, d);
    }
  }

  lemma {:induction false} TimelyRunsKeepInv(tr: seq<State>, acts: seq<Action>, i: nat)
    requires Execution(tr, acts) && Timely(tr, acts) && i < |tr|
    ensures Inv(tr[i])
  {
    TimelyMeans(tr, acts);
    if i > 0 {
      TimelyRunsKeepInv(tr, acts, i - 1);
      var a := acts[i - 1];
      assert Refreshed(tr[i - 1]) && FewEmpties(tr[i]) && tr[i - 1 + 1] == Apply(tr[i - 1], a);
      if a.KeeperOpen? || a.KeeperTruncate? || a.KeeperWrite? || a.KeeperEnd? {
        KeeperStepKeepsInv(tr[i - 1], a);
      } else {
        ClientStepKeepsInv(tr[i - 1], a);
      }
    }
  }

  /** In every timely interleaving at most one client holds the lock, its file is the one with the
      lock's name, and no waiter ever removes a file. */
  lemma MutualExclusion(tr: seq<State>, acts: seq<Action>)
    requires Execution(tr, acts) && Timely(tr, acts)
    ensures forall i, c, d :: 0 <= i < |tr| && Holds(tr[i], c) && Holds(tr[i], d) ==> c == d
    ensures forall i, c :: 0 <= i < |tr| && Holds(tr[i], c) ==> tr[i].file.Present? && tr[i].file.gen == tr[i].clients[c].gen
    ensures forall i :: 0 <= i < |acts| ==> !acts[i].Delete?
  {
    forall i | 0 <= i < |tr| ensures Inv(tr[i]) {
      TimelyRunsKeepInv(tr, acts, i);
    }
    assert forall i, c :: 0 <= i < |tr| && Holds(tr[i], c) ==> Owns(tr[i], c);
    forall i | 0 <= i < |acts| ensures !acts[i].Delete? {
      assert Inv(tr[i]) && Enabled(tr[i], acts[i]);
    }
  }

  // ---------------------------------------------------------------- refinement of a mutex

  datatype Holder = Free | HeldBy(c: nat)

  ghost predicate Abstracts(s: State, h: Holder) {
    forall c :: Holds(s, c) <==> h == HeldBy(c)
  }

  /** A mutex is taken only when free and released only by its holder. */
  predicate MutexStep(h: Holder, h': Holder, a: Action) {
    match a
    case WriteMeta(c) => h == Free && h' == HeldBy(c)
    case Unlock(c) => h == HeldBy(c) && h' == Free
    case _ => h' == h
  }

  /** Timely runs of the lock files are runs of a mutex. */
  lemma RefinesMutex(tr: seq<State>, acts: seq<Action>, i: nat, h: Holder) returns (h': Holder)
    requires Execution(tr, acts) && Timely(tr, acts) && i < |acts| && Abstracts(tr[i], h)
    ensures Abstracts(tr[i + 1], h') && MutexStep(h, h', acts[i])
  {
    TimelyRunsKeepInv(tr, acts, i);
    TimelyRunsKeepInv(tr, acts, i + 1);
    var (s, s', a) := (tr[i], tr[i + 1], acts[i]);
    h' := if a.WriteMeta? then HeldBy(a.c) else if a.Unlock? then Free else h;
    if a.WriteMeta? {
      assert Owns(s, a.c) && Owns(s', a.c);
      assert forall c :: Holds(s', c) ==> Owns(s', c);
      forall c ensures h != HeldBy(c) {
        assert Holds(s, c) ==> Owns(s, c);
      }
    } else if a.Unlock? {
      assert Holds(s, a.c);
      assert forall c :: Holds(s, c) ==> Owns(s, c);
    } else {
      assert forall c :: Holds(s', c) <==> Holds(s, c);
    }
  }

  // ---------------------------------------------------------------- both assumptions are needed

  ghost predicate Reaches(tr: seq<State>, acts: seq<Action>, s: State) {
    Execution(tr, acts) && tr[|tr| - 1] == s
  }

  lemma Extend(tr: seq<State>, acts: seq<Action>, s: State, a: Action) returns (tr': seq<State>, acts': seq<Action>, s': State)
    requires Reaches(tr, acts, s) && Enabled(s, a)
    ensures s' == Apply(s, a) && Reaches(tr', acts', s')
    ensures AllRefreshed(tr) && Refreshed(s') ==> AllRefreshed(tr')
    ensures AllFewEmpties(tr) && FewEmpties(s') ==> AllFewEmpties(tr')
  {
    s' := Apply(s, a);
    tr', acts' := tr + [s'], acts + [a];
  }

  /** Client 1 holds the lock and its keeper sleeps; client 2 is idle. */
  lemma FirstHolds() returns (tr: seq<State>, acts: seq<Action>, s: State)
    ensures Reaches(tr, acts, s) && AllRefreshed(tr) && AllFewEmpties(tr)
    ensures s == State(20_000_000_000, Present(0, Meta(LockMeta(20_000_000_000, 20_000_000_000))), 1, map[1 := Holding(0), 2 := Idle], map[0 := Sleeping])
  {
    s := State(20_000_000_000, Absent, 0, map[1 := Idle, 2 := Idle], map[]);
    tr, acts := [s], [];
    tr, acts, s := Extend(tr, acts, s, Begin(1));
    tr, acts, s := Extend(tr, acts, s, Create(1));
    tr, acts, s := Extend(tr, acts, s, WriteMeta(1));
    assert s.clients == map[1 := Holding(0), 2 := Idle];
  }

  /** From a state in which client 2 found the file stale, it comes to hold the lock as well. */
  lemma SecondTakesOver(tr: seq<State>, acts: seq<Action>, s: State) returns (tr': seq<State>, acts': seq<Action>, s': State)
    requires Reaches(tr, acts, s) && s.clients.Keys == {1, 2} && s.clients[1].Holding? && s.clients[2].Removing?
    requires s.now > FRESHNESS * 2
    ensures Reaches(tr', acts', s') && Holds(s', 1) && Holds(s', 2)
    ensures AllRefreshed(tr) ==> AllRefreshed(tr')
    ensures AllFewEmpties(tr) ==> AllFewEmpties(tr')
  {
    assert AllFewEmpties(tr) ==> FewEmpties(s);
    tr', acts', s' := Extend(tr, acts, s, Delete(2));
    tr', acts', s' := Extend(tr', acts', s', Create(2));
    tr', acts', s' := Extend(tr', acts', s', WriteMeta(2));
  }

  /** Without timely refreshing alone, two clients can hold the lock: its holder stalls for more than
      two freshness intervals and a waiter takes over. */
  lemma StaleLockBreaksExclusion() returns (tr: seq<State>, acts: seq<Action>, s: State)
    ensures Reaches(tr, acts, s) && SeldomEmpty(tr, acts) && Holds(s, 1) && Holds(s, 2)
  {
    tr, acts, s := FirstHolds();
    tr, acts, s := Extend(tr, acts, s, Tick(40_000_000_000));
    tr, acts, s := Extend(tr, acts, s, Begin(2));
    tr, acts, s := Extend(tr, acts, s, Examine(2));
    tr, acts, s := SecondTakesOver(tr, acts, s);
    TimelyMeans(tr, acts);
  }

  /** Seeing the file empty eight times alone does it as well: the keeper of a fresh lock is slow
      between truncating the file and writing it. */
  lemma EmptyLockBreaksExclusion() returns (tr: seq<State>, acts: seq<Action>, s: State)
    ensures Reaches(tr, acts, s) && WrittenInTime(tr, acts) && Holds(s, 1) && Holds(s, 2)
  {
    tr, acts, s := FirstHolds();
    tr, acts, s := Extend(tr, acts, s, KeeperOpen(0));
    tr, acts, s := Extend(tr, acts, s, KeeperTruncate(0));
    tr, acts, s := Extend(tr, acts, s, Begin(2));
    var n := 0;
    while n < EMPTY_LIMIT
      invariant 0 <= n <= EMPTY_LIMIT && Reaches(tr, acts, s) && AllRefreshed(tr)
      invariant s.now == 20_000_000_000 && s.file == Present(0, Blank) && s.clients.Keys == {1, 2} && s.clients[1] == Holding(0)
      invariant s.clients[2] == if n < EMPTY_LIMIT then Trying(n) else Removing(n)
    {
      tr, acts, s := Extend(tr, acts, s, Examine(2));
      n := n + 1;
    }
    tr, acts, s := SecondTakesOver(tr, acts, s);
    TimelyMeans(tr, acts);
  }

  // ---------------------------------------------------------------- what the protocol does

  /** A keeper's three steps rewrite the file with the present time and change nothing else. */
  lemma KeeperRefreshes(s: State, k: nat)
    requires k in s.keepers && s.keepers[k].Sleeping? && s.file.Present? && s.file.content.Meta?
    ensures Enabled(s, KeeperOpen(k))
    ensures var a := Apply(s, KeeperOpen(k));
            && Enabled(a, KeeperTruncate(k)) && a.file == s.file
            && var b := Apply(a, KeeperTruncate(k));
            && Enabled(b, KeeperWrite(k)) && b.file == Present(s.file.gen, Blank)
            && Apply(b, KeeperWrite(k)) == s.(file := Present(s.file.gen, Meta(LockMeta(s.file.content.meta.created, s.now))))
  {
    var b := Apply(Apply(s, KeeperOpen(k)), KeeperTruncate(k));
    assert Apply(b, KeeperWrite(k)).keepers == s.keepers;
  }

  /** A keeper ends when the file is gone or empty. */
  lemma KeeperEnds(s: State, k: nat)
    requires k in s.keepers && s.keepers[k].Sleeping? && (s.file.Absent? || s.file.content.Blank?)
    ensures Enabled(s, KeeperOpen(k)) && Apply(s, KeeperOpen(k)) == s.(keepers := s.keepers - {k})
  {}

  /** A lock that is released can be taken by a waiter, whose file is new and dated with the present time. */
  lemma LockIsPassedOn(s: State, c: nat, d: nat)
    requires Holds(s, c) && d in s.clients && s.clients[d].Trying?
    ensures Enabled(s, Unlock(c))
    ensures var freed := Apply(s, Unlock(c));
            && freed == s.(file := Absent, clients := s.clients[c := Idle]) && Enabled(freed, Create(d))
            && var made := Apply(freed, Create(d));
            && made.file == Present(s.nextGen, Blank) && Enabled(made, WriteMeta(d))
            && var taken := Apply(made, WriteMeta(d));
            && Holds(taken, d) && !Holds(taken, c) && s.nextGen in taken.keepers && taken.keepers[s.nextGen].Sleeping?
            && taken.file == Present(s.nextGen, Meta(LockMeta(s.now, s.now)))
  {}

  /** A client begins to try, and gives up, at will. */
  lemma TriesAndGivesUp(s: State, d: nat)
    requires d in s.clients && s.clients[d].Idle?
    ensures Enabled(s, Begin(d))
    ensures var a := Apply(s, Begin(d));
            && a == s.(clients := s.clients[d := Trying(0)]) && Enabled(a, GiveUp(d)) && Apply(a, GiveUp(d)) == s
  {
    assert Apply(Apply(s, Begin(d)), GiveUp(d)).clients == s.clients;
  }
}
