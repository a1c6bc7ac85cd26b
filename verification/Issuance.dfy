/** Obtaining and renewing the certificate of one site in a cluster: check, lock, check again, issue,
    save, unlock. Any number of instances run interleaved over shared storage. Locks are mutexes here;
    `Cluster` puts the lock files in their place, and `LockNames` says which calls take the same. */
module Issuance {
  import opened Wrappers

  datatype Kind = Obtain | Renew(force: bool)

  datatype Cert = Cert(id: nat, notBefore: int)

  /** The three files of a resource, stored one after the other: key, certificate, metadata. */
  datatype Assets = Assets(key: bool, crt: Option<Cert>, meta: bool)

  datatype Phase =
    | Start
    | Waiting
    | Checking
    | Issuing
    | Saving(site: string, cert: Cert, done: nat)
    | Releasing(ok: bool)
    | Finished(ok: bool)

  /** A call, with the lock it takes. */
  datatype Proc = Proc(kind: Kind, lock: string, phase: Phase)

  /** One issuance: by which call, of what kind, and what. */
  datatype Issued = Issued(issuedBy: nat, kind: Kind, cert: Cert)

  /** `sites` are the keys under which the configured issuers keep their certificates; issuers may share
      one. `locks` gives the holder of each lock that is held. */
  datatype State = State(
    sites: set<string>, store: map<string, Assets>, due: set<nat>, locks: map<string, nat>, procs: map<nat, Proc>, log: seq<Issued>)

  // ---------------------------------------------------------------- what storage holds

  ghost predicate HasResources(s: State, i: string) {
    i in s.sites && i in s.store && s.store[i].key && s.store[i].crt.Some? && s.store[i].meta
  }

  ghost predicate HasAny(s: State) {
    exists i :: HasResources(s, i)
  }

  /** `c` is a stored certificate with the latest start of validity. */
  ghost predicate IsNewest(s: State, c: Cert) {
    && (exists i :: HasResources(s, i) && s.store[i].crt.value == c)
    && (forall i :: HasResources(s, i) ==> s.store[i].crt.value.notBefore <= c.notBefore)
  }

  // ---------------------------------------------------------------- the steps

  datatype Action =
    | Precheck(p: nat)
    | Acquire(p: nat)
    | Check(p: nat, newest: Option<Cert>)
    | IssueFails(p: nat, retry: bool)
    | Issue(p: nat, site: string, cert: Cert)
    | Save(p: nat)
    | Release(p: nat)
    | Age(ids: set<nat>)

  ghost predicate Enabled(s: State, a: Action) {
    match a
    case Precheck(p) => p in s.procs && s.procs[p].phase.Start?
    case Acquire(p) => p in s.procs && s.procs[p].phase.Waiting? && s.procs[p].lock !in s.locks
    case Check(p, c) =>
      && p in s.procs && s.procs[p].phase.Checking?
      && (c.Some? ==> IsNewest(s, c.value)) && (c.None? ==> forall c' :: !IsNewest(s, c'))
    case IssueFails(p, _) => p in s.procs && s.procs[p].phase.Issuing?
    case Issue(p, i, c) => p in s.procs && s.procs[p].phase.Issuing? && i in s.sites
    case Save(p) => p in s.procs && s.procs[p].phase.Saving? && s.procs[p].phase.done < 3
    case Release(p) => p in s.procs && s.procs[p].phase.Releasing?
    case Age(_) => true
  }

  ghost function To(s: State, p: nat, phase: Phase): State
    requires p in s.procs
  {
    s.(procs := s.procs[p := s.procs[p].(phase := phase)])
  }

  /** The check under the lock: an obtain is done if storage has the resources, an unforced renewal if
      the newest stored certificate is not due; a renewal without anything stored fails. */
  ghost function Checked(s: State, kind: Kind, newest: Option<Cert>): Phase {
    match kind
    case Obtain => if HasAny(s) then Releasing(true) else Issuing
    case Renew(force) =>
      if newest.None? then Releasing(false)
      else if newest.value.id in s.due || force then Issuing
      else Releasing(true)
  }

  function AssetsAt(s: State, i: string): Assets {
    if i in s.store then s.store[i] else Assets(false, None, false)
  }

  function Stored(a: Assets, c: Cert, done: nat): Assets {
    if done == 0 then a.(key := true) else if done == 1 then a.(crt := Some(c)) else a.(meta := true)
  }

  ghost function Apply(s: State, a: Action): State
    requires Enabled(s, a)
  {
    match a
    case Precheck(p) => To(s, p, if s.procs[p].kind.Obtain? && HasAny(s) then Finished(true) else Waiting)
    case Acquire(p) => To(s, p, Checking).(locks := s.locks[s.procs[p].lock := p])
    case Check(p, c) => To(s, p, Checked(s, s.procs[p].kind, c))
    case IssueFails(p, retry) => To(s, p, if retry then Checking else Releasing(false))
    case Issue(p, i, c) =>
      To(s, p, Saving(i, c, 0)).(log := s.log + [Issued(p, s.procs[p].kind, c)])
    case Save(p) =>
      var ph := s.procs[p].phase;
      To(s, p, if ph.done == 2 then Releasing(true) else ph.(done := ph.done + 1))
        .(store := s.store[ph.site := Stored(AssetsAt(s, ph.site), ph.cert, ph.done)])
    case Release(p) => To(s, p, Finished(s.procs[p].phase.ok)).(locks := s.locks - {s.procs[p].lock})
    case Age(ids) => s.(due := s.due + ids)
  }

  ghost predicate Initial(s: State) {
    s.locks == map[] && s.log == [] && forall p :: p in s.procs ==> s.procs[p].phase.Start?
  }

  ghost predicate Execution(tr: seq<State>, acts: seq<Action>) {
    && |tr| == |acts| + 1 && Initial(tr[0])
    && forall i :: 0 <= i < |acts| ==> Enabled(tr[i], acts[i]) && tr[i + 1] == Apply(tr[i], acts[i])
  }

  // ---------------------------------------------------------------- critical sections

  predicate Critical(ph: Phase) {
    ph.Checking? || ph.Issuing? || ph.Saving? || ph.Releasing?
  }

  predicate Inside(s: State, p: nat) {
    p in s.procs && Critical(s.procs[p].phase)
  }

  /** Whoever is in a critical section holds its lock. */
  ghost predicate Locked(s: State) {
    && (forall p :: Inside(s, p) ==> s.procs[p].lock in s.locks && s.locks[s.procs[p].lock] == p)
    && (forall p :: p in s.procs && s.procs[p].phase.Saving? ==> s.procs[p].phase.done < 3 && s.procs[p].phase.site in s.sites)
  }

  lemma StepLocked(s: State, a: Action)
    requires Locked(s) && Enabled(s, a)
    ensures Locked(Apply(s, a))
  {}

  /** Critical sections under the same lock never overlap. */
  lemma {:induction false} SameLockExcludes(tr: seq<State>, acts: seq<Action>, i: nat)
    requires Execution(tr, acts) && i < |tr|
    ensures Locked(tr[i])
    ensures forall p, q :: Inside(tr[i], p) && Inside(tr[i], q) && tr[i].procs[p].lock == tr[i].procs[q].lock ==> p == q
  {
    if i > 0 {
      SameLockExcludes(tr, acts, i - 1);
      StepLocked(tr[i - 1], acts[i - 1]);
    }
  }

  /** All calls take the same lock. */
  ghost predicate OneLock(s: State) {
    forall p, q :: p in s.procs && q in s.procs ==> s.procs[p].lock == s.procs[q].lock
  }

  ghost predicate Exclusive(s: State) {
    && Locked(s) && OneLock(s)
    && (forall p, q :: Inside(s, p) && Inside(s, q) ==> p == q)
  }

  lemma StepOneLock(s: State, a: Action)
    requires OneLock(s) && Enabled(s, a)
    ensures OneLock(Apply(s, a))
  {
    var s' := Apply(s, a);
    assert s'.procs.Keys == s.procs.Keys;
    assert forall p :: p in s.procs ==> s'.procs[p].lock == s.procs[p].lock;
  }

  lemma StepExclusive(s: State, a: Action)
    requires Exclusive(s) && Enabled(s, a)
    ensures Exclusive(Apply(s, a))
  {
    StepLocked(s, a);
    StepOneLock(s, a);
    var s' := Apply(s, a);
    forall p, q | Inside(s', p) && Inside(s', q) ensures p == q {
      assert s'.procs[p].lock == s'.procs[q].lock;
    }
  }

  // ---------------------------------------------------------------- at most one obtained

  function ObtainedIn(log: seq<Issued>): nat {
    if log == [] then 0
    else ObtainedIn(log[..|log| - 1]) + if log[|log| - 1].kind.Obtain? then 1 else 0
  }

  /** An obtain that goes on to issue found nothing stored; once one has issued, either it is still
      saving or storage has the resources. */
  ghost predicate ObtainInv(s: State) {
    && Exclusive(s)
    && ObtainedIn(s.log) <= 1
    && (ObtainedIn(s.log) == 1 ==> HasAny(s) || exists p :: ObtainSaving(s, p))
    && (forall p :: p in s.procs && s.procs[p].kind.Obtain? && s.procs[p].phase.Issuing? ==> !HasAny(s))
    && (forall p :: p in s.procs && s.procs[p].phase.Saving? ==> SavedSoFar(s, s.procs[p].phase))
  }

  ghost predicate ObtainSaving(s: State, p: nat) {
    p in s.procs && s.procs[p].kind.Obtain? && s.procs[p].phase.Saving?
  }

  ghost predicate SavedSoFar(s: State, ph: Phase)
    requires ph.Saving?
  {
    && (ph.done >= 1 ==> AssetsAt(s, ph.site).key)
    && (ph.done >= 2 ==> AssetsAt(s, ph.site).crt == Some(ph.cert))
  }

  lemma ResourcesStay(s: State, a: Action)
    requires Enabled(s, a)
    ensures forall i :: HasResources(s, i) ==> HasResources(Apply(s, a), i)
    ensures !a.Save? ==> forall i :: HasResources(s, i) <==> HasResources(Apply(s, a), i)
  {}

  lemma SaveCompletes(s: State, p: nat)
    requires Enabled(s, Save(p)) && Exclusive(s) && SavedSoFar(s, s.procs[p].phase)
    ensures var ph := s.procs[p].phase; var s' := Apply(s, Save(p));
            && (ph.done < 2 ==> SavedSoFar(s', s'.procs[p].phase))
            && (ph.done == 2 ==> HasResources(s', ph.site) && s'.store[ph.site].crt == Some(ph.cert))
  {}

  lemma IssueIsLogged(s: State, a: Action)
    requires a.Issue? && Enabled(s, a)
    ensures ObtainedIn(Apply(s, a).log) == ObtainedIn(s.log) + if s.procs[a.p].kind.Obtain? then 1 else 0
  {
    var s' := Apply(s, a);
    assert s'.log[..|s'.log| - 1] == s.log;
  }

  /** Whoever issues is the only one in its critical section, so nobody was saving. */
  lemma IssuerIsAlone(s: State, a: Action)
    requires Exclusive(s) && a.Issue? && Enabled(s, a)
    ensures forall p :: !ObtainSaving(s, p)
    ensures var s' := Apply(s, a);
            forall p :: p in s'.procs && (s'.procs[p].phase.Saving? || s'.procs[p].phase.Issuing?) ==>
                          p == a.p && s'.procs[p].phase == Saving(a.site, a.cert, 0)
  {}

  lemma IssueKeepsObtain(s: State, a: Action)
    requires ObtainInv(s) && a.Issue? && Enabled(s, a)
    ensures ObtainInv(Apply(s, a))
  {
    var s' := Apply(s, a);
    StepExclusive(s, a);
    ResourcesStay(s, a);
    assert HasAny(s') <==> HasAny(s);
    IssueIsLogged(s, a);
    IssuerIsAlone(s, a);
    if s.procs[a.p].kind.Obtain? {
      assert ObtainSaving(s', a.p);
    }
    forall p | p in s'.procs && s'.procs[p].phase.Saving? ensures SavedSoFar(s', s'.procs[p].phase) {
      assert s'.procs[p].phase == Saving(a.site, a.cert, 0);
    }
  }

  lemma SaveKeepsObtain(s: State, a: Action)
    requires ObtainInv(s) && a.Save? && Enabled(s, a)
    ensures ObtainInv(Apply(s, a))
  {
    var s' := Apply(s, a);
    StepExclusive(s, a);
    ResourcesStay(s, a);
    SaveCompletes(s, a.p);
    assert forall p :: ObtainSaving(s, p) ==> p == a.p;
    assert s.procs[a.p].phase.done == 2 ==> HasAny(s');
    assert s.procs[a.p].phase.done < 2 && ObtainSaving(s, a.p) ==> ObtainSaving(s', a.p);
  }

  lemma OtherKeepsObtain(s: State, a: Action)
    requires ObtainInv(s) && !a.Issue? && !a.Save? && Enabled(s, a)
    ensures ObtainInv(Apply(s, a))
  {
    var s' := Apply(s, a);
    StepExclusive(s, a);
    ResourcesStay(s, a);
    assert HasAny(s) <==> HasAny(s');
    forall p | ObtainSaving(s, p) ensures ObtainSaving(s', p) {
      assert s'.procs[p] == s.procs[p];
    }
    forall p | p in s'.procs && s'.procs[p].phase.Saving? ensures SavedSoFar(s', s'.procs[p].phase) {
      assert s'.procs[p] == s.procs[p];
    }
  }

  lemma StepObtain(s: State, a: Action)
    requires ObtainInv(s) && Enabled(s, a)
    ensures ObtainInv(Apply(s, a))
  {
    if a.Issue? {
      IssueKeepsObtain(s, a);
    } else if a.Save? {
      SaveKeepsObtain(s, a);
    } else {
      OtherKeepsObtain(s, a);
    }
  }

  /** For any number of calls that take one lock, interleaved in any way with renewals of any kind: critical
      sections never overlap and at most one certificate is ever issued by obtaining; none, if one is
      stored. */
  lemma {:induction false} SingleIssuance(tr: seq<State>, acts: seq<Action>, i: nat)
    requires Execution(tr, acts) && i < |tr| && OneLock(tr[0])
    ensures ObtainInv(tr[i])
    ensures forall p, q :: Inside(tr[i], p) && Inside(tr[i], q) ==> p == q
    ensures HasAny(tr[0]) ==> HasAny(tr[i]) && ObtainedIn(tr[i].log) == 0
  {
    if i > 0 {
      SingleIssuance(tr, acts, i - 1);
      StepObtain(tr[i - 1], acts[i - 1]);
      ResourcesStay(tr[i - 1], acts[i - 1]);
      if acts[i - 1].Issue? {
        assert tr[i].log[..|tr[i].log| - 1] == tr[i - 1].log;
      }
    }
  }

  // ---------------------------------------------------------------- two locks

  ghost predicate Reaches(tr: seq<State>, acts: seq<Action>, start: State, s: State) {
    Execution(tr, acts) && tr[0] == start && tr[|tr| - 1] == s
  }

  lemma Extend(tr: seq<State>, acts: seq<Action>, start: State, s: State, a: Action) returns (tr': seq<State>, acts': seq<Action>, s': State)
    requires Reaches(tr, acts, start, s) && Enabled(s, a)
    ensures s' == Apply(s, a) && Reaches(tr', acts', start, s')
  {
    s' := Apply(s, a);
    tr', acts' := tr + [s'], acts + [a];
  }

  function TwoObtains(sites: set<string>, lock: string, lock': string): State {
    State(sites, map[], {}, map[], map[0 := Proc(Obtain, lock, Start), 1 := Proc(Obtain, lock', Start)], [])
  }

  /** Call `p` finds nothing stored and goes on to issue. */
  lemma GoesOnToIssue(tr: seq<State>, acts: seq<Action>, start: State, s: State, p: nat) returns (tr': seq<State>, acts': seq<Action>, s': State)
    requires Reaches(tr, acts, start, s) && s.store == map[] && p in s.procs
    requires s.procs[p].kind.Obtain? && s.procs[p].phase.Start? && s.procs[p].lock !in s.locks
    ensures Reaches(tr', acts', start, s')
    ensures s' == s.(procs := s.procs[p := s.procs[p].(phase := Issuing)], locks := s.locks[s.procs[p].lock := p])
  {
    assert forall i :: !HasResources(s, i);
    tr', acts', s' := Extend(tr, acts, start, s, Precheck(p));
    tr', acts', s' := Extend(tr', acts', start, s', Acquire(p));
    assert forall i :: !HasResources(s', i);
    tr', acts', s' := Extend(tr', acts', start, s', Check(p, None));
  }

  /** Under two locks, two calls of obtaining can both issue. */
  lemma TwoLocksIssueTwice(sites: set<string>, site: string, lock: string, lock': string) returns (tr: seq<State>, acts: seq<Action>, s: State)
    requires site in sites && lock != lock'
    ensures Reaches(tr, acts, TwoObtains(sites, lock, lock'), s) && ObtainedIn(s.log) == 2
  {
    var start := TwoObtains(sites, lock, lock');
    tr, acts, s := [start], [], start;
    tr, acts, s := GoesOnToIssue(tr, acts, start, s, 0);
    tr, acts, s := GoesOnToIssue(tr, acts, start, s, 1);
    IssueIsLogged(s, Issue(0, site, Cert(0, 0)));
    tr, acts, s := Extend(tr, acts, start, s, Issue(0, site, Cert(0, 0)));
    IssueIsLogged(s, Issue(1, site, Cert(1, 0)));
    tr, acts, s := Extend(tr, acts, start, s, Issue(1, site, Cert(1, 0)));
  }

  // ---------------------------------------------------------------- renewals

  ghost predicate DueFound(s: State) {
    exists c :: IsNewest(s, c) && c.id in s.due
  }

  /** An unforced renewal that goes on to issue found the newest stored certificate due. */
  ghost predicate RenewInv(s: State) {
    && Exclusive(s)
    && (forall p :: p in s.procs && s.procs[p].kind == Renew(false) && s.procs[p].phase.Issuing? ==> DueFound(s))
  }

  lemma NewestStays(s: State, a: Action, c: Cert)
    requires Enabled(s, a) && !a.Save?
    ensures IsNewest(s, c) <==> IsNewest(Apply(s, a), c)
  {
    ResourcesStay(s, a);
    assert Apply(s, a).store == s.store;
  }

  lemma StepRenew(s: State, a: Action)
    requires RenewInv(s) && Enabled(s, a)
    ensures RenewInv(Apply(s, a))
  {
    var s' := Apply(s, a);
    StepExclusive(s, a);
    if !a.Save? {
      forall c ensures IsNewest(s, c) <==> IsNewest(s', c) {
        NewestStays(s, a, c);
      }
      if a.Check? && a.newest.Some? {
        assert IsNewest(s', a.newest.value);
      }
      assert DueFound(s) ==> DueFound(s') by {
        if DueFound(s) {
          var c :| IsNewest(s, c) && c.id in s.due;
          assert IsNewest(s', c);
        }
      }
    }
  }

  lemma {:induction false} RunsKeepRenew(tr: seq<State>, acts: seq<Action>, i: nat)
    requires Execution(tr, acts) && i < |tr| && OneLock(tr[0])
    ensures RenewInv(tr[i])
  {
    if i > 0 {
      RunsKeepRenew(tr, acts, i - 1);
      StepRenew(tr[i - 1], acts[i - 1]);
    }
  }

  /** Every unforced renewal issues only while the newest stored certificate is due. */
  lemma UnforcedOnlyWhenDue(tr: seq<State>, acts: seq<Action>, i: nat)
    requires Execution(tr, acts) && i < |acts| && OneLock(tr[0])
    requires acts[i].Issue? && acts[i].p in tr[i].procs && tr[i].procs[acts[i].p].kind == Renew(false)
    ensures exists c :: IsNewest(tr[i], c) && c.id in tr[i].due
  {
    RunsKeepRenew(tr, acts, i);
    assert Enabled(tr[i], acts[i]) && DueFound(tr[i]);
  }

  // ---------------------------------------------------------------- coalescing of renewals

  ghost predicate OnlyUnforced(s: State) {
    forall p :: p in s.procs ==> s.procs[p].kind == Renew(false)
  }

  /** The certificates issued in the run are not themselves due. */
  ghost predicate IssuedNotDue(s: State) {
    forall k :: 0 <= k < |s.log| ==> s.log[k].cert.id !in s.due
  }

  /** A certificate for site `i` is valid from later than what is stored for the other sites. */
  ghost predicate Newer(s: State, i: string, c: Cert) {
    forall j :: j in s.store && j != i && s.store[j].crt.Some? ==> s.store[j].crt.value.notBefore < c.notBefore
  }

  ghost predicate IssuesNewer(s: State, a: Action) {
    a.Issue? ==> Newer(s, a.site, a.cert)
  }

  ghost predicate Succeeded(ph: Phase) {
    (ph.Releasing? || ph.Finished?) && ph.ok
  }

  /** Nothing issued yet: whatever is newest is due, and nobody has succeeded. */
  ghost predicate Before(s: State) {
    && s.log == []
    && (forall c :: IsNewest(s, c) ==> c.id in s.due)
    && (forall p :: p in s.procs ==> !s.procs[p].phase.Saving? && !Succeeded(s.procs[p].phase))
  }

  /** Call `p` is saving the one issued certificate. */
  ghost predicate SavesIssued(s: State, p: nat)
    requires |s.log| == 1
  {
    && p in s.procs && s.procs[p].phase.Saving?
    && var ph := s.procs[p].phase;
    && ph.cert == s.log[0].cert && SavedSoFar(s, ph)
    && ph.cert.id !in s.due && Newer(s, ph.site, ph.cert)
  }

  ghost predicate During(s: State) {
    && |s.log| == 1 && (exists p :: SavesIssued(s, p))
    && (forall p :: p in s.procs ==> !Succeeded(s.procs[p].phase))
  }

  /** The one issued certificate is stored, newest and not due. */
  ghost predicate Afterwards(s: State) {
    && |s.log| == 1 && s.log[0].cert.id !in s.due
    && (forall c :: IsNewest(s, c) ==> c == s.log[0].cert)
    && (forall p :: p in s.procs ==> !s.procs[p].phase.Saving? && !s.procs[p].phase.Issuing?)
  }

  ghost predicate Coalesced(s: State) {
    Exclusive(s) && OnlyUnforced(s) && (Before(s) || During(s) || Afterwards(s))
  }

  lemma StepSaving(s: State, p: nat)
    requires Exclusive(s) && OnlyUnforced(s) && During(s) && SavesIssued(s, p) && Enabled(s, Save(p))
    ensures During(Apply(s, Save(p))) || Afterwards(Apply(s, Save(p)))
  {
    var s' := Apply(s, Save(p));
    SaveCompletes(s, p);
    var ph := s.procs[p].phase;
    if ph.done == 2 {
      assert HasResources(s', ph.site);
      assert Inside(s, p) && forall q :: Inside(s, q) ==> q == p;
    } else {
      assert SavesIssued(s', p);
    }
  }

  lemma StepDuring(s: State, a: Action)
    requires Exclusive(s) && OnlyUnforced(s) && During(s) && Enabled(s, a) && IssuedNotDue(Apply(s, a))
    ensures During(Apply(s, a)) || Afterwards(Apply(s, a))
  {
    var s' := Apply(s, a);
    var p :| SavesIssued(s, p);
    assert Inside(s, p) && forall q :: Inside(s, q) ==> q == p;
    assert s'.log == s.log;
    if a.Save? {
      assert a.p == p;
      StepSaving(s, p);
    } else {
      assert s'.procs[p] == s.procs[p] && s'.store == s.store;
      assert s.log[0].cert.id !in s'.due;
      assert SavesIssued(s', p);
    }
  }

  lemma StepBefore(s: State, a: Action)
    requires Exclusive(s) && OnlyUnforced(s) && Before(s) && Enabled(s, a) && IssuesNewer(s, a) && IssuedNotDue(Apply(s, a))
    ensures Before(Apply(s, a)) || During(Apply(s, a))
  {
    var s' := Apply(s, a);
    assert !a.Save?;
    forall c ensures IsNewest(s, c) <==> IsNewest(s', c) {
      NewestStays(s, a, c);
    }
    if a.Issue? {
      assert SavesIssued(s', a.p);
    }
  }

  lemma StepAfterwards(s: State, a: Action)
    requires Exclusive(s) && OnlyUnforced(s) && Afterwards(s) && Enabled(s, a) && IssuedNotDue(Apply(s, a))
    ensures Afterwards(Apply(s, a))
  {
    var s' := Apply(s, a);
    assert !a.Save?;
    forall c ensures IsNewest(s, c) <==> IsNewest(s', c) {
      NewestStays(s, a, c);
    }
  }

  lemma StepCoalesced(s: State, a: Action)
    requires Coalesced(s) && Enabled(s, a) && IssuesNewer(s, a) && IssuedNotDue(Apply(s, a))
    ensures Coalesced(Apply(s, a))
  {
    StepExclusive(s, a);
    if During(s) {
      StepDuring(s, a);
    } else if Before(s) {
      StepBefore(s, a);
    } else {
      StepAfterwards(s, a);
    }
  }

  /** Any number of racing unforced renewals of a due certificate cause at most one issuance, and
      exactly one as soon as any of them succeeds, if what is issued is not due and is the newest. */
  lemma {:induction false} RenewalsCoalesce(tr: seq<State>, acts: seq<Action>, i: nat)
    requires Execution(tr, acts) && i < |tr| && OneLock(tr[0]) && OnlyUnforced(tr[0])
    requires forall c :: IsNewest(tr[0], c) ==> c.id in tr[0].due
    requires forall j :: 0 <= j < |tr| ==> IssuedNotDue(tr[j])
    requires forall j :: 0 <= j < |acts| ==> IssuesNewer(tr[j], acts[j])
    ensures Coalesced(tr[i])
    ensures |tr[i].log| <= 1
    ensures forall p :: p in tr[i].procs && Succeeded(tr[i].procs[p].phase) ==> |tr[i].log| == 1
  {
    if i > 0 {
      RenewalsCoalesce(tr, acts, i - 1);
      assert tr[i - 1 + 1] == Apply(tr[i - 1], acts[i - 1]) && IssuedNotDue(tr[i]) && IssuesNewer(tr[i - 1], acts[i - 1]);
      StepCoalesced(tr[i - 1], acts[i - 1]);
    }
  }

  // ---------------------------------------------------------------- what calls come to

  /** Call `p` has issued. */
  ghost predicate HasIssued(s: State, p: nat) {
    exists k :: 0 <= k < |s.log| && s.log[k].issuedBy == p
  }

  /** At a check under the lock, call `p` found nothing stored. */
  ghost predicate FoundNothing(tr: seq<State>, acts: seq<Action>, i: nat, p: nat)
    requires i <= |acts| < |tr|
  {
    exists j :: 0 <= j < i && acts[j] == Check(p, None) && !HasAny(tr[j])
  }

  /** At a check, call `p` found a complete resource. */
  ghost predicate FoundStored(tr: seq<State>, acts: seq<Action>, i: nat, p: nat)
    requires i <= |acts| < |tr|
  {
    exists j :: 0 <= j < i && (acts[j] == Precheck(p) || (acts[j].Check? && acts[j].p == p)) && HasAny(tr[j])
  }

  /** At a check under the lock, call `p` found the newest stored certificate not due. */
  ghost predicate FoundNotDue(tr: seq<State>, acts: seq<Action>, i: nat, p: nat)
    requires i <= |acts| < |tr|
  {
    exists j, c :: 0 <= j < i && acts[j] == Check(p, Some(c)) && IsNewest(tr[j], c) && c.id !in tr[j].due
  }

  ghost predicate IssueFailed(acts: seq<Action>, i: nat, p: nat)
    requires i <= |acts|
  {
    exists j :: 0 <= j < i && acts[j].IssueFails? && acts[j].p == p
  }

  /** Why call `p` has come as far as it has after `i` steps. */
  ghost predicate Explained(tr: seq<State>, acts: seq<Action>, i: nat, p: nat)
    requires i <= |acts| < |tr| && p in tr[i].procs
  {
    var (kind, ph) := (tr[i].procs[p].kind, tr[i].procs[p].phase);
    && (ph.Saving? ==> HasIssued(tr[i], p))
    && ((ph.Releasing? || ph.Finished?) && !ph.ok ==>
          IssueFailed(acts, i, p) || (kind.Renew? && FoundNothing(tr, acts, i, p)))
    && ((ph.Releasing? || ph.Finished?) && ph.ok ==>
          || HasIssued(tr[i], p)
          || (kind.Obtain? && FoundStored(tr, acts, i, p))
          || (kind == Renew(false) && FoundNotDue(tr, acts, i, p)))
  }

  lemma ExplanationsStay(tr: seq<State>, acts: seq<Action>, i: nat, p: nat)
    requires Execution(tr, acts) && i < |acts|
    ensures HasIssued(tr[i], p) ==> HasIssued(tr[i + 1], p)
    ensures FoundNothing(tr, acts, i, p) ==> FoundNothing(tr, acts, i + 1, p)
    ensures FoundStored(tr, acts, i, p) ==> FoundStored(tr, acts, i + 1, p)
    ensures FoundNotDue(tr, acts, i, p) ==> FoundNotDue(tr, acts, i + 1, p)
    ensures IssueFailed(acts, i, p) ==> IssueFailed(acts, i + 1, p)
  {
    assert Enabled(tr[i], acts[i]) && tr[i + 1] == Apply(tr[i], acts[i]);
    if HasIssued(tr[i], p) {
      var k :| 0 <= k < |tr[i].log| && tr[i].log[k].issuedBy == p;
      assert tr[i + 1].log[k] == tr[i].log[k];
    }
  }

  lemma {:induction false} SomeNewest(s: State, sites: set<string>) returns (c: Cert)
    requires exists i :: i in sites && HasResources(s, i)
    ensures exists i :: i in sites && HasResources(s, i) && s.store[i].crt.value == c
    ensures forall i :: i in sites && HasResources(s, i) ==> s.store[i].crt.value.notBefore <= c.notBefore
    decreases |sites|
  {
    var i :| i in sites && HasResources(s, i);
    var rest := sites - {i};
    if exists j :: j in rest && HasResources(s, j) {
      c := SomeNewest(s, rest);
      if c.notBefore < s.store[i].crt.value.notBefore {
        c := s.store[i].crt.value;
      }
    } else {
      c := s.store[i].crt.value;
    }
  }

  /** Whenever something is stored there is a newest of it. */
  lemma NewestExists(s: State)
    ensures HasAny(s) <==> exists c :: IsNewest(s, c)
  {
    if HasAny(s) {
      var i :| HasResources(s, i);
      var c := SomeNewest(s, s.sites);
      assert IsNewest(s, c);
    }
  }

  /** The check of a call that comes to release explains it. */
  lemma CheckExplained(tr: seq<State>, acts: seq<Action>, i: nat, p: nat)
    requires Execution(tr, acts) && i < |acts| && acts[i].Check? && acts[i].p == p && p in tr[i].procs
    ensures p in tr[i + 1].procs && Explained(tr, acts, i + 1, p)
  {
    var (s, c) := (tr[i], acts[i].newest);
    assert Enabled(s, acts[i]) && tr[i + 1] == Apply(s, acts[i]);
    NewestExists(s);
    assert tr[i + 1].procs[p] == s.procs[p].(phase := Checked(s, s.procs[p].kind, c));
    if s.procs[p].kind.Obtain? {
      assert HasAny(s) ==> FoundStored(tr, acts, i + 1, p);
    } else if c.None? {
      assert FoundNothing(tr, acts, i + 1, p);
    } else if c.value.id !in s.due {
      assert acts[i] == Check(p, Some(c.value)) && FoundNotDue(tr, acts, i + 1, p);
    }
  }

  /** The last step of a call explains what it has come to. */
  lemma StepExplained(tr: seq<State>, acts: seq<Action>, i: nat, p: nat)
    requires Execution(tr, acts) && i < |acts| && p in tr[i].procs && Explained(tr, acts, i, p)
    ensures p in tr[i + 1].procs && Explained(tr, acts, i + 1, p)
  {
    var (s, s', a) := (tr[i], tr[i + 1], acts[i]);
    assert Enabled(s, a) && s' == Apply(s, a);
    ExplanationsStay(tr, acts, i, p);
    if a.Check? && a.p == p {
      CheckExplained(tr, acts, i, p);
    } else if a.Issue? && a.p == p {
      assert s'.log[|s.log|].issuedBy == p;
    } else if a.Age? || a.p != p {
      assert s'.procs[p] == s.procs[p];
    } else if a.Precheck? {
      assert HasAny(s) ==> FoundStored(tr, acts, i + 1, p);
    } else if a.IssueFails? {
      assert IssueFailed(acts, i + 1, p);
    }
  }

  /** In every run every outcome is explained: a call that fails had an issuer fail or, renewing, found
      nothing stored; one that succeeds without issuing found, when obtaining, something stored, and when
      renewing was not forced and found the newest stored certificate not due. */
  lemma {:induction false} OutcomesExplained(tr: seq<State>, acts: seq<Action>, i: nat, p: nat)
    requires Execution(tr, acts) && i < |tr| && p in tr[i].procs
    ensures Explained(tr, acts, i, p)
  {
    if i > 0 {
      assert Enabled(tr[i - 1], acts[i - 1]) && tr[i - 1 + 1] == Apply(tr[i - 1], acts[i - 1]);
      OutcomesExplained(tr, acts, i - 1, p);
      StepExplained(tr, acts, i - 1, p);
    }
  }

  /** A call that has something to do: nothing is stored and it obtains, or it renews what is stored, which
      is due unless the renewal is forced. */
  ghost predicate HasWork(s: State, kind: Kind, newest: Option<Cert>) {
    match kind
    case Obtain => newest.None? && !HasAny(s)
    case Renew(force) => newest.Some? && IsNewest(s, newest.value) && (newest.value.id in s.due || force)
  }

  /** From the start of any run such a call can issue any certificate for any site, save it and finish. */
  lemma WorkCanBeDone(start: State, p: nat, newest: Option<Cert>, site: string, cert: Cert)
    returns (tr: seq<State>, acts: seq<Action>, s: State)
    requires Initial(start) && p in start.procs && HasWork(start, start.procs[p].kind, newest) && site in start.sites
    ensures Reaches(tr, acts, start, s)
    ensures p in s.procs && s.procs[p].phase == Finished(true) && s.log == [Issued(p, start.procs[p].kind, cert)]
    ensures s.store == start.store[site := Assets(true, Some(cert), true)] && s.locks == map[] && s.due == start.due
  {
    tr, acts, s := ComesToIssue(start, p, newest);
    tr, acts, s := IssuesAndSaves(tr, acts, start, s, p, site, cert);
    tr, acts, s := Extend(tr, acts, start, s, Release(p));
    assert s.locks == map[];
  }

  lemma IssuesAndSaves(tr: seq<State>, acts: seq<Action>, start: State, s: State, p: nat, site: string, cert: Cert)
    returns (tr': seq<State>, acts': seq<Action>, s': State)
    requires Reaches(tr, acts, start, s) && p in s.procs && s.procs[p].phase.Issuing? && site in s.sites
    ensures Reaches(tr', acts', start, s')
    ensures s' == s.(procs := s.procs[p := s.procs[p].(phase := Releasing(true))],
                     log := s.log + [Issued(p, s.procs[p].kind, cert)],
                     store := s.store[site := Assets(true, Some(cert), true)])
  {
    tr', acts', s' := Extend(tr, acts, start, s, Issue(p, site, cert));
    assert s'.procs == s.procs[p := s.procs[p].(phase := Saving(site, cert, 0))];
    tr', acts', s' := Extend(tr', acts', start, s', Save(p));
    tr', acts', s' := Extend(tr', acts', start, s', Save(p));
    assert s'.procs == s.procs[p := s.procs[p].(phase := Saving(site, cert, 2))];
    tr', acts', s' := Extend(tr', acts', start, s', Save(p));
    assert s'.store == s.store[site := Assets(true, Some(cert), true)];
  }

  lemma ComesToIssue(start: State, p: nat, newest: Option<Cert>) returns (tr: seq<State>, acts: seq<Action>, s: State)
    requires Initial(start) && p in start.procs && HasWork(start, start.procs[p].kind, newest)
    ensures Reaches(tr, acts, start, s)
    ensures s == start.(locks := map[start.procs[p].lock := p], procs := start.procs[p := start.procs[p].(phase := Issuing)])
  {
    NewestExists(start);
    tr, acts, s := [start], [], start;
    tr, acts, s := Extend(tr, acts, start, s, Precheck(p));
    tr, acts, s := Extend(tr, acts, start, s, Acquire(p));
    assert forall i :: HasResources(s, i) <==> HasResources(start, i);
    forall c ensures IsNewest(s, c) <==> IsNewest(start, c) {
    }
    tr, acts, s := Extend(tr, acts, start, s, Check(p, newest));
  }

  /** Obtaining ends without the lock when the resources are there already, and only then; a renewal always
      goes for the lock. */
  lemma PrecheckSkips(s: State, p: nat)
    requires p in s.procs && s.procs[p].phase.Start?
    ensures Enabled(s, Precheck(p))
    ensures Apply(s, Precheck(p)) == s.(procs := s.procs[p := s.procs[p].(phase :=
              if s.procs[p].kind == Obtain && exists i :: HasResources(s, i) then Finished(true) else Waiting)])
  {}

  /** A failure to issue ends the call or sends it back to its check; a lock can be taken when it is free;
      certificates come due with time. */
  lemma FailuresAndTime(s: State, p: nat, ids: set<nat>)
    requires p in s.procs
    ensures s.procs[p].phase.Issuing? ==>
              forall retry :: && Enabled(s, IssueFails(p, retry))
                              && Apply(s, IssueFails(p, retry)) == To(s, p, if retry then Checking else Releasing(false))
    ensures s.procs[p].phase.Waiting? ==> (Enabled(s, Acquire(p)) <==> s.procs[p].lock !in s.locks)
    ensures Enabled(s, Age(ids)) && Apply(s, Age(ids)) == s.(due := s.due + ids)
  {}

  /** A save that is broken off leaves nothing that counts as stored. */
  lemma BrokenOffSaves(s: State, p: nat)
    requires p in s.procs && s.procs[p].phase.Saving? && s.procs[p].phase.done == 0 && s.procs[p].phase.site !in s.store
    ensures Enabled(s, Save(p)) && !HasResources(Apply(s, Save(p)), s.procs[p].phase.site)
    ensures var one := Apply(s, Save(p));
            Enabled(one, Save(p)) && !HasResources(Apply(one, Save(p)), s.procs[p].phase.site)
  {}

  /** What lacks its key, its certificate or its metadata does not count as stored: obtaining goes on to
      issue. */
  lemma IncompleteIsObtained(start: State, p: nat, site: string, cert: Cert) returns (tr: seq<State>, acts: seq<Action>, s: State)
    requires Initial(start) && p in start.procs && start.procs[p].kind == Obtain && site in start.sites
    requires forall i :: i in start.store ==> !start.store[i].key || start.store[i].crt == None || !start.store[i].meta
    ensures Reaches(tr, acts, start, s) && p in s.procs && s.procs[p].phase == Finished(true)
    ensures s.log == [Issued(p, Obtain, cert)] && s.store == start.store[site := Assets(true, Some(cert), true)]
  {
    assert forall i :: !HasResources(start, i);
    tr, acts, s := WorkCanBeDone(start, p, None, site, cert);
  }
}
