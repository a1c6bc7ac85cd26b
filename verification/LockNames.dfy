/** Which lock a call takes for a name, and which file stands for it. */
module LockNames {
  import opened Names
  import opened StorageKeys
  import opened Issuance

  const LOCK_OP := "issue_cert"

  function LockKey(op: string, name: string): string {
    op + "_" + name
  }

  /** The lock a call takes: obtaining and renewing pass the same operation. */
  function LockOf(kind: Kind, name: string): string {
    match kind
    case Obtain => LockKey(LOCK_OP, name)
    case Renew(_) => LockKey(LOCK_OP, name)
  }

  /** The file of a lock, within the folder of locks. */
  function LockFile(key: string): string {
    Safe(key) + ".lock"
  }

  /** The name of the lock file: blanks in front of the name count, everything else is sanitised away as
      in its storage keys. */
  lemma LockFileOf(kind: Kind, name: string)
    ensures LockFile(LockOf(kind, name)) == "issue_cert_" + (Lead(name) + Safe(name)) + ".lock"
  {
    assert LockOf(kind, name) == "issue_cert_" + name;
    SafeAfterWord("issue_cert_", name);
  }

  ghost predicate ShareKeys(name: string, name': string) {
    forall issuer, a :: SiteKey(issuer, name, a) == SiteKey(issuer, name', a)
  }

  ghost predicate ShareLock(name: string, name': string) {
    forall kind, kind' :: LockFile(LockOf(kind, name)) == LockFile(LockOf(kind', name'))
  }

  lemma ShareKeysIff(name: string, name': string)
    ensures ShareKeys(name, name') <==> Safe(name) == Safe(name')
  {
    forall issuer, a ensures SiteKey(issuer, name, a) == SiteKey(issuer, name', a) <==> Safe(name) == Safe(name') {
      SiteKeysDiffer(issuer, name, a, issuer, name', a);
    }
    if Safe(name) != Safe(name') {
      assert SiteKey("", name, Crt) != SiteKey("", name', Crt);
    }
  }

  lemma Between(pre: string, x: string, y: string, post: string)
    ensures pre + x + post == pre + y + post <==> x == y
  {
    var (p, q) := (pre + x + post, pre + y + post);
    assert p[|pre|..|p| - |post|] == x && q[|pre|..|q| - |post|] == y;
  }

  lemma LeadsDiffer(name: string, name': string)
    ensures Lead(name) == Lead(name') <==> |Lead(name)| == |Lead(name')|
  {
    BlanksAreUnderscores(TrimRight(name));
    BlanksAreUnderscores(TrimRight(name'));
  }

  lemma FrontsDiffer(x: string, s: string, x': string, s': string)
    requires x == x' || s == s'
    ensures x + s == x' + s' <==> x == x' && s == s'
  {
    assert (x + s)[..|x|] == x && (x + s)[|x|..] == s;
    assert (x' + s')[..|x'|] == x' && (x' + s')[|x'|..] == s';
  }

  /** Calls for one name take one lock, whatever their kind; two names share their lock exactly when their
      leading blanks and sanitised forms agree put together. */
  lemma LockFilesDiffer(name: string, name': string)
    ensures ShareLock(name, name') <==> Lead(name) + Safe(name) == Lead(name') + Safe(name')
  {
    forall kind, kind'
      ensures LockFile(LockOf(kind, name)) == LockFile(LockOf(kind', name')) <==> Lead(name) + Safe(name) == Lead(name') + Safe(name')
    {
      LockFileOf(kind, name);
      LockFileOf(kind', name');
      Between("issue_cert_", Lead(name) + Safe(name), Lead(name') + Safe(name'), ".lock");
    }
    if Lead(name) + Safe(name) != Lead(name') + Safe(name') {
      assert LockFile(LockOf(Obtain, name)) != LockFile(LockOf(Obtain, name'));
    }
  }

  /** Names with equally many leading blanks share their lock exactly when they share their storage keys;
      names with different numbers of them never share both. */
  lemma LocksFollowKeys(name: string, name': string)
    ensures |Lead(name)| == |Lead(name')| ==> (ShareLock(name, name') <==> ShareKeys(name, name'))
    ensures |Lead(name)| != |Lead(name')| ==> !(ShareLock(name, name') && ShareKeys(name, name'))
  {
    LockFilesDiffer(name, name');
    ShareKeysIff(name, name');
    LeadsDiffer(name, name');
    if Lead(name) == Lead(name') || Safe(name) == Safe(name') {
      FrontsDiffer(Lead(name), Safe(name), Lead(name'), Safe(name'));
    }
  }

  lemma NoLeadInDomains(name: string)
    requires IsDomainLike(name)
    ensures Lead(name) == ""
  {
    assert TrimRight(name) == name;
  }

  /** Different domain-like names share neither a storage key, under whatever issuers, nor their lock. */
  lemma DomainsShareNothing(name: string, name': string, i: string, i': string, a: Asset, a': Asset)
    requires IsDomainLike(name) && IsDomainLike(name') && name != name'
    ensures SiteKey(i, name, a) != SiteKey(i', name', a') && !ShareLock(name, name')
  {
    SafeKeepsDomains(name);
    SafeKeepsDomains(name');
    NoLeadInDomains(name);
    NoLeadInDomains(name');
    SiteKeysDiffer(i, name, a, i', name', a');
    LockFilesDiffer(name, name');
    assert "" + name == name && "" + name' == name';
  }

  lemma SpaceInFront()
    ensures Safe(" a") == Safe("a") == "a" && Safe("_a") == "_a"
    ensures Lead(" a") == "_" && Lead("a") == Lead("_a") == ""
  {
    SafeTrims(' ', "a");
    assert [' '] + "a" == " a";
    SafeKeepsDomains("a");
    SafeKeepsDomains("_a");
    NoLeadInDomains("a");
    NoLeadInDomains("_a");
    assert TrimRight(" a") == " a" && " a"[1..] == "a";
    assert Blanks("a") == "";
  }

  /** Both ways of coming apart: " a" and "a" share their storage keys and not the lock, " a" and "_a" the
      lock and not the keys. */
  lemma LocksAndKeysComeApart()
    ensures ShareKeys(" a", "a") && !ShareLock(" a", "a")
    ensures ShareLock(" a", "_a") && !ShareKeys(" a", "_a")
  {
    SpaceInFront();
    ShareKeysIff(" a", "a");
    ShareKeysIff(" a", "_a");
    LocksFollowKeys(" a", "a");
    LockFilesDiffer(" a", "_a");
    assert |"a"| != |"_a"| && "_" + "a" == "" + "_a";
  }

  // ---------------------------------------------------------------- issuing for names that share keys

  /** The keys under which the issuers keep their certificates for a name. */
  function SitesOf(issuers: set<string>, name: string): set<string> {
    set i | i in issuers :: SiteKey(i, name, Crt)
  }

  /** All calls are for names in `names`, with the same issuers. */
  ghost predicate CallsFor(s: State, issuers: set<string>, names: set<string>) {
    && (forall n :: n in names ==> s.sites == SitesOf(issuers, n))
    && (forall p :: p in s.procs ==> exists n :: n in names && s.procs[p].lock == LockFile(LockOf(s.procs[p].kind, n)))
  }

  ghost predicate IssuesOnce(issuers: set<string>, names: set<string>) {
    forall tr: seq<State>, acts: seq<Action>, i: int ::
      Execution(tr, acts) && CallsFor(tr[0], issuers, names) && 0 <= i < |tr| ==> ObtainedIn(tr[i].log) <= 1
  }

  lemma CallsTakeOneLock(s: State, issuers: set<string>, names: set<string>)
    requires CallsFor(s, issuers, names) && forall n, n' :: n in names && n' in names ==> ShareLock(n, n')
    ensures OneLock(s)
  {
    forall p, q | p in s.procs && q in s.procs ensures s.procs[p].lock == s.procs[q].lock {
      var n :| n in names && s.procs[p].lock == LockFile(LockOf(s.procs[p].kind, n));
      var n' :| n' in names && s.procs[q].lock == LockFile(LockOf(s.procs[q].kind, n'));
      assert ShareLock(n, n');
    }
  }

  lemma SharedLockIssuesOnce(issuers: set<string>, names: set<string>)
    requires forall n, n' :: n in names && n' in names ==> ShareLock(n, n')
    ensures IssuesOnce(issuers, names)
  {
    forall tr: seq<State>, acts: seq<Action>, i: int | Execution(tr, acts) && CallsFor(tr[0], issuers, names) && 0 <= i < |tr|
      ensures ObtainedIn(tr[i].log) <= 1
    {
      CallsTakeOneLock(tr[0], issuers, names);
      SingleIssuance(tr, acts, i);
    }
  }

  lemma SameSites(issuers: set<string>, n: string, n': string)
    requires ShareKeys(n, n')
    ensures SitesOf(issuers, n) == SitesOf(issuers, n')
  {}

  lemma ObtainsDiffer(n: string, n': string)
    requires !ShareLock(n, n')
    ensures LockFile(LockOf(Obtain, n)) != LockFile(LockOf(Obtain, n'))
  {
    LockFilesDiffer(n, n');
    LockFileOf(Obtain, n);
    LockFileOf(Obtain, n');
    Between("issue_cert_", Lead(n) + Safe(n), Lead(n') + Safe(n'), ".lock");
  }

  /** Two calls of obtaining for two of the names. */
  lemma TwoObtainsAreCalls(issuers: set<string>, names: set<string>, n: string, n': string)
    requires n in names && n' in names && forall m :: m in names ==> ShareKeys(n, m)
    ensures CallsFor(TwoObtains(SitesOf(issuers, n), LockFile(LockOf(Obtain, n)), LockFile(LockOf(Obtain, n'))), issuers, names)
  {
    forall m | m in names ensures SitesOf(issuers, n) == SitesOf(issuers, m) {
      SameSites(issuers, n, m);
    }
  }

  lemma OtherLockIssuesTwice(issuers: set<string>, names: set<string>, n: string, n': string)
    requires issuers != {} && n in names && n' in names && !ShareLock(n, n')
    requires forall m :: m in names ==> ShareKeys(n, m)
    ensures !IssuesOnce(issuers, names)
  {
    var issuer :| issuer in issuers;
    ObtainsDiffer(n, n');
    TwoObtainsAreCalls(issuers, names, n, n');
    var tr, acts, s := TwoLocksIssueTwice(
      SitesOf(issuers, n), SiteKey(issuer, n, Crt), LockFile(LockOf(Obtain, n)), LockFile(LockOf(Obtain, n')));
    assert ObtainedIn(tr[|tr| - 1].log) == 2;
  }

  /** Over any number of names that share their storage keys, obtaining issues at most one certificate in
      every run exactly when the names have equally many leading blanks. */
  lemma SharedKeysIssueOnceIff(issuers: set<string>, names: set<string>)
    requires issuers != {} && forall n, n' :: n in names && n' in names ==> ShareKeys(n, n')
    ensures IssuesOnce(issuers, names) <==> forall n, n' :: n in names && n' in names ==> |Lead(n)| == |Lead(n')|
  {
    forall n, n' | n in names && n' in names ensures ShareLock(n, n') <==> |Lead(n)| == |Lead(n')| {
      LocksFollowKeys(n, n');
    }
    if n, n' :| n in names && n' in names && !ShareLock(n, n') {
      OtherLockIssuesTwice(issuers, names, n, n');
    } else {
      SharedLockIssuesOnce(issuers, names);
    }
  }

  lemma {:induction false} NoBlanks(s: string)
    requires ' ' !in s
    ensures Blanks(s) == "" && ' ' !in TrimRight(s)
    decreases |s|
  {
    if s != "" {
      NoBlanks(s[1..]);
      NoBlanks(s[..|s| - 1]);
    }
  }

  lemma QualifyingHasNoLead(name: string)
    requires SubjectQualifies(name)
    ensures Lead(name) == ""
  {
    assert ' ' !in name by {
      assert BAD_CHARS[8] == ' ';
    }
    NoBlanks(name);
    NoBlanks(TrimRight(name));
  }

  /** Over any number of names that qualify for a certificate and share their storage keys, obtaining
      issues at most one certificate. */
  lemma QualifyingIssueOnce(issuers: set<string>, names: set<string>)
    requires forall n, n' :: n in names && n' in names ==> ShareKeys(n, n')
    requires forall n :: n in names ==> SubjectQualifies(n)
    ensures IssuesOnce(issuers, names)
  {
    forall n, n' | n in names && n' in names ensures ShareLock(n, n') {
      QualifyingHasNoLead(n);
      QualifyingHasNoLead(n');
      LocksFollowKeys(n, n');
    }
    SharedLockIssuesOnce(issuers, names);
  }
}
