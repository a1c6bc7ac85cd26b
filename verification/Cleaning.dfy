/** Cleaning storage: deleting expired certificates and keeping cleanings apart. */
module Cleaning {
  import opened Wrappers
  import Renewal

  /** The content of a stored file: a certificate that can be decoded, or anything else. */
  datatype Content = Certificate(notAfter: nat) | Other

  /** Storage below the certificates prefix: issuers, their sites, and the assets of each site. */
  type Site = map<string, Content>
  type Folder = map<string, Site>
  type Tree = map<string, Folder>

  /** When each certificate is looked at: the clock is read for one at a time. */
  type SiteClock = string -> int
  type FolderClock = string -> SiteClock
  type TreeClock = string -> FolderClock

  predicate IsCrt(asset: string) {
    |asset| >= 4 && asset[|asset| - 4..] == ".crt"
  }

  function Base(asset: string): string
    requires IsCrt(asset)
  {
    asset[..|asset| - 4]
  }

  function Related(crt: string): set<string>
    requires IsCrt(crt)
  {
    {crt, Base(crt) + ".key", Base(crt) + ".json"}
  }

  /** Expired for at least the grace period. */
  predicate Overdue(c: Content, now: int, grace: int) {
    c.Certificate? && now - Renewal.ExpiresAt(c.notAfter) >= grace
  }

  /** The assets that go because of the certificates named in `crts`. */
  function Doomed(site: Site, crts: set<string>, clock: SiteClock, grace: int): set<string> {
    set c, a | c in crts && c in site && IsCrt(c) && Overdue(site[c], clock(c), grace) && a in Related(c) :: a
  }

  function CleanedSite(site: Site, clock: SiteClock, grace: int): Site {
    site - Doomed(site, site.Keys, clock, grace)
  }

  /** Sites found empty are removed, issuers are not. */
  function CleanedFolder(f: Folder, clock: FolderClock, grace: int): Folder {
    map s | s in f && CleanedSite(f[s], clock(s), grace) != map[] :: CleanedSite(f[s], clock(s), grace)
  }

  function CleanedTree(t: Tree, clock: TreeClock, grace: int): Tree {
    map i | i in t :: CleanedFolder(t[i], clock(i), grace)
  }

  predicate Malformed(site: Site) {
    exists c :: c in site && IsCrt(c) && site[c].Other?
  }

  predicate HasMalformed(f: Folder) {
    exists s :: s in f && Malformed(f[s])
  }

  lemma SameBase(a: string, b: string, ext: string)
    requires IsCrt(a) && IsCrt(b) && Base(a) + ext == Base(b) + ext
    ensures a == b
  {
    assert |Base(a)| == |Base(b)|;
    assert Base(a) == (Base(a) + ext)[..|Base(a)|] == Base(b);
    assert a == Base(a) + a[|a| - 4..] && b == Base(b) + b[|b| - 4..];
  }

  lemma ExtensionsDiffer(x: string, y: string)
    ensures !IsCrt(x + ".key") && !IsCrt(x + ".json") && x + ".key" != y + ".json"
  {
    assert (x + ".key")[|x + ".key"| - 1] == 'y';
    assert (x + ".json")[|x + ".json"| - 1] == 'n';
    assert (y + ".json")[|y + ".json"| - 1] == 'n';
    CrtEndsInT(x + ".key");
    CrtEndsInT(x + ".json");
  }

  lemma CrtEndsInT(a: string)
    ensures IsCrt(a) ==> a[|a| - 1] == 't'
  {
    if IsCrt(a) {
      assert a[|a| - 1] == a[|a| - 4..][3];
    }
  }

  lemma RelatedDiffer(c: string, live: string, a: string)
    requires IsCrt(c) && IsCrt(live) && c != live && a in Related(live)
    ensures a !in Related(c)
  {
    ExtensionsDiffer(Base(c), Base(live));
    ExtensionsDiffer(Base(live), Base(c));
    if Base(c) + ".key" == Base(live) + ".key" {
      SameBase(c, live, ".key");
    }
    if Base(c) + ".json" == Base(live) + ".json" {
      SameBase(c, live, ".json");
    }
  }

  /** A certificate that is not overdue keeps its file, its key and its metadata. */
  lemma LiveIsSpared(site: Site, live: string, clock: SiteClock, grace: int)
    requires live in site && IsCrt(live) && !Overdue(site[live], clock(live), grace)
    ensures Related(live) !! Doomed(site, site.Keys, clock, grace)
    ensures forall a :: a in Related(live) && a in site ==>
              a in CleanedSite(site, clock, grace) && CleanedSite(site, clock, grace)[a] == site[a]
  {
    forall a | a in Related(live) ensures a !in Doomed(site, site.Keys, clock, grace) {
      forall c | c in site && IsCrt(c) && Overdue(site[c], clock(c), grace) ensures a !in Related(c) {
        RelatedDiffer(c, live, a);
      }
    }
  }

  /** What goes, in terms of the dates: a certificate file that is looked at more than a second and the
      grace period after its certificate's end goes, with its key and metadata; one looked at before that
      end and the grace period stays, and so do its key and metadata. */
  lemma OnlyLongExpiredGo(site: Site, c: string, clock: SiteClock, grace: int)
    requires c in site && |c| >= 4 && c[|c| - 4..] == ".crt" && site[c].Certificate?
    ensures var (base, end, left) := (c[..|c| - 4], site[c].notAfter, CleanedSite(site, clock, grace));
            && (clock(c) >= end + 1_000_000_000 + grace ==> c !in left && base + ".key" !in left && base + ".json" !in left)
            && (clock(c) <= end + grace ==>
                  forall a :: a in site && (a == c || a == base + ".key" || a == base + ".json") ==> a in left && left[a] == site[a])
  {
    Renewal.ExpiryIsEndOfSecond(site[c].notAfter);
    if clock(c) <= site[c].notAfter + grace {
      LiveIsSpared(site, c, clock, grace);
    } else if clock(c) >= site[c].notAfter + 1_000_000_000 + grace {
      assert IsCrt(c) && Overdue(site[c], clock(c), grace);
      forall a | a in Related(c) ensures a in Doomed(site, site.Keys, clock, grace) {
        assert c in site.Keys;
      }
    }
  }

  /** Nothing is added, and no file goes but certificate files, keys and metadata of certificate files. */
  lemma NothingElseGoes(site: Site, a: string, clock: SiteClock, grace: int)
    ensures a in CleanedSite(site, clock, grace) ==> a in site && CleanedSite(site, clock, grace)[a] == site[a]
    ensures a in site && a !in CleanedSite(site, clock, grace) ==>
              exists c :: c in site && |c| >= 4 && c[|c| - 4..] == ".crt" && site[c].Certificate?
                          && clock(c) > site[c].notAfter + grace
                          && (a == c || a == c[..|c| - 4] + ".key" || a == c[..|c| - 4] + ".json")
  {
    if a in site && a !in CleanedSite(site, clock, grace) {
      var c :| c in site && IsCrt(c) && Overdue(site[c], clock(c), grace) && a in Related(c);
      Renewal.ExpiryIsEndOfSecond(site[c].notAfter);
    }
  }

  /** Sites go exactly when nothing is left in them; issuers stay. */
  lemma EmptySitesGo(t: Tree, i: string, s: string, clock: TreeClock, grace: int)
    requires i in t && s in t[i]
    ensures var left := CleanedSite(t[i][s], clock(i)(s), grace);
            && i in CleanedTree(t, clock, grace)
            && (s in CleanedTree(t, clock, grace)[i] <==> left != map[])
            && (left != map[] ==> CleanedTree(t, clock, grace)[i][s] == left)
  {}

  /** Whenever within a pass each certificate is looked at: what was overdue at its start goes, and what
      is not overdue at its end stays. */
  lemma DoomedWithinPass(site: Site, clock: SiteClock, start: int, end: int, grace: int)
    requires forall c :: c in site ==> start <= clock(c) <= end
    ensures Doomed(site, site.Keys, _ => start, grace) <= Doomed(site, site.Keys, clock, grace)
            <= Doomed(site, site.Keys, _ => end, grace)
  {
    forall a | a in Doomed(site, site.Keys, _ => start, grace) ensures a in Doomed(site, site.Keys, clock, grace) {
      var c :| c in site && IsCrt(c) && Overdue(site[c], start, grace) && a in Related(c);
      assert Overdue(site[c], clock(c), grace);
    }
    forall a | a in Doomed(site, site.Keys, clock, grace) ensures a in Doomed(site, site.Keys, _ => end, grace) {
      var c :| c in site && IsCrt(c) && Overdue(site[c], clock(c), grace) && a in Related(c);
      assert Overdue(site[c], end, grace);
    }
  }

  /** A certificate file is doomed by itself only. */
  lemma CrtDoomedByItself(site: Site, done: set<string>, c: string, clock: SiteClock, grace: int)
    requires c in site && c !in done && IsCrt(c)
    ensures c !in Doomed(site, done, clock, grace)
  {
    forall d | d in done && IsCrt(d) ensures c !in Related(d) {
      RelatedDiffer(d, c, c);
    }
  }

  lemma DoomedGrows(site: Site, done: set<string>, c: string, clock: SiteClock, grace: int)
    requires c in site
    ensures site - Doomed(site, done + {c}, clock, grace) ==
            (site - Doomed(site, done, clock, grace)) - if IsCrt(c) && Overdue(site[c], clock(c), grace) then Related(c) else {}
  {
    var more := if IsCrt(c) && Overdue(site[c], clock(c), grace) then Related(c) else {};
    assert Doomed(site, done + {c}, clock, grace) == Doomed(site, done, clock, grace) + more;
  }

  // ---------------------------------------------------------------- the nested loops

  ghost predicate OnlyIssuer(t: Tree, t': Tree, i: string) {
    i in t && t'.Keys == t.Keys && forall j :: j in t && j != i ==> t'[j] == t[j]
  }

  ghost predicate OnlySite(f: Folder, f': Folder, s: string) {
    s in f && f'.Keys == f.Keys && forall u :: u in f && u != s ==> f'[u] == f[u]
  }

  /** Whether or not cleaning went through: only doomed assets, and only emptied sites, are gone. */
  ghost predicate SiteSpared(site: Site, site': Site, clock: SiteClock, grace: int) {
    forall a :: a in site && a !in Doomed(site, site.Keys, clock, grace) ==> a in site' && site'[a] == site[a]
  }

  ghost predicate FolderSpared(f: Folder, f': Folder, clock: FolderClock, grace: int) {
    forall s :: s in f ==> if s in f' then SiteSpared(f[s], f'[s], clock(s), grace) else CleanedSite(f[s], clock(s), grace) == map[]
  }

  lemma PartlyCleanedSpares(f: Folder, f': Folder, todo: set<string>, clock: FolderClock, grace: int)
    requires PartlyCleaned(f, f', todo, clock, grace)
    ensures FolderSpared(f, f', clock, grace)
  {}

  /** All sites of `f` outside `todo` are cleaned in `f'`, the others untouched. */
  ghost predicate PartlyCleaned(f: Folder, f': Folder, todo: set<string>, clock: FolderClock, grace: int) {
    && (forall s :: s in f' <==> s in f && (s in todo || CleanedSite(f[s], clock(s), grace) != map[]))
    && (forall s :: s in f' ==> f'[s] == if s in todo then f[s] else CleanedSite(f[s], clock(s), grace))
  }

  lemma AllCleaned(f: Folder, f': Folder, todo: set<string>, clock: FolderClock, grace: int)
    requires PartlyCleaned(f, f', todo, clock, grace) && todo == {}
    ensures f' == CleanedFolder(f, clock, grace)
  {}

  lemma OneMoreCleaned(f: Folder, before: Folder, after: Folder, todo: set<string>, s: string, clock: FolderClock, grace: int)
    requires PartlyCleaned(f, before, todo, clock, grace) && s in f && s in todo
    requires OnlySite(before, after, s) && after[s] == CleanedSite(f[s], clock(s), grace)
    ensures PartlyCleaned(f, if after[s] == map[] then after - {s} else after, todo - {s}, clock, grace)
  {}

  class Storage {
    var tree: Tree

    constructor (tree: Tree)
      ensures this.tree == tree
    {
      this.tree := tree;
    }

    method DeleteRelated(i: string, s: string, crt: string)
      requires i in tree && s in tree[i] && IsCrt(crt)
      modifies this
      ensures OnlyIssuer(old(tree), tree, i) && OnlySite(old(tree)[i], tree[i], s)
      ensures tree[i][s] == old(tree[i][s]) - Related(crt)
    {
      var base := Base(crt);
      tree := tree[i := tree[i][s := tree[i][s] - {crt, base + ".key", base + ".json"}]];
    }

    /** One asset of a site that was `site` before the assets in `done` were dealt with. */
    method CleanAsset(i: string, s: string, asset: string, clock: SiteClock, grace: int, ghost site: Site, ghost done: set<string>) returns (err: bool)
      requires i in tree && s in tree[i] && asset in site && asset !in done
      requires tree[i][s] == site - Doomed(site, done, clock, grace)
      modifies this
      ensures OnlyIssuer(old(tree), tree, i) && OnlySite(old(tree)[i], tree[i], s)
      ensures err <==> IsCrt(asset) && site[asset].Other?
      ensures tree[i][s] == site - Doomed(site, done + {asset}, clock, grace)
    {
      DoomedGrows(site, done, asset, clock, grace);
      if !IsCrt(asset) {
        return false;
      }
      CrtDoomedByItself(site, done, asset, clock, grace);
      var file := tree[i][s][asset];
      if file.Other? {
        return true;
      }
      if clock(asset) - Renewal.ExpiresAt(file.notAfter) >= grace {
        DeleteRelated(i, s, asset);
      }
      return false;
    }

    /** One site: afterwards exactly the doomed assets are gone, unless some certificate file is malformed;
        even then nothing else is. */
    method CleanAssets(i: string, s: string, clock: SiteClock, grace: int) returns (err: bool)
      requires i in tree && s in tree[i]
      modifies this
      ensures OnlyIssuer(old(tree), tree, i) && OnlySite(old(tree)[i], tree[i], s)
      ensures err <==> Malformed(old(tree[i][s]))
      ensures !err ==> tree[i][s] == CleanedSite(old(tree[i][s]), clock, grace)
      ensures SiteSpared(old(tree[i][s]), tree[i][s], clock, grace)
    {
      ghost var site := tree[i][s];
      var todo := tree[i][s].Keys;
      assert site == site - Doomed(site, site.Keys - todo, clock, grace);
      while todo != {}
        invariant OnlyIssuer(old(tree), tree, i) && OnlySite(old(tree)[i], tree[i], s)
        invariant todo <= site.Keys
        invariant tree[i][s] == site - Doomed(site, site.Keys - todo, clock, grace)
        invariant forall c :: c in site && c !in todo && IsCrt(c) ==> !site[c].Other?
        decreases |todo|
      {
        var asset :| asset in todo;
        ghost var done := site.Keys - todo;
        err := CleanAsset(i, s, asset, clock, grace, site, done);
        if err {
          return;
        }
        todo := todo - {asset};
        assert site.Keys - todo == done + {asset};
      }
      assert site.Keys - todo == site.Keys;
      return false;
    }

    /** One site of an issuer whose sites were `folder`, with those in `todo` still to be cleaned. */
    method CleanSite(i: string, s: string, clock: FolderClock, grace: int, ghost folder: Folder, ghost todo: set<string>) returns (err: bool)
      requires i in tree && s in todo && s in folder && PartlyCleaned(folder, tree[i], todo, clock, grace)
      modifies this
      ensures OnlyIssuer(old(tree), tree, i)
      ensures err <==> Malformed(folder[s])
      ensures !err ==> PartlyCleaned(folder, tree[i], todo - {s}, clock, grace)
      ensures FolderSpared(folder, tree[i], clock, grace)
    {
      ghost var before := tree[i];
      PartlyCleanedSpares(folder, before, todo, clock, grace);
      err := CleanAssets(i, s, clock(s), grace);
      if err {
        return;
      }
      OneMoreCleaned(folder, before, tree[i], todo, s, clock, grace);
      if tree[i][s] == map[] {
        tree := tree[i := tree[i] - {s}];
      }
      PartlyCleanedSpares(folder, tree[i], todo - {s}, clock, grace);
    }

    method CleanIssuer(i: string, clock: FolderClock, grace: int) returns (err: bool)
      requires i in tree
      modifies this
      ensures OnlyIssuer(old(tree), tree, i)
      ensures err <==> HasMalformed(old(tree[i]))
      ensures !err ==> tree[i] == CleanedFolder(old(tree[i]), clock, grace)
      ensures FolderSpared(old(tree[i]), tree[i], clock, grace)
    {
      ghost var folder := tree[i];
      var todo := tree[i].Keys;
      while todo != {}
        invariant OnlyIssuer(old(tree), tree, i) && todo <= folder.Keys
        invariant PartlyCleaned(folder, tree[i], todo, clock, grace)
        invariant forall s :: s in folder && s !in todo ==> !Malformed(folder[s])
        decreases |todo|
      {
        var s :| s in todo;
        err := CleanSite(i, s, clock, grace, folder, todo);
        if err {
          return;
        }
        todo := todo - {s};
      }
      AllCleaned(folder, tree[i], todo, clock, grace);
      PartlyCleanedSpares(folder, tree[i], todo, clock, grace);
      return false;
    }

    /** Without errors, exactly the assets of certificates expired for at least the grace period are
        removed, and the sites then found empty; a malformed certificate file stops the cleaning, and
        even then nothing else was removed. */
    method DeleteExpiredCerts(clock: TreeClock, grace: int) returns (err: bool)
      modifies this
      ensures err <==> exists i :: i in old(tree) && HasMalformed(old(tree)[i])
      ensures !err ==> tree == CleanedTree(old(tree), clock, grace)
      ensures AllSpared(old(tree), tree, clock, grace)
    {
      var todo := tree.Keys;
      while todo != {}
        invariant todo <= tree.Keys && AllSpared(old(tree), tree, clock, grace)
        invariant PassedOver(old(tree), tree, todo, clock, grace)
        decreases |todo|
      {
        var i :| i in todo;
        ghost var before := tree;
        err := CleanIssuer(i, clock(i), grace);
        StillSpared(old(tree), before, tree, i, clock, grace);
        if err {
          return;
        }
        OneMorePassed(old(tree), before, tree, todo, i, clock, grace);
        todo := todo - {i};
      }
      AllPassed(old(tree), tree, clock, grace);
      return false;
    }
  }

  ghost predicate AllSpared(t: Tree, t': Tree, clock: TreeClock, grace: int) {
    t'.Keys == t.Keys && forall i :: i in t' ==> FolderSpared(t[i], t'[i], clock(i), grace)
  }

  /** All issuers of `t` outside `todo` are cleaned in `t'`, the others untouched. */
  ghost predicate PassedOver(t: Tree, t': Tree, todo: set<string>, clock: TreeClock, grace: int)
    requires t'.Keys == t.Keys
  {
    forall i :: i in t ==> if i in todo then t'[i] == t[i] else DoneWith(t[i], t'[i], clock(i), grace)
  }

  lemma AllPassed(t: Tree, t': Tree, clock: TreeClock, grace: int)
    requires t'.Keys == t.Keys && PassedOver(t, t', {}, clock, grace)
    ensures t' == CleanedTree(t, clock, grace) && forall i :: i in t ==> !HasMalformed(t[i])
  {
    forall i | i in t ensures t'[i] == CleanedFolder(t[i], clock(i), grace) && !HasMalformed(t[i]) {
      assert DoneWith(t[i], t'[i], clock(i), grace);
    }
  }

  lemma OneMorePassed(t: Tree, before: Tree, after: Tree, todo: set<string>, i: string, clock: TreeClock, grace: int)
    requires t.Keys == before.Keys && PassedOver(t, before, todo, clock, grace)
    requires OnlyIssuer(before, after, i) && DoneWith(t[i], after[i], clock(i), grace)
    ensures PassedOver(t, after, todo - {i}, clock, grace)
  {}

  ghost predicate DoneWith(f: Folder, f': Folder, clock: FolderClock, grace: int) {
    f' == CleanedFolder(f, clock, grace) && !HasMalformed(f)
  }

  lemma StillSpared(t: Tree, before: Tree, after: Tree, i: string, clock: TreeClock, grace: int)
    requires AllSpared(t, before, clock, grace) && OnlyIssuer(before, after, i) && before[i] == t[i]
    requires FolderSpared(before[i], after[i], clock(i), grace)
    ensures AllSpared(t, after, clock, grace)
  {}

  // ---------------------------------------------------------------- spacing of cleanings

  datatype Phase = Idle | Locked | Working(start: int) | Done

  datatype Cleaned = Cleaned(start: int, recorded: int)

  /** `last` is the stored time of the last cleaning; `log` lists the cleanings that were recorded. */
  datatype Schedule = Schedule(now: int, holder: Option<nat>, last: Option<int>, procs: map<nat, Phase>, log: seq<Cleaned>)

  datatype Action = Tick(now: int) | Acquire(p: nat) | Look(p: nat) | Record(p: nat) | Release(p: nat)

  predicate Enabled(s: Schedule, a: Action) {
    match a
    case Tick(t) => t >= s.now
    case Acquire(p) => p in s.procs && s.procs[p].Idle? && s.holder.None?
    case Look(p) => p in s.procs && s.procs[p].Locked?
    case Record(p) => p in s.procs && s.procs[p].Working?
    case Release(p) => p in s.procs && s.procs[p].Done?
  }

  /** All instances use the same interval; with one, a cleaning is skipped if the last is more recent. */
  function Apply(interval: int, s: Schedule, a: Action): Schedule
    requires Enabled(s, a)
  {
    match a
    case Tick(t) => s.(now := t)
    case Acquire(p) => s.(holder := Some(p), procs := s.procs[p := Locked])
    case Look(p) =>
      var tooRecent := interval > 0 && s.last.Some? && s.now - s.last.value < interval;
      s.(procs := s.procs[p := if tooRecent then Done else Working(s.now)])
    case Record(p) =>
      s.(last := Some(s.now), log := s.log + [Cleaned(s.procs[p].start, s.now)], procs := s.procs[p := Done])
    case Release(p) => s.(holder := None, procs := s.procs[p := Idle])
  }

  ghost predicate SpacedFrom(interval: int, last: Option<int>, start: int) {
    interval > 0 && last.Some? ==> start - last.value >= interval
  }

  /** Instance `p` is cleaning. */
  predicate Cleans(s: Schedule, p: nat) {
    p in s.procs && s.procs[p].Working?
  }

  /** No cleaning starts within the interval of the previous one's recorded time. */
  ghost predicate Apart(interval: int, log: seq<Cleaned>) {
    interval > 0 ==> forall k :: 0 < k < |log| ==> log[k].start - log[k - 1].recorded >= interval
  }

  ghost predicate Inv(interval: int, s: Schedule) {
    && (forall p :: p in s.procs && !s.procs[p].Idle? ==> s.holder == Some(p))
    && (forall p :: p in s.procs && s.procs[p].Working? ==> SpacedFrom(interval, s.last, s.procs[p].start))
    && (s.log != [] ==> s.last == Some(s.log[|s.log| - 1].recorded))
    && Apart(interval, s.log)
  }

  ghost predicate Initial(s: Schedule) {
    s.holder.None? && s.log == [] && forall p :: p in s.procs ==> s.procs[p].Idle?
  }

  ghost predicate Execution(interval: int, tr: seq<Schedule>, acts: seq<Action>) {
    && |tr| == |acts| + 1 && Initial(tr[0])
    && forall i :: 0 <= i < |acts| ==> Enabled(tr[i], acts[i]) && tr[i + 1] == Apply(interval, tr[i], acts[i])
  }

  lemma StepKeepsInv(interval: int, s: Schedule, a: Action)
    requires Inv(interval, s) && Enabled(s, a)
    ensures Inv(interval, Apply(interval, s, a))
  {}

  /** In every interleaving of any number of instances, recorded cleanings are an interval apart,
      and one under way started at least an interval after the last recorded time. */
  lemma {:induction false} CleaningsApart(interval: int, tr: seq<Schedule>, acts: seq<Action>, i: nat)
    requires Execution(interval, tr, acts) && i < |tr|
    ensures Inv(interval, tr[i]) && Apart(interval, tr[i].log)
    ensures forall p: nat :: Cleans(tr[i], p) ==> tr[i].holder == Some(p) && SpacedFrom(interval, tr[i].last, tr[i].procs[p].start)
  {
    if i > 0 {
      CleaningsApart(interval, tr, acts, i - 1);
      StepKeepsInv(interval, tr[i - 1], acts[i - 1]);
    }
  }

  /** A cleaning is skipped exactly when there is an interval and the last one is more recent; one that is
      not skipped can be recorded, with the present time, and its lock released. */
  lemma CleaningHappens(interval: int, s: Schedule, p: nat)
    requires p in s.procs && s.procs[p].Locked?
    ensures Enabled(s, Look(p))
    ensures var looked := Apply(interval, s, Look(p));
            && looked == s.(procs := s.procs[p := looked.procs[p]])
            && looked.procs[p] == (if interval > 0 && s.last.Some? && s.now < s.last.value + interval then Done else Working(s.now))
            && (looked.procs[p].Working? ==>
                  && Enabled(looked, Record(p))
                  && Apply(interval, looked, Record(p)) == s.(last := Some(s.now), log := s.log + [Cleaned(s.now, s.now)], procs := s.procs[p := Done]))
            && (looked.procs[p].Done? ==>
                  Enabled(looked, Release(p)) && Apply(interval, looked, Release(p)) == s.(holder := None, procs := s.procs[p := Idle]))
  {}

  /** An idle instance can take a lock that is free. */
  lemma FreeLockCanBeTaken(interval: int, s: Schedule, p: nat)
    requires p in s.procs && s.procs[p].Idle? && s.holder.None?
    ensures Enabled(s, Acquire(p)) && Apply(interval, s, Acquire(p)) == s.(holder := Some(p), procs := s.procs[p := Locked])
  {}
}
