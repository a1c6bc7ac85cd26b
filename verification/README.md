# A verified model of CertMagic's coordination logic

CertMagic obtains, renews, stores and serves TLS certificates for a fleet of instances. What is hard in
it is a set of small state machines and the agreements between them: a lock protocol over files, issuance
that must happen once in a cluster, a cache with a name index, a sliding-window limiter over a ring, a pool
of workers, wait channels, atomic files, storage keys, renewal timing and cleaning. This project models
those in Dafny and proves what each of them keeps over all inputs, all runs and all interleavings.

`dafny verify dfyconfig.toml` checks the whole project.

## How it is organised

| file | models |
|---|---|
| `RateLimiter.dfy` | the ring-buffer rate limiter and its reconfiguration |
| `Names.dfy` | labels, split and join, wildcard matching, lookup candidates |
| `CertCache.dfy` | the certificate cache, its name index, lookups |
| `Handshake.dfy` | choosing a cached certificate for a handshake |
| `FileLock.dfy` | the lock-file protocol with its keepers |
| `Issuance.dfy` | obtaining and renewing across a cluster, over mutexes |
| `Cluster.dfy` | the same over a lock file itself |
| `LockNames.dfy` | which lock file a call takes, and issuing for names that share their keys |
| `JobPool.dfy`, `Retry.dfy` | the job manager and the retry loop |
| `SingleFlight.dfy` | wait channels of handshakes |
| `AtomicFile.dfy` | temporary file, sync, rename; `Store` and readers |
| `StorageKeys.dfy`, `Storage.dfy` | key building, grouped stores, certificate resources |
| `Renewal.dfy`, `Cleaning.dfy` | when renewal is due, the scan, storage cleaning |
| `CleaningLock.dfy` | spacing of cleanings over the lock file itself |
| `Wrappers.dfy` | optional values |

State that the program changes in place is a class whose methods are proved against functions on values;
what holds over whole runs is proved about those functions. Concurrent code is a state machine whose
actions are the program's atomic steps (one critical section of a mutex, one file-system call); runs are
sequences of actions in any order. Time is an integer (nanoseconds), certificates, PEM, JSON and issuers
are abstract values, and random draws, clocks and failures of the environment are parameters.

## Where the code and its comments differ

The model follows the code; in each of these cases it states what the code does, and exactly when the
comment is right.

- "Cursor always points to the oldest timestamp" and "the oldest events will be forgotten" hold only until a
  raise of the limit: it puts the empty slots behind the newest timestamp (`RaiseThenReduceForgets`).
  `SafeIsExact` says exactly which states can go on within the window for ever, and
  `SlidingWindowByCount` gives a condition that can be counted: reduce no sooner than n permits after a raise
  from n.
- `Safe` is called idempotent; it is exactly when no discarded characters stand between two dots
  (`SafeIdempotentIff`, counterexample `SafeNotIdempotent`).
- Dropping two adjacent dots is said to prevent directory traversal, but it runs before the filter: the name
  `/././`, which qualifies for a certificate, sanitises to two dots, and the cleaning of paths then takes the
  issuer's folder away, so that all ordinary issuers share its keys (`KeysCollide`, `IssuersCollide`).
  `SiteKeysDiffer` says exactly when keys are equal, `SiteKeyContained` exactly when a key stays in its folder,
  and `NoClimbing` gives a condition on the name.
- A lock is called specific to the operation and the name; its file is named by the sanitised key, in which
  blanks in front of the name count though they do not in its storage keys. `LockFilesDiffer` says exactly when
  two names share a lock; with equally many leading blanks they do exactly when they share their storage keys,
  with different numbers never both (`LocksFollowKeys`, witnesses in both directions `LocksAndKeysComeApart`).
  Hence names that share their keys are issued for once exactly when they have equally many leading blanks
  (`SharedKeysIssueOnceIff`), which all names that qualify for a certificate do (`QualifyingIssueOnce`).
- `storeTx` is said to store "all or none"; on failure it restores the data exactly when the keys were absent
  before (`Storage.Store.StoreTx`; `StoreTxLosesOldValue` gives a group that loses a value).
- A window without a selected time is said to be given a random one; the cutoff is computed from the stored
  selected time, so such a certificate is due at once (`UnselectedWindowIsDueAtOnce`).
- The cache lookup stars empty labels and `MatchWildcard` skips them; they agree exactly on names without
  empty labels (`EmptyLabelsDiffer`).
- Removing an unknown hash removes the key "" (`RemoveUnknownHash`); a write-back without a presence check is
  harmless exactly when the indexed names are those written (`UnguardedWrite`; `UnguardedWriteBreaks` gives a
  run that it breaks).
- Lock exclusion needs two assumptions on timing, and each is needed (`StaleLockBreaksExclusion`,
  `EmptyLockBreaksExclusion`).

## Assumptions

- Rate limiter: the due check and the record are one step, the clock does not run backwards, and the window
  is fixed during a run.
- Lock files: reading a lock file and testing it for staleness is one step, writing a new lock file succeeds,
  ten seconds never pass without a write to a file that is held, and no call of `Lock` reads the file empty eight
  times; both are stated by the writes and reads of the run. Nothing is claimed about recovery after a crash.
- Issuance: saves succeed, nothing is deleted, and all instances have the same issuers; these may share their
  keys for a name. Over a mutex nothing else is assumed, over lock files their assumptions are. Only the
  coalescing of renewals also assumes that issued certificates are not themselves due and are valid from later
  than what is stored under other keys.
- Cache: equal chain hashes imply equal names, and hashes are not empty.
- Job pool: jobs end and do not panic. Cleaning: deletes and the write of the last-clean time succeed, nothing
  is stored meanwhile, and all instances use one interval.

## Model

| member | source | states |
|---|---|---|
| `RateLimiter.RingBufferRateLimiter.constructor` | ratelimiter.go:31-48 | a new limiter has `maxEvents` empty slots; a limit of 0 needs a window of 0 |
| `RateLimiter.RingBufferRateLimiter.Advance` | ratelimiter.go:239-244 | the cursor moves one slot on and wraps around |
| `RateLimiter.RingBufferRateLimiter.Permit` | ratelimiter.go:95-106 | a permit is given exactly when the slot at the cursor is due, and shifts the view by one with the new time last |
| `RateLimiter.RingBufferRateLimiter.SetMaxEvents` | ratelimiter.go:149-190 | the loops compute `Resized`: a reduction drops the slots nearest the cursor, a raise appends empty ones; the panic leaves everything unchanged |
| `RateLimiter.RingBufferRateLimiter.SetWindow` | ratelimiter.go:203-210 | the window changes and the ring does not; panics exactly for a non-zero window with limit 0 |
| `RateLimiter.SlidingWindow` | ratelimiter.go:69-109 | in every run of permits, raises and reductions of an ordered ring, every permit comes at least `window` after the permit `limit` places before it |
| `RateLimiter.PermitKeepsSafe` | ratelimiter.go:215-234 | a permit keeps the invariant: each past event is settled, or guarded by a slot that falls due soon enough |
| `RateLimiter.ResizeKeepsSafe` | ratelimiter.go:158-189 | any raise, and a reduction of a ring in time order, keeps the invariant |
| `RateLimiter.SafeIsExact` | ratelimiter.go:69-109 | the invariant is exact: a state can be continued for ever within the window if and only if it holds |
| `RateLimiter.UncoveredBreaks` | ratelimiter.go:163-190 | from a state with an uncovered event, a run is constructed that breaks the window |
| `RateLimiter.OrderRestored` | ratelimiter.go:172-189 | n permits after the last raise from n the ring is in time order again, in every run whose reductions keep to that count |
| `RateLimiter.SlidingWindowByCount` | ratelimiter.go:142-190 | the window holds in every run in which each reduction comes at least n permits after the last raise from n |
| `RateLimiter.RaiseThenReduceForgets` | ratelimiter.go:142-148 | a raise followed at once by a reduction forgets the newest events: a concrete run of a new limiter breaks the window |
| `Names.SplitJoin` | certificates.go:633-639 | splitting a join of labels without separators gives the labels back |
| `Names.JoinSplit` | certificates.go:633-639 | joining the labels of a name gives the name back |
| `Names.MatchStarred` | certificates.go:633-644 | the loop finds a match exactly if a non-empty leading run of labels is starred (empty ones skipped) and the rest equal |
| `Names.MatchWildcard` | certificates.go:625-645 | matching equals the label-wise rule, case-insensitively; the early exit for wildcards without a star is sound |
| `Names.StarMatchesOneLabel` | certificates.go:617-645 | a wildcard with one star in front matches, besides itself, exactly the names with one more, non-empty label |
| `Names.LowerCases` | certificates.go:626 | the 26 capitals become their small letters, everything else stays |
| `Names.CandidatesAreMatches` | cache.go:385-392 | on a lower-case name without empty labels the lookup candidates are exactly the names that match it |
| `Names.CandidateLabels` | cache.go:385-392 | a candidate's labels are stars and then the name's own |
| `Names.EmptyLabelsDiffer` | certificates.go:635-637 | lookup candidates and matching rule agree on all names if and only if the name has no empty label |
| `CertCache.Cache.UnsyncedCacheCertificate` | cache.go:207-268 | new state of an insert: tag merge, eviction at capacity, or storing and indexing |
| `CertCache.InsertStores` | cache.go:234-268 | a new certificate is cached and put at the end of the list of each of its names; at capacity the victim goes and nothing else |
| `CertCache.InsertMerges` | cache.go:211-232 | a certificate that is cached already only gains tags, exactly those it is missing |
| `CertCache.CachedIsFound` | cache.go:262-267 | right after it is cached or put in another's place, a certificate is found by each of its names and the one replaced by none |
| `CertCache.Cache.MergeTags` | cache.go:214-221 | missing tags are appended to the cached certificate, in order, once |
| `CertCache.AddTagsFacts` | cache.go:214-221 | merging keeps the old tags in front, adds exactly the missing ones, each once |
| `CertCache.Cache.RemoveCertificate` | cache.go:286-304 | new state of a removal: all mentions under the given names go, empty lists with them |
| `CertCache.EvictedIsGone` | cache.go:286-304 | a removed certificate is found by no name and every other one as before |
| `CertCache.Cache.DropHash` | cache.go:289-295 | the in-place deletion loop removes every occurrence of the hash and nothing else |
| `CertCache.Cache.ReplaceCertificate` | cache.go:322-326 | new state: removal, then insert |
| `CertCache.Cache.RemoveAll` | cache.go:424-431 | new state of removing hashes one by one, with the zero certificate for unknown ones |
| `CertCache.Cache.UpdateStapleIn` | maintain.go:396-404 | the guarded write changes the staple of a cached certificate only |
| `CertCache.Cache.UpdateARIIn` | maintain.go:562-581 | the guarded write changes the renewal info of a cached certificate only |
| `CertCache.WritesChangeOneField` | maintain.go:507-525 | the guarded writes change one field of one cached certificate, nothing if it is not cached; the handshake's write puts its copy in place |
| `CertCache.Cache.GetAllMatchingCerts` | cache.go:334-346 | the result is, in index order, exactly the cached certificates that have the subject as a name |
| `CertCache.Cache.AllMatchingCertificates` | cache.go:381-395 | the result is exactly the cached certificates that have one of the lookup candidates as a name |
| `CertCache.LookupRefinesScan` | cache.go:378-395 | for lower-case names without empty labels, the lookup finds a certificate if and only if some name of it matches by the wildcard rule |
| `CertCache.Cache.RemoveManaged` | cache.go:406-420 | exactly the managed certificates for the given subjects and issuers are removed, and the index still agrees |
| `CertCache.EveryRunAgrees` | cache.go:201-330 | in every run of inserts, merges, evictions, removals, replacements and guarded writes, index and cache agree with multiplicity, and the capacity is respected |
| `CertCache.EveryRunFromEmpty` | cache.go:95-330 | a new cache stays in agreement and within its capacity in every run |
| `CertCache.StepKeepsInv` | cache.go:207-330 | each single operation keeps the agreement |
| `CertCache.StepKeepsCapacity` | cache.go:234-260 | no operation takes the cache past the larger of its size and its capacity; replacing a present certificate never grows it |
| `CertCache.RemoveKeepsAgreement` | cache.go:286-304 | a removal keeps the agreement if and only if the given copy names every name of the cached certificate |
| `CertCache.RemoveUnknownHash` | cache.go:424-431 | removing an unknown hash is harmless if and only if nothing with a name is cached under the empty hash |
| `CertCache.UnguardedWrite` | handshake.go:610-613 | writing a copy back without a presence check keeps the agreement if and only if its names are those indexed for its hash |
| `CertCache.UnguardedWriteBreaks` | handshake.go:610-613 | a run of a new cache after which the write breaks the agreement: cached, removed, written back |
| `CertCache.LookupIsScan` | cache.go:334-346 | the index lists a hash under a name if and only if the cached certificate has the name |
| `Handshake.DefaultCertificateSelector` | handshake.go:234-257 | the first supported in-date choice, else the last supported one, else the first; fast and slow path follow one rule |
| `Handshake.ChoiceIsUnique` | handshake.go:228-233 | that rule singles out one position |
| `Handshake.InDateIsPreferred` | handshake.go:244-254 | if some choice is supported and valid, the chosen one is too |
| `Handshake.SupportedIsPreferred` | handshake.go:239-256 | if none is valid but some are supported, the last of these is chosen |
| `Handshake.SelectCert` | handshake.go:186-226 | succeeds exactly if some cached certificate has the name, with the rule's choice among those listed |
| `Handshake.SelectByWildcards` | handshake.go:142-152 | fewer stars first: the result is for the smallest number of leading stars that leads to a certificate, and fails only if none does |
| `Handshake.GetCertificateFromCache` | handshake.go:114-177 | matched if and only if a cached certificate has the server name exactly or with leading wildcards; address, default and fallback names as in the code |
| `FileLock.MutualExclusion` | filestorage.go:174-263 | in every timely interleaving of lockers, keepers and unlockers at most one client holds the lock, its file has the lock's name, and no waiter removes a file |
| `FileLock.ClientStepKeepsInv` | filestorage.go:182-257 | each step of Lock and Unlock keeps: files and owners correspond, nobody is about to remove a file |
| `FileLock.KeeperStepKeepsInv` | filestorage.go:334-375 | so does each step of a keeper, also one left over from a former holder |
| `FileLock.RefinesMutex` | filestorage.go:288-300 | timely runs are runs of a mutex: taken only when free, released only by its holder |
| `FileLock.StaleExactly` | filestorage.go:277-286 | in every run, a waiter that reads timestamps takes the file for stale if and only if the last write to it is more than ten seconds ago; one that reads it empty, if and only if that is the eighth time in its call |
| `FileLock.TimelyMeans` | filestorage.go:200-217 | the assumptions on writes and reads of a run are equivalent to no held file being found stale and no count of empty reads being used up |
| `FileLock.KeeperRefreshes` | filestorage.go:334-375 | a keeper's steps rewrite the file with the present time, keep its creation time and change nothing else |
| `FileLock.KeeperEnds` | filestorage.go:334-354 | a keeper ends when the file is gone or empty |
| `FileLock.LockIsPassedOn` | filestorage.go:182-187 | a released lock can be taken by a waiter, with a new file, the present time in it, and a keeper |
| `FileLock.StaleLockBreaksExclusion` | filestorage.go:50-65 | without timely refreshing alone, a run with two holders exists |
| `FileLock.EmptyLockBreaksExclusion` | filestorage.go:200-217 | with a lock file seen empty eight times alone, a run with two holders exists |
| `Issuance.SingleIssuance` | config.go:508-695 | for any number of calls that take one lock, in any interleaving with renewals, critical sections never overlap and obtaining issues at most one certificate; none if one is stored |
| `Issuance.SameLockExcludes` | config.go:532-553 | critical sections of obtaining and renewing under the same lock never overlap, whatever other locks there are |
| `Issuance.TwoLocksIssueTwice` | config.go:517-553 | under two locks, two calls of obtaining for the same keys can both issue |
| `Issuance.UnforcedOnlyWhenDue` | config.go:807-827 | in every run, whenever an unforced renewal issues, the newest stored certificate is due |
| `Issuance.RenewalsCoalesce` | config.go:771-953 | racing unforced renewals of a due certificate issue at most once, and exactly once as soon as any succeeds, if what is issued is not due and newer than what is stored under other keys |
| `Issuance.OutcomesExplained` | config.go:807-953 | in every run, a call that fails had an issuer fail or, renewing, found nothing stored; one that succeeds without issuing found, obtaining, something stored, and renewing was not forced and found the newest stored certificate not due |
| `Issuance.WorkCanBeDone` | config.go:815-953 | from any start, an obtain that finds nothing, a renewal that finds the certificate due, and a forced one can issue any certificate, save it and finish |
| `Issuance.IncompleteIsObtained` | config.go:1218-1226 | what lacks its key, certificate or metadata does not count as stored |
| `Issuance.PrecheckSkips` | config.go:517-523 | obtaining ends without the lock if and only if the resources are there already; renewing never does |
| `Issuance.BrokenOffSaves` | crypto.go:152-168 | a save broken off after one or two stores leaves nothing that counts as stored |
| `Issuance.SaveCompletes` | config.go:1218-1226 | the three stores of a save make the resources complete only with the last |
| `LockNames.LockFileOf` | filestorage.go:269-271 | the lock file of any call for a name: the operation, an underscore for each leading blank, and the sanitised name |
| `LockNames.LockFilesDiffer` | config.go:1253-1255 | for all pairs of names, calls of any kind share their lock file if and only if leading blanks and sanitised names put together are equal |
| `LockNames.LocksFollowKeys` | storage.go:239-258 | with equally many leading blanks, names share the lock if and only if they share all storage keys; with different numbers they never share both |
| `LockNames.LocksAndKeysComeApart` | filestorage.go:269-271 | two names that share their keys and not the lock, and two that share the lock and not their keys |
| `LockNames.DomainsShareNothing` | storage.go:239-258 | different domain-like names share neither a storage key, under whatever issuers, nor their lock |
| `LockNames.SharedKeysIssueOnceIff` | config.go:508-695 | over any number of names that share their storage keys, obtaining issues at most one certificate in every run if and only if the names have equally many leading blanks |
| `LockNames.QualifyingIssueOnce` | certificates.go:521-535 | so it does over names that qualify for a certificate |
| `Cluster.WorkRuns` | storage.go:281-299 | timely runs of obtaining and renewing over lock files are runs over a mutex |
| `Cluster.LockIsTracked` | filestorage.go:174-263 | in them the lock is taken only when nobody holds it |
| `Cluster.ClusterIssuesOnce` | config.go:508-695 | over lock files refreshed in time: critical sections never overlap, obtaining issues at most one certificate and none if one is stored, an unforced renewal issues only while the newest stored certificate is due |
| `Cluster.ClusterRenewsOnce` | config.go:771-953 | over lock files refreshed in time: racing unforced renewals of a due certificate issue at most once, exactly once as soon as any succeeds |
| `Cluster.ClusterOutcomesExplained` | config.go:807-953 | every outcome over the lock file is explained as over a mutex |
| `Cluster.ClusterCanRenew` | config.go:771-953 | from any start a renewal that is forced or due can take the lock file, issue, save and give the lock back, in a timely run |
| `JobPool.JobManager.Submit` | async.go:34-52 | a duplicate name changes nothing; otherwise the job is queued and a worker starts below the limit |
| `JobPool.JobManager.Next` | async.go:63-72 | a worker takes the first job, or leaves when there is none |
| `JobPool.JobManager.Forget` | async.go:76-80 | the finished job's name is free again |
| `JobPool.EveryRunKeepsInv` | async.go:16-82 | in every run: workers within the limit; pool full or a free worker per queued job; a name is taken exactly while one job with it is present; jobs start once, in FIFO order |
| `JobPool.DuplicatesAreTurnedAway` | async.go:37-43 | in every run, a job is turned away if and only if it has a name and a job with that name is queued, running or finishing |
| `JobPool.StepKeepsInv` | async.go:34-82 | each step of submitter and worker keeps that |
| `JobPool.NeverStuck` | async.go:54-82 | while there is a worker some step is possible; without one, queue and names are empty |
| `JobPool.PoolDrains` | async.go:54-82 | without submissions every run is bounded by a decreasing measure, and where it cannot go on all accepted jobs were started and all workers are gone |
| `Retry.DoWithRetry` | async.go:84-135 | at most 142 calls, exactly 142 when all fail at once and timers are on time; waits on schedule, only retryable failures before the last call; result and time spent as the last call, the clock and the context determine them; nil only after success or once the 30 days have run out |
| `Retry.WaitedBeyond` | async.go:153-195 | the first 24 waits add up to 18 hours, every later one is 6 hours |
| `Retry.Exhausted` | async.go:193-195 | the 30 days are used up by the waits of the first 142 attempts and by no fewer |
| `Retry.TableIsSchedule` | async.go:165-191 | the table's entries, one by one |
| `SingleFlight.SingleFlightHolds` | handshake.go:297-331 | in every interleaving a name has an entry exactly while one call leads it; channels are closed at most once, and exactly once when no call leads; waiters wait on a closed or led channel |
| `SingleFlight.OneLeaderPerName` | handshake.go:499-545 | in every run, of all calls for a name at most one leads in loading, and at most one in obtaining and renewing together |
| `SingleFlight.FollowersJoin` | handshake.go:681-718 | a call that consults the table while another leads for its name waits on that leader's channel, or serves what it has exactly if it renews a valid certificate that is not revoked |
| `SingleFlight.FirstLeads` | handshake.go:318-323 | a call that consults it while nobody does becomes the leader, with a new open channel |
| `SingleFlight.LeadersUnblock` | handshake.go:538-545 | a leader at work can unblock, after which its channel is closed, its entry gone and every waiter can go on |
| `SingleFlight.ValidRenewalsGoToBackground` | handshake.go:786-795 | a leader hands over to the background exactly if it renews a valid certificate; all others work themselves |
| `SingleFlight.StepKeepsInv` | handshake.go:499-561 | each step of loading, obtaining and renewing calls keeps entries, leaders and channels in step |
| `SingleFlight.HandOverKeepsInv` | handshake.go:786-791 | handing a renewal to the background passes leadership on without losing or doubling it |
| `SingleFlight.UnblockKeepsInv` | handshake.go:725-730 | unblocking closes the leader's open channel and deletes its own entry |
| `AtomicFile.TempFile.constructor` | internal/atomicfile/file.go:76-86 | a new, empty temporary file under a name of its own |
| `AtomicFile.TempFile.Write` | internal/atomicfile/file.go:141-148 | appends what the system takes; on a closed file nothing |
| `AtomicFile.TempFile.Close` | internal/atomicfile/file.go:88-118 | the destination changes only if sync, close and rename succeed; the temporary name goes; no effect on a closed file |
| `AtomicFile.TempFile.Cancel` | internal/atomicfile/file.go:120-130 | removes the temporary name only; no effect on a closed file |
| `AtomicFile.Store` | filestorage.go:81-99 | the complete value becomes visible at the key, or nothing changes at any key |
| `AtomicFile.ReadsAreAtomic` | filestorage.go:80-111 | in every interleaving of writers and readers a key shows its initial or the last renamed complete value, and a full read returns what the key showed at one instant |
| `AtomicFile.OnlyRenameShows` | internal/atomicfile/file.go:102-117 | no step but a rename changes what any key shows, and a rename changes its own key only |
| `AtomicFile.StoresCanComplete` | filestorage.go:81-99 | from any state a store can be carried through, after which its key shows its value and no other key has changed |
| `AtomicFile.ReadsCanComplete` | filestorage.go:101-111 | a reader can open any key that shows something and read it to the end |
| `StorageKeys.SafeAlphabet` | storage.go:242-258 | every result consists of lower-case word characters and `@.-` |
| `StorageKeys.SafeKeepsDomains` | storage.go:256-257 | names of small letters, digits and `_@-.` without two adjacent dots are kept as they are |
| `StorageKeys.SafeReplacesOne` | storage.go:246-257 | what any single character between such names becomes: `_`, `_plus_`, `wildcard_`, `-`, itself, its small letter, or nothing |
| `StorageKeys.SafeDropsDots` | storage.go:252 | two adjacent dots between such names are dropped |
| `StorageKeys.SafeTrims` | storage.go:243-244 | white space at either end is trimmed |
| `StorageKeys.SafeIdempotentIff` | storage.go:239-258 | sanitising is idempotent, and free of adjacent dots, if and only if no discarded characters stand between two dots after replacement |
| `StorageKeys.SafeOfPlain` | storage.go:246-257 | on inputs made of kept or explicitly replaced characters it is idempotent and leaves no two adjacent dots |
| `StorageKeys.SafeNotIdempotent` | storage.go:239-241 | the input `./.` shows that it is not idempotent in general |
| `StorageKeys.PathJoinPushes` | storage.go:194 | joining a component to a clean path appends it, drops it if empty or one dot, and takes a part away for two dots; the result is clean |
| `StorageKeys.SiteKeyParts` | storage.go:193-224 | the parts of an asset's key: the folder that is left after cleaning, then the file name |
| `StorageKeys.SiteKeysDiffer` | storage.go:193-224 | two asset keys are equal if and only if the asset and the sanitised name are, and the sanitised issuers are equal, or both vanish in cleaning, or the name is two dots and both issuers are ordinary |
| `StorageKeys.SiteKeyContained` | storage.go:199-209 | a key is in its issuer's and site's own folder if and only if neither component is empty, one dot or two dots; and below its issuer's if and only if the issuer's is none of these and the site's not two dots |
| `StorageKeys.SiteKeySpelled` | storage.go:205-224 | the three keys of a domain-like issuer and name, spelled out |
| `StorageKeys.VanishingIssuersShare` | storage.go:193-195 | issuers that sanitise to nothing or one dot share their keys |
| `StorageKeys.NoClimbing` | storage.go:246-254 | a name without discarded characters between two dots never sanitises to two dots |
| `StorageKeys.KeysCollide` | storage.go:207-209 | the qualifying name `/././` has one key for all ordinary issuers, outside their folders |
| `StorageKeys.DomainsQualify` | certificates.go:521-535 | domain-like names without `@`, and wildcards made of them, qualify if and only if they do not begin or end with a dot; a star elsewhere disqualifies |
| `Storage.Store.StoreTx` | storage.go:167-178 | on success all pairs are stored; on failure the stored keys are gone, and the data is as before if and only if those keys were absent |
| `Storage.Store.DeleteAll` | storage.go:171-173 | the rollback loop deletes exactly the keys stored so far |
| `Storage.StoreTxLosesOldValue` | storage.go:167-178 | a group failing at its second store, whose first key was stored before, loses that key's value |
| `Storage.UndoRestores` | storage.go:166-178 | storing a group and deleting its keys restores the data if and only if the keys were absent |
| `Storage.LastValueWins` | storage.go:167-178 | a key stored more than once by a group has the last of its values |
| `Storage.Store.SaveCertResource` | crypto.go:146-171 | succeeds if and only if none of the three stores fails, and then the three assets are stored; a failure takes away at most the assets stored before it, and with absent keys changes nothing |
| `Storage.Store.LoadCertResource` | crypto.go:240-269 | the resource made of the three stored assets, or what is missing or malformed |
| `Storage.SaveLoad` | crypto.go:146-269 | a saved resource loads back unchanged |
| `Storage.SaveElsewhere` | crypto.go:152-168 | saving does not disturb what is stored for another issuer or name unless the two share their keys; if they do, what was saved is loaded for the other |
| `Storage.IssuersCollide` | crypto.go:152-168 | saving `/././` for one ordinary issuer replaces what any other has for it |
| `Storage.Store.LoadCertResourceAnyIssuer` | crypto.go:177-237 | a resource with the latest start of validity; not found if and only if no issuer has one; with several issuers, an error if and only if some issuer's cannot be decoded |
| `Renewal.DueAfterLastRest` | certificates.go:89-185 | a certificate is due exactly after one instant, the earliest of the cutoffs in force, whatever the random draw |
| `Renewal.DueMeans` | certificates.go:112-184 | what "due" means in terms of windows, intervals and the selected time |
| `Renewal.WindowIsShareOfLifetime` | certificates.go:213-225 | in the window if and only if less than the ratio of the lifetime remains; a ratio of zero stands for a third |
| `Renewal.ExpiryIsEndOfSecond` | certificates.go:240-245 | a certificate expires with the first whole second after its last |
| `Renewal.MonotoneInTime` | certificates.go:89-185 | once due, always due, independently of the draws |
| `Renewal.UnselectedWindowIsDueAtOnce` | certificates.go:121-147 | a window without a selected time makes a certificate due at once |
| `Renewal.DueAtFourScans` | certificates.go:213-244 | with scans at most an interval apart, a certificate cached five intervals before expiry is due at four consecutive scans before it expires |
| `Renewal.RenewalIsNeverMissed` | maintain.go:58-74 | a managed certificate that is not on-demand, cached five intervals before expiry, is put into the renewal or the reload queue by at least four consecutive scans before it expires |
| `Renewal.BuildQueues` | maintain.go:105-172 | exactly the maintained certificates that are due are queued, for reload if the stored copy is fresh and else for renewal, once |
| `Renewal.InsertCert` | maintain.go:962-969 | appends unless a certificate with the same hash is listed |
| `Cleaning.Storage.DeleteExpiredCerts` | maintain.go:773-857 | without errors exactly the assets of certificates expired for the grace period and the sites then empty are removed; it fails if and only if a certificate file is malformed, and even then spares everything else |
| `Cleaning.Storage.CleanAssets` | maintain.go:795-840 | one site: exactly the doomed assets go |
| `Cleaning.DoomedWithinPass` | maintain.go:819 | with the clock read for each certificate in turn, what was overdue at the start of the pass goes and what is not overdue at its end stays |
| `Cleaning.LiveIsSpared` | maintain.go:819-839 | a certificate that is not overdue keeps its file, key and metadata |
| `Cleaning.OnlyLongExpiredGo` | maintain.go:819-839 | looked at before its end and the grace period, a certificate keeps file, key and metadata; looked at a second after that, it loses them |
| `Cleaning.NothingElseGoes` | maintain.go:795-840 | nothing goes but the three assets of certificates past their end and the grace period, and nothing is added |
| `Cleaning.CleaningHappens` | maintain.go:668-690 | a cleaning is skipped if and only if there is an interval and the last one is more recent; otherwise it can be recorded |
| `Cleaning.CleaningsApart` | maintain.go:657-723 | in every interleaving, no cleaning starts within the interval of the previous one's recorded time, neither a recorded one nor one under way |
| `CleaningLock.CleaningsApart` | maintain.go:657-723 | the same over a lock file refreshed in time, where also one instance cleans at a time |
| `CleaningLock.CleaningCanHappen` | maintain.go:657-723 | once the interval has passed, an instance can take the lock file, clean, record it and give the lock back, in a timely run |

## Left out

- ACME, ZeroSSL and OCSP clients, DNS lookups and challenge solvers: network protocols; issuing is a step that succeeds or fails.
- HTTPS, listeners, HTTP handlers, accounts and prompts: server plumbing.
- x509, PEM, JSON, IDNA and hashing: values are abstract, names are ASCII.
- Floating-point rounding of the renewal ratio: the ratio is a real number, the truncation to a duration is modelled.
- The process-wide table of held locks, and clean-up of own locks at exit: releasing a lock drops its entry after the lock is free, so the table is not an exact record.
- Recovery of locks after a crash, and lock files whose first write fails: the code does not promise exclusion then.
- Freedom from self-waiting in nested handshake calls: a nested call can wait on its own leader's channel until the timer ends it; safety only is claimed.
- Panics of jobs and of the limiter's loop, logging, events and custom certificate selectors.
- Private key reuse, retries between issuers and the computation of a resource's names key.
- Lock and Unlock are modelled as steps of a state machine over one lock file, not as a polling method; so are the critical sections of obtaining and renewing.
- Cleaning of OCSP staples, and errors of listing or deleting in storage.
- Cleaning of paths that begin with a slash: no storage key does.
