/** When a certificate is due for renewal, and how the maintenance scan finds it in time.
    Times are nanoseconds since the zero time, so 0 is Go's zero time. */
module Renewal {

  const SECOND: int := 1_000_000_000

  /** `NotAfter` has a resolution of one second; the rest of that second is still valid. */
  function ExpiresAt(notAfter: nat): int {
    notAfter - notAfter % SECOND + SECOND
  }

  /** The first whole second after `notAfter`. */
  lemma ExpiryIsEndOfSecond(notAfter: nat)
    ensures notAfter < ExpiresAt(notAfter) <= notAfter + 1_000_000_000 && ExpiresAt(notAfter) % 1_000_000_000 == 0
  {}

  datatype Leaf = NoLeaf | Leaf(notBefore: nat, notAfter: nat)

  datatype RenewalInfo = RenewalInfo(selectedTime: nat, windowStart: nat, windowEnd: nat) {
    predicate HasWindow() {
      windowStart != 0 && windowEnd != 0
    }

    /** The size of the range from which a renewal time is drawn when none was selected. */
    function DrawRange(): int {
      windowEnd / SECOND - (windowStart / SECOND + 1)
    }

    /** Drawing from an empty range panics, so such a window must be long enough. */
    predicate Drawable() {
      selectedTime == 0 && HasWindow() ==> DrawRange() > 0
    }
  }

  datatype Options = Options(disableARI: bool, ratio: real, interval: nat)

  const DEFAULT_RATIO := 1.0 / 3.0

  /** Conversion to an integer duration truncates toward zero. */
  function Truncated(x: real): int {
    if x >= 0.0 then x.Floor else -(-x).Floor
  }

  function WindowStart(notBefore: int, notAfter: int, ratio: real): int {
    notAfter - Truncated((notAfter - notBefore) as real * (if ratio == 0.0 then DEFAULT_RATIO else ratio))
  }

  predicate CurrentlyInRenewalWindow(notBefore: int, notAfter: int, ratio: real, now: int) {
    notAfter != 0 && now > WindowStart(notBefore, notAfter, ratio)
  }

  /** In the window exactly when less than the ratio of the lifetime remains, rounded down to whole
      nanoseconds; a ratio of zero stands for a third. */
  lemma WindowIsShareOfLifetime(notBefore: int, notAfter: int, ratio: real, now: int)
    requires notBefore <= notAfter != 0 && ratio >= 0.0
    ensures CurrentlyInRenewalWindow(notBefore, notAfter, ratio, now) <==>
            (notAfter - now + 1) as real <= (notAfter - notBefore) as real * (if ratio == 0.0 then 1.0 / 3.0 else ratio)
  {
    var share := (notAfter - notBefore) as real * (if ratio == 0.0 then 1.0 / 3.0 else ratio);
    assert share >= 0.0;
    assert share.Floor as real <= share < share.Floor as real + 1.0;
    assert notAfter - now + 1 <= share.Floor <==> (notAfter - now + 1) as real <= share;
  }

  /** A draw is possible wherever the code makes one; it makes none for a missing leaf or without ARI. */
  predicate CanDraw(leaf: Leaf, ari: RenewalInfo, opts: Options) {
    leaf.Leaf? && !opts.disableARI ==> ari.Drawable()
  }

  /** The decision of one check; `draw` is the random number an unselected window calls for. */
  predicate CertNeedsRenewal(leaf: Leaf, ari: RenewalInfo, opts: Options, now: nat, draw: nat)
    requires CanDraw(leaf, ari, opts)
  {
    if leaf.NoLeaf? then false
    else
      var expiration := ExpiresAt(leaf.notAfter);
      var selectedTime :=
        if ari.selectedTime == 0 && ari.HasWindow() then (ari.windowStart / SECOND + 1 + draw) * SECOND
        else ari.selectedTime;
      if !opts.disableARI && selectedTime != 0 && now > ari.selectedTime - opts.interval then true
      else if !opts.disableARI && selectedTime != 0
              && CurrentlyInRenewalWindow(leaf.notBefore, expiration, 1.0 / 20.0, now) then true
      else if CurrentlyInRenewalWindow(leaf.notBefore, expiration, opts.ratio, now) then true
      else
        || CurrentlyInRenewalWindow(leaf.notBefore, expiration, 1.0 / 50.0, now)
        || expiration - now < opts.interval * 5
  }

  function Min(a: int, b: int): int { if a <= b then a else b }

  /** The last instant at which a certificate is not yet due: the earliest of the cutoffs in force. */
  function LastRest(leaf: Leaf, ari: RenewalInfo, opts: Options): int
    requires leaf.Leaf?
  {
    var e := ExpiresAt(leaf.notAfter);
    var ordinary :=
      Min(WindowStart(leaf.notBefore, e, opts.ratio), Min(WindowStart(leaf.notBefore, e, 1.0 / 50.0), e - 5 * opts.interval));
    if opts.disableARI || (ari.selectedTime == 0 && !ari.HasWindow()) then ordinary
    else Min(ordinary, Min(ari.selectedTime - opts.interval, WindowStart(leaf.notBefore, e, 1.0 / 20.0)))
  }

  /** A check says "due" exactly after one instant fixed by leaf, ARI and options: it never depends on
      the random draw and never goes back from due to not due. */
  lemma DueAfterLastRest(leaf: Leaf, ari: RenewalInfo, opts: Options, now: nat, draw: nat)
    requires CanDraw(leaf, ari, opts)
    ensures CertNeedsRenewal(leaf, ari, opts, now, draw) <==>
            leaf.Leaf? && now > LastRest(leaf, ari, opts)
  {
    if leaf.Leaf? {
      assert ExpiresAt(leaf.notAfter) != 0;
      assert (ari.windowStart / SECOND + 1 + draw) * SECOND != 0;
    }
  }

  lemma MonotoneInTime(leaf: Leaf, ari: RenewalInfo, opts: Options, t: nat, u: nat, d: nat, e: nat)
    requires CanDraw(leaf, ari, opts) && t <= u
    ensures CertNeedsRenewal(leaf, ari, opts, t, d) ==> CertNeedsRenewal(leaf, ari, opts, u, e)
  {
    DueAfterLastRest(leaf, ari, opts, t, d);
    DueAfterLastRest(leaf, ari, opts, u, e);
  }

  /** The cutoff is taken from the stored selected time, not from the drawn one: a window without a
      selected time makes a certificate due at once rather than at a random time within the window. */
  lemma UnselectedWindowIsDueAtOnce(leaf: Leaf, ari: RenewalInfo, opts: Options, now: nat, draw: nat)
    requires CanDraw(leaf, ari, opts) && leaf.Leaf? && !opts.disableARI
    requires ari.selectedTime == 0 && ari.HasWindow() && opts.interval > 0
    ensures CertNeedsRenewal(leaf, ari, opts, now, draw)
  {
    DueAfterLastRest(leaf, ari, opts, now, draw);
  }

  /** What "due" means: in the configured window, in the last fiftieth of the lifetime, or within five
      intervals of expiry; with a selected time or a window of ARI, also past the selected time less an
      interval, or in the last twentieth. */
  lemma DueMeans(leaf: Leaf, ari: RenewalInfo, opts: Options, now: nat, draw: nat)
    requires CanDraw(leaf, ari, opts) && leaf.Leaf?
    ensures var e := ExpiresAt(leaf.notAfter);
            CertNeedsRenewal(leaf, ari, opts, now, draw) <==>
              || CurrentlyInRenewalWindow(leaf.notBefore, e, opts.ratio, now)
              || CurrentlyInRenewalWindow(leaf.notBefore, e, 1.0 / 50.0, now)
              || e - now < 5 * opts.interval
              || (&& !opts.disableARI && (ari.selectedTime != 0 || (ari.windowStart != 0 && ari.windowEnd != 0))
                  && (now > ari.selectedTime - opts.interval || CurrentlyInRenewalWindow(leaf.notBefore, e, 1.0 / 20.0, now)))
  {
    assert (ari.windowStart / SECOND + 1 + draw) * SECOND != 0;
  }

  // ---------------------------------------------------------------- the scans

  /** Scans start within an interval of `cached`, are at most an interval apart and go on past `end`. */
  ghost predicate Scans(scans: seq<nat>, cached: nat, interval: nat, end: int) {
    && scans != [] && cached <= scans[0] <= cached + interval
    && (forall i :: 0 <= i < |scans| - 1 ==> scans[i] <= scans[i + 1] <= scans[i] + interval)
    && scans[|scans| - 1] >= end
  }

  lemma {:induction false} FirstScanPast(scans: seq<nat>, cached: nat, interval: nat, end: int, mark: int) returns (k: nat)
    requires Scans(scans, cached, interval, end) && cached <= mark < end
    ensures k < |scans| && mark < scans[k] <= mark + interval
    decreases |scans|
  {
    if scans[0] > mark {
      k := 0;
    } else {
      var rest := scans[1..];
      assert rest[|rest| - 1] == scans[|scans| - 1];
      k := FirstScanPast(rest, if scans[1] <= mark then scans[1] else scans[0], interval, end, mark);
      k := k + 1;
    }
  }

  /** A certificate cached at least five intervals before it expires is due at four consecutive scans or
      more before it expires. */
  lemma DueAtFourScans(leaf: Leaf, ari: RenewalInfo, opts: Options, scans: seq<nat>, cached: nat) returns (k: nat)
    requires leaf.Leaf? && CanDraw(leaf, ari, opts) && opts.interval > 0
    requires cached + 5 * opts.interval <= ExpiresAt(leaf.notAfter)
    requires Scans(scans, cached, opts.interval, ExpiresAt(leaf.notAfter))
    ensures k + 4 <= |scans|
    ensures forall i, draw: nat :: k <= i < k + 4 ==>
              scans[i] < ExpiresAt(leaf.notAfter) && CertNeedsRenewal(leaf, ari, opts, scans[i], draw)
  {
    var e := ExpiresAt(leaf.notAfter);
    k := FirstScanPast(scans, cached, opts.interval, e, e - 5 * opts.interval);
    assert k + 1 < |scans| && scans[k + 1] <= e - 3 * opts.interval;
    assert k + 2 < |scans| && scans[k + 2] <= e - 2 * opts.interval;
    assert k + 3 < |scans| && scans[k + 3] <= e - opts.interval;
    forall i, draw: nat | k <= i < k + 4
      ensures scans[i] < e && CertNeedsRenewal(leaf, ari, opts, scans[i], draw)
    {
      assert scans[i] >= scans[k];
      DueAfterLastRest(leaf, ari, opts, scans[i], draw);
    }
  }

  // ---------------------------------------------------------------- the queues of one scan

  datatype Stored = Unreadable | StoredDue | StoredFresh

  /** What one scan sees of a cached certificate: its configuration (if any) and its stored copy. */
  datatype Scanned = Scanned(hash: string, managed: bool, names: seq<string>, config: Config, leaf: Leaf,
                             ari: RenewalInfo, ariNeedsRefresh: bool, stored: Stored)
  datatype Config = NoConfig | Config(onDemand: bool, opts: Options)

  predicate Maintained(c: Scanned) {
    c.managed && c.names != [] && c.config.Config? && !c.config.onDemand
  }

  /** Drawing does not panic for any of the certificates a scan looks at. */
  predicate Scannable(certs: seq<Scanned>) {
    forall c :: c in certs && Maintained(c) ==> CanDraw(c.leaf, c.ari, c.config.opts)
  }

  predicate Reported(c: Scanned, now: nat)
    requires Maintained(c) ==> CanDraw(c.leaf, c.ari, c.config.opts)
  {
    Maintained(c) && CertNeedsRenewal(c.leaf, c.ari, c.config.opts, now, 0)
  }

  predicate ForRenewal(certs: seq<Scanned>, now: nat, c: Scanned)
    requires Scannable(certs)
  {
    c in certs && Reported(c, now) && c.stored != StoredFresh
  }

  predicate ForReload(certs: seq<Scanned>, now: nat, c: Scanned)
    requires Scannable(certs)
  {
    c in certs && Reported(c, now) && c.stored == StoredFresh
  }

  /** Appends unless a certificate with the same hash is listed. */
  method InsertCert(certs: seq<Scanned>, c: Scanned) returns (r: seq<Scanned>)
    ensures r == if exists i :: 0 <= i < |certs| && certs[i].hash == c.hash then certs else certs + [c]
  {
    var i := 0;
    while i < |certs|
      invariant 0 <= i <= |certs|
      invariant forall k :: 0 <= k < i ==> certs[k].hash != c.hash
    {
      if certs[i].hash == c.hash {
        return certs;
      }
      i := i + 1;
    }
    return certs + [c];
  }

  /** Every maintained certificate that is due is queued: for reload when the stored copy is fresh, for
      renewal otherwise, and then once only. Nothing else is queued for either. */
  method BuildQueues(certs: seq<Scanned>, now: nat)
    returns (renew: seq<Scanned>, reload: seq<Scanned>, delete: seq<Scanned>, ari: seq<Scanned>)
    requires forall i, j :: 0 <= i < j < |certs| ==> certs[i].hash != certs[j].hash
    requires Scannable(certs)
    ensures forall c :: c in renew <==> ForRenewal(certs, now, c)
    ensures forall i, j :: 0 <= i < j < |renew| ==> renew[i].hash != renew[j].hash
    ensures forall c :: c in reload <==> ForReload(certs, now, c)
    ensures forall c :: c in renew || c in reload || c in ari ==> c.managed && c.names != [] && c.config.Config? && !c.config.onDemand
    ensures forall c :: c in renew ==> c.stored != StoredFresh
    ensures forall c :: c in reload ==> c.stored == StoredFresh
    ensures forall c :: c in delete <==> c in certs && c.managed && c.names == []
    ensures forall c :: c in ari <==> c in certs && Maintained(c) && !c.config.opts.disableARI && c.ariNeedsRefresh
  {
    renew, reload, delete, ari := [], [], [], [];
    var i := 0;
    while i < |certs|
      invariant 0 <= i <= |certs|
      invariant forall c :: c in renew <==> c in certs[..i] && Reported(c, now) && c.stored != StoredFresh
      invariant forall k, l :: 0 <= k < l < |renew| ==> renew[k].hash != renew[l].hash
      invariant forall c :: c in reload <==> c in certs[..i] && Reported(c, now) && c.stored == StoredFresh
      invariant forall c :: c in delete <==> c in certs[..i] && c.managed && c.names == []
      invariant forall c :: c in ari <==> c in certs[..i] && Maintained(c) && !c.config.opts.disableARI && c.ariNeedsRefresh
    {
      var cert := certs[i];
      assert certs[..i + 1] == certs[..i] + [cert];
      i := i + 1;
      if !cert.managed {
        continue;
      }
      if cert.names == [] {
        delete := delete + [cert];
        continue;
      }
      if cert.config.NoConfig? || cert.config.onDemand {
        continue;
      }
      if !cert.config.opts.disableARI && cert.ariNeedsRefresh {
        ari := ari + [cert];
      }
      if CertNeedsRenewal(cert.leaf, cert.ari, cert.config.opts, now, 0) {
        if cert.stored == StoredFresh {
          reload := reload + [cert];
          continue;
        }
        assert forall k :: 0 <= k < |renew| ==> renew[k] in renew;
        renew := InsertCert(renew, cert);
      }
    }
    assert certs[..i] == certs;
  }

  // ---------------------------------------------------------------- scan after scan

  /** What scan `i` sees of the cache, `caches[i]`, has no hash twice and can be scanned. */
  ghost predicate Consistent(caches: seq<seq<Scanned>>) {
    forall n :: 0 <= n < |caches| ==>
      && Scannable(caches[n])
      && forall i, j :: 0 <= i < j < |caches[n]| ==> caches[n][i].hash != caches[n][j].hash
  }

  ghost predicate QueuedBy(caches: seq<seq<Scanned>>, scans: seq<nat>, n: int, renew: seq<Scanned>, reload: seq<Scanned>)
    requires Consistent(caches) && 0 <= n < |caches| == |scans|
  {
    && (forall c :: c in renew <==> ForRenewal(caches[n], scans[n], c))
    && (forall c :: c in reload <==> ForReload(caches[n], scans[n], c))
  }

  /** One pair of queues for every scan. */
  method MaintainAssets(caches: seq<seq<Scanned>>, scans: seq<nat>) returns (renews: seq<seq<Scanned>>, reloads: seq<seq<Scanned>>)
    requires Consistent(caches) && |caches| == |scans|
    ensures |renews| == |reloads| == |scans|
    ensures forall n :: 0 <= n < |scans| ==> QueuedBy(caches, scans, n, renews[n], reloads[n])
  {
    renews, reloads := [], [];
    var n := 0;
    while n < |scans|
      invariant 0 <= n <= |scans| && |renews| == |reloads| == n
      invariant forall k :: 0 <= k < n ==> QueuedBy(caches, scans, k, renews[k], reloads[k])
    {
      var renew, reload, _, _ := BuildQueues(caches[n], scans[n]);
      renews, reloads := renews + [renew], reloads + [reload];
      n := n + 1;
    }
  }

  /** The same certificate at another scan: only its stored copy and its ARI schedule may have changed. */
  predicate SameCert(c: Scanned, d: Scanned) {
    d == c.(stored := d.stored, ariNeedsRefresh := d.ariNeedsRefresh)
  }

  /** A managed certificate with a configuration that is not on-demand, cached at least five intervals
      before it expires, is put into one of the queues by at least four consecutive scans before that. */
  lemma RenewalIsNeverMissed(c: Scanned, seen: seq<Scanned>, caches: seq<seq<Scanned>>, scans: seq<nat>, cached: nat,
                             renews: seq<seq<Scanned>>, reloads: seq<seq<Scanned>>) returns (k: nat)
    requires c.managed && c.names != [] && c.config.Config? && !c.config.onDemand && c.leaf.Leaf? && c.config.opts.interval > 0
    requires cached + 5 * c.config.opts.interval <= ExpiresAt(c.leaf.notAfter)
    requires Scans(scans, cached, c.config.opts.interval, ExpiresAt(c.leaf.notAfter))
    requires Consistent(caches) && |seen| == |caches| == |renews| == |reloads| == |scans|
    requires forall n :: 0 <= n < |scans| ==> QueuedBy(caches, scans, n, renews[n], reloads[n])
    requires forall n :: 0 <= n < |scans| ==> seen[n] in caches[n] && SameCert(c, seen[n])
    ensures k + 4 <= |scans|
    ensures forall n :: k <= n < k + 4 ==>
              scans[n] < ExpiresAt(c.leaf.notAfter) && (seen[n] in renews[n] || seen[n] in reloads[n])
  {
    assert seen[0] in caches[0] && SameCert(c, seen[0]) && Maintained(seen[0]);
    k := DueAtFourScans(c.leaf, c.ari, c.config.opts, scans, cached);
    forall n | k <= n < k + 4
      ensures scans[n] < ExpiresAt(c.leaf.notAfter) && (seen[n] in renews[n] || seen[n] in reloads[n])
    {
      assert seen[n] in caches[n] && SameCert(c, seen[n]);
      assert CertNeedsRenewal(c.leaf, c.ari, c.config.opts, scans[n], 0);
      assert Reported(seen[n], scans[n]);
      assert QueuedBy(caches, scans, n, renews[n], reloads[n]);
    }
  }
}
