/** Wait channels: for each name one call leads and does the work, the others wait for its channel.
    Loading has a table of its own; obtaining and renewing share one. */
module SingleFlight {

  datatype Table = LoadTable | ObtainTable

  /** What a call was made for. A renewal that finds its certificate still valid is not blocking. */
  datatype Purpose = Load | Obtain | Renew(valid: bool, revoked: bool)

  type Key = (Table, string)
  type Chan = nat

  function KeyOf(purpose: Purpose, name: string): Key {
    (if purpose.Load? then LoadTable else ObtainTable, name)
  }

  /** Registered: the channel is in the table. Working: the call is past its permission check.
      Unblocked: the channel was closed and its entry deleted. */
  datatype Stage = Registered | Working | Unblocked

  datatype Call =
    | Entering(purpose: Purpose, name: string)
    | Waiting(purpose: Purpose, name: string, ch: Chan)
    | Leading(purpose: Purpose, name: string, ch: Chan, stage: Stage, background: bool)
    | Returned

  /** `closes` counts how often each channel ever made was closed; closing one twice would panic.
      `leader` remembers which call still has to close a channel. */
  datatype State = State(table: map<Key, Chan>, closes: map<Chan, nat>, next: Chan, calls: map<nat, Call>, leader: map<Chan, nat>)

  datatype Action =
    | Begin(c: nat, purpose: Purpose, name: string)
    | Consult(c: nat)              // look into the table: register, wait, or serve what there is
    | HandOver(c: nat, d: nat)     // a renewal of a valid certificate goes on in the background
    | Proceed(c: nat)
    | Unblock(c: nat)
    | Return(c: nat)
    | Wake(c: nat)
    | GiveUp(c: nat)               // the timer or the context ends the wait

  predicate MustHandOver(call: Call) {
    call.Leading? && call.purpose.Renew? && call.purpose.valid && !call.background
  }

  predicate Enabled(s: State, a: Action) {
    match a
    case Begin(c, _, _) => c !in s.calls
    case Consult(c) => c in s.calls && s.calls[c].Entering?
    case HandOver(c, d) => c in s.calls && d !in s.calls && s.calls[c].Leading? && s.calls[c].stage.Registered? && MustHandOver(s.calls[c])
    case Proceed(c) => c in s.calls && s.calls[c].Leading? && s.calls[c].stage.Registered? && !MustHandOver(s.calls[c])
    case Unblock(c) =>
      // a rejected renewal unblocks straight after its permission check
      && c in s.calls && s.calls[c].Leading? && !s.calls[c].stage.Unblocked? && !MustHandOver(s.calls[c])
      && (s.calls[c].stage.Working? || s.calls[c].purpose.Renew?)
    case Return(c) => c in s.calls && s.calls[c].Leading? && s.calls[c].stage.Unblocked?
    case Wake(c) => c in s.calls && s.calls[c].Waiting? && s.calls[c].ch in s.closes && s.closes[s.calls[c].ch] > 0
    case GiveUp(c) => c in s.calls && s.calls[c].Waiting?
  }

  function Consulted(s: State, c: nat, call: Call): State
    requires call.Entering?
  {
    var key := KeyOf(call.purpose, call.name);
    if key in s.table then
      if call.purpose.Renew? && call.purpose.valid && !call.purpose.revoked
      then s.(calls := s.calls[c := Returned])
      else s.(calls := s.calls[c := Waiting(call.purpose, call.name, s.table[key])])
    else
      State(s.table[key := s.next], s.closes[s.next := 0], s.next + 1,
            s.calls[c := Leading(call.purpose, call.name, s.next, Registered, false)], s.leader[s.next := c])
  }

  function Apply(s: State, a: Action): State
    requires Enabled(s, a)
  {
    match a
    case Begin(c, purpose, name) => s.(calls := s.calls[c := Entering(purpose, name)])
    case Consult(c) => Consulted(s, c, s.calls[c])
    case HandOver(c, d) => s.(calls := s.calls[c := Returned][d := s.calls[c].(background := true)], leader := s.leader[s.calls[c].ch := d])
    case Proceed(c) => s.(calls := s.calls[c := s.calls[c].(stage := Working)])
    case Unblock(c) =>
      var call := s.calls[c];
      s.(closes := s.closes[call.ch := (if call.ch in s.closes then s.closes[call.ch] else 0) + 1],
         table := s.table - {KeyOf(call.purpose, call.name)},
         calls := s.calls[c := call.(stage := Unblocked)],
         leader := s.leader - {call.ch})
    case Return(c) => s.(calls := s.calls[c := Returned])
    case Wake(c) => s.(calls := s.calls[c := Entering(Load, s.calls[c].name)])
    case GiveUp(c) => s.(calls := s.calls[c := Returned])
  }

  // ---------------------------------------------------------------- the invariant

  /** `c` is between registration and unblocking. */
  predicate Leads(s: State, c: nat) {
    c in s.calls && s.calls[c].Leading? && !s.calls[c].stage.Unblocked?
  }

  /** `c` leads with channel `ch`. */
  predicate LeadsOn(s: State, c: nat, ch: nat) {
    Leads(s, c) && s.calls[c].ch == ch
  }

  predicate LeadsFor(s: State, c: nat, key: Key) {
    Leads(s, c) && KeyOf(s.calls[c].purpose, s.calls[c].name) == key
  }

  predicate Open(s: State, ch: nat) {
    ch in s.closes && s.closes[ch] == 0
  }

  /** Channels are numbered in the order of their making, closed at most once, and led while open. */
  ghost predicate ChanOk(s: State, ch: nat) {
    && (ch in s.closes <==> ch < s.next)
    && (ch in s.closes ==> s.closes[ch] <= 1)
    && (ch in s.leader <==> Open(s, ch))
    && (ch in s.leader ==> Led(s, ch))
  }

  /** A leading call is its channel's leader; past unblocking it has closed the channel. */
  ghost predicate CallOk(s: State, c: nat)
    requires c in s.calls
  {
    var call := s.calls[c];
    && (call.Leading? ==> if call.stage.Unblocked? then call.ch in s.closes && s.closes[call.ch] == 1
                          else call.ch in s.leader && s.leader[call.ch] == c)
    && (call.Waiting? ==> call.ch in s.closes)
  }

  /** An entry's channel is led for its key. */
  ghost predicate EntryOk(s: State, k: Key)
    requires k in s.table
  {
    s.table[k] in s.leader && LeadsFor(s, s.leader[s.table[k]], k)
  }

  ghost predicate Inv(s: State) {
    && (forall ch: nat :: ChanOk(s, ch))
    && (forall c :: c in s.calls ==> CallOk(s, c))
    && (forall k :: k in s.table ==> EntryOk(s, k))
  }

  ghost predicate Led(s: State, ch: nat)
    requires ch in s.leader
  {
    var c := s.leader[ch];
    && LeadsOn(s, c, ch)
    && var k := KeyOf(s.calls[c].purpose, s.calls[c].name);
    && k in s.table && s.table[k] == ch
  }

  /** A step of call `c` that leaves table and channels alone, and `c` a leader if it was one. */
  ghost predicate QuietStep(s: State, s': State, c: nat) {
    && s'.table == s.table && s'.closes == s.closes && s'.next == s.next && s'.leader == s.leader
    && c in s'.calls && s'.calls == s.calls[c := s'.calls[c]]
    && (Leads(s', c) <==> Leads(s, c))
    && (Leads(s, c) ==> s'.calls[c] == s.calls[c].(stage := s'.calls[c].stage))
    && (s'.calls[c].Leading? ==> Leads(s', c))
    && (s'.calls[c].Waiting? ==> s'.calls[c].ch in s'.closes)
  }

  lemma QuietStepKeepsInv(s: State, s': State, c: nat)
    requires Inv(s) && QuietStep(s, s', c)
    ensures Inv(s')
  {
    forall ch: nat ensures ChanOk(s', ch) {
      assert ChanOk(s, ch);
    }
    forall e | e in s'.calls ensures CallOk(s', e) {
      assert e in s.calls ==> CallOk(s, e);
    }
    forall k | k in s'.table ensures EntryOk(s', k) {
      assert k in s.table ==> EntryOk(s, k);
    }
  }

  lemma RegisterKeepsInv(s: State, c: nat)
    requires Inv(s) && Enabled(s, Consult(c)) && KeyOf(s.calls[c].purpose, s.calls[c].name) !in s.table
    ensures Inv(Apply(s, Consult(c)))
  {
    var s' := Apply(s, Consult(c));
    assert ChanOk(s, s.next);
    forall ch: nat ensures ChanOk(s', ch) {
      assert ChanOk(s, ch);
    }
    forall e | e in s'.calls ensures CallOk(s', e) {
      assert e in s.calls ==> CallOk(s, e);
    }
    forall k | k in s'.table ensures EntryOk(s', k) {
      assert k in s.table ==> EntryOk(s, k);
    }
  }

  lemma HandOverKeepsInv(s: State, c: nat, d: nat)
    requires Inv(s) && Enabled(s, HandOver(c, d))
    ensures Inv(Apply(s, HandOver(c, d)))
  {
    var s' := Apply(s, HandOver(c, d));
    assert CallOk(s, c) && ChanOk(s, s.calls[c].ch);
    forall ch: nat ensures ChanOk(s', ch) {
      assert ChanOk(s, ch);
    }
    forall e | e in s'.calls ensures CallOk(s', e) {
      assert e in s.calls ==> CallOk(s, e);
    }
    forall k | k in s'.table ensures EntryOk(s', k) {
      assert k in s.table ==> EntryOk(s, k);
    }
  }

  lemma UnblockKeepsInv(s: State, c: nat)
    requires Inv(s) && Enabled(s, Unblock(c))
    ensures Inv(Apply(s, Unblock(c)))
  {
    var s' := Apply(s, Unblock(c));
    assert CallOk(s, c) && ChanOk(s, s.calls[c].ch);
    forall ch: nat ensures ChanOk(s', ch) {
      assert ChanOk(s, ch);
    }
    forall e | e in s'.calls ensures CallOk(s', e) {
      assert e in s.calls ==> CallOk(s, e);
    }
    forall k | k in s'.table ensures EntryOk(s', k) {
      assert k in s.table ==> EntryOk(s, k);
    }
  }

  lemma StepKeepsInv(s: State, a: Action)
    requires Inv(s) && Enabled(s, a)
    ensures Inv(Apply(s, a))
  {
    var s' := Apply(s, a);
    match a {
      case Consult(c) =>
        if KeyOf(s.calls[c].purpose, s.calls[c].name) !in s.table {
          RegisterKeepsInv(s, c);
        } else {
          var k := KeyOf(s.calls[c].purpose, s.calls[c].name);
          assert EntryOk(s, k) && ChanOk(s, s.table[k]);
          QuietStepKeepsInv(s, s', c);
        }
      case HandOver(c, d) => HandOverKeepsInv(s, c, d);
      case Unblock(c) => UnblockKeepsInv(s, c);
      case Begin(c, _, _) => QuietStepKeepsInv(s, s', c);
      case Proceed(c) => QuietStepKeepsInv(s, s', c);
      case Return(c) => QuietStepKeepsInv(s, s', c);
      case Wake(c) => QuietStepKeepsInv(s, s', c);
      case GiveUp(c) => QuietStepKeepsInv(s, s', c);
    }
  }

  const EMPTY := State(map[], map[], 0, map[], map[])

  ghost predicate Runs(s: State, acts: seq<Action>)
    decreases |acts|
  {
    acts == [] || (Enabled(s, acts[0]) && Runs(Apply(s, acts[0]), acts[1..]))
  }

  ghost function After(s: State, acts: seq<Action>): State
    requires Runs(s, acts)
    decreases |acts|
  {
    if acts == [] then s else After(Apply(s, acts[0]), acts[1..])
  }

  lemma {:induction false} RunsKeepInv(s: State, acts: seq<Action>)
    requires Inv(s) && Runs(s, acts)
    ensures Inv(After(s, acts))
    decreases |acts|
  {
    if acts != [] {
      StepKeepsInv(s, acts[0]);
      RunsKeepInv(Apply(s, acts[0]), acts[1..]);
    }
  }

  lemma LeaderHasEntry(s: State, c: nat, k: Key)
    requires Inv(s) && LeadsFor(s, c, k)
    ensures k in s.table && s.table[k] in s.leader && s.leader[s.table[k]] == c
  {
    assert CallOk(s, c) && ChanOk(s, s.calls[c].ch);
  }

  /** In every interleaving: a key has an entry exactly while one call leads it, and never two; no
      channel is closed twice; a waiter waits on a channel that is closed or has a live leader; and
      once no call leads, every channel ever made was closed exactly once. */
  lemma SingleFlightHolds(acts: seq<Action>)
    requires Runs(EMPTY, acts)
    ensures var s := After(EMPTY, acts);
      && (forall k :: k in s.table <==> exists c :: LeadsFor(s, c, k))
      && (forall k, c, d :: LeadsFor(s, c, k) && LeadsFor(s, d, k) ==> c == d)
      && (forall ch :: ch in s.closes ==> s.closes[ch] <= 1)
      && (forall c :: c in s.calls && s.calls[c].Waiting? ==>
            s.calls[c].ch in s.closes && (s.closes[s.calls[c].ch] == 1 || exists l :: LeadsOn(s, l, s.calls[c].ch)))
      && ((forall c :: !Leads(s, c)) ==> s.table == map[] && forall ch :: ch in s.closes ==> s.closes[ch] == 1)
  {
    RunsKeepInv(EMPTY, acts);
    var s := After(EMPTY, acts);
    forall k ensures k in s.table <==> exists c :: LeadsFor(s, c, k) {
      if k in s.table {
        assert EntryOk(s, k);
      } else if exists c :: LeadsFor(s, c, k) {
        var c :| LeadsFor(s, c, k);
        LeaderHasEntry(s, c, k);
      }
    }
    forall k, c, d | LeadsFor(s, c, k) && LeadsFor(s, d, k) ensures c == d {
      LeaderHasEntry(s, c, k);
      LeaderHasEntry(s, d, k);
    }
    forall ch | ch in s.closes ensures s.closes[ch] <= 1 && (s.closes[ch] == 1 || exists l :: LeadsOn(s, l, ch)) {
      assert ChanOk(s, ch);
    }
    assert forall c :: c in s.calls ==> CallOk(s, c);
    if forall c :: !Leads(s, c) {
      assert forall k :: k !in s.table;
      assert s.table == map[];
    }
  }

  /** Both calls load, or both obtain or renew. */
  predicate SameWork(a: Purpose, b: Purpose) {
    a == Load <==> b == Load
  }

  /** In every run, of all calls for one name at most one leads in loading and one in obtaining and
      renewing, which go together. */
  lemma OneLeaderPerName(acts: seq<Action>, c: nat, d: nat)
    requires Runs(EMPTY, acts) && Leads(After(EMPTY, acts), c) && Leads(After(EMPTY, acts), d)
    requires After(EMPTY, acts).calls[c].name == After(EMPTY, acts).calls[d].name
    requires SameWork(After(EMPTY, acts).calls[c].purpose, After(EMPTY, acts).calls[d].purpose)
    ensures c == d
  {
    RunsKeepInv(EMPTY, acts);
    var s := After(EMPTY, acts);
    var k := KeyOf(s.calls[c].purpose, s.calls[c].name);
    LeaderHasEntry(s, c, k);
    LeaderHasEntry(s, d, k);
  }

  /** In every run, a call that consults the table while another leads for its name serves what it has if
      it is a renewal of a valid certificate that is not revoked, and waits for the leader otherwise. */
  lemma FollowersJoin(acts: seq<Action>, l: nat, c: nat)
    requires Runs(EMPTY, acts) && Leads(After(EMPTY, acts), l)
    requires c in After(EMPTY, acts).calls && After(EMPTY, acts).calls[c].Entering?
    requires After(EMPTY, acts).calls[l].name == After(EMPTY, acts).calls[c].name
    requires SameWork(After(EMPTY, acts).calls[l].purpose, After(EMPTY, acts).calls[c].purpose)
    ensures var s := After(EMPTY, acts);
            && Enabled(s, Consult(c))
            && Apply(s, Consult(c)) == s.(calls := s.calls[c :=
                 if s.calls[c].purpose == Renew(true, false) then Returned
                 else Waiting(s.calls[c].purpose, s.calls[c].name, s.calls[l].ch)])
  {
    RunsKeepInv(EMPTY, acts);
    var s := After(EMPTY, acts);
    LeaderHasEntry(s, l, KeyOf(s.calls[l].purpose, s.calls[l].name));
    assert CallOk(s, l) && ChanOk(s, s.calls[l].ch);
  }

  /** In every run, a call that consults the table while nobody leads for its name becomes the leader, with
      a new open channel. */
  lemma FirstLeads(acts: seq<Action>, c: nat)
    requires Runs(EMPTY, acts) && c in After(EMPTY, acts).calls && After(EMPTY, acts).calls[c].Entering?
    requires var s := After(EMPTY, acts);
             forall l :: Leads(s, l) && s.calls[l].name == s.calls[c].name ==> !SameWork(s.calls[l].purpose, s.calls[c].purpose)
    ensures var s := After(EMPTY, acts);
            && Enabled(s, Consult(c))
            && var e := Apply(s, Consult(c));
            && e.calls == s.calls[c := Leading(s.calls[c].purpose, s.calls[c].name, s.next, Registered, false)]
            && s.next !in s.closes && e.closes == s.closes[s.next := 0]
  {
    RunsKeepInv(EMPTY, acts);
    var s := After(EMPTY, acts);
    var k := KeyOf(s.calls[c].purpose, s.calls[c].name);
    assert k in s.table ==> EntryOk(s, k);
    assert ChanOk(s, s.next);
  }

  /** A renewal of a valid certificate goes on in the background: its call returns, and the new call leads
      with the same channel. */
  lemma ValidRenewalsGoToBackground(s: State, l: nat, d: nat)
    requires l in s.calls && s.calls[l].Leading? && s.calls[l].stage == Registered && d !in s.calls
    ensures Enabled(s, HandOver(l, d)) <==> s.calls[l].purpose.Renew? && s.calls[l].purpose.valid && !s.calls[l].background
    ensures Enabled(s, Proceed(l)) <==> !Enabled(s, HandOver(l, d))
    ensures Enabled(s, Proceed(l)) ==> Apply(s, Proceed(l)) == s.(calls := s.calls[l := s.calls[l].(stage := Working)])
    ensures Enabled(s, HandOver(l, d)) ==>
              Apply(s, HandOver(l, d)).calls == s.calls[l := Returned][d := s.calls[l].(background := true)]
  {}

  /** In every run, a leader at work can unblock: that closes its channel, lets the next call for its name
      lead and every waiter on the channel go on; a waiter goes on by looking for the certificate again. */
  lemma LeadersUnblock(acts: seq<Action>, l: nat, w: nat)
    requires Runs(EMPTY, acts) && Leads(After(EMPTY, acts), l) && After(EMPTY, acts).calls[l].stage == Working
    requires var call := After(EMPTY, acts).calls[l]; call.purpose.Renew? && call.purpose.valid ==> call.background
    ensures var s := After(EMPTY, acts);
            && Enabled(s, Unblock(l))
            && var e := Apply(s, Unblock(l));
            && s.calls[l].ch in e.closes && e.closes[s.calls[l].ch] == 1 && KeyOf(s.calls[l].purpose, s.calls[l].name) !in e.table
            && Enabled(e, Return(l)) && Apply(e, Return(l)).calls == s.calls[l := Returned]
            && (w in s.calls && s.calls[w].Waiting? && s.calls[w].ch == s.calls[l].ch ==>
                  Enabled(e, Wake(w)) && Apply(e, Wake(w)).calls[w] == Entering(Load, s.calls[w].name))
  {
    RunsKeepInv(EMPTY, acts);
    var s := After(EMPTY, acts);
    assert CallOk(s, l) && ChanOk(s, s.calls[l].ch);
  }

  /** A renewal that is not permitted unblocks without working. */
  lemma RefusedRenewalsUnblock(s: State, l: nat)
    requires l in s.calls && s.calls[l].Leading? && s.calls[l].stage == Registered && s.calls[l].purpose.Renew?
    requires s.calls[l].purpose.valid ==> s.calls[l].background
    ensures Enabled(s, Unblock(l)) && Enabled(Apply(s, Unblock(l)), Return(l))
  {}

  /** No waiter is bound to wait. */
  lemma WaitersMayGiveUp(s: State, w: nat)
    requires w in s.calls && s.calls[w].Waiting?
    ensures Enabled(s, GiveUp(w)) && Apply(s, GiveUp(w)) == s.(calls := s.calls[w := Returned])
  {}

  /** New calls can begin at any time, for any purpose and name. */
  lemma CallsBegin(s: State, c: nat, purpose: Purpose, name: string)
    requires c !in s.calls
    ensures Enabled(s, Begin(c, purpose, name))
    ensures Apply(s, Begin(c, purpose, name)) == s.(calls := s.calls[c := Entering(purpose, name)])
  {}
}
