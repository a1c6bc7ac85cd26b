/** The ring-buffer rate limiter: a fixed ring of timestamps and a cursor that stand in
    for the full history of permitted events, under reconfiguration of the limit. */
module RateLimiter {

  /** A ring slot; `Empty` is Go's zero time, which is due at every instant. */
  datatype Slot = Empty | At(time: int)

  predicate Due(s: Slot, window: int, now: int) {
    s.At? ==> s.time + window <= now
  }

  /** The ring as seen from the cursor after the limit becomes `maxEvents`: a reduction drops
      the slots nearest the cursor, a raise puts empty slots behind the last one. */
  function Resized(view: seq<Slot>, maxEvents: nat): seq<Slot> {
    if maxEvents <= |view| then view[|view| - maxEvents..]
    else view + seq(maxEvents - |view|, _ => Empty)
  }

  function Rotated(s: seq<Slot>, c: nat): seq<Slot>
    requires c <= |s|
  {
    s[c..] + s[..c]
  }

  /** Moving the cursor on by `k` rotates the view by `k`. */
  lemma RotatedOn(s: seq<Slot>, c: nat, k: nat, d: nat)
    requires c < |s| && k <= |s| && d == if c + k < |s| then c + k else c + k - |s|
    ensures Rotated(s, d) == Rotated(Rotated(s, c), k)
  {
    if c + k < |s| {
      assert s[c..][k..] == s[d..] && s[..d] == s[..c] + s[c..d];
    } else {
      assert s[..c] == s[..d] + s[d..c] && s[d..] == s[d..c] + s[c..];
    }
  }

  /** What the loops of a resize copy: the slots in cursor order, a reduction having moved past some. */
  lemma ResizedSlots(view: seq<Slot>, maxEvents: nat, slots: seq<Slot>)
    requires |slots| == maxEvents
    requires var dropped := if maxEvents < |view| then |view| - maxEvents else 0;
             forall k :: 0 <= k < maxEvents ==> slots[k] == if k < |view| then Rotated(view, dropped)[k] else Empty
    ensures slots == Resized(view, maxEvents)
  {}

  // ---------------------------------------------------------------- the limiter in place

  class RingBufferRateLimiter {
    var window: int
    var ring: array<Slot>
    var cursor: nat

    ghost predicate Valid()
      reads this
    {
      && (cursor < ring.Length || cursor == ring.Length == 0)
      && (ring.Length == 0 ==> window == 0)
    }

    /** The slots in the order in which the cursor will reach them. */
    ghost function View(): seq<Slot>
      requires Valid()
      reads this, ring
    {
      ring[cursor..] + ring[..cursor]
    }

    constructor (maxEvents: nat, window: int)
      requires maxEvents == 0 ==> window == 0
      ensures Valid() && fresh(ring) && this.window == window
      ensures View() == seq(maxEvents, _ => Empty)
    {
      this.window := window;
      ring := new Slot[maxEvents](_ => Empty);
      cursor := 0;
    }

    method Advance()
      requires Valid() && ring.Length > 0
      modifies this`cursor
      ensures Valid() && cursor == if old(cursor) + 1 < ring.Length then old(cursor) + 1 else 0
    {
      cursor := cursor + 1;
      if cursor >= ring.Length {
        cursor := 0;
      }
    }

    /** The due check of the loop and the record made by the permit, as one step. */
    method Permit(now: int) returns (ok: bool)
      requires Valid()
      modifies this`cursor, ring
      ensures Valid()
      ensures ok == (ring.Length > 0 ==> Due(old(View())[0], window, now))
      ensures View() == if ok && ring.Length > 0 then old(View())[1..] + [At(now)] else old(View())
    {
      if ring.Length == 0 {
        return true;
      }
      ok := Due(ring[cursor], window, now);
      if ok {
        ring[cursor] := At(now);
        Advance();
      }
    }

    /** Moves the cursor past the `count` slots that a reduction forgets. */
    method FastForward(count: nat)
      requires Valid() && count <= ring.Length
      modifies this`cursor
      ensures Valid()
      ensures View() == Rotated(old(View()), count)
    {
      ghost var n, c := ring.Length, cursor;
      var i := 0;
      while i < count
        invariant 0 <= i <= count && Valid()
        invariant cursor == if c + i < n then c + i else c + i - n
      {
        Advance();
        i := i + 1;
      }
      if n > 0 {
        RotatedOn(ring[..], c, count, cursor);
        assert View() == Rotated(ring[..], cursor) && old(View()) == Rotated(ring[..], c);
      }
    }

    /** Copies timestamps in cursor order until all are copied or `newRing` is full. */
    method CopyInto(newRing: array<Slot>)
      requires Valid() && newRing != ring && newRing.Length != ring.Length > 0
      modifies this`cursor, newRing
      ensures forall k :: 0 <= k < newRing.Length ==>
                newRing[k] == if k < ring.Length then old(View())[k] else old(newRing[k])
    {
      ghost var n, view := ring.Length, View();
      var startCursor, i := cursor, 0;
      while i < newRing.Length
        invariant 0 <= i <= newRing.Length && i < n && Valid()
        invariant cursor == if startCursor + i < n then startCursor + i else startCursor + i - n
        invariant forall k :: 0 <= k < newRing.Length ==>
                    newRing[k] == if k < i then view[k] else old(newRing[k])
        invariant ring[..] == old(ring[..])
      {
        newRing[i] := ring[cursor];
        Advance();
        i := i + 1;
        if cursor == startCursor {
          break;
        }
      }
    }

    method SetMaxEvents(maxEvents: int) returns (panicked: bool)
      requires Valid()
      modifies this
      ensures Valid() && window == old(window)
      ensures panicked == (maxEvents < 0 || (window != 0 && maxEvents == 0))
      ensures View() == if panicked then old(View()) else Resized(old(View()), maxEvents)
    {
      if maxEvents < 0 {
        return true;
      }
      var newRing := new Slot[maxEvents](_ => Empty);
      if window != 0 && maxEvents == 0 {
        return true;
      }
      if maxEvents == ring.Length {
        return false;
      }
      var sizeDiff := ring.Length - maxEvents;
      FastForward(if sizeDiff > 0 then sizeDiff else 0);
      if ring.Length > 0 {
        CopyInto(newRing);
      }
      ResizedSlots(old(View()), maxEvents, newRing[..]);
      ring := newRing;
      cursor := 0;
      return false;
    }

    method SetWindow(newWindow: int) returns (panicked: bool)
      requires Valid()
      modifies this`window
      ensures Valid() && View() == old(View())
      ensures panicked == (newWindow != 0 && ring.Length == 0)
      ensures window == if panicked then old(window) else newWindow
    {
      panicked := newWindow != 0 && ring.Length == 0;
      if !panicked {
        window := newWindow;
      }
    }
  }

  // ---------------------------------------------------------------- runs of the limiter

  /** A run so far: the ring seen from the cursor, the time of every permit, and the limit
      (ring length) in force when each was given. */
  datatype Run = Run(window: int, view: seq<Slot>, times: seq<int>, limits: seq<nat>) {
    ghost predicate WellFormed() {
      && |limits| == |times|
      && (forall i, j :: 0 <= i < j < |times| ==> times[i] <= times[j])
      && (view == [] ==> window == 0)
    }

    /** Every permit comes at least `window` after the permit `limit` places before it. */
    ghost predicate Spaced()
      requires WellFormed()
    {
      forall k :: 0 <= k < |times| && limits[k] <= k ==> times[k - limits[k]] + window <= times[k]
    }
  }

  datatype Op = Permit(now: int) | Resize(maxEvents: nat)

  function Initial(maxEvents: nat, window: int): Run {
    Run(window, seq(maxEvents, _ => Empty), [], [])
  }

  /** Permits wait for the slot at the cursor and never run backwards; a limit of 0 needs window 0. */
  ghost predicate Enabled(r: Run, op: Op) {
    match op
    case Permit(now) =>
      && (r.times != [] ==> r.times[|r.times| - 1] <= now)
      && (r.view != [] ==> Due(r.view[0], r.window, now))
    case Resize(m) => m == 0 ==> r.window == 0
  }

  function Apply(r: Run, op: Op): Run {
    match op
    case Permit(now) =>
      r.(times := r.times + [now], limits := r.limits + [|r.view|],
         view := if r.view == [] then [] else r.view[1..] + [At(now)])
    case Resize(m) => r.(view := Resized(r.view, m))
  }

  ghost predicate InTimeOrder(view: seq<Slot>) {
    forall i, j :: 0 <= i < j < |view| ==>
      view[i].Empty? || (view[j].At? && view[i].time <= view[j].time)
  }

  /** Runs in which the limit is only reduced while the ring is in time order from the cursor. */
  ghost predicate Allowed(r: Run, ops: seq<Op>)
    decreases |ops|
  {
    ops == [] ||
    (&& Enabled(r, ops[0])
     && (ops[0].Resize? && ops[0].maxEvents < |r.view| ==> InTimeOrder(r.view))
     && Allowed(Apply(r, ops[0]), ops[1..]))
  }

  function After(r: Run, ops: seq<Op>): Run
    decreases |ops|
  {
    if ops == [] then r else After(Apply(r, ops[0]), ops[1..])
  }

  // ---------------------------------------------------------------- the invariant

  /** Some event already came `window` after event `j`. */
  ghost predicate Settled(r: Run, j: nat)
    requires j < |r.times|
  {
    r.times[j] + r.window <= r.times[|r.times| - 1]
  }

  /** Slot `i` holds a time no earlier than event `j` and is consulted at the next permit, or no
      later than the permit that is the current limit after `j`. */
  ghost predicate Guards(r: Run, j: nat, i: nat)
    requires j < |r.times| && i < |r.view|
  {
    && r.view[i].At? && r.times[j] <= r.view[i].time
    && (i == 0 || |r.times| + i <= j + |r.view|)
  }

  ghost predicate Covered(r: Run, j: nat)
    requires j < |r.times|
  {
    Settled(r, j) || exists i: nat :: i < |r.view| && Guards(r, j, i)
  }

  ghost predicate Safe(r: Run) {
    r.WellFormed() && r.Spaced() && forall j: nat :: j < |r.times| ==> Covered(r, j)
  }

  /** A permit is spaced from the one `limit` places before it. */
  lemma PermitIsSpaced(r: Run, now: int)
    requires Safe(r) && Enabled(r, Permit(now)) && 0 < |r.view| <= |r.times|
    ensures r.times[|r.times| - |r.view|] + r.window <= now
  {
    var j := |r.times| - |r.view|;
    assert Covered(r, j);
    if !Settled(r, j) {
      var i: nat :| i < |r.view| && Guards(r, j, i);
      assert i == 0;
    }
  }

  lemma PermitCovers(r: Run, now: int, j: nat)
    requires Safe(r) && Enabled(r, Permit(now)) && j <= |r.times|
    ensures Covered(Apply(r, Permit(now)), j)
  {
    var r' := Apply(r, Permit(now));
    if j == |r.times| {
      if r.view != [] {
        assert Guards(r', j, |r.view| - 1);
      }
    } else if !Settled(r', j) {
      assert Covered(r, j) && !Settled(r, j);
      var i: nat :| i < |r.view| && Guards(r, j, i);
      assert i > 0;
      assert Guards(r', j, i - 1);
    }
  }

  lemma PermitKeepsSafe(r: Run, now: int)
    requires Safe(r) && Enabled(r, Permit(now))
    ensures Safe(Apply(r, Permit(now)))
  {
    var r' := Apply(r, Permit(now));
    assert r'.WellFormed();
    if 0 < |r.view| <= |r.times| {
      PermitIsSpaced(r, now);
    }
    assert r'.Spaced();
    forall j: nat | j < |r'.times| ensures Covered(r', j) {
      PermitCovers(r, now, j);
    }
  }

  lemma ReductionCovers(r: Run, m: nat, j: nat)
    requires r.WellFormed() && j < |r.times| && Covered(r, j) && Enabled(r, Resize(m))
    requires m < |r.view| && InTimeOrder(r.view)
    ensures Covered(Apply(r, Resize(m)), j)
  {
    var r' := Apply(r, Resize(m));
    var dropped := |r.view| - m;
    assert r'.view == r.view[dropped..];
    if !Settled(r', j) {
      assert m > 0 && r'.view[0] == r.view[dropped];
      var i: nat :| i < |r.view| && Guards(r, j, i);
      if i >= dropped {
        assert r'.view[i - dropped] == r.view[i];
        assert Guards(r', j, i - dropped);
      } else {
        assert Guards(r', j, 0);
      }
    }
  }

  lemma RaiseCovers(r: Run, m: nat, j: nat)
    requires j < |r.times| && Covered(r, j) && |r.view| <= m
    ensures Covered(Apply(r, Resize(m)), j)
  {
    var r' := Apply(r, Resize(m));
    if !Settled(r', j) {
      var i: nat :| i < |r.view| && Guards(r, j, i);
      assert r'.view[i] == r.view[i];
      assert Guards(r', j, i);
    }
  }

  lemma ResizeKeepsSafe(r: Run, m: nat)
    requires Safe(r) && Enabled(r, Resize(m))
    requires m < |r.view| ==> InTimeOrder(r.view)
    ensures Safe(Apply(r, Resize(m)))
  {
    var r' := Apply(r, Resize(m));
    assert r'.WellFormed();
    forall j: nat | j < |r'.times| ensures Covered(r', j) {
      if m < |r.view| {
        ReductionCovers(r, m, j);
      } else {
        RaiseCovers(r, m, j);
      }
    }
  }

  /** The sliding window holds in every allowed run of permits, raises and reductions. */
  lemma {:induction false} AllowedRunsStaySafe(r: Run, ops: seq<Op>)
    requires Safe(r) && Allowed(r, ops)
    ensures Safe(After(r, ops))
    decreases |ops|
  {
    if ops != [] {
      match ops[0] {
        case Permit(now) => PermitKeepsSafe(r, now);
        case Resize(m) => ResizeKeepsSafe(r, m);
      }
      AllowedRunsStaySafe(Apply(r, ops[0]), ops[1..]);
    }
  }

  lemma SlidingWindow(maxEvents: nat, window: int, ops: seq<Op>)
    requires maxEvents == 0 ==> window == 0
    requires Allowed(Initial(maxEvents, window), ops)
    ensures var r := After(Initial(maxEvents, window), ops); r.WellFormed() && r.Spaced()
  {
    AllowedRunsStaySafe(Initial(maxEvents, window), ops);
  }

  // ---------------------------------------------------------------- the invariant is exact

  /** The earliest time at which the next permit can be given. */
  function NextPermit(r: Run): int
    requires r.view != [] && r.times != []
  {
    var last := r.times[|r.times| - 1];
    if r.view[0].At? && last < r.view[0].time + r.window then r.view[0].time + r.window else last
  }

  lemma UncoveredIsLate(r: Run, j: nat)
    requires r.WellFormed() && j < |r.times| && !Covered(r, j)
    ensures r.view != [] && NextPermit(r) < r.times[j] + r.window
    ensures Enabled(r, Permit(NextPermit(r)))
  {
    assert r.view != [];
    assert !Guards(r, j, 0);
  }

  lemma OverdueBreaks(r: Run, j: nat) returns (ops: seq<Op>)
    requires r.WellFormed() && j < |r.times| && !Covered(r, j) && j + |r.view| <= |r.times|
    ensures Allowed(r, ops)
    ensures var e := After(r, ops); e.WellFormed() && !e.Spaced()
  {
    UncoveredIsLate(r, j);
    var N, now := |r.times|, NextPermit(r);
    ops := [Resize(N - j), Permit(now)];
    var mid := Apply(r, ops[0]);
    assert mid.view[0] == r.view[0];
    var e := Apply(mid, ops[1]);
    assert ops[1..] == [ops[1]] && ops[1..][1..] == [];
    assert After(mid, ops[1..]) == e;
    assert e.limits[N] == N - j && e.times[j] == r.times[j] && e.times[N] == now;
  }

  /** An event that is not covered can be followed by a permit that breaks the window. */
  lemma {:induction false} UncoveredBreaks(r: Run, j: nat) returns (ops: seq<Op>)
    requires r.WellFormed() && j < |r.times| && !Covered(r, j)
    ensures Allowed(r, ops)
    ensures var e := After(r, ops); e.WellFormed() && !e.Spaced()
    decreases j + |r.view| - |r.times|
  {
    if j + |r.view| <= |r.times| {
      ops := OverdueBreaks(r, j);
    } else {
      UncoveredIsLate(r, j);
      var op := Permit(NextPermit(r));
      var r' := Apply(r, op);
      forall i: nat | i < |r'.view| && Guards(r', j, i) ensures false {
        assert Guards(r, j, i + 1);
      }
      assert !Settled(r', j);
      var rest := UncoveredBreaks(r', j);
      ops := [op] + rest;
      assert ops[1..] == rest;
    }
  }

  /** The invariant is neither too strong nor too weak: a run can be continued for ever within the
      window exactly when every past event is covered. */
  lemma SafeIsExact(r: Run)
    requires r.WellFormed() && r.Spaced()
    ensures Safe(r) <==>
            forall ops :: Allowed(r, ops) ==> var e := After(r, ops); e.WellFormed() && e.Spaced()
  {
    if Safe(r) {
      forall ops | Allowed(r, ops) ensures var e := After(r, ops); e.WellFormed() && e.Spaced() {
        AllowedRunsStaySafe(r, ops);
      }
    } else {
      var j: nat :| j < |r.times| && !Covered(r, j);
      var ops := UncoveredBreaks(r, j);
    }
  }

  // ---------------------------------------------------------------- when the ring is in order

  /** How many permits are still to come after `op` until a reduction is safe: as many as the limit was
      before the last raise. */
  function Owed(r: Run, owed: nat, op: Op): nat {
    match op
    case Permit(_) => if owed > 0 then owed - 1 else 0
    case Resize(m) => if m > |r.view| then |r.view| else owed
  }

  /** Runs in which every reduction comes at least n permits after the last raise from n. */
  ghost predicate Counted(r: Run, owed: nat, ops: seq<Op>)
    decreases |ops|
  {
    ops == [] ||
    (&& Enabled(r, ops[0])
     && (ops[0].Resize? && ops[0].maxEvents < |r.view| ==> owed == 0)
     && Counted(Apply(r, ops[0]), Owed(r, owed, ops[0]), ops[1..]))
  }

  /** All slots but the next `owed` ones are in time order, and none is later than the last permit. */
  ghost predicate OrderedBeyond(r: Run, owed: nat) {
    && owed <= |r.view|
    && (forall i, j :: owed <= i < j < |r.view| ==>
          r.view[i].Empty? || (r.view[j].At? && r.view[i].time <= r.view[j].time))
    && (forall i :: 0 <= i < |r.view| && r.view[i].At? ==> r.times != [] && r.view[i].time <= r.times[|r.times| - 1])
  }

  lemma PermitOrders(r: Run, owed: nat, now: int)
    requires OrderedBeyond(r, owed) && Enabled(r, Permit(now))
    ensures OrderedBeyond(Apply(r, Permit(now)), Owed(r, owed, Permit(now)))
  {}

  lemma ResizeOrders(r: Run, owed: nat, m: nat)
    requires OrderedBeyond(r, owed) && (m < |r.view| ==> owed == 0)
    ensures OrderedBeyond(Apply(r, Resize(m)), Owed(r, owed, Resize(m)))
  {}

  lemma StepOrders(r: Run, owed: nat, op: Op)
    requires OrderedBeyond(r, owed) && Enabled(r, op)
    requires op.Resize? && op.maxEvents < |r.view| ==> owed == 0
    ensures OrderedBeyond(Apply(r, op), Owed(r, owed, op))
  {
    match op
    case Permit(now) => PermitOrders(r, owed, now);
    case Resize(m) => ResizeOrders(r, owed, m);
  }

  function OwedAfter(r: Run, owed: nat, ops: seq<Op>): nat
    decreases |ops|
  {
    if ops == [] then owed else OwedAfter(Apply(r, ops[0]), Owed(r, owed, ops[0]), ops[1..])
  }

  /** Counting permits is enough: whenever n of them have followed the last raise from n the ring is in
      time order again, so that all reductions of the run are of an ordered ring. */
  lemma {:induction false} OrderRestored(r: Run, owed: nat, ops: seq<Op>)
    requires OrderedBeyond(r, owed) && Counted(r, owed, ops)
    ensures Allowed(r, ops)
    ensures OwedAfter(r, owed, ops) == 0 ==> InTimeOrder(After(r, ops).view)
    decreases |ops|
  {
    if ops != [] {
      StepOrders(r, owed, ops[0]);
      OrderRestored(Apply(r, ops[0]), Owed(r, owed, ops[0]), ops[1..]);
    }
  }

  /** The sliding window holds in every run in which each reduction comes at least n permits after the
      last raise from n. */
  lemma SlidingWindowByCount(maxEvents: nat, window: int, ops: seq<Op>)
    requires maxEvents == 0 ==> window == 0
    requires Counted(Initial(maxEvents, window), 0, ops)
    ensures var r := After(Initial(maxEvents, window), ops); r.WellFormed() && r.Spaced()
  {
    OrderRestored(Initial(maxEvents, window), 0, ops);
    SlidingWindow(maxEvents, window, ops);
  }

  ghost predicate Possible(r: Run, ops: seq<Op>)
    decreases |ops|
  {
    ops == [] || (Enabled(r, ops[0]) && Possible(Apply(r, ops[0]), ops[1..]))
  }

  lemma PossibleStep(r: Run, op: Op, ops: seq<Op>, r': Run)
    requires Enabled(r, op) && Apply(r, op) == r' && Possible(r', ops)
    ensures Possible(r, [op] + ops) && After(r, [op] + ops) == After(r', ops)
  {
    assert ([op] + ops)[1..] == ops;
  }

  lemma RaisedAndReduced(r: Run)
    requires r == Run(10, [At(1), At(2)], [1, 2], [2, 2])
    ensures var ops := [Resize(4), Resize(2), Permit(2)];
            Possible(r, ops) && After(r, ops) == Run(10, [Empty, At(2)], [1, 2, 2], [2, 2, 2])
  {
    var raised := Run(10, [At(1), At(2), Empty, Empty], [1, 2], [2, 2]);
    var reduced := Run(10, [Empty, Empty], [1, 2], [2, 2]);
    var e := Run(10, [Empty, At(2)], [1, 2, 2], [2, 2, 2]);
    assert Possible(e, []) && After(e, []) == e;
    PossibleStep(reduced, Permit(2), [], e);
    PossibleStep(raised, Resize(2), [Permit(2)], reduced);
    PossibleStep(r, Resize(4), [Resize(2), Permit(2)], raised);
  }

  /** The condition on reductions is needed: in a new limiter, a raise followed at once by a reduction
      forgets the newest events. */
  lemma RaiseThenReduceForgets()
    ensures var (start, ops) := (Initial(2, 10), [Permit(1), Permit(2), Resize(4), Resize(2), Permit(2)]);
            && Possible(start, ops)
            && var e := After(start, ops); e.WellFormed() && !e.Spaced()
  {
    var one := Run(10, [Empty, At(1)], [1], [2]);
    var two := Run(10, [At(1), At(2)], [1, 2], [2, 2]);
    RaisedAndReduced(two);
    PossibleStep(one, Permit(2), [Resize(4), Resize(2), Permit(2)], two);
    PossibleStep(Initial(2, 10), Permit(1), [Permit(2), Resize(4), Resize(2), Permit(2)], one);
    var e := Run(10, [Empty, At(2)], [1, 2, 2], [2, 2, 2]);
    assert e.limits[2] == 2 && e.times[0] == 1 && e.times[2] == 2;
  }
}
