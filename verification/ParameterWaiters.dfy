/**
 The readback waiters of `ParameterValueWaiterSet`.

 A waiter's closure variables (`settled`, its timer) and the membership of the set are separate
 pieces of state, as they are in the source; that they always agree is proved. `outcomes` logs
 every call of the promise's `resolve` or `reject`. Time is a number of milliseconds and a timer
 may fire at any moment from its deadline on.
 */
module ReadbackWaiters {
  import opened Collections

  datatype Outcome = Resolved(id: string, value: real) | TimedOut(at: nat) | Rejected

  datatype Waiter = Waiter(
    paramId: string, expected: real, tolerance: real, deadline: nat,
    settled: bool, timer: Option<nat>, outcomes: seq<Outcome>)

  /** All waiters ever added, indexed by age; `members` are those in the source's `Set`. */
  datatype Waiters = Waiters(now: nat, all: seq<Waiter>, members: set<nat>)

  const Fresh: Waiters := Waiters(0, [], {})

  const DEFAULT_TIMEOUT_MS: nat := 5000
  const DEFAULT_TOLERANCE: real := 0.0001

  datatype Event =
    | Add(paramId: string, expected: real, tolerance: real, timeoutMs: nat)
    | Cancel(index: nat)
    | Readback(id: string, value: real)
    | RejectAll
    | Fire(index: nat)
    | Tick(elapsed: nat)

  function Abs(x: real): real {
    if x < 0.0 then -x else x
  }

  /** `approximatelyEqualParameterValue`. */
  predicate ApproximatelyEqual(left: real, right: real, tolerance: real) {
    var relative := Abs(right) * 0.000001;
    Abs(left - right) <= if relative >= tolerance then relative else tolerance
  }

  predicate Matches(w: Waiter, id: string, value: real) {
    w.paramId == id && ApproximatelyEqual(value, w.expected, w.tolerance)
  }

  function Settle(w: Waiter, o: Outcome): Waiter {
    w.(settled := true, timer := None, outcomes := w.outcomes + [o])
  }

  function SettleThose(s: Waiters, which: set<nat>, o: Outcome): Waiters {
    s.(all := seq(|s.all|, i requires 0 <= i < |s.all| => if i in which then Settle(s.all[i], o) else s.all[i]),
       members := s.members - which)
  }

  function Matching(s: Waiters, id: string, value: real): set<nat> {
    set i | i in s.members && i < |s.all| && Matches(s.all[i], id, value)
  }

  function Step(s: Waiters, e: Event): Waiters {
    match e
    case Add(id, expected, tolerance, timeoutMs) =>
      var deadline := s.now + timeoutMs;
      s.(all := s.all + [Waiter(id, expected, tolerance, deadline, false, Some(deadline), [])],
         members := s.members + {|s.all|})
    case Cancel(i) =>
      if i < |s.all| && !s.all[i].settled then SettleThose(s, {i}, Rejected) else s
    case Readback(id, value) => SettleThose(s, Matching(s, id, value), Resolved(id, value))
    case RejectAll => SettleThose(s, s.members, Rejected)
    case Fire(i) =>
      if i < |s.all| && s.all[i].timer.Some? && s.all[i].timer.value <= s.now
      then SettleThose(s, {i}, TimedOut(s.now))
      else s
    case Tick(elapsed) => s.(now := s.now + elapsed)
  }

  function Run(events: seq<Event>): Waiters {
    if events == [] then Fresh else Step(Run(events[..|events| - 1]), events[|events| - 1])
  }

  /** Membership, the flag, the timer and the log of one waiter tell the same story. */
  ghost predicate Consistent(w: Waiter, member: bool, now: nat) {
    && (member <==> !w.settled)
    && (w.timer == if member then Some(w.deadline) else None)
    && |w.outcomes| == (if member then 0 else 1)
    && match (if member then Rejected else w.outcomes[0])
       case Resolved(id, value) => Matches(w, id, value)
       case TimedOut(at) => w.deadline <= at <= now
       case Rejected => true
  }

  ghost predicate Inv(s: Waiters) {
    && (forall i :: i in s.members ==> i < |s.all|)
    && (forall i :: 0 <= i < |s.all| ==> Consistent(s.all[i], i in s.members, s.now))
  }

  lemma StepKeeps(s: Waiters, e: Event)
    requires Inv(s)
    ensures Inv(Step(s, e))
  {
    hide ApproximatelyEqual;
  }

  /**
   In every run: the set holds exactly the unsettled waiters and exactly those with an armed
   timer, each waiter settles at most once, only a matching readback resolves it, and it times
   out no earlier than its deadline.
   */
  lemma {:induction false} RunKeeps(events: seq<Event>)
    ensures Inv(Run(events))
  {
    hide Step;
    if events != [] {
      RunKeeps(events[..|events| - 1]);
      StepKeeps(Run(events[..|events| - 1]), events[|events| - 1]);
    }
  }

  // ----- what becomes of a waiter, read off the events -----

  /** The time that has passed. */
  function Clock(events: seq<Event>): nat {
    if events == [] then 0
    else
      var last := events[|events| - 1];
      Clock(events[..|events| - 1]) + if last.Tick? then last.elapsed else 0
  }

  /** How many waiters have been added. */
  function Added(events: seq<Event>): nat {
    if events == [] then 0
    else Added(events[..|events| - 1]) + if events[|events| - 1].Add? then 1 else 0
  }

  /** Is the value within the tolerance asked for, or within a millionth of the value expected? */
  predicate Near(value: real, expected: real, tolerance: real) {
    var distance := if value >= expected then value - expected else expected - value;
    var size := if expected >= 0.0 then expected else -expected;
    distance <= tolerance || 1000000.0 * distance <= size
  }

  /** What event `e`, at time `now`, does to the waiter that the event `add` added as number `i` at time `since`. */
  function SettledBy(add: Event, i: nat, since: nat, e: Event, now: nat): Option<Outcome>
    requires add.Add?
  {
    match e
    case Cancel(j) => if j == i then Some(Rejected) else None
    case Readback(id, value) =>
      if id == add.paramId && Near(value, add.expected, add.tolerance) then Some(Resolved(id, value)) else None
    case RejectAll => Some(Rejected)
    case Fire(j) => if j == i && since + add.timeoutMs <= now then Some(TimedOut(now)) else None
    case _ => None
  }

  /** The first outcome that the events after number `k` give the waiter added by it. */
  function FirstOutcome(events: seq<Event>, k: nat): Option<Outcome>
    requires k < |events| && events[k].Add?
    decreases |events|
  {
    var n := |events| - 1;
    if n == k then None
    else
      var before := FirstOutcome(events[..n], k);
      if before.Some? then before
      else SettledBy(events[k], Added(events[..k]), Clock(events[..k]), events[n], Clock(events[..n]))
  }

  lemma {:induction false} RunCounts(events: seq<Event>)
    ensures Run(events).now == Clock(events) && |Run(events).all| == Added(events)
  {
    if events != [] {
      RunCounts(events[..|events| - 1]);
    }
    hide ApproximatelyEqual;
  }

  lemma NearIsEqual(value: real, expected: real, tolerance: real)
    ensures ApproximatelyEqual(value, expected, tolerance) <==> Near(value, expected, tolerance)
  {
  }

  /** The waiter is the one asked for, and is settled by `o` or not at all. */
  ghost predicate IsWaiter(w: Waiter, member: bool, add: Event, since: nat, o: Option<Outcome>)
    requires add.Add?
  {
    && w.paramId == add.paramId && w.expected == add.expected && w.tolerance == add.tolerance
    && w.deadline == since + add.timeoutMs
    && (member <==> o.None?)
    && w.outcomes == if o.Some? then [o.value] else []
  }

  lemma WaiterStep(s: Waiters, e: Event, i: nat, add: Event, since: nat, o: Option<Outcome>)
    requires Inv(s) && i < |s.all| && add.Add? && IsWaiter(s.all[i], i in s.members, add, since, o)
    ensures var t := Step(s, e);
            i < |t.all|
            && IsWaiter(t.all[i], i in t.members, add, since, if o.Some? then o else SettledBy(add, i, since, e, s.now))
  {
    if e.Readback? {
      NearIsEqual(e.value, add.expected, add.tolerance);
    }
    hide ApproximatelyEqual, Near;
  }

  lemma {:induction false} WaiterRuns(events: seq<Event>, k: nat)
    requires k < |events| && events[k].Add?
    ensures var s, i := Run(events), Added(events[..k]);
            i < |s.all|
            && IsWaiter(s.all[i], i in s.members, events[k], Clock(events[..k]), FirstOutcome(events, k))
    decreases |events|
  {
    var n := |events| - 1;
    var front := events[..n];
    RunCounts(front);
    RunKeeps(front);
    hide Step, SettledBy, Inv;
    if n == k {
      NewWaiter(Run(front), events[k]);
    } else {
      assert front[..k] == events[..k];
      WaiterRuns(front, k);
      WaiterStep(Run(front), events[n], Added(events[..k]), events[k], Clock(events[..k]), FirstOutcome(front, k));
    }
  }

  lemma NewWaiter(s: Waiters, add: Event)
    requires add.Add? && Inv(s)
    ensures var t := Step(s, add); |s.all| < |t.all| && IsWaiter(t.all[|s.all|], |s.all| in t.members, add, s.now, None)
  {
  }

  /**
   In every run, a waiter settles by the first event after its `add` that is its cancellation, a
   `rejectAll`, a readback of its id near its value, or its timer once the timeout it was given has
   passed, with that outcome and no other; until then it is pending.
   */
  lemma OutcomeExactly(events: seq<Event>, k: nat)
    requires k < |events| && events[k].Add?
    ensures var s, i, o := Run(events), Added(events[..k]), FirstOutcome(events, k);
            && i < |s.all|
            && (i in s.members <==> o.None?)
            && s.all[i].outcomes == if o.Some? then [o.value] else []
  {
    hide Run, FirstOutcome;
    WaiterRuns(events, k);
  }

  /** A timer settles its waiter exactly when the waiter is pending and its timeout has passed since it was added. */
  lemma FireExact(events: seq<Event>, k: nat)
    requires k < |events| && events[k].Add?
    ensures var s, i := Run(events), Added(events[..k]); var t := Step(s, Fire(i));
            && i < |s.all| && i < |t.all|
            && (i in s.members && i !in t.members
                <==> i in s.members && Clock(events[..k]) + events[k].timeoutMs <= Clock(events))
            && (i in s.members && i !in t.members ==> t.all[i].outcomes == [TimedOut(Clock(events))])
  {
    hide Run, FirstOutcome, Clock;
    RunCounts(events);
    RunKeeps(events);
    WaiterRuns(events, k);
  }

  /** A waiter is resolved only by a readback of its id whose value is near the one it was added with. */
  lemma ResolvedMatches(events: seq<Event>, k: nat)
    requires k < |events| && events[k].Add?
    ensures var s, i := Run(events), Added(events[..k]);
            i < |s.all| && (s.all[i].outcomes != [] && s.all[i].outcomes[0].Resolved? ==>
              var o := s.all[i].outcomes[0];
              o.id == events[k].paramId && Near(o.value, events[k].expected, events[k].tolerance))
  {
    hide Run, FirstOutcome, Clock;
    RunKeeps(events);
    WaiterRuns(events, k);
    var w := Run(events).all[Added(events[..k])];
    if w.outcomes != [] && w.outcomes[0].Resolved? {
      NearIsEqual(w.outcomes[0].value, w.expected, w.tolerance);
    }
  }

  /** Cancelling rejects a pending waiter and touches no other; cancelling a settled one does nothing. */
  lemma CancelExact(events: seq<Event>, i: nat, j: nat)
    requires i < |Run(events).all| && j < |Run(events).all|
    ensures var s := Run(events); var t := Step(s, Cancel(i));
            && |t.all| == |s.all| && t.now == s.now
            && t.members == s.members - {i}
            && (j != i || i !in s.members ==> t.all[j] == s.all[j])
            && (j == i && i in s.members ==> t.all[j].outcomes == [Rejected])
  {
    hide Run;
    RunKeeps(events);
  }

  /** A readback resolves, with its own value, all and only the pending waiters it matches. */
  lemma ReadbackExact(events: seq<Event>, id: string, value: real, i: nat)
    requires i < |Run(events).all|
    ensures var s, t := Run(events), Step(Run(events), Readback(id, value));
            && |t.all| == |s.all|
            && (i in s.members && Matches(s.all[i], id, value)
                <==> i in s.members && i !in t.members)
            && (i in s.members && i !in t.members ==> t.all[i].outcomes == [Resolved(id, value)])
            && ((i in s.members <==> i in t.members) ==> t.all[i] == s.all[i])
  {
    hide Run, ApproximatelyEqual;
    RunKeeps(events);
  }

  /** `rejectAll` leaves nothing pending and rejects exactly the waiters that were. */
  lemma RejectAllExact(events: seq<Event>, i: nat)
    requires i < |Run(events).all|
    ensures var s, t := Run(events), Step(Run(events), RejectAll);
            && t.members == {} && |t.all| == |s.all|
            && t.all[i].outcomes == if i in s.members then [Rejected] else s.all[i].outcomes
  {
    hide Run;
    RunKeeps(events);
  }

  /** A settled waiter never changes again, whatever happens later. */
  lemma {:induction false} SettledForGood(events: seq<Event>, k: nat, i: nat)
    requires k <= |events| && i < |Run(events[..k]).all| && i !in Run(events[..k]).members
    ensures i < |Run(events).all| && i !in Run(events).members
    ensures Run(events).all[i] == Run(events[..k]).all[i]
    decreases |events|
  {
    if k == |events| {
      assert events[..k] == events;
    } else {
      var front := events[..|events| - 1];
      assert front[..k] == events[..k];
      SettledForGood(front, k, i);
      RunKeeps(front);
      hide ApproximatelyEqual;
    }
  }

  /** No matching readback is ever missed: after one, the waiter is not pending at any later time. */
  lemma NoReadbackMissed(events: seq<Event>, k: nat, i: nat)
    requires k < |events| && events[k].Readback?
    requires i < |Run(events[..k]).all| && Matches(Run(events[..k]).all[i], events[k].id, events[k].value)
    ensures i !in Run(events).members
  {
    hide ApproximatelyEqual;
    assert events[..k + 1][..k] == events[..k];
    RunKeeps(events[..k]);
    SettledForGood(events, k + 1, i);
  }

  // ----- the class -----

  class ParameterValueWaiterSet {
    var now: nat
    var all: seq<Waiter>
    var members: set<nat>

    ghost function View(): Waiters
      reads this
    {
      Waiters(now, all, members)
    }

    constructor ()
      ensures View() == Fresh
    {
      now, all, members := 0, [], {};
    }

    /** `add`; an option left out is five seconds, or a ten-thousandth. */
    method AddWaiter(paramId: string, expected: real, tolerance: Option<real>, timeoutMs: Option<nat>)
        returns (handle: nat)
      modifies this
      ensures View() == Step(old(View()), Add(paramId, expected, if tolerance.Some? then tolerance.value else 0.0001,
                                              if timeoutMs.Some? then timeoutMs.value else 5000))
      ensures handle == |old(all)|
    {
      var t: nat := if timeoutMs.Some? then timeoutMs.value else DEFAULT_TIMEOUT_MS;
      var near := if tolerance.Some? then tolerance.value else DEFAULT_TOLERANCE;
      handle := |all|;
      all := all + [Waiter(paramId, expected, near, now + t, false, Some(now + t), [])];
      members := members + {handle};
    }

    method CancelWaiter(i: nat)
      requires i < |all|
      modifies this
      ensures View() == Step(old(View()), Cancel(i))
    {
      if all[i].settled {
        return;
      }
      members := members - {i};
      all := all[i := Settle(all[i], Rejected)];
    }

    /** The loop body shared by `resolve` and `rejectAll`: settle each waiter of a list, in any order. */
    method SettleEach(which: set<nat>, o: Outcome)
      requires forall i :: i in which ==> i < |all|
      modifies this
      ensures View() == SettleThose(old(View()), which, o)
    {
      var todo := which;
      while todo != {}
        invariant todo <= which && |all| == |old(all)| && now == old(now)
        invariant members == old(members) - (which - todo)
        invariant forall i :: 0 <= i < |all| ==>
                    all[i] == if i in which - todo then Settle(old(all)[i], o) else old(all)[i]
      {
        var i :| i in todo;
        todo := todo - {i};
        members := members - {i};
        all := all[i := Settle(all[i], o)];
      }
    }

    method Resolve(id: string, value: real)
      requires Inv(View())
      modifies this
      ensures View() == Step(old(View()), Readback(id, value))
    {
      hide ApproximatelyEqual;
      var matching := set i | i in members && i < |all| && Matches(all[i], id, value);
      SettleEach(matching, Resolved(id, value));
    }

    method RejectEvery()
      requires Inv(View())
      modifies this
      ensures View() == Step(old(View()), RejectAll)
    {
      SettleEach(members, Rejected);
      members := {};
    }

    /** The timer callback; the runtime calls it only for an armed timer whose deadline has passed. */
    method OnTimer(i: nat)
      requires i < |all| && all[i].timer.Some? && all[i].timer.value <= now
      modifies this
      ensures View() == Step(old(View()), Fire(i))
    {
      members := members - {i};
      all := all[i := Settle(all[i], TimedOut(now))];
    }
  }
}

/**
 The sync waiters of `ParameterSyncWaiterSet`: an idle window, re-armed by every progress event,
 not a total budget.
 */
module SyncWaiters {
  import opened Collections

  datatype Outcome = Resolved | TimedOut(at: nat) | Rejected

  datatype Waiter = Waiter(idleMs: nat, timer: Option<nat>, outcomes: seq<Outcome>)

  datatype Waiters = Waiters(now: nat, all: seq<Waiter>, members: set<nat>)

  const Fresh: Waiters := Waiters(0, [], {})

  datatype Event =
    | Add(idleMs: nat)
    | Progress
    | ResolveAll
    | RejectAll
    | Fire(index: nat)
    | Tick(elapsed: nat)

  function Settle(w: Waiter, o: Outcome): Waiter {
    w.(timer := None, outcomes := w.outcomes + [o])
  }

  function SettleThose(s: Waiters, which: set<nat>, o: Outcome): Waiters {
    s.(all := seq(|s.all|, i requires 0 <= i < |s.all| => if i in which then Settle(s.all[i], o) else s.all[i]),
       members := s.members - which)
  }

  function Arm(w: Waiter, now: nat): Waiter {
    w.(timer := Some(now + w.idleMs))
  }

  function ArmAll(s: Waiters): Waiters {
    s.(all := seq(|s.all|, i requires 0 <= i < |s.all| => if i in s.members then Arm(s.all[i], s.now) else s.all[i]))
  }

  function Step(s: Waiters, e: Event): Waiters {
    match e
    case Add(idleMs) =>
      s.(all := s.all + [Arm(Waiter(idleMs, None, []), s.now)], members := s.members + {|s.all|})
    case Progress => ArmAll(s)
    case ResolveAll => SettleThose(s, s.members, Resolved)
    case RejectAll => SettleThose(s, s.members, Rejected)
    case Fire(i) =>
      if i < |s.all| && s.all[i].timer.Some? && s.all[i].timer.value <= s.now
      then SettleThose(s, {i}, TimedOut(s.now))
      else s
    case Tick(elapsed) => s.(now := s.now + elapsed)
  }

  function Run(events: seq<Event>): Waiters {
    if events == [] then Fresh else Step(Run(events[..|events| - 1]), events[|events| - 1])
  }

  /** Does event `k` of a run create waiter `i` or report progress while it exists? */
  ghost predicate IsActivity(events: seq<Event>, k: nat, i: nat)
    requires k < |events|
  {
    || (events[k].Add? && |Run(events[..k]).all| == i)
    || (events[k].Progress? && i < |Run(events[..k]).all|)
  }

  /** The time of the latest activity of waiter `i`, read off the events alone. */
  ghost function LastActivity(events: seq<Event>, i: nat): nat {
    if events == [] then 0
    else
      var n := |events| - 1;
      if IsActivity(events, n, i) then Run(events[..n]).now else LastActivity(events[..n], i)
  }

  ghost predicate Consistent(w: Waiter, member: bool, lastActivity: nat) {
    && w.timer == (if member then Some(lastActivity + w.idleMs) else None)
    && |w.outcomes| == (if member then 0 else 1)
  }

  ghost predicate Inv(s: Waiters, events: seq<Event>) {
    && (forall i :: i in s.members ==> i < |s.all|)
    && (forall i :: 0 <= i < |s.all| && i in s.members ==> Consistent(s.all[i], true, LastActivity(events, i)))
    && (forall i :: 0 <= i < |s.all| && i !in s.members ==> Consistent(s.all[i], false, 0))
  }

  lemma LastActivityStep(events: seq<Event>, e: Event, i: nat)
    ensures var s := Run(events); var all := events + [e];
            Run(all) == Step(s, e)
            && LastActivity(all, i) == if (e.Add? && |s.all| == i) || (e.Progress? && i < |s.all|) then s.now
                                       else LastActivity(events, i)
  {
    hide Step;
    assert (events + [e])[..|events|] == events;
  }

  /** What a step does to one waiter whose last activity was at time `last`. */
  lemma StepConsistent(s: Waiters, e: Event, i: nat, last: nat)
    requires i in s.members ==> i < |s.all|
    requires i < |s.all| ==> Consistent(s.all[i], i in s.members, if i in s.members then last else 0)
    ensures var t := Step(s, e);
            var latest := if (e.Add? && |s.all| == i) || (e.Progress? && i < |s.all|) then s.now else last;
            && (i in t.members ==> i < |t.all|)
            && (i < |t.all| ==> Consistent(t.all[i], i in t.members, if i in t.members then latest else 0))
  {
  }

  lemma StepAt(events: seq<Event>, e: Event, i: nat)
    requires Inv(Run(events), events)
    ensures var t := Step(Run(events), e);
            && (i in t.members ==> i < |t.all|)
            && (i < |t.all| ==>
                  Consistent(t.all[i], i in t.members, if i in t.members then LastActivity(events + [e], i) else 0))
  {
    hide Run, LastActivity, Step, Consistent;
    LastActivityStep(events, e, i);
    StepConsistent(Run(events), e, i, LastActivity(events, i));
  }

  lemma StepKeeps(events: seq<Event>, e: Event)
    requires Inv(Run(events), events)
    ensures Inv(Step(Run(events), e), events + [e])
  {
    hide Run, LastActivity, Step, Consistent;
    forall i: nat
      ensures var t := Step(Run(events), e);
              && (i in t.members ==> i < |t.all|)
              && (i < |t.all| ==>
                    Consistent(t.all[i], i in t.members, if i in t.members then LastActivity(events + [e], i) else 0))
    {
      StepAt(events, e, i);
    }
  }

  /**
   In every run the armed deadline of a pending waiter is its last activity plus its idle window,
   pending waiters are exactly the armed ones, and each waiter settles at most once.
   */
  lemma {:induction false} RunKeeps(events: seq<Event>)
    ensures Inv(Run(events), events)
  {
    hide Step, LastActivity;
    if events != [] {
      var n := |events| - 1;
      RunKeeps(events[..n]);
      StepKeeps(events[..n], events[n]);
      assert events == events[..n] + [events[n]];
    }
  }

  /** A timer can fire exactly when the waiter is pending and a whole idle window has passed since its last activity. */
  lemma FireExact(events: seq<Event>, i: nat)
    requires i < |Run(events).all|
    ensures var s, t := Run(events), Step(Run(events), Fire(i));
            && |t.all| == |s.all|
            && (i in s.members && i !in t.members
                <==> i in s.members && LastActivity(events, i) + s.all[i].idleMs <= s.now)
            && (i in s.members && i !in t.members ==> t.all[i].outcomes == [TimedOut(s.now)])
  {
    hide Run, LastActivity;
    RunKeeps(events);
  }

  lemma StepGrows(s: Waiters, e: Event)
    ensures s.now <= Step(s, e).now && |s.all| <= |Step(s, e).all|
  {
  }

  lemma {:induction false} TimeGrows(events: seq<Event>, k: nat)
    requires k <= |events|
    ensures Run(events[..k]).now <= Run(events).now
    ensures |Run(events[..k]).all| <= |Run(events).all|
    decreases |events|
  {
    hide Step;
    if k == |events| {
      assert events[..k] == events;
    } else {
      var front := events[..|events| - 1];
      assert front[..k] == events[..k];
      TimeGrows(front, k);
      StepGrows(Run(front), events[|events| - 1]);
    }
  }

  /** The last activity is no earlier than any activity. */
  lemma {:induction false} LastActivityLatest(events: seq<Event>, k: nat, i: nat)
    requires k < |events| && IsActivity(events, k, i)
    ensures Run(events[..k]).now <= LastActivity(events, i)
    decreases |events|
  {
    hide Step;
    var n := |events| - 1;
    if IsActivity(events, n, i) {
      TimeGrows(events[..n], k);
      assert events[..n][..k] == events[..k];
    } else {
      assert events[..n][..k] == events[..k];
      LastActivityLatest(events[..n], k, i);
    }
  }

  /** A settled waiter keeps its outcome. */
  lemma SettledStays(events: seq<Event>, e: Event, i: nat)
    requires i < |Run(events).all| && i !in Run(events).members
    ensures var t := Step(Run(events), e); i < |t.all| && i !in t.members && t.all[i] == Run(events).all[i]
  {
    hide Run, LastActivity;
    RunKeeps(events);
  }

  /** Only the firing of its own timer makes a waiter time out. */
  lemma TimesOutByFire(events: seq<Event>, e: Event, i: nat)
    requires i < |Run(events).all| ==> i in Run(events).members
    requires var t := Step(Run(events), e); i < |t.all| && t.all[i].outcomes != [] && t.all[i].outcomes[0].TimedOut?
    ensures var s := Run(events); var t := Step(s, e);
            && e == Fire(i) && i < |s.all| && i !in t.members
            && t.all[i].outcomes[0] == TimedOut(s.now) && t.all[i].idleMs == s.all[i].idleMs
  {
    RunKeeps(events);
    hide Run, LastActivity;
  }

  /** A waiter that timed out did so in one firing, while pending. */
  lemma {:induction false} FiredAt(events: seq<Event>, i: nat) returns (n: nat)
    requires i < |Run(events).all| && Run(events).all[i].outcomes != []
    requires Run(events).all[i].outcomes[0].TimedOut?
    ensures n < |events| && events[n] == Fire(i)
    ensures i < |Run(events[..n]).all| && i in Run(events[..n]).members && i !in Step(Run(events[..n]), Fire(i)).members
    ensures Run(events).all[i].outcomes[0] == TimedOut(Run(events[..n]).now)
    ensures Run(events).all[i].idleMs == Run(events[..n]).all[i].idleMs
  {
    hide Step, LastActivity;
    var front, e := events[..|events| - 1], events[|events| - 1];
    if i < |Run(front).all| && i !in Run(front).members {
      SettledStays(front, e, i);
      n := FiredAt(front, i);
      assert front[..n] == events[..n];
    } else {
      n := |events| - 1;
      TimesOutByFire(front, e, i);
    }
  }

  /**
   The idle timeout: a waiter that timed out at `t` was fired at time `t` while pending, and every
   activity before that firing, its creation included, lies at least a whole window before `t`.
   */
  lemma TimeoutMeansIdle(events: seq<Event>, i: nat) returns (n: nat)
    requires i < |Run(events).all| && Run(events).all[i].outcomes != []
    requires Run(events).all[i].outcomes[0].TimedOut?
    ensures n < |events| && events[n] == Fire(i) && i in Run(events[..n]).members
    ensures Run(events).all[i].outcomes[0].at == Run(events[..n]).now
    ensures forall k :: 0 <= k < n && IsActivity(events, k, i)
              ==> Run(events[..k]).now + Run(events).all[i].idleMs <= Run(events).all[i].outcomes[0].at
  {
    hide Run, Step, LastActivity;
    n := FiredAt(events, i);
    var before := events[..n];
    forall k | 0 <= k < n && IsActivity(events, k, i)
      ensures Run(events[..k]).now + Run(events).all[i].idleMs <= Run(before).now
    {
      assert before[..k] == events[..k];
      FireExact(before, i);
      LastActivityLatest(before, k, i);
    }
  }

  /** Some activity of the waiter lies less than one idle window in the past. */
  ghost predicate RecentlyActive(events: seq<Event>, i: nat) {
    var s := Run(events);
    i < |s.all| && exists k :: 0 <= k < |events| && IsActivity(events, k, i)
                               && s.now < Run(events[..k]).now + s.all[i].idleMs
  }

  /**
   A sync whose gaps all stay below the window never times out, however long it lasts: if at
   every moment it was pending some activity was recent, its outcome is not a timeout.
   */
  lemma SteadySyncNeverTimesOut(events: seq<Event>, i: nat)
    requires i < |Run(events).all|
    requires forall n :: 0 <= n <= |events| && i in Run(events[..n]).members ==> RecentlyActive(events[..n], i)
    ensures Run(events).all[i].outcomes == [] || !Run(events).all[i].outcomes[0].TimedOut?
  {
    hide Run, Step, LastActivity;
    if Run(events).all[i].outcomes != [] && Run(events).all[i].outcomes[0].TimedOut? {
      var n := FiredAt(events, i);
      var before := events[..n];
      assert RecentlyActive(before, i);
      var k :| 0 <= k < |before| && IsActivity(before, k, i)
               && Run(before).now < Run(before[..k]).now + Run(before).all[i].idleMs;
      FireExact(before, i);
      LastActivityLatest(before, k, i);
      assert false;
    }
  }

  // ----- what becomes of a waiter, read off the events -----

  /** The time that has passed. */
  function Clock(events: seq<Event>): nat {
    if events == [] then 0
    else
      var last := events[|events| - 1];
      Clock(events[..|events| - 1]) + if last.Tick? then last.elapsed else 0
  }

  /** How many waiters have been added. */
  function Added(events: seq<Event>): nat {
    if events == [] then 0
    else Added(events[..|events| - 1]) + if events[|events| - 1].Add? then 1 else 0
  }

  /** The time of the last progress after event `k`, or of event `k` itself. */
  function LastProgress(events: seq<Event>, k: nat): nat
    requires k < |events|
    decreases |events|
  {
    var n := |events| - 1;
    if n == k || events[n].Progress? then Clock(events[..n]) else LastProgress(events[..n], k)
  }

  /** What event `e`, at time `now`, does to waiter `i`, which has been idle since `since`. */
  function SettledBy(idleMs: nat, i: nat, since: nat, e: Event, now: nat): Option<Outcome> {
    match e
    case ResolveAll => Some(Resolved)
    case RejectAll => Some(Rejected)
    case Fire(j) => if j == i && since + idleMs <= now then Some(TimedOut(now)) else None
    case _ => None
  }

  /** The first outcome that the events after number `k` give the waiter added by it. */
  function FirstOutcome(events: seq<Event>, k: nat): Option<Outcome>
    requires k < |events| && events[k].Add?
    decreases |events|
  {
    var n := |events| - 1;
    if n == k then None
    else
      var before := FirstOutcome(events[..n], k);
      if before.Some? then before
      else SettledBy(events[k].idleMs, Added(events[..k]), LastProgress(events[..n], k), events[n], Clock(events[..n]))
  }

  lemma {:induction false} RunCounts(events: seq<Event>)
    ensures Run(events).now == Clock(events) && |Run(events).all| == Added(events)
  {
    if events != [] {
      RunCounts(events[..|events| - 1]);
    }
  }

  /** The waiter has the window asked for, is armed from `since` on, and is settled by `o` or not at all. */
  ghost predicate IsWaiter(w: Waiter, member: bool, idleMs: nat, since: nat, o: Option<Outcome>) {
    && w.idleMs == idleMs
    && (member <==> o.None?)
    && w.timer == (if o.None? then Some(since + idleMs) else None)
    && w.outcomes == if o.Some? then [o.value] else []
  }

  lemma WaiterStep(s: Waiters, e: Event, i: nat, idleMs: nat, since: nat, o: Option<Outcome>)
    requires i < |s.all| && IsWaiter(s.all[i], i in s.members, idleMs, since, o)
    ensures var t := Step(s, e);
            i < |t.all| && IsWaiter(t.all[i], i in t.members, idleMs, if e.Progress? then s.now else since,
                                    if o.Some? then o else SettledBy(idleMs, i, since, e, s.now))
  {
  }

  lemma NewWaiter(s: Waiters, add: Event)
    requires add.Add? && (forall i :: i in s.members ==> i < |s.all|)
    ensures var t := Step(s, add);
            |s.all| < |t.all| && IsWaiter(t.all[|s.all|], |s.all| in t.members, add.idleMs, s.now, None)
  {
  }

  /** How the books change with the last event. */
  lemma LastEvent(events: seq<Event>, k: nat)
    requires k + 1 < |events| && events[k].Add?
    ensures var n := |events| - 1; var front, e, now := events[..n], events[n], Clock(events[..n]);
            && Run(events) == Step(Run(front), e) && Run(front).now == now
            && front[..k] == events[..k] && front[k] == events[k]
            && LastProgress(events, k) == (if e.Progress? then now else LastProgress(front, k))
            && FirstOutcome(events, k)
               == if FirstOutcome(front, k).Some? then FirstOutcome(front, k)
                  else SettledBy(events[k].idleMs, Added(events[..k]), LastProgress(front, k), e, now)
  {
    hide Step, Clock, SettledBy;
    assert events[..|events| - 1][..k] == events[..k];
    RunCounts(events[..|events| - 1]);
  }

  lemma JustAdded(events: seq<Event>)
    requires events != [] && events[|events| - 1].Add?
    ensures var k := |events| - 1; var s, i := Run(events), Added(events[..k]);
            i < |s.all| && IsWaiter(s.all[i], i in s.members, events[k].idleMs, LastProgress(events, k),
                                    FirstOutcome(events, k))
  {
    hide Step, Clock, LastActivity, Consistent;
    var front := events[..|events| - 1];
    RunCounts(front);
    RunKeeps(front);
    NewWaiter(Run(front), events[|events| - 1]);
  }

  lemma {:induction false} WaiterRuns(events: seq<Event>, k: nat)
    requires k < |events| && events[k].Add?
    ensures var s, i := Run(events), Added(events[..k]);
            i < |s.all| && IsWaiter(s.all[i], i in s.members, events[k].idleMs, LastProgress(events, k),
                                    FirstOutcome(events, k))
    decreases |events|
  {
    hide Run, Step, SettledBy, LastProgress, FirstOutcome, Clock, Added, IsWaiter;
    var n := |events| - 1;
    if n == k {
      JustAdded(events);
    } else {
      var front := events[..n];
      LastEvent(events, k);
      WaiterRuns(front, k);
      WaiterStep(Run(front), events[n], Added(events[..k]), events[k].idleMs, LastProgress(front, k),
                 FirstOutcome(front, k));
    }
  }

  /**
   In every run, a waiter settles by the first event after its `add` that resolves or rejects all
   waiters, or is its timer at least the window it was given after the last progress, with that
   outcome and no other; until then it is pending.
   */
  lemma OutcomeExactly(events: seq<Event>, k: nat)
    requires k < |events| && events[k].Add?
    ensures var s, i, o := Run(events), Added(events[..k]), FirstOutcome(events, k);
            && i < |s.all|
            && (i in s.members <==> o.None?)
            && s.all[i].outcomes == if o.Some? then [o.value] else []
  {
    hide Run, FirstOutcome, LastProgress;
    WaiterRuns(events, k);
  }

  /** Completion and teardown leave nothing pending and settle exactly the waiters that were. */
  lemma AllSettled(events: seq<Event>, resolve: bool, i: nat)
    requires i < |Run(events).all|
    ensures var s := Run(events); var t := Step(s, if resolve then ResolveAll else RejectAll);
            && t.members == {} && |t.all| == |s.all|
            && t.all[i].outcomes
               == if i in s.members then [if resolve then Resolved else Rejected] else s.all[i].outcomes
  {
    hide Run, LastActivity;
    RunKeeps(events);
  }

  // ----- the class -----

  class ParameterSyncWaiterSet {
    var now: nat
    var all: seq<Waiter>
    var members: set<nat>

    ghost function View(): Waiters
      reads this
    {
      Waiters(now, all, members)
    }

    constructor ()
      ensures View() == Fresh
    {
      now, all, members := 0, [], {};
    }

    method AddWaiter(idleMs: nat)
      modifies this
      ensures View() == Step(old(View()), Add(idleMs))
    {
      members := members + {|all|};
      all := all + [Arm(Waiter(idleMs, None, []), now)];
    }

    /** `noteProgress()`: clears and re-arms the timer of every member. */
    method NoteProgress()
      requires forall i :: i in members ==> i < |all|
      modifies this`all
      ensures View() == Step(old(View()), Progress)
    {
      var todo := members;
      while todo != {}
        invariant todo <= members && |all| == |old(all)|
        invariant forall i :: 0 <= i < |all| ==>
                    all[i] == if i in members - todo then Arm(old(all)[i], now) else old(all)[i]
      {
        var i :| i in todo;
        todo := todo - {i};
        all := all[i := Arm(all[i], now)];
      }
    }

    method SettleEach(o: Outcome)
      requires forall i :: i in members ==> i < |all|
      modifies this
      ensures View() == SettleThose(old(View()), old(members), o)
    {
      var todo := members;
      while todo != {}
        invariant todo <= members == old(members) && |all| == |old(all)| && now == old(now)
        invariant forall i :: 0 <= i < |all| ==>
                    all[i] == if i in members - todo then Settle(old(all)[i], o) else old(all)[i]
      {
        var i :| i in todo;
        todo := todo - {i};
        all := all[i := Settle(all[i], o)];
      }
      members := {};
    }

    /** The idle timer's callback; the runtime calls it only for an armed timer whose deadline has passed. */
    method OnTimer(i: nat)
      requires i < |all| && all[i].timer.Some? && all[i].timer.value <= now
      modifies this
      ensures View() == Step(old(View()), Fire(i))
    {
      members := members - {i};
      all := all[i := Settle(all[i], TimedOut(now))];
    }
  }
}
