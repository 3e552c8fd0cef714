/**
 `NativeSerialTransport`: concurrent `connect()` and `disconnect()` calls over serial ports.

 Every stretch of code between two awaits is one atomic step, and so is every port callback.
 A promise that settles does not run its continuation at once, so "the port opened" and "the
 attempt continues" are different steps with anything in between. The state keeps every attempt
 and every disconnect in flight: that at most one attempt runs is proved, not assumed.
 */
module SerialTransport {
  import opened Collections

  datatype Status = Idle | Connecting | Connected | Disconnected | Error

  /** Where one `doConnect()` is: the three waits, a rejection on its way to `catch`, or settled before `finally`. */
  datatype Attempt = Opening(port: nat) | Opened(port: nat) | Aborting(port: nat) | Failing | Settled

  /** Where one `disconnect()` is: waiting for an attempt, waiting for `close`, or about to report. */
  datatype Teardown = AwaitingConnect(attempt: nat) | Closing(port: nat) | Reporting

  /**
   The fields of the class, the calls in flight and the operating system's view (`open`).
   The fields from `everOpened` on are history: ports ever opened, `close` calls made, ports whose
   `close` failed, ports with listeners, attempts overlapped by a disconnect, attempts that
   published, disconnects that rejected, and the last call when it was a disconnect.
   */
  datatype Transport = Transport(
    status: Status, port: Option<nat>, connectPromise: Option<nat>, intentionalDisconnect: bool,
    attempts: map<nat, Attempt>, teardowns: map<nat, Teardown>,
    nextPort: nat, nextCall: nat, open: set<nat>,
    everOpened: set<nat>, closeCalls: seq<nat>, failed: set<nat>, listening: set<nat>,
    aborted: set<nat>, published: set<nat>, rejected: set<nat>, last: Option<nat>)

  const Fresh: Transport :=
    Transport(Idle, None, None, false, map[], map[], 0, 0, {}, {}, [], {}, {}, {}, {}, {}, None)

  datatype Event =
    | Connect(created: bool)
    | OpenResult(attempt: nat, ok: bool)
    | Continue(attempt: nat)
    | AbortClosed(attempt: nat, ok: bool)
    | Finally(attempt: nat)
    | Disconnect
    | ResumeDisconnect(call: nat)
    | CloseResult(call: nat, ok: bool)
    | Report(call: nat)
    | PortLost(lost: nat)
    | PortCloseEvent(source: nat)
    | PortErrorEvent(source: nat)

  predicate InFlight(a: Attempt) {
    !a.Settled?
  }

  predicate HasPort(a: Attempt) {
    a.Opening? || a.Opened? || a.Aborting?
  }

  /** The `catch` block of `doConnect`. */
  function FailAttempt(s: Transport, a: nat): Transport {
    s.(port := None,
       status := if s.intentionalDisconnect then s.status else Error,
       attempts := s.attempts[a := Settled])
  }

  /** The part of `disconnect()` after the wait: take the port off the field, then close it. */
  function TakePort(s: Transport, d: nat): Transport {
    match s.port
    case None => s.(status := Disconnected, teardowns := s.teardowns - {d})
    case Some(p) =>
      s.(port := None, closeCalls := s.closeCalls + [p], teardowns := s.teardowns[d := Closing(p)])
  }

  function StartConnect(s: Transport, created: bool): Transport {
    var a := s.nextCall;
    var t := s.(last := None);
    if s.port.Some? && s.port.value in s.open then t
    else if s.connectPromise.Some? then t
    else
      var u := t.(status := Connecting, intentionalDisconnect := false, connectPromise := Some(a), nextCall := a + 1);
      if created then u.(attempts := u.attempts[a := Opening(u.nextPort)], nextPort := u.nextPort + 1)
      else FailAttempt(u, a)
  }

  function ContinueAttempt(s: Transport, a: nat): Transport
    requires a in s.attempts
  {
    match s.attempts[a]
    case Opened(p) =>
      if s.intentionalDisconnect then
        s.(closeCalls := s.closeCalls + [p], attempts := s.attempts[a := Aborting(p)])
      else
        s.(listening := s.listening + {p}, port := Some(p), status := Connected,
           published := s.published + {a}, attempts := s.attempts[a := Settled])
    case Failing => FailAttempt(s, a)
    case _ => s
  }

  function StartDisconnect(s: Transport): Transport {
    var d := s.nextCall;
    var t := s.(intentionalDisconnect := true, nextCall := d + 1, last := Some(d),
                aborted := s.aborted + set a | a in s.attempts && InFlight(s.attempts[a]));
    match s.connectPromise
    case Some(a) => t.(teardowns := t.teardowns[d := AwaitingConnect(a)])
    case None => TakePort(t, d)
  }

  /** A step that the state does not enable leaves it as it is. */
  function Step(s: Transport, e: Event): Transport {
    match e
    case Connect(created) => StartConnect(s, created)
    case OpenResult(a, ok) =>
      if a in s.attempts && s.attempts[a].Opening? then
        var p := s.attempts[a].port;
        if ok then s.(open := s.open + {p}, everOpened := s.everOpened + {p}, attempts := s.attempts[a := Opened(p)])
        else s.(attempts := s.attempts[a := Failing])
      else s
    case Continue(a) => if a in s.attempts then ContinueAttempt(s, a) else s
    case AbortClosed(a, ok) =>
      if a in s.attempts && s.attempts[a].Aborting? then
        var p := s.attempts[a].port;
        var t := s.(attempts := s.attempts[a := Failing]);
        if ok then t.(open := t.open - {p}) else t.(failed := t.failed + {p})
      else s
    case Finally(a) =>
      if a in s.attempts && s.attempts[a].Settled? then
        s.(attempts := s.attempts - {a}, connectPromise := None)
      else s
    case Disconnect => StartDisconnect(s)
    case ResumeDisconnect(d) =>
      if d in s.teardowns && s.teardowns[d].AwaitingConnect? && s.teardowns[d].attempt !in s.attempts
      then TakePort(s, d)
      else s
    case CloseResult(d, ok) =>
      if d in s.teardowns && s.teardowns[d].Closing? then
        var p := s.teardowns[d].port;
        if ok then s.(open := s.open - {p}, teardowns := s.teardowns[d := Reporting])
        else s.(failed := s.failed + {p}, rejected := s.rejected + {d}, teardowns := s.teardowns - {d})
      else s
    case Report(d) =>
      if d in s.teardowns && s.teardowns[d].Reporting? then
        s.(status := Disconnected, teardowns := s.teardowns - {d})
      else s
    case PortLost(p) => s.(open := s.open - {p})
    case PortCloseEvent(p) =>
      if p in s.listening && s.status == Connected then s.(status := Disconnected) else s
    case PortErrorEvent(p) => if p in s.listening then s.(status := Error) else s
  }

  function Run(s: Transport, events: seq<Event>): Transport {
    if events == [] then s else Step(Run(s, events[..|events| - 1]), events[|events| - 1])
  }

  // ----- invariants -----

  datatype Holder = ByAttempt(attempt: nat) | ByField | ByTeardown(call: nat)

  ghost predicate Holds(s: Transport, h: Holder, p: nat) {
    match h
    case ByAttempt(a) => a in s.attempts && HasPort(s.attempts[a]) && s.attempts[a].port == p
    case ByField => s.port == Some(p)
    case ByTeardown(d) => d in s.teardowns && s.teardowns[d] == Closing(p)
  }

  /** The latch names exactly the attempt that has not passed its `finally`, and there is at most one. */
  ghost predicate Latched(s: Transport) {
    && s.attempts.Keys == (if s.connectPromise.Some? then {s.connectPromise.value} else {})
    && (forall a :: a in s.attempts || a in s.teardowns || a in s.aborted || a in s.published || a in s.rejected
                    ==> a < s.nextCall)
  }

  /** No port has two holders, and every open port has one unless its `close` failed. */
  ghost predicate Owned(s: Transport) {
    && (forall h, g, p: nat :: Holds(s, h, p) && Holds(s, g, p) ==> h == g)
    && (forall p :: p in s.open && p !in s.failed ==> exists h :: Holds(s, h, p))
    && (forall h, p: nat :: Holds(s, h, p) ==> p < s.nextPort)
    && (forall p :: p in s.open ==> p in s.everOpened)
    && (forall p: nat :: p in s.everOpened || p in s.closeCalls ==> p < s.nextPort)
  }

  /** A port is closed at most once, and one that could still be used has not been closed. */
  ghost predicate ClosedOnce(s: Transport) {
    && (forall i, j :: 0 <= i < j < |s.closeCalls| ==> s.closeCalls[i] != s.closeCalls[j])
    && (forall a :: a in s.attempts && (s.attempts[a].Opening? || s.attempts[a].Opened?)
                    ==> s.attempts[a].port !in s.closeCalls)
    && (s.port.Some? ==> s.port.value !in s.closeCalls)
  }

  /** While an attempt is in flight the field holds no open port, so overwriting it loses nothing. */
  ghost predicate FieldDead(s: Transport) {
    && (forall a :: a in s.attempts && InFlight(s.attempts[a]) && s.port.Some? ==> s.port.value !in s.open)
    && (forall a :: a in s.attempts && s.attempts[a].Opening? ==> s.attempts[a].port !in s.everOpened)
  }

  /** An attempt overlapped by a disconnect runs under a raised flag until it settles. */
  ghost predicate AbortsSeen(s: Transport) {
    && (forall a :: a in s.attempts && InFlight(s.attempts[a]) && a in s.aborted ==> s.intentionalDisconnect)
    && (forall a :: a in s.attempts && InFlight(s.attempts[a]) ==> a !in s.published)
    && s.aborted * s.published == {}
  }

  /** After a disconnect that is still the last call made: what is left for it to do. */
  ghost predicate LastDisconnect(s: Transport) {
    s.last.Some? ==>
      var d := s.last.value;
      && d < s.nextCall
      && s.intentionalDisconnect
      && ((d in s.teardowns && s.teardowns[d].AwaitingConnect? && s.attempts.Keys <= {s.teardowns[d].attempt})
          || (s.port == None && s.attempts == map[]))
      && (d !in s.teardowns && d !in s.rejected ==> s.status == Disconnected || s.status == Error)
  }

  ghost predicate Inv(s: Transport) {
    Latched(s) && Owned(s) && ClosedOnce(s) && FieldDead(s) && AbortsSeen(s) && LastDisconnect(s)
  }

  // ----- each kind of step keeps them -----

  /** Ownership survives a step that adds no holder and drops only holders of ports that are closed or failed. */
  lemma HoldersKept(s: Transport, t: Transport)
    requires Owned(s) && t.open <= s.open && s.failed <= t.failed && t.everOpened == s.everOpened
    requires s.nextPort == t.nextPort && forall p :: p in t.closeCalls ==> p < t.nextPort
    requires forall h, p: nat :: Holds(t, h, p) ==> Holds(s, h, p)
    requires forall h, p: nat :: Holds(s, h, p) && p in t.open && p !in t.failed ==> Holds(t, h, p)
    ensures Owned(t)
  {
    forall p | p in t.open && p !in t.failed
      ensures exists h :: Holds(t, h, p)
    {
      var h :| Holds(s, h, p);
      assert Holds(t, h, p);
    }
  }

  /** The port in the field is not the port of any attempt. */
  lemma FieldApart(s: Transport)
    requires Owned(s) && s.port.Some?
    ensures forall a :: a in s.attempts && HasPort(s.attempts[a]) ==> s.attempts[a].port != s.port.value
    ensures s.port.value < s.nextPort
  {
    assert Holds(s, ByField, s.port.value);
    forall a | a in s.attempts && HasPort(s.attempts[a])
      ensures s.attempts[a].port != s.port.value
    {
      assert Holds(s, ByAttempt(a), s.attempts[a].port);
    }
  }

  lemma ConnectOwned(s: Transport, created: bool)
    requires Owned(s) && Latched(s) && FieldDead(s)
    ensures Owned(StartConnect(s, created))
  {
    var t := StartConnect(s, created);
    if t.nextPort == s.nextPort {
      HoldersKept(s, t);
    } else {
      var a := s.nextCall;
      assert forall h, p: nat :: Holds(t, h, p) <==> Holds(s, h, p) || (h == ByAttempt(a) && p == s.nextPort);
      forall p | p in t.open && p !in t.failed
        ensures exists h :: Holds(t, h, p)
      {
        var h :| Holds(s, h, p);
        assert Holds(t, h, p);
      }
    }
  }

  lemma BeginLatched(s: Transport, created: bool)
    requires Latched(s) && s.connectPromise.None?
    ensures Latched(StartConnect(s, created))
  {
  }

  lemma BeginClosedOnce(s: Transport, created: bool)
    requires Latched(s) && ClosedOnce(s) && s.nextPort !in s.closeCalls
    ensures ClosedOnce(StartConnect(s, created))
  {
    hide Latched;
  }

  lemma BeginFieldDead(s: Transport, created: bool)
    requires Latched(s) && FieldDead(s) && s.nextPort !in s.everOpened
    ensures FieldDead(StartConnect(s, created))
  {
  }

  lemma BeginAbortsSeen(s: Transport, created: bool)
    requires Latched(s) && AbortsSeen(s)
    ensures AbortsSeen(StartConnect(s, created))
  {
  }

  lemma ConnectKeeps(s: Transport, created: bool)
    requires Inv(s)
    ensures Inv(Step(s, Connect(created)))
  {
    ConnectOwned(s, created);
    assert forall p :: p in s.closeCalls || p in s.everOpened ==> p < s.nextPort;
    hide Owned, StartConnect;
    BeginClosedOnce(s, created);
    BeginFieldDead(s, created);
    BeginAbortsSeen(s, created);
    hide ClosedOnce, FieldDead, AbortsSeen;
    assert StartConnect(s, created).last == None by { BeginLast(s, created); }
    if s.connectPromise.None? {
      BeginLatched(s, created);
    } else {
      JoinLatched(s, created);
    }
  }

  lemma BeginLast(s: Transport, created: bool)
    ensures StartConnect(s, created).last == None
  {
  }

  lemma JoinLatched(s: Transport, created: bool)
    requires Latched(s) && s.connectPromise.Some?
    ensures Latched(StartConnect(s, created))
  {
  }

  lemma OpenOwned(s: Transport, a: nat)
    requires Owned(s) && a in s.attempts && s.attempts[a].Opening?
    ensures Owned(Step(s, OpenResult(a, true)))
  {
    var t := Step(s, OpenResult(a, true));
    var q := s.attempts[a].port;
    assert Holds(s, ByAttempt(a), q);
    assert forall h, p: nat :: Holds(t, h, p) <==> Holds(s, h, p);
    forall p | p in t.open && p !in t.failed
      ensures exists h :: Holds(t, h, p)
    {
      var h :| if p == q then h == ByAttempt(a) else Holds(s, h, p);
      assert Holds(t, h, p);
    }
  }

  lemma OpenResultKeeps(s: Transport, a: nat, ok: bool)
    requires Inv(s)
    ensures Inv(Step(s, OpenResult(a, ok)))
  {
    var t := Step(s, OpenResult(a, ok));
    if a in s.attempts && s.attempts[a].Opening? {
      assert s.attempts.Keys == {a};
      if ok {
        OpenOwned(s, a);
      } else {
        HoldersKept(s, t);
      }
      if s.port.Some? {
        FieldApart(s);
      }
    }
    hide Owned;
  }

  lemma PublishOwned(s: Transport, a: nat)
    requires Owned(s) && FieldDead(s) && a in s.attempts && s.attempts[a].Opened? && !s.intentionalDisconnect
    ensures Owned(ContinueAttempt(s, a))
  {
    var t := ContinueAttempt(s, a);
    var q := s.attempts[a].port;
    assert Holds(s, ByAttempt(a), q);
    forall p | p in t.open && p !in t.failed
      ensures exists h :: Holds(t, h, p)
    {
      var h :| Holds(s, h, p);
      assert Holds(t, if p == q then ByField else h, p);
    }
    assert forall h :: Holds(s, h, q) ==> h == ByAttempt(a);
    assert forall h, p: nat :: Holds(t, h, p) ==> if h == ByField then p == q else Holds(s, h, p) && h != ByAttempt(a);
  }

  lemma PublishKeeps(s: Transport, a: nat)
    requires Inv(s) && a in s.attempts && s.attempts[a].Opened? && !s.intentionalDisconnect
    ensures Inv(ContinueAttempt(s, a))
  {
    PublishOwned(s, a);
    hide Owned;
    assert s.attempts.Keys == {a};
  }

  lemma SelfAbortKeeps(s: Transport, a: nat)
    requires Inv(s) && a in s.attempts && s.attempts[a].Opened? && s.intentionalDisconnect
    ensures Inv(ContinueAttempt(s, a))
  {
    var t := ContinueAttempt(s, a);
    assert Holds(s, ByAttempt(a), s.attempts[a].port);
    HoldersKept(s, t);
    if s.port.Some? {
      FieldApart(s);
    }
    hide Owned;
    assert s.attempts.Keys == {a};
  }

  lemma FailKeeps(s: Transport, a: nat)
    requires Inv(s) && a in s.attempts && s.attempts[a].Failing?
    ensures Inv(ContinueAttempt(s, a))
  {
    HoldersKept(s, ContinueAttempt(s, a));
    hide Owned;
    assert s.attempts.Keys == {a};
  }

  lemma ContinueKeeps(s: Transport, a: nat)
    requires Inv(s)
    ensures Inv(Step(s, Continue(a)))
  {
    hide Inv;
    if a in s.attempts {
      match s.attempts[a]
      case Opened(p) =>
        if s.intentionalDisconnect {
          SelfAbortKeeps(s, a);
        } else {
          PublishKeeps(s, a);
        }
      case Failing => FailKeeps(s, a);
      case _ =>
    }
  }

  lemma AbortClosedKeeps(s: Transport, a: nat, ok: bool)
    requires Inv(s)
    ensures Inv(Step(s, AbortClosed(a, ok)))
  {
    if a in s.attempts && s.attempts[a].Aborting? {
      assert Holds(s, ByAttempt(a), s.attempts[a].port);
      assert s.attempts.Keys == {a};
      HoldersKept(s, Step(s, AbortClosed(a, ok)));
    }
    hide Owned;
  }

  lemma FinallyKeeps(s: Transport, a: nat)
    requires Inv(s)
    ensures Inv(Step(s, Finally(a)))
  {
    var t := Step(s, Finally(a));
    HoldersKept(s, t);
    hide Owned;
    assert t.attempts == map[] || t == s;
  }

  lemma TakeOwned(s: Transport, d: nat)
    requires Owned(s) && (d in s.teardowns ==> s.teardowns[d].AwaitingConnect?)
    ensures Owned(TakePort(s, d))
  {
    var t := TakePort(s, d);
    if s.port.Some? {
      var q := s.port.value;
      assert Holds(s, ByField, q);
      forall p | p in t.open && p !in t.failed
        ensures exists h :: Holds(t, h, p)
      {
        var h :| Holds(s, h, p);
        assert Holds(t, if h == ByField then ByTeardown(d) else h, p);
      }
      assert forall h, p: nat :: Holds(t, h, p) ==>
               if h == ByTeardown(d) then p == q else Holds(s, h, p) && h != ByField;
    } else {
      HoldersKept(s, t);
    }
  }

  lemma TakePortKeeps(s: Transport, d: nat)
    requires Inv(s) && d < s.nextCall
    requires d in s.teardowns ==> s.teardowns[d].AwaitingConnect? && s.teardowns[d].attempt !in s.attempts
    ensures Inv(TakePort(s, d))
  {
    TakeOwned(s, d);
    if s.port.Some? {
      FieldApart(s);
    }
    hide Owned;
  }

  /** The call is made and the flag is up; what the call does next is still open. */
  function Raised(s: Transport): Transport {
    s.(intentionalDisconnect := true, nextCall := s.nextCall + 1, last := None,
       aborted := s.aborted + set a | a in s.attempts && InFlight(s.attempts[a]))
  }

  lemma RaisedKeeps(s: Transport)
    requires Inv(s)
    ensures Inv(Raised(s))
  {
    HoldersKept(s, Raised(s));
    hide Owned;
  }

  lemma WaitKeeps(s: Transport, a: nat)
    requires Inv(s) && s.connectPromise == Some(a)
    ensures Inv(Step(s, Disconnect))
  {
    RaisedKeeps(s);
    HoldersKept(Raised(s), Step(s, Disconnect));
    hide Owned, InFlight;
  }

  /** Recording the last call keeps everything but what is said of it. */
  lemma LastRecorded(s: Transport, d: nat)
    requires Inv(s) && LastDisconnect(s.(last := Some(d)))
    ensures Inv(s.(last := Some(d)))
  {
    HoldersKept(s, s.(last := Some(d)));
    hide Owned, LastDisconnect, InFlight;
  }

  lemma TakenLast(t: Transport, d: nat)
    requires t.intentionalDisconnect && t.attempts == map[] && d < t.nextCall && d !in t.teardowns
    ensures LastDisconnect(TakePort(t, d).(last := Some(d)))
  {
  }

  lemma DisconnectKeeps(s: Transport)
    requires Inv(s)
    ensures Inv(Step(s, Disconnect))
  {
    if s.connectPromise.Some? {
      WaitKeeps(s, s.connectPromise.value);
    } else {
      var d, t := s.nextCall, Raised(s);
      RaisedKeeps(s);
      assert d !in t.teardowns && t.attempts == map[];
      hide Inv;
      TakePortKeeps(t, d);
      TakenLast(t, d);
      LastRecorded(TakePort(t, d), d);
      assert Step(s, Disconnect) == TakePort(t, d).(last := Some(d));
    }
  }

  lemma ResumeKeeps(s: Transport, d: nat)
    requires Inv(s)
    ensures Inv(Step(s, ResumeDisconnect(d)))
  {
    if d in s.teardowns && s.teardowns[d].AwaitingConnect? && s.teardowns[d].attempt !in s.attempts {
      TakePortKeeps(s, d);
    }
  }

  lemma CloseResultKeeps(s: Transport, d: nat, ok: bool)
    requires Inv(s)
    ensures Inv(Step(s, CloseResult(d, ok)))
  {
    if d in s.teardowns && s.teardowns[d].Closing? {
      assert Holds(s, ByTeardown(d), s.teardowns[d].port);
      HoldersKept(s, Step(s, CloseResult(d, ok)));
    }
    hide Owned;
  }

  lemma ReportKeeps(s: Transport, d: nat)
    requires Inv(s)
    ensures Inv(Step(s, Report(d)))
  {
    HoldersKept(s, Step(s, Report(d)));
    hide Owned;
  }

  lemma LostKeeps(s: Transport, p: nat)
    requires Inv(s)
    ensures Inv(Step(s, PortLost(p)))
  {
    HoldersKept(s, Step(s, PortLost(p)));
    hide Owned, InFlight;
  }

  /** The listeners touch the status only. */
  lemma ListenerKeeps(s: Transport, e: Event)
    requires Inv(s) && (e.PortCloseEvent? || e.PortErrorEvent?)
    ensures Inv(Step(s, e))
  {
    var t := Step(s, e);
    assert t == s.(status := t.status) && (t == s || t.status == Disconnected || t.status == Error);
    hide Step;
    HoldersKept(s, t);
    hide Owned, InFlight;
  }

  lemma StepKeeps(s: Transport, e: Event)
    requires Inv(s)
    ensures Inv(Step(s, e))
  {
    hide Inv, Step;
    match e
    case Connect(created) => ConnectKeeps(s, created);
    case OpenResult(a, ok) => OpenResultKeeps(s, a, ok);
    case Continue(a) => ContinueKeeps(s, a);
    case AbortClosed(a, ok) => AbortClosedKeeps(s, a, ok);
    case Finally(a) => FinallyKeeps(s, a);
    case Disconnect => DisconnectKeeps(s);
    case ResumeDisconnect(d) => ResumeKeeps(s, d);
    case CloseResult(d, ok) => CloseResultKeeps(s, d, ok);
    case Report(d) => ReportKeeps(s, d);
    case PortLost(p) => LostKeeps(s, p);
    case _ => ListenerKeeps(s, e);
  }

  /** The invariant holds in every run of calls, callbacks and port failures. */
  lemma {:induction false} RunKeeps(events: seq<Event>)
    ensures Inv(Run(Fresh, events))
  {
    hide Step;
    if events != [] {
      hide Inv;
      RunKeeps(events[..|events| - 1]);
      StepKeeps(Run(Fresh, events[..|events| - 1]), events[|events| - 1]);
    }
  }

  // ----- what every run guarantees -----

  /** Every open port whose `close` has not failed is held in exactly one place. */
  lemma SingleOwner(events: seq<Event>, p: nat)
    requires var s := Run(Fresh, events); p in s.open && p !in s.failed
    ensures var s := Run(Fresh, events);
            exists h :: Holds(s, h, p) && forall g :: Holds(s, g, p) ==> g == h
  {
    hide Run;
    RunKeeps(events);
    var s := Run(Fresh, events);
    var h :| Holds(s, h, p);
    assert forall g :: Holds(s, g, p) ==> g == h;
  }

  /** This class never calls `close` twice on one port. */
  lemma NeverClosesTwice(events: seq<Event>, i: nat, j: nat)
    requires i < j < |Run(Fresh, events).closeCalls|
    ensures Run(Fresh, events).closeCalls[i] != Run(Fresh, events).closeCalls[j]
  {
    hide Run;
    RunKeeps(events);
  }

  /** At most one attempt exists, and the latch is its id until its `finally` has run. */
  lemma OneAttempt(events: seq<Event>, a: nat)
    requires a in Run(Fresh, events).attempts
    ensures Run(Fresh, events).attempts.Keys == {a} && Run(Fresh, events).connectPromise == Some(a)
  {
    hide Run;
    RunKeeps(events);
  }

  /** While an attempt exists the abort flag can only rise. */
  lemma FlagOnlyRises(events: seq<Event>, e: Event)
    requires var s := Run(Fresh, events); s.attempts != map[] && s.intentionalDisconnect
    ensures Step(Run(Fresh, events), e).intentionalDisconnect
  {
    hide Run;
    RunKeeps(events);
  }

  ghost predicate Quiescent(s: Transport) {
    s.attempts == map[] && s.teardowns == map[]
  }

  /**
   Once every call has settled and the last one made was a disconnect, the field is empty and
   the only ports still open are ones whose `close` failed. Unless that very disconnect was rejected
   by a failing `close`, the status is `Disconnected`, or `Error` if a port has reported an error since.
   */
  lemma SettledDisconnect(events: seq<Event>)
    requires var s := Run(Fresh, events); Quiescent(s) && s.last.Some?
    ensures var s := Run(Fresh, events);
            && s.port == None && s.open <= s.failed
            && (s.last.value !in s.rejected ==>
                  s.status == Disconnected || (s.status == Error && LastMark(events) == Some(PortFailed)))
  {
    hide Run, LastMark;
    RunKeeps(events);
    var s := Run(Fresh, events);
    forall p | p in s.open
      ensures p in s.failed
    {
      assert !exists h :: Holds(s, h, p);
    }
    StatusExactly(events);
    if s.last.value !in s.rejected {
      SettledEnds(events);
    }
  }

  /** Ports that are open, not failed and not being closed by a disconnect: there is at most one. */
  lemma AtMostOneLive(events: seq<Event>, p: nat, q: nat)
    requires var s := Run(Fresh, events);
             && {p, q} <= s.open - s.failed
             && forall d :: d in s.teardowns ==> s.teardowns[d] != Closing(p) && s.teardowns[d] != Closing(q)
    ensures p == q
  {
    hide Run;
    RunKeeps(events);
    var s := Run(Fresh, events);
    var h :| Holds(s, h, p);
    var g :| Holds(s, g, q);
  }

  const OverlapTrace: seq<Event> :=
    [Connect(true), OpenResult(0, true), Continue(0), Finally(0), Disconnect, Connect(true), OpenResult(2, true)]

  /** Without that proviso two ports can be open at once: a connect during a pending close opens a second one. */
  lemma TwoPortsOpen()
    ensures Run(Fresh, OverlapTrace).open == {0, 1}
  {
    var states := OverlapStates();
    hide Step;
    var t := OverlapTrace;
    assert t[..0] == [] && t[..7] == t;
    RunPrefix(Fresh, t, 0);
    RunPrefix(Fresh, t, 1);
    RunPrefix(Fresh, t, 2);
    RunPrefix(Fresh, t, 3);
    RunPrefix(Fresh, t, 4);
    RunPrefix(Fresh, t, 5);
    RunPrefix(Fresh, t, 6);
  }

  lemma RunPrefix(s: Transport, events: seq<Event>, k: nat)
    requires k < |events|
    ensures Run(s, events[..k + 1]) == Step(Run(s, events[..k]), events[k])
  {
    hide Step;
    assert events[..k + 1][..k] == events[..k];
  }

  lemma OverlapStates() returns (states: seq<Transport>)
    ensures |states| == 8 && states[0] == Fresh && states[7].open == {0, 1}
    ensures forall i :: 0 <= i < 7 ==> states[i + 1] == Step(states[i], OverlapTrace[i])
  {
    var s1 := Step(Fresh, Connect(true));
    assert s1.attempts == map[0 := Opening(0)] && s1.nextCall == 1 && s1.nextPort == 1;
    var s2 := Step(s1, OpenResult(0, true));
    var s3 := Step(s2, Continue(0));
    var s4 := Step(s3, Finally(0));
    assert s4.attempts == map[] && s4.port == Some(0) && s4.connectPromise == None;
    var s5 := Step(s4, Disconnect);
    assert s5.port == None && s5.nextCall == 2;
    var s6 := Step(s5, Connect(true));
    assert s6.attempts == map[2 := Opening(1)];
    var s7 := Step(s6, OpenResult(2, true));
    states := [Fresh, s1, s2, s3, s4, s5, s6, s7];
  }

  // ----- when two ports are open -----

  ghost predicate BeingClosed(s: Transport, p: nat) {
    exists d :: d in s.teardowns && s.teardowns[d] == Closing(p)
  }

  /** Attempt `e.attempt` opens its port. */
  predicate Opens(s: Transport, e: Event) {
    e.OpenResult? && e.ok && e.attempt in s.attempts && s.attempts[e.attempt].Opening?
  }

  /** The step opens a port while another one is open. */
  ghost predicate OpensBeside(s: Transport, e: Event) {
    var t := Step(s, e);
    exists p: nat, q: nat :: p in t.open && p !in s.open && q in t.open && q != p
  }

  lemma OnlyOpeningOpens(s: Transport, e: Event)
    ensures Step(s, e).open <= if Opens(s, e) then s.open + {s.attempts[e.attempt].port} else s.open
    ensures Opens(s, e) ==> Step(s, e).open == s.open + {s.attempts[e.attempt].port}
  {
  }

  /** While an attempt opens, an open port is one whose `close` failed or is pending. */
  lemma OthersClosing(s: Transport, a: nat, q: nat)
    requires Inv(s) && a in s.attempts && s.attempts[a].Opening? && q in s.open
    ensures q != s.attempts[a].port && (q in s.failed || BeingClosed(s, q))
  {
    assert s.attempts.Keys == {a};
    if q !in s.failed {
      var h :| Holds(s, h, q);
      assert h.ByTeardown?;
    }
  }

  /**
   In every reachable state a step opens a port beside another open one exactly when an attempt's
   `open` succeeds while some open port is still being closed by a disconnect, or failed to close.
   */
  lemma SecondPortExactly(events: seq<Event>, e: Event)
    ensures var s := Run(Fresh, events);
            OpensBeside(s, e) <==> Opens(s, e) && exists q :: q in s.open && (q in s.failed || BeingClosed(s, q))
  {
    hide Run, Step, BeingClosed;
    RunKeeps(events);
    var s := Run(Fresh, events);
    OnlyOpeningOpens(s, e);
    if Opens(s, e) {
      var p := s.attempts[e.attempt].port;
      assert p !in s.open by { OpeningIsNew(s, e.attempt); }
      if q :| q in s.open && (q in s.failed || BeingClosed(s, q)) {
        assert p in Step(s, e).open && q in Step(s, e).open;
      }
      if OpensBeside(s, e) {
        var r: nat, q: nat :| r in Step(s, e).open && r !in s.open && q in Step(s, e).open && q != r;
        OthersClosing(s, e.attempt, q);
      }
    }
  }

  lemma OpeningIsNew(s: Transport, a: nat)
    requires Inv(s) && a in s.attempts && s.attempts[a].Opening?
    ensures s.attempts[a].port !in s.open
  {
  }

  // ----- the history, read off the events -----

  /** What the history fields record. */
  datatype Fact =
    | IsPublished(attempt: nat)
    | IsOverlapped(attempt: nat)
    | HasListeners(port: nat)
    | WasOpened(port: nat)
    | FailedToClose(port: nat)
    | IsRejected(call: nat)

  predicate Recorded(s: Transport, f: Fact) {
    match f
    case IsPublished(a) => a in s.published
    case IsOverlapped(a) => a in s.aborted
    case HasListeners(p) => p in s.listening
    case WasOpened(p) => p in s.everOpened
    case FailedToClose(p) => p in s.failed
    case IsRejected(d) => d in s.rejected
  }

  /** The step makes it a fact. */
  predicate Brings(s: Transport, e: Event, f: Fact) {
    match f
    case IsPublished(a) => e == Continue(a) && Publishing(s, e)
    case IsOverlapped(a) => e.Disconnect? && a in s.attempts && InFlight(s.attempts[a])
    case HasListeners(p) => Publishing(s, e) && s.attempts[e.attempt].port == p
    case WasOpened(p) => Opens(s, e) && s.attempts[e.attempt].port == p
    case FailedToClose(p) =>
      || (e.CloseResult? && !e.ok && e.call in s.teardowns && s.teardowns[e.call] == Closing(p))
      || (e.AbortClosed? && !e.ok && e.attempt in s.attempts && s.attempts[e.attempt] == Aborting(p))
    case IsRejected(d) => e == CloseResult(d, false) && d in s.teardowns && s.teardowns[d].Closing?
  }

  lemma CallFact(s: Transport, e: Event, f: Fact)
    requires e.Connect? || e.Disconnect? || e.ResumeDisconnect?
    ensures Recorded(Step(s, e), f) <==> Recorded(s, f) || Brings(s, e, f)
  {
  }

  lemma OtherFact(s: Transport, e: Event, f: Fact)
    requires !e.Connect? && !e.Disconnect? && !e.ResumeDisconnect?
    ensures Recorded(Step(s, e), f) <==> Recorded(s, f) || Brings(s, e, f)
  {
  }

  lemma FactStep(s: Transport, e: Event, f: Fact)
    ensures Recorded(Step(s, e), f) <==> Recorded(s, f) || Brings(s, e, f)
  {
    hide Step, Recorded, Brings;
    if e.Connect? || e.Disconnect? || e.ResumeDisconnect? {
      CallFact(s, e, f);
    } else {
      OtherFact(s, e, f);
    }
  }

  /** The history of a run records exactly what happened in it, and nothing is ever taken back. */
  lemma {:induction false} HistoryExactly(events: seq<Event>, f: Fact)
    ensures Recorded(Run(Fresh, events), f)
            <==> exists k :: 0 <= k < |events| && Brings(Run(Fresh, events[..k]), events[k], f)
  {
    hide Step, Brings, Recorded, Publishing;
    if events == [] {
      NothingRecorded(f);
    } else {
      var n := |events| - 1;
      var front := events[..n];
      HistoryExactly(front, f);
      FactStep(Run(Fresh, front), events[n], f);
      assert Run(Fresh, events) == Step(Run(Fresh, front), events[n]);
      hide Run;
      if Recorded(Run(Fresh, front), f) {
        var k :| 0 <= k < n && Brings(Run(Fresh, front[..k]), front[k], f);
        assert front[..k] == events[..k];
      }
      forall k | 0 <= k < n
        ensures front[..k] == events[..k]
      {
      }
    }
  }

  lemma NothingRecorded(f: Fact)
    ensures !Recorded(Fresh, f)
  {
  }

  /** Publishing puts the port of the attempt into the field and reports `Connected`. */
  lemma PublishingStep(s: Transport, e: Event)
    requires Publishing(s, e)
    ensures Step(s, e).port == Some(s.attempts[e.attempt].port) && Step(s, e).status == Connected
  {
  }

  /** An attempt that was in flight when `disconnect` was called is never published, before or after the call. */
  lemma AbortedNeverPublishes(events: seq<Event>, k: nat, n: nat)
    requires k < |events| && events[k].Disconnect? && n < |events| && events[n].Continue?
    requires var s, a := Run(Fresh, events[..k]), events[n].attempt; a in s.attempts && InFlight(s.attempts[a])
    ensures !Publishing(Run(Fresh, events[..n]), events[n])
  {
    hide Run, Step, Publishing, InFlight;
    var a := events[n].attempt;
    RunKeeps(events);
    var s := Run(Fresh, events);
    assert Brings(Run(Fresh, events[..k]), events[k], IsOverlapped(a));
    HistoryExactly(events, IsOverlapped(a));
    if Publishing(Run(Fresh, events[..n]), events[n]) {
      assert Brings(Run(Fresh, events[..n]), events[n], IsPublished(a));
      HistoryExactly(events, IsPublished(a));
      assert false;
    }
  }

  /** The call number of the last `connect` or `disconnect`, when that was a `disconnect`. */
  ghost function LastCall(events: seq<Event>): Option<nat> {
    if events == [] then None
    else
      var front, e := events[..|events| - 1], events[|events| - 1];
      if e.Connect? then None
      else if e.Disconnect? then Some(Run(Fresh, front).nextCall)
      else LastCall(front)
  }

  lemma LastStep(s: Transport, e: Event)
    ensures Step(s, e).last == if e.Connect? then None else if e.Disconnect? then Some(s.nextCall) else s.last
  {
  }

  lemma {:induction false} LastCallExactly(events: seq<Event>)
    ensures Run(Fresh, events).last == LastCall(events)
  {
    hide Step;
    if events != [] {
      LastCallExactly(events[..|events| - 1]);
      LastStep(Run(Fresh, events[..|events| - 1]), events[|events| - 1]);
    }
  }

  // ----- `close` is called -----

  /** Whoever is waiting for a port to close has called its `close`. */
  ghost predicate Called(s: Transport) {
    && (forall d :: d in s.teardowns && s.teardowns[d].Closing? ==> s.teardowns[d].port in s.closeCalls)
    && (forall a :: a in s.attempts && s.attempts[a].Aborting? ==> s.attempts[a].port in s.closeCalls)
    && (forall p :: p in s.failed ==> p in s.closeCalls)
  }

  lemma TakeCalled(s: Transport, d: nat)
    requires Called(s)
    ensures Called(TakePort(s, d))
  {
  }

  lemma CallCalled(s: Transport, e: Event)
    requires Called(s) && (e.Connect? || e.Disconnect? || e.ResumeDisconnect?)
    ensures Called(Step(s, e))
  {
    if e.Disconnect? {
      TakeCalled(s.(intentionalDisconnect := true, nextCall := s.nextCall + 1, last := Some(s.nextCall),
                    aborted := Step(s, e).aborted), s.nextCall);
    } else if e.ResumeDisconnect? {
      TakeCalled(s, e.call);
    }
    hide InFlight, TakePort;
  }

  lemma ResultCalled(s: Transport, e: Event)
    requires Called(s) && (e.OpenResult? || e.AbortClosed? || e.CloseResult?)
    ensures Called(Step(s, e))
  {
  }

  lemma OtherCalled(s: Transport, e: Event)
    requires Called(s) && !e.Connect? && !e.Disconnect? && !e.ResumeDisconnect?
    requires !e.OpenResult? && !e.AbortClosed? && !e.CloseResult?
    ensures Called(Step(s, e))
  {
  }

  lemma CalledStep(s: Transport, e: Event)
    requires Called(s)
    ensures Called(Step(s, e))
  {
    hide Step, Called;
    if e.Connect? || e.Disconnect? || e.ResumeDisconnect? {
      CallCalled(s, e);
    } else if e.OpenResult? || e.AbortClosed? || e.CloseResult? {
      ResultCalled(s, e);
    } else {
      OtherCalled(s, e);
    }
  }

  lemma {:induction false} RunCalls(events: seq<Event>)
    ensures Called(Run(Fresh, events))
  {
    hide Step;
    if events != [] {
      hide Called;
      RunCalls(events[..|events| - 1]);
      CalledStep(Run(Fresh, events[..|events| - 1]), events[|events| - 1]);
    }
  }

  /** The field holds the port, or an attempt that has opened it and not gone on. */
  ghost predicate InUse(s: Transport, p: nat) {
    s.port == Some(p) || exists a :: a in s.attempts && s.attempts[a] == Attempt.Opened(p)
  }

  /** In every run `close` has been called on an open port exactly when the port is not in use any more. */
  lemma ReleasedExactly(events: seq<Event>, p: nat)
    requires p in Run(Fresh, events).open
    ensures var s := Run(Fresh, events); p in s.closeCalls <==> !InUse(s, p)
  {
    hide Run;
    RunKeeps(events);
    RunCalls(events);
    var s := Run(Fresh, events);
    if p !in s.failed {
      var h :| Holds(s, h, p);
    }
  }

  // ----- every call settles -----

  /** A result or a continuation, as opposed to a new call or an event of a port. */
  predicate Completes(e: Event) {
    e.OpenResult? || e.Continue? || e.AbortClosed? || e.Finally? || e.ResumeDisconnect? || e.CloseResult? || e.Report?
  }

  /** How many results and continuations an attempt waits for. */
  function Remaining(a: Attempt): nat {
    match a
    case Opening(_) => 5
    case Opened(_) => 4
    case Aborting(_) => 3
    case Failing => 2
    case Settled => 1
  }

  /** The next result or continuation of an attempt; `ok` is what the port answers. */
  function NextOf(a: nat, attempt: Attempt, ok: bool): Event {
    match attempt
    case Opening(_) => OpenResult(a, ok)
    case Opened(_) => Continue(a)
    case Aborting(_) => AbortClosed(a, ok)
    case Failing => Continue(a)
    case Settled => Finally(a)
  }

  lemma AttemptAdvances(s: Transport, a: nat, ok: bool)
    requires a in s.attempts
    ensures var t := Step(s, NextOf(a, s.attempts[a], ok));
            && t.teardowns == s.teardowns && t.attempts.Keys <= s.attempts.Keys
            && (a in t.attempts ==> Remaining(t.attempts[a]) < Remaining(s.attempts[a]))
  {
  }

  lemma {:induction false} RunCons(s: Transport, e: Event, events: seq<Event>)
    ensures Run(s, [e] + events) == Run(Step(s, e), events)
  {
    hide Step;
    if events == [] {
      assert [e] + events == [e] && [e][..0] == [];
    } else {
      var n := |events| - 1;
      assert ([e] + events)[..n + 1] == [e] + events[..n];
      RunCons(s, e, events[..n]);
    }
  }

  lemma {:induction false} AttemptSettles(s: Transport, a: nat, ok: bool) returns (events: seq<Event>)
    requires s.attempts.Keys <= {a}
    ensures var t := Run(s, events); t.attempts == map[] && t.teardowns == s.teardowns
    ensures |events| <= 5 && forall e :: e in events ==> Completes(e)
    ensures a in s.attempts ==> |events| <= Remaining(s.attempts[a])
    ensures a !in s.attempts ==> events == []
    decreases if a in s.attempts then Remaining(s.attempts[a]) else 0
  {
    hide Step;
    if a in s.attempts {
      var e := NextOf(a, s.attempts[a], ok);
      AttemptAdvances(s, a, ok);
      var more := AttemptSettles(Step(s, e), a, ok);
      RunCons(s, e, more);
      events := [e] + more;
    } else {
      assert s.attempts == map[];
      events := [];
    }
  }

  function Waits(t: Teardown): nat {
    match t
    case AwaitingConnect(_) => 3
    case Closing(_) => 2
    case Reporting => 1
  }

  function NextReport(d: nat, teardown: Teardown, ok: bool): Event {
    match teardown
    case AwaitingConnect(_) => ResumeDisconnect(d)
    case Closing(_) => CloseResult(d, ok)
    case Reporting => Report(d)
  }

  lemma TeardownAdvances(s: Transport, d: nat, ok: bool)
    requires d in s.teardowns && s.attempts == map[]
    ensures var t := Step(s, NextReport(d, s.teardowns[d], ok));
            && t.attempts == map[]
            && t.teardowns - {d} == s.teardowns - {d}
            && (d in t.teardowns ==> Waits(t.teardowns[d]) < Waits(s.teardowns[d]))
  {
  }

  lemma {:induction false} TeardownSettles(s: Transport, d: nat, ok: bool) returns (events: seq<Event>)
    requires s.attempts == map[]
    ensures var t := Run(s, events); t.attempts == map[] && t.teardowns == s.teardowns - {d}
    ensures forall e :: e in events ==> Completes(e)
    decreases if d in s.teardowns then Waits(s.teardowns[d]) else 0
  {
    hide Step;
    if d in s.teardowns {
      var e := NextReport(d, s.teardowns[d], ok);
      TeardownAdvances(s, d, ok);
      var more := TeardownSettles(Step(s, e), d, ok);
      RunCons(s, e, more);
      events := [e] + more;
    } else {
      assert s.teardowns - {d} == s.teardowns;
      events := [];
    }
  }

  lemma {:induction false} RunJoin(s: Transport, first: seq<Event>, second: seq<Event>)
    ensures Run(s, first + second) == Run(Run(s, first), second)
  {
    hide Step;
    if second == [] {
      assert first + second == first;
    } else {
      var n := |second| - 1;
      assert (first + second)[..|first| + n] == first + second[..n];
      RunJoin(s, first, second[..n]);
    }
  }

  lemma {:induction false} TeardownsSettle(s: Transport, ok: bool) returns (events: seq<Event>)
    requires s.attempts == map[]
    ensures Quiescent(Run(s, events))
    ensures forall e :: e in events ==> Completes(e)
    decreases s.teardowns.Keys
  {
    hide Step;
    if s.teardowns == map[] {
      events := [];
    } else {
      var d :| d in s.teardowns.Keys;
      var first := TeardownSettles(s, d, ok);
      var more := TeardownsSettle(Run(s, first), ok);
      RunJoin(s, first, more);
      events := first + more;
    }
  }

  /**
   No deadlock: whatever has happened, and whether ports answer with success or failure, every call
   in flight settles by results and continuations alone.
   */
  lemma EveryCallSettles(events: seq<Event>, ok: bool) returns (more: seq<Event>)
    ensures Quiescent(Run(Fresh, events + more))
    ensures forall e :: e in more ==> Completes(e)
  {
    hide Run, Completes;
    RunKeeps(events);
    var s := Run(Fresh, events);
    var a := if s.connectPromise.Some? then s.connectPromise.value else 0;
    assert s.attempts.Keys <= {a};
    var first := AttemptSettles(s, a, ok);
    var rest := TeardownsSettle(Run(s, first), ok);
    more := first + rest;
    RunJoin(s, first, rest);
    RunJoin(Fresh, events, more);
  }

  // ----- the status after a disconnect -----

  predicate IsTerminal(status: Status) {
    status == Disconnected || status == Error
  }

  /** A `connect()` that neither finds an open port nor joins an attempt. */
  predicate Begins(s: Transport) {
    !(s.port.Some? && s.port.value in s.open) && s.connectPromise.None?
  }

  /** The step publishes an attempt. */
  predicate Publishing(s: Transport, e: Event) {
    e.Continue? && e.attempt in s.attempts && s.attempts[e.attempt].Opened? && !s.intentionalDisconnect
  }

  /** What a step can tell the listeners of the status. */
  datatype Mark = Started | Published | AttemptFailed | PortFailed | Finished

  /**
   The mark a step leaves: an attempt started, was published, or failed without an intended
   disconnect; a port with listeners reported an error; or a disconnect finished, a disconnect
   found the field empty, or a port with listeners closed while the last mark was a publication.
   */
  function MarkOf(s: Transport, e: Event, last: Option<Mark>): Option<Mark> {
    match e
    case Connect(created) => if !Begins(s) then None else if created then Some(Started) else Some(AttemptFailed)
    case Continue(a) =>
      if Publishing(s, e) then Some(Published)
      else if a in s.attempts && s.attempts[a].Failing? && !s.intentionalDisconnect then Some(AttemptFailed)
      else None
    case Disconnect => if s.connectPromise.None? && s.port.None? then Some(Finished) else None
    case ResumeDisconnect(d) =>
      if d in s.teardowns && s.teardowns[d].AwaitingConnect? && s.teardowns[d].attempt !in s.attempts && s.port.None?
      then Some(Finished)
      else None
    case Report(d) => if d in s.teardowns && s.teardowns[d].Reporting? then Some(Finished) else None
    case PortCloseEvent(p) => if p in s.listening && last == Some(Published) then Some(Finished) else None
    case PortErrorEvent(p) => if p in s.listening then Some(PortFailed) else None
    case _ => None
  }

  /** The last mark of a run. */
  ghost function LastMark(events: seq<Event>): Option<Mark> {
    if events == [] then None
    else
      var front, e := events[..|events| - 1], events[|events| - 1];
      var mark := MarkOf(Run(Fresh, front), e, LastMark(front));
      if mark.Some? then mark else LastMark(front)
  }

  function StatusOf(mark: Option<Mark>): Status {
    match mark
    case None => Idle
    case Some(Started) => Connecting
    case Some(Published) => Connected
    case Some(AttemptFailed) => Error
    case Some(PortFailed) => Error
    case Some(Finished) => Disconnected
  }

  /** Has an end been reported since the last attempt was started or published? */
  ghost predicate EndReported(events: seq<Event>) {
    var mark := LastMark(events);
    mark.Some? && mark.value != Started && mark.value != Published
  }

  lemma StatusStep(s: Transport, e: Event, last: Option<Mark>)
    requires s.status == StatusOf(last)
    ensures Step(s, e).status == StatusOf(if MarkOf(s, e, last).Some? then MarkOf(s, e, last) else last)
  {
  }

  /**
   The status in every run. It is `Error` exactly when the last thing told was a failed attempt
   without an intended disconnect or an error of a port with listeners, `Disconnected` exactly when
   it was the end of a disconnect or the closing of a published port, `Connected` exactly when it
   was a publication, and `Connecting` exactly when it was the start of an attempt.
   */
  lemma {:induction false} StatusExactly(events: seq<Event>)
    ensures var status, mark := Run(Fresh, events).status, LastMark(events);
            && (status == Error <==> mark == Some(AttemptFailed) || mark == Some(PortFailed))
            && (status == Disconnected <==> mark == Some(Finished))
            && (status == Connected <==> mark == Some(Published))
            && (status == Connecting <==> mark == Some(Started))
            && (status == Idle <==> mark == None)
            && status == StatusOf(mark)
  {
    hide Step, MarkOf;
    if events != [] {
      StatusExactly(events[..|events| - 1]);
      StatusStep(Run(Fresh, events[..|events| - 1]), events[|events| - 1], LastMark(events[..|events| - 1]));
    }
  }

  lemma TerminalExactly(events: seq<Event>)
    ensures IsTerminal(Run(Fresh, events).status) <==> EndReported(events)
  {
    hide Run, LastMark;
    StatusExactly(events);
  }

  /** The last disconnect has run to its end: what happened since is at most an error of a port. */
  lemma {:induction false} SettledEnds(events: seq<Event>)
    requires var s := Run(Fresh, events);
             s.last.Some? && s.last.value !in s.teardowns && s.last.value !in s.rejected
    ensures LastMark(events) == Some(Finished) || LastMark(events) == Some(PortFailed)
  {
    hide Step, MarkOf, Inv;
    if events != [] {
      var front, e := events[..|events| - 1], events[|events| - 1];
      var s := Run(Fresh, front);
      RunKeeps(front);
      EndsStep(s, e, LastMark(front));
      if s.last == Step(s, e).last && s.last.value !in s.teardowns && s.last.value !in s.rejected {
        SettledEnds(front);
      }
    }
  }

  lemma EndsStep(s: Transport, e: Event, last: Option<Mark>)
    requires Inv(s)
    requires var t := Step(s, e); t.last.Some? && t.last.value !in t.teardowns && t.last.value !in t.rejected
    ensures var t, mark := Step(s, e), MarkOf(s, e, last);
            if t.last == s.last && s.last.value !in s.teardowns && s.last.value !in s.rejected
            then mark == None || mark == Some(Finished) || mark == Some(PortFailed)
            else mark == Some(Finished)
  {
    hide Owned, ClosedOnce, FieldDead, AbortsSeen;
  }

  ghost predicate Awaited(s: Transport, a: nat) {
    exists d :: d in s.teardowns && s.teardowns[d] == AwaitingConnect(a)
  }

  /** A status that is not terminal is accounted for by an attempt in flight or a disconnect still waiting for one. */
  ghost predicate Accounted(s: Transport) {
    && (s.status == Idle ==> s.connectPromise == None && s.port == None && s.last == None)
    && (s.status == Connecting ==>
          || (exists a :: a in s.attempts && InFlight(s.attempts[a]))
          || (s.port == None && exists a :: Awaited(s, a)))
    && (forall a :: a in s.attempts && s.intentionalDisconnect ==> Awaited(s, a))
  }

  /** A disconnect that waits keeps waiting unless the step resumes it. */
  lemma AwaitedKept(s: Transport, e: Event, a: nat)
    requires Awaited(s, a) && !(e.ResumeDisconnect? && a !in s.attempts)
    requires forall d :: d in s.teardowns ==> d < s.nextCall
    ensures Awaited(Step(s, e), a)
  {
    hide Step;
    var d :| d in s.teardowns && s.teardowns[d] == AwaitingConnect(a);
    TeardownKept(s, e, d);
  }

  lemma TeardownKept(s: Transport, e: Event, d: nat)
    requires d in s.teardowns && s.teardowns[d].AwaitingConnect? && d < s.nextCall
    requires !(e.ResumeDisconnect? && s.teardowns[d].attempt !in s.attempts)
    ensures d in Step(s, e).teardowns && Step(s, e).teardowns[d] == s.teardowns[d]
  {
  }

  lemma IdleAccounted(s: Transport, e: Event)
    requires Latched(s) && (s.status == Idle ==> s.connectPromise == None && s.port == None && s.last == None)
    ensures var t := Step(s, e); t.status == Idle ==> t.connectPromise == None && t.port == None && t.last == None
  {
    if Step(s, e).status == Idle {
      assert s.status == Idle by { NeverIdleAgain(s, e); }
      assert s.attempts == map[];
      hide Latched;
    }
  }

  lemma NeverIdleAgain(s: Transport, e: Event)
    ensures Step(s, e).status == Idle ==> s.status == Idle
  {
  }

  lemma FlagAccounted(s: Transport, e: Event, a: nat)
    requires Latched(s) && (forall b :: b in s.attempts && s.intentionalDisconnect ==> Awaited(s, b))
    requires a in Step(s, e).attempts && Step(s, e).intentionalDisconnect
    ensures Awaited(Step(s, e), a)
  {
    if e.Disconnect? {
      assert s.connectPromise == Some(a);
      assert Step(s, e).teardowns[s.nextCall] == AwaitingConnect(a);
    } else {
      assert a in s.attempts && s.intentionalDisconnect by { FlagKept(s, e, a); }
      hide Step, Awaited;
      AwaitedKept(s, e, a);
    }
  }

  lemma FlagKept(s: Transport, e: Event, a: nat)
    requires !e.Disconnect? && a in Step(s, e).attempts && Step(s, e).intentionalDisconnect
    ensures a in s.attempts && s.intentionalDisconnect
  {
  }

  lemma AttemptAccounted(s: Transport, e: Event, a: nat)
    requires Latched(s) && (s.intentionalDisconnect ==> Awaited(s, a)) && Step(s, e).status == Connecting
    requires a in s.attempts && InFlight(s.attempts[a])
    ensures var t := Step(s, e);
            (a in t.attempts && InFlight(t.attempts[a])) || (t.port == None && Awaited(t, a))
  {
    var t := Step(s, e);
    if !(a in t.attempts && InFlight(t.attempts[a])) {
      assert e == Continue(a) && s.intentionalDisconnect && t.port == None by {
        hide Awaited;
      }
      hide Step;
      AwaitedKept(s, e, a);
    }
  }

  lemma WaitAccounted(s: Transport, e: Event, a: nat)
    requires Latched(s) && s.status == Connecting && Step(s, e).status == Connecting
    requires s.port == None && Awaited(s, a) && forall b :: b in s.attempts ==> !InFlight(s.attempts[b])
    ensures var t := Step(s, e);
            (exists b :: b in t.attempts && InFlight(t.attempts[b])) || (t.port == None && Awaited(t, a))
  {
    hide Awaited;
    var t := Step(s, e);
    if e.Connect? && s.nextCall in t.attempts {
      assert InFlight(t.attempts[s.nextCall]);
    } else if e.ResumeDisconnect? {
      assert t == s;
    } else {
      AwaitedKept(s, e, a);
    }
  }

  lemma ConnectingAccounted(s: Transport, e: Event)
    requires Accounted(s) && Inv(s) && Step(s, e).status == Connecting
    ensures var t := Step(s, e);
            || (exists a :: a in t.attempts && InFlight(t.attempts[a]))
            || (t.port == None && exists a :: Awaited(t, a))
  {
    if s.status == Connecting {
      hide Latched, Owned, ClosedOnce, FieldDead, AbortsSeen, LastDisconnect, Awaited, InFlight, Step;
      if a :| a in s.attempts && InFlight(s.attempts[a]) {
        AttemptAccounted(s, e, a);
      } else {
        var a :| Awaited(s, a);
        WaitAccounted(s, e, a);
      }
    } else {
      hide Inv, Awaited;
      assert InFlight(Step(s, e).attempts[s.nextCall]);
    }
  }

  lemma {:induction false} RunAccounted(events: seq<Event>)
    ensures Accounted(Run(Fresh, events))
  {
    hide Step, Latched, Owned, ClosedOnce, FieldDead, AbortsSeen, LastDisconnect, Awaited, InFlight;
    if events != [] {
      var s, e := Run(Fresh, events[..|events| - 1]), events[|events| - 1];
      RunAccounted(events[..|events| - 1]);
      RunKeeps(events[..|events| - 1]);
      IdleAccounted(s, e);
      forall a | a in Step(s, e).attempts && Step(s, e).intentionalDisconnect
        ensures Awaited(Step(s, e), a)
      {
        FlagAccounted(s, e, a);
      }
      if Step(s, e).status == Connecting {
        ConnectingAccounted(s, e);
      }
    }
  }

  /**
   The step is an event of a port with listeners, the end of a disconnect, or a disconnect that
   finds the field empty.
   */
  predicate Ending(s: Transport, e: Event) {
    match e
    case PortCloseEvent(p) => p in s.listening
    case PortErrorEvent(p) => p in s.listening
    case Report(d) => d in s.teardowns && s.teardowns[d].Reporting?
    case Disconnect => s.connectPromise.None? && s.port.None?
    case ResumeDisconnect(d) =>
      d in s.teardowns && s.teardowns[d].AwaitingConnect? && s.teardowns[d].attempt !in s.attempts && s.port.None?
    case _ => false
  }

  /** An attempt was published, and nothing has ended since. */
  ghost predicate Undisturbed(events: seq<Event>) {
    events != [] &&
    var front, e := events[..|events| - 1], events[|events| - 1];
    var s := Run(Fresh, front);
    Publishing(s, e) || (!Ending(s, e) && Undisturbed(front))
  }

  lemma ConnectedStep(s: Transport, e: Event)
    ensures Publishing(s, e) ==> Step(s, e).status == Connected && Step(s, e).port.Some?
    ensures Step(s, e).status == Connected && !Publishing(s, e) ==> s.status == Connected && !Ending(s, e)
  {
  }

  lemma {:induction false} ConnectedIsUndisturbed(events: seq<Event>)
    requires Run(Fresh, events).status == Connected
    ensures Undisturbed(events)
  {
    hide Step, Publishing, Ending;
    if events != [] {
      var front, e := events[..|events| - 1], events[|events| - 1];
      ConnectedStep(Run(Fresh, front), e);
      if !Publishing(Run(Fresh, front), e) {
        ConnectedIsUndisturbed(front);
      }
    }
  }

  /** No attempt is in flight, and a port is held or was taken by the last call, a disconnect. */
  ghost predicate Held(s: Transport) {
    && (forall a :: a in s.attempts ==> !InFlight(s.attempts[a]))
    && (s.port.Some? || TakenByLast(s))
  }

  ghost predicate TakenByLast(s: Transport) {
    s.last.Some? &&
    if s.last.value in s.teardowns then !s.teardowns[s.last.value].AwaitingConnect? else s.last.value in s.rejected
  }

  /** An attempt in flight stays so unless it is published or fails, which leaves the field empty. */
  lemma FlightStep(s: Transport, e: Event, a: nat)
    requires Latched(s) && a in s.attempts && InFlight(s.attempts[a]) && !Publishing(s, e)
    ensures var t := Step(s, e);
            || (a in t.attempts && InFlight(t.attempts[a]))
            || (t.port == None && t.last == s.last && t.teardowns == s.teardowns && t.rejected == s.rejected)
  {
  }

  lemma NoneTaken(s: Transport, a: nat)
    requires LastDisconnect(s) && a in s.attempts
    ensures !TakenByLast(s)
  {
  }

  /** A port is held after a step that neither publishes nor ends only if no attempt was in flight. */
  lemma HeldNoFlight(s: Transport, e: Event)
    requires Latched(s) && LastDisconnect(s) && Held(Step(s, e)) && !Publishing(s, e)
    ensures forall a :: a in s.attempts ==> !InFlight(s.attempts[a])
  {
    hide Step, Latched, LastDisconnect, Publishing, InFlight;
    if a :| a in s.attempts && InFlight(s.attempts[a]) {
      FlightStep(s, e, a);
      NoneTaken(s, a);
      assert false;
    }
  }

  lemma BeginsInFlight(s: Transport, created: bool)
    requires Latched(s) && Begins(s)
    ensures !Held(Step(s, Connect(created)))
  {
    var t := Step(s, Connect(created));
    assert t.last == None;
    if created {
      assert InFlight(t.attempts[s.nextCall]);
    } else {
      assert t.port == None;
    }
  }

  lemma HeldStep(s: Transport, e: Event)
    requires Latched(s) && LastDisconnect(s) && Held(Step(s, e)) && !Publishing(s, e) && !Ending(s, e)
    ensures Held(s) && (s.status == Connected ==> Step(s, e).status == Connected)
  {
    HeldNoFlight(s, e);
    if e.Connect? && Begins(s) {
      BeginsInFlight(s, e.created);
      assert false;
    }
    HeldEarlier(s, e);
  }

  lemma HeldEarlier(s: Transport, e: Event)
    requires Latched(s) && LastDisconnect(s) && !Publishing(s, e) && !Ending(s, e)
    requires (forall a :: a in s.attempts ==> !InFlight(s.attempts[a])) && !(e.Connect? && Begins(s))
    requires Step(s, e).port.Some? || TakenByLast(Step(s, e))
    ensures s.port.Some? || TakenByLast(s)
    ensures s.status == Connected ==> Step(s, e).status == Connected
  {
    hide Latched;
  }

  lemma {:induction false} HeldIsConnected(events: seq<Event>)
    requires Held(Run(Fresh, events)) && Undisturbed(events)
    ensures Run(Fresh, events).status == Connected
  {
    hide Step, Publishing, Ending, Held, Inv;
    if events != [] {
      var front, e := events[..|events| - 1], events[|events| - 1];
      var s := Run(Fresh, front);
      ConnectedStep(s, e);
      RunKeeps(front);
      if !Publishing(s, e) {
        assert Latched(s) && LastDisconnect(s) by { InvParts(s); }
        HeldStep(s, e);
        HeldIsConnected(front);
      }
    }
  }

  lemma InvParts(s: Transport)
    requires Inv(s)
    ensures Latched(s) && LastDisconnect(s)
  {
  }

  /**
   The status once every call has settled and the last one was a disconnect. It is not terminal
   exactly when that disconnect was rejected and, since an attempt was last published, no listener
   has fired, no disconnect has finished and none has found the field empty. It then is `Connected`.
   */
  lemma SettledStatusExactly(events: seq<Event>)
    requires var s := Run(Fresh, events); Quiescent(s) && s.last.Some?
    ensures var s := Run(Fresh, events);
            && (!IsTerminal(s.status) <==> s.last.value in s.rejected && Undisturbed(events))
            && (!IsTerminal(s.status) ==> s.status == Connected)
  {
    hide Run, Undisturbed;
    var s := Run(Fresh, events);
    SettledDisconnect(events);
    RunAccounted(events);
    if s.status == Connected {
      ConnectedIsUndisturbed(events);
    }
    if s.last.value in s.rejected && Undisturbed(events) {
      HeldIsConnected(events);
    }
  }

  const FailedCloseTrace: seq<Event> :=
    [Connect(true), OpenResult(0, true), Continue(0), Finally(0), Disconnect, CloseResult(1, false)]

  lemma Publishes()
    ensures Run(Fresh, FailedCloseTrace[..4])
            == Fresh.(status := Connected, port := Some(0), nextPort := 1, nextCall := 1, open := {0},
                      everOpened := {0}, listening := {0}, published := {0})
  {
    var t := FailedCloseTrace;
    var s1 := Step(Fresh, t[0]);
    assert s1 == Fresh.(status := Connecting, connectPromise := Some(0), nextCall := 1, nextPort := 1,
                        attempts := map[0 := Opening(0)]);
    var s2 := Step(s1, t[1]);
    assert s2 == s1.(open := {0}, everOpened := {0}, attempts := map[0 := Opened(0)]);
    var s3 := Step(s2, t[2]);
    assert s3 == s2.(listening := {0}, port := Some(0), status := Connected, published := {0},
                     attempts := map[0 := Settled]);
    var s4 := Step(s3, t[3]);
    hide Step;
    assert t[..0] == [];
    RunPrefix(Fresh, t, 0);
    RunPrefix(Fresh, t, 1);
    RunPrefix(Fresh, t, 2);
    RunPrefix(Fresh, t, 3);
  }

  /** A disconnect whose `close` fails rejects, leaves its port open with no owner, and leaves the status as it was. */
  lemma FailedCloseLeaks()
    ensures var s := Run(Fresh, FailedCloseTrace);
            && Quiescent(s) && s.last == Some(1) && s.rejected == {1}
            && s.status == Connected && s.port == None && s.open == {0} && forall h :: !Holds(s, h, 0)
  {
    hide Run;
    var t := FailedCloseTrace;
    Publishes();
    var s5 := Step(Run(Fresh, t[..4]), t[4]);
    assert s5.teardowns == map[1 := Closing(0)] && s5.port == None && s5.attempts == map[];
    var s6 := Step(s5, t[5]);
    assert s6.teardowns == map[] && s6.open == {0} && s6.rejected == {1};
    hide Step;
    assert t[..6] == t;
    RunPrefix(Fresh, t, 4);
    RunPrefix(Fresh, t, 5);
  }

  // ----- the class -----

  /**
   The four mutable fields of the source's class. Everything else of a `Transport`, the suspended
   calls, the ports and the history, belongs to the runtime and is kept in `world`, whose own
   copies of the four fields are not used.
   */
  class NativeSerialTransport {
    var status: Status
    var port: Option<nat>
    var connectPromise: Option<nat>
    var intentionalDisconnect: bool
    var world: Transport

    ghost function View(): Transport
      reads this
    {
      world.(status := status, port := port, connectPromise := connectPromise,
             intentionalDisconnect := intentionalDisconnect)
    }

    constructor ()
      ensures View() == Fresh
    {
      status, port, connectPromise, intentionalDisconnect := Idle, None, None, false;
      world := Fresh;
    }

    /** `connect()` with the synchronous part of `doConnect()`; `created` is false when `createPort` throws. */
    method ConnectCall(created: bool)
      modifies this
      ensures View() == Step(old(View()), Connect(created))
    {
      world := world.(last := None);
      if port.Some? && port.value in world.open {
        return;
      }
      if connectPromise.Some? {
        return;
      }
      var a := world.nextCall;
      world := world.(nextCall := a + 1);
      status := Connecting;
      intentionalDisconnect := false;
      if created {
        world := world.(attempts := world.attempts[a := Opening(world.nextPort)], nextPort := world.nextPort + 1);
      } else {
        Catch(a);
      }
      connectPromise := Some(a);
    }

    /** The `catch` block of `doConnect()`. */
    method Catch(a: nat)
      modifies this`port, this`status, this`world
      ensures View() == FailAttempt(old(View()), a)
    {
      port := None;
      if !intentionalDisconnect {
        status := Error;
      }
      world := world.(attempts := world.attempts[a := Settled]);
    }

    /** `doConnect()` after `await port.open`: abort, publish, or run the `catch` block. */
    method ContinueConnect(a: nat)
      requires a in world.attempts
      modifies this
      ensures View() == ContinueAttempt(old(View()), a)
    {
      match world.attempts[a]
      case Opened(p) =>
        if intentionalDisconnect {
          world := world.(closeCalls := world.closeCalls + [p], attempts := world.attempts[a := Aborting(p)]);
          return;
        }
        port := Some(p);
        status := Connected;
        world := world.(listening := world.listening + {p}, published := world.published + {a},
                        attempts := world.attempts[a := Settled]);
      case Failing => Catch(a);
      case _ =>
    }

    /** The `finally` callback that clears the latch. */
    method FinallyConnect(a: nat)
      requires a in world.attempts && world.attempts[a].Settled?
      modifies this`connectPromise, this`world
      ensures View() == Step(old(View()), Finally(a))
    {
      world := world.(attempts := world.attempts - {a});
      connectPromise := None;
    }

    /** `disconnect()` up to its first await. */
    method DisconnectCall()
      modifies this
      ensures View() == Step(old(View()), Disconnect)
    {
      var d := world.nextCall;
      intentionalDisconnect := true;
      world := world.(nextCall := d + 1, last := Some(d),
                      aborted := world.aborted + set a | a in world.attempts && InFlight(world.attempts[a]));
      if connectPromise.Some? {
        world := world.(teardowns := world.teardowns[d := AwaitingConnect(connectPromise.value)]);
        return;
      }
      CloseHeldPort(d);
    }

    /** `disconnect()` from reading the field to its next await or its end. */
    method CloseHeldPort(d: nat)
      modifies this`port, this`status, this`world
      ensures View() == TakePort(old(View()), d)
    {
      if port.None? {
        status := Disconnected;
        world := world.(teardowns := world.teardowns - {d});
        return;
      }
      var p := port.value;
      port := None;
      world := world.(closeCalls := world.closeCalls + [p], teardowns := world.teardowns[d := Closing(p)]);
    }

    /** `disconnect()` after its port has closed. */
    method ReportDisconnected(d: nat)
      requires d in world.teardowns && world.teardowns[d].Reporting?
      modifies this`status, this`world
      ensures View() == Step(old(View()), Report(d))
    {
      status := Disconnected;
      world := world.(teardowns := world.teardowns - {d});
    }

    /** The `close` listener. */
    method OnPortClose(p: nat)
      modifies this`status
      ensures View() == Step(old(View()), PortCloseEvent(p))
    {
      if p in world.listening && status == Connected {
        status := Disconnected;
      }
    }

    /** The `error` listener. */
    method OnPortError(p: nat)
      modifies this`status
      ensures View() == Step(old(View()), PortErrorEvent(p))
    {
      if p in world.listening {
        status := Error;
      }
    }
  }
}
