/** The TCP proxy as a step system: one accept loop with a connection limit, a handler goroutine per
    connection, and Close, which races with their registrations. */
module TcpProxy {

  type Conn = nat

  datatype AcceptPC =
    | Accepting
    | Got(conn: Conn)          // before the load of activeConns
    | Rejecting(conn: Conn)    // over the limit: before Close
    | Admitted(conn: Conn)     // before the increment of activeConns
    | Counted(conn: Conn)      // before the handler is started

  datatype HandlerPC =
    | Spawned(client: Conn)                           // before registerConn(client)
    | Dialling(client: Conn)                          // registered
    | Dialled(client: Conn, upstream: Conn)           // before registerConn(upstream)
    | Relaying(client: Conn, upstream: Conn)          // both registered
    | UnregisteringUpstream(client: Conn, upstream: Conn)
    | ClosingUpstream(client: Conn, upstream: Conn)
    | UnregisteringClient(client: Conn)
    | ClosingClient(client: Conn)
    | Leaving                                         // before the decrement of activeConns
    | Done

  datatype ClosePC = Open | Sweeping | Swept

  datatype State = State(
    accept: AcceptPC,
    active: int,
    handlers: seq<HandlerPC>,
    registered: set<Conn>,
    closer: ClosePC,
    closedFlag: bool,
    known: set<Conn>,         // every connection accepted or dialled
    closed: set<Conn>)

  ghost predicate Init(s: State) {
    && s.accept.Accepting? && s.active == 0 && s.handlers == [] && s.registered == {}
    && s.closer.Open? && !s.closedFlag && s.known == {} && s.closed == {}
  }

  datatype Step =
    | Accept(conn: Conn) | LoadActive | Reject | AddActive | Spawn
    | RegisterClient(i: nat) | DialFails(i: nat) | Dial(i: nat, upstream: Conn) | RegisterUpstream(i: nat)
    | RelayCloses(i: nat) | RelayEnds(i: nat) | UnregisterUpstream(i: nat) | CloseUpstream(i: nat)
    | UnregisterClient(i: nat) | CloseClient(i: nat) | SubActive(i: nat)
    | CallClose | Sweep

  ghost predicate HandlerEnabled(s: State, i: nat, step: Step) {
    i < |s.handlers| &&
    var h := s.handlers[i];
    match step
    case RegisterClient(_) => h.Spawned?
    case DialFails(_) => h.Dialling?
    case Dial(_, u) => h.Dialling? && u !in s.known
    case RegisterUpstream(_) => h.Dialled?
    case RelayCloses(_) => h.Relaying?
    case RelayEnds(_) => h.Relaying?
    case UnregisterUpstream(_) => h.UnregisteringUpstream?
    case CloseUpstream(_) => h.ClosingUpstream?
    case UnregisterClient(_) => h.UnregisteringClient?
    case CloseClient(_) => h.ClosingClient?
    case SubActive(_) => h.Leaving?
    case _ => false
  }

  ghost predicate Enabled(s: State, step: Step) {
    match step
    case Accept(c) => s.accept.Accepting? && c !in s.known
    case LoadActive => s.accept.Got?
    case Reject => s.accept.Rejecting?
    case AddActive => s.accept.Admitted?
    case Spawn => s.accept.Counted?
    case CallClose => s.closer.Open?
    case Sweep => s.closer.Sweeping?
    case _ => HandlerEnabled(s, step.i, step)
  }

  ghost function At(s: State, i: nat, pc: HandlerPC): State
    requires i < |s.handlers|
  {
    s.(handlers := s.handlers[i := pc])
  }

  ghost function DoHandler(s: State, i: nat, step: Step): State
    requires HandlerEnabled(s, i, step)
  {
    var h := s.handlers[i];
    match step
    case RegisterClient(_) =>
      if s.closedFlag then At(s, i, ClosingClient(h.client)).(closed := s.closed + {h.client})
      else At(s, i, Dialling(h.client)).(registered := s.registered + {h.client})
    case DialFails(_) => At(s, i, UnregisteringClient(h.client))
    case Dial(_, u) => At(s, i, Dialled(h.client, u)).(known := s.known + {u})
    case RegisterUpstream(_) =>
      if s.closedFlag then At(s, i, ClosingUpstream(h.client, h.upstream)).(closed := s.closed + {h.upstream})
      else At(s, i, Relaying(h.client, h.upstream)).(registered := s.registered + {h.upstream})
    case RelayCloses(_) => s.(closed := s.closed + {h.client, h.upstream})
    case RelayEnds(_) => At(s, i, UnregisteringUpstream(h.client, h.upstream))
    case UnregisterUpstream(_) =>
      At(s, i, ClosingUpstream(h.client, h.upstream)).(registered := s.registered - {h.upstream})
    case CloseUpstream(_) => At(s, i, UnregisteringClient(h.client)).(closed := s.closed + {h.upstream})
    case UnregisterClient(_) => At(s, i, ClosingClient(h.client)).(registered := s.registered - {h.client})
    case CloseClient(_) => At(s, i, Leaving).(closed := s.closed + {h.client})
    case SubActive(_) => At(s, i, Done).(active := s.active - 1)
  }

  ghost function Do(limit: nat, s: State, step: Step): State
    requires Enabled(s, step)
  {
    match step
    case Accept(c) => s.(accept := Got(c), known := s.known + {c})
    case LoadActive => s.(accept := if s.active >= limit then Rejecting(s.accept.conn) else Admitted(s.accept.conn))
    case Reject => s.(accept := Accepting, closed := s.closed + {s.accept.conn})
    case AddActive => s.(accept := Counted(s.accept.conn), active := s.active + 1)
    case Spawn => s.(accept := Accepting, handlers := s.handlers + [Spawned(s.accept.conn)])
    case CallClose => s.(closer := Sweeping, closedFlag := true)
    case Sweep => s.(closer := Swept, closed := s.closed + s.registered, registered := {})
    case _ => DoHandler(s, step.i, step)
  }

  ghost predicate Run(limit: nat, states: seq<State>, steps: seq<Step>) {
    && |states| == |steps| + 1 && Init(states[0])
    && forall k :: 0 <= k < |steps| ==> Enabled(states[k], steps[k]) && states[k + 1] == Do(limit, states[k], steps[k])
  }

  // ----- what every step keeps -----

  datatype Holder = Acceptor | ClientOf(i: nat) | UpstreamOf(i: nat)

  ghost predicate Holds(s: State, o: Holder, x: Conn) {
    match o
    case Acceptor => !s.accept.Accepting? && s.accept.conn == x
    case ClientOf(i) => i < |s.handlers| && !s.handlers[i].Leaving? && !s.handlers[i].Done? && s.handlers[i].client == x
    case UpstreamOf(i) =>
      i < |s.handlers| && (s.handlers[i].Dialled? || s.handlers[i].Relaying? || s.handlers[i].UnregisteringUpstream? || s.handlers[i].ClosingUpstream?)
      && s.handlers[i].upstream == x
  }

  ghost predicate Held(s: State, x: Conn) {
    exists o :: Holds(s, o, x)
  }

  /** Nobody shares a connection, and one that nobody holds any more is closed. */
  ghost predicate Holding(s: State) {
    && (forall x, o, o' :: Holds(s, o, x) && Holds(s, o', x) ==> o == o')
    && (forall x, o :: Holds(s, o, x) ==> x in s.known)
    && (forall x :: x in s.known ==> Held(s, x) || x in s.closed)
    && s.closed <= s.known && s.registered <= s.known
  }

  /** Where a handler believes a connection is registered, it is, or the sweep has closed it. */
  ghost predicate Reachable(s: State) {
    && (forall i :: 0 <= i < |s.handlers| ==>
          var h := s.handlers[i];
          && (!h.Spawned? && !h.ClosingClient? && !h.Leaving? && !h.Done? ==> h.client in s.registered || h.client in s.closed)
          && (h.Relaying? || h.UnregisteringUpstream? ==> h.upstream in s.registered || h.upstream in s.closed))
    && (s.closedFlag <==> !s.closer.Open?)
    && (s.closer.Swept? ==> s.registered == {})
  }

  function Unfinished(hs: seq<HandlerPC>): nat {
    if hs == [] then 0 else Unfinished(hs[..|hs| - 1]) + if hs[|hs| - 1].Done? then 0 else 1
  }

  ghost predicate Counting(limit: nat, s: State) {
    && s.active == Unfinished(s.handlers) + (if s.accept.Counted? then 1 else 0)
    && s.active <= limit
    && (s.accept.Admitted? ==> s.active < limit)
  }

  ghost predicate Inv(limit: nat, s: State) {
    Holding(s) && Reachable(s) && Counting(limit, s)
  }

  lemma {:induction false} UnfinishedUpdate(hs: seq<HandlerPC>, i: nat, pc: HandlerPC)
    requires i < |hs|
    ensures Unfinished(hs[i := pc]) == Unfinished(hs) - (if hs[i].Done? then 0 else 1) + if pc.Done? then 0 else 1
  {
    var n := |hs| - 1;
    if i == n {
      assert hs[i := pc][..n] == hs[..n];
    } else {
      assert hs[i := pc][..n] == hs[..n][i := pc];
      UnfinishedUpdate(hs[..n], i, pc);
    }
  }

  lemma CountingKept(limit: nat, s: State, step: Step)
    requires Inv(limit, s) && Enabled(s, step)
    ensures Counting(limit, Do(limit, s, step))
  {
    hide Unfinished, Holding, Reachable;
    var s' := Do(limit, s, step);
    if step.Spawn? {
      SpawnCount(s.handlers, Spawned(s.accept.conn));
    } else if step.Accept? || step.LoadActive? || step.Reject? || step.AddActive? || step.CallClose? || step.Sweep? {
    } else {
      UnfinishedUpdate(s.handlers, step.i, s'.handlers[step.i]);
      assert s'.handlers == s.handlers[step.i := s'.handlers[step.i]];
    }
  }

  lemma SpawnCount(hs: seq<HandlerPC>, pc: HandlerPC)
    requires !pc.Done?
    ensures Unfinished(hs + [pc]) == Unfinished(hs) + 1
  {
    assert (hs + [pc])[..|hs|] == hs;
  }

  /** Who held, before the step, what o holds after it. */
  function Before(s: State, step: Step, o: Holder): Holder {
    if step.Spawn? && o == ClientOf(|s.handlers|) then Acceptor else o
  }

  /** Holdings only disappear, but for the connection just accepted or dialled, and the hand-over to a handler. */
  lemma HoldsAfter(limit: nat, s: State, step: Step, o: Holder, x: Conn)
    requires Enabled(s, step) && Holds(Do(limit, s, step), o, x)
    ensures
      || (Holds(s, Before(s, step, o), x) && !(step.Spawn? && o == Acceptor))
      || (step.Accept? && o == Acceptor && x == step.conn)
      || (step.Dial? && o == UpstreamOf(step.i) && x == step.upstream)
  {
  }

  /** What is held stays held, possibly by the new handler, until it is closed. */
  lemma HeldAfter(limit: nat, s: State, step: Step, x: Conn)
    requires Enabled(s, step) && (Held(s, x) || x in s.closed)
    ensures Held(Do(limit, s, step), x) || x in Do(limit, s, step).closed
  {
    var s' := Do(limit, s, step);
    if x !in s.closed {
      var o :| Holds(s, o, x);
      if step.Spawn? && o == Acceptor {
        assert Holds(s', ClientOf(|s.handlers|), x);
      } else {
        assert Holds(s', o, x) || x in s'.closed;
      }
    }
  }

  /** Only held connections are closed or registered. */
  lemma ClosedAfter(limit: nat, s: State, step: Step)
    requires Holding(s) && Enabled(s, step)
    ensures var s' := Do(limit, s, step); s'.closed <= s.known && s'.registered <= s.known
  {
    assert step.Reject? ==> Holds(s, Acceptor, s.accept.conn);
    if step.RegisterClient? || step.RelayCloses? || step.CloseClient? || step.RegisterUpstream? || step.CloseUpstream? {
      assert Holds(s, ClientOf(step.i), s.handlers[step.i].client);
    }
    if step.RelayCloses? || step.RegisterUpstream? || step.CloseUpstream? {
      assert Holds(s, UpstreamOf(step.i), s.handlers[step.i].upstream);
    }
  }

  lemma HoldingKept(limit: nat, s: State, step: Step)
    requires Holding(s) && Enabled(s, step)
    ensures Holding(Do(limit, s, step))
  {
    var s' := Do(limit, s, step);
    ClosedAfter(limit, s, step);
    KnownAfter(limit, s, step);
    hide Holds, Do, Enabled;
    forall x, o | Holds(s', o, x) ensures x in s'.known {
      HoldsAfter(limit, s, step, o, x);
    }
    forall x, o, o' | Holds(s', o, x) && Holds(s', o', x) ensures o == o' {
      HoldsAfter(limit, s, step, o, x);
      HoldsAfter(limit, s, step, o', x);
    }
    forall x | x in s'.known ensures Held(s', x) || x in s'.closed {
      if x in s.known {
        HeldAfter(limit, s, step, x);
      }
    }
  }

  lemma KnownAfter(limit: nat, s: State, step: Step)
    requires Enabled(s, step)
    ensures var s' := Do(limit, s, step);
            && s.known <= s'.known
            && (step.Accept? ==> step.conn !in s.known && step.conn in s'.known)
            && (step.Dial? ==> step.upstream !in s.known && step.upstream in s'.known)
            && forall x :: x in s'.known && x !in s.known ==> Held(s', x)
  {
    var s' := Do(limit, s, step);
    assert step.Accept? ==> Holds(s', Acceptor, step.conn);
    assert step.Dial? ==> Holds(s', UpstreamOf(step.i), step.upstream);
  }

  lemma ReachableKept(limit: nat, s: State, step: Step)
    requires Inv(limit, s) && Enabled(s, step)
    ensures Reachable(Do(limit, s, step))
  {
    hide Counting, Unfinished;
    if step.UnregisterUpstream? || step.UnregisterClient? {
      assert Holds(s, ClientOf(step.i), s.handlers[step.i].client);
      assert step.UnregisterUpstream? ==> Holds(s, UpstreamOf(step.i), s.handlers[step.i].upstream);
      forall j | 0 <= j < |s.handlers| && j != step.i
        ensures !s.handlers[j].Leaving? && !s.handlers[j].Done? ==> Holds(s, ClientOf(j), s.handlers[j].client)
        ensures s.handlers[j].Relaying? || s.handlers[j].UnregisteringUpstream? ==> Holds(s, UpstreamOf(j), s.handlers[j].upstream)
      {
      }
    }
  }

  lemma {:induction false} RunInv(limit: nat, states: seq<State>, steps: seq<Step>, k: nat)
    requires Run(limit, states, steps) && k < |states|
    ensures Inv(limit, states[k])
  {
    if k == 0 {
      assert Inv(limit, states[0]);
    } else {
      RunInv(limit, states, steps, k - 1);
      hide Holding, Reachable, Counting, Enabled, Do;
      assert states[k - 1 + 1] == Do(limit, states[k - 1], steps[k - 1]);
      HoldingKept(limit, states[k - 1], steps[k - 1]);
      ReachableKept(limit, states[k - 1], steps[k - 1]);
      CountingKept(limit, states[k - 1], steps[k - 1]);
    }
  }

  // ----- what is registered, and what is still open -----

  /** The connections a handler has registered, unless the sweep took them. */
  ghost predicate Registers(h: HandlerPC, x: Conn) {
    || ((h.Dialling? || h.Dialled? || h.Relaying? || h.UnregisteringUpstream? || h.ClosingUpstream? || h.UnregisteringClient?)
        && h.client == x)
    || ((h.Relaying? || h.UnregisteringUpstream?) && h.upstream == x)
  }

  ghost predicate SomeRegisters(s: State, x: Conn) {
    exists i :: 0 <= i < |s.handlers| && Registers(s.handlers[i], x)
  }

  /** No registration outlives its handler. */
  ghost predicate NoneStale(s: State) {
    forall x :: x in s.registered ==> SomeRegisters(s, x)
  }

  /** A connection on its way to a handler, or of one that dials, but for what the sweep may close. */
  ghost predicate InUse(s: State, o: Holder) {
    match o
    case Acceptor => !s.accept.Accepting?
    case ClientOf(i) =>
      i < |s.handlers| && (s.handlers[i].Spawned? || ((s.handlers[i].Dialling? || s.handlers[i].Dialled?) && !s.closer.Swept?))
    case UpstreamOf(i) => i < |s.handlers| && s.handlers[i].Dialled?
  }

  /** Nothing in use is closed. */
  ghost predicate Usable(s: State) {
    forall o, x :: InUse(s, o) && Holds(s, o, x) ==> x !in s.closed
  }

  lemma NoneStaleKept(limit: nat, s: State, step: Step)
    requires Inv(limit, s) && NoneStale(s) && Enabled(s, step)
    ensures NoneStale(Do(limit, s, step))
  {
    hide Counting, Unfinished, Holding, Reachable;
    var s' := Do(limit, s, step);
    forall x | x in s'.registered ensures SomeRegisters(s', x) {
      if x in s.registered {
        var i :| 0 <= i < |s.handlers| && Registers(s.handlers[i], x);
        assert Registers(s'.handlers[i], x);
      } else {
        assert Registers(s'.handlers[step.i], x);
      }
    }
  }

  /** What the sweep takes is not in use behind it. */
  lemma SweptIsNotInUse(limit: nat, s: State, o: Holder, x: Conn)
    requires Inv(limit, s) && NoneStale(s) && s.closer.Sweeping? && x in s.registered
    ensures !(InUse(Do(limit, s, Sweep), o) && Holds(s, o, x))
  {
    hide Counting, Unfinished, Reachable;
    assert SomeRegisters(s, x);
    var i :| 0 <= i < |s.handlers| && Registers(s.handlers[i], x);
    assert Holds(s, ClientOf(i), x) || Holds(s, UpstreamOf(i), x);
  }

  /** Who closes a connection holds it, and does not use it afterwards. */
  lemma CloserHolds(limit: nat, s: State, step: Step, x: Conn) returns (o: Holder)
    requires Enabled(s, step) && !step.Sweep? && x in Do(limit, s, step).closed && x !in s.closed
    ensures Holds(s, o, x) && !InUse(Do(limit, s, step), o)
    ensures !step.Spawn?
  {
    if step.Reject? {
      o := Acceptor;
    } else if x == s.handlers[step.i].client {
      o := ClientOf(step.i);
    } else {
      o := UpstreamOf(step.i);
    }
  }

  /** What is in use after a step and was held before it was in use. */
  lemma InUseAfter(limit: nat, s: State, step: Step, o: Holder, x: Conn)
    requires Enabled(s, step) && InUse(Do(limit, s, step), o) && Holds(s, Before(s, step, o), x)
    ensures InUse(s, Before(s, step, o))
  {
  }

  lemma UsableKept(limit: nat, s: State, step: Step)
    requires Inv(limit, s) && NoneStale(s) && Usable(s) && Enabled(s, step)
    ensures Usable(Do(limit, s, step))
  {
    hide Do, Enabled, InUse, Holds, Counting, Reachable, NoneStale;
    var s' := Do(limit, s, step);
    forall o, x | InUse(s', o) && Holds(s', o, x) ensures x !in s'.closed {
      HoldsAfter(limit, s, step, o, x);
      ClosedIsKnown(limit, s, step);
      if x in s'.closed {
        if Holds(s, Before(s, step, o), x) {
          if x in s.closed {
            InUseAfter(limit, s, step, o, x);
          } else {
            ClosesNothingInUse(limit, s, step, o, x);
          }
        }
      }
    }
  }

  lemma ClosedIsKnown(limit: nat, s: State, step: Step)
    requires Holding(s) && Enabled(s, step)
    ensures Do(limit, s, step).closed <= s.known
    ensures step.Accept? ==> step.conn !in s.known
    ensures step.Dial? ==> step.upstream !in s.known
  {
    ClosedAfter(limit, s, step);
    KnownAfter(limit, s, step);
  }

  lemma ClosesNothingInUse(limit: nat, s: State, step: Step, o: Holder, x: Conn)
    requires Inv(limit, s) && NoneStale(s) && Enabled(s, step)
    requires InUse(Do(limit, s, step), o) && Holds(s, Before(s, step, o), x) && Holds(Do(limit, s, step), o, x)
    ensures x in Do(limit, s, step).closed ==> x in s.closed
  {
    hide InUse, Holds, Counting, Reachable, NoneStale;
    if x in Do(limit, s, step).closed && x !in s.closed {
      if step.Sweep? {
        SweptIsNotInUse(limit, s, o, x);
      } else {
        var closer := CloserHolds(limit, s, step, x);
      }
    }
  }

  lemma {:induction false} RunKeepsOpen(limit: nat, states: seq<State>, steps: seq<Step>, k: nat)
    requires Run(limit, states, steps) && k < |states|
    ensures NoneStale(states[k]) && Usable(states[k])
  {
    hide Inv, NoneStale, Usable, Enabled, Do;
    if k == 0 {
      NothingYet(states[0]);
    } else {
      RunInv(limit, states, steps, k - 1);
      RunKeepsOpen(limit, states, steps, k - 1);
      assert states[k - 1 + 1] == Do(limit, states[k - 1], steps[k - 1]);
      NoneStaleKept(limit, states[k - 1], steps[k - 1]);
      UsableKept(limit, states[k - 1], steps[k - 1]);
    }
  }

  lemma NothingYet(s: State)
    requires Init(s)
    ensures NoneStale(s) && Usable(s)
  {
  }

  // ----- what a run promises -----

  /** A connection is rejected exactly when as many handlers as the limit are unfinished; and until it has a
      handler it is open. */
  lemma RejectedIffFull(limit: nat, states: seq<State>, steps: seq<Step>, k: nat)
    requires Run(limit, states, steps) && k < |steps| && steps[k].LoadActive?
    ensures states[k + 1].accept.Rejecting? <==> Unfinished(states[k].handlers) == limit
    ensures !states[k + 1].accept.Rejecting? ==> states[k + 1].accept == Admitted(states[k].accept.conn)
    ensures states[k].accept.conn !in states[k].closed
  {
    hide Usable, NoneStale;
    RunInv(limit, states, steps, k);
    RunKeepsOpen(limit, states, steps, k);
    AcceptedIsOpen(states[k]);
    assert states[k + 1] == Do(limit, states[k], steps[k]);
  }

  lemma AcceptedIsOpen(s: State)
    requires Usable(s) && !s.accept.Accepting?
    ensures s.accept.conn !in s.closed
  {
    assert Holds(s, Acceptor, s.accept.conn);
  }

  /** Until the sweep, a handler dials with its client open, and finds its upstream open when it has dialled. */
  lemma DialsWithOpenClient(limit: nat, states: seq<State>, steps: seq<Step>, k: nat, i: nat)
    requires Run(limit, states, steps) && k < |states| && !states[k].closer.Swept?
    requires i < |states[k].handlers| && (states[k].handlers[i].Dialling? || states[k].handlers[i].Dialled?)
    ensures states[k].handlers[i].client !in states[k].closed
    ensures states[k].handlers[i].Dialled? ==> states[k].handlers[i].upstream !in states[k].closed
  {
    RunKeepsOpen(limit, states, steps, k);
    assert Holds(states[k], ClientOf(i), states[k].handlers[i].client);
    assert states[k].handlers[i].Dialled? ==> Holds(states[k], UpstreamOf(i), states[k].handlers[i].upstream);
  }

  /** Nothing stays registered once the handlers are done. */
  lemma NothingStaysRegistered(limit: nat, states: seq<State>, steps: seq<Step>, k: nat)
    requires Run(limit, states, steps) && k < |states|
    requires forall i :: 0 <= i < |states[k].handlers| ==> states[k].handlers[i].Done?
    ensures states[k].registered == {}
  {
    RunKeepsOpen(limit, states, steps, k);
    assert forall x :: x in states[k].registered ==> SomeRegisters(states[k], x);
  }

  /** activeConns counts the handlers that have not finished, and never exceeds the limit. */
  lemma LimitHolds(limit: nat, states: seq<State>, steps: seq<Step>, k: nat)
    requires Run(limit, states, steps) && k < |states|
    ensures var s := states[k];
            s.active == Unfinished(s.handlers) + (if s.accept.Counted? then 1 else 0) && s.active <= limit
  {
    RunInv(limit, states, steps, k);
  }

  lemma {:induction false} ClosedStays(limit: nat, states: seq<State>, steps: seq<Step>, j: nat, k: nat)
    requires Run(limit, states, steps) && j <= k < |states|
    ensures states[j].closed <= states[k].closed
    ensures states[j].closer.Swept? ==> states[k].closer.Swept?
  {
    if j == k {
    } else {
      ClosedStays(limit, states, steps, j, k - 1);
      assert states[k - 1 + 1] == Do(limit, states[k - 1], steps[k - 1]);
    }
  }

  /** After the sweep of Close the registered set stays empty, and what was in it is closed. */
  lemma SweepIsFinal(limit: nat, states: seq<State>, steps: seq<Step>, j: nat, k: nat)
    requires Run(limit, states, steps) && j < k < |states| && steps[j].Sweep?
    ensures states[k].registered == {} && states[j].registered <= states[k].closed
  {
    assert states[j + 1] == Do(limit, states[j], steps[j]);
    ClosedStays(limit, states, steps, j + 1, k);
    RunInv(limit, states, steps, k);
  }

  /** From then on no relay has an open connection, whenever it registered. */
  lemma SweepReachesEveryRelay(limit: nat, states: seq<State>, steps: seq<Step>, k: nat, i: nat)
    requires Run(limit, states, steps) && k < |states| && states[k].closer.Swept?
    requires i < |states[k].handlers| && states[k].handlers[i].Relaying?
    ensures states[k].handlers[i].client in states[k].closed && states[k].handlers[i].upstream in states[k].closed
  {
    RunInv(limit, states, steps, k);
  }

  /** When the accept loop holds no connection and every handler is done, all connections are closed. */
  lemma NothingLeaks(limit: nat, states: seq<State>, steps: seq<Step>, k: nat)
    requires Run(limit, states, steps) && k < |states| && states[k].accept.Accepting?
    requires forall i :: 0 <= i < |states[k].handlers| ==> states[k].handlers[i].Done?
    ensures states[k].known == states[k].closed
  {
    RunInv(limit, states, steps, k);
    forall x | x in states[k].known ensures x in states[k].closed {
      assert !Held(states[k], x);
    }
  }
}
