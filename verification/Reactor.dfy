/** The reactor as a step system: one accept loop, a pool of workers on a bounded task channel, and a
    shutdown that races with all of them. Lock-protected sections and channel operations are one step each. */
module Reactor {

  type Conn = nat

  datatype Config = Config(workers: nat, queueSize: nat)

  /** Where the goroutine of Serve stands. */
  datatype AcceptPC =
    | Accepting                  // in listener.Accept
    | Accepted(conn: Conn)       // before the look at isShutdown
    | Rejecting(conn: Conn)      // shutting down: before Close
    | Admitted(conn: Conn)       // before trackConn(conn, true)
    | Sending(conn: Conn)        // in the select that sends the task
    | Untracking(conn: Conn)     // context done: before trackConn(conn, false)
    | Dropping(conn: Conn)       // before Close
    | ClosingQueue               // deferred: before close(tasks)
    | Waiting                    // deferred: in wg.Wait
    | Returned

  datatype WorkerPC =
    | Idle                       // in the outer select
    | Holding(conn: Conn)        // received, before the handler
    | Handling(conn: Conn)       // in the handler
    | Finished(conn: Conn)       // closed, before trackConn(conn, false)
    | Draining                   // context done: in the inner select
    | DrainHolding(conn: Conn)   // received, before trackConn(conn, false)
    | DrainClosing(conn: Conn)   // before Close
    | Exited

  datatype ShutdownPC = NotCalled | Cancelling | ClosingListener | Sweeping | Swept

  datatype State = State(
    accept: AcceptPC,
    queue: seq<Conn>,
    queueClosed: bool,
    workers: seq<WorkerPC>,
    shutdown: ShutdownPC,
    isShutdown: bool,
    cancelled: bool,
    conns: set<Conn>,            // tracked
    closed: set<Conn>,
    accepted: set<Conn>,         // every connection Accept ever returned
    handled: set<Conn>)          // every connection a handler was ever started for

  ghost predicate Init(c: Config, s: State) {
    && c.workers > 0 && c.queueSize > 0
    && s.accept == Accepting && s.queue == [] && !s.queueClosed
    && |s.workers| == c.workers && (forall i :: 0 <= i < |s.workers| ==> s.workers[i] == Idle)
    && s.shutdown == NotCalled && !s.isShutdown && !s.cancelled
    && s.conns == {} && s.closed == {} && s.accepted == {} && s.handled == {}
  }

  // ----- steps -----

  datatype Step =
    | Accept(conn: Conn) | AcceptError(fatal: bool) | LookAtShutdown | Reject | Track | Send | CancelSend
    | UntrackUnsent | DropUnsent | CloseQueue | Return
    | Receive(i: nat) | StartHandler(i: nat) | HandlerCloses(i: nat) | EndHandler(i: nat) | Untrack(i: nat)
    | SeeClosedQueue(i: nat) | SeeCancel(i: nat) | DrainReceive(i: nat) | DrainUntrack(i: nat) | DrainClose(i: nat)
    | DrainEnd(i: nat)
    | CallShutdown | Cancel | CloseListener | Sweep

  predicate WorkerEnabled(s: State, i: nat, step: Step) {
    i < |s.workers| &&
    var w := s.workers[i];
    match step
    case Receive(_) => w.Idle? && s.queue != []
    case StartHandler(_) => w.Holding?
    case HandlerCloses(_) => w.Handling?
    case EndHandler(_) => w.Handling?
    case Untrack(_) => w.Finished?
    case SeeClosedQueue(_) => w.Idle? && s.queue == [] && s.queueClosed
    case SeeCancel(_) => w.Idle? && s.cancelled
    case DrainReceive(_) => w.Draining? && s.queue != []
    case DrainUntrack(_) => w.DrainHolding?
    case DrainClose(_) => w.DrainClosing?
    case DrainEnd(_) => w.Draining? && s.queue == []
    case _ => false
  }

  predicate Enabled(c: Config, s: State, step: Step) {
    match step
    case Accept(conn) => s.accept.Accepting? && conn !in s.accepted
    case AcceptError(fatal) => s.accept.Accepting? && (s.isShutdown ==> fatal)
    case LookAtShutdown => s.accept.Accepted?
    case Reject => s.accept.Rejecting?
    case Track => s.accept.Admitted?
    case Send => s.accept.Sending? && |s.queue| < c.queueSize
    case CancelSend => s.accept.Sending? && s.cancelled
    case UntrackUnsent => s.accept.Untracking?
    case DropUnsent => s.accept.Dropping?
    case CloseQueue => s.accept.ClosingQueue?
    case Return => s.accept.Waiting? && forall i :: 0 <= i < |s.workers| ==> s.workers[i].Exited?
    case CallShutdown => s.shutdown.NotCalled?
    case Cancel => s.shutdown.Cancelling?
    case CloseListener => s.shutdown.ClosingListener?
    case Sweep => s.shutdown.Sweeping?
    case _ => WorkerEnabled(s, step.i, step)
  }

  function Do(c: Config, s: State, step: Step): State
    requires Enabled(c, s, step)
  {
    match step
    case Accept(conn) => s.(accept := Accepted(conn), accepted := s.accepted + {conn})
    case AcceptError(fatal) => if fatal then s.(accept := ClosingQueue) else s
    case LookAtShutdown =>
      s.(accept := if s.isShutdown then Rejecting(s.accept.conn) else Admitted(s.accept.conn))
    case Reject => s.(accept := ClosingQueue, closed := s.closed + {s.accept.conn})
    case Track =>
      s.(accept := Sending(s.accept.conn), conns := s.conns + {s.accept.conn},
         closed := if s.isShutdown then s.closed + {s.accept.conn} else s.closed)
    case Send => s.(accept := Accepting, queue := s.queue + [s.accept.conn])
    case CancelSend => s.(accept := Untracking(s.accept.conn))
    case UntrackUnsent => s.(accept := Dropping(s.accept.conn), conns := s.conns - {s.accept.conn})
    case DropUnsent => s.(accept := ClosingQueue, closed := s.closed + {s.accept.conn})
    case CloseQueue => s.(accept := Waiting, queueClosed := true)
    case Return => s.(accept := Returned)
    case Receive(i) => s.(queue := s.queue[1..], workers := s.workers[i := Holding(s.queue[0])])
    case StartHandler(i) =>
      s.(workers := s.workers[i := Handling(s.workers[i].conn)], handled := s.handled + {s.workers[i].conn})
    case HandlerCloses(i) => s.(closed := s.closed + {s.workers[i].conn})
    case EndHandler(i) =>
      s.(workers := s.workers[i := Finished(s.workers[i].conn)], closed := s.closed + {s.workers[i].conn})
    case Untrack(i) => s.(workers := s.workers[i := Idle], conns := s.conns - {s.workers[i].conn})
    case SeeClosedQueue(i) => s.(workers := s.workers[i := Exited])
    case SeeCancel(i) => s.(workers := s.workers[i := Draining])
    case DrainReceive(i) => s.(queue := s.queue[1..], workers := s.workers[i := DrainHolding(s.queue[0])])
    case DrainUntrack(i) =>
      s.(workers := s.workers[i := DrainClosing(s.workers[i].conn)], conns := s.conns - {s.workers[i].conn})
    case DrainClose(i) => s.(workers := s.workers[i := Draining], closed := s.closed + {s.workers[i].conn})
    case DrainEnd(i) => s.(workers := s.workers[i := Exited])
    case CallShutdown => s.(shutdown := Cancelling, isShutdown := true)
    case Cancel => s.(shutdown := ClosingListener, cancelled := true)
    case CloseListener => s.(shutdown := Sweeping)
    case Sweep => s.(shutdown := Swept, closed := s.closed + s.conns)
  }

  ghost predicate Run(c: Config, states: seq<State>, steps: seq<Step>) {
    && |states| == |steps| + 1 && Init(c, states[0])
    && forall k :: 0 <= k < |steps| ==> Enabled(c, states[k], steps[k]) && states[k + 1] == Do(c, states[k], steps[k])
  }

  // ----- what every step keeps -----

  function AcceptHolds(pc: AcceptPC): set<Conn> {
    if pc.Accepted? || pc.Rejecting? || pc.Admitted? || pc.Sending? || pc.Untracking? || pc.Dropping? then {pc.conn} else {}
  }

  function WorkerHolds(pc: WorkerPC): set<Conn> {
    if pc.Holding? || pc.Handling? || pc.Finished? || pc.DrainHolding? || pc.DrainClosing? then {pc.conn} else {}
  }

  function Held(ws: seq<WorkerPC>): set<Conn> {
    set i, x | 0 <= i < |ws| && x in WorkerHolds(ws[i]) :: x
  }

  function Queued(q: seq<Conn>): set<Conn> {
    set x | x in q
  }

  /** A connection is in one place: with the accept loop, in the queue, or with one worker. */
  ghost predicate OnePlace(s: State) {
    && (forall j, k :: 0 <= j < k < |s.queue| ==> s.queue[j] != s.queue[k])
    && (forall i, k :: 0 <= i < k < |s.workers| ==> WorkerHolds(s.workers[i]) !! WorkerHolds(s.workers[k]))
    && AcceptHolds(s.accept) !! Queued(s.queue)
    && AcceptHolds(s.accept) !! Held(s.workers)
    && Queued(s.queue) !! Held(s.workers)
    && AcceptHolds(s.accept) + Queued(s.queue) + Held(s.workers) <= s.accepted
  }

  /** Tracked connections are in a place; queued ones are tracked; what left every place is closed. */
  ghost predicate Tracked(s: State) {
    && s.conns <= AcceptHolds(s.accept) + Queued(s.queue) + Held(s.workers)
    && Queued(s.queue) <= s.conns
    && (s.accept.Accepted? || s.accept.Rejecting? || s.accept.Admitted? || s.accept.Dropping? ==> s.accept.conn !in s.conns)
    && (s.accept.Sending? ==> s.accept.conn in s.conns)
    && s.accepted - AcceptHolds(s.accept) - Queued(s.queue) - Held(s.workers) <= s.closed
    && (forall i :: 0 <= i < |s.workers| && s.workers[i].Finished? ==> s.workers[i].conn in s.closed)
    && (forall i :: 0 <= i < |s.workers| && s.workers[i].DrainClosing? ==> s.workers[i].conn !in s.conns)
  }

  /** Handlers were started only for connections that are past the queue and the hand-over. */
  ghost predicate HandledOnce(s: State) {
    && s.handled <= s.accepted
    && s.handled !! AcceptHolds(s.accept)
    && s.handled !! Queued(s.queue)
    && (forall i :: 0 <= i < |s.workers| && (s.workers[i].Holding? || s.workers[i].DrainHolding?) ==>
          s.workers[i].conn !in s.handled)
  }

  ghost predicate Phases(c: Config, s: State) {
    && c.workers > 0 && |s.workers| == c.workers && |s.queue| <= c.queueSize
    && (s.queueClosed <==> s.accept.Waiting? || s.accept.Returned?)
    && (s.accept.Returned? ==> forall i :: 0 <= i < |s.workers| ==> s.workers[i].Exited?)
    && (s.isShutdown <==> !s.shutdown.NotCalled?)
    && (s.cancelled <==> s.shutdown.ClosingListener? || s.shutdown.Sweeping? || s.shutdown.Swept?)
    && (forall i :: 0 <= i < |s.workers| && (s.workers[i].Draining? || s.workers[i].DrainHolding? || s.workers[i].DrainClosing?) ==>
          s.cancelled)
    && (forall i :: 0 <= i < |s.workers| && s.workers[i].Exited? ==> s.cancelled || (s.queueClosed && s.queue == []))
    && (s.shutdown.Swept? ==> s.conns <= s.closed)
  }

  ghost predicate Inv(c: Config, s: State) {
    OnePlace(s) && Tracked(s) && HandledOnce(s) && Phases(c, s)
  }

  lemma HeldUpdate(ws: seq<WorkerPC>, i: nat, pc: WorkerPC)
    requires i < |ws|
    requires forall j, k :: 0 <= j < k < |ws| ==> WorkerHolds(ws[j]) !! WorkerHolds(ws[k])
    ensures Held(ws[i := pc]) == Held(ws) - WorkerHolds(ws[i]) + WorkerHolds(pc)
  {
    var ws' := ws[i := pc];
    forall x ensures x in Held(ws') <==> x in Held(ws) - WorkerHolds(ws[i]) + WorkerHolds(pc) {
      if x in Held(ws') {
        var j :| 0 <= j < |ws'| && x in WorkerHolds(ws'[j]);
      }
      if x in Held(ws) && x !in WorkerHolds(ws[i]) {
        var j :| 0 <= j < |ws| && x in WorkerHolds(ws[j]);
        assert x in WorkerHolds(ws'[j]);
      }
      if x in WorkerHolds(pc) {
        assert x in WorkerHolds(ws'[i]);
      }
    }
  }

  lemma InitInv(c: Config, s: State)
    requires Init(c, s)
    ensures Inv(c, s)
  {
  }

  predicate AcceptStep(step: Step) {
    step.Accept? || step.AcceptError? || step.LookAtShutdown? || step.Reject? || step.Track? || step.Send?
    || step.CancelSend? || step.UntrackUnsent? || step.DropUnsent? || step.CloseQueue? || step.Return?
  }

  predicate ShutdownStep(step: Step) {
    step.CallShutdown? || step.Cancel? || step.CloseListener? || step.Sweep?
  }

  lemma QueuedAppend(q: seq<Conn>, x: Conn)
    ensures Queued(q + [x]) == Queued(q) + {x}
  {
  }

  lemma QueuedPop(q: seq<Conn>)
    requires q != [] && forall j, k :: 0 <= j < k < |q| ==> q[j] != q[k]
    ensures Queued(q[1..]) == Queued(q) - {q[0]} && q[0] in Queued(q)
    ensures forall j, k :: 0 <= j < k < |q[1..]| ==> q[1..][j] != q[1..][k]
  {
    assert q == [q[0]] + q[1..];
  }

  lemma AcceptKeepsPlaces(c: Config, s: State, step: Step)
    requires Inv(c, s) && Enabled(c, s, step) && AcceptStep(step)
    ensures OnePlace(Do(c, s, step)) && HandledOnce(Do(c, s, step))
  {
    hide Held, Queued;
    if step.Send? {
      QueuedAppend(s.queue, s.accept.conn);
    }
    QueuedMembers(s.queue);
    HeldMembers(s.workers);
  }

  lemma AcceptKeeps(c: Config, s: State, step: Step)
    requires Inv(c, s) && Enabled(c, s, step) && AcceptStep(step)
    ensures Inv(c, Do(c, s, step))
  {
    hide Held, Queued;
    AcceptKeepsPlaces(c, s, step);
    HeldMembers(s.workers);
    if step.Send? {
      QueuedAppend(s.queue, s.accept.conn);
    }
  }

  lemma QueuedMembers(q: seq<Conn>)
    ensures forall k :: 0 <= k < |q| ==> q[k] in Queued(q)
  {
  }

  lemma HeldMembers(ws: seq<WorkerPC>)
    ensures forall i :: 0 <= i < |ws| ==> WorkerHolds(ws[i]) <= Held(ws)
  {
  }

  lemma ShutdownKeeps(c: Config, s: State, step: Step)
    requires Inv(c, s) && Enabled(c, s, step) && ShutdownStep(step)
    ensures Inv(c, Do(c, s, step))
  {
    hide Held, Queued;
  }

  /** A worker's step moves a connection from the queue to the worker, lets it go, or moves none. */
  lemma WorkerMoves(c: Config, s: State, step: Step)
    requires Inv(c, s) && Enabled(c, s, step) && !AcceptStep(step) && !ShutdownStep(step)
    ensures var s', i := Do(c, s, step), step.i;
            var before, after := WorkerHolds(s.workers[i]), WorkerHolds(s'.workers[i]);
            && Held(s'.workers) == Held(s.workers) - before + after
            && before <= Held(s.workers)
            && (step.Receive? || step.DrainReceive? ==>
                  && before == {} && after == {s.queue[0]} <= Queued(s.queue)
                  && Queued(s'.queue) == Queued(s.queue) - after)
            && (!step.Receive? && !step.DrainReceive? ==>
                  s'.queue == s.queue && after == if step.Untrack? || step.DrainClose? then {} else before)
  {
    hide Held, Queued;
    var s', i := Do(c, s, step), step.i;
    assert s'.workers == s.workers[i := s'.workers[i]];
    HeldUpdate(s.workers, i, s'.workers[i]);
    HeldMembers(s.workers);
    if step.Receive? || step.DrainReceive? {
      QueuedPop(s.queue);
    }
  }

  /** A task is received. */
  lemma TakeKeeps(c: Config, s: State, step: Step)
    requires Inv(c, s) && Enabled(c, s, step) && (step.Receive? || step.DrainReceive?)
    ensures Inv(c, Do(c, s, step))
  {
    hide Held, Queued;
    WorkerMoves(c, s, step);
    HeldMembers(s.workers);
    QueuedMembers(s.queue);
  }

  /** A handler starts, closes its connection itself, or ends. */
  lemma HandlerKeeps(c: Config, s: State, step: Step)
    requires Inv(c, s) && Enabled(c, s, step) && (step.StartHandler? || step.HandlerCloses? || step.EndHandler?)
    ensures Inv(c, Do(c, s, step))
  {
    hide Held, Queued;
    WorkerMoves(c, s, step);
    HeldMembers(s.workers);
    QueuedMembers(s.queue);
  }

  /** A connection is untracked or let go. */
  lemma LetGoKeeps(c: Config, s: State, step: Step)
    requires Inv(c, s) && Enabled(c, s, step) && (step.Untrack? || step.DrainUntrack? || step.DrainClose?)
    ensures Inv(c, Do(c, s, step))
  {
    hide Held, Queued;
    WorkerMoves(c, s, step);
    HeldMembers(s.workers);
    QueuedMembers(s.queue);
  }

  /** A worker turns to draining, or exits. */
  lemma LeaveKeeps(c: Config, s: State, step: Step)
    requires Inv(c, s) && Enabled(c, s, step) && (step.SeeClosedQueue? || step.SeeCancel? || step.DrainEnd?)
    ensures Inv(c, Do(c, s, step))
  {
    hide Held, Queued;
    WorkerMoves(c, s, step);
    HeldMembers(s.workers);
    QueuedMembers(s.queue);
  }

  lemma WorkerKeeps(c: Config, s: State, step: Step)
    requires Inv(c, s) && Enabled(c, s, step) && !AcceptStep(step) && !ShutdownStep(step)
    ensures Inv(c, Do(c, s, step))
  {
    hide Inv, Do;
    if step.Receive? || step.DrainReceive? { TakeKeeps(c, s, step); }
    else if step.StartHandler? || step.HandlerCloses? || step.EndHandler? { HandlerKeeps(c, s, step); }
    else if step.Untrack? || step.DrainUntrack? || step.DrainClose? { LetGoKeeps(c, s, step); }
    else { LeaveKeeps(c, s, step); }
  }

  lemma {:induction false} RunInv(c: Config, states: seq<State>, steps: seq<Step>, k: nat)
    requires Run(c, states, steps) && k < |states|
    ensures Inv(c, states[k])
  {
    hide Inv, Enabled, Do, Init;
    if k == 0 {
      InitInv(c, states[0]);
    } else {
      RunInv(c, states, steps, k - 1);
      var s, step := states[k - 1], steps[k - 1];
      assert states[k - 1 + 1] == Do(c, s, step);
      if AcceptStep(step) {
        AcceptKeeps(c, s, step);
      } else if ShutdownStep(step) {
        ShutdownKeeps(c, s, step);
      } else {
        WorkerKeeps(c, s, step);
      }
    }
  }

  // ----- what a run promises -----

  /** Once the sweep is done, every tracked connection is closed, in that state and in every later one. */
  lemma SweptMeansClosed(c: Config, states: seq<State>, steps: seq<Step>, j: nat, k: nat)
    requires Run(c, states, steps) && j <= k < |states| && states[j].shutdown.Swept?
    ensures states[k].shutdown.Swept? && states[k].conns <= states[k].closed
  {
    StaysSwept(c, states, steps, j, k);
    RunInv(c, states, steps, k);
  }

  lemma StepGrows(c: Config, s: State, step: Step)
    requires Enabled(c, s, step)
    ensures s.handled <= Do(c, s, step).handled
    ensures s.shutdown.Swept? ==> Do(c, s, step).shutdown.Swept?
  {
  }

  lemma {:induction false} StaysSwept(c: Config, states: seq<State>, steps: seq<Step>, j: nat, k: nat)
    requires Run(c, states, steps) && j <= k < |states| && states[j].shutdown.Swept?
    ensures states[k].shutdown.Swept?
  {
    hide Do, Enabled, Init;
    if j == k {
    } else {
      StaysSwept(c, states, steps, j, k - 1);
      assert states[k - 1 + 1] == Do(c, states[k - 1], steps[k - 1]);
      StepGrows(c, states[k - 1], steps[k - 1]);
    }
  }

  lemma {:induction false} HandledGrows(c: Config, states: seq<State>, steps: seq<Step>, j: nat, k: nat)
    requires Run(c, states, steps) && j <= k < |states|
    ensures states[j].handled <= states[k].handled
  {
    hide Do, Enabled, Init;
    if j == k {
    } else {
      HandledGrows(c, states, steps, j, k - 1);
      assert states[k - 1 + 1] == Do(c, states[k - 1], steps[k - 1]);
      StepGrows(c, states[k - 1], steps[k - 1]);
    }
  }

  /** No connection reaches the handler twice. */
  lemma HandledAtMostOnce(c: Config, states: seq<State>, steps: seq<Step>, j: nat, k: nat)
    requires Run(c, states, steps) && j < k < |steps| && steps[j].StartHandler? && steps[k].StartHandler?
    ensures states[j].workers[steps[j].i].conn != states[k].workers[steps[k].i].conn
  {
    RunInv(c, states, steps, k);
    HandledGrows(c, states, steps, j + 1, k);
  }

  /** The task channel is open whenever a task is sent, and is closed at most once. */
  lemma NeverSendsOnClosed(c: Config, states: seq<State>, steps: seq<Step>, k: nat)
    requires Run(c, states, steps) && k < |steps| && (steps[k].Send? || steps[k].CloseQueue?)
    ensures !states[k].queueClosed
  {
    RunInv(c, states, steps, k);
  }

  lemma {:induction false} HeldSize(ws: seq<WorkerPC>)
    ensures |Held(ws)| <= |ws|
  {
    if ws != [] {
      var n := |ws| - 1;
      HeldSize(ws[..n]);
      assert forall x :: x in Held(ws) ==> x in Held(ws[..n]) + WorkerHolds(ws[n]) by {
        forall x | x in Held(ws) ensures x in Held(ws[..n]) + WorkerHolds(ws[n]) {
          var i :| 0 <= i < |ws| && x in WorkerHolds(ws[i]);
          if i < n { assert ws[..n][i] == ws[i]; }
        }
      }
      SubsetSize(Held(ws), Held(ws[..n]) + WorkerHolds(ws[n]));
    } else {
      assert Held(ws) == {};
    }
  }

  lemma {:induction false} QueuedSize(q: seq<Conn>)
    ensures |Queued(q)| <= |q|
  {
    if q != [] {
      QueuedSize(q[1..]);
      assert Queued(q) == {q[0]} + Queued(q[1..]);
    } else {
      assert Queued(q) == {};
    }
  }

  lemma {:induction false} SubsetSize<T>(a: set<T>, b: set<T>)
    requires a <= b
    ensures |a| <= |b|
  {
    if a == {} {
    } else {
      var x :| x in a;
      SubsetSize(a - {x}, b - {x});
    }
  }

  /** Backpressure: tracked connections never exceed the queue, the workers and the one in the accept loop. */
  lemma TrackedBound(c: Config, states: seq<State>, steps: seq<Step>, k: nat)
    requires Run(c, states, steps) && k < |states|
    ensures |states[k].conns| <= c.queueSize + c.workers + 1
  {
    var s := states[k];
    RunInv(c, states, steps, k);
    HeldSize(s.workers);
    QueuedSize(s.queue);
    SubsetSize(s.conns, AcceptHolds(s.accept) + Queued(s.queue) + Held(s.workers));
  }

  /** When Serve has returned, every connection it ever accepted is closed, unless a shutdown began and
      has not swept yet. */
  lemma NothingLeaks(c: Config, states: seq<State>, steps: seq<Step>, k: nat)
    requires Run(c, states, steps) && k < |states| && states[k].accept.Returned?
    requires states[k].isShutdown ==> states[k].shutdown.Swept?
    ensures states[k].accepted <= states[k].closed
  {
    var s := states[k];
    RunInv(c, states, steps, k);
    assert s.workers[0].Exited?;
    assert Held(s.workers) == {};
    assert s.queue == [] ==> Queued(s.queue) == {};
  }

  // ----- as long as nobody shuts down -----

  /** Accepted, and not yet in the hands of a handler. */
  ghost predicate Waits(s: State, x: Conn) {
    || x in AcceptHolds(s.accept) || x in Queued(s.queue)
    || exists i :: 0 <= i < |s.workers| && s.workers[i].Holding? && s.workers[i].conn == x
  }

  /** Nothing is turned away: every accepted connection waits for its handler or has had it, and is open until then. */
  ghost predicate Serving(s: State) {
    && (forall i :: 0 <= i < |s.workers| && (s.workers[i].Handling? || s.workers[i].Finished?) ==> s.workers[i].conn in s.handled)
    && (!s.isShutdown ==>
          && !s.accept.Rejecting? && !s.accept.Untracking? && !s.accept.Dropping?
          && (forall x :: x in s.accepted ==> x in s.handled || Waits(s, x))
          && s.closed <= s.handled)
  }

  lemma WaitsAfter(c: Config, s: State, step: Step, x: Conn)
    requires Inv(c, s) && Enabled(c, s, step) && !Do(c, s, step).isShutdown && Serving(s)
    requires Waits(s, x)
    ensures x in Do(c, s, step).handled || Waits(Do(c, s, step), x)
  {
    hide Held, Queued, Waits, OnePlace, Tracked, HandledOnce;
    if x in AcceptHolds(s.accept) {
      AcceptedWaits(c, s, step, x);
    } else if x in Queued(s.queue) {
      QueuedWaits(c, s, step, x);
    } else {
      HeldWaits(c, s, step, x);
    }
  }

  lemma AcceptedWaits(c: Config, s: State, step: Step, x: Conn)
    requires Inv(c, s) && Enabled(c, s, step) && Serving(s) && !Do(c, s, step).isShutdown && x in AcceptHolds(s.accept)
    ensures Waits(Do(c, s, step), x)
  {
    hide Held, OnePlace, Tracked, HandledOnce;
    if step.Send? {
      QueuedAppend(s.queue, s.accept.conn);
    }
  }

  lemma QueuedWaits(c: Config, s: State, step: Step, x: Conn)
    requires Inv(c, s) && Enabled(c, s, step) && Serving(s) && !Do(c, s, step).isShutdown && x in Queued(s.queue)
    ensures Waits(Do(c, s, step), x)
  {
    hide Held, Tracked, HandledOnce, Serving;
    var s' := Do(c, s, step);
    if step.Receive? {
      QueuedPop(s.queue);
      assert x == s.queue[0] ==> s'.workers[step.i].Holding? && s'.workers[step.i].conn == x;
    }
  }

  lemma HeldWaits(c: Config, s: State, step: Step, x: Conn)
    requires Inv(c, s) && Enabled(c, s, step) && Waits(s, x) && x !in AcceptHolds(s.accept) && x !in Queued(s.queue)
    ensures x in Do(c, s, step).handled || Waits(Do(c, s, step), x)
  {
    hide Held, OnePlace, Tracked, HandledOnce, Serving;
    var s' := Do(c, s, step);
    var i :| 0 <= i < |s.workers| && s.workers[i].Holding? && s.workers[i].conn == x;
    if !(step.StartHandler? && step.i == i) {
      assert s'.workers[i] == s.workers[i];
    }
  }

  lemma JustAccepted(s: State, x: Conn)
    requires s.accept == Accepted(x)
    ensures Waits(s, x)
  {
  }

  lemma ServingKept(c: Config, s: State, step: Step)
    requires Inv(c, s) && Serving(s) && Enabled(c, s, step)
    ensures Serving(Do(c, s, step))
  {
    hide Waits, Held, Queued, HandledOnce, OnePlace, Tracked;
    var s' := Do(c, s, step);
    if !s'.isShutdown {
      forall x | x in s'.accepted ensures x in s'.handled || Waits(s', x) {
        if x in s.accepted {
          if x !in s.handled {
            WaitsAfter(c, s, step, x);
          }
        } else {
          JustAccepted(s', x);
        }
      }
    }
  }

  lemma {:induction false} RunServes(c: Config, states: seq<State>, steps: seq<Step>, k: nat)
    requires Run(c, states, steps) && k < |states|
    ensures Serving(states[k])
  {
    hide Inv, Serving, Enabled, Do;
    if k == 0 {
      ServesInitially(c, states[0]);
    } else {
      RunInv(c, states, steps, k - 1);
      RunServes(c, states, steps, k - 1);
      assert states[k - 1 + 1] == Do(c, states[k - 1], steps[k - 1]);
      ServingKept(c, states[k - 1], steps[k - 1]);
    }
  }

  lemma ServesInitially(c: Config, s: State)
    requires Init(c, s)
    ensures Serving(s)
  {
  }

  /** Only a shutdown turns connections away: before one is called, every accepted connection waits for its
      handler or has had it, and none is closed that has not. */
  lemma NoneTurnedAway(c: Config, states: seq<State>, steps: seq<Step>, k: nat, x: Conn)
    requires Run(c, states, steps) && k < |states| && !states[k].isShutdown
    ensures x in states[k].accepted ==> x in states[k].handled || Waits(states[k], x)
    ensures x in states[k].closed ==> x in states[k].handled
  {
    RunServes(c, states, steps, k);
  }

  /** When Serve has returned without a shutdown, every connection it accepted was handled, once. */
  lemma AllHandled(c: Config, states: seq<State>, steps: seq<Step>, k: nat)
    requires Run(c, states, steps) && k < |states| && states[k].accept.Returned? && !states[k].isShutdown
    ensures states[k].handled == states[k].accepted
  {
    var s := states[k];
    RunServes(c, states, steps, k);
    RunInv(c, states, steps, k);
    assert s.workers[0].Exited?;
    assert Queued(s.queue) == {};
    assert forall x :: x in s.accepted ==> !Waits(s, x);
  }

  // ----- nothing gets stuck -----

  /** A step of the accept loop or of a worker, other than taking a new connection or an error of the listener. */
  predicate OnwardStep(step: Step) {
    !step.Accept? && !step.AcceptError? && !ShutdownStep(step)
  }

  ghost predicate CanGoOn(c: Config, s: State) {
    exists step :: OnwardStep(step) && Enabled(c, s, step)
  }

  /** What a worker that has not exited, and does not wait for a task, does next. */
  function NextOf(s: State, i: nat): Step
    requires i < |s.workers|
  {
    match s.workers[i]
    case Idle => if s.queue != [] then Receive(i) else if s.cancelled then SeeCancel(i) else SeeClosedQueue(i)
    case Holding(_) => StartHandler(i)
    case Handling(_) => EndHandler(i)
    case Finished(_) => Untrack(i)
    case Draining => if s.queue != [] then DrainReceive(i) else DrainEnd(i)
    case DrainHolding(_) => DrainUntrack(i)
    case DrainClosing(_) => DrainClose(i)
    case Exited => SeeClosedQueue(i)
  }

  lemma WorkerGoesOn(c: Config, s: State, i: nat)
    requires i < |s.workers| && !s.workers[i].Exited?
    requires s.workers[i].Idle? ==> s.queue != [] || s.cancelled || s.queueClosed
    ensures CanGoOn(c, s)
  {
    var step := NextOf(s, i);
    assert OnwardStep(step) && Enabled(c, s, step);
  }

  /** Once Serve has a connection in hand, or has left its loop, it or a worker can always go on until it has
      returned: a full queue is emptied, a shutdown or a closed queue lets the workers exit. */
  lemma NeverStuck(c: Config, states: seq<State>, steps: seq<Step>, k: nat)
    requires Run(c, states, steps) && k < |states| && !states[k].accept.Accepting? && !states[k].accept.Returned?
    ensures CanGoOn(c, states[k])
  {
    hide OnePlace, Tracked, HandledOnce, CanGoOn;
    var s := states[k];
    RunInv(c, states, steps, k);
    match s.accept {
      case Accepted(_) => AcceptGoesOn(c, s, LookAtShutdown);
      case Rejecting(_) => AcceptGoesOn(c, s, Reject);
      case Admitted(_) => AcceptGoesOn(c, s, Track);
      case Sending(_) =>
        if |s.queue| < c.queueSize {
          AcceptGoesOn(c, s, Send);
        } else if s.cancelled {
          AcceptGoesOn(c, s, CancelSend);
        } else {
          QueueHasRoom(c, states, steps, k);
          WorkerGoesOn(c, s, 0);
        }
      case Untracking(_) => AcceptGoesOn(c, s, UntrackUnsent);
      case Dropping(_) => AcceptGoesOn(c, s, DropUnsent);
      case ClosingQueue => AcceptGoesOn(c, s, CloseQueue);
      case Waiting =>
        if i :| 0 <= i < |s.workers| && !s.workers[i].Exited? {
          WorkerGoesOn(c, s, i);
        } else {
          AcceptGoesOn(c, s, Return);
        }
    }
  }

  lemma QueueHasRoom(c: Config, states: seq<State>, steps: seq<Step>, k: nat)
    requires Run(c, states, steps) && k < |states|
    ensures c.queueSize > 0
  {
  }

  lemma AcceptGoesOn(c: Config, s: State, step: Step)
    requires OnwardStep(step) && Enabled(c, s, step)
    ensures CanGoOn(c, s)
  {
  }
}
