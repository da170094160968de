/** The pooled datagram buffers of the UDP proxy as a step system: the reader, the bounded packet queue,
    the workers and the response readers pass them around; each has one holder at a time. */
module UdpBuffers {

  type Buffer = nat

  datatype ReaderPC =
    | Getting                   // before bufPool.Get
    | Reading(buf: Buffer)      // in ReadFromUDPAddrPort
    | Offering(buf: Buffer)     // in the select on the packet queue
    | Leaving                   // deferred: before close(packetQueue)
    | Waiting                   // deferred: in workerWg.Wait
    | Returned

  datatype WorkerPC = Idle | Forwarding(buf: Buffer) | Exited

  datatype ResponderPC = RGetting | RReading(buf: Buffer) | Replying(buf: Buffer) | Ended

  datatype State = State(
    pool: set<Buffer>,
    made: set<Buffer>,          // every buffer the pool ever allocated
    reader: ReaderPC,
    queue: seq<Buffer>,
    queueClosed: bool,
    workers: seq<WorkerPC>,
    responders: seq<ResponderPC>,
    proxyClosed: bool)

  ghost predicate Init(maxWorkers: nat, s: State) {
    && maxWorkers > 0 && s.pool == {} && s.made == {} && s.reader.Getting? && s.queue == [] && !s.queueClosed
    && |s.workers| == maxWorkers && (forall i :: 0 <= i < |s.workers| ==> s.workers[i].Idle?)
    && s.responders == [] && !s.proxyClosed
  }

  datatype Step =
    | Get(buf: Buffer) | ReadPacket | ReadFails | Enqueue | DropClosed | DropFull | CloseQueue | Return
    | Dequeue(i: nat) | StartResponder(i: nat) | PutForwarded(i: nat) | Exit(i: nat)
    | RGet(r: nat, rbuf: Buffer) | RRead(r: nat) | RFails(r: nat) | PutReplied(r: nat)
    | CloseProxy

  /** A pooled buffer, or a new one. */
  predicate Gettable(s: State, b: Buffer) {
    b in s.pool || b !in s.made
  }

  ghost predicate Enabled(maxWorkers: nat, s: State, step: Step) {
    match step
    case Get(b) => s.reader.Getting? && Gettable(s, b)
    case ReadPacket => s.reader.Reading?
    case ReadFails => s.reader.Reading?
    case Enqueue => s.reader.Offering? && |s.queue| < maxWorkers
    case DropClosed => s.reader.Offering? && s.proxyClosed
    case DropFull => s.reader.Offering? && |s.queue| >= maxWorkers && !s.proxyClosed
    case CloseQueue => s.reader.Leaving?
    case Return => s.reader.Waiting? && forall i :: 0 <= i < |s.workers| ==> s.workers[i].Exited?
    case Dequeue(i) => i < |s.workers| && s.workers[i].Idle? && s.queue != []
    case StartResponder(i) => i < |s.workers| && s.workers[i].Forwarding?
    case PutForwarded(i) => i < |s.workers| && s.workers[i].Forwarding?
    case Exit(i) => i < |s.workers| && s.workers[i].Idle? && s.queue == [] && s.queueClosed
    case RGet(r, b) => r < |s.responders| && s.responders[r].RGetting? && Gettable(s, b)
    case RRead(r) => r < |s.responders| && s.responders[r].RReading?
    case RFails(r) => r < |s.responders| && s.responders[r].RReading?
    case PutReplied(r) => r < |s.responders| && s.responders[r].Replying?
    case CloseProxy => !s.proxyClosed
  }

  ghost function Do(maxWorkers: nat, s: State, step: Step): State
    requires Enabled(maxWorkers, s, step)
  {
    match step
    case Get(b) => s.(reader := Reading(b), pool := s.pool - {b}, made := s.made + {b})
    case ReadPacket => s.(reader := Offering(s.reader.buf))
    case ReadFails => s.(reader := Leaving, pool := s.pool + {s.reader.buf})
    case Enqueue => s.(reader := Getting, queue := s.queue + [s.reader.buf])
    case DropClosed => s.(reader := Leaving, pool := s.pool + {s.reader.buf})
    case DropFull => s.(reader := Getting, pool := s.pool + {s.reader.buf})
    case CloseQueue => s.(reader := Waiting, queueClosed := true)
    case Return => s.(reader := Returned)
    case Dequeue(i) => s.(queue := s.queue[1..], workers := s.workers[i := Forwarding(s.queue[0])])
    case StartResponder(_) => s.(responders := s.responders + [RGetting])
    case PutForwarded(i) => s.(workers := s.workers[i := Idle], pool := s.pool + {s.workers[i].buf})
    case Exit(i) => s.(workers := s.workers[i := Exited])
    case RGet(r, b) =>
      s.(responders := s.responders[r := RReading(b)], pool := s.pool - {b}, made := s.made + {b})
    case RRead(r) => s.(responders := s.responders[r := Replying(s.responders[r].buf)])
    case RFails(r) => s.(responders := s.responders[r := Ended], pool := s.pool + {s.responders[r].buf})
    case PutReplied(r) => s.(responders := s.responders[r := RGetting], pool := s.pool + {s.responders[r].buf})
    case CloseProxy => s.(proxyClosed := true)
  }

  ghost predicate Run(maxWorkers: nat, states: seq<State>, steps: seq<Step>) {
    && |states| == |steps| + 1 && Init(maxWorkers, states[0])
    && forall k :: 0 <= k < |steps| ==>
         Enabled(maxWorkers, states[k], steps[k]) && states[k + 1] == Do(maxWorkers, states[k], steps[k])
  }

  // ----- who holds a buffer -----

  datatype Holder = InPool | Reader | InQueue | Worker(i: nat) | Responder(r: nat)

  ghost predicate Holds(s: State, h: Holder, b: Buffer) {
    match h
    case InPool => b in s.pool
    case Reader => (s.reader.Reading? || s.reader.Offering?) && s.reader.buf == b
    case InQueue => b in s.queue
    case Worker(i) => i < |s.workers| && s.workers[i].Forwarding? && s.workers[i].buf == b
    case Responder(r) => r < |s.responders| && (s.responders[r].RReading? || s.responders[r].Replying?) && s.responders[r].buf == b
  }

  ghost predicate Held(s: State, b: Buffer) {
    exists h :: Holds(s, h, b)
  }

  ghost predicate OneHolder(s: State) {
    && (forall b :: b in s.made <==> Held(s, b))
    && (forall b, h, h' :: Holds(s, h, b) && Holds(s, h', b) ==> h == h')
  }

  ghost predicate NoRepeat(q: seq<Buffer>) {
    forall j, k :: 0 <= j < k < |q| ==> q[j] != q[k]
  }

  ghost predicate Phases(s: State) {
    && s.workers != []
    && (s.queueClosed <==> s.reader.Waiting? || s.reader.Returned?)
    && (s.reader.Returned? ==> forall i :: 0 <= i < |s.workers| ==> s.workers[i].Exited?)
    && (forall i :: 0 <= i < |s.workers| && s.workers[i].Exited? ==> s.queueClosed && s.queue == [])
  }

  ghost predicate Inv(s: State) {
    OneHolder(s) && NoRepeat(s.queue) && Phases(s)
  }

  /** One buffer goes from one holder to another; all others stay where they are. */
  lemma Transfer(s: State, s': State, x: Buffer, from: Holder, to: Holder)
    requires OneHolder(s) && Holds(s, from, x) && Holds(s', to, x) && s'.made == s.made
    requires forall h, y :: y != x ==> (Holds(s', h, y) <==> Holds(s, h, y))
    requires forall h :: Holds(s', h, x) ==> h == to || (h != from && Holds(s, h, x))
    ensures OneHolder(s')
  {
    assert Held(s, x) && Held(s', x);
    forall y ensures y in s'.made <==> Held(s', y) {
      if y != x {
        assert Held(s', y) <==> Held(s, y);
      }
    }
  }

  lemma Unchanged(s: State, s': State)
    requires OneHolder(s) && s'.made == s.made
    requires forall h, x :: Holds(s', h, x) <==> Holds(s, h, x)
    ensures OneHolder(s')
  {
    forall x ensures x in s'.made <==> Held(s', x) {
      assert Held(s', x) <==> Held(s, x);
    }
  }

  /** A buffer from the pool, or one nobody has ever seen, goes to a holder. */
  lemma Taken(s: State, s': State, b: Buffer, to: Holder)
    requires OneHolder(s) && Gettable(s, b) && to != InPool && Holds(s', to, b) && s'.made == s.made + {b}
    requires forall h, y :: y != b ==> (Holds(s', h, y) <==> Holds(s, h, y))
    requires forall h :: Holds(s', h, b) ==> h == to || (h != InPool && Holds(s, h, b))
    ensures OneHolder(s')
  {
    if b in s.pool {
      assert Holds(s, InPool, b);
      Transfer(s, s', b, InPool, to);
    } else {
      assert !Held(s, b);
      forall y ensures y in s'.made <==> Held(s', y) {
        if y != b {
          assert Held(s', y) <==> Held(s, y);
        }
      }
    }
  }

  lemma PopKeeps(q: seq<Buffer>)
    requires q != [] && NoRepeat(q)
    ensures NoRepeat(q[1..]) && q[0] !in q[1..] && forall y :: y != q[0] ==> (y in q <==> y in q[1..])
  {
    assert q == [q[0]] + q[1..];
  }

  lemma ReaderHolders(maxWorkers: nat, s: State, step: Step)
    requires Inv(s) && Enabled(maxWorkers, s, step)
    requires step.Get? || step.ReadFails? || step.Enqueue? || step.DropClosed? || step.DropFull?
    ensures OneHolder(Do(maxWorkers, s, step)) && NoRepeat(Do(maxWorkers, s, step).queue)
  {
    hide OneHolder;
    var s' := Do(maxWorkers, s, step);
    if step.Get? {
      Taken(s, s', step.buf, Reader);
    } else if step.Enqueue? {
      EnqueueKeeps(s);
      Transfer(s, s', s.reader.buf, Reader, InQueue);
    } else {
      Transfer(s, s', s.reader.buf, Reader, InPool);
    }
  }

  lemma OtherHolders(maxWorkers: nat, s: State, step: Step)
    requires Inv(s) && Enabled(maxWorkers, s, step)
    requires step.Dequeue? || step.PutForwarded? || step.RGet? || step.RFails? || step.PutReplied?
    ensures OneHolder(Do(maxWorkers, s, step)) && NoRepeat(Do(maxWorkers, s, step).queue)
  {
    hide OneHolder;
    var s' := Do(maxWorkers, s, step);
    match step
    case Dequeue(i) =>
      PopKeeps(s.queue);
      Transfer(s, s', s.queue[0], InQueue, Worker(i));
    case PutForwarded(i) => Transfer(s, s', s.workers[i].buf, Worker(i), InPool);
    case RGet(r, b) => Taken(s, s', b, Responder(r));
    case RFails(r) => Transfer(s, s', s.responders[r].buf, Responder(r), InPool);
    case PutReplied(r) => Transfer(s, s', s.responders[r].buf, Responder(r), InPool);
  }

  lemma StepHolders(maxWorkers: nat, s: State, step: Step)
    requires Inv(s) && Enabled(maxWorkers, s, step)
    ensures OneHolder(Do(maxWorkers, s, step)) && NoRepeat(Do(maxWorkers, s, step).queue)
  {
    hide OneHolder, NoRepeat;
    if step.Get? || step.ReadFails? || step.Enqueue? || step.DropClosed? || step.DropFull? {
      ReaderHolders(maxWorkers, s, step);
    } else if step.Dequeue? || step.PutForwarded? || step.RGet? || step.RFails? || step.PutReplied? {
      OtherHolders(maxWorkers, s, step);
    } else {
      Unchanged(s, Do(maxWorkers, s, step));
    }
  }

  lemma EnqueueKeeps(s: State)
    requires OneHolder(s) && NoRepeat(s.queue) && s.reader.Offering?
    ensures NoRepeat(s.queue + [s.reader.buf])
  {
    assert Holds(s, Reader, s.reader.buf);
    assert !Holds(s, InQueue, s.reader.buf);
  }

  lemma StepInv(maxWorkers: nat, s: State, step: Step)
    requires Inv(s) && Enabled(maxWorkers, s, step)
    ensures Inv(Do(maxWorkers, s, step))
  {
    StepHolders(maxWorkers, s, step);
    hide OneHolder, NoRepeat;
  }

  lemma {:induction false} RunInv(maxWorkers: nat, states: seq<State>, steps: seq<Step>, k: nat)
    requires Run(maxWorkers, states, steps) && k < |states|
    ensures Inv(states[k])
  {
    if k == 0 {
      assert Inv(states[0]);
    } else {
      RunInv(maxWorkers, states, steps, k - 1);
      hide Inv, Enabled, Do;
      StepInv(maxWorkers, states[k - 1], steps[k - 1]);
      assert states[k - 1 + 1] == Do(maxWorkers, states[k - 1], steps[k - 1]);
    }
  }

  // ----- what a run promises -----

  /** Every buffer ever made has exactly one holder at every moment. */
  lemma ExactlyOneHolder(maxWorkers: nat, states: seq<State>, steps: seq<Step>, k: nat, b: Buffer) returns (h: Holder)
    requires Run(maxWorkers, states, steps) && k < |states| && b in states[k].made
    ensures forall h' :: Holds(states[k], h', b) <==> h' == h
  {
    RunInv(maxWorkers, states, steps, k);
    assert Held(states[k], b);
    h :| Holds(states[k], h, b);
  }

  /** The buffer a step puts back, if it puts one. */
  function PutBack(s: State, step: Step): set<Buffer> {
    match step
    case ReadFails | DropClosed | DropFull => if s.reader.Reading? || s.reader.Offering? then {s.reader.buf} else {}
    case PutForwarded(i) => if i < |s.workers| && s.workers[i].Forwarding? then {s.workers[i].buf} else {}
    case RFails(r) => if r < |s.responders| && s.responders[r].RReading? then {s.responders[r].buf} else {}
    case PutReplied(r) => if r < |s.responders| && s.responders[r].Replying? then {s.responders[r].buf} else {}
    case _ => {}
  }

  /** A buffer that is put back was out: one return for every take, and nothing else fills the pool. */
  lemma NoDoublePut(maxWorkers: nat, states: seq<State>, steps: seq<Step>, k: nat)
    requires Run(maxWorkers, states, steps) && k < |steps|
    ensures var s, put := states[k], PutBack(states[k], steps[k]);
            put !! s.pool && put <= s.made && (!steps[k].Get? && !steps[k].RGet? ==> states[k + 1].pool == s.pool + put)
  {
    var s, step := states[k], steps[k];
    RunInv(maxWorkers, states, steps, k);
    forall b | b in PutBack(s, step) ensures b !in s.pool && b in s.made {
      var h := match step
        case PutForwarded(i) => Worker(i)
        case RFails(r) => Responder(r)
        case PutReplied(r) => Responder(r)
        case _ => Reader;
      assert Holds(s, h, b) && Held(s, b);
      assert !Holds(s, InPool, b);
    }
  }

  /** When Serve has returned and the response readers have ended, every buffer is back in the pool. */
  lemma AllBuffersReturn(maxWorkers: nat, states: seq<State>, steps: seq<Step>, k: nat)
    requires Run(maxWorkers, states, steps) && k < |states| && states[k].reader.Returned?
    requires forall r :: 0 <= r < |states[k].responders| ==> states[k].responders[r].Ended?
    ensures states[k].pool == states[k].made
  {
    var s := states[k];
    RunInv(maxWorkers, states, steps, k);
    assert s.workers[0].Exited?;
    forall b ensures b in s.made <==> b in s.pool {
      assert Held(s, b) <==> Holds(s, InPool, b);
    }
  }

  /** A datagram that was read is queued behind the others, unless the queue holds as many as there are workers,
      or the proxy is closed: only then is it dropped, and its buffer goes back to the pool at once. */
  lemma DroppedOnlyWhenFull(maxWorkers: nat, states: seq<State>, steps: seq<Step>, k: nat)
    requires Run(maxWorkers, states, steps) && k < |steps|
    requires states[k].reader.Offering? && !states[k + 1].reader.Offering?
    ensures var s, s' := states[k], states[k + 1];
            if s'.queue == s.queue then (|s.queue| == maxWorkers || s.proxyClosed) && s.reader.buf in s'.pool
            else s'.queue == s.queue + [s.reader.buf] && |s'.queue| <= maxWorkers
  {
    QueueBound(maxWorkers, states, steps, k);
    assert states[k + 1] == Do(maxWorkers, states[k], steps[k]);
  }

  lemma {:induction false} QueueBound(maxWorkers: nat, states: seq<State>, steps: seq<Step>, k: nat)
    requires Run(maxWorkers, states, steps) && k < |states|
    ensures |states[k].queue| <= maxWorkers
  {
    if k == 0 {
    } else {
      QueueBound(maxWorkers, states, steps, k - 1);
      assert states[k - 1 + 1] == Do(maxWorkers, states[k - 1], steps[k - 1]);
    }
  }

  /** A step of the reader or of a worker that does not wait for a datagram. */
  predicate OnwardStep(step: Step) {
    step.Get? || step.Enqueue? || step.DropClosed? || step.DropFull? || step.CloseQueue? || step.Return?
    || step.Dequeue? || step.PutForwarded? || step.Exit?
  }

  ghost predicate CanGoOn(maxWorkers: nat, s: State) {
    exists step :: OnwardStep(step) && Enabled(maxWorkers, s, step)
  }

  lemma GoesOn(maxWorkers: nat, s: State, step: Step)
    requires OnwardStep(step) && Enabled(maxWorkers, s, step)
    ensures CanGoOn(maxWorkers, s)
  {
  }

  /** The pool can always allocate one more. */
  lemma {:induction false} NewBuffer(made: set<Buffer>) returns (b: Buffer)
    ensures forall x :: x in made ==> x < b
  {
    if made == {} {
      b := 0;
    } else {
      var x :| x in made;
      var above := NewBuffer(made - {x});
      b := if x < above then above else x + 1;
      assert forall y :: y in made ==> y == x || y in made - {x};
    }
  }

  /** Except while it waits for a datagram, the reader or a worker can always go on until Serve has returned. */
  lemma NeverStuck(maxWorkers: nat, states: seq<State>, steps: seq<Step>, k: nat)
    requires Run(maxWorkers, states, steps) && k < |states|
    requires !states[k].reader.Reading? && !states[k].reader.Returned?
    ensures CanGoOn(maxWorkers, states[k])
  {
    hide OneHolder, NoRepeat, CanGoOn;
    var s := states[k];
    RunInv(maxWorkers, states, steps, k);
    match s.reader {
      case Getting =>
        var unused := NewBuffer(s.made);
        GoesOn(maxWorkers, s, Get(unused));
      case Offering(_) =>
        GoesOn(maxWorkers, s, if |s.queue| < maxWorkers then Enqueue else if s.proxyClosed then DropClosed else DropFull);
      case Leaving => GoesOn(maxWorkers, s, CloseQueue);
      case Waiting =>
        if i :| 0 <= i < |s.workers| && !s.workers[i].Exited? {
          GoesOn(maxWorkers, s, if s.workers[i].Forwarding? then PutForwarded(i) else if s.queue != [] then Dequeue(i) else Exit(i));
        } else {
          GoesOn(maxWorkers, s, Return);
        }
    }
  }
}
