/** The UDP session registry as a step system: workers that dial and publish, a sweeper, and Close.
    Sections under sessionMu are one step each. */
module UdpSessions {

  type Client = nat
  type Socket = nat

  datatype WorkerPC =
    | Idle
    | Missed(client: Client)                     // not in the registry, before the dial
    | Dialled(client: Client, socket: Socket)    // before the locked look-up and publish
    | Losing(socket: Socket)                     // existing session or closed proxy: before Close

  datatype ClosePC = Open | Clearing | Cleared

  datatype State = State(
    sessions: map<Client, Socket>,
    workers: seq<WorkerPC>,
    expired: set<Socket>,        // the sweeper's list
    closer: ClosePC,
    closedFlag: bool,
    dialled: set<Socket>,        // every socket ever dialled
    closed: set<Socket>)

  ghost predicate Init(s: State) {
    && s.sessions == map[] && (forall i :: 0 <= i < |s.workers| ==> s.workers[i].Idle?)
    && s.expired == {} && s.closer.Open? && !s.closedFlag && s.dialled == {} && s.closed == {}
  }

  datatype Step =
    | Lookup(i: nat, client: Client) | Dial(i: nat, socket: Socket) | DialFails(i: nat) | Publish(i: nat) | CloseLoser(i: nat)
    | Sweep(clients: set<Client>) | CloseExpired(socket: Socket)
    | CallClose | Clear

  ghost predicate Enabled(s: State, step: Step) {
    match step
    case Lookup(i, _) => i < |s.workers| && s.workers[i].Idle?
    case Dial(i, socket) => i < |s.workers| && s.workers[i].Missed? && socket !in s.dialled
    case DialFails(i) => i < |s.workers| && s.workers[i].Missed?
    case Publish(i) => i < |s.workers| && s.workers[i].Dialled?
    case CloseLoser(i) => i < |s.workers| && s.workers[i].Losing?
    case Sweep(clients) => s.expired == {} && clients <= s.sessions.Keys
    case CloseExpired(socket) => socket in s.expired
    case CallClose => s.closer.Open?
    case Clear => s.closer.Clearing?
  }

  function Sockets(sessions: map<Client, Socket>): set<Socket> {
    set a | a in sessions :: sessions[a]
  }

  function Do(s: State, step: Step): State
    requires Enabled(s, step)
  {
    match step
    case Lookup(i, client) =>
      if client in s.sessions then s else s.(workers := s.workers[i := Missed(client)])
    case Dial(i, socket) =>
      s.(workers := s.workers[i := Dialled(s.workers[i].client, socket)], dialled := s.dialled + {socket})
    case DialFails(i) => s.(workers := s.workers[i := Idle])
    case Publish(i) =>
      var w := s.workers[i];
      if w.client in s.sessions || s.closedFlag then s.(workers := s.workers[i := Losing(w.socket)])
      else s.(workers := s.workers[i := Idle], sessions := s.sessions[w.client := w.socket])
    case CloseLoser(i) => s.(workers := s.workers[i := Idle], closed := s.closed + {s.workers[i].socket})
    case Sweep(clients) =>
      s.(sessions := s.sessions - clients, expired := set a | a in clients && a in s.sessions :: s.sessions[a])
    case CloseExpired(socket) => s.(expired := s.expired - {socket}, closed := s.closed + {socket})
    case CallClose => s.(closer := Clearing, closedFlag := true)
    case Clear => s.(closer := Cleared, sessions := map[], closed := s.closed + Sockets(s.sessions))
  }

  ghost predicate Run(states: seq<State>, steps: seq<Step>) {
    && |states| == |steps| + 1 && Init(states[0])
    && forall k :: 0 <= k < |steps| ==> Enabled(states[k], steps[k]) && states[k + 1] == Do(states[k], steps[k])
  }

  // ----- who owns a socket -----

  datatype Owner = Registry(client: Client) | Worker(i: nat) | Sweeper | Nobody

  /** o holds the socket; Nobody means that it is closed. */
  ghost predicate Owns(s: State, o: Owner, x: Socket) {
    match o
    case Registry(c) => c in s.sessions && s.sessions[c] == x
    case Worker(i) => i < |s.workers| && (s.workers[i].Dialled? || s.workers[i].Losing?) && s.workers[i].socket == x
    case Sweeper => x in s.expired
    case Nobody => x in s.closed
  }

  ghost predicate Owned(s: State, x: Socket) {
    exists o :: Owns(s, o, x)
  }

  /** Every dialled socket has exactly one owner, and nothing else has any. */
  ghost predicate OneOwner(s: State) {
    && (forall x :: x in s.dialled <==> Owned(s, x))
    && (forall x, o, o' :: Owns(s, o, x) && Owns(s, o', x) ==> o == o')
  }

  ghost predicate Inv(s: State) {
    && OneOwner(s)
    && (s.closedFlag <==> !s.closer.Open?)
    && (s.closer.Cleared? ==> s.sessions == map[])
  }

  /** Ownership of all sockets but x is untouched, x goes from one owner to another. */
  lemma Transfer(s: State, s': State, x: Socket, from: Owner, to: Owner)
    requires OneOwner(s) && Owns(s, from, x) && Owns(s', to, x) && s'.dialled == s.dialled
    requires forall o, y :: y != x ==> (Owns(s', o, y) <==> Owns(s, o, y))
    requires forall o :: Owns(s', o, x) ==> o == to || (o != from && Owns(s, o, x))
    ensures OneOwner(s')
  {
    forall y ensures y in s'.dialled <==> Owned(s', y) {
      if y == x {
        assert Owned(s, x);
      } else {
        assert Owned(s', y) <==> Owned(s, y);
      }
    }
  }

  lemma StepInv(s: State, step: Step)
    requires Inv(s) && Enabled(s, step)
    ensures Inv(Do(s, step))
  {
    var s' := Do(s, step);
    match step
    case Lookup(i, client) => Unchanged(s, s');
    case Dial(i, socket) => DialInv(s, i, socket);
    case DialFails(i) => Unchanged(s, s');
    case Publish(i) => PublishInv(s, i);
    case CloseLoser(i) =>
      Transfer(s, s', s.workers[i].socket, Worker(i), Nobody);
    case Sweep(clients) => SweepInv(s, clients);
    case CloseExpired(socket) =>
      Transfer(s, s', socket, Sweeper, Nobody);
    case CallClose => Unchanged(s, s');
    case Clear => ClearInv(s);
  }

  lemma Unchanged(s: State, s': State)
    requires OneOwner(s) && s'.dialled == s.dialled
    requires forall o, x :: Owns(s', o, x) <==> Owns(s, o, x)
    ensures OneOwner(s')
  {
    forall x ensures x in s'.dialled <==> Owned(s', x) {
      assert Owned(s', x) <==> Owned(s, x);
    }
  }

  lemma DialInv(s: State, i: nat, socket: Socket)
    requires Inv(s) && Enabled(s, Dial(i, socket))
    ensures OneOwner(Do(s, Dial(i, socket)))
  {
    var s' := Do(s, Dial(i, socket));
    assert !Owned(s, socket);
    assert Owns(s', Worker(i), socket);
    forall o, x ensures Owns(s', o, x) <==> Owns(s, o, x) || (o == Worker(i) && x == socket) {
    }
    forall x ensures x in s'.dialled <==> Owned(s', x) {
      if Owned(s, x) {
        var o :| Owns(s, o, x);
        assert Owns(s', o, x);
      }
    }
  }

  lemma PublishInv(s: State, i: nat)
    requires Inv(s) && Enabled(s, Publish(i))
    ensures Inv(Do(s, Publish(i)))
  {
    var s', w := Do(s, Publish(i)), s.workers[i];
    assert Owns(s, Worker(i), w.socket);
    if w.client in s.sessions || s.closedFlag {
      Transfer(s, s', w.socket, Worker(i), Worker(i));
    } else {
      Transfer(s, s', w.socket, Worker(i), Registry(w.client));
    }
  }

  /** Owners before a bulk step, given the owners after it. */
  lemma Bulk(s: State, s': State, clients: set<Client>, to: Owner)
    requires OneOwner(s) && s'.dialled == s.dialled && (to == Sweeper || to == Nobody)
    requires forall o, x :: Owns(s', o, x) <==>
               (Owns(s, o, x) && !(o.Registry? && o.client in clients)) ||
               (o == to && exists c :: c in clients && Owns(s, Registry(c), x))
    ensures OneOwner(s')
  {
    forall x ensures x in s'.dialled <==> Owned(s', x) {
      if Owned(s, x) {
        var o :| Owns(s, o, x);
        if o.Registry? && o.client in clients {
          assert Owns(s', to, x);
        } else {
          assert Owns(s', o, x);
        }
      }
      if Owned(s', x) {
        var o :| Owns(s', o, x);
        assert Owned(s, x) by {
          if !Owns(s, o, x) {
            var c :| c in clients && Owns(s, Registry(c), x);
          }
        }
      }
    }
  }

  lemma SweepInv(s: State, clients: set<Client>)
    requires Inv(s) && Enabled(s, Sweep(clients))
    ensures OneOwner(Do(s, Sweep(clients)))
  {
    var s' := Do(s, Sweep(clients));
    forall o, x ensures Owns(s', o, x) <==>
                          (Owns(s, o, x) && !(o.Registry? && o.client in clients)) ||
                          (o == Sweeper && exists c :: c in clients && Owns(s, Registry(c), x))
    {
      if o == Sweeper && x in s'.expired {
        var c :| c in clients && c in s.sessions && s.sessions[c] == x;
        assert Owns(s, Registry(c), x);
      }
    }
    Bulk(s, s', clients, Sweeper);
  }

  lemma ClearInv(s: State)
    requires Inv(s) && Enabled(s, Clear)
    ensures OneOwner(Do(s, Clear))
  {
    var s' := Do(s, Clear);
    forall o, x ensures Owns(s', o, x) <==>
                          (Owns(s, o, x) && !(o.Registry? && o.client in s.sessions.Keys)) ||
                          (o == Nobody && exists c :: c in s.sessions.Keys && Owns(s, Registry(c), x))
    {
      if o == Nobody && x in s'.closed && x !in s.closed {
        var c :| c in s.sessions && s.sessions[c] == x;
        assert Owns(s, Registry(c), x);
      }
    }
    Bulk(s, s', s.sessions.Keys, Nobody);
  }

  lemma {:induction false} RunInv(states: seq<State>, steps: seq<Step>, k: nat)
    requires Run(states, steps) && k < |states|
    ensures Inv(states[k])
  {
    if k == 0 {
      assert Inv(states[0]);
    } else {
      RunInv(states, steps, k - 1);
      StepInv(states[k - 1], steps[k - 1]);
    }
  }

  // ----- what a run promises -----

  /** At every moment each socket ever dialled is owned by exactly one of the registry, a worker between
      dial and publish or close, the sweeper's list, or is closed. */
  lemma ExactlyOneOwner(states: seq<State>, steps: seq<Step>, k: nat, x: Socket) returns (o: Owner)
    requires Run(states, steps) && k < |states| && x in states[k].dialled
    ensures forall o' :: Owns(states[k], o', x) <==> o' == o
  {
    RunInv(states, steps, k);
    assert Owned(states[k], x);
    o :| Owns(states[k], o, x);
  }

  /** Two clients never share a socket. */
  lemma SessionsAreInjective(states: seq<State>, steps: seq<Step>, k: nat, a: Client, b: Client)
    requires Run(states, steps) && k < |states| && a in states[k].sessions && b in states[k].sessions
    requires states[k].sessions[a] == states[k].sessions[b]
    ensures a == b
  {
    RunInv(states, steps, k);
    var x := states[k].sessions[a];
    assert Owns(states[k], Registry(a), x) && Owns(states[k], Registry(b), x);
  }

  lemma {:induction false} StaysCleared(states: seq<State>, steps: seq<Step>, j: nat, k: nat)
    requires Run(states, steps) && j <= k < |states| && states[j].closer.Cleared?
    ensures states[k].closer.Cleared?
  {
    if j == k {
    } else {
      StaysCleared(states, steps, j, k - 1);
      assert states[k - 1 + 1] == Do(states[k - 1], steps[k - 1]);
    }
  }

  /** Once Close has cleared the registry it stays empty, and when the workers and the sweeper have
      finished what they were doing every socket ever dialled is closed. */
  lemma ClearedForGood(states: seq<State>, steps: seq<Step>, j: nat, k: nat)
    requires Run(states, steps) && j <= k < |states| && states[j].closer.Cleared?
    ensures states[k].sessions == map[]
    ensures states[k].expired == {} &&
            (forall i :: 0 <= i < |states[k].workers| ==> !states[k].workers[i].Dialled? && !states[k].workers[i].Losing?)
            ==> states[k].dialled <= states[k].closed
  {
    StaysCleared(states, steps, j, k);
    RunInv(states, steps, k);
    forall x | x in states[k].dialled && states[k].expired == {} &&
               forall i :: 0 <= i < |states[k].workers| ==> !states[k].workers[i].Dialled? && !states[k].workers[i].Losing?
      ensures x in states[k].closed
    {
      var o := ExactlyOneOwner(states, steps, k, x);
      assert Owns(states[k], o, x);
    }
  }

  /** A client that has a session keeps it without another dial; for one that has none the worker dials, and
      for that client alone. */
  lemma DialsOnlyOnMiss(states: seq<State>, steps: seq<Step>, k: nat)
    requires Run(states, steps) && k < |steps| && steps[k].Lookup?
    ensures var s, s', c := states[k], states[k + 1], steps[k].client;
            if c in s.sessions then s' == s && s.sessions[c] !in s.closed
            else s' == s.(workers := s'.workers) && s'.workers == s.workers[steps[k].i := Missed(c)]
  {
    RunInv(states, steps, k);
    var s, c := states[k], steps[k].client;
    assert s.workers == s.workers[steps[k].i := s.workers[steps[k].i]];
    if c in s.sessions {
      assert Owns(s, Registry(c), s.sessions[c]);
      assert !Owns(s, Nobody, s.sessions[c]);
    }
  }

  /** A packet of an open proxy gets its client a session with an open socket: the one just dialled if and only
      if there was none, and then no other session changes. The loser of a race is given up, the winner kept. */
  lemma PublishServes(states: seq<State>, steps: seq<Step>, k: nat)
    requires Run(states, steps) && k < |steps| && steps[k].Publish?
    ensures var s, s', w := states[k], states[k + 1], states[k].workers[steps[k].i];
            && (s.closedFlag || w.client in s.sessions ==> s'.sessions == s.sessions && s'.workers[steps[k].i] == Losing(w.socket))
            && (!s.closedFlag ==>
                  && w.client in s'.sessions && s'.sessions[w.client] !in s'.closed
                  && (s'.sessions[w.client] == w.socket <==> w.client !in s.sessions))
            && forall c :: c != w.client ==>
                             (c in s'.sessions <==> c in s.sessions) && (c in s.sessions ==> s'.sessions[c] == s.sessions[c])
  {
    var s, s', i := states[k], states[k + 1], steps[k].i;
    var w := s.workers[i];
    RunInv(states, steps, k);
    assert Owns(s, Worker(i), w.socket);
    if w.client in s.sessions {
      var x := s.sessions[w.client];
      assert Owns(s, Registry(w.client), x);
      assert !Owns(s, Nobody, x);
      assert x != w.socket;
    } else {
      assert !Owns(s, Nobody, w.socket);
    }
  }

  /** A step that ends the client's session. */
  predicate Ends(step: Step, c: Client) {
    step.Clear? || (step.Sweep? && c in step.clients)
  }

  /** A session stays with its client and its socket stays open until a sweep takes it or Close clears all. */
  lemma {:induction false} SessionStays(states: seq<State>, steps: seq<Step>, j: nat, k: nat, c: Client)
    requires Run(states, steps) && j <= k < |states| && c in states[j].sessions
    requires forall i :: j <= i < k ==> !Ends(steps[i], c)
    ensures c in states[k].sessions && states[k].sessions[c] == states[j].sessions[c]
    ensures states[k].sessions[c] !in states[k].closed
    decreases k - j
  {
    if j == k {
      RunInv(states, steps, k);
      assert Owns(states[k], Registry(c), states[k].sessions[c]);
      assert !Owns(states[k], Nobody, states[k].sessions[c]);
    } else {
      SessionStays(states, steps, j, k - 1, c);
      assert !Ends(steps[k - 1], c);
      assert states[k - 1 + 1] == Do(states[k - 1], steps[k - 1]);
      SessionStays(states, steps, k, k, c);
    }
  }
}
