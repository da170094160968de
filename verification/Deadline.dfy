/** The connection wrapper that amortizes deadline system calls. It remembers what it last set and skips
    a call when more than half of the wanted time is left. What it promises is about the real deadline,
    which a failed system call leaves as it was. */
module Deadline {
  import opened Bytes

  /** A deadline is a clock reading in nanoseconds; None is Go's zero time, no deadline. */
  type Time = Option<int>

  /** One direction: what the tracker remembers, what the socket has, and the calls counted and made. */
  datatype Side = Side(cached: Time, timeout: int, counted: nat, socket: Time, made: nat)

  datatype Op =
    | Amortize(timeout: int, at: int, works: bool)
    | Force(deadline: Time, works: bool)
    | Reset

  // ----- one operation on one direction -----

  predicate LeavesEnough(s: Side, timeout: int, now: int) {
    s.cached.Some? && s.timeout == timeout && s.cached.value - now > timeout / 2
  }

  function SystemCall(s: Side, deadline: Time, works: bool): Side {
    s.(made := s.made + 1, socket := if works then deadline else s.socket)
  }

  function Apply(s: Side, op: Op): Side {
    match op
    case Amortize(timeout, now, works) =>
      if timeout <= 0 then
        if s.cached == None then s else SystemCall(s, None, works).(cached := None, timeout := 0)
      else if LeavesEnough(s, timeout, now) then s
      else
        var called := SystemCall(s, Some(now + timeout), works);
        if works then called.(cached := Some(now + timeout), timeout := timeout, counted := s.counted + 1) else called
    case Force(deadline, works) =>
      SystemCall(s, deadline, works).(cached := deadline, timeout := 0, counted := s.counted + 1)
    case Reset => s.(cached := None, timeout := 0)
  }

  /** Whether the operation reports success: it does unless it makes a system call that fails. */
  predicate Succeeds(s: Side, op: Op) {
    Apply(s, op).made == s.made || (op != Reset && op.works)
  }

  // ----- what stays true -----

  /** A remembered timeout vouches for the remembered deadline: the socket has it, set no later than now. */
  predicate Sound(s: Side, now: int) {
    && s.timeout >= 0
    && (s.timeout > 0 ==> s.cached.Some? && s.socket == s.cached && s.cached.value <= now + s.timeout)
  }

  /** The socket times out within the last half of the wanted time. */
  predicate InWindow(deadline: Time, timeout: int, now: int) {
    deadline.Some? && now + timeout / 2 < deadline.value <= now + timeout
  }

  function Run(s: Side, ops: seq<Op>): Side {
    if ops == [] then s else Apply(Run(s, ops[..|ops| - 1]), ops[|ops| - 1])
  }

  /** The clock never goes back, from start on and up to now. */
  ghost predicate Ordered(ops: seq<Op>, start: int, now: int) {
    && start <= now
    && (forall i :: 0 <= i < |ops| && ops[i].Amortize? ==> start <= ops[i].at <= now)
    && (forall i, j :: 0 <= i < j < |ops| && ops[i].Amortize? && ops[j].Amortize? ==> ops[i].at <= ops[j].at)
  }

  /** The clock reading of the last amortized call, or start. */
  function LastAt(ops: seq<Op>, start: int): int {
    if ops == [] then start
    else if ops[|ops| - 1].Amortize? then ops[|ops| - 1].at else LastAt(ops[..|ops| - 1], start)
  }

  lemma {:induction false} LastAtIsLatest(ops: seq<Op>, start: int, now: int)
    requires Ordered(ops, start, now)
    ensures start <= LastAt(ops, start) <= now
    ensures forall i :: 0 <= i < |ops| && ops[i].Amortize? ==> ops[i].at <= LastAt(ops, start)
  {
    if ops == [] || ops[|ops| - 1].Amortize? {
    } else {
      var earlier := ops[..|ops| - 1];
      LastAtIsLatest(earlier, start, now);
      assert forall i :: 0 <= i < |earlier| ==> earlier[i] == ops[i];
    }
  }

  lemma {:induction false} SoundRun(s: Side, ops: seq<Op>, start: int, now: int)
    requires Sound(s, start) && Ordered(ops, start, now)
    ensures Sound(Run(s, ops), now)
  {
    if ops == [] {
    } else {
      var earlier := ops[..|ops| - 1];
      var last := ops[|ops| - 1];
      assert forall i :: 0 <= i < |earlier| ==> earlier[i] == ops[i];
      LastAtIsLatest(ops, start, now);
      if last.Amortize? {
        SoundRun(s, earlier, start, last.at);
      } else {
        SoundRun(s, earlier, start, now);
      }
    }
  }

  /** After any mix of amortized, forced and reset calls, working or failing, from any socket state: a
      successful amortized call leaves a deadline in the last half of its window, a failed one leaves
      the socket as it was. */
  lemma {:induction false} WindowAfterRun(socket: Time, ops: seq<Op>, start: int, timeout: int, now: int, works: bool)
    requires timeout > 0 && Ordered(ops, start, now)
    ensures var before := Run(Wrapped(socket), ops);
            var op := Amortize(timeout, now, works);
            if Succeeds(before, op) then InWindow(Apply(before, op).socket, timeout, now)
            else Apply(before, op).socket == before.socket
  {
    SoundRun(Wrapped(socket), ops, start, now);
  }

  /** A connection just wrapped: nothing is known of the deadline it may have. */
  function Wrapped(socket: Time): Side {
    Side(None, 0, 0, socket, 0)
  }

  // ----- how many system calls -----

  function Failures(s: Side, ops: seq<Op>): nat {
    if ops == [] then 0
    else
      var earlier := ops[..|ops| - 1];
      Failures(s, earlier) + if Succeeds(Run(s, earlier), ops[|ops| - 1]) then 0 else 1
  }

  ghost predicate SameTimeout(ops: seq<Op>, timeout: int) {
    forall i :: 0 <= i < |ops| ==> ops[i].Amortize? && ops[i].timeout == timeout
  }

  /** Successful calls are at least timeout - timeout / 2 apart, so each is paid for by the time since start. */
  lemma {:induction false} CallsAreSpaced(s: Side, ops: seq<Op>, start: int, now: int, timeout: int)
    requires timeout > 0 && Ordered(ops, start, now) && SameTimeout(ops, timeout)
    ensures var after := Run(s, ops);
            var working := after.made - s.made - Failures(s, ops);
            && working == after.counted - s.counted >= 0
            && (working == 0 ==> after.cached == s.cached && after.timeout == s.timeout)
            && (working > 0 ==> after.timeout == timeout && after.cached.Some?)
            && (working > 0 ==> (working - 1) * (timeout - timeout / 2) <= after.cached.value - timeout - start)
            && (working > 0 ==> after.cached.value - timeout <= now)
  {
    if ops == [] {
    } else {
      var earlier := ops[..|ops| - 1];
      var last := ops[|ops| - 1];
      assert forall i :: 0 <= i < |earlier| ==> earlier[i] == ops[i];
      CallsAreSpaced(s, earlier, start, last.at, timeout);
      var before := Run(s, earlier);
      var working := before.made - s.made - Failures(s, earlier);
      assert working * (timeout - timeout / 2) == (working - 1) * (timeout - timeout / 2) + (timeout - timeout / 2);
    }
  }

  /** Amortized calls with one timeout over a time span make at most 1 + span / (timeout - timeout / 2)
      system calls besides those that fail, whatever was remembered before. */
  lemma CallBound(s: Side, ops: seq<Op>, start: int, now: int, timeout: int)
    requires timeout > 0 && Ordered(ops, start, now) && SameTimeout(ops, timeout)
    ensures Run(s, ops).made - s.made <= 1 + (now - start) / (timeout - timeout / 2) + Failures(s, ops)
  {
    CallsAreSpaced(s, ops, start, now, timeout);
    var working := Run(s, ops).made - s.made - Failures(s, ops);
    if working > 0 {
      FitsInSpan(working - 1, timeout - timeout / 2, now - start);
    }
  }

  lemma FitsInSpan(k: nat, gap: int, span: int)
    requires gap > 0 && k * gap <= span
    ensures k <= span / gap
  {
    if k > span / gap {
      Scale(span / gap + 1, k, gap);
    }
  }

  lemma Scale(a: int, b: int, gap: int)
    requires gap > 0 && a <= b
    ensures a * gap <= b * gap
  {
  }

  // ----- clearing -----

  /** The last call that touched the memory emptied it: a reset, a call with no timeout, a forced zero time. */
  predicate Forgotten(ops: seq<Op>) {
    ops == []
    || match ops[|ops| - 1]
       case Amortize(timeout, _, works) => timeout <= 0 || (!works && Forgotten(ops[..|ops| - 1]))
       case Force(deadline, _) => deadline == None
       case Reset => true
  }

  lemma {:induction false} ForgottenIsNone(socket: Time, ops: seq<Op>)
    ensures Run(Wrapped(socket), ops).cached == None <==> Forgotten(ops)
  {
    if ops == [] {
    } else {
      ForgottenIsNone(socket, ops[..|ops| - 1]);
    }
  }

  /** A call with no timeout that reports success has cleared the deadline exactly when the tracker still
      remembered one, or there was none: the memory is what it goes by, not the socket. */
  lemma {:induction false} ClearsIff(socket: Time, ops: seq<Op>, timeout: int, now: int, works: bool)
    requires timeout <= 0 && Succeeds(Run(Wrapped(socket), ops), Amortize(timeout, now, works))
    ensures var before := Run(Wrapped(socket), ops);
            Apply(before, Amortize(timeout, now, works)).socket == None <==> (!Forgotten(ops) || before.socket == None)
  {
    ForgottenIsNone(socket, ops);
  }

  /** Without a reset and without failures the memory is the socket's own deadline, so clearing clears. */
  lemma {:induction false} MemoryIsReal(ops: seq<Op>)
    requires Reset !in ops && Failures(Wrapped(None), ops) == 0
    ensures Run(Wrapped(None), ops).cached == Run(Wrapped(None), ops).socket
  {
    if ops == [] {
    } else {
      var earlier := ops[..|ops| - 1];
      assert Reset !in earlier by {
        assert forall i :: 0 <= i < |earlier| ==> earlier[i] == ops[i];
      }
      MemoryIsReal(earlier);
    }
  }

  /** Clearing after a reset reports success and leaves the old deadline on the socket. */
  lemma {:induction false} ClearAfterResetKeepsDeadline()
    ensures var before := Run(Wrapped(None), [Amortize(10, 0, true), Reset]);
            var op := Amortize(0, 1, true);
            Succeeds(before, op) && Apply(before, op).socket == Some(10)
  {
    var first := Amortize(10, 0, true);
    assert [first, Reset][..1] == [first] && [first][..0] == [];
    assert Run(Wrapped(None), [first]) == Apply(Run(Wrapped(None), []), first);
  }

  // ----- forced deadlines -----

  /** Calls that leave the socket alone: resets, and forced calls that fail. */
  predicate LeavesSocket(op: Op) {
    op.Reset? || (op.Force? && !op.works)
  }

  /** A forced deadline that was set is the socket's, to the nanosecond, until an amortized or another forced
      call works; and it is never taken for fresh: the next amortized call makes a system call. */
  lemma {:induction false} ForcedDeadlineStays(s: Side, deadline: Time, later: seq<Op>, timeout: int, now: int, works: bool)
    requires forall i :: 0 <= i < |later| ==> LeavesSocket(later[i])
    ensures var after := Run(Apply(s, Force(deadline, true)), later);
            && after.socket == deadline && after.timeout == 0
            && (timeout > 0 ==>
                  var next := Apply(after, Amortize(timeout, now, works));
                  next.made == after.made + 1 && next.socket == if works then Some(now + timeout) else deadline)
  {
    if later == [] {
    } else {
      ForcedDeadlineStays(s, deadline, later[..|later| - 1], timeout, now, works);
    }
  }

  // ----- the wrapper -----

  /** The connection underneath; whether a system call works is decided outside. */
  class Conn {
    var readDeadline: Time
    var writeDeadline: Time
    ghost var readCalls: nat
    ghost var writeCalls: nat

    method SetReadDeadline(deadline: Time, works: bool) returns (ok: bool)
      modifies this`readDeadline, this`readCalls
      ensures ok == works && readCalls == old(readCalls) + 1
      ensures readDeadline == if works then deadline else old(readDeadline)
    {
      readCalls := readCalls + 1;
      if works { readDeadline := deadline; }
      return works;
    }

    method SetWriteDeadline(deadline: Time, works: bool) returns (ok: bool)
      modifies this`writeDeadline, this`writeCalls
      ensures ok == works && writeCalls == old(writeCalls) + 1
      ensures writeDeadline == if works then deadline else old(writeDeadline)
    {
      writeCalls := writeCalls + 1;
      if works { writeDeadline := deadline; }
      return works;
    }
  }

  class ConnDeadlineTracker {
    const conn: Conn
    var lastReadDeadline: Time
    var lastWriteDeadline: Time
    var lastReadTimeout: int
    var lastWriteTimeout: int
    var syscallCountRead: nat
    var syscallCountWrite: nat

    constructor (conn: Conn)
      ensures this.conn == conn
      ensures ReadSide() == Wrapped(conn.readDeadline).(made := conn.readCalls)
      ensures WriteSide() == Wrapped(conn.writeDeadline).(made := conn.writeCalls)
    {
      this.conn := conn;
      lastReadDeadline, lastReadTimeout, syscallCountRead := None, 0, 0;
      lastWriteDeadline, lastWriteTimeout, syscallCountWrite := None, 0, 0;
    }

    ghost function ReadSide(): Side
      reads this, conn
    {
      Side(lastReadDeadline, lastReadTimeout, syscallCountRead, conn.readDeadline, conn.readCalls)
    }

    ghost function WriteSide(): Side
      reads this, conn
    {
      Side(lastWriteDeadline, lastWriteTimeout, syscallCountWrite, conn.writeDeadline, conn.writeCalls)
    }

    method SetAmortizedReadDeadline(timeout: int, now: int, works: bool) returns (ok: bool)
      requires Sound(ReadSide(), now)
      modifies this`lastReadDeadline, this`lastReadTimeout, this`syscallCountRead, conn`readDeadline, conn`readCalls
      ensures Sound(ReadSide(), now)
      ensures ReadSide() == Apply(old(ReadSide()), Amortize(timeout, now, works)) && WriteSide() == old(WriteSide())
      ensures ok == Succeeds(old(ReadSide()), Amortize(timeout, now, works))
      ensures ok && timeout > 0 ==> InWindow(conn.readDeadline, timeout, now)
    {
      if timeout <= 0 {
        if lastReadDeadline != None {
          lastReadDeadline, lastReadTimeout := None, 0;
          ok := conn.SetReadDeadline(None, works);
          return;
        }
        return true;
      }
      if lastReadDeadline != None && timeout == lastReadTimeout {
        var remaining := lastReadDeadline.value - now;
        if remaining > timeout / 2 {
          return true;
        }
      }
      var deadline := Some(now + timeout);
      ok := conn.SetReadDeadline(deadline, works);
      if ok {
        lastReadDeadline, lastReadTimeout, syscallCountRead := deadline, timeout, syscallCountRead + 1;
      }
    }

    method SetAmortizedWriteDeadline(timeout: int, now: int, works: bool) returns (ok: bool)
      requires Sound(WriteSide(), now)
      modifies this`lastWriteDeadline, this`lastWriteTimeout, this`syscallCountWrite, conn`writeDeadline, conn`writeCalls
      ensures Sound(WriteSide(), now)
      ensures WriteSide() == Apply(old(WriteSide()), Amortize(timeout, now, works)) && ReadSide() == old(ReadSide())
      ensures ok == Succeeds(old(WriteSide()), Amortize(timeout, now, works))
      ensures ok && timeout > 0 ==> InWindow(conn.writeDeadline, timeout, now)
    {
      if timeout <= 0 {
        if lastWriteDeadline != None {
          lastWriteDeadline, lastWriteTimeout := None, 0;
          ok := conn.SetWriteDeadline(None, works);
          return;
        }
        return true;
      }
      if lastWriteDeadline != None && timeout == lastWriteTimeout {
        var remaining := lastWriteDeadline.value - now;
        if remaining > timeout / 2 {
          return true;
        }
      }
      var deadline := Some(now + timeout);
      ok := conn.SetWriteDeadline(deadline, works);
      if ok {
        lastWriteDeadline, lastWriteTimeout, syscallCountWrite := deadline, timeout, syscallCountWrite + 1;
      }
    }

    /** SetReadDeadline is the same call. */
    method ForceSetReadDeadline(deadline: Time, works: bool) returns (ok: bool)
      modifies this`lastReadDeadline, this`lastReadTimeout, this`syscallCountRead, conn`readDeadline, conn`readCalls
      ensures ReadSide() == Apply(old(ReadSide()), Force(deadline, works)) && WriteSide() == old(WriteSide())
      ensures ok == Succeeds(old(ReadSide()), Force(deadline, works))
      ensures ok == works && conn.readDeadline == if works then deadline else old(conn.readDeadline)
    {
      lastReadDeadline, lastReadTimeout, syscallCountRead := deadline, 0, syscallCountRead + 1;
      ok := conn.SetReadDeadline(deadline, works);
    }

    /** SetWriteDeadline is the same call. */
    method ForceSetWriteDeadline(deadline: Time, works: bool) returns (ok: bool)
      modifies this`lastWriteDeadline, this`lastWriteTimeout, this`syscallCountWrite, conn`writeDeadline, conn`writeCalls
      ensures WriteSide() == Apply(old(WriteSide()), Force(deadline, works)) && ReadSide() == old(ReadSide())
      ensures ok == Succeeds(old(WriteSide()), Force(deadline, works))
      ensures ok == works && conn.writeDeadline == if works then deadline else old(conn.writeDeadline)
    {
      lastWriteDeadline, lastWriteTimeout, syscallCountWrite := deadline, 0, syscallCountWrite + 1;
      ok := conn.SetWriteDeadline(deadline, works);
    }

    method ResetReadAmortization()
      modifies this`lastReadDeadline, this`lastReadTimeout
      ensures ReadSide() == Apply(old(ReadSide()), Reset) && WriteSide() == old(WriteSide())
    {
      lastReadDeadline, lastReadTimeout := None, 0;
    }

    method ResetWriteAmortization()
      modifies this`lastWriteDeadline, this`lastWriteTimeout
      ensures WriteSide() == Apply(old(WriteSide()), Reset) && ReadSide() == old(ReadSide())
    {
      lastWriteDeadline, lastWriteTimeout := None, 0;
    }

    /** One call for both directions: it works for both or for neither. */
    method SetDeadline(deadline: Time, works: bool) returns (ok: bool)
      modifies this, conn
      ensures ReadSide() == Apply(old(ReadSide()), Force(deadline, works))
      ensures WriteSide() == Apply(old(WriteSide()), Force(deadline, works))
      ensures ok == works
    {
      lastReadDeadline, lastReadTimeout, syscallCountRead := deadline, 0, syscallCountRead + 1;
      lastWriteDeadline, lastWriteTimeout, syscallCountWrite := deadline, 0, syscallCountWrite + 1;
      var okRead := conn.SetReadDeadline(deadline, works);
      var okWrite := conn.SetWriteDeadline(deadline, works);
      return okRead && okWrite;
    }
  }
}
