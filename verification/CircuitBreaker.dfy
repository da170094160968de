/** The three-state circuit breaker every balancer asks about a target. */
module CircuitBreaker {

  datatype CircuitState = StateClosed | StateOpen | StateHalfOpen

  /** The breaker's part of a target. Times are clock readings in nanoseconds. */
  datatype Circuit = Circuit(failures: nat, state: CircuitState, lastChange: int)

  /** A weight below 1 counts as 1. */
  function CleanWeight(weight: int): (w: nat)
    ensures w > 0 && (weight > 0 ==> w == weight)
  {
    if weight <= 0 then 1 else weight
  }

  class UpstreamTarget {
    const url: string
    const maxFailures: nat
    const cooldown: int
    var consecutiveFailures: nat
    var state: CircuitState
    var lastStateChange: int
    const weight: int
    const effectiveWeight: int
    var currentWeight: int

    constructor (url: string, maxFailures: int, cooldown: int, weight: int, now: int)
      ensures this.url == url && this.weight == weight && effectiveWeight == weight && currentWeight == 0
      ensures this.maxFailures == if maxFailures <= 0 then 3 else maxFailures
      ensures this.cooldown == if cooldown <= 0 then 10_000_000_000 else cooldown
      ensures View() == Circuit(0, StateClosed, now)
    {
      this.url, this.weight, effectiveWeight, currentWeight := url, weight, weight, 0;
      this.maxFailures := if maxFailures <= 0 then 3 else maxFailures;
      this.cooldown := if cooldown <= 0 then 10_000_000_000 else cooldown;
      consecutiveFailures, state, lastStateChange := 0, StateClosed, now;
    }

    /** A copy for a balancer: same health, weight at least 1, and no credit. Copying asks for the state. */
    constructor Clone(t: UpstreamTarget, now: int)
      modifies t`state, t`lastStateChange
      ensures url == t.url && maxFailures == t.maxFailures && cooldown == t.cooldown
      ensures t.View() == Apply(old(t.View()), Observed(now), t.maxFailures, t.cooldown) == View()
      ensures weight == effectiveWeight && (t.weight > 0 ==> weight == t.weight) && (t.weight <= 0 ==> weight == 1)
      ensures currentWeight == 0
    {
      var s := t.GetState(now);
      url, maxFailures, cooldown := t.url, t.maxFailures, t.cooldown;
      consecutiveFailures, state, lastStateChange := t.consecutiveFailures, s, t.lastStateChange;
      weight, effectiveWeight := CleanWeight(t.weight), CleanWeight(t.weight);
      currentWeight := 0;
    }

    function View(): Circuit
      reads this`consecutiveFailures, this`state, this`lastStateChange
    {
      Circuit(consecutiveFailures, state, lastStateChange)
    }

    function StateAt(now: int): CircuitState
      reads this`consecutiveFailures, this`state, this`lastStateChange
    {
      Apply(View(), Observed(now), maxFailures, cooldown).state
    }

    /** Closed and half-open targets take part in selection. */
    predicate HealthyAt(now: int)
      reads this`consecutiveFailures, this`state, this`lastStateChange
    {
      StateAt(now) != StateOpen
    }

    method GetState(now: int) returns (s: CircuitState)
      modifies this`state, this`lastStateChange
      ensures View() == Apply(old(View()), Observed(now), maxFailures, cooldown)
      ensures s == state == old(StateAt(now))
    {
      if state == StateOpen && now - lastStateChange >= cooldown {
        state, lastStateChange := StateHalfOpen, now;
      }
      return state;
    }

    method RecordSuccess(now: int)
      modifies this`consecutiveFailures, this`state, this`lastStateChange
      ensures View() == Apply(old(View()), Succeeded(now), maxFailures, cooldown)
    {
      consecutiveFailures, state, lastStateChange := 0, StateClosed, now;
    }

    method RecordFailure(now: int)
      modifies this`consecutiveFailures, this`state, this`lastStateChange
      ensures View() == Apply(old(View()), Failed(now), maxFailures, cooldown)
    {
      consecutiveFailures := consecutiveFailures + 1;
      if consecutiveFailures >= maxFailures {
        state, lastStateChange := StateOpen, now;
      }
    }
  }

  // ----- runs -----

  datatype Event = Observed(at: int) | Succeeded(at: int) | Failed(at: int)

  function Apply(c: Circuit, e: Event, maxFailures: nat, cooldown: int): Circuit {
    match e
    case Observed(at) =>
      if c.state == StateOpen && at - c.lastChange >= cooldown then Circuit(c.failures, StateHalfOpen, at) else c
    case Succeeded(at) => Circuit(0, StateClosed, at)
    case Failed(at) =>
      if c.failures + 1 >= maxFailures then Circuit(c.failures + 1, StateOpen, at)
      else c.(failures := c.failures + 1)
  }

  function Run(start: int, history: seq<Event>, maxFailures: nat, cooldown: int): Circuit {
    if history == [] then Circuit(0, StateClosed, start)
    else Apply(Run(start, history[..|history| - 1], maxFailures, cooldown), history[|history| - 1], maxFailures, cooldown)
  }

  ghost predicate Ordered(history: seq<Event>) {
    forall i, j :: 0 <= i < j < |history| ==> history[i].at <= history[j].at
  }

  /** Failures since the last success. */
  function FailureStreak(history: seq<Event>): nat {
    if history == [] then 0
    else match history[|history| - 1]
         case Succeeded(_) => 0
         case Failed(_) => FailureStreak(history[..|history| - 1]) + 1
         case Observed(_) => FailureStreak(history[..|history| - 1])
  }

  function LastFailure(history: seq<Event>): int
    requires FailureStreak(history) > 0
  {
    var last := history[|history| - 1];
    if last.Failed? then last.at else LastFailure(history[..|history| - 1])
  }

  /** The verdict as a function of the recorded results alone, whoever asked in between. */
  function Verdict(history: seq<Event>, now: int, maxFailures: nat, cooldown: int): CircuitState
    requires maxFailures > 0
  {
    if FailureStreak(history) < maxFailures then StateClosed
    else if now - LastFailure(history) >= cooldown then StateHalfOpen else StateOpen
  }

  lemma {:induction false} RunShape(start: int, history: seq<Event>, maxFailures: nat, cooldown: int)
    requires maxFailures > 0 && cooldown > 0 && Ordered(history)
    ensures var c := Run(start, history, maxFailures, cooldown);
            && c.failures == FailureStreak(history)
            && (c.state == StateClosed <==> c.failures < maxFailures)
            && (c.state == StateOpen ==> c.lastChange == LastFailure(history))
            && (c.state == StateHalfOpen ==> LastFailure(history) + cooldown <= c.lastChange)
            && (c.state == StateHalfOpen ==> history != [] && c.lastChange <= history[|history| - 1].at)
  {
    if history == [] {
    } else {
      RunShape(start, history[..|history| - 1], maxFailures, cooldown);
    }
  }

  /** After any run of results and questions, asking at a later time gives the stateless verdict. */
  lemma VerdictOfRun(start: int, history: seq<Event>, now: int, maxFailures: nat, cooldown: int)
    requires maxFailures > 0 && cooldown > 0 && Ordered(history + [Observed(now)])
    ensures Run(start, history + [Observed(now)], maxFailures, cooldown).state == Verdict(history, now, maxFailures, cooldown)
  {
    var h := history + [Observed(now)];
    assert h[..|h| - 1] == history;
    assert forall i :: 0 <= i < |history| ==> history[i] == h[i] && h[i].at <= h[|history|].at;
    RunShape(start, history, maxFailures, cooldown);
  }

  /** A target takes part exactly when it is not open within its cooldown. */
  lemma HealthyIff(t: UpstreamTarget, now: int)
    ensures t.HealthyAt(now) <==> !(t.state == StateOpen && now - t.lastStateChange < t.cooldown)
  {
  }

  /** Whatever was recorded and asked before: a target takes part exactly when fewer than maxFailures failures
      came since the last success, or the last of them is at least the cooldown ago. */
  lemma HealthyByResults(t: UpstreamTarget, start: int, history: seq<Event>, now: int)
    requires t.maxFailures > 0 && t.cooldown > 0 && Ordered(history + [Observed(now)])
    requires t.View() == Run(start, history, t.maxFailures, t.cooldown)
    ensures t.HealthyAt(now)
            <==> FailureStreak(history) < t.maxFailures || now - LastFailure(history) >= t.cooldown
  {
    VerdictOfRun(start, history, now, t.maxFailures, t.cooldown);
    var h := history + [Observed(now)];
    assert h[..|history|] == history;
  }
}
