/** Smooth weighted round-robin: one step as a relation, the balancer that takes it in place, and its
    exact fairness over whole runs. */
module WeightedRoundRobin {
  import opened Bytes
  import opened CircuitBreaker

  // ----- one step on values -----

  function Sum(s: seq<int>): int {
    if s == [] then 0 else Sum(s[..|s| - 1]) + s[|s| - 1]
  }

  /** Weights of the targets that take part. */
  function Active(w: seq<int>, up: seq<bool>): (r: seq<int>)
    requires |w| == |up|
    ensures |r| == |w|
  {
    seq(|w|, i requires 0 <= i < |w| => if up[i] then w[i] else 0)
  }

  /** Every healthy target gains its weight, and b, the first of the richest, pays for all of them. */
  ghost predicate Step(w: seq<int>, cw: seq<int>, up: seq<bool>, b: nat, cw': seq<int>) {
    && |w| == |cw| == |up| == |cw'|
    && b < |w| && up[b]
    && (forall j :: 0 <= j < |w| && up[j] ==> cw[j] + w[j] <= cw[b] + w[b])
    && (forall j :: 0 <= j < b && up[j] ==> cw[j] + w[j] < cw[b] + w[b])
    && (forall j :: 0 <= j < |w| ==>
          cw'[j] == cw[j] + Active(w, up)[j] - if j == b then Sum(Active(w, up)) else 0)
  }

  ghost predicate Positive(w: seq<int>) {
    forall i :: 0 <= i < |w| ==> w[i] > 0
  }

  lemma {:induction false} SumPointwise(a: seq<int>, b: seq<int>, c: seq<int>, k: int)
    requires |a| == |b| == |c|
    requires forall i :: 0 <= i < |a| ==> c[i] == a[i] + k * b[i]
    ensures Sum(c) == Sum(a) + k * Sum(b)
  {
    if a == [] {
    } else {
      SumPointwise(a[..|a| - 1], b[..|b| - 1], c[..|c| - 1], k);
      var x, y := Sum(b[..|b| - 1]), b[|b| - 1];
      assert k * (x + y) == k * x + k * y;
    }
  }

  lemma {:induction false} SumUpdate(s: seq<int>, i: nat, v: int)
    requires i < |s|
    ensures Sum(s[i := v]) == Sum(s) - s[i] + v
  {
    var n := |s| - 1;
    if i == n {
      assert s[i := v][..n] == s[..n];
    } else {
      assert s[i := v][..n] == s[..n][i := v];
      SumUpdate(s[..n], i, v);
    }
  }

  lemma {:induction false} SumOfAll(s: seq<int>, lo: int)
    requires forall i :: 0 <= i < |s| ==> s[i] >= lo
    ensures Sum(s) >= lo * |s|
    ensures Sum(s) == lo * |s| ==> forall i :: 0 <= i < |s| ==> s[i] == lo
  {
    if s == [] {
    } else {
      SumOfAll(s[..|s| - 1], lo);
      assert lo * |s| == lo * (|s| - 1) + lo;
    }
  }

  /** No health pattern creates or destroys credit. */
  lemma StepConserves(w: seq<int>, cw: seq<int>, up: seq<bool>, b: nat, cw': seq<int>)
    requires Step(w, cw, up, b, cw')
    ensures Sum(cw') == Sum(cw)
  {
    hide Sum;
    var a := Active(w, up);
    var raised := seq(|w|, i requires 0 <= i < |w| => cw[i] + a[i]);
    SumPointwise(cw, a, raised, 1);
    assert cw' == raised[b := raised[b] - Sum(a)];
    SumUpdate(raised, b, raised[b] - Sum(a));
  }

  lemma StepDeterministic(w: seq<int>, cw: seq<int>, up: seq<bool>, b: nat, x: seq<int>, c: nat, y: seq<int>)
    requires Step(w, cw, up, b, x) && Step(w, cw, up, c, y)
    ensures b == c && x == y
  {
  }

  // ----- runs in which the health of the targets does not change -----

  function Zeros(n: nat): (z: seq<int>)
    ensures |z| == n && forall i :: 0 <= i < n ==> z[i] == 0
  {
    seq(n, _ => 0)
  }

  /** Some target takes part. */
  ghost predicate AnyUp(w: seq<int>, up: seq<bool>) {
    |w| == |up| && exists i :: 0 <= i < |up| && up[i]
  }

  /** cws[k] are the credits before pick k of a run from the initial state. */
  ghost predicate Run(w: seq<int>, up: seq<bool>, cws: seq<seq<int>>, picks: seq<nat>) {
    && Positive(w) && AnyUp(w, up) && |cws| == |picks| + 1 && cws[0] == Zeros(|w|)
    && forall k :: 0 <= k < |picks| ==> Step(w, cws[k], up, picks[k], cws[k + 1])
  }

  function Count(picks: seq<nat>, i: nat): (c: nat)
    ensures c <= |picks|
  {
    if picks == [] then 0
    else Count(picks[..|picks| - 1], i) + if picks[|picks| - 1] == i then 1 else 0
  }

  lemma {:induction false} ActiveTotal(w: seq<int>, up: seq<bool>)
    requires Positive(w) && AnyUp(w, up)
    ensures Sum(Active(w, up)) > 0
  {
    var i :| 0 <= i < |up| && up[i];
    assert Active(w, up)[i] > 0;
    SumOfAll(Active(w, up), 0);
  }

  /** After k picks, a target's credit is what it earned less what it paid, and more than -W. */
  ghost predicate Balanced(w: seq<int>, W: int, cw: seq<int>, picked: seq<nat>, k: nat) {
    && |cw| == |w| && Sum(cw) == 0
    && forall i :: 0 <= i < |w| ==> cw[i] == k * w[i] - W * Count(picked, i) && cw[i] > -W
  }

  lemma BalancedInitially(w: seq<int>, W: int)
    requires W > 0
    ensures Balanced(w, W, Zeros(|w|), [], 0)
  {
    SumOfZeros(|w|);
  }

  lemma SumOfZeros(n: nat)
    ensures Sum(Zeros(n)) == 0
  {
    if n == 0 {
    } else {
      SumOfZeros(n - 1);
      assert Zeros(n)[..n - 1] == Zeros(n - 1);
    }
  }

  lemma BalancedStep(w: seq<int>, up: seq<bool>, W: int, cw: seq<int>, picked: seq<nat>, k: nat, b: nat, cw': seq<int>)
    requires Positive(w) && AnyUp(w, up) && W == Sum(Active(w, up)) && Balanced(Active(w, up), W, cw, picked, k)
    requires Step(w, cw, up, b, cw')
    ensures Balanced(Active(w, up), W, cw', picked + [b], k + 1)
  {
    StepConserves(w, cw, up, b, cw');
    ActiveTotal(w, up);
    var a := Active(w, up);
    forall i | 0 <= i < |w| && !up[i] ensures cw[i] <= 0 {
      NothingEarned(W, k, Count(picked, i));
    }
    PickIsPositive(w, up, cw, b, cw');
    assert (picked + [b])[..|picked|] == picked;
    hide Sum;
    forall i | 0 <= i < |w|
      ensures cw'[i] == (k + 1) * a[i] - W * Count(picked + [b], i) && cw'[i] > -W
    {
      assert cw'[i] == cw[i] + a[i] - (if i == b then W else 0);
      Entry(a[i], W, k, Count(picked, i));
    }
  }

  lemma NothingEarned(W: int, k: nat, c: nat)
    requires W > 0
    ensures k * 0 - W * c <= 0
  {
  }

  lemma Entry(wi: int, W: int, k: nat, c: nat)
    ensures (k + 1) * wi == k * wi + wi && W * (c + 1) == W * c + W
  {
  }

  lemma {:induction false} Ledger(w: seq<int>, up: seq<bool>, cws: seq<seq<int>>, picks: seq<nat>, k: nat)
    requires Run(w, up, cws, picks) && k <= |picks|
    ensures Balanced(Active(w, up), Sum(Active(w, up)), cws[k], picks[..k], k)
  {
    hide Sum, Balanced, Active;
    var a := Active(w, up);
    if k == 0 {
      ActiveTotal(w, up);
      BalancedInitially(a, Sum(a));
      assert picks[..0] == [];
    } else {
      Ledger(w, up, cws, picks, k - 1);
      BalancedStep(w, up, Sum(a), cws[k - 1], picks[..k - 1], k - 1, picks[k - 1], cws[k]);
      assert picks[..k] == picks[..k - 1] + [picks[k - 1]];
    }
  }

  lemma {:induction false} NothingPositive(s: seq<int>)
    requires forall i :: 0 <= i < |s| ==> s[i] <= 0
    ensures Sum(s) <= 0
  {
    if s == [] {
    } else {
      NothingPositive(s[..|s| - 1]);
    }
  }

  /** The richest of credits that sum to W > 0 is positive, so it stays above -W after paying W. */
  lemma PickIsPositive(w: seq<int>, up: seq<bool>, cw: seq<int>, b: nat, cw': seq<int>)
    requires Positive(w) && Step(w, cw, up, b, cw') && Sum(cw) == 0
    requires forall i :: 0 <= i < |w| && !up[i] ==> cw[i] <= 0
    ensures cw[b] + w[b] > 0
  {
    ActiveTotal(w, up);
    var a := Active(w, up);
    var raised := seq(|w|, i requires 0 <= i < |w| => cw[i] + a[i]);
    SumPointwise(cw, a, raised, 1);
    hide Sum;
    if cw[b] + w[b] <= 0 {
      NothingPositive(raised);
    }
  }

  /** After any k picks a target is ahead of its share k*w/W by less than one pick. */
  lemma NeverAheadByOne(w: seq<int>, up: seq<bool>, cws: seq<seq<int>>, picks: seq<nat>, k: nat, i: nat)
    requires Run(w, up, cws, picks) && k <= |picks| && i < |w|
    ensures var a := Active(w, up); Sum(a) * Count(picks[..k], i) < k * a[i] + Sum(a)
  {
    hide Sum, Run, Count, Active;
    Ledger(w, up, cws, picks, k);
  }

  /** Credits that sum to 0, are multiples of W and exceed -W are all 0. */
  lemma BalancedBlock(w: seq<int>, W: int, cw: seq<int>, picked: seq<nat>)
    requires W > 0 && Balanced(w, W, cw, picked, W)
    ensures cw == Zeros(|w|)
    ensures forall i :: 0 <= i < |w| ==> Count(picked, i) == w[i]
  {
    hide Sum, Count;
    forall i | 0 <= i < |w| ensures cw[i] >= 0 {
      Multiple(W, w[i], Count(picked, i), cw[i]);
    }
    SumOfAll(cw, 0);
    forall i | 0 <= i < |w| ensures Count(picked, i) == w[i] {
      Multiple(W, w[i], Count(picked, i), cw[i]);
    }
  }

  lemma Multiple(W: int, a: int, c: int, x: int)
    requires W > 0 && x == W * a - W * c && x > -W
    ensures x >= 0 && (x == 0 ==> a == c)
  {
    var d := a - c;
    assert W * a == W * (c + d) == W * c + W * d;
    assert W * -d == -(W * d);
    if d < 0 { Scale(W, -d); }
    if d > 0 { Scale(W, d); }
  }

  lemma Scale(W: int, d: int)
    requires W > 0 && d > 0
    ensures W * d >= W
  {
    if d == 1 {
    } else {
      Scale(W, d - 1);
      assert W * d == W * (d - 1) + W;
    }
  }

  /** The first W picks take every target that takes part exactly its weight, and all credits are back at 0. */
  lemma FirstBlock(w: seq<int>, up: seq<bool>, cws: seq<seq<int>>, picks: seq<nat>)
    requires Run(w, up, cws, picks) && |picks| >= Sum(Active(w, up))
    ensures var W := Sum(Active(w, up));
            && W > 0 && cws[W] == Zeros(|w|)
            && forall i :: 0 <= i < |w| ==> Count(picks[..W], i) == Active(w, up)[i]
  {
    hide Sum, Count, Balanced, Active;
    var a := Active(w, up);
    ActiveTotal(w, up);
    Ledger(w, up, cws, picks, Sum(a));
    BalancedBlock(a, Sum(a), cws[Sum(a)], picks[..Sum(a)]);
  }

  /** The run repeats itself with period W. */
  lemma {:induction false} Periodic(w: seq<int>, up: seq<bool>, cws: seq<seq<int>>, picks: seq<nat>, k: nat)
    requires Run(w, up, cws, picks) && Sum(Active(w, up)) >= 0 && k + Sum(Active(w, up)) <= |picks|
    ensures var W := Sum(Active(w, up));
            cws[k + W] == cws[k] && (k + W < |picks| ==> picks[k + W] == picks[k])
  {
    hide Sum, Active;
    var W := Sum(Active(w, up));
    if k == 0 {
      FirstBlock(w, up, cws, picks);
    } else {
      Periodic(w, up, cws, picks, k - 1);
      StepDeterministic(w, cws[k - 1], up, picks[k - 1], cws[k], picks[k - 1 + W], cws[k + W]);
    }
    if k + W < |picks| {
      StepDeterministic(w, cws[k], up, picks[k], cws[k + 1], picks[k + W], cws[k + W + 1]);
    }
  }

  lemma {:induction false} CountAppend(a: seq<nat>, b: seq<nat>, i: nat)
    ensures Count(a + b, i) == Count(a, i) + Count(b, i)
  {
    if b == [] {
      assert a + b == a;
    } else {
      assert (a + b)[..|a + b| - 1] == a + b[..|b| - 1];
      CountAppend(a, b[..|b| - 1], i);
    }
  }

  /** Exact fairness among the targets that take part: any W consecutive picks, wherever they start, take
      each of them exactly its weight, and no other. */
  lemma {:induction false} ExactlyFair(w: seq<int>, up: seq<bool>, cws: seq<seq<int>>, picks: seq<nat>, k: nat, i: nat)
    requires Run(w, up, cws, picks) && i < |w| && Sum(Active(w, up)) >= 0 && k + Sum(Active(w, up)) <= |picks|
    ensures Count(picks[k..k + Sum(Active(w, up))], i) == if up[i] then w[i] else 0
  {
    hide Sum, Run, Count;
    assert |w| == |up| by {
      HasPattern(w, up, cws, picks);
    }
    var W := Sum(Active(w, up));
    FirstBlock(w, up, cws, picks);
    if k == 0 {
      assert picks[0..W] == picks[..W];
    } else {
      ExactlyFair(w, up, cws, picks, k - 1, i);
      Periodic(w, up, cws, picks, k - 1);
      var window := picks[k..k + W - 1];
      var x := [picks[k - 1]];
      assert picks[k - 1..k - 1 + W] == x + window;
      assert picks[k..k + W] == window + x;
      CountAppend(x, window, i);
      CountAppend(window, x, i);
    }
  }

  lemma HasPattern(w: seq<int>, up: seq<bool>, cws: seq<seq<int>>, picks: seq<nat>)
    requires Run(w, up, cws, picks)
    ensures |w| == |up|
  {
  }

  // ----- the balancer -----

  datatype Choice = Chosen(index: nat) | NoTargetsAvailable | NoHealthyUpstream

  function Weights(targets: seq<UpstreamTarget>): (w: seq<int>)
    ensures |w| == |targets|
    ensures forall i :: 0 <= i < |targets| ==> w[i] == targets[i].effectiveWeight
  {
    seq(|targets|, i requires 0 <= i < |targets| => targets[i].effectiveWeight)
  }

  function Credits(targets: seq<UpstreamTarget>): (cw: seq<int>)
    reads targets
    ensures |cw| == |targets|
    ensures forall i :: 0 <= i < |targets| ==> cw[i] == targets[i].currentWeight
  {
    seq(|targets|, i requires 0 <= i < |targets| reads targets => targets[i].currentWeight)
  }

  function Health(targets: seq<UpstreamTarget>, now: int): (up: seq<bool>)
    reads targets
    ensures |up| == |targets|
    ensures forall i :: 0 <= i < |targets| ==> up[i] == targets[i].HealthyAt(now)
  {
    seq(|targets|, i requires 0 <= i < |targets| reads targets => targets[i].HealthyAt(now))
  }

  /** A copy whose state was asked for. */
  ghost predicate Copied(t: UpstreamTarget, original: UpstreamTarget, before: Circuit, now: int)
    reads t
  {
    && t.maxFailures == original.maxFailures && t.cooldown == original.cooldown
    && t.View() == Apply(before, Observed(now), t.maxFailures, t.cooldown)
  }

  class WeightedRoundRobinBalancer {
    const targets: seq<UpstreamTarget>

    ghost predicate Valid()
      reads this, targets
    {
      && targets != []
      && (forall i, j :: 0 <= i < j < |targets| ==> targets[i] != targets[j])
      && Positive(Weights(targets))
      && Sum(Credits(targets)) == 0
    }

    /** Copies of the given targets, each with weight at least 1 and credit 0. */
    constructor (given: seq<UpstreamTarget>, now: int)
      requires given != []
      modifies given
      ensures Valid() && fresh(targets) && |targets| == |given|
      ensures Credits(targets) == Zeros(|given|)
      // a positive weight is kept, any other becomes 1
      ensures forall i :: 0 <= i < |given| ==>
                && targets[i].url == given[i].url
                && (given[i].weight > 0 ==> targets[i].effectiveWeight == given[i].weight)
                && (given[i].weight <= 0 ==> targets[i].effectiveWeight == 1)
      ensures forall i :: 0 <= i < |given| ==> Copied(targets[i], given[i], old(given[i].View()), now)
    {
      var copied: seq<UpstreamTarget> := [];
      for k := 0 to |given|
        invariant |copied| == k && fresh(copied)
        invariant forall i, j :: 0 <= i < j < k ==> copied[i] != copied[j]
        invariant forall i :: 0 <= i < k ==>
                    && copied[i].currentWeight == 0
                    && copied[i].url == given[i].url && copied[i].effectiveWeight == CleanWeight(given[i].weight)
                    && Copied(copied[i], given[i], old(given[i].View()), now)
        invariant forall i :: 0 <= i < |given| ==>
                    given[i].View() in {old(given[i].View()), Apply(old(given[i].View()), Observed(now), given[i].maxFailures, given[i].cooldown)}
      {
        var cp := new UpstreamTarget.Clone(given[k], now);
        copied := copied + [cp];
      }
      targets := copied;
      new;
      assert Credits(targets) == Zeros(|targets|);
      SumOfZeros(|targets|);
    }

    /** One selection: fails exactly when no target is closed or half-open, and otherwise takes the
        smooth weighted round-robin step, in place, over the targets that are. */
    method Next(now: int) returns (choice: Choice)
      requires Valid()
      modifies targets
      ensures Valid()
      ensures choice == NoHealthyUpstream <==> forall i :: 0 <= i < |targets| ==> !old(Health(targets, now)[i])
      ensures choice == NoHealthyUpstream ==> Credits(targets) == old(Credits(targets))
      ensures choice != NoTargetsAvailable
      ensures choice.Chosen? ==>
                Step(Weights(targets), old(Credits(targets)), old(Health(targets, now)), choice.index, Credits(targets))
      // a target that is open and within its cooldown is neither chosen nor credited
      ensures forall i :: 0 <= i < |targets| && old(targets[i].state == StateOpen && now - targets[i].lastStateChange < targets[i].cooldown) ==>
                choice != Chosen(i) && targets[i].currentWeight == old(targets[i].currentWeight)
      ensures choice.Chosen? ==> targets[choice.index].state != StateOpen
      ensures forall i :: 0 <= i < |targets| ==>
                targets[i].View() == Apply(old(targets[i].View()), Observed(now), targets[i].maxFailures, targets[i].cooldown)
    {
      hide Sum, Apply, Active, Credits, Health, Weights, Positive;
      ghost var w, cw, up := Weights(targets), Credits(targets), Health(targets, now);
      forall i | 0 <= i < |targets|
        ensures up[i] <==> !(targets[i].state == StateOpen && now - targets[i].lastStateChange < targets[i].cooldown)
        ensures !up[i] ==> Active(w, up)[i] == 0
      {
        HealthyIff(targets[i], now);
        InactiveWeighsNothing(w, up, i);
      }
      var best, totalWeight := Raise(now);
      if best.None? {
        NoneActive(w, up);
        assert Credits(targets) == cw;
        return NoHealthyUpstream;
      }
      var b := best.value;
      targets[b].currentWeight := targets[b].currentWeight - totalWeight;
      StepConserves(w, cw, up, b, Credits(targets));
      return Chosen(b);
    }

    /** The loop of Next: every healthy target gains its weight; the first of the richest is remembered. */
    method Raise(now: int) returns (best: Option<nat>, totalWeight: int)
      requires Valid()
      modifies targets
      ensures forall i :: 0 <= i < |targets| ==>
                targets[i].currentWeight == old(targets[i].currentWeight) + Active(Weights(targets), old(Health(targets, now)))[i]
      ensures forall i :: 0 <= i < |targets| ==>
                targets[i].View() == Apply(old(targets[i].View()), Observed(now), targets[i].maxFailures, targets[i].cooldown)
      ensures totalWeight == Sum(Active(Weights(targets), old(Health(targets, now))))
      ensures BestSoFar(best, |targets|, Weights(targets), old(Credits(targets)), old(Health(targets, now)))
    {
      hide Sum, Apply, Credits, Health, Weights, Positive;
      ghost var w, cw, up := Weights(targets), Credits(targets), Health(targets, now);
      ghost var a := Active(w, up);
      best, totalWeight := None, 0;
      SumStart(a);
      for k := 0 to |targets|
        invariant forall i :: 0 <= i < k ==>
                    && targets[i].currentWeight == cw[i] + a[i]
                    && targets[i].View() == Apply(old(targets[i].View()), Observed(now), targets[i].maxFailures, targets[i].cooldown)
        invariant forall i :: k <= i < |targets| ==>
                    targets[i].currentWeight == cw[i] && targets[i].View() == old(targets[i].View())
        invariant totalWeight == Sum(a[..k])
        invariant BestSoFar(best, k, w, cw, up)
      {
        SumNext(a, k);
        var t := targets[k];
        var healthy := Gain(t, now);
        assert healthy == up[k];
        if !healthy {
          continue;
        }
        totalWeight := totalWeight + t.effectiveWeight;
        if best.None? || t.currentWeight > targets[best.value].currentWeight {
          best := Some(k);
        }
      }
      assert a[..|targets|] == a;
    }
  }

  /** One target of the loop: its state is asked for, and it gains its weight if it takes part. */
  method Gain(t: UpstreamTarget, now: int) returns (healthy: bool)
    modifies t
    ensures healthy == old(t.HealthyAt(now))
    ensures t.currentWeight == old(t.currentWeight) + if healthy then t.effectiveWeight else 0
    ensures t.View() == Apply(old(t.View()), Observed(now), t.maxFailures, t.cooldown)
  {
    var state := t.GetState(now);
    healthy := state == StateClosed || state == StateHalfOpen;
    if healthy {
      t.currentWeight := t.currentWeight + t.effectiveWeight;
    }
  }

  ghost predicate BestSoFar(best: Option<nat>, k: nat, w: seq<int>, cw: seq<int>, up: seq<bool>)
    requires k <= |w| == |cw| == |up|
  {
    match best
    case None => forall i :: 0 <= i < k ==> !up[i]
    case Some(b) =>
      && b < k && up[b]
      && (forall j :: 0 <= j < k && up[j] ==> cw[j] + w[j] <= cw[b] + w[b])
      && (forall j :: 0 <= j < b && up[j] ==> cw[j] + w[j] < cw[b] + w[b])
  }

  lemma InactiveWeighsNothing(w: seq<int>, up: seq<bool>, i: nat)
    requires |w| == |up| && i < |w|
    ensures !up[i] ==> Active(w, up)[i] == 0
  {
  }

  lemma NoneActive(w: seq<int>, up: seq<bool>)
    requires |w| == |up| && forall i :: 0 <= i < |up| ==> !up[i]
    ensures forall i :: 0 <= i < |w| ==> Active(w, up)[i] == 0
  {
  }

  lemma SumStart(a: seq<int>)
    ensures Sum(a[..0]) == 0
  {
  }

  lemma SumNext(a: seq<int>, k: nat)
    requires k < |a|
    ensures Sum(a[..k + 1]) == Sum(a[..k]) + a[k]
  {
    assert a[..k + 1][..k] == a[..k];
  }

  /** The W picks from the k-th on, if there are so many, choose each target exactly its weight. */
  ghost predicate FairFrom(w: seq<int>, picks: seq<nat>, k: nat) {
    0 <= Sum(w) && k + Sum(w) <= |picks| ==> forall i :: 0 <= i < |w| ==> Count(picks[k..k + Sum(w)], i) == w[i]
  }

  /** The targets of the pattern are healthy, and the others open and within their cooldown at every reading
      of the clock. */
  ghost predicate KeepsPattern(targets: seq<UpstreamTarget>, up: seq<bool>, n: nat, clock: nat -> int)
    reads targets
  {
    && |up| == |targets|
    && forall i :: 0 <= i < |up| ==>
         if up[i] then targets[i].state != StateOpen
         else targets[i].state == StateOpen && forall k :: 0 <= k < n ==> clock(k) - targets[i].lastStateChange < targets[i].cooldown
  }

  /** Calls of Next on a new balancer while the same targets stay healthy: every W consecutive ones, wherever
      they start, choose each of these exactly its weight, and no other. */
  method ChooseFairly(b: WeightedRoundRobinBalancer, n: nat, clock: nat -> int, ghost up: seq<bool>) returns (picks: seq<nat>)
    requires b.Valid() && Credits(b.targets) == Zeros(|b.targets|)
    requires KeepsPattern(b.targets, up, n, clock) && AnyUp(Weights(b.targets), up)
    modifies b.targets
    ensures |picks| == n && Sum(Active(Weights(b.targets), up)) > 0
    ensures forall k: nat :: FairFrom(Active(Weights(b.targets), up), picks, k)
  {
    hide Sum, Count, Step, Active, Credits, Weights, Health, FairFrom, Run, AnyUp, Positive;
    ghost var w := Weights(b.targets);
    ghost var cws := [Credits(b.targets)];
    picks := [];
    RunStarts(w, up, cws);
    for k := 0 to n
      invariant |picks| == k && |cws| == k + 1 && b.Valid() && Run(w, up, cws, picks) && cws[k] == Credits(b.targets)
      invariant KeepsPattern(b.targets, up, n, clock)
    {
      PatternIsHealth(b.targets, up, n, clock, k);
      var choice := b.Next(clock(k));
      RunGrows(w, up, cws, picks, choice.index, Credits(b.targets));
      cws, picks := cws + [Credits(b.targets)], picks + [choice.index];
    }
    ActiveTotal(w, up);
    forall k: nat ensures FairFrom(Active(w, up), picks, k) {
      FairWindow(w, up, cws, picks, k);
    }
  }

  lemma RunStarts(w: seq<int>, up: seq<bool>, cws: seq<seq<int>>)
    requires Positive(w) && AnyUp(w, up) && cws == [Zeros(|w|)]
    ensures Run(w, up, cws, [])
  {
  }

  lemma PatternIsHealth(targets: seq<UpstreamTarget>, up: seq<bool>, n: nat, clock: nat -> int, k: nat)
    requires KeepsPattern(targets, up, n, clock) && k < n && AnyUp(Weights(targets), up)
    ensures Health(targets, clock(k)) == up && exists i :: 0 <= i < |targets| && Health(targets, clock(k))[i]
  {
    assert Health(targets, clock(k)) == up;
  }

  lemma FairWindow(w: seq<int>, up: seq<bool>, cws: seq<seq<int>>, picks: seq<nat>, k: nat)
    requires Run(w, up, cws, picks)
    ensures FairFrom(Active(w, up), picks, k)
  {
    hide Sum, Count, Run;
    HasPattern(w, up, cws, picks);
    var a := Active(w, up);
    if 0 <= Sum(a) && k + Sum(a) <= |picks| {
      forall i | 0 <= i < |w| ensures Count(picks[k..k + Sum(a)], i) == a[i] {
        ExactlyFair(w, up, cws, picks, k, i);
      }
    }
  }

  lemma RunGrows(w: seq<int>, up: seq<bool>, cws: seq<seq<int>>, picks: seq<nat>, b: nat, cw: seq<int>)
    requires Run(w, up, cws, picks) && Step(w, cws[|picks|], up, b, cw)
    ensures Run(w, up, cws + [cw], picks + [b])
  {
    hide Step;
  }

  /** What a target of some weight weighs: its own weight if that is positive, and else 1; nothing while it
      takes no part. */
  ghost predicate Shares(w: seq<int>, given: seq<UpstreamTarget>, up: seq<bool>) {
    && |w| == |given| == |up|
    && forall i :: 0 <= i < |w| ==>
         && (!up[i] ==> w[i] == 0)
         && (up[i] && given[i].weight > 0 ==> w[i] == given[i].weight)
         && (up[i] && given[i].weight <= 0 ==> w[i] == 1)
  }

  /** From the targets as they were given, some of them healthy: every W consecutive choices, where W is what
      the healthy ones weigh, choose each of these exactly as often as it weighs. */
  method BalanceFairly(given: seq<UpstreamTarget>, now: int, n: nat, clock: nat -> int, ghost up: seq<bool>)
    returns (picks: seq<nat>, ghost w: seq<int>)
    requires KeepsPattern(given, up, n, clock) && exists i :: 0 <= i < |up| && up[i]
    requires forall i :: 0 <= i < |up| && !up[i] ==> now - given[i].lastStateChange < given[i].cooldown
    modifies given
    ensures |picks| == n && Shares(w, given, up) && Sum(w) > 0
    ensures forall k: nat :: FairFrom(w, picks, k)
  {
    hide Sum, FairFrom, AnyUp, Active;
    var b := new WeightedRoundRobinBalancer(given, now);
    SomeUp(Weights(b.targets), up);
    picks := ChooseFairly(b, n, clock, up);
    w := Active(Weights(b.targets), up);
    SharesOfActive(given, Weights(b.targets), up);
  }

  lemma SomeUp(w: seq<int>, up: seq<bool>)
    requires |w| == |up| && exists i :: 0 <= i < |up| && up[i]
    ensures AnyUp(w, up)
  {
  }

  lemma SharesOfActive(given: seq<UpstreamTarget>, weights: seq<int>, up: seq<bool>)
    requires |weights| == |given| == |up|
    requires forall i :: 0 <= i < |given| ==> (given[i].weight > 0 ==> weights[i] == given[i].weight) && (given[i].weight <= 0 ==> weights[i] == 1)
    ensures Shares(Active(weights, up), given, up)
  {
  }
}
