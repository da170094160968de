/** Selection by cumulative weight: the sidecar's splitter, which walks a counter, and the weighted random
    balancer, which draws; both land in slots that are exactly as wide as the weights. */
module WeightedSplit {
  import opened Bytes
  import opened CircuitBreaker
  import opened WeightedRoundRobin

  /** The sum of weights, which cannot be negative. */
  function Total(w: seq<nat>): nat {
    SumOfAll(w, 0);
    Sum(w)
  }

  /** r falls between the weights before slot i and those up to and including it. */
  ghost predicate InSlot(w: seq<nat>, r: int, i: int) {
    0 <= i < |w| && Total(w[..i]) <= r < Total(w[..i + 1])
  }

  lemma {:induction false} TotalMonotone(w: seq<nat>, i: nat, j: nat)
    requires i <= j <= |w|
    ensures Total(w[..i]) <= Total(w[..j])
  {
    if i == j {
    } else {
      TotalMonotone(w, i, j - 1);
      assert w[..j][..j - 1] == w[..j - 1];
    }
  }

  lemma TotalNext(w: seq<nat>, i: nat)
    requires i < |w|
    ensures Total(w[..i + 1]) == Total(w[..i]) + w[i]
  {
    assert w[..i + 1][..i] == w[..i];
  }

  /** Every draw below the total lies in exactly one slot, so the loops never run off their end. */
  lemma {:induction false} SlotExists(w: seq<nat>, r: nat) returns (i: nat)
    requires r < Total(w)
    ensures InSlot(w, r, i)
    decreases |w|
  {
    var n := |w| - 1;
    TotalNext(w, n);
    assert w[..n + 1] == w;
    if r >= Total(w[..n]) {
      i := n;
    } else {
      i := SlotExists(w[..n], r);
      assert w[..n][..i] == w[..i] && w[..n][..i + 1] == w[..i + 1];
    }
  }

  lemma SlotUnique(w: seq<nat>, r: nat, i: nat, j: nat)
    requires InSlot(w, r, i) && InSlot(w, r, j)
    ensures i == j
  {
    if i < j { TotalMonotone(w, i + 1, j); }
    if j < i { TotalMonotone(w, j + 1, i); }
  }

  /** How many of the numbers lo, ..., lo + n - 1 fall in slot i, counted modulo the total. */
  ghost function Hits(w: seq<nat>, lo: nat, n: nat, i: nat): (h: nat)
    requires Total(w) > 0
  {
    if n == 0 then 0
    else Hits(w, lo, n - 1, i) + if InSlot(w, (lo + n - 1) % Total(w), i) then 1 else 0
  }

  /** Within one round the draws below x that fall in slot i are those of [before i, after i). */
  lemma {:induction false} HitsFromZero(w: seq<nat>, n: nat, i: nat)
    requires 0 < Total(w) && n <= Total(w) && i < |w|
    ensures var before, after := Total(w[..i]), Total(w[..i + 1]);
            Hits(w, 0, n, i) == if n <= before then 0 else if n <= after then n - before else after - before
  {
    TotalMonotone(w, i, i + 1);
    hide Total;
    if n == 0 {
    } else {
      HitsFromZero(w, n - 1, i);
      SmallMod(n - 1, Total(w));
    }
  }

  lemma SmallMod(k: nat, m: nat)
    requires k < m
    ensures k % m == k
  {
  }

  lemma {:induction false} HitsFirst(w: seq<nat>, lo: nat, n: nat, i: nat)
    requires 0 < Total(w) && n > 0
    ensures Hits(w, lo, n, i) == (if InSlot(w, lo % Total(w), i) then 1 else 0) + Hits(w, lo + 1, n - 1, i)
  {
    if n == 1 {
    } else {
      HitsFirst(w, lo, n - 1, i);
      assert lo + n - 1 == lo + 1 + (n - 1) - 1;
    }
  }

  lemma ModPeriod(k: nat, m: nat)
    requires m > 0
    ensures (k + m) % m == k % m
  {
    var q, r, q', r' := k / m, k % m, (k + m) / m, (k + m) % m;
    assert k == m * q + r && k + m == m * q' + r';
    var d := q' - q - 1;
    assert m * q' == m * (q + 1 + d) == m * q + m + m * d;
    MultipleBelow(m, d);
  }

  lemma MultipleBelow(m: int, d: int)
    requires m > 0
    ensures d > 0 ==> m * d >= m
    ensures d < 0 ==> m * d <= 0 - m
  {
  }

  /** Exact split: any Total(w) consecutive counter values, wherever they start, hit slot i exactly w[i] times. */
  lemma {:induction false} ExactSplit(w: seq<nat>, lo: nat, i: nat)
    requires 0 < Total(w) && i < |w|
    ensures Hits(w, lo, Total(w), i) == w[i]
  {
    var T := Total(w);
    if lo == 0 {
      HitsFromZero(w, T, i);
      TotalNext(w, i);
      TotalMonotone(w, i + 1, |w|);
      assert w[..|w|] == w;
    } else {
      ExactSplit(w, lo - 1, i);
      HitsFirst(w, lo - 1, T, i);
      ModPeriod(lo - 1, T);
    }
  }

  // ----- the sidecar's splitter -----

  datatype SplitTarget = SplitTarget(url: string, weight: int)

  function CleanWeights(targets: seq<SplitTarget>): (w: seq<nat>)
    ensures |w| == |targets| && forall i :: 0 <= i < |w| ==> w[i] == CleanWeight(targets[i].weight)
  {
    seq(|targets|, i requires 0 <= i < |targets| => CleanWeight(targets[i].weight))
  }

  lemma {:induction false} TotalPositive(w: seq<nat>)
    requires w != [] && forall i :: 0 <= i < |w| ==> w[i] > 0
    ensures Total(w) > 0
  {
    SumOfAll(w, 1);
  }

  class WeightedSplitter {
    const targets: seq<SplitTarget>
    const totalWeight: nat
    var counter: nat

    ghost predicate Valid() {
      && targets != []
      && (forall i :: 0 <= i < |targets| ==> targets[i].weight > 0)
      && totalWeight == Total(CleanWeights(targets)) > 0
    }

    constructor (given: seq<SplitTarget>)
      requires given != []
      ensures Valid() && counter == 0 && |targets| == |given|
      // a positive weight is kept, any other becomes 1
      ensures forall i :: 0 <= i < |given| ==>
                && targets[i].url == given[i].url
                && (given[i].weight > 0 ==> targets[i].weight == given[i].weight)
                && (given[i].weight <= 0 ==> targets[i].weight == 1)
    {
      var total, cleanTargets := 0, [];
      for k := 0 to |given|
        invariant |cleanTargets| == k && total == Total(CleanWeights(cleanTargets))
        invariant forall i :: 0 <= i < k ==> cleanTargets[i] == SplitTarget(given[i].url, CleanWeight(given[i].weight))
      {
        var t := SplitTarget(given[k].url, CleanWeight(given[k].weight));
        var next := cleanTargets + [t];
        assert CleanWeights(next)[..k] == CleanWeights(cleanTargets);
        total, cleanTargets := total + t.weight, next;
      }
      TotalPositive(CleanWeights(cleanTargets));
      targets, totalWeight, counter := cleanTargets, total, 0;
    }

    /** The next URL: the slot of the advanced counter modulo the total weight. */
    method Select() returns (url: string, ghost slot: nat)
      requires Valid()
      modifies this
      ensures counter == if |targets| == 1 then old(counter) else old(counter) + 1
      ensures InSlot(CleanWeights(targets), counter % totalWeight, slot) && url == targets[slot].url
    {
      ghost var w := CleanWeights(targets);
      url, slot := targets[0].url, 0;
      if |targets| == 1 {
        TotalNext(w, 0);
        assert w[..1] == w && InSlot(w, counter % totalWeight, 0);
        return targets[0].url, 0;
      }
      counter := counter + 1;
      var mod := counter % totalWeight;
      var accum := 0;
      assert w[..|targets|] == w;
      for k := 0 to |targets|
        invariant counter == old(counter) + 1
        invariant accum == Total(w[..k]) <= mod
      {
        TotalNext(w, k);
        accum := accum + targets[k].weight;
        if mod < accum {
          assert InSlot(w, mod, k);
          return targets[k].url, k;
        }
      }
      assert false;
    }
  }

  /** As many calls of Select as the weights sum to, from any counter value: each target is chosen exactly
      its weight. */
  method SelectRound(s: WeightedSplitter) returns (urls: seq<string>, ghost slots: seq<nat>)
    requires s.Valid()
    modifies s
    ensures |urls| == |slots| == s.totalWeight
    ensures forall k :: 0 <= k < |urls| ==> slots[k] < |s.targets| && urls[k] == s.targets[slots[k]].url
    ensures forall i :: 0 <= i < |s.targets| ==> Count(slots, i) == CleanWeights(s.targets)[i]
  {
    hide Total, InSlot, Count, Hits;
    ghost var w, from := CleanWeights(s.targets), s.counter;
    urls, slots := [], [];
    NoHits(w, from + 1);
    for n := 0 to s.totalWeight
      invariant |urls| == |slots| == n
      invariant forall k :: 0 <= k < n ==> slots[k] < |w| && urls[k] == s.targets[slots[k]].url
      invariant s.counter == if |w| == 1 then from else from + n
      invariant |w| > 1 ==> forall i: nat :: Count(slots, i) == Hits(w, from + 1, n, i)
      invariant |w| == 1 ==> Count(slots, 0) == n
    {
      var url, slot := s.Select();
      SlotBound(w, s.counter % s.totalWeight, slot);
      if |w| > 1 {
        OneMoreHit(w, from + 1, n, slots, slot);
      }
      CountOne(slots, slot, 0);
      urls, slots := urls + [url], slots + [slot];
    }
    forall i | 0 <= i < |w| ensures Count(slots, i) == w[i] {
      if |w| > 1 {
        ExactSplit(w, from + 1, i);
      } else {
        OnlyWeight(w);
      }
    }
  }

  /** From the targets as they were given: as many calls as they weigh choose each of them as often as it
      weighs, where a weight that is not positive counts as 1. */
  method SplitFairly(given: seq<SplitTarget>, warmUp: nat) returns (urls: seq<string>, ghost slots: seq<nat>, ghost w: seq<nat>)
    requires given != []
    ensures |w| == |given| && forall i :: 0 <= i < |given| ==>
              (given[i].weight > 0 ==> w[i] == given[i].weight) && (given[i].weight <= 0 ==> w[i] == 1)
    ensures |urls| == |slots| == Total(w)
    ensures forall k :: 0 <= k < |urls| ==> slots[k] < |given| && urls[k] == given[slots[k]].url
    ensures forall i :: 0 <= i < |given| ==> Count(slots, i) == w[i]
  {
    hide Total, InSlot, Count;
    var s := new WeightedSplitter(given);
    for i := 0 to warmUp
      invariant s.Valid()
    {
      var _, _ := s.Select();
    }
    urls, slots := SelectRound(s);
    w := CleanWeights(s.targets);
  }

  lemma NoHits(w: seq<nat>, lo: nat)
    requires Total(w) > 0
    ensures forall i: nat :: Count([], i) == Hits(w, lo, 0, i) == 0
  {
  }

  lemma SlotBound(w: seq<nat>, r: int, i: int)
    requires InSlot(w, r, i)
    ensures 0 <= i < |w|
  {
  }

  lemma CountOne(slots: seq<nat>, slot: nat, i: nat)
    ensures Count(slots + [slot], i) == Count(slots, i) + if slot == i then 1 else 0
  {
    assert (slots + [slot])[..|slots|] == slots;
  }

  lemma OneMoreHit(w: seq<nat>, lo: nat, n: nat, slots: seq<nat>, slot: nat)
    requires Total(w) > 0 && InSlot(w, (lo + n) % Total(w), slot)
    requires forall i: nat :: Count(slots, i) == Hits(w, lo, n, i)
    ensures forall i: nat :: Count(slots + [slot], i) == Hits(w, lo, n + 1, i)
  {
    hide Total, InSlot, Count;
    forall i: nat ensures Count(slots + [slot], i) == Hits(w, lo, n + 1, i) {
      CountOne(slots, slot, i);
      if InSlot(w, (lo + n) % Total(w), i) {
        SlotUnique(w, (lo + n) % Total(w), slot, i);
      }
    }
  }

  lemma OnlyWeight(w: seq<nat>)
    requires |w| == 1
    ensures Total(w) == w[0]
  {
    assert w[..0] == [] && Sum(w[..0]) == 0;
  }

  // ----- the weighted random balancer -----

  /** Positions of the targets that take part. */
  function Indices(up: seq<bool>): (h: seq<nat>)
    ensures forall k :: 0 <= k < |h| ==> h[k] < |up| && up[h[k]]
    ensures forall j :: 0 <= j < |up| && up[j] ==> j in h
    ensures forall j, k :: 0 <= j < k < |h| ==> h[j] < h[k]
  {
    if up == [] then []
    else
      var n := |up| - 1;
      Indices(up[..n]) + if up[n] then [n] else []
  }

  function WeightsAt(targets: seq<UpstreamTarget>, h: seq<nat>): (w: seq<nat>)
    requires forall k :: 0 <= k < |h| ==> h[k] < |targets|
    ensures |w| == |h|
    ensures forall k :: 0 <= k < |w| && targets[h[k]].weight > 0 ==> w[k] == targets[h[k]].weight
    ensures forall k :: 0 <= k < |w| && targets[h[k]].weight <= 0 ==> w[k] == 1
  {
    seq(|h|, k requires 0 <= k < |h| => CleanWeight(targets[h[k]].weight))
  }

  predicate Resting(t: UpstreamTarget, now: int)
    reads t
  {
    t.state == StateOpen && now - t.lastStateChange < t.cooldown
  }

  class WeightedRandomBalancer {
    const targets: seq<UpstreamTarget>

    constructor (targets: seq<UpstreamTarget>)
      ensures this.targets == targets
    {
      this.targets := targets;
    }

    /** intn(n) is a draw below n. Fails exactly when no target takes part; otherwise the draw's slot decides. */
    method Next(now: int, intn: nat -> nat) returns (choice: Option<nat>)
      requires forall i, j :: 0 <= i < j < |targets| ==> targets[i] != targets[j]
      requires forall n: nat :: n > 0 ==> intn(n) < n
      modifies targets
      ensures var h := Indices(old(Health(targets, now)));
              var w := WeightsAt(targets, h);
              if h == [] then choice == None
              else exists i: nat :: InSlot(w, intn(Total(w)), i) && choice == Some(h[i])
      // a target that is open and within its cooldown is not chosen; there is no choice only if all are
      ensures forall i :: 0 <= i < |targets| && old(Resting(targets[i], now)) ==> choice != Some(i)
      ensures choice == None <==> forall i :: 0 <= i < |targets| ==> old(Resting(targets[i], now))
    {
      ghost var up := Health(targets, now);
      forall i | 0 <= i < |targets| ensures up[i] <==> !Resting(targets[i], now) {
        HealthyIff(targets[i], now);
      }
      assert Indices(up) == [] ==> forall i :: 0 <= i < |up| ==> !up[i];
      var healthy, totalWeight := CollectHealthy(now);
      if |healthy| == 0 {
        return None;
      }
      TotalPositive(WeightsAt(targets, healthy));
      var k := Pick(healthy, intn(totalWeight));
      return Some(healthy[k]);
    }

    /** Takes each weight off the draw until it no longer covers the next one. */
    method Pick(healthy: seq<nat>, draw: nat) returns (k: nat)
      requires forall i :: 0 <= i < |healthy| ==> healthy[i] < |targets|
      requires draw < Total(WeightsAt(targets, healthy))
      ensures InSlot(WeightsAt(targets, healthy), draw, k)
    {
      ghost var w := WeightsAt(targets, healthy);
      assert w[..|healthy|] == w;
      var r := draw;
      k := 0;
      for i := 0 to |healthy|
        invariant r >= 0 && r + Total(w[..i]) == draw
      {
        TotalNext(w, i);
        var weight := CleanWeight(targets[healthy[i]].weight);
        if r < weight {
          return i;
        }
        r := r - weight;
      }
      assert false;
    }

    method CollectHealthy(now: int) returns (healthy: seq<nat>, totalWeight: nat)
      requires forall i, j :: 0 <= i < j < |targets| ==> targets[i] != targets[j]
      modifies targets
      ensures healthy == Indices(old(Health(targets, now)))
      ensures totalWeight == Total(WeightsAt(targets, healthy))
    {
      hide WeightsAt, Total, Apply;
      ghost var up := Health(targets, now);
      healthy, totalWeight := [], 0;
      NoWeights(targets);
      for k := 0 to |targets|
        invariant healthy == Indices(up[..k])
        invariant totalWeight == Total(WeightsAt(targets, healthy))
        invariant forall i :: k <= i < |targets| ==> targets[i].View() == old(targets[i].View())
      {
        assert up[..k + 1][..k] == up[..k];
        var state := targets[k].GetState(now);
        assert up[k] <==> state != StateOpen;
        if state == StateClosed || state == StateHalfOpen {
          OneMoreWeight(targets, healthy, k);
          totalWeight := totalWeight + CleanWeight(targets[k].weight);
          healthy := healthy + [k];
        }
      }
      assert up[..|targets|] == up;
    }
  }

  lemma NoWeights(targets: seq<UpstreamTarget>)
    ensures Total(WeightsAt(targets, [])) == 0
  {
  }

  lemma OneMoreWeight(targets: seq<UpstreamTarget>, h: seq<nat>, k: nat)
    requires k < |targets| && forall i :: 0 <= i < |h| ==> h[i] < |targets|
    ensures Total(WeightsAt(targets, h + [k])) == Total(WeightsAt(targets, h)) + CleanWeight(targets[k].weight)
  {
    assert WeightsAt(targets, h + [k])[..|h|] == WeightsAt(targets, h);
  }
}
