/** A token bucket: refill by elapsed time up to the capacity, one token per request, and how long to
    wait when there is none. Times are clock readings in nanoseconds, tokens are reals. */
module TokenBucket {

  const SECOND: int := 1_000_000_000

  function Seconds(d: int): real {
    d as real / 1_000_000_000.0
  }

  /** A limit as the middleware builds it: a positive rate and at least one token. */
  datatype Limit = Limit(rate: real, burst: nat) {
    ghost predicate Valid() {
      rate > 0.0 && burst >= 1
    }
  }

  datatype Bucket = Bucket(tokens: real, lastRefill: int)

  datatype Verdict = Allowed | Denied(delay: int)

  function Earned(l: Limit, d: int): real {
    Seconds(d) * l.rate
  }

  function Min(a: real, b: real): real {
    if a <= b then a else b
  }

  function Ceil(x: real): int {
    -((-x).Floor)
  }

  function Full(l: Limit, now: int): Bucket {
    Bucket(l.burst as real, now)
  }

  function Refilled(l: Limit, b: Bucket, now: int): real {
    Min(l.burst as real, b.tokens + Earned(l, now - b.lastRefill))
  }

  function Delay(l: Limit, tokens: real): (d: int)
    requires l.Valid()
  {
    var retrySeconds := Ceil((1.0 - tokens) / l.rate);
    (if retrySeconds < 1 then 1 else retrySeconds) * SECOND
  }

  function Take(l: Limit, b: Bucket, now: int): (r: (Bucket, Verdict))
    requires l.Valid()
  {
    var tokens := Refilled(l, b, now);
    if tokens >= 1.0 then (Bucket(tokens - 1.0, now), Allowed) else (Bucket(tokens, now), Denied(Delay(l, tokens)))
  }

  class TokenBucket {
    const limit: Limit
    var tokens: real
    var lastRefill: int

    constructor (limit: Limit, now: int)
      ensures this.limit == limit && View() == Full(limit, now)
    {
      this.limit, tokens, lastRefill := limit, limit.burst as real, now;
    }

    function View(): Bucket
      reads this
    {
      Bucket(tokens, lastRefill)
    }

    method Allow(now: int) returns (v: Verdict)
      requires limit.Valid()
      modifies this
      ensures (View(), v) == Take(limit, old(View()), now)
    {
      var elapsed := Seconds(now - lastRefill);
      lastRefill := now;
      tokens := Min(limit.burst as real, tokens + elapsed * limit.rate);
      if tokens >= 1.0 {
        tokens := tokens - 1.0;
        return Allowed;
      }
      var needed := 1.0 - tokens;
      var retrySeconds := Ceil(needed / limit.rate);
      if retrySeconds < 1 {
        retrySeconds := 1;
      }
      return Denied(retrySeconds * SECOND);
    }
  }

  // ----- arithmetic of refilling -----

  lemma EarnedAdds(l: Limit, a: int, b: int)
    ensures Earned(l, a + b) == Earned(l, a) + Earned(l, b)
  {
    var x, y, r := Seconds(a), Seconds(b), l.rate;
    assert Seconds(a + b) == x + y;
    assert (x + y) * r == x * r + y * r;
  }

  lemma EarnedMonotone(l: Limit, a: int, b: int)
    requires l.Valid() && a <= b
    ensures Earned(l, a) <= Earned(l, b)
    ensures a == 0 ==> Earned(l, a) == 0.0
  {
    var d := Seconds(b) - Seconds(a);
    assert Seconds(b) * l.rate == Seconds(a) * l.rate + d * l.rate;
    assert d >= 0.0 && d * l.rate >= 0.0;
  }

  ghost predicate InRange(l: Limit, b: Bucket) {
    0.0 <= b.tokens <= l.burst as real
  }

  /** Refilling in two steps is refilling in one. */
  lemma RefillTwice(l: Limit, b: Bucket, u: int, v: int)
    requires l.Valid() && u <= v
    ensures Refilled(l, Bucket(Refilled(l, b, u), u), v) == Refilled(l, b, v)
  {
    hide Earned;
    EarnedAdds(l, u - b.lastRefill, v - u);
    assert u - b.lastRefill + (v - u) == v - b.lastRefill;
    EarnedMonotone(l, 0, v - u);
  }

  lemma TakeKeepsRange(l: Limit, b: Bucket, now: int)
    requires l.Valid() && InRange(l, b) && b.lastRefill <= now
    ensures InRange(l, Take(l, b, now).0) && Take(l, b, now).0.lastRefill == now
  {
    hide Earned;
    EarnedMonotone(l, 0, now - b.lastRefill);
  }

  // ----- runs of one bucket -----

  /** Clock readings that never decrease, from lo to hi. */
  ghost predicate Ordered(lo: int, ts: seq<int>, hi: int) {
    && lo <= hi
    && (forall i :: 0 <= i < |ts| ==> lo <= ts[i] <= hi)
    && (forall i, j :: 0 <= i <= j < |ts| ==> ts[i] <= ts[j])
  }

  function After(l: Limit, b: Bucket, ts: seq<int>): Bucket
    requires l.Valid()
  {
    if ts == [] then b else Take(l, After(l, b, ts[..|ts| - 1]), ts[|ts| - 1]).0
  }

  function Verdicts(l: Limit, b: Bucket, ts: seq<int>): (vs: seq<Verdict>)
    requires l.Valid()
    ensures |vs| == |ts|
  {
    if ts == [] then []
    else
      var n := |ts| - 1;
      Verdicts(l, b, ts[..n]) + [Take(l, After(l, b, ts[..n]), ts[n]).1]
  }

  function CountAllowed(vs: seq<Verdict>): nat {
    if vs == [] then 0 else CountAllowed(vs[..|vs| - 1]) + if vs[|vs| - 1] == Allowed then 1 else 0
  }

  lemma {:induction false} RunKeepsRange(l: Limit, b: Bucket, ts: seq<int>)
    requires l.Valid() && InRange(l, b) && (ts != [] ==> Ordered(b.lastRefill, ts, ts[|ts| - 1]))
    ensures InRange(l, After(l, b, ts))
    ensures After(l, b, ts).lastRefill == if ts == [] then b.lastRefill else ts[|ts| - 1]
  {
    if ts == [] {
    } else {
      var n := |ts| - 1;
      RunKeepsRange(l, b, ts[..n]);
      TakeKeepsRange(l, After(l, b, ts[..n]), ts[n]);
    }
  }

  /** What was allowed and what is left never exceed a full bucket and the refill since the first call. */
  lemma {:induction false} Budget(l: Limit, b: Bucket, ts: seq<int>)
    requires l.Valid() && InRange(l, b) && ts != [] && Ordered(b.lastRefill, ts, ts[|ts| - 1])
    ensures CountAllowed(Verdicts(l, b, ts)) as real + After(l, b, ts).tokens
            <= Min(l.burst as real, b.tokens + Earned(l, ts[0] - b.lastRefill)) + Earned(l, ts[|ts| - 1] - ts[0])
  {
    hide Earned, Min;
    var n := |ts| - 1;
    assert Verdicts(l, b, ts)[..n] == Verdicts(l, b, ts[..n]);
    if n == 0 {
      EarnedMonotone(l, 0, 0);
      assert ts[..0] == [];
      assert After(l, b, ts[..0]) == b;
    } else {
      Budget(l, b, ts[..n]);
      RunKeepsRange(l, b, ts[..n]);
      EarnedAdds(l, ts[n - 1] - ts[0], ts[n] - ts[n - 1]);
      MinBelow(l.burst as real, After(l, b, ts[..n]).tokens + Earned(l, ts[n] - ts[n - 1]));
    }
  }

  lemma MinBelow(a: real, b: real)
    ensures Min(a, b) <= a && Min(a, b) <= b
  {
  }

  lemma {:induction false} RunFrom(l: Limit, b: Bucket, ts: seq<int>, i: nat, j: nat)
    requires l.Valid() && i <= j <= |ts|
    ensures After(l, b, ts[..j]) == After(l, After(l, b, ts[..i]), ts[i..j])
    ensures Verdicts(l, b, ts[..j]) == Verdicts(l, b, ts[..i]) + Verdicts(l, After(l, b, ts[..i]), ts[i..j])
  {
    if i == j {
      assert ts[i..j] == [];
    } else {
      RunFrom(l, b, ts, i, j - 1);
      assert ts[..j][..j - 1] == ts[..j - 1] && ts[i..j][..j - 1 - i] == ts[i..j - 1];
      assert ts[..j][j - 1] == ts[j - 1] == ts[i..j][j - 1 - i];
    }
  }

  /** In any run of a new bucket, any calls i..j allow at most burst + rate * (time they span). */
  lemma WindowBound(l: Limit, start: int, ts: seq<int>, i: nat, j: nat)
    requires l.Valid() && i < j <= |ts| && Ordered(start, ts, ts[|ts| - 1])
    ensures CountAllowed(Verdicts(l, Full(l, start), ts)[i..j]) as real
            <= l.burst as real + Earned(l, ts[j - 1] - ts[i])
  {
    hide Earned, Take, Verdicts, After, CountAllowed;
    var b := Full(l, start);
    RunKeepsRange(l, b, ts[..i]);
    var mid := After(l, b, ts[..i]);
    Budget(l, mid, ts[i..j]);
    RunKeepsRange(l, mid, ts[i..j]);
    VerdictsOfPart(l, b, ts, i, j);
  }

  lemma VerdictsOfPart(l: Limit, b: Bucket, ts: seq<int>, i: nat, j: nat)
    requires l.Valid() && i <= j <= |ts|
    ensures Verdicts(l, b, ts)[i..j] == Verdicts(l, After(l, b, ts[..i]), ts[i..j])
  {
    RunFrom(l, b, ts, i, j);
    RunFrom(l, b, ts, j, |ts|);
    assert ts[..|ts|] == ts;
  }

  // ----- the exact account -----

  /** What a full bucket would hold at ts[k] that was full at ts[j] and has paid for the calls since. */
  function Account(l: Limit, ts: seq<int>, vs: seq<Verdict>, j: nat, k: nat): real
    requires j <= k < |ts| && k <= |vs|
  {
    l.burst as real + Earned(l, ts[k] - ts[j]) - CountAllowed(vs[j..k]) as real
  }

  /** All that the calls before ts[k] have left, by arithmetic over their verdicts: x, from what the bucket held
      at first, and from a full bucket at each of them. */
  ghost predicate Covers(l: Limit, b: Bucket, ts: seq<int>, vs: seq<Verdict>, k: nat, x: real)
    requires k < |ts| && k <= |vs|
  {
    && x <= b.tokens + Earned(l, ts[k] - b.lastRefill) - CountAllowed(vs[..k]) as real
    && forall j :: 0 <= j <= k ==> x <= Account(l, ts, vs, j, k)
  }

  lemma CountOneMore(vs: seq<Verdict>, j: nat, k: nat)
    requires j <= k < |vs|
    ensures CountAllowed(vs[j..k + 1]) == CountAllowed(vs[j..k]) + if vs[k] == Allowed then 1 else 0
  {
    assert vs[j..k + 1][..k - j] == vs[j..k];
  }

  lemma AccountLater(l: Limit, ts: seq<int>, vs: seq<Verdict>, j: nat, k: nat)
    requires j <= k < |vs| && k + 1 < |ts|
    ensures Account(l, ts, vs, j, k + 1)
            == Account(l, ts, vs, j, k) + Earned(l, ts[k + 1] - ts[k]) - if vs[k] == Allowed then 1.0 else 0.0
  {
    hide Earned, CountAllowed;
    CountOneMore(vs, j, k);
    EarnedAdds(l, ts[k] - ts[j], ts[k + 1] - ts[k]);
    assert ts[k] - ts[j] + (ts[k + 1] - ts[k]) == ts[k + 1] - ts[j];
  }

  lemma NowAccount(l: Limit, ts: seq<int>, vs: seq<Verdict>, k: nat)
    requires k < |ts| && k <= |vs|
    ensures Account(l, ts, vs, k, k) == l.burst as real
  {
    assert vs[k..k] == [];
  }

  lemma CoversLater(l: Limit, b: Bucket, ts: seq<int>, vs: seq<Verdict>, k: nat, x: real)
    requires k < |vs| && k + 1 < |ts|
    ensures var paid := if vs[k] == Allowed then 1.0 else 0.0;
            Covers(l, b, ts, vs, k + 1, x)
            <==> x <= l.burst as real && Covers(l, b, ts, vs, k, x + paid - Earned(l, ts[k + 1] - ts[k]))
  {
    hide Account, Earned, CountAllowed;
    var paid := if vs[k] == Allowed then 1.0 else 0.0;
    var shift := Earned(l, ts[k + 1] - ts[k]) - paid;
    CountOneMore(vs, 0, k);
    assert vs[0..k + 1] == vs[..k + 1] && vs[0..k] == vs[..k];
    assert CountAllowed(vs[..k + 1]) as real == CountAllowed(vs[..k]) as real + paid;
    EarnedAdds(l, ts[k] - b.lastRefill, ts[k + 1] - ts[k]);
    assert ts[k] - b.lastRefill + (ts[k + 1] - ts[k]) == ts[k + 1] - b.lastRefill;
    NowAccount(l, ts, vs, k + 1);
    forall j | 0 <= j <= k ensures Account(l, ts, vs, j, k + 1) == Account(l, ts, vs, j, k) + shift {
      AccountLater(l, ts, vs, j, k);
    }
    if x <= l.burst as real && Covers(l, b, ts, vs, k, x - shift) {
      var next := k + 1;
      forall j | 0 <= j <= next ensures x <= Account(l, ts, vs, j, next) {
        if j <= k {
          assert x - shift <= Account(l, ts, vs, j, k);
        }
      }
    }
    if Covers(l, b, ts, vs, k + 1, x) {
      forall j | 0 <= j <= k ensures x - shift <= Account(l, ts, vs, j, k) {
        assert x <= Account(l, ts, vs, j, k + 1);
      }
      assert x <= Account(l, ts, vs, k + 1, k + 1);
    }
  }

  lemma CoversFirst(l: Limit, b: Bucket, ts: seq<int>, vs: seq<Verdict>, x: real)
    requires ts != []
    ensures Covers(l, b, ts, vs, 0, x) <==> x <= Refilled(l, b, ts[0])
  {
    hide Earned;
    NowAccount(l, ts, vs, 0);
    assert vs[..0] == [];
  }

  lemma VerdictAt(l: Limit, b: Bucket, ts: seq<int>, k: nat)
    requires l.Valid() && k < |ts|
    ensures Verdicts(l, b, ts)[k] == Take(l, After(l, b, ts[..k]), ts[k]).1
    ensures After(l, b, ts[..k + 1]) == Take(l, After(l, b, ts[..k]), ts[k]).0
  {
    hide Take;
    RunFrom(l, b, ts, k + 1, |ts|);
    assert ts[..|ts|] == ts && ts[..k + 1][..k] == ts[..k];
  }

  /** The bucket holds x exactly when the account does. */
  lemma {:induction false} LevelIff(l: Limit, b: Bucket, ts: seq<int>, k: nat, x: real)
    requires l.Valid() && k < |ts|
    ensures x <= Refilled(l, After(l, b, ts[..k]), ts[k]) <==> Covers(l, b, ts, Verdicts(l, b, ts), k, x)
  {
    hide Earned, Covers, Verdicts;
    var vs := Verdicts(l, b, ts);
    if k == 0 {
      CoversFirst(l, b, ts, vs, x);
      assert ts[..0] == [];
    } else {
      var paid := if vs[k - 1] == Allowed then 1.0 else 0.0;
      VerdictAt(l, b, ts, k - 1);
      CoversLater(l, b, ts, vs, k - 1, x);
      LevelIff(l, b, ts, k - 1, x + paid - Earned(l, ts[k] - ts[k - 1]));
    }
  }

  /** Every call of every run: it is allowed if and only if the account holds a token for it; and a denial
      names the least whole number of seconds, at least one, after which it would. */
  lemma AllowedIff(l: Limit, b: Bucket, ts: seq<int>, k: nat)
    requires l.Valid() && k < |ts|
    ensures var vs := Verdicts(l, b, ts);
            && (vs[k] == Allowed <==> Covers(l, b, ts, vs, k, 1.0))
            && (vs[k].Denied? ==>
                  var d := vs[k].delay;
                  && d % SECOND == 0 && d >= SECOND
                  && Covers(l, b, ts, vs, k, 1.0 - Earned(l, d))
                  && (d > SECOND ==> !Covers(l, b, ts, vs, k, 1.0 - Earned(l, d - SECOND))))
  {
    hide Verdicts, After, Refilled, Covers, Delay, Earned;
    var vs := Verdicts(l, b, ts);
    VerdictAt(l, b, ts, k);
    LevelIff(l, b, ts, k, 1.0);
    if vs[k].Denied? {
      var tokens := Refilled(l, After(l, b, ts[..k]), ts[k]);
      var d := Delay(l, tokens);
      DelayIsWhole(l, tokens);
      DelayIsLeast(l, tokens);
      LevelIff(l, b, ts, k, 1.0 - Earned(l, d));
      LevelIff(l, b, ts, k, 1.0 - Earned(l, d - SECOND));
    }
  }

  lemma DelayIsWhole(l: Limit, tokens: real)
    requires l.Valid()
    ensures Delay(l, tokens) % SECOND == 0
  {
    hide Ceil;
  }

  /** A new bucket allows a call if and only if, with it, no window of calls that ends here exceeds the burst and
      the refill over its length: it allows all that the window bound permits. */
  lemma AllowsAllThatFits(l: Limit, start: int, ts: seq<int>, k: nat)
    requires l.Valid() && k < |ts| && Ordered(start, ts, ts[|ts| - 1])
    ensures var vs := Verdicts(l, Full(l, start), ts);
            vs[k] == Allowed
            <==> forall j :: 0 <= j <= k ==>
                   CountAllowed(vs[j..k]) as real + 1.0 <= l.burst as real + Earned(l, ts[k] - ts[j])
  {
    hide Verdicts, CountAllowed, Earned;
    var b := Full(l, start);
    var vs := Verdicts(l, b, ts);
    AllowedIff(l, b, ts, k);
    EarnedMonotone(l, ts[k] - ts[0], ts[k] - start);
    assert vs[0..k] == vs[..k];
    assert forall j :: 0 <= j <= k ==>
             Account(l, ts, vs, j, k) == l.burst as real + Earned(l, ts[k] - ts[j]) - CountAllowed(vs[j..k]) as real;
  }

  // ----- the promise of a denial -----

  lemma CeilIs(x: real)
    ensures Ceil(x) as real - 1.0 < x <= Ceil(x) as real
  {
  }

  lemma EarnedSeconds(l: Limit, k: int)
    ensures Earned(l, k * SECOND) == k as real * l.rate
  {
    assert Seconds(k * SECOND) == k as real;
  }

  /** The delay is the least whole number of seconds, at least one, after which a token is there. */
  lemma DelayIsLeast(l: Limit, tokens: real)
    requires l.Valid() && tokens < 1.0
    ensures Delay(l, tokens) >= SECOND
    ensures tokens + Earned(l, Delay(l, tokens)) >= 1.0
    ensures Delay(l, tokens) > SECOND ==> tokens + Earned(l, Delay(l, tokens) - SECOND) < 1.0
  {
    hide Earned, Ceil;
    var x := (1.0 - tokens) / l.rate;
    CeilIs(x);
    var s := if Ceil(x) < 1 then 1 else Ceil(x);
    DelayOf(l, tokens, x, s);
    assert Delay(l, tokens) == s * SECOND && s * SECOND - SECOND == (s - 1) * SECOND;
  }

  lemma DelayOf(l: Limit, tokens: real, x: real, s: int)
    requires l.Valid() && x == (1.0 - tokens) / l.rate && s >= 1 && x <= s as real && (s > 1 ==> s as real - 1.0 < x)
    ensures tokens + Earned(l, s * SECOND) >= 1.0
    ensures s > 1 ==> tokens + Earned(l, (s - 1) * SECOND) < 1.0
  {
    EarnedSeconds(l, s);
    EarnedSeconds(l, s - 1);
    hide Earned;
    Scaled(x, s as real, l.rate);
    Scaled(x, (s - 1) as real, l.rate);
    var y := x * l.rate;
    assert y == 1.0 - tokens;
    if s > 1 {
      var e := Earned(l, (s - 1) * SECOND);
      assert (s - 1) as real < x;
      assert e == (s - 1) as real * l.rate;
      assert e < y;
    }
  }

  lemma Scaled(x: real, y: real, r: real)
    requires r > 0.0
    ensures x <= y ==> x * r <= y * r
    ensures x > y ==> x * r > y * r
  {
    assert (y - x) * r == y * r - x * r;
    if x <= y { assert (y - x) * r >= 0.0; } else { assert (x - y) * r > 0.0; }
  }

  /** Calls that are all denied only refill. */
  lemma {:induction false} DeniedCallsRefill(l: Limit, b: Bucket, ts: seq<int>, t: int)
    requires l.Valid() && (ts != [] ==> Ordered(ts[0], ts, t))
    requires forall i :: 0 <= i < |ts| ==> Verdicts(l, b, ts)[i].Denied?
    ensures Refilled(l, After(l, b, ts), t) == Refilled(l, b, t)
  {
    if ts == [] {
    } else {
      var n := |ts| - 1;
      assert Verdicts(l, b, ts)[n].Denied?;
      assert forall i :: 0 <= i < n ==> Verdicts(l, b, ts[..n])[i] == Verdicts(l, b, ts)[i];
      DeniedCallsRefill(l, b, ts[..n], t);
      DeniedCallsRefill(l, b, ts[..n], ts[n]);
      RefillTwice(l, After(l, b, ts[..n]), ts[n], t);
    }
  }

  /** After a denial with delay d, whatever was denied in between, a call at least d later succeeds. */
  lemma RetrySucceeds(l: Limit, b: Bucket, now: int, ts: seq<int>, t: int)
    requires l.Valid() && InRange(l, b) && b.lastRefill <= now
    requires Take(l, b, now).1.Denied? && t >= now + Take(l, b, now).1.delay
    requires Ordered(now, ts, t)
    requires forall i :: 0 <= i < |ts| ==> Verdicts(l, Take(l, b, now).0, ts)[i].Denied?
    ensures Take(l, After(l, Take(l, b, now).0, ts), t).1 == Allowed
  {
    var b', d := Take(l, b, now).0, Take(l, b, now).1.delay;
    hide Verdicts, After, Earned, Delay;
    DeniedCallsRefill(l, b', ts, t);
    DelayIsLeast(l, b'.tokens);
    EarnedMonotone(l, d, t - now);
  }
}
