/** Forgetting an idle bucket: exactly when no client can tell, over every run. */
module TtlEviction {
  import opened Bytes
  import opened TB = TokenBucket
  import opened RateLimiter

  /** A request of a client, or a pass of the cleanup loop. */
  datatype Event = Request(key: string, at: int) | Cleanup(at: int)

  ghost predicate OrderedFrom(clock: int, evs: seq<Event>)
    decreases |evs|
  {
    evs == [] || (clock <= evs[0].at && OrderedFrom(evs[0].at, evs[1..]))
  }

  /** The verdicts of the limiter. */
  function Limited(l: Limit, es: seq<Entry>, evs: seq<Event>, ttl: int, maxBuckets: nat): seq<Verdict>
    requires l.Valid()
    decreases |evs|
  {
    if evs == [] then []
    else match evs[0]
         case Cleanup(at) => Limited(l, EvictStale(es, at, ttl), evs[1..], ttl, maxBuckets)
         case Request(key, at) =>
           var (es', v) := Serve(l, es, key, at, ttl, maxBuckets);
           [v] + Limited(l, es', evs[1..], ttl, maxBuckets)
  }

  /** The bucket of a client in the table that never forgets; a new client has a full one. */
  function Lookup(l: Limit, table: map<string, Bucket>, key: string, now: int): Bucket {
    if key in table then table[key] else Full(l, now)
  }

  /** The verdicts of that table. */
  function Unbounded(l: Limit, table: map<string, Bucket>, evs: seq<Event>): seq<Verdict>
    requires l.Valid()
    decreases |evs|
  {
    if evs == [] then []
    else match evs[0]
         case Cleanup(_) => Unbounded(l, table, evs[1..])
         case Request(key, at) =>
           var (b, v) := Take(l, Lookup(l, table, key, at), at);
           [v] + Unbounded(l, table[key := b], evs[1..])
  }

  /** The run never meets a full table. */
  ghost predicate NeverFull(l: Limit, es: seq<Entry>, evs: seq<Event>, ttl: int, maxBuckets: nat)
    requires l.Valid()
    decreases |evs|
  {
    evs == [] ||
    match evs[0]
    case Cleanup(at) => NeverFull(l, EvictStale(es, at, ttl), evs[1..], ttl, maxBuckets)
    case Request(key, at) =>
      var kept := EvictStale(es, at, ttl);
      && (Find(kept, key) < |kept| || |kept| < maxBuckets)
      && NeverFull(l, Serve(l, es, key, at, ttl, maxBuckets).0, evs[1..], ttl, maxBuckets)
  }

  /** An idle bucket that is forgotten would have been full again. */
  predicate RefillsBeforeEviction(l: Limit, ttl: int) {
    Earned(l, ttl + 1) >= l.burst as real
  }

  ghost predicate Listed(es: seq<Entry>, key: string) {
    exists e :: e in es && e.key == key
  }

  /** Both know the same about every client the list still has; every other client has been idle too long. */
  ghost predicate Agree(l: Limit, es: seq<Entry>, table: map<string, Bucket>, clock: int, ttl: int) {
    && Lru(es) && NotAfter(es, clock)
    && (forall e :: e in es ==> e.key in table && table[e.key] == e.bucket && e.bucket.lastRefill == e.lastAccessed)
    && (forall k :: k in table ==> InRange(l, table[k]) && table[k].lastRefill <= clock)
    && (forall k :: k in table ==> Listed(es, k) || clock - table[k].lastRefill > ttl)
  }

  lemma FindListed(es: seq<Entry>, key: string)
    ensures Find(es, key) < |es| <==> Listed(es, key)
  {
    if Find(es, key) < |es| {
      assert es[Find(es, key)] in es;
    }
  }

  lemma EvictionKeepsAgreement(l: Limit, es: seq<Entry>, table: map<string, Bucket>, clock: int, now: int, ttl: int)
    requires Agree(l, es, table, clock, ttl) && clock <= now
    ensures Agree(l, EvictStale(es, now, ttl), table, now, ttl)
  {
    hide EvictStale;
    var kept := EvictStale(es, now, ttl);
    EvictStaleIsExact(es, now, ttl);
    LruPrefix(es, |kept|, clock);
    forall k | k in table ensures Listed(kept, k) || now - table[k].lastRefill > ttl {
      if Listed(es, k) && now - table[k].lastRefill <= ttl {
        var e :| e in es && e.key == k;
        var i :| 0 <= i < |es| && es[i] == e;
        assert kept[i] == e;
      }
    }
  }

  /** Full again, or new: the two buckets give one verdict and one successor. */
  lemma FullAgain(l: Limit, b: Bucket, now: int, ttl: int)
    requires l.Valid() && InRange(l, b) && RefillsBeforeEviction(l, ttl) && now - b.lastRefill > ttl
    ensures Take(l, b, now) == Take(l, Full(l, now), now)
  {
    hide Earned;
    EarnedMonotone(l, ttl + 1, now - b.lastRefill);
    EarnedMonotone(l, 0, 0);
  }

  /** r is the list after a request: its own entry in front, the others as they were. */
  ghost predicate OnlyFront(kept: seq<Entry>, r: seq<Entry>, key: string, now: int) {
    && r != [] && r[0].key == key && r[0].lastAccessed == now
    && (forall e :: e in kept && e.key != key ==> e in r[1..])
    && (forall e :: e in r[1..] ==> e in kept && e.key != key)
  }

  lemma PromotedEntries(kept: seq<Entry>, i: nat, now: int, b: Bucket)
    requires Lru(kept) && i < |kept|
    ensures OnlyFront(kept, Promoted(kept, i, now)[0 := Entry(kept[i].key, b, now)], kept[i].key, now)
  {
    hide Lru, Moved;
    var key, r := kept[i].key, Promoted(kept, i, now)[0 := Entry(kept[i].key, b, now)];
    forall k | 0 < k < |r| ensures r[k] == kept[Source(i, k)] && r[k].key != key {
      UniqueKey(kept, i, Source(i, k));
    }
    forall e | e in kept && e.key != key ensures e in r[1..] {
      var j :| 0 <= j < |kept| && kept[j] == e;
      var k := if j < i then j + 1 else j;
      assert Source(i, k) == j && r[1..][k - 1] == r[k];
    }
    forall e | e in r[1..] ensures e in kept && e.key != key {
      var k :| 0 <= k < |r| - 1 && r[1..][k] == e;
      assert e == r[k + 1];
    }
  }

  lemma UniqueKey(es: seq<Entry>, i: nat, j: nat)
    requires Lru(es) && i < |es| && j < |es| && i != j
    ensures es[i].key != es[j].key
  {
  }

  /** With room in the list, a request touches its own entry and no other. */
  lemma ServeEntries(l: Limit, es: seq<Entry>, key: string, now: int, ttl: int, maxBuckets: nat)
    requires l.Valid() && Lru(EvictStale(es, now, ttl))
    requires var kept := EvictStale(es, now, ttl); Find(kept, key) < |kept| || |kept| < maxBuckets
    ensures OnlyFront(EvictStale(es, now, ttl), Serve(l, es, key, now, ttl, maxBuckets).0, key, now)
  {
    hide Take, EvictStale, Promoted, Lru;
    var kept, r := EvictStale(es, now, ttl), Serve(l, es, key, now, ttl, maxBuckets).0;
    var i := Find(kept, key);
    if i < |kept| {
      hide OnlyFront;
      PromotedEntries(kept, i, now, r[0].bucket);
      PromotedFront(kept, i, now);
    } else {
      assert r[1..] == kept;
    }
  }

  lemma PromotedFront(kept: seq<Entry>, i: nat, now: int)
    requires i < |kept|
    ensures |Promoted(kept, i, now)| == |kept| && Promoted(kept, i, now)[0] == kept[i].(lastAccessed := now)
  {
  }

  lemma SameVerdict(l: Limit, es: seq<Entry>, table: map<string, Bucket>, key: string, now: int, ttl: int, maxBuckets: nat)
    requires l.Valid() && Agree(l, EvictStale(es, now, ttl), table, now, ttl) && RefillsBeforeEviction(l, ttl)
    ensures var (es', v) := Serve(l, es, key, now, ttl, maxBuckets);
            var (b, u) := Take(l, Lookup(l, table, key, now), now);
            v == u && es'[0] == Entry(key, b, now)
  {
    hide Take, EvictStale, Lru;
    var kept := EvictStale(es, now, ttl);
    FindListed(kept, key);
    if Find(kept, key) == |kept| && key in table {
      FullAgain(l, table[key], now, ttl);
    }
  }

  lemma RequestKeepsAgreement(l: Limit, es: seq<Entry>, table: map<string, Bucket>, key: string, now: int, ttl: int, maxBuckets: nat)
    requires l.Valid() && Agree(l, EvictStale(es, now, ttl), table, now, ttl) && RefillsBeforeEviction(l, ttl)
    requires var kept := EvictStale(es, now, ttl); Find(kept, key) < |kept| || |kept| < maxBuckets
    ensures Agree(l, Serve(l, es, key, now, ttl, maxBuckets).0,
                  table[key := Take(l, Lookup(l, table, key, now), now).0], now, ttl)
  {
    hide Agree, Serve, Take, EvictStale, Lookup, OnlyFront;
    SameVerdict(l, es, table, key, now, ttl, maxBuckets);
    AgreementParts(l, EvictStale(es, now, ttl), table, now, ttl);
    ServeEntries(l, es, key, now, ttl, maxBuckets);
    ServeLru(l, es, key, now, ttl, maxBuckets);
    var from := Lookup(l, table, key, now);
    LookupInRange(l, table, key, now);
    TakeKeepsRange(l, from, now);
    FrontKeepsAgreement(l, EvictStale(es, now, ttl), Serve(l, es, key, now, ttl, maxBuckets).0,
                        table, key, Take(l, from, now).0, now, ttl);
  }

  lemma AgreementParts(l: Limit, es: seq<Entry>, table: map<string, Bucket>, clock: int, ttl: int)
    requires Agree(l, es, table, clock, ttl)
    ensures Lru(es) && NotAfter(es, clock)
    ensures forall k :: k in table ==> InRange(l, table[k]) && table[k].lastRefill <= clock
  {
  }

  lemma FrontKeepsAgreement(l: Limit, kept: seq<Entry>, r: seq<Entry>, table: map<string, Bucket>,
                            key: string, b: Bucket, now: int, ttl: int)
    requires Agree(l, kept, table, now, ttl) && OnlyFront(kept, r, key, now) && Lru(r) && NotAfter(r, now)
    requires r[0].bucket == b && b.lastRefill == now && InRange(l, b)
    ensures Agree(l, r, table[key := b], now, ttl)
  {
    hide Lru, NotAfter;
    assert r == [r[0]] + r[1..];
    forall k | k in table && k != key ensures Listed(r, k) || now - table[k].lastRefill > ttl {
      if Listed(kept, k) {
        var e :| e in kept && e.key == k;
        assert e in r[1..];
        assert e in r;
      }
    }
    assert Listed(r, key) by { assert r[0] in r; }
  }

  lemma LookupInRange(l: Limit, table: map<string, Bucket>, key: string, now: int)
    requires forall k :: k in table ==> InRange(l, table[k]) && table[k].lastRefill <= now
    ensures InRange(l, Lookup(l, table, key, now)) && Lookup(l, table, key, now).lastRefill <= now
  {
  }

  lemma ServeLru(l: Limit, es: seq<Entry>, key: string, now: int, ttl: int, maxBuckets: nat)
    requires l.Valid() && Lru(EvictStale(es, now, ttl)) && NotAfter(EvictStale(es, now, ttl), now)
    requires var kept := EvictStale(es, now, ttl); Find(kept, key) < |kept| || |kept| < maxBuckets
    ensures var r := Serve(l, es, key, now, ttl, maxBuckets).0; Lru(r) && NotAfter(r, now)
  {
    hide Take, Lru, NotAfter, Promoted, EvictStale;
    var kept := EvictStale(es, now, ttl);
    var i := Find(kept, key);
    if i < |kept| {
      PromoteKeepsLru(kept, i, now);
    } else {
      InsertKeepsLru(Entry(key, Full(l, now), now), kept);
    }
    var touched := Touch(l, es, key, now, ttl, maxBuckets);
    SameKeys(touched, Serve(l, es, key, now, ttl, maxBuckets).0, now);
  }

  lemma {:induction false} SameVerdicts(l: Limit, es: seq<Entry>, table: map<string, Bucket>, evs: seq<Event>,
                                        clock: int, ttl: int, maxBuckets: nat)
    requires l.Valid() && Agree(l, es, table, clock, ttl) && RefillsBeforeEviction(l, ttl)
    requires OrderedFrom(clock, evs) && NeverFull(l, es, evs, ttl, maxBuckets)
    ensures Limited(l, es, evs, ttl, maxBuckets) == Unbounded(l, table, evs)
    decreases |evs|
  {
    hide Agree, Serve, Take, Lookup, EvictStale, RefillsBeforeEviction;
    if evs == [] {
    } else {
      var at := evs[0].at;
      var kept := EvictStale(es, at, ttl);
      EvictionKeepsAgreement(l, es, table, clock, at, ttl);
      match evs[0]
      case Cleanup(_) =>
        SameVerdicts(l, kept, table, evs[1..], at, ttl, maxBuckets);
      case Request(key, _) =>
        RequestKeepsAgreement(l, es, table, key, at, ttl, maxBuckets);
        SameVerdict(l, es, table, key, at, ttl, maxBuckets);
        var b := Take(l, Lookup(l, table, key, at), at).0;
        SameVerdicts(l, Serve(l, es, key, at, ttl, maxBuckets).0, table[key := b], evs[1..], at, ttl, maxBuckets);
    }
  }

  // ----- when a client can tell -----

  const CLIENT: string := "k"

  function Requests(ts: seq<int>): (evs: seq<Event>)
    ensures |evs| == |ts|
  {
    seq(|ts|, i requires 0 <= i < |ts| => Request(CLIENT, ts[i]))
  }

  /** A whole burst at once, and another as soon as the idle bucket may be forgotten. */
  function TwoBursts(n: nat, again: int): (ts: seq<int>)
    ensures |ts| == 2 * n
  {
    seq(2 * n, i => if i < n then 0 else again)
  }

  lemma {:induction false} SingleClient(l: Limit, table: map<string, Bucket>, ts: seq<int>)
    requires l.Valid() && CLIENT in table
    ensures Unbounded(l, table, Requests(ts)) == Verdicts(l, table[CLIENT], ts)
    decreases |ts|
  {
    hide Take;
    if ts == [] {
    } else {
      var b := table[CLIENT];
      var (b', v) := Take(l, b, ts[0]);
      assert Requests(ts)[1..] == Requests(ts[1..]);
      SingleClient(l, table[CLIENT := b'], ts[1..]);
      RunFrom(l, b, ts, 1, |ts|);
      assert ts[..|ts|] == ts && ts[..1] == [ts[0]] && ts[1..|ts|] == ts[1..];
      assert After(l, b, [ts[0]]) == b' && Verdicts(l, b, [ts[0]]) == [v] by { OneCall(l, b, ts[0]); }
    }
  }

  lemma OneCall(l: Limit, b: Bucket, t: int)
    requires l.Valid()
    ensures After(l, b, [t]) == Take(l, b, t).0 && Verdicts(l, b, [t]) == [Take(l, b, t).1]
  {
    assert [t][..0] == [];
    assert After(l, b, []) == b;
  }

  /** The table denies at least one of the two bursts when less than a whole burst was earned between them. */
  lemma TableDenies(l: Limit, again: int)
    requires l.Valid() && again >= 0 && Earned(l, again) < l.burst as real
    ensures var vs := Unbounded(l, map[], Requests(TwoBursts(l.burst, again)));
            exists i :: 0 <= i < |vs| && vs[i] != Allowed
  {
    hide Take, Earned;
    var ts, b := TwoBursts(l.burst, again), Full(l, 0);
    var evs := Requests(ts);
    assert Unbounded(l, map[], evs) == Unbounded(l, map[CLIENT := b], evs) by {
      var b' := Take(l, b, 0).0;
      assert map[][CLIENT := b'] == map[CLIENT := b][CLIENT := b'];
      assert evs[0] == Request(CLIENT, 0);
    }
    SingleClient(l, map[CLIENT := b], ts);
    var vs := Verdicts(l, b, ts);
    Budget(l, b, ts);
    RunKeepsRange(l, b, ts);
    EarnedMonotone(l, 0, 0);
    assert ts[0] == 0 && ts[|ts| - 1] == again;
    assert CountAllowed(vs) as real < (2 * l.burst) as real;
    if forall i :: 0 <= i < |vs| ==> vs[i] == Allowed {
      AllCounted(vs);
      assert false;
    }
    var i :| 0 <= i < |vs| && vs[i] != Allowed;
    assert Unbounded(l, map[], evs)[i] != Allowed;
  }

  lemma {:induction false} AllCounted(vs: seq<Verdict>)
    requires forall i :: 0 <= i < |vs| ==> vs[i] == Allowed
    ensures CountAllowed(vs) == |vs|
  {
    if vs == [] {
    } else {
      AllCounted(vs[..|vs| - 1]);
    }
  }

  ghost predicate Generous(l: Limit, es: seq<Entry>, ts: seq<int>, ttl: int, maxBuckets: nat)
    requires l.Valid()
  {
    && NeverFull(l, es, Requests(ts), ttl, maxBuckets)
    && forall i :: 0 <= i < |Limited(l, es, Requests(ts), ttl, maxBuckets)| ==>
         Limited(l, es, Requests(ts), ttl, maxBuckets)[i] == Allowed
  }

  /** A list that has nothing of the client, or only a stale entry, serves it from a full bucket. */
  lemma ServesFull(l: Limit, es: seq<Entry>, t: int, ttl: int, maxBuckets: nat)
    requires l.Valid() && maxBuckets > 0 && EvictStale(es, t, ttl) == []
    ensures Serve(l, es, CLIENT, t, ttl, maxBuckets) ==
            ([Entry(CLIENT, Bucket(l.burst as real - 1.0, t), t)], Allowed)
  {
    EarnedMonotone(l, 0, 0);
    hide Earned;
    var front, b := Entry(CLIENT, Full(l, t), t), Bucket(l.burst as real - 1.0, t);
    assert Touch(l, es, CLIENT, t, ttl, maxBuckets) == [front];
    assert Take(l, Full(l, t), t) == (b, Allowed);
    assert [front][0 := front.(bucket := b)] == [front.(bucket := b)];
  }

  lemma ServesOne(l: Limit, tokens: real, t: int, ttl: int, maxBuckets: nat)
    requires l.Valid() && maxBuckets > 0 && ttl >= 0 && 1.0 <= tokens <= l.burst as real
    ensures EvictStale([Entry(CLIENT, Bucket(tokens, t), t)], t, ttl) == [Entry(CLIENT, Bucket(tokens, t), t)]
    ensures Serve(l, [Entry(CLIENT, Bucket(tokens, t), t)], CLIENT, t, ttl, maxBuckets) ==
            ([Entry(CLIENT, Bucket(tokens - 1.0, t), t)], Allowed)
  {
    EarnedMonotone(l, 0, 0);
    hide Earned;
    var es := [Entry(CLIENT, Bucket(tokens, t), t)];
    assert Find(es, CLIENT) == 0 && Touch(l, es, CLIENT, t, ttl, maxBuckets) == es;
    var b := Bucket(tokens - 1.0, t);
    assert Take(l, es[0].bucket, t) == (b, Allowed);
    assert es[0 := es[0].(bucket := b)] == [es[0].(bucket := b)];
  }

  /** k more requests at once are all allowed from k tokens or more. */
  lemma {:induction false} BurstAllowed(l: Limit, k: nat, tokens: real, ts: seq<int>, t: int, ttl: int, maxBuckets: nat)
    requires l.Valid() && maxBuckets > 0 && ttl >= 0 && k as real <= tokens <= l.burst as real
    requires k <= |ts| && forall i :: 0 <= i < k ==> ts[i] == t
    requires Generous(l, [Entry(CLIENT, Bucket(tokens - k as real, t), t)], ts[k..], ttl, maxBuckets)
    ensures Generous(l, [Entry(CLIENT, Bucket(tokens, t), t)], ts, ttl, maxBuckets)
    decreases k
  {
    hide Take, Serve;
    if k == 0 {
      assert ts[0..] == ts;
    } else {
      ServesOne(l, tokens, t, ttl, maxBuckets);
      assert ts[1..][k - 1..] == ts[k..];
      assert (k - 1) as real == k as real - 1.0;
      BurstAllowed(l, k - 1, tokens - 1.0, ts[1..], t, ttl, maxBuckets);
      Prepend(l, [Entry(CLIENT, Bucket(tokens, t), t)], ts, ttl, maxBuckets);
    }
  }

  lemma Prepend(l: Limit, es: seq<Entry>, ts: seq<int>, ttl: int, maxBuckets: nat)
    requires l.Valid() && ts != []
    requires var kept := EvictStale(es, ts[0], ttl); Find(kept, CLIENT) < |kept| || |kept| < maxBuckets
    requires var (es', v) := Serve(l, es, CLIENT, ts[0], ttl, maxBuckets);
             v == Allowed && Generous(l, es', ts[1..], ttl, maxBuckets)
    ensures Generous(l, es, ts, ttl, maxBuckets)
  {
    hide Serve, EvictStale;
    assert Requests(ts)[1..] == Requests(ts[1..]);
    assert Requests(ts)[0] == Request(CLIENT, ts[0]);
    var es' := Serve(l, es, CLIENT, ts[0], ttl, maxBuckets).0;
    assert Limited(l, es, Requests(ts), ttl, maxBuckets) == [Allowed] + Limited(l, es', Requests(ts[1..]), ttl, maxBuckets);
  }

  /** A whole burst from a full bucket. */
  lemma FullBurst(l: Limit, es: seq<Entry>, ts: seq<int>, t: int, ttl: int, maxBuckets: nat)
    requires l.Valid() && maxBuckets > 0 && ttl >= 0 && EvictStale(es, t, ttl) == []
    requires l.burst <= |ts| && forall i :: 0 <= i < l.burst ==> ts[i] == t
    requires Generous(l, [Entry(CLIENT, Bucket(0.0, t), t)], ts[l.burst..], ttl, maxBuckets)
    ensures Generous(l, es, ts, ttl, maxBuckets)
  {
    ServesFull(l, es, t, ttl, maxBuckets);
    hide Serve, Generous;
    var k := l.burst - 1;
    assert k as real == l.burst as real - 1.0;
    assert ts[1..][k..] == ts[l.burst..];
    BurstAllowed(l, k, l.burst as real - 1.0, ts[1..], t, ttl, maxBuckets);
    Prepend(l, es, ts, ttl, maxBuckets);
  }

  /** The limiter allows both bursts: it has forgotten the first. */
  lemma LimiterAllows(l: Limit, ttl: int, maxBuckets: nat)
    requires l.Valid() && maxBuckets > 0 && ttl >= 0
    ensures Generous(l, [], TwoBursts(l.burst, ttl + 1), ttl, maxBuckets)
  {
    hide Serve;
    var ts, n := TwoBursts(l.burst, ttl + 1), l.burst;
    var spent := [Entry(CLIENT, Bucket(0.0, 0), 0)];
    assert EvictStale(spent, ttl + 1, ttl) == EvictStale([], ttl + 1, ttl) by { assert spent[..0] == []; }
    assert ts[n..][n..] == [];
    FullBurst(l, spent, ts[n..], ttl + 1, ttl, maxBuckets);
    FullBurst(l, [], ts, 0, ttl, maxBuckets);
  }

  lemma {:induction false} RequestsOrdered(clock: int, ts: seq<int>, hi: int)
    requires Ordered(clock, ts, hi)
    ensures OrderedFrom(clock, Requests(ts))
    decreases |ts|
  {
    if ts == [] {
    } else {
      assert Requests(ts)[1..] == Requests(ts[1..]);
      RequestsOrdered(ts[0], ts[1..], hi);
    }
  }

  ghost predicate Unobservable(l: Limit, ttl: int, maxBuckets: nat)
    requires l.Valid()
  {
    forall clock, evs :: OrderedFrom(clock, evs) && NeverFull(l, [], evs, ttl, maxBuckets) ==>
      Limited(l, [], evs, ttl, maxBuckets) == Unbounded(l, map[], evs)
  }

  /** Over all runs that never fill the table, forgetting idle buckets changes no verdict and no delay
      exactly when a bucket refills completely before it may be forgotten. */
  lemma TtlUnobservableIff(l: Limit, ttl: int, maxBuckets: nat)
    requires l.Valid() && maxBuckets > 0 && ttl >= 0
    ensures Unobservable(l, ttl, maxBuckets) <==> RefillsBeforeEviction(l, ttl)
  {
    if RefillsBeforeEviction(l, ttl) {
      forall clock, evs | OrderedFrom(clock, evs) && NeverFull(l, [], evs, ttl, maxBuckets)
        ensures Limited(l, [], evs, ttl, maxBuckets) == Unbounded(l, map[], evs)
      {
        SameVerdicts(l, [], map[], evs, clock, ttl, maxBuckets);
      }
    } else {
      var ts := TwoBursts(l.burst, ttl + 1);
      LimiterAllows(l, ttl, maxBuckets);
      TableDenies(l, ttl + 1);
      RequestsOrdered(0, ts, ttl + 1);
      assert OrderedFrom(0, Requests(ts)) && NeverFull(l, [], Requests(ts), ttl, maxBuckets);
    }
  }

  // ----- configured limits -----

  datatype Unit = PerSecond | PerMinute | PerHour

  function ParseUnit(unit: string): Option<Unit> {
    if unit in ["s", "sec", "second", "seconds"] then Some(PerSecond)
    else if unit in ["m", "min", "minute", "minutes"] then Some(PerMinute)
    else if unit in ["h", "hr", "hour", "hours"] then Some(PerHour)
    else None
  }

  function UnitSeconds(unit: Unit): int {
    match unit
    case PerSecond => 1
    case PerMinute => 60
    case PerHour => 3600
  }

  /** count requests per unit: the count is also the burst. A count below 1 or an unknown unit is refused. */
  function ParseRateLimit(count: int, unit: string): (r: Option<Limit>)
    ensures r.Some? ==> r.value.Valid() && r.value.burst == count
  {
    if count <= 0 then None
    else match ParseUnit(unit)
         case None => None
         case Some(u) => Some(Limit(count as real / UnitSeconds(u) as real, count))
  }

  /** A limit is accepted exactly for a positive count of a known unit, and then its count is what a bucket
      earns in one unit: in a second, a minute or an hour. */
  lemma RateIsCount(count: int, unit: string)
    ensures var second, minute, hour :=
              ["s", "sec", "second", "seconds"], ["m", "min", "minute", "minutes"], ["h", "hr", "hour", "hours"];
            var limit := ParseRateLimit(count, unit);
            && (limit.Some? <==> count > 0 && (unit in second || unit in minute || unit in hour))
            && (limit.Some? && unit in second ==> Earned(limit.value, SECOND) == count as real)
            && (limit.Some? && unit in minute ==> Earned(limit.value, 60 * SECOND) == count as real)
            && (limit.Some? && unit in hour ==> Earned(limit.value, 60 * 60 * SECOND) == count as real)
  {
    hide Earned;
    UnitsDiffer(unit);
    if ParseRateLimit(count, unit).Some? {
      var l := ParseRateLimit(count, unit).value;
      var seconds := UnitSeconds(ParseUnit(unit).value);
      EarnedSeconds(l, seconds);
      Quotient(count as real, seconds as real);
    }
  }

  lemma UnitsDiffer(unit: string)
    ensures unit in ["s", "sec", "second", "seconds"] ==> unit[0] == 's'
    ensures unit in ["m", "min", "minute", "minutes"] ==> unit[0] == 'm'
    ensures unit in ["h", "hr", "hour", "hours"] ==> unit[0] == 'h'
  {
  }

  lemma Quotient(c: real, u: real)
    requires u > 0.0
    ensures u * (c / u) == c
  {
  }

  /** With the default time-to-live every per-second and per-minute limit is unobservable, and no per-hour one. */
  lemma DefaultTtl(count: int, unit: string, maxBuckets: nat)
    requires count > 0 && ParseUnit(unit).Some? && maxBuckets > 0
    ensures var l := ParseRateLimit(count, unit).value;
            Unobservable(l, DEFAULT_IDLE_TTL, maxBuckets) <==> ParseUnit(unit) != Some(PerHour)
  {
    var l := ParseRateLimit(count, unit).value;
    TtlUnobservableIff(l, DEFAULT_IDLE_TTL, maxBuckets);
    var u := UnitSeconds(ParseUnit(unit).value) as real;
    var s := Seconds(DEFAULT_IDLE_TTL + 1);
    hide ParseUnit, Unobservable;
    assert 600.0 < s < 601.0;
    Ratio(s, count as real, u);
  }

  lemma Ratio(s: real, c: real, u: real)
    requires c > 0.0 && u > 0.0
    ensures s * (c / u) >= c <==> s >= u
  {
    var q := c / u;
    assert c == q * u && q > 0.0;
    assert s * q - c == (s - u) * q;
  }
}
