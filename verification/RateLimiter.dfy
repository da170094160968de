/** The keyed rate limiter: a map and an LRU list of token buckets with a capacity and an idle time-to-live,
    against the table that never forgets a bucket. */
module RateLimiter {
  import opened Bytes
  import opened TB = TokenBucket

  const DEFAULT_MAX_BUCKETS: nat := 10000
  const DEFAULT_IDLE_TTL: int := 600 * SECOND

  // ----- the limiter on values: entries from the most to the least recently used -----

  datatype Entry = Entry(key: string, bucket: Bucket, lastAccessed: int)

  predicate Stale(e: Entry, now: int, ttl: int) {
    now - e.lastAccessed > ttl
  }

  /** Dropping from the tail while it is stale. */
  function EvictStale(es: seq<Entry>, now: int, ttl: int): (r: seq<Entry>)
    ensures |r| <= |es| && r == es[..|r|]
  {
    if es == [] || !Stale(es[|es| - 1], now, ttl) then es else EvictStale(es[..|es| - 1], now, ttl)
  }

  /** Position of a key, or |es| when there is none. */
  function Find(es: seq<Entry>, key: string): (i: nat)
    ensures i <= |es|
    ensures i < |es| ==> es[i].key == key
    ensures forall j :: 0 <= j < i ==> es[j].key != key
  {
    if es == [] || es[0].key == key then 0 else 1 + Find(es[1..], key)
  }

  /** The list with its i-th element moved to the front. */
  function Moved<T>(nodes: seq<T>, i: nat): (r: seq<T>)
    requires i < |nodes|
    ensures |r| == |nodes|
    ensures forall k :: 0 <= k < |r| ==> r[k] == nodes[Source(i, k)]
  {
    [nodes[i]] + (nodes[..i] + nodes[i + 1..])
  }

  /** Where the k-th element of a list stood before the i-th was moved to the front. */
  function Source(i: nat, k: nat): nat {
    if k == 0 then i else if k <= i then k - 1 else k
  }

  function Promoted(es: seq<Entry>, i: nat, now: int): (r: seq<Entry>)
    requires i < |es|
  {
    Moved(es, i)[0 := es[i].(lastAccessed := now)]
  }

  /** The list after GetBucket: the key's entry is in front, and something had to go if it was new. */
  function Touch(l: Limit, es: seq<Entry>, key: string, now: int, ttl: int, maxBuckets: nat): (r: seq<Entry>)
    ensures r != [] && r[0].key == key
  {
    var kept := EvictStale(es, now, ttl);
    var i := Find(kept, key);
    if i < |kept| then Promoted(kept, i, now)
    else
      var room := if |kept| >= maxBuckets && kept != [] then kept[..|kept| - 1] else kept;
      [Entry(key, Full(l, now), now)] + room
  }

  /** No key twice, and the most recently used first. */
  ghost predicate Lru(es: seq<Entry>) {
    && (forall i, j :: 0 <= i < j < |es| ==> es[i].key != es[j].key)
    && (forall i, j :: 0 <= i < j < |es| ==> es[i].lastAccessed >= es[j].lastAccessed)
  }

  ghost predicate NotAfter(es: seq<Entry>, now: int) {
    forall i :: 0 <= i < |es| ==> es[i].lastAccessed <= now
  }

  /** On an ordered list the tail-only loop removes exactly the stale entries. */
  lemma {:induction false} EvictStaleIsExact(es: seq<Entry>, now: int, ttl: int)
    requires Lru(es)
    ensures var n := |EvictStale(es, now, ttl)|;
            forall i :: 0 <= i < |es| ==> (i < n <==> !Stale(es[i], now, ttl))
  {
    if es == [] || !Stale(es[|es| - 1], now, ttl) {
    } else {
      EvictStaleIsExact(es[..|es| - 1], now, ttl);
    }
  }

  lemma FindIs(es: seq<Entry>, key: string, i: nat)
    requires Lru(es) && i < |es| && es[i].key == key
    ensures Find(es, key) == i
  {
  }

  lemma PromoteKeepsLru(es: seq<Entry>, i: nat, now: int)
    requires Lru(es) && NotAfter(es, now) && i < |es|
    ensures var r := Promoted(es, i, now);
            Lru(r) && NotAfter(r, now) && |r| == |es|
  {
  }

  lemma InsertKeepsLru(e: Entry, es: seq<Entry>)
    requires Lru(es) && NotAfter(es, e.lastAccessed) && forall i :: 0 <= i < |es| ==> es[i].key != e.key
    ensures Lru([e] + es) && NotAfter([e] + es, e.lastAccessed)
  {
  }

  /** Every call keeps the list ordered, without duplicates and within capacity. */
  lemma TouchKeepsLru(l: Limit, es: seq<Entry>, key: string, now: int, ttl: int, maxBuckets: nat)
    requires Lru(es) && NotAfter(es, now) && |es| <= maxBuckets && maxBuckets > 0
    ensures var r := Touch(l, es, key, now, ttl, maxBuckets);
            Lru(r) && NotAfter(r, now) && |r| <= maxBuckets
  {
    hide Lru, NotAfter, Promoted, EvictStale;
    var kept := EvictStale(es, now, ttl);
    LruPrefix(es, |kept|, now);
    var i := Find(kept, key);
    if i < |kept| {
      PromoteKeepsLru(kept, i, now);
    } else {
      var room := if |kept| >= maxBuckets && kept != [] then kept[..|kept| - 1] else kept;
      LruPrefix(kept, |room|, now);
      InsertKeepsLru(Entry(key, Full(l, now), now), room);
    }
  }

  lemma LruPrefix(es: seq<Entry>, n: nat, now: int)
    requires Lru(es) && NotAfter(es, now) && n <= |es|
    ensures Lru(es[..n]) && NotAfter(es[..n], now)
  {
  }

  /** A capacity eviction removes the least recently used entry and no other. */
  lemma CapacityEvictsOldest(l: Limit, es: seq<Entry>, key: string, now: int, ttl: int, maxBuckets: nat)
    requires Lru(es) && maxBuckets > 0
    requires |EvictStale(es, now, ttl)| == maxBuckets && Find(EvictStale(es, now, ttl), key) == maxBuckets
    ensures var kept, r := EvictStale(es, now, ttl), Touch(l, es, key, now, ttl, maxBuckets);
            && r[1..] == kept[..maxBuckets - 1]
            && forall i :: 0 <= i < maxBuckets ==> kept[maxBuckets - 1].lastAccessed <= kept[i].lastAccessed
  {
  }

  // ----- the limiter in place -----

  class BucketNode {
    const key: string
    const bucket: TokenBucket
    var lastAccessed: int

    constructor (key: string, bucket: TokenBucket, now: int)
      ensures this.key == key && this.bucket == bucket && lastAccessed == now
    {
      this.key, this.bucket, lastAccessed := key, bucket, now;
    }

    function View(): Entry
      reads this, bucket
    {
      Entry(key, bucket.View(), lastAccessed)
    }
  }

  class RateLimiter {
    const limit: Limit
    const maxBuckets: nat
    const idleTTL: int
    var buckets: map<string, BucketNode>
    var lruList: seq<BucketNode>

    constructor (limit: Limit, maxBuckets: int, idleTTL: int)
      requires limit.Valid()
      ensures Valid() && View() == [] && this.limit == limit
      ensures this.maxBuckets == if maxBuckets > 0 then maxBuckets else DEFAULT_MAX_BUCKETS
      ensures this.idleTTL == if idleTTL > 0 then idleTTL else DEFAULT_IDLE_TTL
    {
      this.limit, buckets, lruList := limit, map[], [];
      this.maxBuckets := if maxBuckets > 0 then maxBuckets else DEFAULT_MAX_BUCKETS;
      this.idleTTL := if idleTTL > 0 then idleTTL else DEFAULT_IDLE_TTL;
    }

    function View(): (es: seq<Entry>)
      reads this, lruList, set n | n in lruList :: n.bucket
      ensures |es| == |lruList|
      ensures forall i :: 0 <= i < |es| ==> es[i] == lruList[i].View()
    {
      ViewOf(lruList)
    }

    ghost predicate Valid()
      reads this, lruList, set n | n in lruList :: n.bucket
    {
      && limit.Valid() && maxBuckets > 0 && |lruList| <= maxBuckets
      && Linked(limit, buckets, lruList)
      && Lru(View())
    }

    method Len() returns (n: nat)
      requires Valid()
      ensures n == |View()| <= maxBuckets
    {
      n := |lruList|;
    }

    /** Removes the last node and its key. */
    method RemoveBack()
      requires Valid() && lruList != []
      modifies this
      ensures Valid() && lruList == old(lruList)[..|old(lruList)| - 1]
      ensures View() == old(View())[..|old(View())| - 1]
    {
      hide Linked, ViewOf;
      var oldest := lruList[|lruList| - 1];
      LinkedPrefix(limit, buckets, lruList);
      buckets := buckets - {oldest.key};
      lruList := lruList[..|lruList| - 1];
      assert View() == old(View())[..|lruList|];
    }

    /** Purges stale buckets from the tail; also what the cleanup loop does once a minute. */
    method CleanupStale(now: int)
      requires Valid()
      modifies this
      ensures Valid() && View() == EvictStale(old(View()), now, idleTTL)
      ensures lruList == old(lruList)[..|View()|]
    {
      hide Lru, Linked, ViewOf;
      while |lruList| > 0
        invariant Valid() && |lruList| <= |old(lruList)| && lruList == old(lruList)[..|lruList|]
        invariant View() == old(View())[..|lruList|]
        invariant EvictStale(View(), now, idleTTL) == EvictStale(old(View()), now, idleTTL)
        decreases |lruList|
      {
        var node := lruList[|lruList| - 1];
        if now - node.lastAccessed > idleTTL {
          RemoveBack();
        } else {
          break;
        }
      }
    }

    /** Moves a node to the front and stamps it. */
    method Promote(node: BucketNode, now: int)
      requires Valid() && node in lruList && NotAfter(View(), now)
      modifies this, node
      ensures Valid() && lruList != [] && lruList[0] == node && NotAfter(View(), now)
      ensures var es, i := old(View()), Find(old(View()), node.key);
              i < |es| && View() == Promoted(es, i, now)
      ensures forall n :: n in lruList ==> n in old(lruList)
    {
      hide Lru, Linked, ViewOf, NotAfter, Moved;
      ghost var es := View();
      var i :| 0 <= i < |lruList| && lruList[i] == node;
      FindIs(es, node.key, i);
      PromoteKeepsLru(es, i, now);
      LinkedMoved(limit, buckets, lruList, i);
      ViewOfMoved(lruList, i);
      lruList := Moved(lruList, i);
      ghost var moved := lruList;
      forall k | 0 < k < |moved| ensures moved[k] != node && moved[k].bucket != node.bucket {
        Distinct(limit, buckets, moved, 0, k);
      }
      node.lastAccessed := now;
      assert View() == Promoted(es, i, now);
    }

    /** A full bucket for a new key, in front. */
    method PushFront(key: string, now: int)
      requires Valid() && key !in buckets && |lruList| < maxBuckets && NotAfter(View(), now)
      modifies this
      ensures Valid() && |lruList| == |old(lruList)| + 1 && fresh(lruList[0]) && fresh(lruList[0].bucket)
      ensures lruList[1..] == old(lruList)
      ensures View() == [Entry(key, Full(limit, now), now)] + old(View()) && NotAfter(View(), now)
    {
      hide Lru, Linked, ViewOf, NotAfter;
      ghost var es := View();
      KeyInMap(key);
      var bucket := new TokenBucket(limit, now);
      var node := new BucketNode(key, bucket, now);
      InsertKeepsLru(Entry(key, Full(limit, now), now), es);
      LinkedPushed(limit, buckets, lruList, node);
      lruList := [node] + lruList;
      buckets := buckets[key := node];
      assert View() == [Entry(key, Full(limit, now), now)] + es;
    }

    /** The map and the list agree about every key. */
    lemma KeyInMap(key: string)
      requires Valid()
      ensures key in buckets <==> Find(View(), key) < |View()|
      ensures key in buckets ==> buckets[key] in lruList && buckets[key].key == key
    {
      hide Lru, ViewOf;
      if key in buckets {
        var i :| 0 <= i < |lruList| && lruList[i] == buckets[key];
        FindIs(View(), key, i);
      }
    }

    /** The bucket of a client: found, or made after the least recently used one had to go. */
    method GetBucket(clientKey: string, now: int) returns (bucket: TokenBucket)
      requires Valid() && NotAfter(View(), now)
      modifies this, lruList
      ensures Valid() && NotAfter(View(), now)
      ensures View() == Touch(limit, old(View()), clientKey, now, idleTTL, maxBuckets)
      ensures |lruList| > 0 && bucket == lruList[0].bucket && bucket.limit == limit
      ensures forall n :: n in lruList ==> n in old(lruList) || (fresh(n) && fresh(n.bucket))
    {
      hide Lru, Linked, ViewOf, EvictStale, Promoted, NotAfter;
      LruPrefix(View(), |EvictStale(View(), now, idleTTL)|, now);
      CleanupStale(now);
      LruPrefix(View(), if |View()| > 0 then |View()| - 1 else 0, now);
      KeyInMap(clientKey);
      if clientKey in buckets {
        var node := buckets[clientKey];
        Promote(node, now);
        LimitOf(limit, buckets, lruList);
        return node.bucket;
      }
      if |lruList| >= maxBuckets {
        KeyGone(clientKey);
        RemoveBack();
      }
      KeyInMap(clientKey);
      PushFront(clientKey, now);
      LimitOf(limit, buckets, lruList);
      return lruList[0].bucket;
    }

    /** A key the list does not have is not in a shorter list either. */
    lemma KeyGone(key: string)
      requires Valid() && key !in buckets && lruList != []
      ensures forall i :: 0 <= i < |View()| ==> View()[i].key != key
    {
      KeyInMap(key);
    }

    /** One request: its bucket, then the verdict of that bucket. */
    method Handle(clientKey: string, now: int) returns (v: Verdict)
      requires Valid() && NotAfter(View(), now)
      modifies this, lruList, set n | n in lruList :: n.bucket
      ensures Valid() && NotAfter(View(), now)
      ensures (View(), v) == Serve(limit, old(View()), clientKey, now, idleTTL, maxBuckets)
    {
      hide Lru, Linked, ViewOf, Touch, Take;
      var bucket := GetBucket(clientKey, now);
      ghost var es, nodes := View(), lruList;
      v := bucket.Allow(now);
      forall k | 0 < k < |nodes| ensures View()[k] == es[k] {
        Distinct(limit, buckets, nodes, 0, k);
      }
      assert View() == es[0 := es[0].(bucket := bucket.View())];
      SameKeys(es, View(), now);
    }
  }

  function Serve(l: Limit, es: seq<Entry>, key: string, now: int, ttl: int, maxBuckets: nat): (r: (seq<Entry>, Verdict))
    requires l.Valid()
  {
    var touched := Touch(l, es, key, now, ttl, maxBuckets);
    var (b, v) := Take(l, touched[0].bucket, now);
    (touched[0 := touched[0].(bucket := b)], v)
  }

  /** The map's keys are the list's keys, each on the node that carries it; no node or bucket is shared. */
  ghost predicate Linked(limit: Limit, buckets: map<string, BucketNode>, nodes: seq<BucketNode>) {
    && (forall i, j :: 0 <= i < j < |nodes| ==> nodes[i] != nodes[j] && nodes[i].bucket != nodes[j].bucket)
    && (forall i :: 0 <= i < |nodes| ==> nodes[i].key in buckets && buckets[nodes[i].key] == nodes[i])
    && (forall k :: k in buckets ==> buckets[k] in nodes && buckets[k].key == k)
    && (forall i :: 0 <= i < |nodes| ==> nodes[i].bucket.limit == limit)
  }

  lemma LinkedPrefix(limit: Limit, buckets: map<string, BucketNode>, nodes: seq<BucketNode>)
    requires nodes != [] && Linked(limit, buckets, nodes)
    ensures Linked(limit, buckets - {nodes[|nodes| - 1].key}, nodes[..|nodes| - 1])
  {
  }

  lemma LinkedMoved(limit: Limit, buckets: map<string, BucketNode>, nodes: seq<BucketNode>, i: nat)
    requires i < |nodes| && Linked(limit, buckets, nodes)
    ensures Linked(limit, buckets, Moved(nodes, i))
  {
    hide Moved;
    var moved := Moved(nodes, i);
    forall k | k in buckets ensures buckets[k] in moved {
      var j :| 0 <= j < |nodes| && nodes[j] == buckets[k];
      var k' := if j == i then 0 else if j < i then j + 1 else j;
      assert Source(i, k') == j && moved[k'] == nodes[j];
    }
    forall x, y | 0 <= x < y < |moved| ensures moved[x] != moved[y] && moved[x].bucket != moved[y].bucket {
      Distinct(limit, buckets, nodes, Source(i, x), Source(i, y));
    }
  }

  lemma ViewOfMoved(nodes: seq<BucketNode>, i: nat)
    requires i < |nodes|
    ensures ViewOf(Moved(nodes, i)) == Moved(ViewOf(nodes), i)
  {
    hide ViewOf, Moved;
  }

  lemma Distinct(limit: Limit, buckets: map<string, BucketNode>, nodes: seq<BucketNode>, i: nat, j: nat)
    requires Linked(limit, buckets, nodes) && i < |nodes| && j < |nodes| && i != j
    ensures nodes[i] != nodes[j] && nodes[i].bucket != nodes[j].bucket && nodes[i].bucket.limit == limit
  {
  }

  lemma LimitOf(limit: Limit, buckets: map<string, BucketNode>, nodes: seq<BucketNode>)
    requires Linked(limit, buckets, nodes) && nodes != []
    ensures nodes[0].bucket.limit == limit
  {
  }

  lemma SameKeys(a: seq<Entry>, b: seq<Entry>, now: int)
    requires |a| == |b| && forall i :: 0 <= i < |a| ==> a[i].key == b[i].key && a[i].lastAccessed == b[i].lastAccessed
    requires Lru(a) && NotAfter(a, now)
    ensures Lru(b) && NotAfter(b, now)
  {
  }

  lemma LinkedPushed(limit: Limit, buckets: map<string, BucketNode>, nodes: seq<BucketNode>, node: BucketNode)
    requires Linked(limit, buckets, nodes) && node.key !in buckets && node.bucket.limit == limit
    requires node !in nodes && forall i :: 0 <= i < |nodes| ==> nodes[i].bucket != node.bucket
    ensures Linked(limit, buckets[node.key := node], [node] + nodes)
  {
  }

  function ViewOf(nodes: seq<BucketNode>): (es: seq<Entry>)
    reads nodes, set n | n in nodes :: n.bucket
    ensures |es| == |nodes|
    ensures forall i :: 0 <= i < |es| ==> es[i] == nodes[i].View()
  {
    if nodes == [] then [] else [nodes[0].View()] + ViewOf(nodes[1..])
  }
}
