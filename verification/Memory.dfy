/** app/storage/memory.py: the in-memory store, with a time to live and a bounded size. */
module Memory {
  import opened Storage
  import opened Wrappers

  datatype Item = Item(expiresAt: int, record: Record)

  /** One call of put: what the store is about, whatever it still holds. */
  datatype Put = Put(key: Key, time: int, record: Record)

  /** The index of the last put of `k`, or -1. */
  ghost function Last(log: seq<Put>, k: Key): (at: int)
    ensures -1 <= at < |log|
    ensures at >= 0 ==> log[at].key == k
  {
    if log == [] then -1
    else if log[|log| - 1].key == k then |log| - 1
    else Last(log[..|log| - 1], k)
  }

  /** The other keys put since the last put of `k`. */
  ghost function Since(log: seq<Put>, k: Key): set<Key> {
    if log == [] || log[|log| - 1].key == k then {}
    else Since(log[..|log| - 1], k) + {log[|log| - 1].key}
  }

  ghost predicate Expired(log: seq<Put>, ttl: int, k: Key, now: int) {
    Last(log, k) >= 0 && log[Last(log, k)].time + ttl < now
  }

  /** What a reader is promised: the latest record put under `k`, as long as its time to live lasts and
      fewer than maxItems other keys have been put since. */
  ghost function Window(log: seq<Put>, ttl: int, maxItems: nat, k: Key, now: int): Option<Record> {
    if Last(log, k) >= 0 && !Expired(log, ttl, k, now) && |Since(log, k)| < maxItems
    then Some(log[Last(log, k)].record)
    else None
  }

  // The OrderedDict against the history of puts.

  ghost predicate Lists(order: seq<Key>, data: map<Key, Item>) {
    forall k :: k in order <==> k in data
  }

  /** Oldest put first. */
  ghost predicate InPutOrder(order: seq<Key>, log: seq<Put>) {
    forall i, j :: 0 <= i < j < |order| ==> Last(log, order[i]) < Last(log, order[j])
  }

  ghost predicate ItemOf(item: Item, log: seq<Put>, ttl: int, k: Key) {
    Last(log, k) >= 0 && item == Item(log[Last(log, k)].time + ttl, log[Last(log, k)].record)
  }

  ghost predicate HoldsLatest(data: map<Key, Item>, log: seq<Put>, ttl: int) {
    forall k :: k in data ==> ItemOf(data[k], log, ttl, k)
  }

  ghost predicate Timely(log: seq<Put>, clock: int) {
    && (forall i, j :: 0 <= i < j < |log| ==> log[i].time <= log[j].time)
    && (forall i :: 0 <= i < |log| ==> log[i].time <= clock)
  }

  /** A key put later than a held one is itself held, or expired. */
  ghost predicate HoldsTheLater(data: map<Key, Item>, log: seq<Put>, ttl: int, clock: int) {
    forall k, z :: k in data && Last(log, z) > Last(log, k) ==> z in data || Expired(log, ttl, z, clock)
  }

  ghost predicate RightlyGone(log: seq<Put>, ttl: int, maxItems: nat, clock: int, z: Key) {
    Expired(log, ttl, z, clock) || |Since(log, z)| >= maxItems
  }

  /** A key once put and no longer held is expired, or followed by maxItems others. */
  ghost predicate DropsRightly(data: map<Key, Item>, log: seq<Put>, ttl: int, maxItems: nat, clock: int) {
    forall z :: Last(log, z) >= 0 && z !in data ==> RightlyGone(log, ttl, maxItems, clock, z)
  }

  ghost predicate Consistent(
    data: map<Key, Item>, order: seq<Key>, log: seq<Put>, ttl: int, maxItems: nat, clock: int)
  {
    && Lists(order, data)
    && InPutOrder(order, log)
    && HoldsLatest(data, log, ttl)
    && Timely(log, clock)
    && HoldsTheLater(data, log, ttl, clock)
    && DropsRightly(data, log, ttl, maxItems, clock)
  }

  lemma {:induction false} SinceAreTheLaterOnes(log: seq<Put>, k: Key)
    requires Last(log, k) >= 0
    ensures forall z :: z in Since(log, k) <==> Last(log, z) > Last(log, k)
  {
    var n := |log| - 1;
    if log[n].key != k {
      SinceAreTheLaterOnes(log[..n], k);
    }
  }

  lemma PutUnfolds(log: seq<Put>, p: Put)
    ensures forall k :: Last(log + [p], k) == if k == p.key then |log| else Last(log, k)
    ensures forall k :: Since(log + [p], k) == if k == p.key then {} else Since(log, k) + {p.key}
  {
    assert (log + [p])[..|log|] == log;
  }

  lemma Bigger<T>(a: set<T>, b: set<T>)
    requires a <= b
    ensures |a| <= |b|
  {
    assert b == a + (b - a);
  }

  function Without(order: seq<Key>, k: Key): seq<Key> {
    if order == [] then []
    else (if order[0] == k then [] else [order[0]]) + Without(order[1..], k)
  }

  lemma {:induction false} WithoutDrops(order: seq<Key>, k: Key)
    ensures forall x :: x in Without(order, k) <==> x in order && x != k
    ensures |Without(order, k)| <= |order| && (k in order ==> |Without(order, k)| < |order|)
  {
    if order != [] {
      WithoutDrops(order[1..], k);
      assert forall x :: x in order <==> x == order[0] || x in order[1..];
    }
  }

  lemma {:induction false} WithoutInPutOrder(order: seq<Key>, k: Key, log: seq<Put>)
    requires InPutOrder(order, log)
    ensures InPutOrder(Without(order, k), log)
  {
    if order != [] {
      var tail := Without(order[1..], k);
      assert InPutOrder(order[1..], log);
      WithoutInPutOrder(order[1..], k, log);
      WithoutDrops(order[1..], k);
      forall i | 0 <= i < |tail| ensures Last(log, order[0]) < Last(log, tail[i]) {
        assert tail[i] in tail;
        var j :| 0 <= j < |order[1..]| && order[1..][j] == tail[i];
        assert order[j + 1] == tail[i];
      }
    }
  }

  lemma PutInPutOrder(order: seq<Key>, log: seq<Put>, p: Put)
    requires InPutOrder(order, log)
    ensures InPutOrder(Without(order, p.key) + [p.key], log + [p])
  {
    var rest := Without(order, p.key);
    PutUnfolds(log, p);
    WithoutDrops(order, p.key);
    WithoutInPutOrder(order, p.key, log);
    forall i | 0 <= i < |rest| ensures Last(log + [p], rest[i]) == Last(log, rest[i]) < |log| {
      assert rest[i] in rest;
    }
  }

  lemma PutKeepsItem(item: Item, log: seq<Put>, ttl: int, k: Key, p: Put)
    requires k != p.key
    ensures ItemOf(item, log + [p], ttl, k) <==> ItemOf(item, log, ttl, k)
    ensures forall now :: Expired(log + [p], ttl, k, now) <==> Expired(log, ttl, k, now)
    ensures Last(log + [p], k) == Last(log, k) && Since(log + [p], k) == Since(log, k) + {p.key}
  {
    PutUnfolds(log, p);
  }

  lemma PutHoldsLatest(data: map<Key, Item>, log: seq<Put>, ttl: int, p: Put)
    requires HoldsLatest(data, log, ttl)
    ensures HoldsLatest(data[p.key := Item(p.time + ttl, p.record)], log + [p], ttl)
  {
    PutUnfolds(log, p);
    forall k | k in data && k != p.key ensures ItemOf(data[k], log + [p], ttl, k) {
      PutKeepsItem(data[k], log, ttl, k, p);
    }
  }

  lemma PutHoldsTheLater(data: map<Key, Item>, data': map<Key, Item>, log: seq<Put>, ttl: int, clock: int, p: Put)
    requires HoldsTheLater(data, log, ttl, clock) && p.time >= clock && data'.Keys == data.Keys + {p.key}
    ensures HoldsTheLater(data', log + [p], ttl, p.time)
  {
    PutUnfolds(log, p);
    forall k, z | k in data' && Last(log + [p], z) > Last(log + [p], k)
      ensures z in data' || Expired(log + [p], ttl, z, p.time)
    {
      if z != p.key {
        PutKeepsItem(Item(0, p.record), log, ttl, z, p);
        assert k in data && Last(log, z) > Last(log, k);
        assert z in data || Expired(log, ttl, z, clock);
      }
    }
  }

  lemma PutDropsRightly(
    data: map<Key, Item>, data': map<Key, Item>, log: seq<Put>, ttl: int, maxItems: nat, clock: int, p: Put)
    requires DropsRightly(data, log, ttl, maxItems, clock) && p.time >= clock && data'.Keys == data.Keys + {p.key}
    ensures DropsRightly(data', log + [p], ttl, maxItems, p.time)
  {
    forall z | Last(log + [p], z) >= 0 && z !in data' ensures RightlyGone(log + [p], ttl, maxItems, p.time, z) {
      PutKeepsItem(Item(0, p.record), log, ttl, z, p);
      assert RightlyGone(log, ttl, maxItems, clock, z);
      Bigger(Since(log, z), Since(log + [p], z));
    }
  }

  lemma PutKeepsConsistent(
    data: map<Key, Item>, order: seq<Key>, log: seq<Put>, ttl: int, maxItems: nat, clock: int, p: Put)
    requires Consistent(data, order, log, ttl, maxItems, clock) && p.time >= clock
    ensures Consistent(data[p.key := Item(p.time + ttl, p.record)], Without(order, p.key) + [p.key],
                       log + [p], ttl, maxItems, p.time)
    ensures |Without(order, p.key) + [p.key]| <= |order| + 1
  {
    var data' := data[p.key := Item(p.time + ttl, p.record)];
    WithoutDrops(order, p.key);
    PutInPutOrder(order, log, p);
    PutHoldsLatest(data, log, ttl, p);
    PutHoldsTheLater(data, data', log, ttl, clock, p);
    PutDropsRightly(data, data', log, ttl, maxItems, clock, p);
  }

  lemma LaterClock(data: map<Key, Item>, log: seq<Put>, ttl: int, maxItems: nat, clock: int, now: int)
    requires HoldsTheLater(data, log, ttl, clock) && DropsRightly(data, log, ttl, maxItems, clock)
    requires Timely(log, clock) && now >= clock
    ensures HoldsTheLater(data, log, ttl, now) && DropsRightly(data, log, ttl, maxItems, now) && Timely(log, now)
  {
    forall z | Last(log, z) >= 0 && z !in data ensures RightlyGone(log, ttl, maxItems, now, z) {
      assert RightlyGone(log, ttl, maxItems, clock, z);
    }
  }

  /** A key may go once it is rightly gone, if it is expired or no held key is older. */
  lemma RemovalKeepsConsistent(
    data: map<Key, Item>, order: seq<Key>, log: seq<Put>, ttl: int, maxItems: nat, clock: int, k: Key, rest: seq<Key>)
    requires Consistent(data, order, log, ttl, maxItems, clock)
    requires InPutOrder(rest, log) && (forall x :: x in rest <==> x in order && x != k)
    requires RightlyGone(log, ttl, maxItems, clock, k)
    requires Expired(log, ttl, k, clock) || forall x :: x in rest ==> Last(log, k) < Last(log, x)
    ensures Consistent(data - {k}, rest, log, ttl, maxItems, clock)
  {
    var data' := data - {k};
    assert Lists(rest, data');
    forall x, z | x in data' && Last(log, z) > Last(log, x) ensures z in data' || Expired(log, ttl, z, clock) {
      assert x in data && x in rest;
    }
  }

  lemma ExpiredPopKeepsConsistent(
    data: map<Key, Item>, order: seq<Key>, log: seq<Put>, ttl: int, maxItems: nat, clock: int, k: Key)
    requires Consistent(data, order, log, ttl, maxItems, clock) && k in data && data[k].expiresAt < clock
    ensures Consistent(data - {k}, Without(order, k), log, ttl, maxItems, clock)
    ensures |Without(order, k)| <= |order|
  {
    WithoutDrops(order, k);
    WithoutInPutOrder(order, k, log);
    assert ItemOf(data[k], log, ttl, k);
    RemovalKeepsConsistent(data, order, log, ttl, maxItems, clock, k, Without(order, k));
  }

  lemma RestOfOrder(order: seq<Key>, log: seq<Put>)
    requires InPutOrder(order, log) && order != []
    ensures InPutOrder(order[1..], log)
    ensures forall x :: x in order[1..] <==> x in order && x != order[0]
    ensures forall x :: x in order[1..] ==> Last(log, order[0]) < Last(log, x)
  {
    forall x | x in order[1..] ensures Last(log, order[0]) < Last(log, x) {
      var i :| 0 <= i < |order[1..]| && order[1..][i] == x;
      assert order[i + 1] == x;
    }
    assert forall x :: x in order <==> x == order[0] || x in order[1..];
  }

  lemma EvictionKeepsConsistent(
    data: map<Key, Item>, order: seq<Key>, log: seq<Put>, ttl: int, maxItems: nat, clock: int)
    requires Consistent(data, order, log, ttl, maxItems, clock) && |order| > maxItems
    ensures Consistent(data - {order[0]}, order[1..], log, ttl, maxItems, clock)
  {
    RestOfOrder(order, log);
    assert order[0] in order && ItemOf(data[order[0]], log, ttl, order[0]);
    LaterInOrder(order, log);
    RemovalKeepsConsistent(data, order, log, ttl, maxItems, clock, order[0], order[1..]);
  }

  /** The keys behind the front have all been put since the front was. */
  lemma LaterInOrder(order: seq<Key>, log: seq<Put>)
    requires InPutOrder(order, log) && order != [] && Last(log, order[0]) >= 0
    ensures |Since(log, order[0])| >= |order| - 1
  {
    RestOfOrder(order, log);
    SinceAreTheLaterOnes(log, order[0]);
    CountDistinct(order[1..], log);
    Bigger((set x | x in order[1..]), Since(log, order[0]));
  }

  lemma {:induction false} CountDistinct(order: seq<Key>, log: seq<Put>)
    requires InPutOrder(order, log)
    ensures |set x | x in order| == |order|
  {
    if order != [] {
      RestOfOrder(order, log);
      CountDistinct(order[1..], log);
      assert (set x | x in order) == {order[0]} + set x | x in order[1..];
    } else {
      assert (set x | x in order) == {};
    }
  }

  lemma SinceAreHeld(data: map<Key, Item>, log: seq<Put>, ttl: int, clock: int, k: Key, z: Key)
    requires HoldsTheLater(data, log, ttl, clock) && Timely(log, clock) && k in data && ItemOf(data[k], log, ttl, k)
    requires data[k].expiresAt >= clock && z in Since(log, k)
    ensures z in data && z != k
  {
    SinceAreTheLaterOnes(log, k);
    assert log[Last(log, k)].time <= log[Last(log, z)].time;
  }

  /** A held key whose time has not run out is inside the window. */
  lemma HeldAndAliveIsInWindow(
    data: map<Key, Item>, order: seq<Key>, log: seq<Put>, ttl: int, maxItems: nat, clock: int, k: Key)
    requires Consistent(data, order, log, ttl, maxItems, clock) && |order| <= maxItems
    requires k in data && data[k].expiresAt >= clock
    ensures |Since(log, k)| < maxItems
  {
    assert ItemOf(data[k], log, ttl, k);
    var held := set x | x in order;
    forall z | z in Since(log, k) ensures z in held - {k} {
      SinceAreHeld(data, log, ttl, clock, k, z);
    }
    assert k in held;
    CountDistinct(order, log);
    Bigger(Since(log, k), held - {k});
  }

  class MemoryStore {
    const ttl: int
    const maxItems: nat
    var data: map<Key, Item>
    var order: seq<Key>
    ghost var log: seq<Put>
    ghost var clock: int

    ghost predicate Valid()
      reads this
    {
      Consistent(data, order, log, ttl, maxItems, clock) && |order| <= maxItems
    }

    constructor (ttl: int, maxItems: nat, ghost now: int)
      ensures Valid() && log == [] && clock == now && this.ttl == ttl && this.maxItems == maxItems
    {
      this.ttl, this.maxItems := ttl, maxItems;
      data, order := map[], [];
      log, clock := [], now;
    }

    method Get(key: Key, now: int) returns (found: Option<Record>)
      requires Valid() && now >= clock
      modifies this
      ensures Valid() && clock == now && log == old(log)
      ensures found == Window(log, ttl, maxItems, key, now)
    {
      LaterClock(data, log, ttl, maxItems, clock, now);
      clock := now;
      if key !in data {
        assert Last(log, key) >= 0 ==> RightlyGone(log, ttl, maxItems, now, key);
        return None;
      }
      var item := data[key];
      assert ItemOf(item, log, ttl, key);
      if item.expiresAt < now {
        ExpiredPopKeepsConsistent(data, order, log, ttl, maxItems, now, key);
        data, order := data - {key}, Without(order, key);
        return None;
      }
      HeldAndAliveIsInWindow(data, order, log, ttl, maxItems, now, key);
      found := Some(item.record);
    }

    method PutRecord(key: Key, record: Record, now: int)
      requires Valid() && now >= clock
      modifies this
      ensures Valid() && clock == now && log == old(log) + [Put(key, now, record)]
    {
      PutKeepsConsistent(data, order, log, ttl, maxItems, clock, Put(key, now, record));
      data := data[key := Item(now + ttl, record)];
      order := Without(order, key) + [key];
      log, clock := log + [Put(key, now, record)], now;
      while |order| > maxItems
        invariant Consistent(data, order, log, ttl, maxItems, clock)
        invariant log == old(log) + [Put(key, now, record)] && clock == now
      {
        EvictionKeepsConsistent(data, order, log, ttl, maxItems, clock);
        data, order := data - {order[0]}, order[1..];
      }
    }

    /** The clock is read twice: once to look, once to store. */
    method PutIfAbsent(key: Key, record: Record, now: int, later: int) returns (stored: bool)
      requires Valid() && clock <= now <= later
      modifies this
      ensures Valid()
      ensures stored <==> Window(old(log), ttl, maxItems, key, now) == None
      ensures clock == if stored then later else now
      ensures log == if stored then old(log) + [Put(key, later, record)] else old(log)
    {
      var present := Get(key, now);
      if present.Some? {
        return false;
      }
      PutRecord(key, record, later);
      return true;
    }
  }

  /** Eviction takes the front of the order, and nothing held expires sooner than the front. */
  lemma FrontExpiresFirst(
    data: map<Key, Item>, order: seq<Key>, log: seq<Put>, ttl: int, maxItems: nat, clock: int)
    requires Consistent(data, order, log, ttl, maxItems, clock)
    ensures forall i, j :: 0 <= i < j < |order| ==>
      order[i] in data && order[j] in data && data[order[i]].expiresAt <= data[order[j]].expiresAt
  {
    forall i, j | 0 <= i < j < |order|
      ensures order[i] in data && order[j] in data && data[order[i]].expiresAt <= data[order[j]].expiresAt
    {
      assert order[i] in order && order[j] in order;
      assert ItemOf(data[order[i]], log, ttl, order[i]) && ItemOf(data[order[j]], log, ttl, order[j]);
    }
  }
}
