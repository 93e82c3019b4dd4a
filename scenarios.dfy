/**
 Short client runs of the cache, each on a fresh cache and with an arbitrary
 hash function, whose outcomes follow from the contracts of `Gache` alone.
 They pin down the behaviours a user of the cache observes: expiry on read,
 the write counter's treatment of overwrites and deletes, the expiry-hook
 queue, and the dump-and-reload round trip.
 */
module Scenarios {
  import opened Word
  import opened Entry
  import opened Table
  import opened Trace
  import opened Gache

  const Millisecond: i64 := 1_000_000

  /**
   An entry set with a 50 ms TTL is found 10 ms later and not 60 ms later;
   that miss evicts it, so the counter is back to zero.
   */
  method ExpiringEntry(hash: string -> bv64) returns (early: bool, late: bool, n: i64)
    ensures early && !late && n == 0
  {
    var c := new Cache<int>.New(hash, 0);
    var t0: i64 := Second;
    c.SetWithExpire("a", 7, 50 * Millisecond, t0);
    var v, ok := c.Get("a", t0 + 10 * Millisecond);
    early := ok && v == 7;
    var _, ok' := c.Get("a", t0 + 60 * Millisecond);
    late := ok';
    n := c.Len();
  }

  /** Setting the same key twice counts twice: `Len` is 2 for one stored entry. */
  method OverwriteCountsTwice(hash: string -> bv64) returns (v: int, ok: bool, n: i64)
    ensures ok && v == 2 && n == 2
  {
    var c := new Cache<int>.New(hash, 0);
    var t0: i64 := Second;
    c.Set("a", 1, t0);
    c.Set("a", 2, t0);
    v, ok := c.Get("a", t0);
    n := c.Len();
  }

  /** Deleting a key that was never set still decrements: `Len` reads -1. */
  method DeleteAbsentKey(hash: string -> bv64) returns (loaded: bool, n: i64)
    ensures !loaded && n == -1
  {
    var c := new Cache<int>.New(hash, 0);
    loaded := c.Delete("a");
    n := c.Len();
  }

  /**
   With hooks on, the read that finds an entry expired queues its key; the
   sweep that follows finds nothing left to expire and queues nothing more.
   */
  method HookQueuesOnce(hash: string -> bv64) returns (ok: bool, rows: nat, queued: seq<string>)
    ensures !ok && rows == 0 && queued == ["a"]
  {
    var c := new Cache<int>.New(hash, 0);
    c.EnableExpiredHook();
    var t0: i64 := Second;
    c.SetWithExpire("a", 7, 50 * Millisecond, t0);
    var _, ok' := c.Get("a", t0 + 60 * Millisecond);
    ok := ok';
    assert c.Contents() == map[];
    assert ExpiredKeys(c.Contents(), t0 + 60 * Millisecond) == {};
    ghost var q := c.expChan;
    rows := c.DeleteExpired(false, t0 + 60 * Millisecond);
    assert multiset(c.expChan) == multiset(q);
    assert |c.expChan| == |q|;
    queued := c.expChan;
  }

  /** `Clear` empties the shards but keeps the write counter. */
  method ClearKeepsCount(hash: string -> bv64) returns (ok: bool, n: i64)
    ensures !ok && n == 1
  {
    var c := new Cache<int>.New(hash, 0);
    var t0: i64 := Second;
    c.Set("a", 7, t0);
    c.Clear();
    var _, ok' := c.Get("a", t0);
    ok := ok';
    n := c.Len();
  }

  /**
   What `ToRawMap` dumps from one cache, `Read` loads into another: the
   value comes back under the same key.
   */
  method DumpAndReload(hash: string -> bv64) returns (v: int, ok: bool, err: bool)
    ensures !err && ok && v == 7
  {
    var c := new Cache<int>.New(hash, 0);
    var t0: i64 := Second;
    c.Set("a", 7, t0);
    var m := c.ToRawMap(false, t0);
    assert "a" in ValidKeys(c.Contents(), t0);
    var d := new Cache<int>.New(hash, 0);
    err := d.Read(Some(m), t0);
    v, ok := d.Get("a", t0);
  }

  /**
   What `ToRawMap` dumps from any cache, `Read` loads into a new one: exactly
   the keys valid at the dump, each with its value, and with the expiry the
   default TTL gives at the time of loading.
   */
  method DumpAndReloadAll<V>(c: Cache<V>, now: i64) returns (d: Cache<V>)
    requires c.Valid()
    modifies c, c.shards
    ensures fresh(d) && d.Valid()
    ensures d.Contents().Keys == ValidKeys(old(c.Contents()), now)
    ensures forall k :: k in d.Contents() ==>
      d.Contents()[k] == Value(ExpireAt(now, DefaultExpire), old(c.Contents())[k].val)
  {
    var m := c.ToRawMap(false, now);
    d := new Cache<V>.New(c.hash, c.zero);
    var _ := d.Read(Some(m), now);
  }

  /**
   A callback that rejects every entry still sees the one valid entry, once
   and as stored: rejecting ends only the traversal of that entry's shard.
   */
  method RangeRejectingAll(hash: string -> bv64) returns (visits: seq<Visit<int>>)
    ensures visits == [Visit("a", 7, 31 * Second)]
  {
    var c := new Cache<int>.New(hash, 0);
    var t0: i64 := Second;
    c.Set("a", 7, t0);
    ghost var before := c.Contents();
    assert "a" in ValidKeys(before, t0);
    var reject := (key: string, val: int, exp: i64) => false;
    ghost var evicted;
    visits, evicted := c.Range(false, reject, t0);
    assert |visits| > 0;
    assert VisitedKeys(visits) == {"a"};
    DistinctCount(visits);
  }

  /** A hash that routes "a" to shard 0 and every other key to shard 1. */
  function TwoShards(key: string): bv64
  {
    if key == "a" then 0 else 1
  }

  /**
   A callback that rejects "a" ends the traversal of shard 0 only: "b",
   which lives in shard 1, is still shown.
   */
  method RejectionStaysInItsShard() returns (visits: seq<Visit<int>>)
    ensures "b" in VisitedKeys(visits)
  {
    var c := new Cache<int>.New(TwoShards, 0);
    var t0: i64 := Second;
    c.Set("a", 7, t0);
    c.Set("b", 8, t0);
    ghost var before := c.Contents();
    assert ShardOf(TwoShards, "a") == 0 && ShardOf(TwoShards, "b") == 1;
    var notA := (key: string, val: int, exp: i64) => key != "a";
    ghost var evicted;
    visits, evicted := c.Range(false, notA, t0);
    assert ShardAccepted(TwoShards, notA, visits, 1);
    assert "b" in ValidIn(TwoShards, before, t0, 1);
  }

  /**
   With "a" valid and "b" expired, a traversal that evicts only expired keys
   and, in shard 1 where it showed nothing, every expired key there, evicts
   exactly "b".
   */
  lemma OnlyExpiredEvicted(before: map<string, Value<int>>, now: i64, f: (string, int, i64) -> bool,
                           visits: seq<Visit<int>>, evicted: set<string>)
    requires before.Keys == {"a", "b"} && IsValid(before["a"], now) && !IsValid(before["b"], now)
    requires Faithful(before, now, visits) && evicted <= ExpiredKeys(before, now)
    requires forall j :: 0 <= j < SLen && ShardAccepted(TwoShards, f, visits, j) ==>
      ExpiredIn(TwoShards, before, now, j) <= evicted
    ensures evicted == {"b"} && |evicted| == 1
  {
    assert ShardOf(TwoShards, "b") == 1;
    assert ShardAccepted(TwoShards, f, visits, 1);
    assert "b" in ExpiredIn(TwoShards, before, now, 1);
  }

  /**
   A callback that rejects everything still leaves no expired entry behind
   in a shard where it was never called: the expired "b" is evicted, and
   the counter drops from two writes to one.
   */
  method RejectionStillEvicts() returns (n: i64)
    ensures n == 1
  {
    var c := new Cache<int>.New(TwoShards, 0);
    var t0: i64 := Second;
    c.Set("a", 7, t0);
    c.SetWithExpire("b", 8, 50 * Millisecond, t0);
    ghost var before := c.Contents();
    assert ShardOf(TwoShards, "a") == 0 && ShardOf(TwoShards, "b") == 1;
    var reject := (key: string, val: int, exp: i64) => false;
    assert IsValid(before["a"], t0 + 60 * Millisecond) && !IsValid(before["b"], t0 + 60 * Millisecond);
    var visits;
    ghost var evicted;
    visits, evicted := c.Range(false, reject, t0 + 60 * Millisecond);
    OnlyExpiredEvicted(before, t0 + 60 * Millisecond, reject, visits, evicted);
    assert c.l == 1;
    n := c.Len();
  }
}
