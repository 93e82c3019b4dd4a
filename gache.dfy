/**
 The sharded TTL cache (`gache`), run one operation at a time. The object
 holds 512 shard maps, the `uint64` write counter `l`, the default TTL, the
 expiry-hook switch and the queue of keys waiting for the hook (`expChan`).
 The current time is a parameter of every operation that reads the clock,
 and the xxh3 string hash is the constructor parameter `hash`.
 */
module Gache {
  import opened Word
  import opened Entry
  import opened Table
  import opened Trace

  /** The outcome of decoding the stream `Read` is given: `None` when gob fails. */
  datatype Option<T> = None | Some(value: T)

  class Cache<V> {
    /** The string hash the shards are routed by (xxh3 in the source). */
    const hash: string -> bv64
    /** Go's zero value of `V`, returned by misses. */
    const zero: V
    const shards: array<Shard<V>>
    /** Write counter: one up per store, one down per delete, modulo 2^64. */
    var l: u64
    /** Default TTL in nanoseconds, used by `Set` and `Read`. */
    var expire: i64
    var expFuncEnabled: bool
    /** Keys queued for the expiry hook, oldest first. */
    var expChan: seq<string>

    ghost predicate Valid()
      reads this, shards
    {
      shards.Length == SLen && Routed(hash, shards[..])
    }

    /** The key-to-entry map the cache holds. */
    ghost function Contents(): map<string, Value<V>>
      reads this, shards
    {
      Entries(shards[..])
    }

    /** `New` with no options: empty shards, a 30-second default TTL, hooks off. */
    constructor New(hash: string -> bv64, zero: V)
      ensures Valid() && fresh(shards)
      ensures this.hash == hash && this.zero == zero
      ensures forall i :: 0 <= i < SLen ==> shards[i] == map[]
      ensures Contents() == map[]
      ensures l == 0 && expire == DefaultExpire && !expFuncEnabled && expChan == []
    {
      this.hash := hash;
      this.zero := zero;
      shards := new Shard<V>[SLen](_ => map[]);
      l := 0;
      expire := DefaultExpire;
      expFuncEnabled := false;
      expChan := [];
      new;
      EntriesEmpty(shards[..]);
    }

    /** `SetDefaultExpire`: the TTL later `Set` and `Read` calls use. */
    method SetDefaultExpire(ex: i64)
      requires Valid()
      modifies this
      ensures Valid() && Contents() == old(Contents())
      ensures expire == ex
      ensures l == old(l) && expFuncEnabled == old(expFuncEnabled) && expChan == old(expChan)
    {
      expire := ex;
    }

    /** `EnableExpiredHook`: evictions queue their keys from now on. */
    method EnableExpiredHook()
      requires Valid()
      modifies this
      ensures Valid() && Contents() == old(Contents())
      ensures expFuncEnabled
      ensures l == old(l) && expire == old(expire) && expChan == old(expChan)
    {
      expFuncEnabled := true;
    }

    /** `DisableExpiredHook`: evictions stop queueing their keys. */
    method DisableExpiredHook()
      requires Valid()
      modifies this
      ensures Valid() && Contents() == old(Contents())
      ensures !expFuncEnabled
      ensures l == old(l) && expire == old(expire) && expChan == old(expChan)
    {
      expFuncEnabled := false;
    }

    /** `Len`: the write counter's bits read as a signed `int`; negative past 2^63. */
    function Len(): (n: i64)
      reads this
      ensures l < TWO_63 ==> n == l
      ensures l >= TWO_63 ==> n == l - TWO_64 && n < 0
    {
      AsSigned(l)
    }

    /**
     `set`: a positive TTL is turned into the instant `now + ttl`; the counter
     goes up by one even when the key was already present; only the key's own
     shard changes, and in it only the key.
     */
    method SetEntry(key: string, val: V, ttl: i64, now: i64)
      requires Valid()
      modifies this, shards
      ensures Valid()
      ensures shards[..] == old(shards[..])[ShardOf(hash, key) :=
        old(shards[ShardOf(hash, key)])[key := Value(ExpireAt(now, ttl), val)]]
      ensures Contents() == old(Contents())[key := Value(ExpireAt(now, ttl), val)]
      ensures l == AddU64(old(l), 1)
      ensures expire == old(expire) && expFuncEnabled == old(expFuncEnabled) && expChan == old(expChan)
    {
      var exp := ttl;
      if exp > 0 {
        exp := WrapI64(now + exp);
      }
      l := AddU64(l, 1);
      var i := ShardOf(hash, key);
      EntriesPut(hash, shards[..], key, Value(exp, val));
      shards[i] := shards[i][key := Value(exp, val)];
    }

    /** `SetWithExpire`: store with an explicit TTL. */
    method SetWithExpire(key: string, val: V, ttl: i64, now: i64)
      requires Valid()
      modifies this, shards
      ensures Valid()
      ensures Contents() == old(Contents())[key := Value(ExpireAt(now, ttl), val)]
      ensures l == AddU64(old(l), 1)
      ensures expire == old(expire) && expFuncEnabled == old(expFuncEnabled) && expChan == old(expChan)
    {
      SetEntry(key, val, ttl, now);
    }

    /** `Set`: store with the default TTL. */
    method Set(key: string, val: V, now: i64)
      requires Valid()
      modifies this, shards
      ensures Valid()
      ensures Contents() == old(Contents())[key := Value(ExpireAt(now, old(expire)), val)]
      ensures l == AddU64(old(l), 1)
      ensures expire == old(expire) && expFuncEnabled == old(expFuncEnabled) && expChan == old(expChan)
    {
      SetEntry(key, val, expire, now);
    }

    /**
     `Delete`: removes the key from its shard and reports whether it was
     there; the counter goes down by one (modulo 2^64) either way.
     */
    method Delete(key: string) returns (loaded: bool)
      requires Valid()
      modifies this, shards
      ensures Valid()
      ensures loaded <==> key in old(Contents())
      ensures shards[..] == old(shards[..])[ShardOf(hash, key) := old(shards[ShardOf(hash, key)]) - {key}]
      ensures Contents() == old(Contents()) - {key}
      ensures l == AddU64(old(l), MAX_U64)
      ensures expire == old(expire) && expFuncEnabled == old(expFuncEnabled) && expChan == old(expChan)
    {
      l := AddU64(l, MAX_U64);
      var i := ShardOf(hash, key);
      EntriesRemove(hash, shards[..], key);
      loaded := key in shards[i];
      shards[i] := shards[i] - {key};
    }

    /** `expiration`: delete the key, then queue it for the hook if hooks are on. */
    method Expiration(key: string)
      requires Valid()
      modifies this, shards
      ensures Valid()
      ensures shards[..] == old(shards[..])[ShardOf(hash, key) := old(shards[ShardOf(hash, key)]) - {key}]
      ensures Contents() == old(Contents()) - {key}
      ensures l == AddU64(old(l), MAX_U64)
      ensures expChan == old(expChan) + (if expFuncEnabled then [key] else [])
      ensures expire == old(expire) && expFuncEnabled == old(expFuncEnabled)
    {
      var _ := Delete(key);
      if expFuncEnabled {
        expChan := expChan + [key];
      }
    }

    /**
     `get`: a miss returns the zero value, expiry 0 and false; a valid entry
     returns its value and expiry; an expired entry returns the zero value
     with the stored expiry and false, and is evicted through `Expiration`.
     Only the last case changes anything.
     */
    method GetEntry(key: string, now: i64) returns (val: V, exp: i64, ok: bool)
      requires Valid()
      modifies this, shards
      ensures Valid()
      ensures ok <==> key in old(Contents()) && IsValid(old(Contents())[key], now)
      ensures key !in old(Contents()) ==>
        val == zero && exp == 0 && unchanged(this) && unchanged(shards)
      ensures key in old(Contents()) && IsValid(old(Contents())[key], now) ==>
        val == old(Contents())[key].val && exp == old(Contents())[key].expire
        && unchanged(this) && unchanged(shards)
      ensures key in old(Contents()) && !IsValid(old(Contents())[key], now) ==>
        val == zero && exp == old(Contents())[key].expire
        && Contents() == old(Contents()) - {key}
        && l == AddU64(old(l), MAX_U64)
        && expChan == old(expChan) + (if expFuncEnabled then [key] else [])
      ensures expire == old(expire) && expFuncEnabled == old(expFuncEnabled)
    {
      val := zero;
      var i := ShardOf(hash, key);
      EntriesLookup(hash, shards[..], key);
      if key !in shards[i] {
        return val, 0, false;
      }
      var v := shards[i][key];
      if IsValid(v, now) {
        val := v.val;
        return val, v.expire, true;
      }
      Expiration(key);
      return val, v.expire, false;
    }

    /** `Get`: `get` without the expiry. */
    method Get(key: string, now: i64) returns (val: V, ok: bool)
      requires Valid()
      modifies this, shards
      ensures Valid()
      ensures ok <==> key in old(Contents()) && IsValid(old(Contents())[key], now)
      ensures ok ==> val == old(Contents())[key].val && unchanged(this) && unchanged(shards)
      ensures !ok ==> val == zero
      ensures key in old(Contents()) && !ok ==>
        Contents() == old(Contents()) - {key}
        && l == AddU64(old(l), MAX_U64)
        && expChan == old(expChan) + (if expFuncEnabled then [key] else [])
      ensures key !in old(Contents()) ==> unchanged(this) && unchanged(shards)
      ensures expire == old(expire) && expFuncEnabled == old(expFuncEnabled)
    {
      var exp;
      val, exp, ok := GetEntry(key, now);
    }

    /** `GetWithExpire`: `get` as it is. */
    method GetWithExpire(key: string, now: i64) returns (val: V, exp: i64, ok: bool)
      requires Valid()
      modifies this, shards
      ensures Valid()
      ensures ok <==> key in old(Contents()) && IsValid(old(Contents())[key], now)
      ensures ok ==>
        val == old(Contents())[key].val && exp == old(Contents())[key].expire
        && unchanged(this) && unchanged(shards)
      ensures !ok ==> val == zero
      ensures key !in old(Contents()) ==> exp == 0 && unchanged(this) && unchanged(shards)
      ensures key in old(Contents()) && !ok ==>
        exp == old(Contents())[key].expire
        && Contents() == old(Contents()) - {key}
        && l == AddU64(old(l), MAX_U64)
        && expChan == old(expChan) + (if expFuncEnabled then [key] else [])
      ensures expire == old(expire) && expFuncEnabled == old(expFuncEnabled)
    {
      val, exp, ok := GetEntry(key, now);
    }

    /**
     Where a traversal of shard `i` inside `DeleteExpired` stands once the
     expired keys `done` are evicted: the shard has lost them and no other
     shard changed, the counter went down once per eviction, and with hooks
     on every evicted key was queued once, after what was queued before.
     */
    ghost predicate Swept(i: nat, s0: seq<Shard<V>>, l0: u64, q0: seq<string>, done: set<string>, rows: nat)
      reads this, shards
    {
      Valid() && i < SLen && |s0| == SLen
      && shards[..] == s0[i := s0[i] - done]
      && l == Dec(l0, rows)
      && q0 <= expChan
      && (if expFuncEnabled then multiset(expChan) == multiset(q0) + multiset(done) else expChan == q0)
    }

    /**
     What the callbacks of `DeleteExpired` and `Range` do with the entry of
     key `k` met while traversing shard `i`: an entry found invalid at `now`
     goes through `Expiration`, a valid one is left alone.
     */
    method EvictIfExpired(i: nat, k: string, now: i64, ghost s0: seq<Shard<V>>, ghost l0: u64,
                              ghost q0: seq<string>, ghost keys: set<string>, ghost done: set<string>, ghost rows: nat)
      returns (v: Value<V>, expired: bool)
      requires Swept(i, s0, l0, q0, done, rows) && Progress(s0[i], now, keys, done, rows) && k in keys
      modifies this, shards
      ensures v == s0[i][k] && (expired <==> !IsValid(v, now))
      ensures expired ==> Swept(i, s0, l0, q0, done + {k}, rows + 1)
      ensures !expired ==> Swept(i, s0, l0, q0, done, rows)
      ensures expire == old(expire) && expFuncEnabled == old(expFuncEnabled)
    {
      ProgressStep(s0[i], now, keys, done, rows, k);
      assert shards[i] == s0[i] - done;
      v := shards[i][k];
      expired := !IsValid(v, now);
      if expired {
        assert ShardOf(hash, k) == i;
        UpdateTwice(s0, i, s0[i] - done, s0[i] - (done + {k}));
        Expiration(k);
      }
    }

    /**
     The traversal of one shard inside `DeleteExpired`: every entry found
     invalid at `now` is evicted and counted, valid entries stay. A cancelled
     context ends the traversal at its first entry.
     */
    method DeleteExpiredShard(i: nat, cancelled: bool, now: i64) returns (rows: nat)
      requires Valid() && i < SLen
      modifies this, shards
      ensures Valid()
      ensures cancelled ==> rows == 0 && unchanged(this) && unchanged(shards)
      ensures !cancelled ==> Swept(i, old(shards[..]), old(l), old(expChan), ExpiredKeys(old(shards[i]), now), rows)
      ensures !cancelled ==> shards[..] == old(shards[..])[i := Sweep(old(shards[i]), now)]
      ensures !cancelled ==> rows == |ExpiredKeys(old(shards[i]), now)|
      ensures expire == old(expire) && expFuncEnabled == old(expFuncEnabled)
    {
      rows := 0;
      if cancelled {
        return;
      }
      ghost var s0 := shards[..];
      ghost var done: set<string> := {};
      var keys := shards[i].Keys;
      assert s0[i] - done == s0[i];
      assert s0[i := s0[i] - done] == s0;
      while keys != {}
        invariant Swept(i, s0, old(l), old(expChan), done, rows)
        invariant Progress(s0[i], now, keys, done, rows)
        invariant expire == old(expire) && expFuncEnabled == old(expFuncEnabled)
        decreases keys
      {
        var k :| k in keys;
        ProgressStep(s0[i], now, keys, done, rows, k);
        var _, expired := EvictIfExpired(i, k, now, s0, old(l), old(expChan), keys, done, rows);
        if expired {
          rows := rows + 1;
          done := done + {k};
        }
        keys := keys - {k};
      }
      ProgressDone(s0[i], now, done, rows);
    }

    /**
     Where `DeleteExpired` stands once shards `0` to `n - 1` of the table `s0`
     it started from have been traversed: those are swept, the others are as
     they were, and `rows` counts the keys evicted so far, by which the
     counter went down and which, with hooks on, were queued once each.
     */
    ghost predicate SweptBelow(n: nat, now: i64, s0: seq<Shard<V>>, l0: u64, q0: seq<string>, rows: nat)
      reads this, shards
    {
      Valid() && n <= SLen && |s0| == SLen && Routed(hash, s0)
      && shards[..] == SweptPrefix(s0, n, now)
      && rows == |ExpiredBelow(hash, Entries(s0), now, n)|
      && l == Dec(l0, rows)
      && q0 <= expChan
      && (if expFuncEnabled then multiset(expChan) == multiset(q0) + multiset(ExpiredBelow(hash, Entries(s0), now, n))
          else expChan == q0)
    }

    /** One shard's traversal inside `DeleteExpired`, taking it from shard `i` to `i + 1`. */
    method DeleteExpiredStep(i: nat, now: i64, ghost s0: seq<Shard<V>>, ghost l0: u64, ghost q0: seq<string>, rows: nat)
      returns (rows': nat)
      requires SweptBelow(i, now, s0, l0, q0, rows) && i < SLen
      modifies this, shards
      ensures SweptBelow(i + 1, now, s0, l0, q0, rows')
      ensures expire == old(expire) && expFuncEnabled == old(expFuncEnabled)
    {
      SweptPrefixStep(s0, i, now);
      var n := DeleteExpiredShard(i, false, now);
      ExpiredBelowStep(hash, s0, now, i);
      DisjointUnion(ExpiredBelow(hash, Entries(s0), now, i), ExpiredKeys(s0[i], now));
      rows' := rows + n;
      DecAdd(l0, rows, n, rows');
    }

    /**
     `DeleteExpired`: the shards are traversed one after the other (the
     source runs them in parallel). Without cancellation, afterwards no entry
     is invalid at `now`, valid entries are untouched, every expired key was
     deleted and, when hooks are on, queued exactly once; the result is how
     many there were, and the counter went down by as many.
     */
    method DeleteExpired(cancelled: bool, now: i64) returns (rows: nat)
      requires Valid()
      modifies this, shards
      ensures Valid()
      ensures cancelled ==> rows == 0 && unchanged(this) && unchanged(shards)
      ensures !cancelled ==> shards[..] == SweptPrefix(old(shards[..]), SLen, now)
      ensures !cancelled ==> Contents() == Sweep(old(Contents()), now)
      ensures !cancelled ==> rows == |ExpiredKeys(old(Contents()), now)|
      ensures l == Dec(old(l), rows)
      ensures old(expChan) <= expChan
      ensures expFuncEnabled && !cancelled ==>
        multiset(expChan) == multiset(old(expChan)) + multiset(ExpiredKeys(old(Contents()), now))
      ensures !expFuncEnabled ==> expChan == old(expChan)
      ensures expire == old(expire) && expFuncEnabled == old(expFuncEnabled)
    {
      rows := 0;
      if cancelled {
        // One sweep per shard, as the source starts one goroutine per
        // shard; each sees the cancelled context and stops before its first entry.
        for i := 0 to SLen
          invariant Valid() && unchanged(this) && unchanged(shards)
        {
          var _ := DeleteExpiredShard(i, cancelled, now);
        }
        return;
      }
      ghost var s0 := shards[..];
      ExpiredBelowZero(hash, Entries(s0), now);
      assert SweptPrefix(s0, 0, now) == s0;
      for i := 0 to SLen
        invariant SweptBelow(i, now, s0, old(l), old(expChan), rows)
        invariant expire == old(expire) && expFuncEnabled == old(expFuncEnabled)
      {
        rows := DeleteExpiredStep(i, now, s0, old(l), old(expChan), rows);
      }
      ExpiredBelowAll(hash, Entries(s0), now);
      EntriesSweepAll(hash, s0, now);
    }

    /**
     The callback `Range` hands to the traversal of shard `i`, at key `k`: a
     valid entry is passed to `f`, whose answer says whether to stop; an
     expired one goes through `Expiration`.
     */
    method RangeVisit(i: nat, k: string, f: (string, V, i64) -> bool, now: i64, ghost s0: seq<Shard<V>>,
                      ghost l0: u64, ghost q0: seq<string>, ghost keys: set<string>, vs: seq<Visit<V>>,
                      ghost done: set<string>, ghost rows: nat)
      returns (vs': seq<Visit<V>>, stopped: bool, ghost done': set<string>, ghost rows': nat)
      requires Swept(i, s0, l0, q0, done, rows) && Progress(s0[i], now, keys, done, rows)
      requires VisitProgress(s0[i], now, f, keys, vs, false) && k in keys
      modifies this, shards
      ensures Swept(i, s0, l0, q0, done', rows') && Progress(s0[i], now, keys - {k}, done', rows')
      ensures VisitProgress(s0[i], now, f, keys - {k}, vs', stopped)
      ensures expire == old(expire) && expFuncEnabled == old(expFuncEnabled)
    {
      ProgressStep(s0[i], now, keys, done, rows, k);
      VisitStep(s0[i], now, f, keys, vs, k);
      var v, expired := EvictIfExpired(i, k, now, s0, l0, q0, keys, done, rows);
      if expired {
        vs', stopped, done', rows' := vs, false, done + {k}, rows + 1;
      } else {
        vs', stopped, done', rows' := vs + [Visit(k, v.val, v.expire)], !f(k, v.val, v.expire), done, rows;
      }
    }

    /**
     The traversal of shard `i` inside `Range`: a valid entry is passed to
     `f`, and a `false` answer ends this shard's traversal; an expired entry
     goes through `Expiration` instead. `vs` are the calls made to `f`, and
     `done` the keys evicted.
     */
    method RangeShard(i: nat, cancelled: bool, f: (string, V, i64) -> bool, now: i64)
      returns (vs: seq<Visit<V>>, ghost done: set<string>)
      requires Valid() && i < SLen
      modifies this, shards
      ensures Valid()
      ensures cancelled ==> vs == [] && done == {} && unchanged(this) && unchanged(shards)
      ensures !cancelled ==> Swept(i, old(shards[..]), old(l), old(expChan), done, |done|)
      ensures !cancelled ==> ShardRanged(old(shards[i]), now, f, vs, done)
      ensures expire == old(expire) && expFuncEnabled == old(expFuncEnabled)
    {
      vs, done := [], {};
      if cancelled {
        return;
      }
      ghost var s0 := shards[..];
      ghost var rows: nat := 0;
      var keys := shards[i].Keys;
      var stopped := false;
      assert s0[i] - done == s0[i];
      assert s0[i := s0[i] - done] == s0;
      while keys != {} && !stopped
        invariant Swept(i, s0, old(l), old(expChan), done, rows)
        invariant Progress(s0[i], now, keys, done, rows)
        invariant VisitProgress(s0[i], now, f, keys, vs, stopped)
        invariant expire == old(expire) && expFuncEnabled == old(expFuncEnabled)
        decreases keys
      {
        var k :| k in keys;
        vs, stopped, done, rows := RangeVisit(i, k, f, now, s0, old(l), old(expChan), keys, vs, done, rows);
        keys := keys - {k};
      }
      ShardRangedDone(s0[i], now, f, keys, vs, stopped, done, rows);
    }

    /**
     Where `Range` stands once shards `0` to `n - 1` of the table `s0` it
     started from have been traversed: the keys `ev` evicted so far are gone,
     the counter went down once for each, with hooks on each was queued once,
     and `vs` are the calls made to the callback.
     */
    ghost predicate RangedUpTo(n: nat, now: i64, f: (string, V, i64) -> bool, s0: seq<Shard<V>>, l0: u64,
                               q0: seq<string>, vs: seq<Visit<V>>, ev: set<string>)
      reads this, shards
    {
      Valid() && n <= SLen && |s0| == SLen && Routed(hash, s0)
      && shards[..] == RemoveAll(s0, ev)
      && l == Dec(l0, |ev|)
      && q0 <= expChan
      && (if expFuncEnabled then multiset(expChan) == multiset(q0) + multiset(ev) else expChan == q0)
      && RangedBelow(hash, s0, now, f, n, vs, ev)
    }

    /** One shard's traversal inside `Range`, taking it from shard `i` to `i + 1`. */
    method RangeStep(i: nat, f: (string, V, i64) -> bool, now: i64, ghost s0: seq<Shard<V>>, ghost l0: u64,
                     ghost q0: seq<string>, vs: seq<Visit<V>>, ghost ev: set<string>)
      returns (vs': seq<Visit<V>>, ghost ev': set<string>)
      requires RangedUpTo(i, now, f, s0, l0, q0, vs, ev) && i < SLen
      modifies this, shards
      ensures RangedUpTo(i + 1, now, f, s0, l0, q0, vs', ev')
      ensures expire == old(expire) && expFuncEnabled == old(expFuncEnabled)
    {
      ghost var d0 := ExpiredKeys(s0[i], now);
      RemoveAllStep(hash, s0, ev, {}, i);
      var ws, d := RangeShard(i, false, f, now);
      RemoveAllStep(hash, s0, ev, d, i);
      RangedBelowStep(hash, s0, now, f, i, vs, ev, ws, d);
      DisjointUnion(ev, d);
      DecAdd(l0, |ev|, |d|, |ev + d|);
      vs', ev' := vs + ws, ev + d;
    }

    /**
     The traversal of all shards inside `Range` when the context is live:
     what the traversal of each shard gave, put together.
     */
    method RangeAll(f: (string, V, i64) -> bool, now: i64) returns (visits: seq<Visit<V>>, ghost evicted: set<string>)
      requires Valid()
      modifies this, shards
      ensures Valid()
      ensures Contents() == old(Contents()) - evicted
      ensures l == Dec(old(l), |evicted|)
      ensures old(expChan) <= expChan
      ensures expFuncEnabled ==> multiset(expChan) == multiset(old(expChan)) + multiset(evicted)
      ensures !expFuncEnabled ==> expChan == old(expChan)
      ensures RangedBelow(hash, old(shards[..]), now, f, SLen, visits, evicted)
      ensures expire == old(expire) && expFuncEnabled == old(expFuncEnabled)
    {
      visits, evicted := [], {};
      ghost var s0 := shards[..];
      RangedBelowZero(hash, s0, now, f);
      RemoveNone(s0);
      for i := 0 to SLen
        invariant RangedUpTo(i, now, f, s0, old(l), old(expChan), visits, evicted)
        invariant expire == old(expire) && expFuncEnabled == old(expFuncEnabled)
      {
        visits, evicted := RangeStep(i, f, now, s0, old(l), old(expChan), visits, evicted);
      }
      EntriesRemoveAll(hash, s0, evicted);
    }

    /**
     `Range`: the shards are traversed one after the other (the source runs
     them in parallel). The callback sees only entries valid at `now`, each
     at most once and as stored; a `false` answer ends the traversal of that
     shard only; expired entries met on the way are evicted as by `get`.
     When the callback never answers `false`, it saw every valid entry and
     afterwards no expired entry is left. The same holds shard by shard: a
     shard in which the callback never answered `false` had all its valid
     entries shown and all its expired entries evicted, whatever happened in
     the other shards. A cancelled context ends every shard's traversal at
     its first entry.
     */
    method Range(cancelled: bool, f: (string, V, i64) -> bool, now: i64)
      returns (visits: seq<Visit<V>>, ghost evicted: set<string>)
      requires Valid()
      modifies this, shards
      ensures Valid()
      ensures cancelled ==> visits == [] && evicted == {} && unchanged(this) && unchanged(shards)
      ensures Contents() == old(Contents()) - evicted
      ensures evicted <= ExpiredKeys(old(Contents()), now)
      ensures l == Dec(old(l), |evicted|)
      ensures old(expChan) <= expChan
      ensures expFuncEnabled ==> multiset(expChan) == multiset(old(expChan)) + multiset(evicted)
      ensures !expFuncEnabled ==> expChan == old(expChan)
      ensures Faithful(old(Contents()), now, visits) && Distinct(visits)
      ensures forall a, b :: 0 <= a < b < |visits| ==> ShardOf(hash, visits[a].key) <= ShardOf(hash, visits[b].key)
      ensures forall j :: 0 <= j < |visits| - 1 && !Accepted(f, visits[j]) ==>
        ShardOf(hash, visits[j].key) < ShardOf(hash, visits[j + 1].key)
      ensures !cancelled && AllAccepted(f, visits) ==>
        VisitedKeys(visits) == ValidKeys(old(Contents()), now) && evicted == ExpiredKeys(old(Contents()), now)
        && Contents() == Sweep(old(Contents()), now)
      ensures !cancelled ==> forall j :: 0 <= j < SLen && ShardAccepted(hash, f, visits, j) ==>
        VisitedIn(hash, visits, j) == ValidIn(hash, old(Contents()), now, j)
        && ExpiredIn(hash, old(Contents()), now, j) <= evicted
      ensures expire == old(expire) && expFuncEnabled == old(expFuncEnabled)
    {
      visits, evicted := [], {};
      if cancelled {
        // One traversal per shard, as the source starts one goroutine per
        // shard; each sees the cancelled context and stops before its first entry.
        for i := 0 to SLen
          invariant Valid() && visits == [] && unchanged(this) && unchanged(shards)
        {
          var ws, _ := RangeShard(i, cancelled, f, now);
          visits := visits + ws;
        }
        return;
      }
      ghost var s0 := shards[..];
      visits, evicted := RangeAll(f, now);
      RangedAll(hash, s0, now, f, visits, evicted);
      SweepPartition(Entries(s0), now);
    }

    /**
     `ToRawMap`: `Range` with a callback that accepts every entry and records
     its value. Without cancellation the result holds exactly the keys valid
     at `now` with their values, and the traversal has evicted every expired
     entry on the way.
     */
    method ToRawMap(cancelled: bool, now: i64) returns (m: map<string, V>)
      requires Valid()
      modifies this, shards
      ensures Valid()
      ensures cancelled ==> m == map[] && unchanged(this) && unchanged(shards)
      ensures !cancelled ==> m == Snapshot(old(Contents()), now)
      ensures !cancelled ==> Contents() == Sweep(old(Contents()), now)
      ensures !cancelled ==> l == Dec(old(l), |ExpiredKeys(old(Contents()), now)|)
      ensures old(expChan) <= expChan
      ensures expFuncEnabled && !cancelled ==>
        multiset(expChan) == multiset(old(expChan)) + multiset(ExpiredKeys(old(Contents()), now))
      ensures !expFuncEnabled ==> expChan == old(expChan)
      ensures expire == old(expire) && expFuncEnabled == old(expFuncEnabled)
    {
      var record := (key: string, val: V, exp: i64) => true;
      var visits, evicted := Range(cancelled, record, now);
      assert AllAccepted(record, visits);
      m := Record(visits);
      if !cancelled {
        CollectSnapshot(old(Contents()), now, visits);
      }
    }

    /**
     Where `Read` stands once the decoded pairs of `m` under the keys
     `loaded` are stored: the cache holds what it held before (`c0`) with
     those pairs on top, stamped with the expiry `exp`; the counter went up
     once per pair; nothing else changed.
     */
    ghost predicate ReadFrom(m: map<string, V>, exp: i64, c0: map<string, Value<V>>, l0: u64, e0: i64, h0: bool,
                             q0: seq<string>, loaded: set<string>)
      reads this, shards
    {
      Valid() && loaded <= m.Keys
      && Contents() == c0 + Stamped(m, loaded, exp)
      && l == Inc(l0, |loaded|)
      && expire == e0 && expFuncEnabled == h0 && expChan == q0
    }

    /** One pass of `Read`'s loop: `Set` of the pair under `k`. */
    method ReadPair(k: string, m: map<string, V>, now: i64, ghost c0: map<string, Value<V>>, ghost l0: u64,
                    ghost e0: i64, ghost h0: bool, ghost q0: seq<string>, ghost loaded: set<string>)
      requires ReadFrom(m, ExpireAt(now, e0), c0, l0, e0, h0, q0, loaded) && k in m && k !in loaded
      modifies this, shards
      ensures ReadFrom(m, ExpireAt(now, e0), c0, l0, e0, h0, q0, loaded + {k})
    {
      StampedStep(c0, m, loaded, ExpireAt(now, e0), k);
      IncStep(l0, |loaded|, |loaded + {k}|);
      Set(k, m[k], now);
    }

    /** The loop of `Read` over a decoded map `m`: `Set` of every pair, in no particular order. */
    method SetAll(m: map<string, V>, now: i64)
      requires Valid()
      modifies this, shards
      ensures ReadFrom(m, ExpireAt(now, old(expire)), old(Contents()), old(l), old(expire),
                       old(expFuncEnabled), old(expChan), m.Keys)
    {
      ghost var c0, l0, e0, h0, q0 := Contents(), l, expire, expFuncEnabled, expChan;
      ghost var loaded: set<string> := {};
      assert c0 + Stamped(m, loaded, ExpireAt(now, e0)) == c0;
      var keys := m.Keys;
      while keys != {}
        invariant ReadFrom(m, ExpireAt(now, e0), c0, l0, e0, h0, q0, loaded)
        invariant keys == m.Keys - loaded
        decreases keys
      {
        var k :| k in keys;
        ReadPair(k, m, now, c0, l0, e0, h0, q0, loaded);
        loaded := loaded + {k};
        keys := keys - {k};
      }
      Exhausted(m.Keys, loaded);
    }

    /**
     `Read`: a stream that does not decode is an error and changes nothing;
     otherwise every decoded pair is stored with `Set`, so under the default
     TTL as of `now`, and the counter goes up once per pair.
     */
    method Read(decoded: Option<map<string, V>>, now: i64) returns (err: bool)
      requires Valid()
      modifies this, shards
      ensures Valid()
      ensures err <==> decoded.None?
      ensures decoded.None? ==> unchanged(this) && unchanged(shards)
      ensures decoded.Some? ==>
        Contents() == old(Contents()) + Stamped(decoded.value, decoded.value.Keys, ExpireAt(now, old(expire)))
        && l == Inc(old(l), |decoded.value|)
      ensures expire == old(expire) && expFuncEnabled == old(expFuncEnabled) && expChan == old(expChan)
    {
      if decoded.None? {
        return true;
      }
      SetAll(decoded.value, now);
      KeysCard(decoded.value);
      return false;
    }

    /** `Clear`: every shard replaced by an empty one; counter and settings kept. */
    method Clear()
      requires Valid()
      modifies shards
      ensures Valid()
      ensures forall i :: 0 <= i < SLen ==> shards[i] == map[]
      ensures Contents() == map[]
    {
      for i := 0 to SLen
        invariant forall j :: 0 <= j < i ==> shards[j] == map[]
      {
        shards[i] := map[];
      }
      EntriesEmpty(shards[..]);
    }
  }
}
