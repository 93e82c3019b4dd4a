/**
 The shard table: 512 maps from key to entry, a key's shard chosen by the
 low nine bits of its hash. This module states, on plain sequences of maps,
 what the cache's methods do to the table: the routing invariant, the single
 key-to-entry view the shards together present, and the sweep of expired
 entries.
 */
module Table {
  import opened Word
  import opened Entry

  /** Number of shards (`slen`). */
  const SLen: nat := 512

  /** `slen - 1`, the routing mask. */
  const Mask: bv64 := 0x1FF

  /** Capacity the source gives the expiry-hook channel: ten per shard. */
  const ExpChanCap: nat := SLen * 10

  type Shard<V> = map<string, Value<V>>

  /** `hash & mask`: the low nine bits of the hash, always a shard index. */
  function ShardIndex(h: bv64): (i: nat)
    ensures i < SLen
  {
    ((h & Mask) as bv9) as int
  }

  /** The shard that owns `key` under the hash function `hash`. */
  function ShardOf(hash: string -> bv64, key: string): (i: nat)
    ensures i < SLen
  {
    ShardIndex(hash(key))
  }

  /** Every key sits in the shard its hash routes it to. */
  ghost predicate Routed<V>(hash: string -> bv64, s: seq<Shard<V>>)
  {
    forall i, k {:trigger k in s[i]} :: 0 <= i < |s| && k in s[i] ==> ShardOf(hash, k) == i
  }

  /** The key-to-entry map the shards present together. */
  ghost function Entries<V>(s: seq<Shard<V>>): map<string, Value<V>>
  {
    if s == [] then map[] else Entries(s[..|s| - 1]) + s[|s| - 1]
  }

  /** Keys whose entries are valid at `now`. */
  function ValidKeys<V>(m: Shard<V>, now: i64): set<string>
  {
    set k | k in m && IsValid(m[k], now)
  }

  /** Keys whose entries have expired at `now`. */
  function ExpiredKeys<V>(m: Shard<V>, now: i64): set<string>
  {
    set k | k in m && !IsValid(m[k], now)
  }

  /** What remains of `m` once every entry invalid at `now` is removed. */
  function Sweep<V>(m: Shard<V>, now: i64): (r: Shard<V>)
    ensures r.Keys == ValidKeys(m, now)
    ensures forall k :: k in r ==> r[k] == m[k]
  {
    map k | k in m && IsValid(m[k], now) :: m[k]
  }

  /** The valid values of `m`, without their expiry (what `ToRawMap` builds). */
  function Snapshot<V>(m: Shard<V>, now: i64): (r: map<string, V>)
    ensures r.Keys == ValidKeys(m, now)
    ensures forall k :: k in r ==> r[k] == m[k].val
  {
    map k | k in m && IsValid(m[k], now) :: m[k].val
  }

  /** The table `s` with its shards below `n` swept and the others as they are. */
  function SweptPrefix<V>(s: seq<Shard<V>>, n: nat, now: i64): (r: seq<Shard<V>>)
    ensures |r| == |s|
    ensures forall j :: 0 <= j < |s| ==> r[j] == if j < n then Sweep(s[j], now) else s[j]
  {
    seq(|s|, j requires 0 <= j < |s| => if j < n then Sweep(s[j], now) else s[j])
  }

  /** Sweeping shard `n` of a table swept below `n` gives the table swept below `n + 1`. */
  lemma SweptPrefixStep<V>(s: seq<Shard<V>>, n: nat, now: i64)
    requires n < |s|
    ensures SweptPrefix(s, n, now)[n] == s[n]
    ensures SweptPrefix(s, n, now)[n := Sweep(s[n], now)] == SweptPrefix(s, n + 1, now)
  {
  }

  /** Replacing an element twice keeps the second replacement. */
  lemma UpdateTwice<T>(s: seq<T>, i: nat, a: T, b: T)
    requires i < |s|
    ensures s[i := a][i := b] == s[i := b]
  {
  }

  /**
   Sweeping partitions a map: the valid and the expired keys are disjoint,
   together they are all keys, and their counts add up to the map's size.
   */
  lemma {:induction false} SweepPartition<V>(m: Shard<V>, now: i64)
    ensures ValidKeys(m, now) !! ExpiredKeys(m, now)
    ensures ValidKeys(m, now) + ExpiredKeys(m, now) == m.Keys
    ensures |ValidKeys(m, now)| + |ExpiredKeys(m, now)| == |m|
    ensures Sweep(m, now) == m - ExpiredKeys(m, now)
  {
    var v, e := ValidKeys(m, now), ExpiredKeys(m, now);
    assert v + e == m.Keys;
    assert |v + e| == |v| + |e|;
  }

  /** Removing a set of keys and then one more key is removing their union. */
  lemma MinusStep<K, T>(m: map<K, T>, done: set<K>, k: K)
    ensures (m - done) - {k} == m - (done + {k})
  {
  }

  /**
   Taking one more key `k` out of the unvisited keys of a traversal of `m`
   adds `k` to the expired keys already visited exactly when it is expired.
   */
  lemma ExpiredStep<V>(m: Shard<V>, now: i64, keys: set<string>, k: string)
    requires keys <= m.Keys && k in keys
    ensures ExpiredKeys(m, now) - (keys - {k}) ==
      (ExpiredKeys(m, now) - keys) + (if IsValid(m[k], now) then {} else {k})
    ensures k !in ExpiredKeys(m, now) - keys
  {
  }

  /**
   State of a traversal of `m` that still has `keys` to visit: `done` are the
   expired keys already visited, and `rows` counts them.
   */
  ghost predicate Progress<V>(m: Shard<V>, now: i64, keys: set<string>, done: set<string>, rows: nat)
  {
    keys <= m.Keys && done == ExpiredKeys(m, now) - keys && rows == |done|
  }

  /**
   Visiting one more key `k`: it is still in the swept shard with its
   original entry; a valid one leaves the traversal state as it is, an
   expired one joins `done` (for the first time) and is counted.
   */
  lemma ProgressStep<V>(m: Shard<V>, now: i64, keys: set<string>, done: set<string>, rows: nat, k: string)
    requires Progress(m, now, keys, done, rows) && k in keys
    ensures k in m - done && (m - done)[k] == m[k]
    ensures IsValid(m[k], now) ==> Progress(m, now, keys - {k}, done, rows)
    ensures !IsValid(m[k], now) ==>
      Progress(m, now, keys - {k}, done + {k}, rows + 1)
      && (m - done) - {k} == m - (done + {k})
      && multiset(done + {k}) == multiset(done) + multiset{k}
  {
    ExpiredStep(m, now, keys, k);
    MinusStep(m, done, k);
  }

  /** A finished traversal has removed exactly the expired keys and counted them. */
  lemma ProgressDone<V>(m: Shard<V>, now: i64, done: set<string>, rows: nat)
    requires Progress(m, now, {}, done, rows)
    ensures m - done == Sweep(m, now) && rows == |ExpiredKeys(m, now)|
    ensures done == ExpiredKeys(m, now)
  {
    SweepPartition(m, now);
  }

  /**
   Under routing, a key is in the combined view exactly when it is in the
   shard its hash selects, and it maps to that shard's entry.
   */
  lemma {:induction false} EntriesLookup<V>(hash: string -> bv64, s: seq<Shard<V>>, k: string)
    requires Routed(hash, s)
    ensures k in Entries(s) <==> ShardOf(hash, k) < |s| && k in s[ShardOf(hash, k)]
    ensures k in Entries(s) ==> Entries(s)[k] == s[ShardOf(hash, k)][k]
  {
    if s != [] {
      var p := s[..|s| - 1];
      assert Routed(hash, p) by {
        forall i, x | 0 <= i < |p| && x in p[i] ensures ShardOf(hash, x) == i {
          assert p[i] == s[i];
        }
      }
      EntriesLookup(hash, p, k);
    }
  }

  /** Storing into the key's own shard keeps routing and updates the view at that key. */
  lemma {:induction false} EntriesPut<V>(hash: string -> bv64, s: seq<Shard<V>>, key: string, v: Value<V>)
    requires Routed(hash, s) && |s| == SLen
    ensures var i := ShardOf(hash, key);
      Routed(hash, s[i := s[i][key := v]]) && Entries(s[i := s[i][key := v]]) == Entries(s)[key := v]
  {
    var i := ShardOf(hash, key);
    var t := s[i := s[i][key := v]];
    assert Routed(hash, t);
    forall k ensures k in Entries(t) <==> k in Entries(s)[key := v]
      ensures k in Entries(t) ==> Entries(t)[k] == Entries(s)[key := v][k]
    {
      EntriesLookup(hash, s, k);
      EntriesLookup(hash, t, k);
      assert t[ShardOf(hash, k)] == if ShardOf(hash, k) == i then s[i][key := v] else s[ShardOf(hash, k)];
    }
  }

  /** Removing a key from its own shard keeps routing and removes it from the view. */
  lemma {:induction false} EntriesRemove<V>(hash: string -> bv64, s: seq<Shard<V>>, key: string)
    requires Routed(hash, s) && |s| == SLen
    ensures var i := ShardOf(hash, key);
      Routed(hash, s[i := s[i] - {key}]) && Entries(s[i := s[i] - {key}]) == Entries(s) - {key}
      && (key in Entries(s) <==> key in s[i])
  {
    var i := ShardOf(hash, key);
    var t := s[i := s[i] - {key}];
    assert Routed(hash, t) by {
      forall j, x | 0 <= j < |t| && x in t[j] ensures ShardOf(hash, x) == j {
        assert x in s[j];
      }
    }
    EntriesLookup(hash, s, key);
    var r := Entries(s) - {key};
    forall k ensures k in Entries(t) <==> k in r
      ensures k in Entries(t) ==> Entries(t)[k] == r[k]
    {
      EntriesLookup(hash, s, k);
      EntriesLookup(hash, t, k);
      assert t[ShardOf(hash, k)] == if ShardOf(hash, k) == i then s[i] - {key} else s[ShardOf(hash, k)];
    }
    assert Entries(t) == r;
  }

  /** A table of empty shards presents the empty map. */
  lemma {:induction false} EntriesEmpty<V>(s: seq<Shard<V>>)
    requires forall i :: 0 <= i < |s| ==> s[i] == map[]
    ensures Entries(s) == map[]
  {
    if s != [] {
      EntriesEmpty(s[..|s| - 1]);
    }
  }

  /**
   Sweeping every shard of a routed table sweeps the combined view, and the
   swept table is still routed.
   */
  lemma {:induction false} EntriesSweepAll<V>(hash: string -> bv64, s: seq<Shard<V>>, now: i64)
    requires Routed(hash, s)
    ensures Routed(hash, SweptPrefix(s, |s|, now))
    ensures Entries(SweptPrefix(s, |s|, now)) == Sweep(Entries(s), now)
  {
    var t := SweptPrefix(s, |s|, now);
    assert Routed(hash, t);
    forall k ensures k in Entries(t) <==> k in Sweep(Entries(s), now)
      ensures k in Entries(t) ==> Entries(t)[k] == Sweep(Entries(s), now)[k]
    {
      EntriesLookup(hash, s, k);
      EntriesLookup(hash, t, k);
    }
  }

  /** The expired keys of `m` whose hash routes them below shard `n`. */
  ghost function ExpiredBelow<V>(hash: string -> bv64, m: map<string, Value<V>>, now: i64, n: nat): set<string>
  {
    set k | k in m && !IsValid(m[k], now) && ShardOf(hash, k) < n
  }

  lemma ExpiredBelowZero<V>(hash: string -> bv64, m: map<string, Value<V>>, now: i64)
    ensures ExpiredBelow(hash, m, now, 0) == {}
  {
  }

  lemma ExpiredBelowAll<V>(hash: string -> bv64, m: map<string, Value<V>>, now: i64)
    ensures ExpiredBelow(hash, m, now, SLen) == ExpiredKeys(m, now)
  {
  }

  /**
   In a routed table, the expired keys routed below `n + 1` are those routed
   below `n` together with, disjoint from them, the expired keys of shard `n`.
   */
  lemma {:induction false} ExpiredBelowStep<V>(hash: string -> bv64, s: seq<Shard<V>>, now: i64, n: nat)
    requires Routed(hash, s) && |s| == SLen && n < SLen
    ensures var below, e := ExpiredBelow(hash, Entries(s), now, n), ExpiredKeys(s[n], now);
      below !! e && ExpiredBelow(hash, Entries(s), now, n + 1) == below + e
  {
    var below, e := ExpiredBelow(hash, Entries(s), now, n), ExpiredKeys(s[n], now);
    forall k ensures k in ExpiredBelow(hash, Entries(s), now, n + 1) <==> k in below + e
      ensures k in e ==> k !in below
    {
      EntriesLookup(hash, s, k);
    }
    assert ExpiredBelow(hash, Entries(s), now, n + 1) == below + e;
  }

  /** The union of disjoint sets counts, and collects as a multiset, both of them. */
  lemma DisjointUnion<T>(a: set<T>, b: set<T>)
    requires a !! b
    ensures |a + b| == |a| + |b|
    ensures multiset(a + b) == multiset(a) + multiset(b)
  {
  }

  /** The valid keys of `m` whose hash routes them below shard `n`. */
  ghost function ValidBelow<V>(hash: string -> bv64, m: map<string, Value<V>>, now: i64, n: nat): set<string>
  {
    set k | k in m && IsValid(m[k], now) && ShardOf(hash, k) < n
  }

  lemma ValidBelowZero<V>(hash: string -> bv64, m: map<string, Value<V>>, now: i64)
    ensures ValidBelow(hash, m, now, 0) == {}
  {
  }

  lemma ValidBelowAll<V>(hash: string -> bv64, m: map<string, Value<V>>, now: i64)
    ensures ValidBelow(hash, m, now, SLen) == ValidKeys(m, now)
  {
  }

  /**
   In a routed table, the valid keys routed below `n + 1` are those routed
   below `n` together with the valid keys of shard `n`.
   */
  lemma {:induction false} ValidBelowStep<V>(hash: string -> bv64, s: seq<Shard<V>>, now: i64, n: nat)
    requires Routed(hash, s) && |s| == SLen && n < SLen
    ensures ValidBelow(hash, Entries(s), now, n + 1) == ValidBelow(hash, Entries(s), now, n) + ValidKeys(s[n], now)
  {
    var below, v := ValidBelow(hash, Entries(s), now, n), ValidKeys(s[n], now);
    forall k ensures k in ValidBelow(hash, Entries(s), now, n + 1) <==> k in below + v {
      EntriesLookup(hash, s, k);
    }
  }

  /** The keys of `m` routed to shard `j` whose entries are valid at `now`. */
  ghost function ValidIn<V>(hash: string -> bv64, m: map<string, Value<V>>, now: i64, j: nat): set<string>
  {
    set k | k in m && IsValid(m[k], now) && ShardOf(hash, k) == j
  }

  /** The keys of `m` routed to shard `j` whose entries have expired at `now`. */
  ghost function ExpiredIn<V>(hash: string -> bv64, m: map<string, Value<V>>, now: i64, j: nat): set<string>
  {
    set k | k in m && !IsValid(m[k], now) && ShardOf(hash, k) == j
  }

  /** In a routed table, what the combined view holds for shard `j` is what shard `j` holds. */
  lemma {:induction false} ShardInView<V>(hash: string -> bv64, s: seq<Shard<V>>, now: i64, j: nat)
    requires Routed(hash, s) && |s| == SLen && j < SLen
    ensures ValidIn(hash, Entries(s), now, j) == ValidKeys(s[j], now)
    ensures ExpiredIn(hash, Entries(s), now, j) == ExpiredKeys(s[j], now)
  {
    forall k
      ensures k in ValidIn(hash, Entries(s), now, j) <==> k in ValidKeys(s[j], now)
      ensures k in ExpiredIn(hash, Entries(s), now, j) <==> k in ExpiredKeys(s[j], now)
    {
      EntriesLookup(hash, s, k);
    }
  }

  /** Every shard of `s` without the keys in `e`. */
  function RemoveAll<V>(s: seq<Shard<V>>, e: set<string>): (r: seq<Shard<V>>)
    ensures |r| == |s|
    ensures forall j :: 0 <= j < |s| ==> r[j] == s[j] - e
  {
    seq(|s|, j requires 0 <= j < |s| => s[j] - e)
  }

  /** Removing no key leaves the table as it is. */
  lemma RemoveNone<V>(s: seq<Shard<V>>)
    ensures RemoveAll(s, {}) == s
  {
    var r := RemoveAll(s, {});
    forall j | 0 <= j < |s| ensures r[j] == s[j] {
      assert s[j] - {} == s[j];
    }
  }

  /**
   Keys routed below `n` are not in shard `n` of a routed table, and taking
   keys of that shard out of it there takes them out of the whole table.
   */
  lemma RemoveAllStep<V>(hash: string -> bv64, s: seq<Shard<V>>, e: set<string>, d: set<string>, n: nat)
    requires Routed(hash, s) && n < |s|
    requires forall k :: k in e ==> ShardOf(hash, k) < n
    requires d <= s[n].Keys
    ensures RemoveAll(s, e)[n] == s[n]
    ensures RemoveAll(s, e)[n := s[n] - d] == RemoveAll(s, e + d)
  {
    assert s[n] - e == s[n];
    var r, t := RemoveAll(s, e)[n := s[n] - d], RemoveAll(s, e + d);
    forall j | 0 <= j < |s| ensures r[j] == t[j] {
      if j == n {
        assert s[n] - d == s[n] - (e + d);
      } else {
        forall k | k in d ensures k !in s[j] {
          assert ShardOf(hash, k) == n;
        }
        assert s[j] - e == s[j] - (e + d);
      }
    }
    assert r == t;
  }

  /** Removing keys from every shard of a routed table removes them from the combined view. */
  lemma {:induction false} EntriesRemoveAll<V>(hash: string -> bv64, s: seq<Shard<V>>, e: set<string>)
    requires Routed(hash, s)
    ensures Routed(hash, RemoveAll(s, e))
    ensures Entries(RemoveAll(s, e)) == Entries(s) - e
  {
    var t := RemoveAll(s, e);
    assert Routed(hash, t);
    forall k ensures k in Entries(t) <==> k in Entries(s) - e
      ensures k in Entries(t) ==> Entries(t)[k] == (Entries(s) - e)[k]
    {
      EntriesLookup(hash, s, k);
      EntriesLookup(hash, t, k);
    }
  }

  /** The entries `Read` stores: the keys of `m` among `keys`, each with its value and the expiry `exp`. */
  function Stamped<V>(m: map<string, V>, keys: set<string>, exp: i64): (r: map<string, Value<V>>)
    ensures r.Keys == keys * m.Keys
    ensures forall k :: k in r ==> r[k] == Value(exp, m[k])
  {
    map k | k in keys && k in m :: Value(exp, m[k])
  }

  /** A traversal of `all` with nothing left to visit has visited all of it. */
  lemma Exhausted<T>(all: set<T>, visited: set<T>)
    requires visited <= all && all - visited == {}
    ensures visited == all
  {
    forall x | x in all ensures x in visited {
      assert x !in all - visited;
    }
  }

  /** A map has as many entries as keys. */
  lemma KeysCard<K, T>(m: map<K, T>)
    ensures |m.Keys| == |m|
  {
  }

  /** Storing one more key of `m` extends the stamped entries by that key. */
  lemma StampedStep<V>(c: map<string, Value<V>>, m: map<string, V>, keys: set<string>, exp: i64, k: string)
    requires k in m
    ensures (c + Stamped(m, keys, exp))[k := Value(exp, m[k])] == c + Stamped(m, keys + {k}, exp)
  {
  }
}
