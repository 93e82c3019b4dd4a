/**
 What `Range` shows its callback. The callback is a pure function here, so a
 traversal is described by the sequence of calls it made: which entry each
 call saw, and whether the callback asked to go on. This module states, on
 such traces, what one shard's traversal and the traversal of the whole
 table guarantee.
 */
module Trace {
  import opened Word
  import opened Entry
  import opened Table

  /** One call the traversal made to the callback of `Range`. */
  datatype Visit<V> = Visit(key: string, val: V, expire: i64)

  /** The callback accepted this visit (asked to go on). */
  predicate Accepted<V>(f: (string, V, i64) -> bool, v: Visit<V>)
  {
    f(v.key, v.val, v.expire)
  }

  /** The keys a traversal passed to the callback. */
  function VisitedKeys<V>(vs: seq<Visit<V>>): set<string>
  {
    set i | 0 <= i < |vs| :: vs[i].key
  }

  /** Every visit shows an entry of `m` valid at `now`, as it is stored. */
  ghost predicate Faithful<V>(m: map<string, Value<V>>, now: i64, vs: seq<Visit<V>>)
  {
    forall j :: 0 <= j < |vs| ==>
      vs[j].key in m && IsValid(m[vs[j].key], now) && m[vs[j].key] == Value(vs[j].expire, vs[j].val)
  }

  /** No key is shown twice. */
  ghost predicate Distinct<V>(vs: seq<Visit<V>>)
  {
    forall a, b :: 0 <= a < b < |vs| ==> vs[a].key != vs[b].key
  }

  /** The callback accepted every visit. */
  ghost predicate AllAccepted<V>(f: (string, V, i64) -> bool, vs: seq<Visit<V>>)
  {
    forall j :: 0 <= j < |vs| ==> Accepted(f, vs[j])
  }

  /**
   State of a traversal of the shard `m` that still has `keys` to visit: the
   visits so far show exactly the valid keys already taken out of `keys`,
   every visit but the last was accepted, and `stopped` says whether the
   last one was rejected.
   */
  ghost predicate VisitProgress<V>(m: Shard<V>, now: i64, f: (string, V, i64) -> bool,
                                   keys: set<string>, vs: seq<Visit<V>>, stopped: bool)
  {
    keys <= m.Keys && Faithful(m, now, vs) && Distinct(vs)
    && VisitedKeys(vs) == ValidKeys(m, now) - keys
    && (forall j :: 0 <= j < |vs| - 1 ==> Accepted(f, vs[j]))
    && (stopped <==> |vs| > 0 && !Accepted(f, vs[|vs| - 1]))
  }

  /**
   Taking key `k` out of `keys` in a traversal that has not stopped: a valid
   entry is shown to the callback, which decides whether to stop; an expired
   one is not shown.
   */
  lemma VisitStep<V>(m: Shard<V>, now: i64, f: (string, V, i64) -> bool,
                     keys: set<string>, vs: seq<Visit<V>>, k: string)
    requires VisitProgress(m, now, f, keys, vs, false) && k in keys
    ensures IsValid(m[k], now) ==>
      VisitProgress(m, now, f, keys - {k}, vs + [Visit(k, m[k].val, m[k].expire)], !f(k, m[k].val, m[k].expire))
    ensures !IsValid(m[k], now) ==> VisitProgress(m, now, f, keys - {k}, vs, false)
  {
    var ws := vs + [Visit(k, m[k].val, m[k].expire)];
    assert VisitedKeys(ws) == VisitedKeys(vs) + {k} by {
      forall x ensures x in VisitedKeys(ws) <==> x in VisitedKeys(vs) + {k} {
        if x in VisitedKeys(vs) {
          var j :| 0 <= j < |vs| && vs[j].key == x;
          assert ws[j].key == x;
        }
        if x == k {
          assert ws[|vs|].key == k;
        }
      }
    }
  }

  /**
   What traversing one shard `m` gave: `vs` are faithful, distinct visits of
   which only the last may have been rejected, `done` are expired keys that
   were evicted, and unless the callback rejected a visit the traversal saw
   every valid key and evicted every expired one.
   */
  ghost predicate ShardRanged<V>(m: Shard<V>, now: i64, f: (string, V, i64) -> bool,
                                 vs: seq<Visit<V>>, done: set<string>)
  {
    Faithful(m, now, vs) && Distinct(vs) && done <= ExpiredKeys(m, now)
    && (forall j :: 0 <= j < |vs| - 1 ==> Accepted(f, vs[j]))
    && (AllAccepted(f, vs) ==> VisitedKeys(vs) == ValidKeys(m, now) && done == ExpiredKeys(m, now))
  }

  /** A traversal that ran out of keys or was stopped by the callback gave `ShardRanged`. */
  lemma ShardRangedDone<V>(m: Shard<V>, now: i64, f: (string, V, i64) -> bool, keys: set<string>,
                           vs: seq<Visit<V>>, stopped: bool, done: set<string>, rows: nat)
    requires VisitProgress(m, now, f, keys, vs, stopped) && Progress(m, now, keys, done, rows)
    requires keys == {} || stopped
    ensures ShardRanged(m, now, f, vs, done)
  {
    if stopped {
      assert !Accepted(f, vs[|vs| - 1]);
    }
  }

  /** The callback accepted every visit of an entry routed to shard `j`. */
  ghost predicate ShardAccepted<V>(hash: string -> bv64, f: (string, V, i64) -> bool, vs: seq<Visit<V>>, j: nat)
  {
    forall i :: 0 <= i < |vs| && ShardOf(hash, vs[i].key) == j ==> Accepted(f, vs[i])
  }

  /** The keys routed to shard `j` that a traversal passed to the callback. */
  function VisitedIn<V>(hash: string -> bv64, vs: seq<Visit<V>>, j: nat): set<string>
  {
    set i | 0 <= i < |vs| && ShardOf(hash, vs[i].key) == j :: vs[i].key
  }

  /**
   Where `Range` stands once the shards of `s` below `n` are traversed:
   `vs` are faithful, distinct visits of the combined view, grouped by
   shard in increasing order, a rejected visit being the last of its shard;
   `ev` are expired keys routed below `n`; and unless the callback rejected
   a visit, every valid key below `n` was shown and every expired one
   evicted; and the same holds shard by shard: a shard below `n` none of
   whose visits was rejected had every valid key shown and every expired
   key evicted, whatever the callback did in other shards.
   */
  ghost predicate RangedBelow<V>(hash: string -> bv64, s: seq<Shard<V>>, now: i64, f: (string, V, i64) -> bool,
                                 n: nat, vs: seq<Visit<V>>, ev: set<string>)
  {
    Faithful(Entries(s), now, vs) && Distinct(vs)
    && (forall j :: 0 <= j < |vs| ==> ShardOf(hash, vs[j].key) < n)
    && (forall a, b :: 0 <= a < b < |vs| ==> ShardOf(hash, vs[a].key) <= ShardOf(hash, vs[b].key))
    && (forall j :: 0 <= j < |vs| - 1 && !Accepted(f, vs[j]) ==>
          ShardOf(hash, vs[j].key) < ShardOf(hash, vs[j + 1].key))
    && ev <= ExpiredBelow(hash, Entries(s), now, n)
    && (AllAccepted(f, vs) ==>
          VisitedKeys(vs) == ValidBelow(hash, Entries(s), now, n) && ev == ExpiredBelow(hash, Entries(s), now, n))
    && (forall j :: 0 <= j < n && ShardAccepted(hash, f, vs, j) ==>
          VisitedIn(hash, vs, j) == ValidIn(hash, Entries(s), now, j) && ExpiredIn(hash, Entries(s), now, j) <= ev)
  }

  lemma RangedBelowZero<V>(hash: string -> bv64, s: seq<Shard<V>>, now: i64, f: (string, V, i64) -> bool)
    ensures RangedBelow(hash, s, now, f, 0, [], {})
  {
    ExpiredBelowZero(hash, Entries(s), now);
    ValidBelowZero(hash, Entries(s), now);
  }

  /** The visits of shard `n` of a routed table are visits of its combined view, routed to `n`. */
  lemma {:induction false} ShardVisitsInView<V>(hash: string -> bv64, s: seq<Shard<V>>, now: i64, n: nat, ws: seq<Visit<V>>)
    requires Routed(hash, s) && |s| == SLen && n < SLen && Faithful(s[n], now, ws)
    ensures Faithful(Entries(s), now, ws)
    ensures forall j :: 0 <= j < |ws| ==> ShardOf(hash, ws[j].key) == n
  {
    forall j | 0 <= j < |ws|
      ensures ws[j].key in Entries(s) && Entries(s)[ws[j].key] == s[n][ws[j].key]
      ensures ShardOf(hash, ws[j].key) == n
    {
      EntriesLookup(hash, s, ws[j].key);
    }
  }

  /** Appending the visits of shard `n` keeps the visits faithful, distinct and grouped by shard. */
  lemma {:induction false} AppendShardVisits<V>(hash: string -> bv64, m: map<string, Value<V>>, now: i64,
                                                f: (string, V, i64) -> bool, n: nat, vs: seq<Visit<V>>, ws: seq<Visit<V>>)
    requires Faithful(m, now, vs) && Distinct(vs) && Faithful(m, now, ws) && Distinct(ws)
    requires forall j :: 0 <= j < |vs| ==> ShardOf(hash, vs[j].key) < n
    requires forall j :: 0 <= j < |ws| ==> ShardOf(hash, ws[j].key) == n
    requires forall a, b :: 0 <= a < b < |vs| ==> ShardOf(hash, vs[a].key) <= ShardOf(hash, vs[b].key)
    requires forall j :: 0 <= j < |vs| - 1 && !Accepted(f, vs[j]) ==>
      ShardOf(hash, vs[j].key) < ShardOf(hash, vs[j + 1].key)
    requires forall j :: 0 <= j < |ws| - 1 ==> Accepted(f, ws[j])
    ensures var t := vs + ws;
      Faithful(m, now, t) && Distinct(t)
      && (forall j :: 0 <= j < |t| ==> ShardOf(hash, t[j].key) < n + 1)
      && (forall a, b :: 0 <= a < b < |t| ==> ShardOf(hash, t[a].key) <= ShardOf(hash, t[b].key))
      && (forall j :: 0 <= j < |t| - 1 && !Accepted(f, t[j]) ==> ShardOf(hash, t[j].key) < ShardOf(hash, t[j + 1].key))
  {
    var t := vs + ws;
    forall j | 0 <= j < |t| ensures ShardOf(hash, t[j].key) == if j < |vs| then ShardOf(hash, vs[j].key) else n {
      if j >= |vs| {
        assert t[j] == ws[j - |vs|];
      }
    }
    forall a, b | 0 <= a < b < |t| ensures t[a].key != t[b].key {
      if b < |vs| {
        assert t[a] == vs[a] && t[b] == vs[b];
      } else if a >= |vs| {
        assert t[a] == ws[a - |vs|] && t[b] == ws[b - |vs|];
      }
    }
  }

  /** The keys shown by two traces one after the other. */
  lemma VisitedKeysAppend<V>(vs: seq<Visit<V>>, ws: seq<Visit<V>>)
    ensures VisitedKeys(vs + ws) == VisitedKeys(vs) + VisitedKeys(ws)
  {
    var t := vs + ws;
    forall x ensures x in VisitedKeys(t) <==> x in VisitedKeys(vs) + VisitedKeys(ws) {
      if x in VisitedKeys(t) {
        var j :| 0 <= j < |t| && t[j].key == x;
        if j >= |vs| {
          assert ws[j - |vs|].key == x;
        }
      }
      if x in VisitedKeys(vs) {
        var j :| 0 <= j < |vs| && vs[j].key == x;
        assert t[j].key == x;
      }
      if x in VisitedKeys(ws) {
        var j :| 0 <= j < |ws| && ws[j].key == x;
        assert t[|vs| + j].key == x;
      }
    }
  }

  /** Distinct visits show as many keys as there are visits. */
  lemma {:induction false} DistinctCount<V>(vs: seq<Visit<V>>)
    requires Distinct(vs)
    ensures |VisitedKeys(vs)| == |vs|
  {
    if vs != [] {
      var p, last := vs[..|vs| - 1], vs[|vs| - 1];
      assert vs == p + [last];
      assert Distinct(p) by {
        forall a, b | 0 <= a < b < |p| ensures p[a].key != p[b].key {
          assert p[a] == vs[a] && p[b] == vs[b];
        }
      }
      DistinctCount(p);
      VisitedKeysAppend(p, [last]);
      assert VisitedKeys([last]) == {last.key} by {
        assert [last][0].key == last.key;
      }
      assert last.key !in VisitedKeys(p) by {
        forall j | 0 <= j < |p| ensures p[j].key != last.key {
          assert p[j] == vs[j];
        }
      }
    }
  }

  /**
   Appending the visits of shard `n` to visits of the shards below it: a
   shard below `n` keeps its visits, and shard `n`, when none of its visits
   was rejected, had every valid key shown and every expired key evicted.
   */
  lemma {:induction false} PerShardStep<V>(hash: string -> bv64, s: seq<Shard<V>>, now: i64, f: (string, V, i64) -> bool,
                                           n: nat, vs: seq<Visit<V>>, ev: set<string>, ws: seq<Visit<V>>, d: set<string>)
    requires Routed(hash, s) && |s| == SLen && n < SLen
    requires forall i :: 0 <= i < |vs| ==> ShardOf(hash, vs[i].key) < n
    requires forall i :: 0 <= i < |ws| ==> ShardOf(hash, ws[i].key) == n
    requires forall j :: 0 <= j < n && ShardAccepted(hash, f, vs, j) ==>
      VisitedIn(hash, vs, j) == ValidIn(hash, Entries(s), now, j) && ExpiredIn(hash, Entries(s), now, j) <= ev
    requires AllAccepted(f, ws) ==> VisitedKeys(ws) == ValidKeys(s[n], now) && d == ExpiredKeys(s[n], now)
    ensures forall j :: 0 <= j < n + 1 && ShardAccepted(hash, f, vs + ws, j) ==>
      VisitedIn(hash, vs + ws, j) == ValidIn(hash, Entries(s), now, j) && ExpiredIn(hash, Entries(s), now, j) <= ev + d
  {
    var t := vs + ws;
    forall j | 0 <= j < n + 1 && ShardAccepted(hash, f, t, j)
      ensures VisitedIn(hash, t, j) == ValidIn(hash, Entries(s), now, j)
      ensures ExpiredIn(hash, Entries(s), now, j) <= ev + d
    {
      if j < n {
        assert ShardAccepted(hash, f, vs, j) by {
          forall i | 0 <= i < |vs| && ShardOf(hash, vs[i].key) == j ensures Accepted(f, vs[i]) {
            assert t[i] == vs[i];
          }
        }
        forall x ensures x in VisitedIn(hash, t, j) <==> x in VisitedIn(hash, vs, j) {
          if x in VisitedIn(hash, t, j) {
            var i :| 0 <= i < |t| && ShardOf(hash, t[i].key) == j && t[i].key == x;
            if i < |vs| {
              assert t[i] == vs[i];
            }
          }
          if x in VisitedIn(hash, vs, j) {
            var i :| 0 <= i < |vs| && ShardOf(hash, vs[i].key) == j && vs[i].key == x;
            assert t[i] == vs[i];
          }
        }
      } else {
        assert AllAccepted(f, ws) by {
          forall i | 0 <= i < |ws| ensures Accepted(f, ws[i]) {
            assert t[|vs| + i] == ws[i];
          }
        }
        ShardInView(hash, s, now, n);
        forall x ensures x in VisitedIn(hash, t, n) <==> x in VisitedKeys(ws) {
          if x in VisitedIn(hash, t, n) {
            var i :| 0 <= i < |t| && ShardOf(hash, t[i].key) == n && t[i].key == x;
            if i >= |vs| {
              assert t[i] == ws[i - |vs|];
            }
          }
          if x in VisitedKeys(ws) {
            var i :| 0 <= i < |ws| && ws[i].key == x;
            assert t[|vs| + i] == ws[i];
          }
        }
      }
    }
  }

  /** Traversing shard `n` after the shards below it gives `RangedBelow` for `n + 1`. */
  lemma {:induction false} RangedBelowStep<V>(hash: string -> bv64, s: seq<Shard<V>>, now: i64, f: (string, V, i64) -> bool,
                                              n: nat, vs: seq<Visit<V>>, ev: set<string>, ws: seq<Visit<V>>, d: set<string>)
    requires Routed(hash, s) && |s| == SLen && n < SLen
    requires RangedBelow(hash, s, now, f, n, vs, ev) && ShardRanged(s[n], now, f, ws, d)
    ensures RangedBelow(hash, s, now, f, n + 1, vs + ws, ev + d)
    ensures ev !! d
  {
    ExpiredBelowStep(hash, s, now, n);
    ValidBelowStep(hash, s, now, n);
    ShardVisitsInView(hash, s, now, n, ws);
    AppendShardVisits(hash, Entries(s), now, f, n, vs, ws);
    VisitedKeysAppend(vs, ws);
    PerShardStep(hash, s, now, f, n, vs, ev, ws, d);
    if AllAccepted(f, vs + ws) {
      assert AllAccepted(f, vs) by {
        forall j | 0 <= j < |vs| ensures Accepted(f, vs[j]) {
          assert (vs + ws)[j] == vs[j];
        }
      }
      assert AllAccepted(f, ws) by {
        forall j | 0 <= j < |ws| ensures Accepted(f, ws[j]) {
          assert (vs + ws)[|vs| + j] == ws[j];
        }
      }
    }
  }

  /** After the last shard, `RangedBelow` speaks of the whole combined view. */
  lemma RangedAll<V>(hash: string -> bv64, s: seq<Shard<V>>, now: i64, f: (string, V, i64) -> bool,
                     vs: seq<Visit<V>>, ev: set<string>)
    requires RangedBelow(hash, s, now, f, SLen, vs, ev)
    ensures ev <= ExpiredKeys(Entries(s), now)
    ensures AllAccepted(f, vs) ==> VisitedKeys(vs) == ValidKeys(Entries(s), now) && ev == ExpiredKeys(Entries(s), now)
  {
    ExpiredBelowAll(hash, Entries(s), now);
    ValidBelowAll(hash, Entries(s), now);
  }

  /**
   The map `ToRawMap`'s callback fills in, one visit after the other: it has
   an entry for every key the traversal showed, and for no other key.
   */
  function Collect<V>(vs: seq<Visit<V>>): (m: map<string, V>)
    ensures m.Keys == VisitedKeys(vs)
  {
    if vs == [] then map[]
    else
      var p, last := vs[..|vs| - 1], vs[|vs| - 1];
      assert vs == p + [last];
      VisitedKeysAppend(p, [last]);
      assert [last][0] == last;
      Collect(p)[last.key := last.val]
  }

  /** What `ToRawMap`'s callback does over a traversal: store each visited value under its key. */
  method Record<V>(vs: seq<Visit<V>>) returns (m: map<string, V>)
    ensures m == Collect(vs)
  {
    m := map[];
    for j := 0 to |vs|
      invariant m == Collect(vs[..j])
    {
      assert vs[..j + 1][..j] == vs[..j];
      m := m[vs[j].key := vs[j].val];
    }
    assert vs[..|vs|] == vs;
  }

  /** Collecting faithful visits gives the visited keys with their stored values. */
  lemma {:induction false} CollectFaithful<V>(m: map<string, Value<V>>, now: i64, vs: seq<Visit<V>>)
    requires Faithful(m, now, vs)
    ensures Collect(vs).Keys == VisitedKeys(vs)
    ensures forall k :: k in Collect(vs) ==> Collect(vs)[k] == m[k].val
  {
    if vs != [] {
      var p := vs[..|vs| - 1];
      assert Faithful(m, now, p) by {
        forall j | 0 <= j < |p| ensures p[j] == vs[j] { }
      }
      CollectFaithful(m, now, p);
    }
  }

  /**
   Visits that show every valid entry of `m`, each as stored, collect to the
   snapshot of `m`: its valid keys with their values.
   */
  lemma CollectSnapshot<V>(m: map<string, Value<V>>, now: i64, vs: seq<Visit<V>>)
    requires Faithful(m, now, vs) && VisitedKeys(vs) == ValidKeys(m, now)
    ensures Collect(vs) == Snapshot(m, now)
  {
    CollectFaithful(m, now, vs);
  }
}
