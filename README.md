# gache, one operation at a time

A Dafny model of `gache`, a generic in-memory key-value cache with
per-entry expiry. The cache spreads keys over 512 shard maps by the low nine
bits of a string hash. It keeps a `uint64` write counter behind `Len`, a
default TTL used by `Set`, and a switch for the expiry hook. When the hook is
on, every expired entry the cache evicts is queued for the hook. Expired
entries are evicted lazily by `Get`, by `Range` and its users, and by
`DeleteExpired`.

The model runs every operation to completion before the next one starts.

- The current time is the parameter `now` of every operation that reads the
  clock.
- The xxh3 string hash is the constructor parameter `hash`. Nothing is
  assumed about it.
- A context is a boolean `cancelled`. A cancelled context stops every
  shard's traversal at its first entry, so nothing is visited or evicted.
- The hook channel is the sequence `expChan`.

Modules:

- `Word`: Go's `int64` and `uint64`. It covers wrap-around of the counter
  (`Dec`, `Inc`) and the `unsafe` reading of the counter as a signed `int`.
- `Entry`: the stored `value`, `isValid`, and the TTL arithmetic of `set`.
- `Table`: the shard table as a sequence of maps. It holds the routing
  invariant (`Routed`) and the one key-to-entry view all shards give together
  (`Entries`). It also holds the sweep (`Sweep`), the snapshot (`Snapshot`) and
  the entries `Read` stores (`Stamped`), with their lemmas.
- `Trace`: what `Range` shows its callback, as the sequence of calls it made.
  It says what one shard's traversal and the whole traversal guarantee.
- `Gache`: the class `Cache`. Its fields are the shards (an `array` of 512
  maps), `l`, `expire`, `expFuncEnabled` and `expChan`. Every method states
  the new shard table, through `Contents()`, and the new counter, TTL, switch
  and queue.
- `Scenarios`: short client runs on fresh caches. Each outcome follows from
  the contracts alone.

`Len` is documented as returning the stored object length (gache.go:308).
The counter it reads counts calls, not entries, and the model follows the
code:

- `set` adds one on every call (gache.go:222), so overwriting a key that is
  already present counts twice for one stored entry.
- `Delete` subtracts one before it looks the key up (gache.go:241), so
  deleting an absent key still lowers `Len`, to -1 on an empty cache.
- `Clear` replaces every shard with a new map (gache.go:355-359) and leaves
  `l` as it is, so `Len` still counts the writes made before it.

## Model

| member | source | states |
|---|---|---|
| `Word.WrapI64` | gache.go:220 | `now + expire` as Go computes it: the exact sum whenever it fits in an `int64` |
| `Word.AddU64` | gache.go:222 | `atomic.AddUint64` is the sum, or the sum minus 2^64 when it overflows |
| `Word.AsSigned` | gache.go:309-312 | the counter's bits read as `int`: the counter itself below 2^63, and a negative number from 2^63 up |
| `Word.IncDecInverse` | gache.go:240-243 | adding `^uint64(0)` undoes an increment, and the other way round |
| `Word.SignedCounter` | gache.go:309-312 | a counter that saw `n` net increments from zero reads back as `n`, negative after more deletes than sets |
| `Word.DecWrapped` | gache.go:241 | one decrement of a wrapped value is the wrapped value minus one |
| `Word.IncWrapped` | gache.go:222 | one increment of a wrapped value is the wrapped value plus one |
| `Word.DecAdd` | gache.go:256-280 | `a` decrements followed by `b` decrements are `a + b` decrements |
| `Word.Dec` | gache.go:241 | `n` decrements of the counter subtract `n` while it stays at or above zero, and borrow 2^64 once when it would go below |
| `Word.DecWrap` | gache.go:241 | `n` decrements subtract `n` modulo 2^64 |
| `Word.Inc` | gache.go:222 | `n` increments of the counter add `n` while it stays below 2^64, and wrap once to zero when it would reach it |
| `Word.IncWrap` | gache.go:222 | `n` increments add `n` modulo 2^64 |
| `Entry.IsValid` | gache.go:115-117 | an entry with a non-positive expiry instant never expires; one with a positive instant is valid up to and including that instant and expired strictly after it |
| `Entry.ExpireAt` | gache.go:218-222 | a non-positive TTL (`NoTTL` included) is stored as it is; a positive one becomes `now + ttl`, later than `now` unless the sum overflows to a negative instant |
| `Entry.ValidEarlier` | gache.go:115-117 | an entry valid at `now` was valid at every earlier instant |
| `Entry.NonPositiveTTLNeverExpires` | gache.go:218-222 | an entry set with a TTL of at most zero is valid at every instant |
| `Entry.PositiveTTLLifetime` | gache.go:218-222 | an entry set with a positive TTL is valid exactly up to and including `now + ttl` |
| `Entry.OverflowingTTLNeverExpires` | gache.go:218-222 | a positive TTL whose deadline overflows `int64` gives an entry that never expires |
| `Table.ShardIndex` | gache.go:79-85 | `hash & mask` is always a shard index below 512 |
| `Table.ShardOf` | gache.go:223 | every key is routed to a shard index below 512 |
| `Table.Sweep` | gache.go:256-280 | what the sweep leaves: exactly the valid keys, each with its entry unchanged |
| `Table.Snapshot` | gache.go:177-187 | what a full dump holds: exactly the valid keys, each with its stored value |
| `Table.SweepPartition` | gache.go:256-280 | valid and expired keys split the map; their counts add up to its size; the sweep is the map minus the expired keys |
| `Table.ProgressStep` | gache.go:261-272 | one more key visited by a shard traversal keeps the visited-so-far bookkeeping; an expired key joins the evicted set and the count |
| `Table.ProgressDone` | gache.go:261-274 | a finished traversal has evicted exactly the expired keys of its shard, and counted them |
| `Table.EntriesLookup` | gache.go:190-192 | in a routed table a key is in the combined view iff it is in the shard its hash picks, with the same entry |
| `Table.EntriesPut` | gache.go:223-226 | storing into the key's own shard keeps routing and updates the combined view at that key only |
| `Table.EntriesRemove` | gache.go:240-243 | removing from the key's own shard keeps routing and removes exactly that key from the combined view |
| `Table.EntriesEmpty` | gache.go:355-359 | a table of empty shards has an empty combined view |
| `Table.EntriesSweepAll` | gache.go:256-280 | sweeping every shard sweeps the combined view |
| `Table.ExpiredBelowStep` | gache.go:257-278 | the expired keys of shards `0..n` are those of shards `0..n-1` plus shard `n`'s, which are disjoint from them |
| `Table.ValidBelowStep` | gache.go:284-304 | the valid keys of shards `0..n` are those of shards `0..n-1` plus shard `n`'s |
| `Table.ShardInView` | gache.go:287-288 | in a routed table, the valid and the expired keys the combined view routes to shard `j` are exactly those shard `j` holds |
| `Table.RemoveAllStep` | gache.go:284-304 | evicting a further set of shard `n`'s keys, after keys routed below `n`, changes shard `n` only |
| `Table.EntriesRemoveAll` | gache.go:283-306 | evicting a key set shard by shard removes exactly that set from the combined view |
| `Table.Stamped` | gache.go:339-341 | the entries `Read` stores: the decoded keys, each with its value and one expiry instant |
| `Table.StampedStep` | gache.go:339-341 | storing one more decoded pair extends the stored entries by that key |
| `Trace.VisitStep` | gache.go:288-298 | a shard traversal that has not stopped shows a valid entry to the callback, whose answer decides whether to stop; an expired one is not shown |
| `Trace.ShardRangedDone` | gache.go:285-303 | a traversal that ran out of keys or was stopped leaves faithful, distinct visits with only the last possibly rejected; without a rejection it showed every valid key and evicted every expired one |
| `Trace.RangedBelowZero` | gache.go:283-306 | before any shard nothing was visited or evicted |
| `Trace.ShardVisitsInView` | gache.go:285-303 | visits of shard `n` are visits of the combined view, all routed to `n` |
| `Trace.AppendShardVisits` | gache.go:284-304 | appending a shard's visits keeps the trace faithful, distinct, grouped by increasing shard, and a rejection the last of its shard |
| `Trace.VisitedKeysAppend` | gache.go:284-304 | the keys shown by two traces in a row are the union of theirs |
| `Trace.DistinctCount` | gache.go:283-306 | distinct visits show as many keys as there are visits |
| `Trace.PerShardStep` | gache.go:284-304 | appending shard `n`'s visits leaves every lower shard's visits as they were, and if no visit of shard `n` was rejected, its visits show exactly its valid keys and all its expired keys are evicted |
| `Trace.RangedBelowStep` | gache.go:284-304 | traversing shard `n` after the shards below it extends the whole-table guarantee to `n + 1`, overall and shard by shard, with disjoint evictions |
| `Trace.RangedAll` | gache.go:283-306 | after the last shard, the evicted keys are expired keys of the whole view; without a rejection the trace shows every valid key and every expired key was evicted |
| `Trace.Collect` | gache.go:180-185 | the map the callback fills holds exactly the keys the traversal showed |
| `Trace.Record` | gache.go:180-185 | filling a map from the trace, one visit after the other, gives the collected map |
| `Trace.CollectFaithful` | gache.go:177-187 | the collected map has exactly the visited keys, each with its stored value |
| `Trace.CollectSnapshot` | gache.go:177-187 | visits that show every valid entry collect to the snapshot of the cache |
| `Gache.Cache.New` | gache.go:92-104 | 512 empty shards, counter zero, a 30-second default TTL, hooks off, an empty queue |
| `Gache.Cache.SetDefaultExpire` | gache.go:120-123 | the default TTL becomes `ex`; entries, counter, switch and queue are kept |
| `Gache.Cache.EnableExpiredHook` | gache.go:126-129 | hooks on; entries, counter, TTL and queue are kept |
| `Gache.Cache.DisableExpiredHook` | gache.go:132-135 | hooks off; entries, counter, TTL and queue are kept |
| `Gache.Cache.Len` | gache.go:309-312 | the counter read as a signed 64-bit integer: itself below 2^63, negative from there up |
| `Gache.Cache.SetEntry` | gache.go:218-227 | only the key's own shard changes, and in it only the key, which gets the value and `ExpireAt(now, ttl)`; the counter goes up by one, overwrite or not |
| `Gache.Cache.SetWithExpire` | gache.go:230-232 | `set` with the TTL given |
| `Gache.Cache.Set` | gache.go:235-237 | `set` with the default TTL |
| `Gache.Cache.Delete` | gache.go:240-243 | returns whether the key was present, removes it from its shard only, and decrements the counter modulo 2^64 even when the key was absent |
| `Gache.Cache.Expiration` | gache.go:245-253 | deletes the key and queues it at the end of the hook queue iff hooks are on |
| `Gache.Cache.GetEntry` | gache.go:190-204 | a miss gives (zero, 0, false) and changes nothing; a valid entry gives (value, expiry, true) and changes nothing; an expired one gives (zero, stored expiry, false), is deleted, decrements the counter and is queued iff hooks are on |
| `Gache.Cache.Get` | gache.go:207-210 | `get` without the expiry, with the same outcomes |
| `Gache.Cache.GetWithExpire` | gache.go:213-215 | `get` as it is |
| `Gache.Cache.EvictIfExpired` | gache.go:262-271 | the per-entry callback: an entry invalid at `now` goes through `expiration` and is reported; a valid one is left alone |
| `Gache.Cache.DeleteExpiredShard` | gache.go:259-276 | one shard's sweep: that shard loses exactly its expired keys, the others are untouched, the count returned is how many, the counter went down as many times, and with hooks on each was queued once |
| `Gache.Cache.DeleteExpiredStep` | gache.go:257-278 | sweeping shard `i` after the shards below it extends the swept prefix, the count and the queue to shard `i + 1` |
| `Gache.Cache.DeleteExpired` | gache.go:256-280 | uncancelled: afterwards the cache holds exactly its valid entries, unchanged; the result is the number of expired keys; the counter went down by as many; with hooks on each expired key was queued once after the old queue. Cancelled: nothing changes and the result is 0 |
| `Gache.Cache.RangeVisit` | gache.go:288-300 | the `Range` callback on one entry: a valid entry is passed to `f`, whose answer says whether to stop; an expired one goes through `expiration` |
| `Gache.Cache.RangeShard` | gache.go:285-303 | one shard's traversal: only that shard changes, losing only expired keys; the calls to `f` show valid entries as stored, each key once, and only the last may be rejected; without a rejection `f` saw every valid key of the shard and every expired one was evicted |
| `Gache.Cache.RangeStep` | gache.go:284-304 | traversing shard `i` after the shards below it extends the whole-table guarantee to `i + 1` |
| `Gache.Cache.RangeAll` | gache.go:283-306 | the uncancelled traversal of all shards: the evicted keys are gone, the counter and the queue account for each once, and the trace meets the whole-table guarantee, overall and for every shard none of whose visits was rejected |
| `Gache.Cache.Range` | gache.go:283-306 | `f` sees only valid entries, as stored, each key at most once, shard after shard; a rejection ends only its shard's traversal; only expired keys are evicted, each decrementing the counter and, with hooks on, queued once; when `f` never rejects it saw every valid entry and no expired entry is left; the same holds shard by shard, for every shard in which `f` rejected nothing, whatever it did elsewhere. Cancelled: no call and no change |
| `Gache.Cache.ToRawMap` | gache.go:177-187 | uncancelled: the result is exactly the valid keys with their values, and every expired entry has been evicted, counted down and queued as by `Range` |
| `Gache.Cache.ReadPair` | gache.go:339-341 | storing one decoded pair with `Set` extends the stored entries by that key and the counter by one |
| `Gache.Cache.SetAll` | gache.go:339-341 | after the loop every decoded pair is stored under the default TTL, over what the cache held, with one increment per pair |
| `Gache.Cache.Read` | gache.go:332-343 | a decode error is returned and changes nothing; otherwise every decoded pair is stored as by `Set`, keys not in the stream are kept, and the counter goes up by the number of pairs |
| `Gache.Cache.Clear` | gache.go:355-359 | every shard is empty afterwards, so the cache holds nothing; the counter, TTL, switch and queue are kept |
| `Scenarios.ExpiringEntry` | gache.go:190-204 | an entry with a 50 ms TTL is found 10 ms later and missed 60 ms later; that miss evicts it, so `Len` is back to 0 |
| `Scenarios.OverwriteCountsTwice` | gache.go:218-227 | two `Set`s of one key leave the latest value and `Len` 2 |
| `Scenarios.DeleteAbsentKey` | gache.go:240-243 | `Delete` of a key never set returns false and `Len` reads -1 |
| `Scenarios.HookQueuesOnce` | gache.go:245-253 | with hooks on, the read that finds an entry expired queues its key once; the sweep after it finds nothing and queues nothing |
| `Scenarios.ClearKeepsCount` | gache.go:355-359 | after `Clear` the key is gone but `Len` still counts its `Set` |
| `Scenarios.DumpAndReload` | gache.go:332-343 | what `ToRawMap` dumps from one cache, `Read` loads into another under the same keys |
| `Scenarios.DumpAndReloadAll` | gache.go:315-343 | for any cache, the map dumped at `now` and read into a new cache gives exactly the keys valid at `now`, each with its value and the default TTL's expiry |
| `Scenarios.RangeRejectingAll` | gache.go:283-306 | a callback that rejects everything still sees the one valid entry, once and as stored |
| `Scenarios.RejectionStaysInItsShard` | gache.go:288-294 | with "a" in shard 0 and "b" in shard 1, a callback that rejects "a" is still shown "b" |
| `Scenarios.RejectionStillEvicts` | gache.go:293-298 | with "a" valid in shard 0 and "b" expired in shard 1, a callback that rejects everything still lets "b" be evicted, so `Len` drops from 2 to 1 |

## Left out

- Concurrency. The source runs one goroutine per shard in `Range` and
  `DeleteExpired`, and `sync.WaitGroup` and `runtime.Gosched` go with it.
  The model traverses the shards one after the other. Any interleaving of
  the parallel run ends with the same shards, because each shard is touched
  by its own goroutine alone, and with the same counter, because its atomic
  additions commute. The hook queue is different: the goroutines queue keys
  (gache.go:249, reached from 268 and 297) in an order the scheduler picks,
  so the model's queue agrees with a parallel run only as a multiset.
- Atomic loads and stores. They are plain field reads and writes here.
- The deduplication of concurrent evictions by `singleflight`. Run
  sequentially, each `expiration` call runs its body once.
- `StartExpired`, `Stop` and `SetExpiredHook`. They run and stop the
  background sweeper and set the hook function it calls. The model only
  tracks the queue that sweeper drains.
- The capacity of the hook channel: `Table.ExpChanCap` is 5120. The queue is
  an unbounded sequence, so an enqueue never blocks.
- `Write`, `Read`'s decoding and gob itself. The map `Write` encodes is the
  one `ToRawMap` builds. `Read` takes the decoded map, or `None` for a decode
  error.
- `ToMap`. It stores each visited pair from a goroutine it does not wait
  for (gache.go:169), so the map it returns may be incomplete. This cannot
  be stated sequentially and is not modelled.
- Options other than the default TTL that `New` installs.
- The hashmap library and xxh3. A shard is a map; the hash is any function.
- The order in which a shard's traversal meets its keys. The library leaves
  it unspecified, so the model picks any remaining key.
- One clock reading per operation. The source reads the clock at each
  `isValid`; the model reads one `now` per call.
- The callback of `Range` is a pure function. One with side effects on the
  cache is not modelled.
- `Gache.Cache.Range`: returns the calls made to the callback instead of the
  receiver, which the source returns only for chaining.
- `Gache.Cache.Range`: with a cancelled context, the source may still call
  `f` on entries met before the cancellation is seen. Cancellation is
  modelled as already in effect when the call starts.
- `Gache.Cache.DeleteExpired`: a cancellation seen partway through the sweep
  (gache.go:263-265) leaves some shards partly swept and returns a partial
  count. Cancellation is modelled as already in effect when the call starts.
- `Gache.Cache.ToRawMap`: a cancellation seen partway through the traversal
  returns a partial map and leaves the expired entries not yet met in place.
  Cancellation is modelled as already in effect when the call starts.
- `Gache.Cache.DeleteExpired`: the source counts evictions in a `uint64`.
  The model returns a `nat`, which cannot reach 2^64 entries.
- `Gache.Cache.Len`: Go's `int` is taken to be 64 bits wide. On a 32-bit
  platform the reinterpretation at gache.go:311 would read only part of the
  counter, which the model does not capture.
- `Gache.Cache.New`: the zero value of `V` is a constructor parameter,
  because Dafny has no zero value for an arbitrary type.
