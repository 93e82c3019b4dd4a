/**
 A cached entry (`value` in the source): the stored value with an absolute
 expiry instant in nanoseconds, the validity rule every read path applies,
 and the TTL arithmetic `set` performs before storing.
 */
module Entry {
  import opened Word

  /** `time.Second`, in nanoseconds. */
  const Second: i64 := 1_000_000_000

  /** The TTL sentinel that disables expiry. */
  const NoTTL: i64 := -1

  /** The TTL `New` installs before any option runs: thirty seconds. */
  const DefaultExpire: i64 := 30 * Second

  datatype Value<V> = Value(expire: i64, val: V)

  /**
   An entry is valid if it never expires (a non-positive instant) or its
   instant is not yet past; it has expired only once `now` is strictly after
   a positive instant.
   */
  predicate IsValid<V>(v: Value<V>, now: i64): (valid: bool)
    ensures v.expire <= 0 ==> valid
    ensures 0 < v.expire && now <= v.expire ==> valid
    ensures 0 < v.expire < now ==> !valid
  {
    v.expire <= 0 || now <= v.expire
  }

  /**
   The expiry instant `set` stores for a TTL given at time `now`: a positive
   TTL is added to the clock with `int64` wrap-around; zero, `NoTTL` and
   every other non-positive TTL is stored as it is.
   */
  function ExpireAt(now: i64, ttl: i64): (r: i64)
    ensures ttl <= 0 ==> r == ttl
    ensures ttl > 0 && now + ttl < TWO_63 ==> r == now + ttl && r > now
    ensures ttl > 0 && now + ttl >= TWO_63 ==> r == now + ttl - TWO_64 && r < 0
  {
    if ttl > 0 then WrapI64(now + ttl) else ttl
  }

  /** Validity only ends: an entry valid now was valid at every earlier time. */
  lemma ValidEarlier<V>(v: Value<V>, earlier: i64, now: i64)
    requires earlier <= now && IsValid(v, now)
    ensures IsValid(v, earlier)
  {
  }

  /** An entry stored with a non-positive TTL is valid at every instant. */
  lemma NonPositiveTTLNeverExpires<V>(now: i64, ttl: i64, x: V, later: i64)
    requires ttl <= 0
    ensures IsValid(Value(ExpireAt(now, ttl), x), later)
  {
  }

  /**
   An entry stored with a positive TTL whose deadline is a positive `int64`
   is valid exactly up to and including `now + ttl`. (A deadline at or
   before the epoch would read as "never expires".)
   */
  lemma PositiveTTLLifetime<V>(now: i64, ttl: i64, x: V, later: i64)
    requires ttl > 0 && 0 < now + ttl < TWO_63
    ensures IsValid(Value(ExpireAt(now, ttl), x), later) <==> later <= now + ttl
  {
  }

  /**
   A positive TTL so large that `now + ttl` overflows wraps to a negative
   instant, which the validity rule reads as "never expires".
   */
  lemma OverflowingTTLNeverExpires<V>(now: i64, ttl: i64, x: V, later: i64)
    requires ttl > 0 && now + ttl >= TWO_63
    ensures IsValid(Value(ExpireAt(now, ttl), x), later)
  {
  }
}
