/**
 Fixed-width integers of the cache: Go's `int64` (timestamps and
 `time.Duration`s in nanoseconds), the `uint64` write counter with its
 wrap-around `atomic.AddUint64`, and the `unsafe` reinterpretation of that
 counter as a signed `int`, taken to be 64 bits wide.
 */
module Word {

  const TWO_63: int := 0x8000_0000_0000_0000
  const TWO_64: int := 0x1_0000_0000_0000_0000

  /** The largest `uint64`; adding it is how the source decrements (`^uint64(0)`). */
  const MAX_U64: int := TWO_64 - 1

  type i64 = x: int | -TWO_63 <= x < TWO_63
  type u64 = x: int | 0 <= x < TWO_64

  /** Two's-complement truncation of a mathematical integer to `int64`. */
  function WrapI64(x: int): (r: i64)
    ensures -TWO_63 <= x < TWO_63 ==> r == x
  {
    var m := x % TWO_64;
    if m < TWO_63 then m else m - TWO_64
  }

  /** Truncation of a mathematical integer to `uint64`. */
  function WrapU64(x: int): (r: u64)
    ensures 0 <= x < TWO_64 ==> r == x
  {
    x % TWO_64
  }

  /** `atomic.AddUint64`: unsigned addition modulo 2^64. */
  function AddU64(a: u64, b: u64): (r: u64)
    ensures r == a + b || r == a + b - TWO_64
  {
    if a + b < TWO_64 then a + b else a + b - TWO_64
  }

  /** The bits of a `uint64` read as a signed 64-bit integer. */
  function AsSigned(x: u64): (r: i64)
    ensures x < TWO_63 ==> r == x
    ensures x >= TWO_63 ==> r == x - TWO_64 && r < 0
  {
    WrapI64(x)
  }

  /** Adding `MAX_U64` undoes adding one, and the other way round. */
  lemma IncDecInverse(a: u64)
    ensures AddU64(AddU64(a, 1), MAX_U64) == a
    ensures AddU64(AddU64(a, MAX_U64), 1) == a
  {
  }

  /** Decrementing a wrapped value wraps the decremented value. */
  lemma {:induction false} DecWrapped(x: int)
    ensures AddU64(WrapU64(x), MAX_U64) == WrapU64(x - 1)
  {
    var q := x / TWO_64;
    assert x == q * TWO_64 + WrapU64(x);
    if WrapU64(x) == 0 {
      assert x - 1 == (q - 1) * TWO_64 + MAX_U64;
    } else {
      assert x - 1 == q * TWO_64 + (WrapU64(x) - 1);
    }
  }

  /** Incrementing a wrapped value wraps the incremented value. */
  lemma {:induction false} IncWrapped(x: int)
    ensures AddU64(WrapU64(x), 1) == WrapU64(x + 1)
  {
    var q := x / TWO_64;
    assert x == q * TWO_64 + WrapU64(x);
    if WrapU64(x) == MAX_U64 {
      assert x + 1 == (q + 1) * TWO_64;
    } else {
      assert x + 1 == q * TWO_64 + (WrapU64(x) + 1);
    }
  }

  /**
   A counter that started at zero and saw `n` net increments reads back, once
   reinterpreted as signed, as exactly `n` whenever `n` fits in an `int64`:
   in particular as a negative number after more decrements than increments.
   */
  lemma {:induction false} SignedCounter(n: int)
    requires -TWO_63 <= n < TWO_63
    ensures AsSigned(WrapU64(n)) == n
  {
    if n < 0 {
      assert n == -1 * TWO_64 + (n + TWO_64);
      assert WrapU64(n) == n + TWO_64;
    }
  }

  /**
   `n` successive decrements of a `uint64` counter (`AddUint64(&x, ^uint64(0))`):
   plain subtraction while the count stays at or above zero, and one borrow
   of 2^64 once it would go below.
   */
  function Dec(x: u64, n: nat): (r: u64)
    ensures n <= x ==> r == x - n
    ensures x < n <= TWO_64 ==> r == x - n + TWO_64
  {
    if n == 0 then x else AddU64(Dec(x, n - 1), MAX_U64)
  }

  /** Decrementing `a` times and then `b` times is decrementing `a + b` times. */
  lemma {:induction false} DecAdd(x: u64, a: nat, b: nat, c: nat)
    requires c == a + b
    ensures Dec(Dec(x, a), b) == Dec(x, c)
  {
    if b > 0 {
      DecAdd(x, a, b - 1, c - 1);
    }
  }

  /** `n` decrements subtract `n` modulo 2^64. */
  lemma {:induction false} DecWrap(x: u64, n: nat)
    ensures Dec(x, n) == WrapU64(x - n)
  {
    if n > 0 {
      DecWrap(x, n - 1);
      DecWrapped(x - (n - 1));
    }
  }

  /**
   `n` successive increments of a `uint64` counter (`AddUint64(&x, 1)`):
   plain addition while the count stays below 2^64, and one wrap to zero
   once it would reach it.
   */
  function Inc(x: u64, n: nat): (r: u64)
    ensures x + n < TWO_64 ==> r == x + n
    ensures TWO_64 <= x + n && n <= TWO_64 ==> r == x + n - TWO_64
  {
    if n == 0 then x else AddU64(Inc(x, n - 1), 1)
  }

  /** One more increment after `n` of them. */
  lemma IncStep(x: u64, n: nat, n': nat)
    requires n' == n + 1
    ensures Inc(x, n') == AddU64(Inc(x, n), 1)
  {
  }

  /** `n` increments add `n` modulo 2^64. */
  lemma {:induction false} IncWrap(x: u64, n: nat)
    ensures Inc(x, n) == WrapU64(x + n)
  {
    if n > 0 {
      IncWrap(x, n - 1);
      IncWrapped(x + (n - 1));
    }
  }

}
