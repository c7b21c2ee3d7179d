/** The token bucket of src/relay/rateLimit.ts: tokens refill continuously at
    `perSec` per second up to `burst`, and a request takes `count` tokens if
    that many are there. Times are milliseconds; the token count and the rates
    are JavaScript numbers, modelled as exact reals. */
module RateLimit {

  datatype Bucket = Bucket(perSec: real, burst: real, tokens: real, lastRefill: int)

  /** `new TokenBucket(perSec, burst)` at clock reading `now`: a full bucket. */
  function Fresh(perSec: real, burst: real, now: int): (b: Bucket)
    ensures b.tokens == b.burst == burst && b.perSec == perSec && b.lastRefill == now
  {
    Bucket(perSec, burst, burst, now)
  }

  /** Seconds elapsed since the last refill; negative for a clock that went back. */
  function Elapsed(b: Bucket, now: int): real {
    (now - b.lastRefill) as real / 1000.0
  }

  function Min(x: real, y: real): real {
    if x <= y then x else y
  }

  /** `refill(now)`. */
  function Refilled(b: Bucket, now: int): Bucket {
    var elapsed := Elapsed(b, now);
    if elapsed <= 0.0 then b
    else b.(tokens := Min(b.burst, b.tokens + elapsed * b.perSec), lastRefill := now)
  }

  datatype Take = Take(ok: bool, bucket: Bucket)

  /** `tryTake(count, now)`: refill, then take `count` tokens if there are that many. */
  function Taken(b: Bucket, count: real, now: int): Take {
    var r := Refilled(b, now);
    if r.tokens >= count then Take(true, r.(tokens := r.tokens - count))
    else Take(false, r)
  }

  /** The bucket invariant: a non-negative rate and a token count within `0..burst`. */
  predicate Valid(b: Bucket) {
    b.perSec >= 0.0 && 0.0 <= b.tokens <= b.burst
  }

  class TokenBucket {
    const perSec: real
    const burst: real
    var tokens: real
    var lastRefill: int

    function State(): Bucket
      reads this
    {
      Bucket(perSec, burst, tokens, lastRefill)
    }

    constructor (perSec: real, burst: real, now: int)
      ensures State() == Fresh(perSec, burst, now)
    {
      this.perSec := perSec;
      this.burst := burst;
      tokens := burst;
      lastRefill := now;
    }

    method TryTake(count: real, now: int) returns (ok: bool)
      modifies this
      ensures Take(ok, State()) == Taken(old(State()), count, now)
    {
      Refill(now);
      if tokens >= count {
        tokens := tokens - count;
        return true;
      }
      return false;
    }

    method Refill(now: int)
      modifies this
      ensures State() == Refilled(old(State()), now)
    {
      var elapsed := (now - lastRefill) as real / 1000.0;
      if elapsed <= 0.0 {
        return;
      }
      var add := elapsed * perSec;
      tokens := Min(burst, tokens + add);
      lastRefill := now;
    }
  }

  // ---------------------------------------------------------------------
  // Properties of the bucket
  // ---------------------------------------------------------------------

  /** A fresh bucket with a positive capacity and a non-negative rate is valid and full. */
  lemma FreshIsFull(perSec: real, burst: real, now: int)
    requires perSec >= 0.0 && burst >= 0.0
    ensures Valid(Fresh(perSec, burst, now)) && Fresh(perSec, burst, now).tokens == burst
  {
  }

  /** Refilling keeps the invariant, never loses tokens, and never passes `burst`. */
  lemma RefillBounds(b: Bucket, now: int)
    requires Valid(b)
    ensures Valid(Refilled(b, now))
    ensures b.tokens <= Refilled(b, now).tokens <= b.burst
  {
    var elapsed := Elapsed(b, now);
    if elapsed > 0.0 {
      MulNonNegative(elapsed, b.perSec);
    }
  }

  lemma MulNonNegative(x: real, y: real)
    requires x >= 0.0 && y >= 0.0
    ensures x * y >= 0.0
  {
  }

  /** The refill adds the elapsed seconds times the rate, up to the capacity,
      and moves the refill time forward to `now`. */
  lemma RefillAddsElapsedTimesRate(b: Bucket, now: int)
    requires Valid(b) && now > b.lastRefill
    ensures var r := Refilled(b, now);
      r.lastRefill == now && r.burst == b.burst && r.perSec == b.perSec
      && (r.tokens == b.burst || r.tokens == b.tokens + (now - b.lastRefill) as real / 1000.0 * b.perSec)
      && r.tokens <= b.tokens + (now - b.lastRefill) as real / 1000.0 * b.perSec
  {
  }

  /** A clock that stands still or went back refills nothing and leaves the
      refill time where it was. */
  lemma BackwardsClockGainsNothing(b: Bucket, now: int)
    requires now <= b.lastRefill
    ensures Refilled(b, now) == b
  {
  }

  /** A take succeeds exactly when the refilled bucket holds `count` tokens; it
      then removes exactly `count`, and otherwise leaves the refilled count. */
  lemma TakeIffEnough(b: Bucket, count: real, now: int)
    ensures var t := Taken(b, count, now);
      (t.ok <==> Refilled(b, now).tokens >= count)
      && t.bucket.tokens == (if t.ok then Refilled(b, now).tokens - count else Refilled(b, now).tokens)
      && t.bucket.lastRefill == Refilled(b, now).lastRefill
  {
  }

  /** For a non-negative count the invariant `0 <= tokens <= burst` is kept. */
  lemma TakeKeepsValid(b: Bucket, count: real, now: int)
    requires Valid(b) && count >= 0.0
    ensures Valid(Taken(b, count, now).bucket)
  {
    RefillBounds(b, now);
  }

  /** A negative count is not refused, and pushes the bucket past its capacity. */
  lemma NegativeCountOverfills()
    ensures var t := Taken(Fresh(1.0, 1.0, 0), -1.0, 0);
      t.ok && t.bucket.tokens == 2.0 && !Valid(t.bucket)
  {
  }

  /** The bucket after `n` unit takes at the same instant. */
  function AfterUnits(b: Bucket, n: nat, now: int): Bucket
    decreases n
  {
    if n == 0 then b else Taken(AfterUnits(b, n - 1, now), 1.0, now).bucket
  }

  /** With no time passed, `k` unit takes remove `k` tokens while there are enough. */
  lemma {:induction false} UnitTakesCount(b: Bucket, k: nat, now: int)
    requires now <= b.lastRefill && k as real <= b.tokens
    ensures AfterUnits(b, k, now) == b.(tokens := b.tokens - k as real)
    decreases k
  {
    if k > 0 {
      UnitTakesCount(b, k - 1, now);
    }
  }

  /** A bucket created full with an integer capacity `n` serves exactly `n`
      unit takes at its creation time, and refuses the next one. */
  lemma ExactlyBurstTakes(b: Bucket, perSec: real, n: nat, now: int)
    requires b == Fresh(perSec, n as real, now)
    ensures forall k: nat :: k < n ==> Taken(AfterUnits(b, k, now), 1.0, now).ok
    ensures !Taken(AfterUnits(b, n, now), 1.0, now).ok
  {
    forall k: nat | k < n
      ensures Taken(AfterUnits(b, k, now), 1.0, now).ok
    {
      UnitTakesCount(b, k, now);
    }
    UnitTakesCount(b, n, now);
  }

  /** Capacity 10 at 10 per second: emptied at once, then 150 ms later one
      token is back (1.5 have accrued). */
  lemma ScenarioRefill()
    ensures var t1 := Taken(Fresh(10.0, 10.0, 0), 10.0, 0);
      var t2 := Taken(t1.bucket, 1.0, 0);
      var t3 := Taken(t2.bucket, 1.0, 150);
      t1.ok && !t2.ok && t3.ok && t3.bucket.tokens == 0.5
  {
  }
}
