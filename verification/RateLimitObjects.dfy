/** The rate limiter's objects, updated in place, proved to follow the functions of `RateLimit`. */
module RateLimitObjects {
  import opened RateLimit
  import opened Util

  class TokenBucket {
    var capacity: nat
    var tokens: real
    var refillRate: real
    var lastRefill: Time

    ghost function View(): Bucket
      reads this
    {
      Bucket(capacity, tokens, refillRate, lastRefill)
    }

    constructor (capacity: nat, refillRate: real, now: Time)
      ensures View() == NewBucket(capacity, refillRate, now)
    {
      this.capacity := capacity;
      this.tokens := capacity as real;
      this.refillRate := refillRate;
      this.lastRefill := now;
    }

    method Refill(now: Time)
      modifies this`tokens, this`lastRefill
      ensures View() == RateLimit.Refill(old(View()), now)
    {
      var elapsed := if now >= lastRefill then now - lastRefill else 0.0;
      tokens := MinReal(tokens + refillRate * elapsed, capacity as real);
      lastRefill := now;
    }

    method TryConsume(cost: nat, now: Time) returns (ok: bool)
      modifies this`tokens, this`lastRefill
      ensures (View(), ok) == RateLimit.TryConsume(old(View()), Call(cost, now))
    {
      Refill(now);
      if tokens >= cost as real {
        tokens := tokens - cost as real;
        ok := true;
      } else {
        ok := false;
      }
    }
  }

  class RateLimiter {
    var buckets: map<string, TokenBucket>
    const defaultCapacity: nat
    const defaultRefillRate: real

    /** No two keys share a bucket. */
    ghost predicate Valid()
      reads this
    {
      forall k, l :: k in buckets && l in buckets && buckets[k] == buckets[l] ==> k == l
    }

    ghost function View(): map<string, Bucket>
      reads this, buckets.Values
    {
      map k | k in buckets :: buckets[k].View()
    }

    constructor (capacity: nat, refillRate: real)
      ensures Valid() && View() == map[]
      ensures defaultCapacity == capacity && defaultRefillRate == refillRate
    {
      buckets := map[];
      defaultCapacity := capacity;
      defaultRefillRate := refillRate;
    }

    /** `created` is the clock reading of a bucket's constructor, `now` the reading of its refill. */
    method CheckWithCost(key: string, cost: nat, created: Time, now: Time) returns (ok: bool)
      requires Valid()
      modifies this`buckets, buckets.Values
      ensures Valid() && fresh(buckets.Values - old(buckets.Values))
      ensures (View(), ok)
           == CheckKey(old(View()), defaultCapacity, defaultRefillRate, KeyCall(key, cost, created, now))
    {
      hide RateLimit.TryConsume, NewBucket, TokenBucket.View;
      ghost var before := View();
      if key !in buckets {
        var bucket := new TokenBucket(defaultCapacity, defaultRefillRate, created);
        buckets := buckets[key := bucket];
      }
      var bucket := buckets[key];
      assert bucket.View() == Looked(before, defaultCapacity, defaultRefillRate, KeyCall(key, cost, created, now));
      ok := bucket.TryConsume(cost, now);
      assert View() == before[key := bucket.View()];
    }

    method Check(key: string, created: Time, now: Time) returns (ok: bool)
      requires Valid()
      modifies this`buckets, buckets.Values
      ensures Valid() && fresh(buckets.Values - old(buckets.Values))
      ensures (View(), ok)
           == CheckKey(old(View()), defaultCapacity, defaultRefillRate, KeyCall(key, 1, created, now))
    {
      ok := CheckWithCost(key, 1, created, now);
    }
  }
}
