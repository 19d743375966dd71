/**
  The per-peer token bucket that guards the request/response protocols. Times are
  in seconds and, like the token count, real numbers.
 */
module RateLimit {
  import opened Common

  datatype Bucket = Bucket(tokens: real, last: real)

  /** A bucket's size and what it earns between two moments. */
  datatype Meter = Meter(capacity: real, earn: (real, real) -> real)

  function PowerOfTwo(n: nat): (r: real)
    ensures r > 0.0
  {
    if n == 0 then 1.0 else 2.0 * PowerOfTwo(n - 1)
  }

  /** The smallest positive normal double. */
  const MIN_POSITIVE: real := 1.0 / PowerOfTwo(1022)

  function MaxReal(a: real, b: real): real {
    if a < b then b else a
  }

  function MinReal(a: real, b: real): real {
    if a < b then a else b
  }

  /** A steady refill; a clock that stepped back earns nothing. */
  function SteadyMeter(capacity: real, refillPerSec: real): Meter {
    Meter(capacity, (from, to) => MaxReal(to - from, 0.0) * refillPerSec)
  }

  /** Tokens on hand when a request arrives; a new peer starts full. */
  function Refilled(m: Meter, bucket: Option<Bucket>, now: real): real {
    match bucket
    case None => m.capacity
    case Some(b) => MinReal(b.tokens + m.earn(b.last, now), m.capacity)
  }

  /** The bucket after a request at `now`. */
  function Charged(m: Meter, bucket: Option<Bucket>, now: real): Bucket {
    var tokens := Refilled(m, bucket, now);
    Bucket(if tokens >= 1.0 then tokens - 1.0 else tokens, now)
  }

  function BucketOf(buckets: map<Peer, Bucket>, peer: Peer): Option<Bucket> {
    if peer in buckets then Some(buckets[peer]) else None
  }

  class RateLimiter {
    const capacity: real
    const refillPerSec: real
    var buckets: map<Peer, Bucket>

    constructor (capacity: nat, periodSecs: real)
      ensures this.capacity == (if capacity < 1 then 1 else capacity) as real
      ensures refillPerSec * MaxReal(periodSecs, 1.0 / PowerOfTwo(1022)) == this.capacity && refillPerSec > 0.0
      ensures buckets == map[]
    {
      var cap := (if capacity < 1 then 1 else capacity) as real;
      assert MIN_POSITIVE > 0.0;
      this.capacity := cap;
      refillPerSec := cap / MaxReal(periodSecs, MIN_POSITIVE);
      buckets := map[];
    }

    method Allow(peer: Peer, now: real) returns (allowed: bool)
      modifies this
      ensures var m, bucket := SteadyMeter(capacity, refillPerSec), BucketOf(old(buckets), peer);
        && allowed == (Refilled(m, bucket, now) >= 1.0)
        && buckets == old(buckets)[peer := Charged(m, bucket, now)]
    {
      if peer !in buckets {
        buckets := buckets[peer := Bucket(capacity, now)];
      }
      var bucket := buckets[peer];
      var elapsed := MaxReal(now - bucket.last, 0.0);
      assert elapsed * refillPerSec == SteadyMeter(capacity, refillPerSec).earn(bucket.last, now);
      assert peer !in old(buckets) ==> elapsed == 0.0 && 0.0 * refillPerSec == 0.0;
      var tokens := MinReal(bucket.tokens + elapsed * refillPerSec, capacity);
      assert tokens == Refilled(SteadyMeter(capacity, refillPerSec), BucketOf(old(buckets), peer), now);
      if tokens >= 1.0 {
        buckets := buckets[peer := Bucket(tokens - 1.0, now)];
        return true;
      } else {
        buckets := buckets[peer := Bucket(tokens, now)];
        return false;
      }
    }
  }

  // ----- One peer's requests

  /** The bucket after the first n requests. */
  function After(m: Meter, times: seq<real>, n: nat): Option<Bucket>
    requires n <= |times|
  {
    if n == 0 then None else Some(Charged(m, After(m, times, n - 1), times[n - 1]))
  }

  function OnHand(m: Meter, times: seq<real>, n: nat): real
    requires n < |times|
  {
    Refilled(m, After(m, times, n), times[n])
  }

  predicate Allowed(m: Meter, times: seq<real>, n: nat)
    requires n < |times|
  {
    OnHand(m, times, n) >= 1.0
  }

  /** How many of the requests j, ..., n - 1 were allowed. */
  function Granted(m: Meter, times: seq<real>, j: nat, n: nat): nat
    requires n <= |times|
    decreases n
  {
    if j >= n then 0 else Granted(m, times, j, n - 1) + (if Allowed(m, times, n - 1) then 1 else 0)
  }

  /** The tokens earned from request j to request n, request by request. */
  function Earned(m: Meter, times: seq<real>, j: nat, n: nat): real
    requires n < |times|
    decreases n
  {
    if j >= n then 0.0 else Earned(m, times, j, n - 1) + m.earn(times[n - 1], times[n])
  }

  /** The tokens on hand are the least that any window leaves: at most each ... */
  lemma {:induction false} OnHandAtMost(m: Meter, times: seq<real>, j: nat, n: nat)
    requires j <= n < |times|
    ensures OnHand(m, times, n) <= m.capacity + Earned(m, times, j, n) - Granted(m, times, j, n) as real
  {
    if j < n {
      OnHandAtMost(m, times, j, n - 1);
    }
  }

  /** ... and equal to one of them. */
  lemma {:induction false} OnHandReached(m: Meter, times: seq<real>, n: nat) returns (j: nat)
    requires n < |times|
    ensures j <= n && OnHand(m, times, n) == m.capacity + Earned(m, times, j, n) - Granted(m, times, j, n) as real
  {
    if n == 0 || OnHand(m, times, n) == m.capacity {
      j := n;
    } else {
      j := OnHandReached(m, times, n - 1);
    }
  }

  /** Request n fits the window that starts with request j: the burst and what was
      earned since j cover it and everything allowed since j. */
  ghost predicate Fits(m: Meter, times: seq<real>, j: nat, n: nat)
    requires n < |times|
  {
    Granted(m, times, j, n) as real + 1.0 <= m.capacity + Earned(m, times, j, n)
  }

  /** A request is allowed exactly when it fits the window of itself and of every
      earlier request of the peer, whatever the clock does. */
  lemma AllowedExactly(m: Meter, times: seq<real>, n: nat)
    requires n < |times|
    ensures Allowed(m, times, n) <==> forall j :: 0 <= j <= n ==> Fits(m, times, j, n)
  {
    forall j | 0 <= j <= n ensures Allowed(m, times, n) ==> Fits(m, times, j, n) {
      OnHandAtMost(m, times, j, n);
    }
    var j := OnHandReached(m, times, n);
    assert Fits(m, times, j, n) ==> Allowed(m, times, n);
  }

  ghost predicate Nondecreasing(times: seq<real>) {
    forall i, j :: 0 <= i <= j < |times| ==> times[i] <= times[j]
  }

  lemma EarnsInProportion(capacity: real, refillPerSec: real, a: real, b: real)
    requires a <= b
    ensures SteadyMeter(capacity, refillPerSec).earn(a, b) == (b - a) * refillPerSec
  {
  }

  lemma Distributes(a: real, b: real, c: real, r: real)
    ensures (b - a) * r + (c - b) * r == (c - a) * r
  {
    var x, y := b - a, c - b;
    assert x * r + y * r == (x + y) * r;
  }

  /** On a clock that never runs back, a steady refill earns rate times duration. */
  lemma {:induction false} SteadyEarned(capacity: real, refillPerSec: real, times: seq<real>, j: nat, n: nat)
    requires Nondecreasing(times) && j <= n < |times|
    ensures Earned(SteadyMeter(capacity, refillPerSec), times, j, n) == (times[n] - times[j]) * refillPerSec
  {
    if j < n {
      SteadyEarned(capacity, refillPerSec, times, j, n - 1);
      EarnsInProportion(capacity, refillPerSec, times[n - 1], times[n]);
      Distributes(times[j], times[n - 1], times[n], refillPerSec);
    }
  }

  /** No window ever exceeds the burst plus what is earned over its length. */
  lemma {:induction false} WindowBound(m: Meter, times: seq<real>, j: nat, n: nat)
    requires j <= n < |times| && m.capacity >= 0.0 && forall a, b :: m.earn(a, b) >= 0.0
    ensures Granted(m, times, j, n + 1) as real <= m.capacity + Earned(m, times, j, n)
  {
    if Allowed(m, times, n) {
      AllowedExactly(m, times, n);
      assert Fits(m, times, j, n);
    } else if j < n {
      WindowBound(m, times, j, n - 1);
    }
  }

  // ----- All peers

  datatype Request = Request(peer: Peer, at: real)

  /** The limiter's buckets after serving the requests in turn. */
  function Served(m: Meter, requests: seq<Request>): map<Peer, Bucket> {
    if requests == [] then map[]
    else
      var n := |requests| - 1;
      var before, r := Served(m, requests[..n]), requests[n];
      before[r.peer := Charged(m, BucketOf(before, r.peer), r.at)]
  }

  function TimesOf(requests: seq<Request>, peer: Peer): seq<real> {
    if requests == [] then []
    else
      var n := |requests| - 1;
      if requests[n].peer == peer then TimesOf(requests[..n], peer) + [requests[n].at]
      else TimesOf(requests[..n], peer)
  }

  lemma {:induction false} AfterIgnoresLater(m: Meter, times: seq<real>, t: real, n: nat)
    requires n <= |times|
    ensures After(m, times + [t], n) == After(m, times, n)
  {
    if n > 0 {
      AfterIgnoresLater(m, times, t, n - 1);
    }
  }

  /** A peer's bucket depends on that peer's requests only. */
  lemma {:induction false} BucketsAreSeparate(m: Meter, requests: seq<Request>, peer: Peer)
    ensures BucketOf(Served(m, requests), peer)
            == After(m, TimesOf(requests, peer), |TimesOf(requests, peer)|)
  {
    if requests != [] {
      var n := |requests| - 1;
      var own := TimesOf(requests[..n], peer);
      BucketsAreSeparate(m, requests[..n], peer);
      if requests[n].peer == peer {
        AfterIgnoresLater(m, own, requests[n].at, |own|);
      }
    }
  }

  /** The window of a steady refill: capacity + refill * (t_n - t_j). */
  ghost predicate FitsSteady(capacity: real, refillPerSec: real, times: seq<real>, j: nat, n: nat)
    requires j <= n < |times|
  {
    var granted := Granted(SteadyMeter(capacity, refillPerSec), times, j, n);
    granted as real + 1.0 <= capacity + (times[n] - times[j]) * refillPerSec
  }

  lemma WindowByEarned(m: Meter, times: seq<real>, j: nat, n: nat, earned: real)
    requires n < |times| && Earned(m, times, j, n) == earned
    ensures Fits(m, times, j, n) <==> Granted(m, times, j, n) as real + 1.0 <= m.capacity + earned
  {
  }

  lemma SteadyWindow(capacity: real, refillPerSec: real, times: seq<real>, j: nat, n: nat)
    requires Nondecreasing(times) && j <= n < |times|
    ensures FitsSteady(capacity, refillPerSec, times, j, n)
            <==> Fits(SteadyMeter(capacity, refillPerSec), times, j, n)
  {
    SteadyEarned(capacity, refillPerSec, times, j, n);
    WindowByEarned(SteadyMeter(capacity, refillPerSec), times, j, n, (times[n] - times[j]) * refillPerSec);
  }

  /** Whatever other peers did, the next request of a peer is allowed exactly when,
      for it and every earlier request j of that peer, the number allowed since j
      plus one is at most capacity + refill * (now - t_j). */
  lemma NextRequest(capacity: real, refillPerSec: real, requests: seq<Request>, peer: Peer, now: real)
    requires Nondecreasing(TimesOf(requests, peer) + [now])
    ensures var m, times := SteadyMeter(capacity, refillPerSec), TimesOf(requests, peer) + [now];
      var n := |times| - 1;
      Refilled(m, BucketOf(Served(m, requests), peer), now) >= 1.0
      <==> forall j :: 0 <= j <= n ==> FitsSteady(capacity, refillPerSec, times, j, n)
  {
    var m, own := SteadyMeter(capacity, refillPerSec), TimesOf(requests, peer);
    var times, n := own + [now], |own|;
    BucketsAreSeparate(m, requests, peer);
    AfterIgnoresLater(m, own, now, n);
    AllowedExactly(m, times, n);
    forall j | 0 <= j <= n
      ensures FitsSteady(capacity, refillPerSec, times, j, n) <==> Fits(m, times, j, n)
    {
      SteadyWindow(capacity, refillPerSec, times, j, n);
    }
  }

  lemma NonNegativeProduct(a: real, b: real)
    requires a >= 0.0 && b >= 0.0
    ensures a * b >= 0.0
  {
  }

  lemma EarnsNothingNegative(capacity: real, refillPerSec: real)
    requires refillPerSec >= 0.0
    ensures forall a, b :: SteadyMeter(capacity, refillPerSec).earn(a, b) >= 0.0
  {
    forall a, b ensures SteadyMeter(capacity, refillPerSec).earn(a, b) >= 0.0 {
      NonNegativeProduct(MaxReal(b - a, 0.0), refillPerSec);
    }
  }

  lemma BoundByEarned(m: Meter, times: seq<real>, j: nat, n: nat, earned: real)
    requires j <= n < |times| && m.capacity >= 0.0 && forall a, b :: m.earn(a, b) >= 0.0
    requires Earned(m, times, j, n) == earned
    ensures Granted(m, times, j, n + 1) as real <= m.capacity + earned
  {
    WindowBound(m, times, j, n);
  }

  /** On a clock that never runs back, no window of a peer gets more than
      capacity + refill * (t_n - t_j). */
  lemma SteadyWindowBound(capacity: real, refillPerSec: real, times: seq<real>, j: nat, n: nat)
    requires Nondecreasing(times) && j <= n < |times| && capacity >= 0.0 && refillPerSec >= 0.0
    ensures Granted(SteadyMeter(capacity, refillPerSec), times, j, n + 1) as real
            <= capacity + (times[n] - times[j]) * refillPerSec
  {
    EarnsNothingNegative(capacity, refillPerSec);
    SteadyEarned(capacity, refillPerSec, times, j, n);
    BoundByEarned(SteadyMeter(capacity, refillPerSec), times, j, n, (times[n] - times[j]) * refillPerSec);
  }

  ghost predicate NeverRefused(m: Meter, times: seq<real>) {
    forall n :: 0 <= n < |times| ==> Allowed(m, times, n)
  }

  /** Every window of requests is within burst and refill. */
  ghost predicate Conforms(capacity: real, refillPerSec: real, times: seq<real>) {
    forall j, n :: 0 <= j <= n < |times| ==> FitsWindow(capacity, refillPerSec, times, j, n)
  }

  ghost predicate FitsWindow(capacity: real, refillPerSec: real, times: seq<real>, j: nat, n: nat)
    requires j <= n < |times|
  {
    (n - j + 1) as real <= capacity + (times[n] - times[j]) * refillPerSec
  }

  lemma {:induction false} GrantedCounts(m: Meter, times: seq<real>, j: nat, n: nat)
    requires j <= n <= |times|
    ensures Granted(m, times, j, n) <= n - j
    ensures (forall i :: 0 <= i < n ==> Allowed(m, times, i)) ==> Granted(m, times, j, n) == n - j
  {
    if j < n {
      GrantedCounts(m, times, j, n - 1);
    }
  }

  lemma WindowOfGranted(capacity: real, refillPerSec: real, times: seq<real>, j: nat, n: nat)
    requires Nondecreasing(times) && j <= n < |times|
    ensures var m := SteadyMeter(capacity, refillPerSec);
      && (FitsWindow(capacity, refillPerSec, times, j, n) ==> Fits(m, times, j, n))
      && (Fits(m, times, j, n) && Granted(m, times, j, n) == n - j ==> FitsWindow(capacity, refillPerSec, times, j, n))
  {
    SteadyWindow(capacity, refillPerSec, times, j, n);
    GrantedCounts(SteadyMeter(capacity, refillPerSec), times, j, n);
  }

  /** A peer is never refused exactly when every window of its requests, refused or
      not, fits capacity + refill * (t_n - t_j). */
  lemma NeverRefusedExactly(capacity: real, refillPerSec: real, times: seq<real>)
    requires Nondecreasing(times)
    ensures NeverRefused(SteadyMeter(capacity, refillPerSec), times) <==> Conforms(capacity, refillPerSec, times)
  {
    var m := SteadyMeter(capacity, refillPerSec);
    if NeverRefused(m, times) {
      forall j, n | 0 <= j <= n < |times| ensures FitsWindow(capacity, refillPerSec, times, j, n) {
        GrantedCounts(m, times, j, n);
        assert Allowed(m, times, n);
        AllowedExactly(m, times, n);
        assert Fits(m, times, j, n);
        WindowOfGranted(capacity, refillPerSec, times, j, n);
      }
    }
    if Conforms(capacity, refillPerSec, times) {
      forall n | 0 <= n < |times| ensures Allowed(m, times, n) {
        forall j | 0 <= j <= n ensures Fits(m, times, j, n) {
          assert FitsWindow(capacity, refillPerSec, times, j, n);
          WindowOfGranted(capacity, refillPerSec, times, j, n);
        }
        AllowedExactly(m, times, n);
      }
    }
  }
}
