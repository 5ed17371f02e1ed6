/**
 * The in-memory rate limiter of the API routes (src/lib/rate-limit.ts): a table of
 * per-key counters with a fixed window each, and the client key taken from the
 * `x-forwarded-for` header. The clock reading `Date.now()` is passed in as `now`.
 */
module RateLimit {
  import opened Options
  import opened ForwardedFor

  /** A key's counter: requests seen in the current window and the window's last instant. */
  datatype Entry = Entry(count: int, resetAt: int)

  /** The call options; the defaults are 5 requests per 60 000 ms. */
  datatype Limits = Limits(maxRequests: int, windowMs: int)

  const DefaultLimits: Limits := Limits(5, 60_000)

  datatype Decision = Decision(allowed: bool, remaining: int)

  /** A call opens a new window for an unseen key, or once `now` is past the old window. */
  predicate OpensWindow(hits: map<string, Entry>, key: string, now: int)
  {
    key !in hits || now > hits[key].resetAt
  }

  function MaxZero(x: int): (r: int)
    ensures r >= 0 && r >= x
    ensures r == x || r == 0
  {
    if x > 0 then x else 0
  }

  /**
   * One `rateLimit` call as a transition of the table. Opening a window stores count 1
   * until `now + windowMs` and allows with `maxRequests - 1` remaining; otherwise the count
   * grows by one, the call is allowed while the count stays within `maxRequests`, and the
   * remaining allowance never drops below 0. No other key's entry changes.
   */
  function Step(hits: map<string, Entry>, key: string, now: int, limits: Limits): (r: (map<string, Entry>, Decision))
    ensures key in r.0
    ensures forall k :: k != key ==> (k in r.0 <==> k in hits)
    ensures forall k :: k != key && k in hits ==> r.0[k] == hits[k]
    ensures OpensWindow(hits, key, now) ==>
      r.0[key] == Entry(1, now + limits.windowMs) && r.1 == Decision(true, limits.maxRequests - 1)
    ensures !OpensWindow(hits, key, now) ==>
      && r.0[key].count == hits[key].count + 1
      && r.0[key].resetAt == hits[key].resetAt
      && (r.1.allowed <==> r.0[key].count <= limits.maxRequests)
      && r.1.remaining == MaxZero(limits.maxRequests - r.0[key].count)
  {
    if OpensWindow(hits, key, now) then
      (hits[key := Entry(1, now + limits.windowMs)], Decision(true, limits.maxRequests - 1))
    else
      var count := hits[key].count + 1;
      (hits[key := Entry(count, hits[key].resetAt)], Decision(count <= limits.maxRequests, MaxZero(limits.maxRequests - count)))
  }

  /** The table after a series of calls for one key, and the decisions in call order. */
  function Run(hits: map<string, Entry>, key: string, nows: seq<int>, limits: Limits): (r: (map<string, Entry>, seq<Decision>))
    ensures |r.1| == |nows|
    ensures key in hits || |nows| > 0 ==> key in r.0
    decreases |nows|
  {
    if |nows| == 0 then (hits, [])
    else
      var first := Step(hits, key, nows[0], limits);
      var rest := Run(first.0, key, nows[1..], limits);
      (rest.0, [first.1] + rest.1)
  }

  /**
   * Within one window: after a call at `start` opened it, every call up to `start + windowMs`
   * (inclusive: the window is closed at `resetAt`) lands in the same window. The k-th call
   * (from 0) is allowed exactly when it is the first or the count k+1 stays within
   * `maxRequests`, and the entry ends with one count per call.
   */
  lemma {:induction false} WindowAdmitsAtMostMax(hits: map<string, Entry>, key: string, start: int, nows: seq<int>, limits: Limits)
    requires OpensWindow(hits, key, start)
    requires forall i :: 0 <= i < |nows| ==> nows[i] <= start + limits.windowMs
    ensures var r := Run(hits, key, [start] + nows, limits);
      && |r.1| == |nows| + 1
      && r.0[key] == Entry(|nows| + 1, start + limits.windowMs)
      && forall k :: 0 <= k < |r.1| ==>
           (r.1[k].allowed <==> k == 0 || k + 1 <= limits.maxRequests)
  {
    var first := Step(hits, key, start, limits);
    assert ([start] + nows)[1..] == nows;
    SameWindow(first.0, key, 1, start + limits.windowMs, nows, limits);
  }

  /** The calls after the first: from count `n` in a window ending at `resetAt`. */
  lemma {:induction false} SameWindow(hits: map<string, Entry>, key: string, n: int, resetAt: int, nows: seq<int>, limits: Limits)
    requires key in hits && hits[key] == Entry(n, resetAt)
    requires forall i :: 0 <= i < |nows| ==> nows[i] <= resetAt
    ensures var r := Run(hits, key, nows, limits);
      && |r.1| == |nows|
      && r.0[key] == Entry(n + |nows|, resetAt)
      && forall k :: 0 <= k < |r.1| ==> (r.1[k].allowed <==> n + k + 1 <= limits.maxRequests)
    decreases |nows|
  {
    if |nows| > 0 {
      var first := Step(hits, key, nows[0], limits);
      SameWindow(first.0, key, n + 1, resetAt, nows[1..], limits);
      var r := Run(hits, key, nows, limits);
      var rest := Run(first.0, key, nows[1..], limits);
      assert r.1 == [first.1] + rest.1;
      forall k | 0 <= k < |r.1| ensures (r.1[k].allowed <==> n + k + 1 <= limits.maxRequests) {
        if k > 0 {
          assert r.1[k] == rest.1[k - 1];
        }
      }
    }
  }

  /** With the defaults, the first five calls of a window pass and the sixth is refused. */
  lemma DefaultWindowAllowsFive(hits: map<string, Entry>, key: string, t: int)
    requires key !in hits
    ensures var r := Run(hits, key, [t, t, t, t, t, t], DefaultLimits);
      && |r.1| == 6
      && (forall k :: 0 <= k < 5 ==> r.1[k].allowed)
      && !r.1[5].allowed
      && r.1[0].remaining == 4 && r.1[5].remaining == 0
  {
    WindowAdmitsAtMostMax(hits, key, t, [t, t, t, t, t], DefaultLimits);
    assert [t] + [t, t, t, t, t] == [t, t, t, t, t, t];
    var r := Run(hits, key, [t, t, t, t, t, t], DefaultLimits);
    var s1 := Step(hits, key, t, DefaultLimits);
    var rest := Run(s1.0, key, [t, t, t, t, t], DefaultLimits);
    assert [t, t, t, t, t, t][1..] == [t, t, t, t, t];
    assert r.1 == [s1.1] + rest.1;
    SameWindowLast(s1.0, key, 1, t + 60_000, [t, t, t, t, t], DefaultLimits);
    assert r.1[5] == rest.1[4];
  }

  /** The remaining allowance of the calls after the first. */
  lemma {:induction false} SameWindowLast(hits: map<string, Entry>, key: string, n: int, resetAt: int, nows: seq<int>, limits: Limits)
    requires key in hits && hits[key] == Entry(n, resetAt)
    requires forall i :: 0 <= i < |nows| ==> nows[i] <= resetAt
    ensures var r := Run(hits, key, nows, limits);
      |r.1| == |nows| && forall k :: 0 <= k < |r.1| ==> r.1[k].remaining == MaxZero(limits.maxRequests - (n + k + 1))
    decreases |nows|
  {
    if |nows| > 0 {
      var first := Step(hits, key, nows[0], limits);
      SameWindowLast(first.0, key, n + 1, resetAt, nows[1..], limits);
      var r := Run(hits, key, nows, limits);
      var rest := Run(first.0, key, nows[1..], limits);
      assert r.1 == [first.1] + rest.1;
      forall k | 0 <= k < |r.1| ensures r.1[k].remaining == MaxZero(limits.maxRequests - (n + k + 1)) {
        if k > 0 {
          assert r.1[k] == rest.1[k - 1];
        }
      }
    }
  }

  /**
   * The window is closed at `resetAt`: a call exactly then still counts in the old window,
   * one millisecond later a fresh window starts and the call is allowed.
   */
  lemma WindowClosedAtReset(hits: map<string, Entry>, key: string, limits: Limits)
    requires key in hits
    ensures Step(hits, key, hits[key].resetAt, limits).0[key].count == hits[key].count + 1
    ensures Step(hits, key, hits[key].resetAt + 1, limits).0[key] == Entry(1, hits[key].resetAt + 1 + limits.windowMs)
    ensures Step(hits, key, hits[key].resetAt + 1, limits).1.allowed
  {
  }

  /** A `maxRequests` of 0 still lets the first call of each window through, reporting -1 remaining. */
  lemma ZeroLimitStillAdmitsFirst(key: string, now: int, windowMs: int)
    requires windowMs >= 0
    ensures Step(map[], key, now, Limits(0, windowMs)).1 == Decision(true, -1)
    ensures !Step(Step(map[], key, now, Limits(0, windowMs)).0, key, now, Limits(0, windowMs)).1.allowed
  {
  }

  /** The module-level `hits` table and the `rateLimit` operation on it. */
  class RateLimiter {
    var hits: map<string, Entry>

    constructor()
      ensures hits == map[]
    {
      hits := map[];
    }

    /** `rateLimit(key, limits)` at time `now`. */
    method Hit(key: string, now: int, limits: Limits) returns (d: Decision)
      modifies this
      ensures (hits, d) == Step(old(hits), key, now, limits)
      ensures forall k :: k != key && k in old(hits) ==> k in hits && hits[k] == old(hits)[k]
    {
      if key !in hits || now > hits[key].resetAt {
        hits := hits[key := Entry(1, now + limits.windowMs)];
        return Decision(true, limits.maxRequests - 1);
      }
      var entry := hits[key];
      var count := entry.count + 1;
      hits := hits[key := Entry(count, entry.resetAt)];
      var remaining := if limits.maxRequests - count > 0 then limits.maxRequests - count else 0;
      d := Decision(count <= limits.maxRequests, remaining);
    }

    /** `rateLimitByIp`: the same call keyed by the client address from `x-forwarded-for`. */
    method HitByIp(forwardedFor: Option<string>, now: int, limits: Limits) returns (d: Decision)
      modifies this
      ensures (hits, d) == Step(old(hits), ClientKey(forwardedFor), now, limits)
    {
      d := Hit(ClientKey(forwardedFor), now, limits);
    }
  }
}
