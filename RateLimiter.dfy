/**
 * backend/app/utils/rate_limiter.py: a fixed-window request counter per
 * client address. `int(time.time())` is the parameter `now`; the lock is
 * left out because calls are taken one at a time.
 */
module RateLimiter {
  import opened Wrappers
  import opened Http

  const WINDOW_SECONDS: int := 60

  /** `now - (now % 60)`; Python's `%` with a positive divisor never goes negative, as Dafny's does not. */
  function WindowStart(now: int): (ws: int)
    ensures ws % WINDOW_SECONDS == 0
    ensures ws <= now < ws + WINDOW_SECONDS
  {
    now - now % WINDOW_SECONDS
  }

  /** `ip_to_window`: address to (count, window start). */
  type Table = map<string, (int, int)>

  /** The count `ip` continues from at `now`: the stored one if it is for this window, else 0. */
  function Current(table: Table, ip: string, now: int): (c: int)
    ensures ip in table && table[ip].1 == WindowStart(now) ==> c == table[ip].0
    ensures !(ip in table && table[ip].1 == WindowStart(now)) ==> c == 0
  {
    var ws := WindowStart(now);
    var entry := if ip in table then table[ip] else (0, ws);
    if entry.1 != ws then 0 else entry.0
  }

  /** One `allow(ip)` call: the answer and the new table. */
  function Decide(table: Table, ip: string, now: int, maxRequests: int): (r: (bool, Table))
    ensures r.0 <==> Current(table, ip, now) < maxRequests
    ensures !r.0 ==> r.1 == table
    ensures r.0 ==> r.1 == table[ip := (Current(table, ip, now) + 1, WindowStart(now))]
  {
    var count := Current(table, ip, now);
    if count >= maxRequests then (false, table)
    else (true, table[ip := (count + 1, WindowStart(now))])
  }

  /** Every stored count is between 1 and the limit, and every stored start is on a window boundary. */
  predicate Bounded(table: Table, maxRequests: int)
  {
    forall ip :: ip in table ==> 1 <= table[ip].0 <= maxRequests && table[ip].1 % WINDOW_SECONDS == 0
  }

  /** A call keeps the table bounded and touches no other address. */
  lemma DecideKeepsBounded(table: Table, ip: string, now: int, maxRequests: int)
    requires Bounded(table, maxRequests)
    ensures Bounded(Decide(table, ip, now, maxRequests).1, maxRequests)
    ensures forall other :: other != ip ==>
              (other in Decide(table, ip, now, maxRequests).1 <==> other in table) &&
              (other in table ==> Decide(table, ip, now, maxRequests).1[other] == table[other])
  {
  }

  /** With a limit of 0 (or less) a bounded table is empty and every call is denied. */
  lemma ZeroLimitDeniesAll(table: Table, ip: string, now: int, maxRequests: int)
    requires maxRequests <= 0 && Bounded(table, maxRequests)
    ensures table == map[]
    ensures !Decide(table, ip, now, maxRequests).0
  {
    assert forall k :: k !in table;
  }

  /** What `ip` has used of window `w`. */
  function Used(table: Table, ip: string, w: int): int
  {
    if ip in table && table[ip].1 == w then table[ip].0 else 0
  }

  /** A series of calls `(ip, now)`: the answers and the final table. */
  function Run(table: Table, calls: seq<(string, int)>, maxRequests: int): (r: (seq<bool>, Table))
    ensures |r.0| == |calls|
    decreases |calls|
  {
    if |calls| == 0 then ([], table)
    else
      var step := Decide(table, calls[0].0, calls[0].1, maxRequests);
      var rest := Run(step.1, calls[1..], maxRequests);
      ([step.0] + rest.0, rest.1)
  }

  /** How many of the answers to `ip`'s calls were yes. */
  function AllowedFor(ip: string, calls: seq<(string, int)>, answers: seq<bool>): nat
    requires |answers| == |calls|
  {
    if |calls| == 0 then 0
    else (if calls[0].0 == ip && answers[0] then 1 else 0) + AllowedFor(ip, calls[1..], answers[1..])
  }

  /**
   * Within one window every yes to `ip` is counted in the table, so if any
   * of `ip`'s calls is allowed, what it had already used plus the calls
   * allowed stays within the limit.
   */
  lemma {:induction false} WindowCap(table: Table, calls: seq<(string, int)>, maxRequests: int, ip: string, w: int)
    requires Bounded(table, maxRequests)
    requires forall i :: 0 <= i < |calls| ==> WindowStart(calls[i].1) == w
    ensures var r := Run(table, calls, maxRequests);
      Bounded(r.1, maxRequests) &&
      Used(r.1, ip, w) == Used(table, ip, w) + AllowedFor(ip, calls, r.0)
    ensures var n := AllowedFor(ip, calls, Run(table, calls, maxRequests).0);
      n == 0 || Used(table, ip, w) + n <= maxRequests
    decreases |calls|
  {
    if |calls| > 0 {
      var step := Decide(table, calls[0].0, calls[0].1, maxRequests);
      DecideKeepsBounded(table, calls[0].0, calls[0].1, maxRequests);
      WindowCap(step.1, calls[1..], maxRequests, ip, w);
      var r := Run(table, calls, maxRequests);
      var rest := Run(step.1, calls[1..], maxRequests);
      assert r.0[1..] == rest.0;
      assert Used(step.1, ip, w) == Used(table, ip, w) + (if calls[0].0 == ip && step.0 then 1 else 0);
      var fin := rest.1;
      if ip in fin && fin[ip].1 == w {
        assert fin[ip].0 <= maxRequests;
      }
    }
  }

  /** `InMemoryRateLimiter`. */
  class InMemoryRateLimiter {
    const maxRequests: int
    const windowSeconds: int
    var ipToWindow: Table

    predicate Valid()
      reads this
    {
      windowSeconds == WINDOW_SECONDS && Bounded(ipToWindow, maxRequests)
    }

    constructor(maxRequestsPerMinute: int)
      ensures Valid()
      ensures maxRequests == maxRequestsPerMinute && ipToWindow == map[]
    {
      maxRequests := maxRequestsPerMinute;
      windowSeconds := 60;
      ipToWindow := map[];
    }

    /** `allow(ip)` at time `now`. */
    method Allow(ip: string, now: int) returns (allowed: bool)
      requires Valid()
      modifies this
      ensures Valid()
      ensures (allowed, ipToWindow) == Decide(old(ipToWindow), ip, now, maxRequests)
    {
      var windowStart := now - (now % windowSeconds);
      var entry := if ip in ipToWindow then ipToWindow[ip] else (0, windowStart);
      var count, start := entry.0, entry.1;
      if start != windowStart {
        count, start := 0, windowStart;
      }
      if count >= maxRequests {
        return false;
      }
      DecideKeepsBounded(ipToWindow, ip, now, maxRequests);
      ipToWindow := ipToWindow[ip := (count + 1, start)];
      return true;
    }
  }

  const RATE_LIMIT_DETAIL: string := "Rate limit exceeded. Please try again later."

  /** `rate_limit(request)`: the client's address, or `"unknown"` without one; 429 exactly when the limiter says no. */
  method RateLimit(limiter: InMemoryRateLimiter, client: Option<string>, now: int) returns (err: Option<HttpError>)
    requires limiter.Valid()
    modifies limiter
    ensures limiter.Valid()
    ensures var ip := if client.Some? then client.value else "unknown";
      var d := Decide(old(limiter.ipToWindow), ip, now, limiter.maxRequests);
      limiter.ipToWindow == d.1 && (err.Some? <==> !d.0) &&
      (err.Some? ==> err.value == HttpError(429, RATE_LIMIT_DETAIL))
  {
    var clientIp := if client.Some? then client.value else "unknown";
    var allowed := limiter.Allow(clientIp, now);
    if !allowed {
      return Some(HttpError(429, RATE_LIMIT_DETAIL));
    }
    return None;
  }
}
