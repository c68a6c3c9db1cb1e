/**
 How the middleware names its callers (`_client_key` and RateLimitMiddleware.dispatch of
 backend/app/core/ratelimit.py), and what the limiter then guarantees to every caller.
 */
module ClientKeys {
  import opened Options
  import opened WindowLog
  import opened MemoryLimiter
  import R = RedisLimiter

  datatype Limits = Limits(authenticated: int, anonymous: int)

  /** A request that reaches the limiter: its authorization header, peer address and arrival time. */
  datatype Request = Request(authorization: string, host: Option<string>, now: real)

  const WINDOW := 60.0
  const BEARER := "Bearer "

  function Slice(s: string, from: nat, to: nat): string
    requires from <= to
  {
    if |s| <= from then "" else if |s| <= to then s[from..] else s[from..to]
  }

  datatype Client = Client(key: string, capacity: int)

  function ClientKey(r: Request, limits: Limits): Client {
    if BEARER <= r.authorization then Client("u:" + Slice(r.authorization, 7, 31), limits.authenticated)
    else Client("ip:" + (if r.host.Some? then r.host.value else "unknown"), limits.anonymous)
  }

  function HitFor(r: Request, limits: Limits): HitCall {
    var c := ClientKey(r, limits);
    HitCall(c.key, c.capacity, WINDOW, r.now)
  }

  function HitsFor(rs: seq<Request>, limits: Limits): seq<HitCall> {
    seq(|rs|, i requires 0 <= i < |rs| => HitFor(rs[i], limits))
  }

  /** A token key never equals an address key, so a key always comes with the same allowance. */
  lemma {:induction false} KeyFixesCapacity(r: Request, q: Request, limits: Limits)
    requires ClientKey(r, limits).key == ClientKey(q, limits).key
    ensures ClientKey(r, limits).capacity == ClientKey(q, limits).capacity
  {
    assert ClientKey(r, limits).key[0] == ClientKey(q, limits).key[0];
  }

  /** The caller's token as far as it is read, when the header carries one. */
  predicate Carries(r: Request, token: string) {
    |r.authorization| >= 7 && r.authorization[..7] == "Bearer "
    && token == if |r.authorization| > 31 then r.authorization[7..31] else r.authorization[7..]
  }

  predicate Anonymous(r: Request) {
    |r.authorization| < 7 || r.authorization[..7] != "Bearer "
  }

  lemma {:induction false} KeyExactly(r: Request, limits: Limits)
    ensures Anonymous(r) <==> !(BEARER <= r.authorization)
    ensures forall token :: Carries(r, token) ==> ClientKey(r, limits) == Client("u:" + token, limits.authenticated)
    ensures Anonymous(r) ==>
              ClientKey(r, limits)
              == Client("ip:" + (match r.host case Some(h) => h case None => "unknown"), limits.anonymous)
  {
    var a := r.authorization;
    assert |a| > 31 ==> a[7..31] == Slice(a, 7, 31);
    if |a| == 7 {
      assert a[7..] == "";
    }
  }

  lemma {:induction false} SamePrefix(p: string, a: string, b: string)
    ensures p + a == p + b <==> a == b
  {
    if p + a == p + b {
      assert (p + a)[|p|..] == a && (p + b)[|p|..] == b;
    }
  }

  /**
   Two requests share a bucket exactly if both carry tokens that agree in their first 24
   characters, or neither carries one and they come from the same host, a missing host
   counting as "unknown".
   */
  lemma {:induction false} SameBucketIff(r: Request, q: Request, limits: Limits)
    ensures ClientKey(r, limits).key == ClientKey(q, limits).key
            <==> (exists token :: Carries(r, token) && Carries(q, token))
                 || (Anonymous(r) && Anonymous(q)
                     && (r.host == q.host || (r.host.None? && q.host == Some("unknown"))
                         || (q.host.None? && r.host == Some("unknown"))))
  {
    KeyExactly(r, limits);
    KeyExactly(q, limits);
    if !Anonymous(r) {
      var token := if |r.authorization| > 31 then r.authorization[7..31] else r.authorization[7..];
      assert Carries(r, token);
      if !Anonymous(q) {
        var other := if |q.authorization| > 31 then q.authorization[7..31] else q.authorization[7..];
        assert Carries(q, other);
        SamePrefix("u:", token, other);
      } else {
        assert ClientKey(r, limits).key[0] != ClientKey(q, limits).key[0];
      }
    } else if !Anonymous(q) {
      var other := if |q.authorization| > 31 then q.authorization[7..31] else q.authorization[7..];
      assert Carries(q, other);
      assert ClientKey(r, limits).key[0] != ClientKey(q, limits).key[0];
    } else {
      SamePrefix("ip:", if r.host.Some? then r.host.value else "unknown",
                 if q.host.Some? then q.host.value else "unknown");
    }
  }

  predicate InOrder(rs: seq<Request>) {
    forall i, j :: 0 <= i < j < |rs| ==> rs[i].now <= rs[j].now
  }

  lemma {:induction false} HitsAreOrderly(rs: seq<Request>, limits: Limits)
    requires InOrder(rs)
    ensures Monotone(HitsFor(rs, limits)) && FixedPerKey(HitsFor(rs, limits))
  {
    var hits := HitsFor(rs, limits);
    forall i, j | 0 <= i < |hits| && 0 <= j < |hits| && hits[i].key == hits[j].key
      ensures hits[i].capacity == hits[j].capacity && hits[i].window == hits[j].window
    {
      KeyFixesCapacity(rs[i], rs[j], limits);
    }
  }

  /**
   With the in-process backend no caller is admitted more than its allowance in any 60 seconds
   of one process: callers with a token the one allowance, all others the other.
   */
  lemma {:induction false} EveryCallerBounded(rs: seq<Request>, limits: Limits, client: nat)
    requires client < |rs| && InOrder(rs)
    ensures var allowance := if "Bearer " <= rs[client].authorization then limits.authenticated else limits.anonymous;
            Bounded(Admissions(HitsFor(rs, limits), ClientKey(rs[client], limits).key), allowance, 60.0)
  {
    var hits, c := HitsFor(rs, limits), ClientKey(rs[client], limits);
    HitsAreOrderly(rs, limits);
    assert hits[client].key == c.key && hits[client].capacity == c.capacity;
    MemoryIsBounded(hits, c.key, c.capacity, WINDOW);
  }

  lemma {:induction false} VerdictByLog(hits: seq<HitCall>, i: nat, log: seq<real>)
    requires Monotone(hits) && FixedPerKey(hits) && i < |hits|
    requires Admissions(hits[..i], hits[i].key) == log
    ensures VerdictAt(hits, i) == LogVerdict(log, hits[i].capacity, hits[i].window, hits[i].now)
  {
    MemoryIsExact(hits, i);
  }

  lemma {:induction false} HitsBefore(rs: seq<Request>, limits: Limits, i: nat)
    requires i < |rs|
    ensures HitsFor(rs, limits)[..i] == HitsFor(rs[..i], limits)
  {
  }

  /**
   And no caller is refused before: a request is answered from its own caller's admissions of
   the last 60 seconds, refused exactly if they fill the allowance.
   */
  lemma {:induction false} CallerAnswered(rs: seq<Request>, limits: Limits, i: nat)
    requires i < |rs| && InOrder(rs)
    ensures var allowance := if "Bearer " <= rs[i].authorization then limits.authenticated else limits.anonymous;
            var earlier := Admissions(HitsFor(rs[..i], limits), ClientKey(rs[i], limits).key);
            VerdictAt(HitsFor(rs, limits), i) == LogVerdict(earlier, allowance, 60.0, rs[i].now)
  {
    HitsAreOrderly(rs, limits);
    HitsBefore(rs, limits, i);
    VerdictByLog(HitsFor(rs, limits), i, Admissions(HitsFor(rs[..i], limits), ClientKey(rs[i], limits).key));
  }

  // ── The Redis backend ────────────────────────────────────────────────

  const WINDOW_MS := 60000

  /** A request at the shared backend: who asks, and the two clocks when the script runs. */
  datatype Arrival = Arrival(request: Request, hit: R.Hit)

  /** The script runs on one caller's key; other keys are other sorted sets. */
  function HitsOf(arrivals: seq<Arrival>, limits: Limits, key: string): seq<R.Hit> {
    if arrivals == [] then []
    else
      var n := |arrivals| - 1;
      HitsOf(arrivals[..n], limits, key)
      + if ClientKey(arrivals[n].request, limits).key == key then [arrivals[n].hit] else []
  }

  predicate InTime(arrivals: seq<Arrival>) {
    forall i, j :: 0 <= i < j < |arrivals| ==>
      arrivals[i].hit.now <= arrivals[j].hit.now && R.Pace(arrivals[i].hit, arrivals[j].hit, WINDOW_MS)
  }

  predicate OnePerMillisecond(arrivals: seq<Arrival>) {
    forall i, j :: 0 <= i < j < |arrivals| ==> arrivals[i].hit.now < arrivals[j].hit.now
  }

  predicate Among(hits: seq<R.Hit>, arrivals: seq<Arrival>) {
    forall k :: 0 <= k < |hits| ==> exists i :: 0 <= i < |arrivals| && arrivals[i].hit == hits[k]
  }

  lemma {:induction false} HitsAmong(arrivals: seq<Arrival>, limits: Limits, key: string)
    ensures Among(HitsOf(arrivals, limits, key), arrivals)
  {
    if arrivals != [] {
      var n := |arrivals| - 1;
      var hits := HitsOf(arrivals, limits, key);
      HitsAmong(arrivals[..n], limits, key);
      forall k | 0 <= k < |hits|
        ensures exists i :: 0 <= i < |arrivals| && arrivals[i].hit == hits[k]
      {
        if k < |HitsOf(arrivals[..n], limits, key)| {
          var i :| 0 <= i < n && arrivals[..n][i].hit == hits[k];
          assert arrivals[i].hit == hits[k];
        } else {
          assert arrivals[n].hit == hits[k];
        }
      }
    }
  }

  lemma {:induction false} HitsInTime(arrivals: seq<Arrival>, limits: Limits, key: string)
    requires InTime(arrivals)
    ensures R.Timely(HitsOf(arrivals, limits, key), WINDOW_MS)
    ensures OnePerMillisecond(arrivals) ==> R.Spaced(HitsOf(arrivals, limits, key))
  {
    if arrivals != [] {
      var n := |arrivals| - 1;
      var earlier := HitsOf(arrivals[..n], limits, key);
      HitsInTime(arrivals[..n], limits, key);
      HitsAmong(arrivals[..n], limits, key);
      forall k | 0 <= k < |earlier|
        ensures earlier[k].now <= arrivals[n].hit.now && R.Pace(earlier[k], arrivals[n].hit, WINDOW_MS)
        ensures OnePerMillisecond(arrivals) ==> earlier[k].now < arrivals[n].hit.now
      {
        var i :| 0 <= i < n && arrivals[..n][i].hit == earlier[k];
        assert arrivals[i].hit == earlier[k];
      }
    }
  }

  /** The milliseconds at which a caller's traffic is admitted. */
  function AdmittedAt(arrivals: seq<Arrival>, limits: Limits, request: Request): seq<nat> {
    var client := ClientKey(request, limits);
    R.Admissions(HitsOf(arrivals, limits, client.key), WINDOW_MS, client.capacity)
  }

  /** How many requests of a caller are admitted in the half-open 60 seconds after `from`. */
  function AdmittedFor(arrivals: seq<Arrival>, limits: Limits, request: Request, from: int): nat {
    R.CountHalfOpen(AdmittedAt(arrivals, limits, request), from, from + 60000)
  }

  /**
   With the Redis backend, over all processes, a caller's admissions of any 60 seconds fall
   into at most as many milliseconds as its allowance; if no two requests share a millisecond,
   they are no more than its allowance.
   */
  lemma {:induction false} EveryCallerBoundedInRedis(arrivals: seq<Arrival>, limits: Limits, request: Request,
                                                     from: int)
    requires InTime(arrivals)
    ensures var allowance := if "Bearer " <= request.authorization then limits.authenticated else limits.anonymous;
            && |R.InWindow(AdmittedAt(arrivals, limits, request), from, from + 60000)| <= NonNegative(allowance)
            && (OnePerMillisecond(arrivals) ==>
                  AdmittedFor(arrivals, limits, request, from) <= NonNegative(allowance))
  {
    var client := ClientKey(request, limits);
    var hits := HitsOf(arrivals, limits, client.key);
    HitsInTime(arrivals, limits, client.key);
    R.DistinctBounded(hits, WINDOW_MS, client.capacity, from);
    if OnePerMillisecond(arrivals) {
      R.RedisIsBounded(hits, WINDOW_MS, client.capacity, from);
    }
  }

  /** Traffic of another bucket never changes what a caller is admitted. */
  lemma {:induction false} OthersDoNotCount(arrivals: seq<Arrival>, limits: Limits, request: Request, other: Arrival)
    requires ClientKey(other.request, limits).key != ClientKey(request, limits).key
    ensures AdmittedAt(arrivals + [other], limits, request) == AdmittedAt(arrivals, limits, request)
  {
    var key := ClientKey(request, limits).key;
    assert (arrivals + [other])[..|arrivals|] == arrivals;
    assert HitsOf(arrivals, limits, key) + [] == HitsOf(arrivals, limits, key);
  }

  ghost predicate RedisAlwaysBounded(limits: Limits, request: Request, allowance: int) {
    forall arrivals: seq<Arrival>, from: int | InTime(arrivals) ::
      AdmittedFor(arrivals, limits, request, from) <= NonNegative(allowance)
  }

  lemma {:induction false} BurstOf(request: Request, hit: R.Hit, limits: Limits, n: nat)
    ensures HitsOf(R.Repeat(Arrival(request, hit), n), limits, ClientKey(request, limits).key) == R.Repeat(hit, n)
  {
    if n > 0 {
      BurstOf(request, hit, limits, n - 1);
      assert R.Repeat(Arrival(request, hit), n)[..n - 1] == R.Repeat(Arrival(request, hit), n - 1);
    }
  }

  /** For arbitrary traffic a caller's bound holds exactly when its allowance is at most one request. */
  lemma {:induction false} RedisCallerBoundedIff(limits: Limits, request: Request)
    ensures var allowance := if "Bearer " <= request.authorization then limits.authenticated else limits.anonymous;
            RedisAlwaysBounded(limits, request, allowance) <==> allowance <= 1
  {
    var client := ClientKey(request, limits);
    if client.capacity <= 1 {
      forall arrivals: seq<Arrival>, from: int | InTime(arrivals)
        ensures AdmittedFor(arrivals, limits, request, from) <= NonNegative(client.capacity)
      {
        HitsInTime(arrivals, limits, client.key);
        R.SmallCapacityBounded(HitsOf(arrivals, limits, client.key), WINDOW_MS, client.capacity, from);
      }
    } else {
      var hit := R.Hit(0, 0);
      var hits := R.BurstOverflows(hit, WINDOW_MS, client.capacity);
      var arrivals := R.Repeat(Arrival(request, hit), client.capacity + 1);
      BurstOf(request, hit, limits, client.capacity + 1);
      assert AdmittedFor(arrivals, limits, request, -1) > NonNegative(client.capacity);
    }
  }
}
