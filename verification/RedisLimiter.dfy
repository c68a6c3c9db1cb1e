/**
 The shared limiter (RedisLimiter of backend/app/core/ratelimit.py): a Lua script over one
 sorted set per key. Times are whole milliseconds; a member is its own score, so two hits
 in one millisecond leave one entry. The script's EXPIRE argument is the window in
 milliseconds, which Redis reads as seconds. `now` is the application's clock, but keys
 expire by the Redis server's own.
 */
module RedisLimiter {
  import opened Options
  import opened WindowLog

  /** One run of the script: the caller's milliseconds and what the server's clock shows then. */
  datatype Hit = Hit(now: nat, server: int)

  /** A key's sorted set with the server millisecond at which it expires. */
  datatype Entry = Entry(scores: set<int>, expireAt: int)

  /** What a hit sees of the key: nothing once it is missing or expired. */
  function Live(key: Option<Entry>, h: Hit): set<int> {
    if key.None? || key.value.expireAt <= h.server then {} else key.value.scores
  }

  /** ZREMRANGEBYSCORE key 0 (now - window) */
  function Kept(key: Option<Entry>, h: Hit, window: int): set<int> {
    set x | x in Live(key, h) && !(0 <= x <= h.now - window)
  }

  function ScriptVerdict(key: Option<Entry>, h: Hit, window: int, capacity: int): Verdict {
    var count := |Kept(key, h, window)|;
    if count >= capacity then Verdict(false, 0) else Verdict(true, capacity - count - 1)
  }

  /** The key afterwards. An emptied set disappears, and so does a key given no time to live. */
  function ScriptKey(key: Option<Entry>, h: Hit, window: int, capacity: int): Option<Entry> {
    var kept := Kept(key, h, window);
    if |kept| >= capacity then
      if kept == {} || key.None? then None else Some(Entry(kept, key.value.expireAt))
    else if window <= 0 then None
    else Some(Entry(kept + {h.now}, h.server + 1000 * window))
  }

  // ── The key object the script works on ───────────────────────────────

  class SortedSet {
    var scores: set<int>
    var expireAt: Option<int>

    function Value(): Option<Entry>
      reads this
    {
      if scores == {} || expireAt.None? then None else Some(Entry(scores, expireAt.value))
    }

    constructor ()
      ensures Value() == None
    {
      scores, expireAt := {}, None;
    }

    /** Redis drops a key whose time to live has passed before a command touches it. */
    method ExpireIfDue(h: Hit)
      modifies this
      ensures scores == Live(old(Value()), h)
      ensures scores != {} ==> expireAt == old(expireAt) && expireAt.Some? && old(Value()).Some?
    {
      if expireAt.None? || expireAt.value <= h.server {
        scores, expireAt := {}, None;
      }
    }

    method RunScript(h: Hit, window: int, capacity: int) returns (allowed: bool, remaining: int)
      modifies this
      ensures Verdict(allowed, remaining) == ScriptVerdict(old(Value()), h, window, capacity)
      ensures Value() == ScriptKey(old(Value()), h, window, capacity)
    {
      ExpireIfDue(h);
      scores := set x | x in scores && !(0 <= x <= h.now - window);
      var count := |scores|;
      assert scores == Kept(old(Value()), h, window);
      if count >= capacity {
        return false, 0;
      }
      scores := scores + {h.now};
      expireAt := Some(h.server + 1000 * window);
      if window <= 0 {
        scores, expireAt := {}, None;
      }
      return true, capacity - count - 1;
    }
  }

  // ── Runs of one key, with a fixed window and capacity ────────────────

  function KeyAfter(hits: seq<Hit>, window: int, capacity: int): Option<Entry> {
    if hits == [] then None
    else ScriptKey(KeyAfter(hits[..|hits| - 1], window, capacity), hits[|hits| - 1], window, capacity)
  }

  function VerdictAt(hits: seq<Hit>, i: nat, window: int, capacity: int): Verdict
    requires i < |hits|
  {
    ScriptVerdict(KeyAfter(hits[..i], window, capacity), hits[i], window, capacity)
  }

  /** The milliseconds of the admitted hits, in order. */
  function Admissions(hits: seq<Hit>, window: int, capacity: int): seq<nat> {
    if hits == [] then []
    else
      var n := |hits| - 1;
      Admissions(hits[..n], window, capacity)
      + if VerdictAt(hits, n, window, capacity).allowed then [hits[n].now] else []
  }

  /** While less than a window passes for the callers, less than the thousandfold time to live passes on the server. */
  predicate Pace(h: Hit, t: Hit, window: int) {
    t.now - h.now < window ==> t.server - h.server < 1000 * window
  }

  /** Callers' times never decrease, and the server's clock keeps pace with them. */
  predicate Timely(hits: seq<Hit>, window: int) {
    forall i, j :: 0 <= i < j < |hits| ==> hits[i].now <= hits[j].now && Pace(hits[i], hits[j], window)
  }

  /** At most one hit in a millisecond. */
  predicate Spaced(hits: seq<Hit>) {
    forall i, j :: 0 <= i < j < |hits| ==> hits[i].now < hits[j].now
  }

  predicate Increasing(log: seq<nat>) {
    forall i, j :: 0 <= i < j < |log| ==> log[i] < log[j]
  }

  /** `t` comes after all of `hits`. */
  predicate Follows(hits: seq<Hit>, t: Hit, window: int) {
    forall i :: 0 <= i < |hits| ==> hits[i].now <= t.now && Pace(hits[i], t, window)
  }

  /** The distinct admitted milliseconds after `cutoff`. */
  function Recent(log: seq<nat>, cutoff: int): set<int> {
    set x: int | x in log && x > cutoff
  }

  /** The distinct admitted milliseconds in the half-open window (from, to]. */
  function InWindow(log: seq<nat>, from: int, to: int): set<int> {
    set x: int | x in log && from < x <= to
  }

  lemma {:induction false} RunStep(before: seq<Hit>, h: Hit, window: int, capacity: int)
    ensures KeyAfter(before + [h], window, capacity)
            == ScriptKey(KeyAfter(before, window, capacity), h, window, capacity)
    ensures Admissions(before + [h], window, capacity)
            == Admissions(before, window, capacity)
               + if ScriptVerdict(KeyAfter(before, window, capacity), h, window, capacity).allowed then [h.now] else []
  {
    assert (before + [h])[..|before|] == before;
  }

  /** An admission: the new key holds what was kept and the new score, until long after the window. */
  lemma {:induction false} AdmitKeepsRecent(key: Option<Entry>, log: seq<nat>, h: Hit, window: int,
                                            capacity: int, t: Hit)
    requires Kept(key, h, window) == Recent(log, h.now - window)
    requires forall x :: x in log ==> x <= h.now
    requires h.now <= t.now && Pace(h, t, window) && |Kept(key, h, window)| < capacity
    ensures Kept(ScriptKey(key, h, window, capacity), t, window) == Recent(log + [h.now], t.now - window)
  {
    var key' := ScriptKey(key, h, window, capacity);
    assert forall x: int :: x in log + [h.now] <==> x in log || x == h.now;
    if window <= 0 || t.server >= h.server + 1000 * window {
      assert Recent(log + [h.now], t.now - window) == {};
      assert Live(key', t) == {};
    } else {
      assert Live(key', t) == Recent(log, h.now - window) + {h.now};
    }
  }

  /**
   Whatever the key held: a later hit still sees an admitted one exactly if it is inside the
   window and the server's clock has kept pace, so the assumption is needed.
   */
  lemma {:induction false} HeldIffPace(key: Option<Entry>, h: Hit, t: Hit, window: int, capacity: int)
    requires h.now <= t.now && ScriptVerdict(key, h, window, capacity).allowed
    ensures h.now as int in Kept(ScriptKey(key, h, window, capacity), t, window)
            <==> t.now - h.now < window && Pace(h, t, window)
  {
    var key' := ScriptKey(key, h, window, capacity);
    if window > 0 {
      assert h.now as int in key'.value.scores;
      assert Live(key', t) == if t.server - h.server < 1000 * window then key'.value.scores else {};
    }
  }

  /** A refusal: the key only loses entries that no window from now on can hold. */
  lemma {:induction false} RefuseKeepsRecent(key: Option<Entry>, log: seq<nat>, h: Hit, window: int,
                                             capacity: int, t: Hit)
    requires Kept(key, h, window) == Recent(log, h.now - window)
    requires h.now <= t.now && |Kept(key, h, window)| >= capacity
    requires Kept(key, t, window) == Recent(log, t.now - window)
    ensures Kept(ScriptKey(key, h, window, capacity), t, window) == Recent(log, t.now - window)
  {
    var key', kept := ScriptKey(key, h, window, capacity), Kept(key, h, window);
    if key'.None? {
      assert kept == {};
      assert Recent(log, t.now - window) <= kept;
    } else {
      assert Live(key', t) == if key.value.expireAt <= t.server then {} else kept;
    }
  }

  /** Expiry and trimming never lose an entry that is still inside the window of a later hit. */
  lemma {:induction false} StepKeepsRecent(key: Option<Entry>, log: seq<nat>, h: Hit, window: int,
                                           capacity: int, t: Hit)
    requires Kept(key, h, window) == Recent(log, h.now - window)
    requires Kept(key, t, window) == Recent(log, t.now - window)
    requires forall x :: x in log ==> x <= h.now
    requires h.now <= t.now && Pace(h, t, window)
    ensures var log' := if ScriptVerdict(key, h, window, capacity).allowed then log + [h.now] else log;
            Kept(ScriptKey(key, h, window, capacity), t, window) == Recent(log', t.now - window)
  {
    if ScriptVerdict(key, h, window, capacity).allowed {
      AdmitKeepsRecent(key, log, h, window, capacity, t);
    } else {
      RefuseKeepsRecent(key, log, h, window, capacity, t);
    }
  }

  lemma {:induction false} KeptIsRecent(hits: seq<Hit>, window: int, capacity: int, t: Hit)
    requires Timely(hits, window) && Follows(hits, t, window)
    ensures Kept(KeyAfter(hits, window, capacity), t, window)
            == Recent(Admissions(hits, window, capacity), t.now - window)
    ensures forall x :: x in Admissions(hits, window, capacity) ==> x <= t.now
    decreases |hits|
  {
    if hits != [] {
      var n := |hits| - 1;
      var before, h := hits[..n], hits[n];
      assert hits == before + [h];
      RunStep(before, h, window, capacity);
      KeptIsRecent(before, window, capacity, h);
      KeptIsRecent(before, window, capacity, t);
      StepKeepsRecent(KeyAfter(before, window, capacity), Admissions(before, window, capacity), h, window, capacity, t);
    }
  }

  // ── Main results ─────────────────────────────────────────────────────

  /**
   On every timely run an answer depends only on the distinct milliseconds admitted in
   (now - window, now]: EXPIRE never drops one of them.
   */
  lemma {:induction false} RedisIsExact(hits: seq<Hit>, i: nat, window: int, capacity: int)
    requires Timely(hits, window) && i < |hits|
    ensures var used := |InWindow(Admissions(hits[..i], window, capacity), hits[i].now - window, hits[i].now)|;
            VerdictAt(hits, i, window, capacity)
            == if used >= capacity then Verdict(false, 0) else Verdict(true, capacity - used - 1)
  {
    var log := Admissions(hits[..i], window, capacity);
    KeptIsRecent(hits[..i], window, capacity, hits[i]);
    assert InWindow(log, hits[i].now - window, hits[i].now) == Recent(log, hits[i].now - window);
  }

  /** Admitting one more millisecond while the window that ends with it has room. */
  lemma {:induction false} WindowHasRoom(log: seq<nat>, t: nat, from: int, window: int, capacity: int)
    requires |Recent(log, t - window)| < capacity
    requires |InWindow(log, from, from + window)| <= NonNegative(capacity)
    ensures |InWindow(log + [t], from, from + window)| <= NonNegative(capacity)
  {
    var held, after := InWindow(log, from, from + window), InWindow(log + [t], from, from + window);
    assert forall x: int :: x in log + [t] <==> x in log || x == t;
    if from < t <= from + window {
      SubsetSmaller(held, Recent(log, t - window));
      assert after == held + {t as int};
    } else {
      assert after == held;
    }
  }

  lemma {:induction false} AdmissionsStep(before: seq<Hit>, h: Hit, window: int, capacity: int)
    requires Timely(before, window) && Follows(before, h, window)
    ensures var log := Admissions(before, window, capacity);
            Admissions(before + [h], window, capacity)
            == if |Recent(log, h.now - window)| < capacity then log + [h.now] else log
  {
    RunStep(before, h, window, capacity);
    KeptIsRecent(before, window, capacity, h);
  }

  lemma {:induction false} DistinctStep(before: seq<Hit>, h: Hit, window: int, capacity: int, from: int)
    requires Timely(before, window) && Follows(before, h, window)
    requires |InWindow(Admissions(before, window, capacity), from, from + window)| <= NonNegative(capacity)
    ensures |InWindow(Admissions(before + [h], window, capacity), from, from + window)| <= NonNegative(capacity)
  {
    AdmissionsStep(before, h, window, capacity);
    if |Recent(Admissions(before, window, capacity), h.now - window)| < capacity {
      WindowHasRoom(Admissions(before, window, capacity), h.now, from, window, capacity);
    }
  }

  /** No half-open window ever holds more than `capacity` distinct admitted milliseconds. */
  lemma {:induction false} DistinctBounded(hits: seq<Hit>, window: int, capacity: int, from: int)
    requires Timely(hits, window)
    ensures |InWindow(Admissions(hits, window, capacity), from, from + window)| <= NonNegative(capacity)
    decreases |hits|
  {
    if hits == [] {
      assert InWindow([], from, from + window) == {};
    } else {
      var n := |hits| - 1;
      DistinctBounded(hits[..n], window, capacity, from);
      DistinctStep(hits[..n], hits[n], window, capacity, from);
      assert hits == hits[..n] + [hits[n]];
    }
  }

  lemma {:induction false} SubsetSmaller(a: set<int>, b: set<int>)
    requires a <= b
    ensures |a| <= |b|
  {
    assert b == a + (b - a);
  }

  /** Admissions, counted with repetitions, in the half-open window (from, to]. */
  function CountHalfOpen(log: seq<nat>, from: int, to: int): nat {
    if log == [] then 0
    else CountHalfOpen(log[..|log| - 1], from, to) + if from < log[|log| - 1] <= to then 1 else 0
  }

  lemma {:induction false} WindowAppend(log: seq<nat>, t: nat, from: int, to: int)
    requires forall i :: 0 <= i < |log| ==> log[i] < t
    ensures |InWindow(log + [t], from, to)| == |InWindow(log, from, to)| + if from < t <= to then 1 else 0
  {
    var before, after := InWindow(log, from, to), InWindow(log + [t], from, to);
    if from < t <= to {
      assert after == before + {t as int};
      assert t as int !in before;
    } else {
      assert after == before;
    }
  }

  lemma {:induction false} CountDistinct(log: seq<nat>, from: int, to: int)
    requires Increasing(log)
    ensures CountHalfOpen(log, from, to) == |InWindow(log, from, to)|
  {
    if log != [] {
      var n := |log| - 1;
      CountDistinct(log[..n], from, to);
      assert log == log[..n] + [log[n]];
      WindowAppend(log[..n], log[n], from, to);
    }
  }

  lemma {:induction false} IncreasingAppend(log: seq<nat>, t: nat)
    requires Increasing(log)
    requires forall x :: x in log ==> x < t
    ensures Increasing(log + [t])
  {
    forall i, j | 0 <= i < j < |log| + 1
      ensures (log + [t])[i] < (log + [t])[j]
    {
      assert log[i] in log;
    }
  }

  predicate HitAt(hits: seq<Hit>, t: nat) {
    exists i :: 0 <= i < |hits| && hits[i].now == t
  }

  lemma {:induction false} AdmissionsIncrease(hits: seq<Hit>, window: int, capacity: int)
    requires Spaced(hits)
    ensures Increasing(Admissions(hits, window, capacity))
    ensures forall x :: x in Admissions(hits, window, capacity) ==> HitAt(hits, x)
  {
    if hits != [] {
      var n := |hits| - 1;
      var before, log := hits[..n], Admissions(hits[..n], window, capacity);
      assert hits == before + [hits[n]];
      AdmissionsIncrease(before, window, capacity);
      RunStep(before, hits[n], window, capacity);
      forall x | x in log
        ensures x < hits[n].now && HitAt(hits, x)
      {
        var i :| 0 <= i < n && before[i].now == x;
        assert hits[i].now == x;
      }
      assert HitAt(hits, hits[n].now);
      IncreasingAppend(log, hits[n].now);
      assert log + [] == log;
    }
  }

  lemma {:induction false} CountedOnce(hits: seq<Hit>, window: int, capacity: int, from: int)
    requires Timely(hits, window) && Increasing(Admissions(hits, window, capacity))
    ensures CountHalfOpen(Admissions(hits, window, capacity), from, from + window) <= NonNegative(capacity)
  {
    DistinctBounded(hits, window, capacity, from);
    CountDistinct(Admissions(hits, window, capacity), from, from + window);
  }

  /** With one hit per millisecond at most, every half-open window is bounded. */
  lemma {:induction false} RedisIsBounded(hits: seq<Hit>, window: int, capacity: int, from: int)
    requires Spaced(hits) && Timely(hits, window)
    ensures CountHalfOpen(Admissions(hits, window, capacity), from, from + window) <= NonNegative(capacity)
  {
    AdmissionsIncrease(hits, window, capacity);
    CountedOnce(hits, window, capacity, from);
  }

  // ── Several hits in one millisecond ──────────────────────────────────

  function Repeat<T>(x: T, n: nat): (xs: seq<T>)
    ensures |xs| == n
    ensures forall i :: 0 <= i < n ==> xs[i] == x
  {
    if n == 0 then [] else Repeat(x, n - 1) + [x]
  }

  lemma {:induction false} RepeatCount(now: nat, n: nat, from: int, to: int)
    requires from < now <= to
    ensures CountHalfOpen(Repeat(now, n), from, to) == n
  {
    if n > 0 {
      RepeatCount(now, n - 1, from, to);
      assert Repeat(now, n)[..n - 1] == Repeat(now, n - 1);
    }
  }

  lemma {:induction false} BurstStep(burst: seq<Hit>, h: Hit, window: int, capacity: int)
    requires window > 0 && capacity >= 2
    requires forall i :: 0 <= i < |burst| ==> burst[i] == h
    requires forall x :: x in Admissions(burst, window, capacity) ==> x == h.now
    ensures Admissions(burst + [h], window, capacity) == Admissions(burst, window, capacity) + [h.now]
  {
    RunStep(burst, h, window, capacity);
    KeptIsRecent(burst, window, capacity, h);
    SubsetSmaller(Recent(Admissions(burst, window, capacity), h.now - window), {h.now as int});
  }

  /** With a capacity of at least 2, a burst inside one millisecond is admitted whole. */
  lemma {:induction false} BurstAdmitted(h: Hit, n: nat, window: int, capacity: int)
    requires window > 0 && capacity >= 2
    ensures Admissions(Repeat(h, n), window, capacity) == Repeat(h.now, n)
  {
    if n > 0 {
      BurstAdmitted(h, n - 1, window, capacity);
      BurstStep(Repeat(h, n - 1), h, window, capacity);
    }
  }

  lemma {:induction false} OneMore(before: seq<Hit>, h: Hit, window: int, capacity: int)
    requires Timely(before, window) && Follows(before, h, window) && window > 0 && capacity <= 1
    requires Increasing(Admissions(before, window, capacity))
    ensures Increasing(Admissions(before + [h], window, capacity))
  {
    var log := Admissions(before, window, capacity);
    RunStep(before, h, window, capacity);
    KeptIsRecent(before, window, capacity, h);
    assert log + [] == log;
    if h.now in log {
      assert h.now as int in Recent(log, h.now - window);
      SubsetSmaller({h.now as int}, Recent(log, h.now - window));
    } else {
      assert forall x :: x in log ==> x < h.now;
      IncreasingAppend(log, h.now);
    }
  }

  lemma {:induction false} OneAtATime(hits: seq<Hit>, window: int, capacity: int)
    requires Timely(hits, window) && window > 0 && capacity <= 1
    ensures Increasing(Admissions(hits, window, capacity))
  {
    if hits != [] {
      var n := |hits| - 1;
      OneAtATime(hits[..n], window, capacity);
      OneMore(hits[..n], hits[n], window, capacity);
      assert hits == hits[..n] + [hits[n]];
    }
  }

  lemma {:induction false} EmptyWindowCount(log: seq<nat>, from: int, to: int)
    requires to <= from
    ensures CountHalfOpen(log, from, to) == 0
  {
    if log != [] {
      EmptyWindowCount(log[..|log| - 1], from, to);
    }
  }

  /** How many hits of a run were admitted in the half-open window that starts after `from`. */
  function AdmittedIn(hits: seq<Hit>, window: int, capacity: int, from: int): nat {
    CountHalfOpen(Admissions(hits, window, capacity), from, from + window)
  }

  lemma {:induction false} SmallCapacityBounded(hits: seq<Hit>, window: int, capacity: int, from: int)
    requires Timely(hits, window) && (capacity <= 1 || window <= 0)
    ensures AdmittedIn(hits, window, capacity, from) <= NonNegative(capacity)
  {
    if window <= 0 {
      EmptyWindowCount(Admissions(hits, window, capacity), from, from + window);
    } else {
      OneAtATime(hits, window, capacity);
      CountedOnce(hits, window, capacity, from);
    }
  }

  /** One hit more than the capacity, all in one millisecond. */
  lemma {:induction false} BurstOverflows(h: Hit, window: int, capacity: int) returns (hits: seq<Hit>)
    requires window > 0 && capacity >= 2
    ensures hits == Repeat(h, capacity + 1) && Timely(hits, window)
    ensures AdmittedIn(hits, window, capacity, h.now - 1) > NonNegative(capacity)
  {
    hits := Repeat(h, capacity + 1);
    BurstAdmitted(h, capacity + 1, window, capacity);
    RepeatCount(h.now, capacity + 1, h.now - 1, h.now - 1 + window);
  }

  ghost predicate AlwaysBounded(window: int, capacity: int) {
    forall hits: seq<Hit>, from: int | Timely(hits, window) ::
      AdmittedIn(hits, window, capacity, from) <= NonNegative(capacity)
  }

  /**
   Once several hits may share a millisecond, the window bound survives exactly when the
   capacity is at most one (or the window is empty): the sorted set counts milliseconds.
   */
  lemma {:induction false} BoundSurvivesSharedMillisecondsIff(window: int, capacity: int)
    ensures AlwaysBounded(window, capacity) <==> capacity <= 1 || window <= 0
  {
    if capacity <= 1 || window <= 0 {
      forall hits: seq<Hit>, from: int | Timely(hits, window)
        ensures AdmittedIn(hits, window, capacity, from) <= NonNegative(capacity)
      {
        SmallCapacityBounded(hits, window, capacity, from);
      }
    } else {
      var hits := BurstOverflows(Hit(0, 0), window, capacity);
      assert AdmittedIn(hits, window, capacity, -1) > NonNegative(capacity);
    }
  }
}
