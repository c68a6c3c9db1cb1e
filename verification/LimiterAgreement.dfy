/**
 The two limiters side by side on one key. Their windows differ at one end: the in-process
 limiter still counts a hit exactly `window` old, the Lua script no longer does.
 */
module LimiterAgreement {
  import opened WindowLog
  import M = MemoryLimiter
  import R = RedisLimiter

  /** The same hits, as the in-process limiter sees them, with milliseconds as the time unit. */
  function MemoryHits(key: string, hits: seq<R.Hit>, window: int, capacity: int): seq<M.HitCall> {
    seq(|hits|, i requires 0 <= i < |hits| => M.HitCall(key, capacity, window as real, hits[i].now as real))
  }

  function AsReals(log: seq<nat>): seq<real> {
    seq(|log|, i requires 0 <= i < |log| => log[i] as real)
  }

  predicate NeverExactlyApart(hits: seq<R.Hit>, window: int) {
    forall i, j :: 0 <= i < |hits| && 0 <= j < |hits| ==> hits[i].now != hits[j].now - window
  }

  /** No entry is later than now. */
  predicate UpTo(log: seq<nat>, now: nat) {
    forall i :: 0 <= i < |log| ==> log[i] <= now
  }

  predicate Holds(log: seq<nat>, t: int) {
    exists i :: 0 <= i < |log| && log[i] == t
  }

  lemma {:induction false} EdgeInReals(x: nat, now: nat, window: int)
    ensures (now as real - window as real <= x as real <= now as real) <==> now - window <= x <= now
  {
    assert now as real - window as real == (now - window) as real;
  }

  /** The closed window of the one limiter holds one hit more than the half-open window of the other, at most. */
  lemma {:induction false} CountsDiffer(log: seq<nat>, now: nat, window: int)
    requires R.Increasing(log) && UpTo(log, now)
    requires window > 0 || !Holds(log, now - window)
    ensures CountIn(AsReals(log), now as real - window as real, now as real)
            == R.CountHalfOpen(log, now - window, now) + if Holds(log, now - window) then 1 else 0
  {
    if log != [] {
      var n := |log| - 1;
      assert AsReals(log)[..n] == AsReals(log[..n]);
      assert Holds(log, now - window) <==> Holds(log[..n], now - window) || log[n] == now - window by {
        if Holds(log[..n], now - window) {
          var i :| 0 <= i < n && log[..n][i] == now - window;
          assert log[i] == now - window;
        }
      }
      CountsDiffer(log[..n], now, window);
      EdgeInReals(log[n], now, window);
    }
  }

  /** The admissions of the script's run up to its i-th hit, and that hit's verdict read off them. */
  function LogAt(hits: seq<R.Hit>, i: nat, window: int, capacity: int): seq<nat>
    requires i <= |hits|
  {
    R.Admissions(hits[..i], window, capacity)
  }

  /** The script's verdict from a log, counting the half-open window. */
  function ScriptRule(log: seq<nat>, now: nat, window: int, capacity: int): Verdict {
    var used := R.CountHalfOpen(log, now - window, now);
    if used >= capacity then Verdict(false, 0) else Verdict(true, capacity - used - 1)
  }

  /** A log that holds an admission exactly `window` old, while the window without it still has room. */
  predicate OnEdge(log: seq<nat>, now: nat, window: int, capacity: int) {
    Holds(log, now - window) && R.CountHalfOpen(log, now - window, now) < capacity
  }

  /** An admission exactly `window` old that fills the closed window. */
  predicate FilledByEdge(log: seq<nat>, now: nat, window: int, capacity: int) {
    Holds(log, now - window) && R.CountHalfOpen(log, now - window, now) == capacity - 1
  }

  predicate AtEdge(hits: seq<R.Hit>, i: nat, window: int, capacity: int)
    requires i < |hits|
  {
    OnEdge(LogAt(hits, i, window, capacity), hits[i].now, window, capacity)
  }

  /**
   On one log the two rules answer differently exactly at the edge, and about admission when
   that fills the window.
   */
  lemma {:induction false} RulesDifferIff(log: seq<nat>, now: nat, window: int, capacity: int)
    requires R.Increasing(log) && UpTo(log, now) && (window > 0 || !Holds(log, now - window))
    ensures var script := ScriptRule(log, now, window, capacity);
            var memory := LogVerdict(AsReals(log), capacity, window as real, now as real);
            && (memory != script <==> OnEdge(log, now, window, capacity))
            && (memory.allowed != script.allowed <==> FilledByEdge(log, now, window, capacity))
  {
    CountsDiffer(log, now, window);
  }

  lemma {:induction false} LogBefore(hits: seq<R.Hit>, i: nat, window: int, capacity: int)
    requires R.Spaced(hits) && i < |hits|
    ensures var log := LogAt(hits, i, window, capacity);
            R.Increasing(log) && UpTo(log, hits[i].now) && (window > 0 || !Holds(log, hits[i].now - window))
    ensures NeverExactlyApart(hits, window) ==> !Holds(LogAt(hits, i, window, capacity), hits[i].now - window)
  {
    var log := LogAt(hits, i, window, capacity);
    R.AdmissionsIncrease(hits[..i], window, capacity);
    forall k | 0 <= k < |log|
      ensures log[k] < hits[i].now && (NeverExactlyApart(hits, window) ==> log[k] != hits[i].now - window)
    {
      assert R.HitAt(hits[..i], log[k]);
      var j :| 0 <= j < i && hits[..i][j].now == log[k];
      assert hits[j].now == log[k];
    }
  }

  lemma {:induction false} HitsAreOrdered(key: string, hits: seq<R.Hit>, window: int, capacity: int)
    requires R.Spaced(hits)
    ensures M.Monotone(MemoryHits(key, hits, window, capacity))
    ensures M.FixedPerKey(MemoryHits(key, hits, window, capacity))
  {
  }

  lemma {:induction false} MemorySide(key: string, hits: seq<R.Hit>, i: nat, window: int, capacity: int, log: seq<real>)
    requires R.Spaced(hits) && i < |hits|
    requires M.Admissions(MemoryHits(key, hits[..i], window, capacity), key) == log
    ensures M.VerdictAt(MemoryHits(key, hits, window, capacity), i)
            == LogVerdict(log, capacity, window as real, hits[i].now as real)
  {
    var calls := MemoryHits(key, hits, window, capacity);
    assert M.Admissions(calls[..i], key) == log by {
      assert calls[..i] == MemoryHits(key, hits[..i], window, capacity);
    }
    HitsAreOrdered(key, hits, window, capacity);
    MemorySideOf(calls, i, log);
  }

  lemma {:induction false} MemorySideOf(calls: seq<M.HitCall>, i: nat, log: seq<real>)
    requires M.Monotone(calls) && M.FixedPerKey(calls) && i < |calls|
    requires M.Admissions(calls[..i], calls[i].key) == log
    ensures M.VerdictAt(calls, i) == LogVerdict(log, calls[i].capacity, calls[i].window, calls[i].now)
  {
    M.MemoryIsExact(calls, i);
  }

  lemma {:induction false} ScriptSide(hits: seq<R.Hit>, i: nat, window: int, capacity: int)
    requires R.Spaced(hits) && R.Timely(hits, window) && i < |hits|
    ensures R.VerdictAt(hits, i, window, capacity)
            == ScriptRule(LogAt(hits, i, window, capacity), hits[i].now, window, capacity)
  {
    LogBefore(hits, i, window, capacity);
    R.CountDistinct(LogAt(hits, i, window, capacity), hits[i].now - window, hits[i].now);
    R.RedisIsExact(hits, i, window, capacity);
  }

  // ── Runs ─────────────────────────────────────────────────────────────

  /** Both limiters have admitted the same hits of the run. */
  predicate SameAdmissions(key: string, hits: seq<R.Hit>, window: int, capacity: int) {
    M.Admissions(MemoryHits(key, hits, window, capacity), key) == AsReals(R.Admissions(hits, window, capacity))
  }

  predicate SameVerdict(key: string, hits: seq<R.Hit>, i: nat, window: int, capacity: int)
    requires i < |hits|
  {
    M.VerdictAt(MemoryHits(key, hits, window, capacity), i) == R.VerdictAt(hits, i, window, capacity)
  }

  lemma {:induction false} VerdictsByRules(key: string, hits: seq<R.Hit>, i: nat, window: int, capacity: int)
    requires R.Spaced(hits) && R.Timely(hits, window) && i < |hits|
    requires SameAdmissions(key, hits[..i], window, capacity)
    ensures var log := LogAt(hits, i, window, capacity);
            && M.VerdictAt(MemoryHits(key, hits, window, capacity), i)
               == LogVerdict(AsReals(log), capacity, window as real, hits[i].now as real)
            && R.VerdictAt(hits, i, window, capacity) == ScriptRule(log, hits[i].now, window, capacity)
  {
    MemorySide(key, hits, i, window, capacity, AsReals(LogAt(hits, i, window, capacity)));
    ScriptSide(hits, i, window, capacity);
  }

  /** After equal admissions the next two answers of a run differ exactly at the edge. */
  lemma {:induction false} DifferOnlyAtTheEdge(key: string, hits: seq<R.Hit>, i: nat, window: int, capacity: int)
    requires R.Spaced(hits) && R.Timely(hits, window) && i < |hits|
    requires SameAdmissions(key, hits[..i], window, capacity)
    ensures SameVerdict(key, hits, i, window, capacity) <==> !AtEdge(hits, i, window, capacity)
    ensures var log := LogAt(hits, i, window, capacity);
            M.VerdictAt(MemoryHits(key, hits, window, capacity), i).allowed
            != R.VerdictAt(hits, i, window, capacity).allowed
            <==> FilledByEdge(log, hits[i].now, window, capacity)
  {
    VerdictsByRules(key, hits, i, window, capacity);
    LogBefore(hits, i, window, capacity);
    RulesDifferIff(LogAt(hits, i, window, capacity), hits[i].now, window, capacity);
  }

  lemma {:induction false} AsRealsAppend(log: seq<nat>, t: nat)
    ensures AsReals(log + [t]) == AsReals(log) + [t as real]
  {
  }

  lemma {:induction false} AdmissionsAppend(key: string, hits: seq<R.Hit>, window: int, capacity: int)
    requires hits != []
    requires SameAdmissions(key, hits[..|hits| - 1], window, capacity)
    requires SameVerdict(key, hits, |hits| - 1, window, capacity)
    ensures SameAdmissions(key, hits, window, capacity)
  {
    var n := |hits| - 1;
    var calls, log := MemoryHits(key, hits, window, capacity), R.Admissions(hits[..n], window, capacity);
    assert calls[..n] == MemoryHits(key, hits[..n], window, capacity);
    AsRealsAppend(log, hits[n].now);
    assert log + [] == log && AsReals(log) + [] == AsReals(log);
  }

  lemma {:induction false} AlikeStep(key: string, hits: seq<R.Hit>, i: nat, window: int, capacity: int)
    requires R.Spaced(hits) && R.Timely(hits, window) && i < |hits|
    requires SameAdmissions(key, hits[..i], window, capacity)
    ensures SameVerdict(key, hits, i, window, capacity) <==> !AtEdge(hits, i, window, capacity)
    ensures SameVerdict(key, hits, i, window, capacity) ==> SameAdmissions(key, hits[..i + 1], window, capacity)
  {
    DifferOnlyAtTheEdge(key, hits, i, window, capacity);
    if SameVerdict(key, hits, i, window, capacity) {
      PrefixVerdict(key, hits, i + 1, window, capacity);
      assert hits[..i + 1][..i] == hits[..i];
      AdmissionsAppend(key, hits[..i + 1], window, capacity);
    }
  }

  lemma {:induction false} NothingYet(key: string, hits: seq<R.Hit>, window: int, capacity: int)
    requires |hits| == 0
    ensures SameAdmissions(key, hits, window, capacity)
  {
  }

  /** If alike answers keep two runs equal, then answering alike throughout is never meeting a difference. */
  lemma {:induction false} AlikeThroughout(equal: nat -> bool, alike: nat -> bool, edge: nat -> bool, n: nat)
    requires equal(0)
    requires forall i: nat :: i < n && equal(i) ==> (alike(i) <==> !edge(i)) && (alike(i) ==> equal(i + 1))
    ensures (forall i: nat :: i < n ==> alike(i)) <==> (forall i: nat :: i < n ==> !edge(i))
    ensures (forall i: nat :: i < n ==> alike(i)) ==> equal(n)
  {
    if n > 0 {
      AlikeThroughout(equal, alike, edge, n - 1);
    }
  }

  lemma {:induction false} PrefixVerdict(key: string, hits: seq<R.Hit>, n: nat, window: int, capacity: int)
    requires 0 < n <= |hits| && SameVerdict(key, hits, n - 1, window, capacity)
    ensures SameVerdict(key, hits[..n], n - 1, window, capacity)
  {
    var calls, fewer := MemoryHits(key, hits, window, capacity), MemoryHits(key, hits[..n], window, capacity);
    assert hits[..n][..n - 1] == hits[..n - 1];
    assert calls[..n - 1] == fewer[..n - 1] && calls[n - 1] == fewer[n - 1];
  }

  /** The limiters answer a whole run alike exactly when no hit of it is at the edge. */
  lemma {:induction false} AgreeIffNeverAtEdge(key: string, hits: seq<R.Hit>, window: int, capacity: int)
    requires R.Spaced(hits) && R.Timely(hits, window)
    ensures (forall i: nat :: i < |hits| ==> SameVerdict(key, hits, i, window, capacity))
            <==> (forall i: nat :: i < |hits| ==> !AtEdge(hits, i, window, capacity))
  {
    var equal := (i: nat) => i <= |hits| && SameAdmissions(key, hits[..i], window, capacity);
    var alike := (i: nat) => i < |hits| && SameVerdict(key, hits, i, window, capacity);
    var edge := (i: nat) => i < |hits| && AtEdge(hits, i, window, capacity);
    NothingYet(key, hits[..0], window, capacity);
    forall i: nat | i < |hits| && equal(i)
      ensures (alike(i) <==> !edge(i)) && (alike(i) ==> equal(i + 1))
    {
      AlikeStep(key, hits, i, window, capacity);
    }
    AlikeThroughout(equal, alike, edge, |hits|);
    assert forall i: nat :: i < |hits| ==> (alike(i) <==> SameVerdict(key, hits, i, window, capacity));
    assert forall i: nat :: i < |hits| ==> (edge(i) <==> AtEdge(hits, i, window, capacity));
  }

  /** In particular on every run with no two hits exactly `window` apart. */
  lemma {:induction false} LimitersAgree(key: string, hits: seq<R.Hit>, i: nat, window: int, capacity: int)
    requires R.Spaced(hits) && R.Timely(hits, window) && NeverExactlyApart(hits, window) && i < |hits|
    ensures M.VerdictAt(MemoryHits(key, hits, window, capacity), i) == R.VerdictAt(hits, i, window, capacity)
  {
    forall k: nat | k < |hits|
      ensures !AtEdge(hits, k, window, capacity)
    {
      LogBefore(hits, k, window, capacity);
    }
    AgreeIffNeverAtEdge(key, hits, window, capacity);
    assert SameVerdict(key, hits, i, window, capacity);
  }

  /** Two hits exactly one window apart: the script has forgotten the first, the in-process limiter has not. */
  function EdgeRun(window: nat): seq<R.Hit> {
    [R.Hit(0, 0), R.Hit(window, window)]
  }

  lemma {:induction false} EdgeRunDiffers(key: string, window: nat, capacity: int)
    requires window > 0 && capacity >= 1
    ensures R.Spaced(EdgeRun(window)) && R.Timely(EdgeRun(window), window)
    ensures !SameVerdict(key, EdgeRun(window), 1, window, capacity)
    ensures capacity == 1 ==>
              !M.VerdictAt(MemoryHits(key, EdgeRun(window), window, capacity), 1).allowed
              && R.VerdictAt(EdgeRun(window), 1, window, capacity).allowed
  {
    var hits := EdgeRun(window);
    FirstAdmitted(key, hits, window, capacity);
    SecondDiffers(key, hits, window, capacity);
  }

  lemma {:induction false} FirstAdmitted(key: string, hits: seq<R.Hit>, window: int, capacity: int)
    requires R.Spaced(hits) && R.Timely(hits, window) && |hits| >= 1 && capacity >= 1
    ensures LogAt(hits, 1, window, capacity) == [hits[0].now]
    ensures SameAdmissions(key, hits[..1], window, capacity)
  {
    assert hits[..1][..0] == hits[..0] && hits[..1] == hits[..0] + [hits[0]];
    R.RunStep(hits[..0], hits[0], window, capacity);
    NothingYet(key, hits[..0], window, capacity);
    AlikeStep(key, hits, 0, window, capacity);
  }

  lemma {:induction false} SecondDiffers(key: string, hits: seq<R.Hit>, window: int, capacity: int)
    requires R.Spaced(hits) && R.Timely(hits, window) && |hits| == 2 && window > 0 && capacity >= 1
    requires hits[1].now == hits[0].now + window
    requires LogAt(hits, 1, window, capacity) == [hits[0].now]
    requires SameAdmissions(key, hits[..1], window, capacity)
    ensures !SameVerdict(key, hits, 1, window, capacity)
    ensures capacity == 1 ==>
              !M.VerdictAt(MemoryHits(key, hits, window, capacity), 1).allowed
              && R.VerdictAt(hits, 1, window, capacity).allowed
  {
    OneEntryOnEdge(LogAt(hits, 1, window, capacity), hits[1].now, window, capacity);
    DifferOnlyAtTheEdge(key, hits, 1, window, capacity);
    ScriptSide(hits, 1, window, capacity);
  }

  lemma {:induction false} OneEntryOnEdge(log: seq<nat>, now: nat, window: int, capacity: int)
    requires |log| == 1 && log[0] == now - window && capacity >= 1
    ensures OnEdge(log, now, window, capacity) && ScriptRule(log, now, window, capacity).allowed
    ensures capacity == 1 ==> FilledByEdge(log, now, window, capacity)
  {
  }

  ghost predicate AlwaysAgree(key: string, window: int, capacity: int) {
    forall hits, i: nat | R.Spaced(hits) && R.Timely(hits, window) && i < |hits| ::
      SameVerdict(key, hits, i, window, capacity)
  }

  /** The two limiters can be exchanged on all such runs only where there is nothing to limit or nothing to admit. */
  lemma {:induction false} AlwaysAgreeIff(key: string, window: int, capacity: int)
    ensures AlwaysAgree(key, window, capacity) <==> capacity <= 0 || window <= 0
  {
    if capacity <= 0 || window <= 0 {
      forall hits, i: nat | R.Spaced(hits) && R.Timely(hits, window) && i < |hits|
        ensures SameVerdict(key, hits, i, window, capacity)
      {
        forall k: nat | k < |hits|
          ensures !AtEdge(hits, k, window, capacity)
        {
          LogBefore(hits, k, window, capacity);
        }
        AgreeIffNeverAtEdge(key, hits, window, capacity);
      }
    } else {
      EdgeRunDiffers(key, window, capacity);
    }
  }
}
