/**
 What happens in the in-process limiter when hits on one key ask for different capacities
 (InMemoryLimiter.hit of backend/app/core/ratelimit.py): a change of capacity starts an
 empty bucket, so the window forgets what it held.
 */
module CapacityChanges {
  import opened Options
  import opened WindowLog
  import opened MemoryLimiter

  /** What the last hit on a key asked for. */
  function LastCapacity(hits: seq<HitCall>, key: string): Option<int> {
    if hits == [] then None
    else
      var h := hits[|hits| - 1];
      if h.key == key then Some(h.capacity) else LastCapacity(hits[..|hits| - 1], key)
  }

  /** The last hit on the key, if any, asked for another capacity. */
  predicate Changes(before: seq<HitCall>, h: HitCall) {
    LastCapacity(before, h.key) != Some(h.capacity)
  }

  lemma {:induction false} BucketCapacity(hits: seq<HitCall>, key: string)
    ensures key in After(hits) <==> LastCapacity(hits, key).Some?
    ensures key in After(hits) ==> LastCapacity(hits, key) == Some(After(hits)[key].capacity)
  {
    if hits != [] {
      BucketCapacity(hits[..|hits| - 1], key);
    }
  }

  lemma {:induction false} LastAppend(before: seq<HitCall>, h: HitCall, next: HitCall)
    requires h.key == next.key
    ensures Changes(before + [h], next) <==> h.capacity != next.capacity
  {
  }

  /** A hit that changes the capacity is admitted exactly if the new capacity is positive. */
  lemma {:induction false} FreshHit(before: seq<HitCall>, h: HitCall)
    requires Changes(before, h)
    ensures h.capacity >= 1 ==> Admissions(before + [h], h.key) == Admissions(before, h.key) + [h.now]
    ensures h.capacity < 1 ==> Admissions(before + [h], h.key) == Admissions(before, h.key)
  {
    BucketCapacity(before, h.key);
    RunStep(before, h, h.key);
  }

  /** The i-th of several hits at one instant that ask for the capacities a and b in turn. */
  function Turn(key: string, a: int, b: int, window: real, now: real, i: nat): HitCall {
    HitCall(key, if i % 2 == 0 then a else b, window, now)
  }

  function Turns(key: string, a: int, b: int, window: real, now: real, n: nat): seq<HitCall> {
    seq(n, i requires 0 <= i < n => Turn(key, a, b, window, now, i))
  }

  function Copies(now: real, n: nat): seq<real> {
    seq(n, i => now)
  }

  /** One more turn: it is admitted, and the next one changes the capacity again. */
  lemma {:induction false} TurnStep(before: seq<HitCall>, log: seq<real>, h: HitCall, next: HitCall)
    requires h.key == next.key && h.capacity >= 1 && h.capacity != next.capacity
    requires Changes(before, h) && Admissions(before, h.key) == log
    ensures Admissions(before + [h], h.key) == log + [h.now] && Changes(before + [h], next)
  {
    FreshHit(before, h);
    LastAppend(before, h, next);
  }

  lemma {:induction false} OneMoreTurn(start: seq<HitCall>, log: seq<real>, key: string, a: int, b: int,
                                       window: real, now: real, n: nat)
    ensures start + Turns(key, a, b, window, now, n + 1)
            == start + Turns(key, a, b, window, now, n) + [Turn(key, a, b, window, now, n)]
    ensures log + Copies(now, n + 1) == log + Copies(now, n) + [now]
  {
  }

  lemma {:induction false} NoTurns(start: seq<HitCall>, log: seq<real>, key: string, a: int, b: int,
                                   window: real, now: real, n: nat)
    requires n == 0
    ensures start + Turns(key, a, b, window, now, n) == start && log + Copies(now, n) == log
  {
  }

  /** n turns after `start` were all admitted, and the next one changes the capacity again. */
  predicate AllAdmitted(start: seq<HitCall>, key: string, a: int, b: int, window: real, now: real, n: nat) {
    Admissions(start + Turns(key, a, b, window, now, n), key) == Admissions(start, key) + Copies(now, n)
    && Changes(start + Turns(key, a, b, window, now, n), Turn(key, a, b, window, now, n))
  }

  lemma {:induction false} TurnsDiffer(key: string, a: int, b: int, window: real, now: real, n: nat)
    requires a >= 1 && b >= 1 && a != b
    ensures var h, next := Turn(key, a, b, window, now, n), Turn(key, a, b, window, now, n + 1);
            h.key == next.key == key && h.now == now && h.capacity >= 1 && h.capacity != next.capacity
  {
  }

  lemma {:induction false} NextTurnAdmitted(start: seq<HitCall>, key: string, a: int, b: int,
                                            window: real, now: real, n: nat)
    requires a >= 1 && b >= 1 && a != b
    requires AllAdmitted(start, key, a, b, window, now, n)
    ensures AllAdmitted(start, key, a, b, window, now, n + 1)
  {
    var before, log := start + Turns(key, a, b, window, now, n), Admissions(start, key) + Copies(now, n);
    var h, next := Turn(key, a, b, window, now, n), Turn(key, a, b, window, now, n + 1);
    TurnsDiffer(key, a, b, window, now, n);
    TurnStep(before, log, h, next);
    assert Admissions(before + [h], key) == log + [now] && Changes(before + [h], next);
    OneMoreTurn(start, Admissions(start, key), key, a, b, window, now, n);
  }

  /** Two positive capacities in turn admit every hit, however many there are and whatever came before. */
  lemma {:induction false} AlternatingCapacities(start: seq<HitCall>, key: string, a: int, b: int,
                                                 window: real, now: real, n: nat)
    requires a >= 1 && b >= 1 && a != b
    requires Changes(start, HitCall(key, a, window, now))
    ensures AllAdmitted(start, key, a, b, window, now, n)
  {
    if n == 0 {
      NoTurns(start, Admissions(start, key), key, a, b, window, now, n);
    } else {
      AlternatingCapacities(start, key, a, b, window, now, n - 1);
      NextTurnAdmitted(start, key, a, b, window, now, n - 1);
    }
  }

  // ── When the bound survives ──────────────────────────────────────────

  /** Every hit on `key` asks for a or b. */
  predicate AsksFor(hits: seq<HitCall>, key: string, a: int, b: int, window: real) {
    Monotone(hits)
    && forall i :: 0 <= i < |hits| && hits[i].key == key ==>
         (hits[i].capacity == a || hits[i].capacity == b) && hits[i].window == window
  }

  function Larger(a: int, b: int): int {
    if a < b then b else a
  }

  ghost predicate AlwaysBounded(key: string, a: int, b: int, window: real) {
    forall hits | AsksFor(hits, key, a, b, window) :: Bounded(Admissions(hits, key), Larger(a, b), window)
  }

  lemma {:induction false} NothingAdmitted(hits: seq<HitCall>, key: string)
    requires forall i :: 0 <= i < |hits| && hits[i].key == key ==> hits[i].capacity <= 0
    ensures Admissions(hits, key) == []
  {
    if hits != [] {
      NothingAdmitted(hits[..|hits| - 1], key);
    }
  }

  predicate UpTo(hits: seq<HitCall>, now: real) {
    forall i :: 0 <= i < |hits| ==> hits[i].now <= now
  }

  /** How many admissions of a key lie in the window that starts at an instant. */
  function Crowd(hits: seq<HitCall>, h: HitCall): nat {
    CountWindow(Admissions(hits, h.key), h.now, h.window)
  }

  /** A hit for the first capacity and one for the second: the first is admitted, and its bucket is gone afterwards. */
  lemma {:induction false} PairStep(before: seq<HitCall>, first: HitCall, second: HitCall)
    requires first == second.(capacity := first.capacity) && first.capacity >= 1 && second.capacity != first.capacity
    requires Changes(before, first) && first.window >= 0.0
    ensures Changes(before + [first] + [second], first)
    ensures Crowd(before + [first] + [second], first) >= Crowd(before, first) + 1
  {
    var log, to := Admissions(before, first.key), first.now + first.window;
    FreshHit(before, first);
    LastAppend(before, first, second);
    LastAppend(before + [first], second, first);
    CountAppend(log, first.now, first.now, to);
    FreshHit(before + [first], second);
    CountAppend(log + [first.now], first.now, first.now, to);
  }

  lemma {:induction false} PairAsks(before: seq<HitCall>, first: HitCall, second: HitCall)
    requires first == second.(capacity := first.capacity) && UpTo(before, first.now)
    requires AsksFor(before, first.key, first.capacity, second.capacity, first.window)
    ensures UpTo(before + [first] + [second], first.now)
    ensures AsksFor(before + [first] + [second], first.key, first.capacity, second.capacity, first.window)
  {
  }

  /** After any run n admissions fit into one instant: ask for the second capacity after each hit for the first. */
  lemma {:induction false} Crowded(start: seq<HitCall>, first: HitCall, second: HitCall, n: nat)
    returns (hits: seq<HitCall>)
    requires first == second.(capacity := first.capacity) && first.capacity >= 1 && second.capacity != first.capacity
    requires AsksFor(start, first.key, first.capacity, second.capacity, first.window) && UpTo(start, first.now)
    requires Changes(start, first) && first.window >= 0.0
    ensures AsksFor(hits, first.key, first.capacity, second.capacity, first.window) && UpTo(hits, first.now)
    ensures Changes(hits, first) && Crowd(hits, first) >= n
  {
    if n == 0 {
      hits := start;
    } else {
      var fewer := Crowded(start, first, second, n - 1);
      PairStep(fewer, first, second);
      PairAsks(fewer, first, second);
      hits := fewer + [first] + [second];
    }
  }

  /** After any run, more hits than the first capacity can be admitted in one window. */
  lemma {:induction false} CrowdOverflows(start: seq<HitCall>, first: HitCall, second: HitCall)
    returns (hits: seq<HitCall>)
    requires first == second.(capacity := first.capacity) && first.capacity >= 1 && second.capacity != first.capacity
    requires AsksFor(start, first.key, first.capacity, second.capacity, first.window) && UpTo(start, first.now)
    requires Changes(start, first) && first.window >= 0.0
    ensures AsksFor(hits, first.key, first.capacity, second.capacity, first.window)
    ensures !Bounded(Admissions(hits, first.key), first.capacity, first.window)
  {
    hits := Crowded(start, first, second, first.capacity + 1);
    assert CountWindow(Admissions(hits, first.key), first.now, first.window) > NonNegative(first.capacity);
  }

  lemma {:induction false} NegativeWindowBounded(log: seq<real>, capacity: int, window: real)
    requires window < 0.0
    ensures Bounded(log, capacity, window)
  {
    forall from: real
      ensures CountWindow(log, from, window) <= NonNegative(capacity)
    {
      CountNone(log, from, from + window);
    }
  }

  /**
   Over every monotone run whose hits on a key ask for a or b, no closed window holds more
   than the larger of the two exactly when they are equal, or neither admits anything, or the
   window is empty.
   */
  lemma {:induction false} BoundSurvivesCapacitiesIff(key: string, a: int, b: int, window: real)
    ensures AlwaysBounded(key, a, b, window) <==> a == b || Larger(a, b) <= 0 || window < 0.0
  {
    if a == b || Larger(a, b) <= 0 || window < 0.0 {
      forall hits | AsksFor(hits, key, a, b, window)
        ensures Bounded(Admissions(hits, key), Larger(a, b), window)
      {
        if window < 0.0 {
          NegativeWindowBounded(Admissions(hits, key), Larger(a, b), window);
        } else if a == b {
          MemoryIsBounded(hits, key, a, window);
        } else {
          NothingAdmitted(hits, key);
        }
      }
    } else {
      var first, second := HitCall(key, Larger(a, b), window, 0.0), HitCall(key, if a < b then a else b, window, 0.0);
      NoBucketsYet(first);
      var hits := CrowdOverflows([], first, second);
      assert AsksFor(hits, key, a, b, window);
    }
  }

  lemma {:induction false} NoBucketsYet(h: HitCall)
    ensures Changes([], h)
  {
  }
}
