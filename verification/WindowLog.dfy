/**
 The reference for both rate limiters: an untrimmed log of admission times, and a verdict
 read directly off how many admissions the closing window already holds.
 */
module WindowLog {
  datatype Verdict = Verdict(allowed: bool, remaining: int)

  /** Admissions in the closed interval [from, to]. */
  function CountIn(log: seq<real>, from: real, to: real): nat {
    if log == [] then 0
    else CountIn(log[..|log| - 1], from, to) + if from <= log[|log| - 1] <= to then 1 else 0
  }

  /** Refuse exactly when [now - window, now] already holds `capacity` admissions. */
  function LogVerdict(log: seq<real>, capacity: int, window: real, now: real): Verdict {
    var used := CountIn(log, now - window, now);
    if used >= capacity then Verdict(false, 0) else Verdict(true, capacity - used - 1)
  }

  function NonNegative(n: int): nat {
    if n < 0 then 0 else n
  }

  /** Admissions in the closed interval of length `window` that starts at `from`. */
  function CountWindow(log: seq<real>, from: real, window: real): nat {
    CountIn(log, from, from + window)
  }

  /** No closed interval of length `window` holds more than `capacity` admissions. */
  ghost predicate Bounded(log: seq<real>, capacity: int, window: real) {
    forall from: real :: CountWindow(log, from, window) <= NonNegative(capacity)
  }

  lemma {:induction false} CountAppend(log: seq<real>, t: real, from: real, to: real)
    ensures CountIn(log + [t], from, to) == CountIn(log, from, to) + if from <= t <= to then 1 else 0
  {
    assert (log + [t])[..|log|] == log;
  }

  lemma {:induction false} CountWider(log: seq<real>, a: real, b: real, c: real, d: real)
    requires forall i :: 0 <= i < |log| && a <= log[i] <= b ==> c <= log[i] <= d
    ensures CountIn(log, a, b) <= CountIn(log, c, d)
  {
    if log != [] {
      CountWider(log[..|log| - 1], a, b, c, d);
    }
  }

  /** Admitting by LogVerdict keeps every window bounded, whichever windows came before. */
  lemma {:induction false} AdmitKeepsBounded(log: seq<real>, capacity: int, window: real, now: real)
    requires Bounded(log, capacity, window)
    requires forall i :: 0 <= i < |log| ==> log[i] <= now
    requires LogVerdict(log, capacity, window, now).allowed
    ensures Bounded(log + [now], capacity, window)
  {
    forall from: real
      ensures CountWindow(log + [now], from, window) <= NonNegative(capacity)
    {
      assert CountWindow(log, from, window) <= NonNegative(capacity);
      CountAppend(log, now, from, from + window);
      if from <= now <= from + window {
        CountWider(log, from, from + window, now - window, now);
      }
    }
  }

  lemma {:induction false} CountNone(log: seq<real>, from: real, to: real)
    requires forall i :: 0 <= i < |log| ==> !(from <= log[i] <= to)
    ensures CountIn(log, from, to) == 0
  {
    if log != [] {
      CountNone(log[..|log| - 1], from, to);
    }
  }

  lemma {:induction false} CountAll(log: seq<real>, from: real, to: real)
    requires forall i :: 0 <= i < |log| ==> from <= log[i] <= to
    ensures CountIn(log, from, to) == |log|
  {
    if log != [] {
      CountAll(log[..|log| - 1], from, to);
    }
  }

  lemma {:induction false} CountConcat(a: seq<real>, b: seq<real>, from: real, to: real)
    ensures CountIn(a + b, from, to) == CountIn(a, from, to) + CountIn(b, from, to)
  {
    if b == [] {
      assert a + b == a;
    } else {
      assert (a + b)[..|a + b| - 1] == a + b[..|b| - 1];
      CountConcat(a, b[..|b| - 1], from, to);
    }
  }
}
