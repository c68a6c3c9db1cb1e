/**
 The in-process sliding-window limiter (InMemoryLimiter of backend/app/core/ratelimit.py):
 a dictionary of buckets, each a deque of admission times trimmed from the left. Time is
 the monotonic clock, as a real number in any unit.
 */
module MemoryLimiter {
  import opened Options
  import opened WindowLog

  /** The value of one bucket object. */
  datatype BucketState = BucketState(capacity: int, windowSeconds: real, timestamps: seq<real>)

  /** One call of `hit`, with the clock reading it takes. */
  datatype HitCall = HitCall(key: string, capacity: int, window: real, now: real)

  /** popleft while the oldest entry is before the cutoff */
  function Trim(stamps: seq<real>, cutoff: real): seq<real> {
    if stamps != [] && stamps[0] < cutoff then Trim(stamps[1..], cutoff) else stamps
  }

  /** The bucket a hit works on: a fresh one if there is none or the capacity changed. */
  function Current(b: Option<BucketState>, h: HitCall): BucketState {
    if b.None? || b.value.capacity != h.capacity then BucketState(h.capacity, h.window, []) else b.value
  }

  /** The entries left after trimming; a fresh bucket has none. */
  function Kept(b: Option<BucketState>, h: HitCall): seq<real> {
    if b.None? || b.value.capacity != h.capacity then [] else Trim(b.value.timestamps, h.now - h.window)
  }

  function HitVerdict(b: Option<BucketState>, h: HitCall): Verdict {
    var kept := Kept(b, h);
    if |kept| >= h.capacity then Verdict(false, 0) else Verdict(true, h.capacity - (|kept| + 1))
  }

  function HitBucket(b: Option<BucketState>, h: HitCall): BucketState {
    var kept := Kept(b, h);
    Current(b, h).(timestamps := if |kept| >= h.capacity then kept else kept + [h.now])
  }

  /** The key only selects the bucket. */
  lemma {:induction false} OnCurrent(b: Option<BucketState>, key: string, h: HitCall)
    ensures HitVerdict(Some(Current(b, h)), h.(key := key)) == HitVerdict(b, h)
    ensures HitBucket(Some(Current(b, h)), h.(key := key)) == HitBucket(b, h)
  {
  }

  function Lookup(buckets: map<string, BucketState>, key: string): Option<BucketState> {
    if key in buckets then Some(buckets[key]) else None
  }

  lemma {:induction false} OneEntryChanged(m: map<string, BucketState>, n: map<string, BucketState>,
                                           key: string, b: BucketState)
    requires key in n && n[key] == b
    requires forall k :: k in n && k != key ==> k in m && n[k] == m[k]
    requires forall k :: k in m ==> k in n
    ensures n == m[key := b]
  {
  }

  // ── The limiter object ───────────────────────────────────────────────

  class Bucket {
    var capacity: int
    var windowSeconds: real
    var timestamps: seq<real>

    constructor (capacity: int, windowSeconds: real)
      ensures State() == BucketState(capacity, windowSeconds, [])
    {
      this.capacity := capacity;
      this.windowSeconds := windowSeconds;
      timestamps := [];
    }

    function State(): BucketState
      reads this
    {
      BucketState(capacity, windowSeconds, timestamps)
    }

    /** Trim from the left, then refuse or append. */
    method Take(capacity: int, window: real, now: real) returns (allowed: bool, remaining: int)
      requires this.capacity == capacity
      modifies `timestamps
      ensures var h := HitCall("", capacity, window, now);
              Verdict(allowed, remaining) == HitVerdict(Some(old(State())), h)
              && State() == HitBucket(Some(old(State())), h)
    {
      var cutoff := now - window;
      while timestamps != [] && timestamps[0] < cutoff
        invariant Trim(timestamps, cutoff) == Trim(old(timestamps), cutoff)
        decreases |timestamps|
      {
        timestamps := timestamps[1..];
      }
      if |timestamps| >= capacity {
        return false, 0;
      }
      timestamps := timestamps + [now];
      return true, capacity - |timestamps|;
    }
  }

  class InMemoryLimiter {
    var buckets: map<string, Bucket>

    /** No two keys share a bucket object. */
    ghost predicate Valid()
      reads this
    {
      forall k, l :: k in buckets && l in buckets && k != l ==> buckets[k] != buckets[l]
    }

    ghost function Contents(): map<string, BucketState>
      reads this, buckets.Values
    {
      map k | k in buckets :: buckets[k].State()
    }

    constructor ()
      ensures Valid() && Contents() == map[]
    {
      buckets := map[];
    }

    /** The bucket a hit on `key` works on, replaced by an empty one when missing or of another capacity. */
    method BucketFor(key: string, capacity: int, window: real) returns (b: Bucket)
      requires Valid()
      modifies this
      ensures Valid() && key in buckets && buckets[key] == b
      ensures b in old(buckets.Values) || fresh(b)
      ensures buckets == old(buckets)[key := b]
      ensures b.State() == Current(old(Lookup(Contents(), key)), HitCall(key, capacity, window, 0.0))
      ensures unchanged(old(buckets.Values))
    {
      if key !in buckets || buckets[key].capacity != capacity {
        b := new Bucket(capacity, window);
        buckets := buckets[key := b];
      } else {
        b := buckets[key];
      }
    }

    method Hit(key: string, capacity: int, window: real, now: real) returns (allowed: bool, remaining: int)
      requires Valid()
      modifies this, buckets.Values
      ensures Valid()
      ensures fresh(buckets.Values - old(buckets.Values))
      ensures var before := old(Lookup(Contents(), key));
              var h := HitCall(key, capacity, window, now);
              && Verdict(allowed, remaining) == HitVerdict(before, h)
              && Contents() == old(Contents())[key := HitBucket(before, h)]
    {
      ghost var entry := Contents();
      ghost var before := Lookup(entry, key);
      ghost var h := HitCall(key, capacity, window, now);
      var b := BucketFor(key, capacity, window);
      assert b.State() == Current(before, h);
      allowed, remaining := b.Take(capacity, window, now);
      OnCurrent(before, "", h);
      assert forall k :: k in buckets && k != key ==> k in entry && buckets[k].State() == entry[k] by {
        forall k | k in buckets && k != key
          ensures k in entry && buckets[k].State() == entry[k]
        {
          assert buckets[k] == old(buckets[k]);
        }
      }
      OneEntryChanged(entry, Contents(), key, HitBucket(before, h));
    }
  }

  // ── Runs ─────────────────────────────────────────────────────────────

  /** The dictionary after a run of hits, starting empty. */
  function After(hits: seq<HitCall>): map<string, BucketState> {
    if hits == [] then map[]
    else
      var h := hits[|hits| - 1];
      var before := After(hits[..|hits| - 1]);
      before[h.key := HitBucket(Lookup(before, h.key), h)]
  }

  /** The answer to the i-th hit of a run. */
  function VerdictAt(hits: seq<HitCall>, i: nat): Verdict
    requires i < |hits|
  {
    HitVerdict(Lookup(After(hits[..i]), hits[i].key), hits[i])
  }

  /** The untrimmed log: the times at which the run admitted `key`. */
  function Admissions(hits: seq<HitCall>, key: string): seq<real> {
    if hits == [] then []
    else
      var h := hits[|hits| - 1];
      Admissions(hits[..|hits| - 1], key)
      + if h.key == key && VerdictAt(hits, |hits| - 1).allowed then [h.now] else []
  }

  predicate Monotone(hits: seq<HitCall>) {
    forall i, j :: 0 <= i < j < |hits| ==> hits[i].now <= hits[j].now
  }

  /** Every hit on a key uses one capacity and one window. */
  predicate FixedPerKey(hits: seq<HitCall>) {
    forall i, j :: 0 <= i < |hits| && 0 <= j < |hits| && hits[i].key == hits[j].key ==>
      hits[i].capacity == hits[j].capacity && hits[i].window == hits[j].window
  }

  // ── The trimmed deque against the log ────────────────────────────────

  lemma {:induction false} TrimPrefix(a: seq<real>, b: seq<real>, cutoff: real)
    requires forall i :: 0 <= i < |a| ==> a[i] < cutoff
    ensures Trim(a + b, cutoff) == Trim(b, cutoff)
  {
    if a == [] {
      assert a + b == b;
    } else {
      assert (a + b)[1..] == a[1..] + b;
      TrimPrefix(a[1..], b, cutoff);
    }
  }

  lemma {:induction false} TrimSplits(s: seq<real>, cutoff: real) returns (dropped: seq<real>)
    ensures s == dropped + Trim(s, cutoff)
    ensures forall i :: 0 <= i < |dropped| ==> dropped[i] < cutoff
  {
    if s != [] && s[0] < cutoff {
      var rest := TrimSplits(s[1..], cutoff);
      dropped := [s[0]] + rest;
    } else {
      dropped := [];
    }
  }

  predicate Sorted(s: seq<real>) {
    forall i, j :: 0 <= i < j < |s| ==> s[i] <= s[j]
  }

  /** On a sorted log up to now, what trimming keeps is exactly what the window holds. */
  lemma {:induction false} TrimCounts(log: seq<real>, cutoff: real, now: real)
    requires Sorted(log)
    requires forall i :: 0 <= i < |log| ==> log[i] <= now
    ensures |Trim(log, cutoff)| == CountIn(log, cutoff, now)
  {
    var dropped := TrimSplits(log, cutoff);
    var kept := Trim(log, cutoff);
    CountConcat(dropped, kept, cutoff, now);
    CountNone(dropped, cutoff, now);
    TrimHead(log, cutoff);
    forall i | 0 <= i < |kept|
      ensures cutoff <= kept[i] <= now
    {
      assert kept[0] == log[|dropped|] && kept[i] == log[|dropped| + i];
    }
    CountAll(kept, cutoff, now);
  }

  lemma {:induction false} TrimHead(s: seq<real>, cutoff: real)
    ensures Trim(s, cutoff) != [] ==> Trim(s, cutoff)[0] >= cutoff
  {
    if s != [] && s[0] < cutoff {
      TrimHead(s[1..], cutoff);
    }
  }

  /** What the run keeps for a key: its deque is the log without entries no later window can hold. */
  ghost predicate Represents(b: BucketState, log: seq<real>, window: real, latest: real) {
    && Sorted(log)
    && (forall i :: 0 <= i < |log| ==> log[i] <= latest)
    && exists dropped :: log == dropped + b.timestamps && AllBefore(dropped, latest - window)
  }

  predicate AllBefore(s: seq<real>, cutoff: real) {
    forall i :: 0 <= i < |s| ==> s[i] < cutoff
  }

  /** Trimming the deque or the log leaves the same entries, as many as the closing window holds. */
  lemma {:induction false} TrimmedAlike(b: BucketState, log: seq<real>, h: HitCall, latest: real)
    requires Represents(b, log, h.window, latest) && latest <= h.now
    ensures Trim(b.timestamps, h.now - h.window) == Trim(log, h.now - h.window)
    ensures |Trim(log, h.now - h.window)| == CountIn(log, h.now - h.window, h.now)
  {
    var dropped :| log == dropped + b.timestamps && AllBefore(dropped, latest - h.window);
    TrimPrefix(dropped, b.timestamps, h.now - h.window);
    TrimCounts(log, h.now - h.window, h.now);
  }

  lemma {:induction false} WitnessRepresents(b: BucketState, log: seq<real>, dropped: seq<real>,
                                             window: real, latest: real)
    requires Sorted(log) && (forall i :: 0 <= i < |log| ==> log[i] <= latest)
    requires log == dropped + b.timestamps && AllBefore(dropped, latest - window)
    ensures Represents(b, log, window, latest)
  {
  }

  lemma {:induction false} SortedAppend(log: seq<real>, now: real)
    requires Sorted(log) && (forall i :: 0 <= i < |log| ==> log[i] <= now)
    ensures Sorted(log + [now])
    ensures forall i :: 0 <= i < |log + [now]| ==> (log + [now])[i] <= now
  {
  }

  lemma {:induction false} Regroup(log: seq<real>, gone: seq<real>, kept: seq<real>, now: real)
    requires log == gone + kept
    ensures log + [now] == gone + (kept + [now])
  {
  }

  /** A refusal: the log is represented by what trimming it keeps. */
  lemma {:induction false} RefusalRepresents(b: BucketState, log: seq<real>, window: real, now: real)
    requires Sorted(log) && (forall i :: 0 <= i < |log| ==> log[i] <= now)
    requires b.timestamps == Trim(log, now - window)
    ensures Represents(b, log, window, now)
  {
    var gone := TrimSplits(log, now - window);
    WitnessRepresents(b, log, gone, window, now);
  }

  /** An admission: what is kept and the new entry represent the longer log. */
  lemma {:induction false} AdmissionRepresents(b: BucketState, log: seq<real>, window: real, now: real)
    requires Sorted(log) && (forall i :: 0 <= i < |log| ==> log[i] <= now)
    requires b.timestamps == Trim(log, now - window) + [now]
    ensures Represents(b, log + [now], window, now)
  {
    var gone := TrimSplits(log, now - window);
    Regroup(log, gone, Trim(log, now - window), now);
    SortedAppend(log, now);
    WitnessRepresents(b, log + [now], gone, window, now);
  }

  lemma {:induction false} HitBySize(b: BucketState, log: seq<real>, h: HitCall)
    requires b.capacity == h.capacity && Trim(b.timestamps, h.now - h.window) == Trim(log, h.now - h.window)
    requires |Trim(log, h.now - h.window)| == CountIn(log, h.now - h.window, h.now)
    ensures HitVerdict(Some(b), h) == LogVerdict(log, h.capacity, h.window, h.now)
  {
  }

  lemma {:induction false} HitStaysRepresented(b: BucketState, log: seq<real>, h: HitCall)
    requires b.capacity == h.capacity && Trim(b.timestamps, h.now - h.window) == Trim(log, h.now - h.window)
    requires Sorted(log) && (forall i :: 0 <= i < |log| ==> log[i] <= h.now)
    ensures HitVerdict(Some(b), h).allowed ==> Represents(HitBucket(Some(b), h), log + [h.now], h.window, h.now)
    ensures !HitVerdict(Some(b), h).allowed ==> Represents(HitBucket(Some(b), h), log, h.window, h.now)
  {
    if HitVerdict(Some(b), h).allowed {
      AdmissionRepresents(HitBucket(Some(b), h), log, h.window, h.now);
    } else {
      RefusalRepresents(HitBucket(Some(b), h), log, h.window, h.now);
    }
  }

  /** One hit on a represented bucket answers as the log does and stays represented. */
  lemma {:induction false} HitRefinesLog(b: BucketState, log: seq<real>, h: HitCall, latest: real)
    requires Represents(b, log, h.window, latest) && b.capacity == h.capacity && latest <= h.now
    ensures HitVerdict(Some(b), h) == LogVerdict(log, h.capacity, h.window, h.now)
    ensures HitVerdict(Some(b), h).allowed ==> Represents(HitBucket(Some(b), h), log + [h.now], h.window, h.now)
    ensures !HitVerdict(Some(b), h).allowed ==> Represents(HitBucket(Some(b), h), log, h.window, h.now)
  {
    TrimmedAlike(b, log, h, latest);
    HitBySize(b, log, h);
    HitStaysRepresented(b, log, h);
  }

  lemma {:induction false} FreshRefinesLog(b: Option<BucketState>, h: HitCall)
    requires b.None?
    ensures HitVerdict(b, h) == LogVerdict([], h.capacity, h.window, h.now)
    ensures var log' := if HitVerdict(b, h).allowed then [h.now] else [];
            Represents(HitBucket(b, h), log', h.window, h.now)
  {
    var bucket := HitBucket(b, h);
    assert bucket.timestamps == [] + bucket.timestamps && AllBefore([], h.now - h.window);
  }

  predicate KeyUsed(hits: seq<HitCall>, key: string) {
    exists i :: 0 <= i < |hits| && hits[i].key == key
  }

  /** The bucket of `key` after a run, together with the log it stands for. */
  ghost predicate KeyInv(hits: seq<HitCall>, key: string, capacity: int, window: real, latest: real) {
    && (key in After(hits) <==> KeyUsed(hits, key))
    && (key !in After(hits) ==> Admissions(hits, key) == [])
    && (key in After(hits) ==>
          After(hits)[key].capacity == capacity
          && Represents(After(hits)[key], Admissions(hits, key), window, latest))
    && Bounded(Admissions(hits, key), capacity, window)
  }

  lemma {:induction false} BoundedEmpty(capacity: int, window: real)
    ensures Bounded([], capacity, window)
  {
  }

  lemma {:induction false} RepresentsLater(b: BucketState, log: seq<real>, window: real, latest: real, later: real)
    requires Represents(b, log, window, latest) && latest <= later
    ensures Represents(b, log, window, later)
  {
    var dropped :| log == dropped + b.timestamps && AllBefore(dropped, latest - window);
    assert AllBefore(dropped, later - window);
  }

  /** One more hit: only its own key's bucket and log move. */
  lemma {:induction false} RunStep(before: seq<HitCall>, h: HitCall, key: string)
    ensures After(before + [h]) == After(before)[h.key := HitBucket(Lookup(After(before), h.key), h)]
    ensures Admissions(before + [h], key)
            == Admissions(before, key)
               + if h.key == key && HitVerdict(Lookup(After(before), h.key), h).allowed then [h.now] else []
    ensures KeyUsed(before + [h], key) <==> KeyUsed(before, key) || h.key == key
  {
    var hits := before + [h];
    assert hits[..|before|] == before && hits[|before|] == h;
    if KeyUsed(before, key) {
      var i :| 0 <= i < |before| && before[i].key == key;
      assert hits[i].key == key;
    }
  }

  lemma {:induction false} NoHitsInv(hits: seq<HitCall>, key: string, capacity: int, window: real, latest: real)
    requires |hits| == 0
    ensures KeyInv(hits, key, capacity, window, latest)
  {
    BoundedEmpty(capacity, window);
  }

  lemma {:induction false} StepKeepsKeyInv(before: seq<HitCall>, h: HitCall, key: string, capacity: int,
                                           window: real, latest: real)
    requires KeyInv(before, key, capacity, window, h.now) && h.now <= latest
    requires h.key == key ==> h.capacity == capacity && h.window == window
    ensures KeyInv(before + [h], key, capacity, window, latest)
  {
    if h.key == key {
      KeyStep(before, h, latest);
    } else {
      OtherKeyStep(before, h, key, capacity, window, latest);
    }
  }

  lemma {:induction false} KeyInvHolds(hits: seq<HitCall>, key: string, capacity: int, window: real, latest: real)
    requires Monotone(hits)
    requires forall i :: 0 <= i < |hits| && hits[i].key == key ==>
               hits[i].capacity == capacity && hits[i].window == window
    requires forall i :: 0 <= i < |hits| ==> hits[i].now <= latest
    ensures KeyInv(hits, key, capacity, window, latest)
  {
    if hits == [] {
      NoHitsInv(hits, key, capacity, window, latest);
    } else {
      var n := |hits| - 1;
      KeyInvHolds(hits[..n], key, capacity, window, hits[n].now);
      StepKeepsKeyInv(hits[..n], hits[n], key, capacity, window, latest);
      assert hits == hits[..n] + [hits[n]];
    }
  }

  lemma {:induction false} OtherKeyStep(before: seq<HitCall>, h: HitCall, key: string, capacity: int,
                                        window: real, latest: real)
    requires KeyInv(before, key, capacity, window, h.now) && h.key != key && h.now <= latest
    ensures KeyInv(before + [h], key, capacity, window, latest)
  {
    RunStep(before, h, key);
    assert Admissions(before + [h], key) == Admissions(before, key);
    if key in After(before) {
      RepresentsLater(After(before)[key], Admissions(before, key), window, h.now, latest);
    }
  }

  lemma {:induction false} KeyStep(before: seq<HitCall>, h: HitCall, latest: real)
    requires KeyInv(before, h.key, h.capacity, h.window, h.now) && h.now <= latest
    ensures KeyInv(before + [h], h.key, h.capacity, h.window, latest)
  {
    RunStep(before, h, h.key);
    var b, log := Lookup(After(before), h.key), Admissions(before, h.key);
    BucketStep(b, log, h, latest);
    if HitVerdict(b, h).allowed {
      AdmitKeepsBounded(log, h.capacity, h.window, h.now);
      assert Admissions(before + [h], h.key) == log + [h.now];
    } else {
      assert Admissions(before + [h], h.key) == log;
    }
    assert After(before + [h])[h.key] == HitBucket(b, h);
  }

  lemma {:induction false} BucketStep(b: Option<BucketState>, log: seq<real>, h: HitCall, latest: real)
    requires h.now <= latest
    requires b.None? ==> log == []
    requires b.Some? ==> b.value.capacity == h.capacity && Represents(b.value, log, h.window, h.now)
    ensures HitVerdict(b, h) == LogVerdict(log, h.capacity, h.window, h.now)
    ensures HitBucket(b, h).capacity == h.capacity
    ensures Represents(HitBucket(b, h), if HitVerdict(b, h).allowed then log + [h.now] else log, h.window, latest)
    ensures forall i :: 0 <= i < |log| ==> log[i] <= h.now
  {
    if b.Some? {
      HitRefinesLog(b.value, log, h, h.now);
    } else {
      FreshRefinesLog(b, h);
      assert log + [h.now] == [h.now];
    }
    RepresentsLater(HitBucket(b, h), if HitVerdict(b, h).allowed then log + [h.now] else log, h.window, h.now, latest);
  }

  // ── Main results ─────────────────────────────────────────────────────

  /** Every answer is the log's: refused exactly when the closing window is full, `remaining` exact. */
  lemma {:induction false} MemoryIsExact(hits: seq<HitCall>, i: nat)
    requires Monotone(hits) && FixedPerKey(hits) && i < |hits|
    ensures var h := hits[i];
            VerdictAt(hits, i) == LogVerdict(Admissions(hits[..i], h.key), h.capacity, h.window, h.now)
  {
    var h, before := hits[i], hits[..i];
    KeyInvHolds(before, h.key, h.capacity, h.window, h.now);
    var b := Lookup(After(before), h.key);
    if b.Some? {
      HitRefinesLog(b.value, Admissions(before, h.key), h, h.now);
    } else {
      FreshRefinesLog(b, h);
    }
  }

  /** Over a whole run, no closed window of a key's length ever holds more than its capacity. */
  lemma {:induction false} MemoryIsBounded(hits: seq<HitCall>, key: string, capacity: int, window: real)
    requires Monotone(hits)
    requires forall i :: 0 <= i < |hits| && hits[i].key == key ==>
               hits[i].capacity == capacity && hits[i].window == window
    ensures Bounded(Admissions(hits, key), capacity, window)
  {
    if hits == [] {
      BoundedEmpty(capacity, window);
    } else {
      KeyInvHolds(hits, key, capacity, window, hits[|hits| - 1].now);
    }
  }

  function OnlyKey(hits: seq<HitCall>, key: string): seq<HitCall> {
    if hits == [] then []
    else
      OnlyKey(hits[..|hits| - 1], key) + if hits[|hits| - 1].key == key then [hits[|hits| - 1]] else []
  }

  lemma {:induction false} BucketOfKeyAlone(hits: seq<HitCall>, key: string)
    ensures Lookup(After(hits), key) == Lookup(After(OnlyKey(hits, key)), key)
  {
    if hits != [] {
      var before, h := hits[..|hits| - 1], hits[|hits| - 1];
      BucketOfKeyAlone(before, key);
      var alone := OnlyKey(before, key);
      if h.key == key {
        assert (alone + [h])[..|alone|] == alone;
      } else {
        assert alone + [] == alone;
      }
    }
  }

  /** Hits on other keys never change a verdict, whatever their times and capacities. */
  lemma {:induction false} OtherKeysIrrelevant(hits: seq<HitCall>, i: nat)
    requires i < |hits|
    ensures var alone := OnlyKey(hits[..i + 1], hits[i].key);
            alone != [] && alone[|alone| - 1] == hits[i] && VerdictAt(hits, i) == VerdictAt(alone, |alone| - 1)
  {
    var key := hits[i].key;
    assert hits[..i + 1][..i] == hits[..i];
    var before := OnlyKey(hits[..i], key);
    var alone := OnlyKey(hits[..i + 1], key);
    assert alone == before + [hits[i]];
    assert alone[..|alone| - 1] == before;
    BucketOfKeyAlone(hits[..i], key);
  }
}
