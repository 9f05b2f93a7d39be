/**
  The in-memory attempt limiter of src/middleware/otpRateLimit.js: fixed windows with a lockout per
  key, and a background sweep that evicts stale buckets. Time is milliseconds since the epoch.
 */
module RateLimit {
  datatype Bucket = Bucket(count: nat, windowStart: nat, lockedUntil: nat)

  type Buckets = map<string, Bucket>

  datatype LimiterOptions = LimiterOptions(max: nat, windowMs: nat, lockMs: nat)

  const OTP_VERIFY := LimiterOptions(5, 5 * 60 * 1000, 15 * 60 * 1000)
  const OTP_ISSUE := LimiterOptions(3, 15 * 60 * 1000, 0)

  /** One attempt on a bucket: the bucket afterwards and whether the attempt is allowed. */
  function Tried(b: Bucket, o: LimiterOptions, now: nat): (Bucket, bool) {
    if b.lockedUntil > now then (b, false)
    else
      var w := if now - b.windowStart >= o.windowMs then b.(count := 0, windowStart := now) else b;
      if w.count >= o.max then (if o.lockMs > 0 then w.(lockedUntil := now + o.lockMs) else w, false)
      else (w.(count := w.count + 1), true)
  }

  function BucketOf(buckets: Buckets, key: string, now: nat): Bucket {
    if key in buckets then buckets[key] else Bucket(0, now, 0)
  }

  function Attempted(buckets: Buckets, key: string, o: LimiterOptions, now: nat): (Buckets, bool) {
    var (b, allowed) := Tried(BucketOf(buckets, key, now), o, now);
    (buckets[key := b], allowed)
  }

  /** A bucket whose window is over and whose lockout is past. */
  predicate Stale(b: Bucket, windowMs: nat, now: nat) {
    now - b.windowStart > windowMs && b.lockedUntil < now
  }

  function Pruned(buckets: Buckets, windowMs: nat, now: nat): Buckets {
    map k | k in buckets && !Stale(buckets[k], windowMs, now) :: buckets[k]
  }

  // ----- Traces ------------------------------------------------------------------------------

  datatype Event = Attempt(key: string, at: nat) | Prune(at: nat)

  datatype Answer = Answer(key: string, at: nat, allowed: bool)

  predicate Ordered(events: seq<Event>, now: nat) {
    (forall i | 0 <= i < |events| :: now <= events[i].at)
    && forall i, j | 0 <= i < j < |events| :: events[i].at <= events[j].at
  }

  function After(buckets: Buckets, e: Event, o: LimiterOptions): Buckets {
    match e
    case Attempt(key, at) => Attempted(buckets, key, o, at).0
    case Prune(at) => Pruned(buckets, o.windowMs, at)
  }

  function Answers(buckets: Buckets, events: seq<Event>, o: LimiterOptions): seq<Answer>
    decreases |events|
  {
    if events == [] then []
    else
      var rest := Answers(After(buckets, events[0], o), events[1..], o);
      match events[0]
      case Attempt(key, at) => [Answer(key, at, Attempted(buckets, key, o, at).1)] + rest
      case Prune(_) => rest
  }

  function State(buckets: Buckets, events: seq<Event>, o: LimiterOptions): Buckets
    decreases |events|
  {
    if events == [] then buckets else State(After(buckets, events[0], o), events[1..], o)
  }

  function WithoutPrunes(events: seq<Event>): seq<Event> {
    if events == [] then []
    else if events[0].Prune? then WithoutPrunes(events[1..])
    else [events[0]] + WithoutPrunes(events[1..])
  }

  // ----- The limiter -------------------------------------------------------------------------

  class RateLimiter {
    var buckets: Buckets

    constructor ()
      ensures buckets == map[]
    {
      buckets := map[];
    }

    method ConsumeRateLimitAttempt(key: string, o: LimiterOptions, now: nat) returns (allowed: bool)
      modifies this
      ensures (buckets, allowed) == Attempted(old(buckets), key, o, now)
    {
      ghost var was := buckets;
      if key !in buckets {
        buckets := buckets[key := Bucket(0, now, 0)];
      }
      assert buckets == was[key := BucketOf(was, key, now)];
      if buckets[key].lockedUntil > now {
        return false;
      }
      if now - buckets[key].windowStart >= o.windowMs {
        buckets := buckets[key := buckets[key].(count := 0, windowStart := now)];
      }
      if buckets[key].count >= o.max {
        if o.lockMs > 0 {
          buckets := buckets[key := buckets[key].(lockedUntil := now + o.lockMs)];
        }
        assert buckets == was[key := buckets[key]];
        return false;
      }
      buckets := buckets[key := buckets[key].(count := buckets[key].count + 1)];
      assert buckets == was[key := buckets[key]];
      return true;
    }

    /** The sweep visits the keys in some order and deletes as it goes. */
    method PruneRateLimitBuckets(windowMs: nat, now: nat)
      modifies this
      ensures buckets == Pruned(old(buckets), windowMs, now)
    {
      var unvisited := buckets.Keys;
      while unvisited != {}
        invariant unvisited <= buckets.Keys <= old(buckets).Keys
        invariant forall k | k in buckets :: buckets[k] == old(buckets)[k]
        invariant forall k | k in old(buckets) && k !in unvisited ::
                    k in buckets <==> !Stale(old(buckets)[k], windowMs, now)
        decreases |unvisited|
      {
        var key :| key in unvisited;
        unvisited := unvisited - {key};
        var windowExpired := now - buckets[key].windowStart > windowMs;
        var unlocked := buckets[key].lockedUntil < now;
        if windowExpired && unlocked {
          buckets := buckets - {key};
        }
      }
    }
  }

  // ----- Eviction is invisible ---------------------------------------------------------------

  /** The same bucket up to lockouts that are over. */
  predicate SameLive(a: Bucket, b: Bucket, now: nat) {
    && a.count == b.count && a.windowStart == b.windowStart
    && (a.lockedUntil == b.lockedUntil || (a.lockedUntil <= now && b.lockedUntil <= now))
  }

  /** The swept map against the unswept one: what is missing has expired, the rest is the same. */
  predicate Simulates(swept: Buckets, full: Buckets, o: LimiterOptions, now: nat) {
    && swept.Keys <= full.Keys
    && (forall k | k in swept :: SameLive(swept[k], full[k], now))
    && (forall k | k in full && k !in swept :: now - full[k].windowStart >= o.windowMs && full[k].lockedUntil <= now)
  }

  lemma SameLiveTried(a: Bucket, b: Bucket, o: LimiterOptions, now: nat)
    requires SameLive(a, b, now)
    ensures Tried(a, o, now).1 == Tried(b, o, now).1
    ensures SameLive(Tried(a, o, now).0, Tried(b, o, now).0, now)
  {
  }

  /** An expired bucket answers like a fresh one, and afterwards is the same up to its old lockout. */
  lemma ExpiredActsFresh(b: Bucket, o: LimiterOptions, now: nat)
    requires now - b.windowStart >= o.windowMs && b.lockedUntil <= now
    ensures Tried(b, o, now).1 == Tried(Bucket(0, now, 0), o, now).1
    ensures SameLive(Tried(Bucket(0, now, 0), o, now).0, Tried(b, o, now).0, now)
  {
  }

  lemma AttemptSimulates(swept: Buckets, full: Buckets, key: string, o: LimiterOptions, now: nat)
    requires Simulates(swept, full, o, now)
    ensures Attempted(swept, key, o, now).1 == Attempted(full, key, o, now).1
    ensures Simulates(Attempted(swept, key, o, now).0, Attempted(full, key, o, now).0, o, now)
  {
    hide Tried;
    if key in swept {
      SameLiveTried(swept[key], full[key], o, now);
    } else if key in full {
      ExpiredActsFresh(full[key], o, now);
    } else {
      SameLiveTried(Bucket(0, now, 0), Bucket(0, now, 0), o, now);
    }
  }

  lemma PruneSimulates(swept: Buckets, full: Buckets, o: LimiterOptions, now: nat)
    requires Simulates(swept, full, o, now)
    ensures Simulates(Pruned(swept, o.windowMs, now), full, o, now)
  {
  }

  lemma TimePasses(swept: Buckets, full: Buckets, o: LimiterOptions, now: nat, later: nat)
    requires Simulates(swept, full, o, now) && now <= later
    ensures Simulates(swept, full, o, later)
  {
  }

  lemma {:induction false} SimulatesAnswers(swept: Buckets, full: Buckets, events: seq<Event>,
                                          o: LimiterOptions, now: nat)
    requires Simulates(swept, full, o, now) && Ordered(events, now)
    ensures Answers(swept, events, o) == Answers(full, WithoutPrunes(events), o)
    decreases |events|
  {
    hide Simulates, Attempted, Pruned;
    if events != [] {
      var at := events[0].at;
      TimePasses(swept, full, o, now, at);
      match events[0]
      case Attempt(key, _) =>
        AttemptSimulates(swept, full, key, o, at);
        SimulatesAnswers(After(swept, events[0], o), After(full, events[0], o), events[1..], o, at);
        var unswept := WithoutPrunes(events);
        assert unswept[0] == events[0] && unswept[1..] == WithoutPrunes(events[1..]);
      case Prune(_) =>
        PruneSimulates(swept, full, o, at);
        SimulatesAnswers(After(swept, events[0], o), full, events[1..], o, at);
    }
  }

  /** Whatever the sweeps do, and whenever, every attempt is answered as if nothing was ever evicted. */
  lemma PruningIsInvisible(events: seq<Event>, o: LimiterOptions)
    requires Ordered(events, 0)
    ensures Answers(map[], events, o) == Answers(map[], WithoutPrunes(events), o)
  {
    SimulatesAnswers(map[], map[], events, o, 0);
  }

  // ----- How many attempts pass in any interval ----------------------------------------------

  /** Allowed attempts on the key with from <= at < from + length. */
  function AllowedIn(answers: seq<Answer>, key: string, from: nat, length: nat): nat {
    if answers == [] then 0
    else
      (if answers[0].key == key && answers[0].allowed && from <= answers[0].at < from + length then 1 else 0)
      + AllowedIn(answers[1..], key, from, length)
  }

  /** The quota of all windows that can have begun and ended between the start of the interval and a moment. */
  function SpentBefore(o: LimiterOptions, from: nat, at: nat): nat
    requires o.windowMs >= 1 && from <= at
  {
    (at - from) / o.windowMs * o.max
  }

  /**
    With passed attempts counted so far and the clock at now: an opening attempt before the interval
    is not counted, so the window it opened reaches at most max - 1 there, and each later one max.
   */
  predicate Within(buckets: Buckets, key: string, o: LimiterOptions, from: nat, length: nat, total: nat,
                   passed: nat, now: nat)
    requires o.windowMs >= 1
  {
    && (now < from ==> passed == 0)
    && (if key !in buckets then passed == 0
        else
          var b := buckets[key];
          && b.windowStart <= now && 1 <= b.count <= o.max
          && (b.windowStart < from ==> passed <= b.count - 1)
          && (from <= b.windowStart < from + length ==>
                passed <= o.max - 1 + SpentBefore(o, from, b.windowStart) + b.count)
          && passed <= total + o.max - 1)
  }

  /** Each window is at least windowMs after the one before it, and k of them fill the interval. */
  lemma SpentGrows(o: LimiterOptions, from: nat, k: nat, at: nat, later: nat)
    requires o.windowMs >= 1 && from <= at
    ensures at < from + k * o.windowMs ==> SpentBefore(o, from, at) + o.max <= k * o.max
    ensures at + o.windowMs <= later ==> SpentBefore(o, from, at) + o.max <= SpentBefore(o, from, later)
  {
    var w := o.windowMs;
    var q := (at - from) / w;
    assert at - from == q * w + (at - from) % w;
    if at < from + k * w {
      FewerMultiples(q, k, w);
      MoreMultiples(q + 1, k, o.max);
    }
    if at + w <= later {
      var q' := (later - from) / w;
      assert later - from == q' * w + (later - from) % w;
      FewerMultiples(q, q', w);
      MoreMultiples(q + 1, q', o.max);
    }
  }

  lemma FewerMultiples(a: nat, b: nat, w: nat)
    requires a * w < b * w || (a + 1) * w < b * w + w
    ensures a < b
  {
    if b <= a {
      MoreMultiples(b, a, w);
    }
  }

  lemma MoreMultiples(a: nat, b: nat, w: nat)
    requires a <= b
    ensures a * w <= b * w
  {
  }

  lemma WithinStep(buckets: Buckets, key: string, o: LimiterOptions, from: nat, length: nat, total: nat,
                   passed: nat, now: nat, e: Event)
    requires o.max >= 1 && o.windowMs >= 1
    requires e.Attempt? && now <= e.at && Within(buckets, key, o, from, length, total, passed, now)
    requires from <= e.at < from + length ==> SpentBefore(o, from, e.at) + o.max <= total
    requires key in buckets && from <= buckets[key].windowStart ==>
               var start := buckets[key].windowStart;
               && (start < from + length ==> SpentBefore(o, from, start) + o.max <= total)
               && (start + o.windowMs <= e.at ==> SpentBefore(o, from, start) + o.max <= SpentBefore(o, from, e.at))
    ensures var (after, allowed) := Attempted(buckets, e.key, o, e.at);
            var counts := e.key == key && allowed && from <= e.at < from + length;
            Within(after, key, o, from, length, total, passed + if counts then 1 else 0, e.at)
  {
    hide SpentBefore;
  }

  lemma {:induction false} WithinForever(buckets: Buckets, key: string, o: LimiterOptions,
                                       from: nat, k: nat, passed: nat, now: nat, events: seq<Event>)
    requires o.max >= 1 && o.windowMs >= 1
    requires Within(buckets, key, o, from, k * o.windowMs, k * o.max, passed, now) && Ordered(events, now)
    requires forall i | 0 <= i < |events| :: events[i].Attempt?
    ensures passed + AllowedIn(Answers(buckets, events, o), key, from, k * o.windowMs) <= k * o.max + o.max - 1
    decreases |events|
  {
    hide Attempted, SpentBefore;
    if events == [] {
    } else {
      var e := events[0];
      if key in buckets && from <= buckets[key].windowStart {
        SpentGrows(o, from, k, buckets[key].windowStart, e.at);
      }
      if from <= e.at {
        SpentGrows(o, from, k, e.at, e.at);
      }
      WithinStep(buckets, key, o, from, k * o.windowMs, k * o.max, passed, now, e);
      var (after, allowed) := Attempted(buckets, e.key, o, e.at);
      var counts := e.key == key && allowed && from <= e.at < from + k * o.windowMs;
      WithinForever(after, key, o, from, k, passed + if counts then 1 else 0, e.at, events[1..]);
      var answers := Answers(buckets, events, o);
      assert answers[0] == Answer(e.key, e.at, allowed) && answers[1..] == Answers(after, events[1..], o);
    }
  }

  lemma {:induction false} WithoutPrunesOrdered(events: seq<Event>, now: nat)
    requires Ordered(events, now)
    ensures Ordered(WithoutPrunes(events), now)
    ensures forall i | 0 <= i < |WithoutPrunes(events)| :: WithoutPrunes(events)[i].Attempt?
    decreases |events|
  {
    if events != [] {
      WithoutPrunesOrdered(events[1..], events[0].at);
    }
  }

  lemma {:induction false} NoneAllowed(buckets: Buckets, key: string, o: LimiterOptions,
                                     from: nat, length: nat, events: seq<Event>)
    requires o.max == 0 || length == 0
    ensures AllowedIn(Answers(buckets, events, o), key, from, length) == 0
    decreases |events|
  {
    if events != [] {
      NoneAllowed(After(buckets, events[0], o), key, o, from, length, events[1..]);
      var answers := Answers(buckets, events, o);
      if events[0].Attempt? {
        assert answers[1..] == Answers(After(buckets, events[0], o), events[1..], o);
      }
    }
  }

  /**
    For every key and every half-open interval of k windows, wherever it begins and whatever other
    keys and sweeps do, at most (k + 1) * max - 1 attempts pass, and none when max is 0.
   */
  lemma RateBoundOver(events: seq<Event>, o: LimiterOptions, key: string, from: nat, k: nat)
    requires Ordered(events, 0)
    ensures AllowedIn(Answers(map[], events, o), key, from, k * o.windowMs)
            <= if o.max == 0 then 0 else (k + 1) * o.max - 1
  {
    hide AllowedIn, Answers, Ordered;
    PruningIsInvisible(events, o);
    WithoutPrunesOrdered(events, 0);
    if o.max == 0 || o.windowMs == 0 {
      NoneAllowed(map[], key, o, from, k * o.windowMs, WithoutPrunes(events));
      MoreMultiples(1, k + 1, o.max);
    } else {
      MoreMultiples(0, k, o.max);
      WithinForever(map[], key, o, from, k, 0, 0, WithoutPrunes(events));
    }
  }

  /** In any interval as long as one window at most 2 * max - 1 attempts pass. */
  lemma RateBound(events: seq<Event>, o: LimiterOptions, key: string, from: nat)
    requires Ordered(events, 0)
    ensures AllowedIn(Answers(map[], events, o), key, from, o.windowMs) <= if o.max == 0 then 0 else 2 * o.max - 1
  {
    RateBoundOver(events, o, key, from, 1);
  }

  /** The configured limits: nine verifications in five minutes, five codes issued in a quarter of an hour. */
  lemma ConfiguredLimits(events: seq<Event>, key: string, from: nat)
    requires Ordered(events, 0)
    ensures AllowedIn(Answers(map[], events, OTP_VERIFY), key, from, 5 * 60 * 1000) <= 9
    ensures AllowedIn(Answers(map[], events, OTP_ISSUE), key, from, 15 * 60 * 1000) <= 5
  {
    hide AllowedIn, Answers, Ordered;
    RateBound(events, OTP_VERIFY, key, from);
    RateBound(events, OTP_ISSUE, key, from);
  }

  /** The configured numbers: five verifications in five minutes and a lockout of fifteen, three issues in fifteen. */
  lemma ConfiguredNumbers(b: Bucket, now: nat)
    requires b.lockedUntil <= now
    ensures Tried(b, OTP_VERIFY, now) ==
            if b.windowStart + 300_000 <= now then (Bucket(1, now, b.lockedUntil), true)
            else if b.count < 5 then (b.(count := b.count + 1), true)
            else (b.(lockedUntil := now + 900_000), false)
    ensures Tried(b, OTP_ISSUE, now) ==
            if b.windowStart + 900_000 <= now then (Bucket(1, now, b.lockedUntil), true)
            else if b.count < 3 then (b.(count := b.count + 1), true)
            else (b, false)
  {
  }

  /** A bucket is kept for one window and to the end of its lockout, both ends included, and no longer. */
  lemma KeptUntil(buckets: Buckets, windowMs: nat, now: nat, key: string)
    ensures key in Pruned(buckets, windowMs, now) <==>
              && key in buckets
              && (now <= buckets[key].windowStart + windowMs || now <= buckets[key].lockedUntil)
    ensures key in Pruned(buckets, windowMs, now) ==> Pruned(buckets, windowMs, now)[key] == buckets[key]
  {
  }

  // ----- The bound is sharp ------------------------------------------------------------------

  function Burst(key: string, at: nat, n: nat): seq<Event> {
    seq(n, i => Attempt(key, at))
  }

  /** Windows first to last, each of which spends its quota all at once where it opens. */
  function FullWindows(key: string, o: LimiterOptions, first: nat, last: nat): seq<Event>
    requires o.max >= 1
    decreases last + 1 - first
  {
    if first > last then []
    else
      [Attempt(key, first * o.windowMs)]
      + (Burst(key, first * o.windowMs, o.max - 1) + FullWindows(key, o, first + 1, last))
  }

  /** One attempt opens a window, the rest of its quota comes at its end, and k full windows follow. */
  function WorstTrace(key: string, o: LimiterOptions, k: nat): seq<Event>
    requires o.max >= 1 && o.windowMs >= 1
  {
    [Attempt(key, 0)] + (Burst(key, o.windowMs - 1, o.max - 1) + FullWindows(key, o, 1, k))
  }

  lemma {:induction false} BurstPasses(buckets: Buckets, key: string, at: nat, n: nat, o: LimiterOptions,
                                     from: nat, length: nat, tail: seq<Event>)
    requires key in buckets && buckets[key].lockedUntil == 0
    requires at - buckets[key].windowStart < o.windowMs && buckets[key].count + n <= o.max
    requires from <= at < from + length
    ensures AllowedIn(Answers(buckets, Burst(key, at, n) + tail, o), key, from, length)
            == n + AllowedIn(Answers(buckets[key := buckets[key].(count := buckets[key].count + n)], tail, o),
                             key, from, length)
    decreases n
  {
    if n == 0 {
      assert Burst(key, at, 0) + tail == tail;
      assert buckets[key := buckets[key].(count := buckets[key].count + 0)] == buckets;
    } else {
      var events := Burst(key, at, n) + tail;
      var after := After(buckets, events[0], o);
      assert events[1..] == Burst(key, at, n - 1) + tail;
      BurstPasses(after, key, at, n - 1, o, from, length, tail);
      var answers := Answers(buckets, events, o);
      assert answers[0] == Answer(key, at, true) && answers[1..] == Answers(after, events[1..], o);
      var b := buckets[key];
      assert after[key := after[key].(count := after[key].count + (n - 1))] == buckets[key := b.(count := b.count + n)];
    }
  }

  lemma FirstAnswer(buckets: Buckets, key: string, at: nat, tail: seq<Event>, o: LimiterOptions, from: nat, length: nat)
    ensures var (after, allowed) := Attempted(buckets, key, o, at);
            AllowedIn(Answers(buckets, [Attempt(key, at)] + tail, o), key, from, length)
            == (if allowed && from <= at < from + length then 1 else 0)
               + AllowedIn(Answers(after, tail, o), key, from, length)
  {
    hide Attempted;
    var events := [Attempt(key, at)] + tail;
    assert events[1..] == tail;
    var answers := Answers(buckets, events, o);
    assert answers[1..] == Answers(Attempted(buckets, key, o, at).0, tail, o);
  }

  /** From a bucket whose window is over, the windows first to last pass max attempts each. */
  lemma {:induction false} FullWindowsPass(key: string, o: LimiterOptions, b: Bucket,
                                         first: nat, last: nat, length: nat)
    requires o.max >= 1 && o.windowMs >= 1 && 1 <= first <= last + 1
    requires b.lockedUntil == 0 && b.windowStart + o.windowMs == first * o.windowMs
    requires length == last * o.windowMs
    ensures AllowedIn(Answers(map[key := b], FullWindows(key, o, first, last), o), key, 1, length)
            == (last + 1 - first) * o.max
    decreases last + 1 - first
  {
    hide AllowedIn, Answers;
    if first > last {
      NoAnswers(map[key := b], key, o, length);
    } else {
      var at, n, rest := first * o.windowMs, o.max - 1, FullWindows(key, o, first + 1, last);
      MoreMultiples(first, last, o.windowMs);
      MoreMultiples(1, first, o.windowMs);
      var begun, spent := map[key := Bucket(1, at, 0)], map[key := Bucket(o.max, at, 0)];
      assert Tried(b, o, at) == (Bucket(1, at, 0), true);
      assert Attempted(map[key := b], key, o, at).0 == begun;
      FirstAnswer(map[key := b], key, at, Burst(key, at, n) + rest, o, 1, length);
      assert begun[key := begun[key].(count := 1 + n)] == spent;
      BurstPasses(begun, key, at, n, o, 1, length, rest);
      assert at + o.windowMs == (first + 1) * o.windowMs;
      FullWindowsPass(key, o, Bucket(o.max, at, 0), first + 1, last, length);
      assert (last + 1 - first) * o.max == o.max + (last - first) * o.max;
    }
  }

  lemma {:induction false} FullWindowsOrdered(key: string, o: LimiterOptions, first: nat, last: nat)
    requires o.max >= 1
    ensures Ordered(FullWindows(key, o, first, last), first * o.windowMs)
    decreases last + 1 - first
  {
    if first <= last {
      FullWindowsOrdered(key, o, first + 1, last);
      var at := first * o.windowMs;
      MoreMultiples(first, first + 1, o.windowMs);
      BurstThenOrdered(key, at, o.max - 1, FullWindows(key, o, first + 1, last));
    }
  }

  lemma BurstThenOrdered(key: string, at: nat, n: nat, tail: seq<Event>)
    requires Ordered(tail, at)
    ensures Ordered(Burst(key, at, n) + tail, at)
    ensures Ordered([Attempt(key, at)] + (Burst(key, at, n) + tail), at)
  {
  }

  lemma EarlierStart(events: seq<Event>, now: nat, earlier: nat)
    requires Ordered(events, now) && earlier <= now
    ensures Ordered(events, earlier)
    ensures forall key: string :: Ordered([Attempt(key, earlier)] + events, earlier)
  {
  }

  /** The bound is reached, by attempts alone, for every quota, every k and every window of two milliseconds or more. */
  lemma RateBoundIsSharp(key: string, o: LimiterOptions, k: nat)
    requires o.max >= 1 && o.windowMs >= 2 && k >= 1
    ensures Ordered(WorstTrace(key, o, k), 0)
    ensures AllowedIn(Answers(map[], WorstTrace(key, o, k), o), key, 1, k * o.windowMs) == (k + 1) * o.max - 1
  {
    hide AllowedIn, Answers, Ordered, FullWindows;
    var w, n, rest := o.windowMs, o.max - 1, FullWindows(key, o, 1, k);
    FullWindowsOrdered(key, o, 1, k);
    EarlierStart(rest, w, w - 1);
    BurstThenOrdered(key, w - 1, n, rest);
    EarlierStart(Burst(key, w - 1, n) + rest, w - 1, 0);
    MoreMultiples(1, k, w);
    var begun, spent := map[key := Bucket(1, 0, 0)], map[key := Bucket(o.max, 0, 0)];
    assert Attempted(map[], key, o, 0) == (begun, true);
    FirstAnswer(map[], key, 0, Burst(key, w - 1, n) + rest, o, 1, k * w);
    assert begun[key := begun[key].(count := 1 + n)] == spent;
    BurstPasses(begun, key, w - 1, n, o, 1, k * w, rest);
    FullWindowsPass(key, o, Bucket(o.max, 0, 0), 1, k, k * w);
  }

  lemma NoAnswers(buckets: Buckets, key: string, o: LimiterOptions, length: nat)
    ensures AllowedIn(Answers(buckets, [], o), key, 1, length) == 0
  {
  }

  // ----- Lockouts ----------------------------------------------------------------------------

  predicate Locked(buckets: Buckets, key: string, now: nat) {
    key in buckets && buckets[key].lockedUntil > now
  }

  /** The lockout that began at start is in the map, or it is over and was swept. */
  predicate LockHolds(buckets: Buckets, key: string, o: LimiterOptions, start: nat, now: nat) {
    if key in buckets
    then buckets[key].lockedUntil == start + o.lockMs && buckets[key].windowStart <= start
    else start + o.lockMs < now
  }

  lemma {:induction false} LockPersists(buckets: Buckets, key: string, o: LimiterOptions,
                                      start: nat, now: nat, events: seq<Event>)
    requires LockHolds(buckets, key, o, start, now) && Ordered(events, now)
    requires forall i | 0 <= i < |events| && events[i].Attempt? && events[i].key == key ::
               events[i].at < start + o.lockMs
    ensures LockHolds(State(buckets, events, o), key, o, start, if events == [] then now else events[|events| - 1].at)
    decreases |events|
  {
    if events != [] {
      LockPersists(After(buckets, events[0], o), key, o, start, events[0].at, events[1..]);
    }
  }

  lemma {:induction false} WindowsArePast(buckets: Buckets, events: seq<Event>, o: LimiterOptions, now: nat)
    requires forall k | k in buckets :: buckets[k].windowStart <= now
    requires forall i | 0 <= i < |events| :: events[i].at <= now
    ensures forall k | k in State(buckets, events, o) :: State(buckets, events, o)[k].windowStart <= now
    decreases |events|
  {
    if events != [] {
      WindowsArePast(After(buckets, events[0], o), events[1..], o, now);
    }
  }

  /**
    In any trace, a refusal outside a lockout starts one of exactly lockMs. Until then every attempt
    on the key is refused, however many come in between; the first attempt after it is allowed when
    the lockout is at least as long as the window. Other keys and sweeps do not matter.
   */
  lemma LockoutIsExact(earlier: seq<Event>, key: string, o: LimiterOptions, start: nat, between: seq<Event>, at: nat)
    requires forall i | 0 <= i < |earlier| :: earlier[i].at <= start
    requires Ordered(between, start) && start <= at && (forall i | 0 <= i < |between| :: between[i].at <= at)
    requires forall i | 0 <= i < |between| && between[i].Attempt? && between[i].key == key ::
               between[i].at < start + o.lockMs
    requires o.lockMs > 0 && !Locked(State(map[], earlier, o), key, start)
    requires !Attempted(State(map[], earlier, o), key, o, start).1
    ensures var refused := Attempted(State(map[], earlier, o), key, o, start).0;
            var now := State(refused, between, o);
            && (at < start + o.lockMs ==> !Attempted(now, key, o, at).1)
            && (at >= start + o.lockMs && o.lockMs >= o.windowMs && o.max >= 1 ==> Attempted(now, key, o, at).1)
  {
    hide State;
    WindowsArePast(map[], earlier, o, start);
    LockPersists(Attempted(State(map[], earlier, o), key, o, start).0, key, o, start, start, between);
  }
}
