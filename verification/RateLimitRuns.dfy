/** The limiter over whole request sequences, against a limiter that keeps every accepted timestamp. */
module RateLimitRuns {
  import opened RateLimit

  datatype Request = Request(key: string, now: real)

  function Init(reqs: seq<Request>): seq<Request>
    requires reqs != []
  {
    reqs[..|reqs| - 1]
  }

  function Last(reqs: seq<Request>): Request
    requires reqs != []
  {
    reqs[|reqs| - 1]
  }

  lemma CheckConsistent(cfg: Config, st: State, key: string, now: real)
    requires Consistent(st) && |st.order| <= MAX_KEYS
    ensures Consistent(Check(cfg, st, key, now).state) && |Check(cfg, st, key, now).state.order| <= MAX_KEYS
  {
    hide Consistent, Touch;
    TouchConsistent(cfg, st, key, now);
    var touched := Touch(cfg, st, key, now);
    var bucket := Expire(touched.buckets[key], now - cfg.windowSeconds);
    UpdateConsistent(touched, key, bucket);
    UpdateConsistent(touched, key, bucket + [now]);
  }

  /** The limiter's state after a request sequence; it never holds more than the key limit. */
  ghost function StateAfter(cfg: Config, reqs: seq<Request>): (st: State)
    ensures Consistent(st) && |st.order| <= MAX_KEYS
  {
    if reqs == [] then State([], map[])
    else
      CheckConsistent(cfg, StateAfter(cfg, Init(reqs)), Last(reqs).key, Last(reqs).now);
      Check(cfg, StateAfter(cfg, Init(reqs)), Last(reqs).key, Last(reqs).now).state
  }

  /** The outcome of the last request of a sequence. */
  ghost function OutcomeOf(cfg: Config, reqs: seq<Request>): Outcome
    requires reqs != []
  {
    Check(cfg, StateAfter(cfg, Init(reqs)), Last(reqs).key, Last(reqs).now).outcome
  }

  /** Every timestamp the limiter accepted for `key`. */
  ghost function Log(cfg: Config, reqs: seq<Request>, key: string): seq<real> {
    if reqs == [] then []
    else Log(cfg, Init(reqs), key)
         + (if Last(reqs).key == key && OutcomeOf(cfg, reqs) == Accepted then [Last(reqs).now] else [])
  }

  /** The naive limiter: count the recent part of a log that is never trimmed. */
  function NaiveAllows(cfg: Config, log: seq<real>, now: real): bool {
    Recent(log, now - cfg.windowSeconds) < cfg.maxRequests
  }

  function NaiveLog(cfg: Config, reqs: seq<Request>, key: string): seq<real> {
    if reqs == [] then []
    else
      var log := NaiveLog(cfg, Init(reqs), key);
      if Last(reqs).key == key && NaiveAllows(cfg, log, Last(reqs).now) then log + [Last(reqs).now] else log
  }

  /** The times of the requests for `key` never run back; those of other keys may lie anywhere. */
  ghost predicate Monotone(reqs: seq<Request>, key: string) {
    forall i, j | 0 <= i < j < |reqs| && reqs[i].key == reqs[j].key == key :: reqs[i].now <= reqs[j].now
  }

  /** No request for `key` is later than `now`. */
  ghost predicate NoneAfter(reqs: seq<Request>, key: string, now: real) {
    forall i | 0 <= i < |reqs| && reqs[i].key == key :: reqs[i].now <= now
  }

  /** `key` is never evicted once it is in the map. */
  ghost predicate NeverEvicted(cfg: Config, reqs: seq<Request>, key: string) {
    reqs == [] || (&& NeverEvicted(cfg, Init(reqs), key)
                   && (key in StateAfter(cfg, Init(reqs)).buckets ==> key in StateAfter(cfg, reqs).buckets))
  }

  // ------------------------------------------------------------------ counting and expiry

  ghost predicate Sorted(times: seq<real>) {
    forall i, j | 0 <= i < j < |times| :: times[i] <= times[j]
  }

  lemma {:induction false} RecentConcat(a: seq<real>, b: seq<real>, cutoff: real)
    ensures Recent(a + b, cutoff) == Recent(a, cutoff) + Recent(b, cutoff)
  {
    if b == [] {
      assert a + b == a;
    } else {
      assert (a + b)[..|a + b| - 1] == a + b[..|b| - 1];
      RecentConcat(a, b[..|b| - 1], cutoff);
    }
  }

  ghost predicate AllBefore(times: seq<real>, cutoff: real) {
    forall i | 0 <= i < |times| :: times[i] < cutoff
  }

  ghost predicate AllFrom(times: seq<real>, cutoff: real) {
    forall i | 0 <= i < |times| :: times[i] >= cutoff
  }

  ghost predicate AllUpTo(times: seq<real>, last: real) {
    forall i | 0 <= i < |times| :: times[i] <= last
  }

  lemma {:induction false} RecentBounds(times: seq<real>, cutoff: real)
    ensures Recent(times, cutoff) <= |times|
    ensures AllBefore(times, cutoff) ==> Recent(times, cutoff) == 0
    ensures AllFrom(times, cutoff) ==> Recent(times, cutoff) == |times|
  {
    if times != [] {
      RecentBounds(times[..|times| - 1], cutoff);
    }
  }

  /** On a sorted deque, expiry removes exactly the timestamps before the cutoff. */
  lemma {:induction false} ExpireSorted(bucket: seq<real>, cutoff: real)
    requires Sorted(bucket)
    ensures |Expire(bucket, cutoff)| <= |bucket|
    ensures Expire(bucket, cutoff) == bucket[|bucket| - |Expire(bucket, cutoff)|..]
    ensures AllBefore(bucket[..|bucket| - |Expire(bucket, cutoff)|], cutoff)
    ensures AllFrom(Expire(bucket, cutoff), cutoff)
  {
    if bucket != [] && bucket[0] < cutoff {
      ExpireSorted(bucket[1..], cutoff);
      var kept := Expire(bucket, cutoff);
      assert bucket[..|bucket| - |kept|] == [bucket[0]] + bucket[1..][..|bucket| - 1 - |kept|];
    }
  }

  // ------------------------------------------------------------------ one check, key by key

  ghost function BucketOf(st: State, key: string): seq<real> {
    if key in st.buckets then st.buckets[key] else []
  }

  lemma CheckEffect(cfg: Config, st: State, key: string, now: real)
    requires Consistent(st)
    ensures var c := Check(cfg, st, key, now);
            var kept := Expire(BucketOf(st, key), now - cfg.windowSeconds);
            && (c.outcome == Accepted <==> |kept| < cfg.maxRequests)
            && key in c.state.buckets
            && c.state.buckets[key] == (if c.outcome == Accepted then kept + [now] else kept)
            && forall k | k != key && k in c.state.buckets :: k in st.buckets && c.state.buckets[k] == st.buckets[k]
  {
    hide Consistent, Evict;
    TouchConsistent(cfg, st, key, now);
    EvictConsistent(cfg, st, now);
  }

  /** The deque is the end of the key's log. */
  ghost predicate Tracks(bucket: seq<real>, log: seq<real>, last: real) {
    && Sorted(bucket) && AllUpTo(bucket, last)
    && |bucket| <= |log| && log[|log| - |bucket|..] == bucket
  }

  /** What the deque no longer holds has left the window for good. */
  ghost predicate Covers(cfg: Config, bucket: seq<real>, log: seq<real>, last: real) {
    |bucket| <= |log| && AllBefore(log[..|log| - |bucket|], last - cfg.windowSeconds)
  }

  /** The deque still decides like the log: it has all that counts, or is full. */
  ghost predicate Remembers(cfg: Config, bucket: seq<real>, log: seq<real>, last: real) {
    Covers(cfg, bucket, log, last) || |bucket| >= cfg.maxRequests
  }

  lemma KeptTracks(bucket: seq<real>, kept: seq<real>, log: seq<real>, last: real, now: real)
    requires Tracks(bucket, log, last) && last <= now
    requires |kept| <= |bucket| && kept == bucket[|bucket| - |kept|..]
    ensures Tracks(kept, log, now)
    ensures log[..|log| - |kept|] == log[..|log| - |bucket|] + bucket[..|bucket| - |kept|]
  {
    var n := |log| - |bucket|;
    assert log[n..][|bucket| - |kept|..] == log[|log| - |kept|..];
    assert forall i | 0 <= i < |kept| :: kept[i] == bucket[|bucket| - |kept| + i];
    var m := |log| - |kept|;
    assert log[..m] == log[..n] + log[n..m];
    assert log[n..m] == log[n..][..m - n];
  }

  lemma AppendTracks(bucket: seq<real>, log: seq<real>, now: real)
    requires Tracks(bucket, log, now)
    ensures Tracks(bucket + [now], log + [now], now)
    ensures (log + [now])[..|log + [now]| - |bucket + [now]|] == log[..|log| - |bucket|]
  {
    assert (log + [now])[|log| - |bucket|..] == log[|log| - |bucket|..] + [now];
  }

  lemma BeforeConcat(a: seq<real>, b: seq<real>, cutoff: real)
    requires AllBefore(a, cutoff) && AllBefore(b, cutoff)
    ensures AllBefore(a + b, cutoff)
  {
  }

  /** Splitting a tracked log at the cutoff: what expired and what was kept. */
  lemma ExpiryOfTracked(cfg: Config, bucket: seq<real>, log: seq<real>, last: real, now: real)
    requires Tracks(bucket, log, last) && last <= now
    ensures var kept := Expire(bucket, now - cfg.windowSeconds);
            && Tracks(kept, log, now) && Tracks(kept + [now], log + [now], now)
            && |kept| <= Recent(log, now - cfg.windowSeconds)
            && (Covers(cfg, bucket, log, last) ==>
                && Covers(cfg, kept, log, now) && Covers(cfg, kept + [now], log + [now], now)
                && |kept| == Recent(log, now - cfg.windowSeconds))
  {
    hide Expire, Recent, Sorted;
    var cutoff := now - cfg.windowSeconds;
    var kept := Expire(bucket, cutoff);
    SortedOfTracks(bucket, log, last);
    ExpireSorted(bucket, cutoff);
    KeptTracks(bucket, kept, log, last, now);
    AppendTracks(kept, log, now);
    var gone := log[..|log| - |kept|];
    LogSplit(kept, log, now);
    RecentConcat(gone, kept, cutoff);
    RecentBounds(kept, cutoff);
    if Covers(cfg, bucket, log, last) {
      BeforeConcat(log[..|log| - |bucket|], bucket[..|bucket| - |kept|], cutoff);
      RecentBounds(gone, cutoff);
    }
  }

  lemma SortedOfTracks(bucket: seq<real>, log: seq<real>, last: real)
    requires Tracks(bucket, log, last)
    ensures Sorted(bucket)
  {
  }

  lemma LogSplit(kept: seq<real>, log: seq<real>, now: real)
    requires Tracks(kept, log, now)
    ensures log == log[..|log| - |kept|] + kept
  {
  }

  lemma CheckTracks(cfg: Config, st: State, log: seq<real>, key: string, last: real, now: real)
    requires Consistent(st) && Tracks(BucketOf(st, key), log, last) && last <= now
    ensures var c := Check(cfg, st, key, now);
            var log' := if c.outcome == Accepted then log + [now] else log;
            && Tracks(BucketOf(c.state, key), log', now)
            && (Covers(cfg, BucketOf(st, key), log, last) ==>
                && Covers(cfg, BucketOf(c.state, key), log', now)
                && (c.outcome == Accepted <==> NaiveAllows(cfg, log, now)))
            && (c.outcome != Accepted ==> !NaiveAllows(cfg, log, now))
  {
    hide Consistent, Check, Tracks, Covers, Expire;
    CheckEffect(cfg, st, key, now);
    ExpiryOfTracked(cfg, BucketOf(st, key), log, last, now);
  }

  // ------------------------------------------------------------------ whole runs

  lemma MonotoneInit(reqs: seq<Request>, key: string)
    requires Monotone(reqs, key) && reqs != []
    ensures Monotone(Init(reqs), key)
    ensures Last(reqs).key == key ==> NoneAfter(Init(reqs), key, Last(reqs).now)
  {
  }

  lemma NoneAfterInit(reqs: seq<Request>, key: string, now: real)
    requires reqs != [] && NoneAfter(reqs, key, now)
    ensures NoneAfter(Init(reqs), key, now) && (Last(reqs).key == key ==> Last(reqs).now <= now)
  {
  }

  lemma TracksLater(cfg: Config, bucket: seq<real>, log: seq<real>, last: real, now: real)
    requires Tracks(bucket, log, last) && last <= now
    ensures Tracks(bucket, log, now)
    ensures Covers(cfg, bucket, log, last) ==> Covers(cfg, bucket, log, now)
  {
  }

  lemma NothingTracked(cfg: Config, log: seq<real>, now: real)
    ensures Tracks([], log, now)
    ensures log == [] ==> Covers(cfg, [], log, now)
  {
    assert log[|log|..] == [];
  }

  /** In every run the deque of a key is the end of its log, and covers the window if never evicted. */
  lemma {:induction false} RunTracks(cfg: Config, reqs: seq<Request>, key: string, now: real)
    requires Monotone(reqs, key) && NoneAfter(reqs, key, now)
    ensures Tracks(BucketOf(StateAfter(cfg, reqs), key), Log(cfg, reqs, key), now)
    ensures NeverEvicted(cfg, reqs, key) ==>
              && Covers(cfg, BucketOf(StateAfter(cfg, reqs), key), Log(cfg, reqs, key), now)
              && (key !in StateAfter(cfg, reqs).buckets ==> Log(cfg, reqs, key) == [])
    decreases |reqs|
  {
    hide Consistent, Check, Tracks, Covers, Monotone, NoneAfter;
    if reqs == [] {
      NothingTracked(cfg, [], now);
    } else {
      var before, r := Init(reqs), Last(reqs);
      var st, log := StateAfter(cfg, before), Log(cfg, before, key);
      MonotoneInit(reqs, key);
      NoneAfterInit(reqs, key, now);
      NothingTracked(cfg, log, now);
      CheckEffect(cfg, st, r.key, r.now);
      assert log + [] == log;
      if r.key == key {
        RunTracks(cfg, before, key, r.now);
        CheckTracks(cfg, st, log, key, r.now, r.now);
        TracksLater(cfg, BucketOf(StateAfter(cfg, reqs), key), Log(cfg, reqs, key), r.now, now);
      } else {
        RunTracks(cfg, before, key, now);
      }
    }
  }

  /**
   When the times of a key never run back, and the key is never evicted, each decision is the one
   the naive limiter makes, and both end up with the same log.
   */
  lemma {:induction false} AgreesWithNaive(cfg: Config, reqs: seq<Request>, key: string)
    requires Monotone(reqs, key) && NeverEvicted(cfg, reqs, key)
    ensures Log(cfg, reqs, key) == NaiveLog(cfg, reqs, key)
    ensures reqs != [] && Last(reqs).key == key ==>
              (OutcomeOf(cfg, reqs) == Accepted <==>
               NaiveAllows(cfg, NaiveLog(cfg, Init(reqs), key), Last(reqs).now))
    decreases |reqs|
  {
    hide Consistent, Check, Tracks, Covers, NaiveAllows, Monotone, NoneAfter;
    if reqs != [] {
      var before, r := Init(reqs), Last(reqs);
      MonotoneInit(reqs, key);
      AgreesWithNaive(cfg, before, key);
      if r.key == key {
        RunTracks(cfg, before, key, r.now);
        CheckTracks(cfg, StateAfter(cfg, before), Log(cfg, before, key), key, r.now, r.now);
      }
    }
  }

  /** Whatever has been evicted, a refusal is justified by the accepts the key really had. */
  lemma RefusalJustified(cfg: Config, reqs: seq<Request>)
    requires reqs != [] && Monotone(reqs, Last(reqs).key) && OutcomeOf(cfg, reqs) != Accepted
    ensures !NaiveAllows(cfg, Log(cfg, Init(reqs), Last(reqs).key), Last(reqs).now)
  {
    hide Consistent, Check, Tracks, Covers, NaiveAllows, Monotone, NoneAfter;
    var before, r := Init(reqs), Last(reqs);
    MonotoneInit(reqs, r.key);
    RunTracks(cfg, before, r.key, r.now);
    CheckTracks(cfg, StateAfter(cfg, before), Log(cfg, before, r.key), r.key, r.now, r.now);
  }

  // ------------------------------------------------------------------ the window bound

  /** Accepts `max` or more places apart in the log are more than a window apart in time. */
  ghost predicate Spaced(log: seq<real>, max: nat, window: real) {
    forall i, j | 0 <= i < j < |log| && j - i >= max :: log[j] - log[i] > window
  }

  lemma {:induction false} RecentSuffix(log: seq<real>, cutoff: real, max: nat)
    requires Sorted(log) && max <= |log| && max > 0 && Recent(log, cutoff) < max
    ensures log[|log| - max] < cutoff
  {
    if log[|log| - max] >= cutoff {
      var n := |log| - max;
      assert log == log[..n] + log[n..];
      RecentConcat(log[..n], log[n..], cutoff);
      assert AllFrom(log[n..], cutoff);
      RecentBounds(log[n..], cutoff);
    }
  }

  lemma NaiveAppend(cfg: Config, log: seq<real>, now: real)
    requires cfg.maxRequests > 0 && NaiveAllows(cfg, log, now)
    requires Sorted(log) && AllUpTo(log, now) && Spaced(log, cfg.maxRequests, cfg.windowSeconds)
    ensures Sorted(log + [now]) && AllUpTo(log + [now], now)
    ensures Spaced(log + [now], cfg.maxRequests, cfg.windowSeconds)
  {
    if |log| >= cfg.maxRequests {
      RecentSuffix(log, now - cfg.windowSeconds, cfg.maxRequests);
    }
  }

  lemma {:induction false} NaiveLogSpaced(cfg: Config, reqs: seq<Request>, key: string, now: real)
    requires Monotone(reqs, key) && NoneAfter(reqs, key, now) && cfg.maxRequests > 0
    ensures Sorted(NaiveLog(cfg, reqs, key)) && AllUpTo(NaiveLog(cfg, reqs, key), now)
    ensures Spaced(NaiveLog(cfg, reqs, key), cfg.maxRequests, cfg.windowSeconds)
    decreases |reqs|
  {
    hide NaiveAllows, Monotone, NoneAfter;
    if reqs != [] {
      var log, r := NaiveLog(cfg, Init(reqs), key), Last(reqs);
      MonotoneInit(reqs, key);
      NoneAfterInit(reqs, key, now);
      if r.key == key {
        NaiveLogSpaced(cfg, Init(reqs), key, r.now);
        if NaiveAllows(cfg, log, r.now) {
          NaiveAppend(cfg, log, r.now);
        }
      } else {
        NaiveLogSpaced(cfg, Init(reqs), key, now);
      }
    }
  }

  /** How many timestamps lie in a closed interval. */
  ghost function CountWithin(times: seq<real>, from: real, to: real): nat {
    if times == [] then 0
    else (if from <= times[0] <= to then 1 else 0) + CountWithin(times[1..], from, to)
  }

  lemma {:induction false} CountWithinBounds(times: seq<real>, from: real, to: real)
    ensures CountWithin(times, from, to) <= |times|
    ensures (forall i | 0 <= i < |times| :: times[i] > to) ==> CountWithin(times, from, to) == 0
  {
    if times != [] {
      CountWithinBounds(times[1..], from, to);
    }
  }

  lemma {:induction false} CountWithinConcat(a: seq<real>, b: seq<real>, from: real, to: real)
    ensures CountWithin(a + b, from, to) == CountWithin(a, from, to) + CountWithin(b, from, to)
  {
    if a == [] {
      assert a + b == b;
    } else {
      CountWithinConcat(a[1..], b, from, to);
      assert (a + b)[1..] == a[1..] + b;
    }
  }

  lemma SpacedTail(log: seq<real>, max: nat, window: real)
    requires Sorted(log) && Spaced(log, max, window) && log != []
    ensures Sorted(log[1..]) && Spaced(log[1..], max, window)
  {
  }

  lemma {:induction false} SpacedCount(log: seq<real>, max: nat, window: real, from: real)
    requires Sorted(log) && Spaced(log, max, window) && max > 0
    ensures CountWithin(log, from, from + window) <= max
  {
    if log != [] && log[0] < from {
      hide Sorted, Spaced;
      SpacedTail(log, max, window);
      SpacedCount(log[1..], max, window, from);
    } else {
      hide CountWithin, Spaced, Sorted;
      SpacedFrom(log, max, window, from);
    }
  }

  lemma SpacedFrom(log: seq<real>, max: nat, window: real, from: real)
    requires Sorted(log) && Spaced(log, max, window) && max > 0 && (log == [] || log[0] >= from)
    ensures CountWithin(log, from, from + window) <= max
  {
    hide CountWithin;
    if |log| > max {
      assert log == log[..max] + log[max..];
      CountWithinConcat(log[..max], log[max..], from, from + window);
      CountWithinBounds(log[..max], from, from + window);
      forall i | 0 <= i < |log[max..]| ensures log[max..][i] > from + window {
        assert log[max + i] - log[0] > window;
      }
      CountWithinBounds(log[max..], from, from + window);
    } else {
      CountWithinBounds(log, from, from + window);
    }
  }

  /** Some time that no request for the key is later than. */
  lemma {:induction false} SomeBound(reqs: seq<Request>, key: string) returns (now: real)
    ensures NoneAfter(reqs, key, now)
  {
    now := 0.0;
    if reqs != [] {
      var earlier := SomeBound(Init(reqs), key);
      now := if earlier >= Last(reqs).now then earlier else Last(reqs).now;
    }
  }

  /** No closed interval as long as the window ever holds more accepts than the limit. */
  lemma WindowBound(cfg: Config, reqs: seq<Request>, key: string, from: real)
    requires Monotone(reqs, key) && NeverEvicted(cfg, reqs, key) && cfg.maxRequests > 0
    ensures CountWithin(Log(cfg, reqs, key), from, from + cfg.windowSeconds) <= cfg.maxRequests
  {
    hide Monotone, NoneAfter, NeverEvicted, Log, NaiveLog, Sorted, Spaced, AllUpTo, CountWithin;
    AgreesWithNaive(cfg, reqs, key);
    var now := SomeBound(reqs, key);
    NaiveLogSpaced(cfg, reqs, key, now);
    SpacedCount(NaiveLog(cfg, reqs, key), cfg.maxRequests, cfg.windowSeconds, from);
  }

  // ------------------------------------------------------------------ what times out of order can do

  lemma Appended(cfg: Config, reqs: seq<Request>, key: string, now: real)
    ensures var all := reqs + [Request(key, now)];
      var kept := Expire(BucketOf(StateAfter(cfg, reqs), key), now - cfg.windowSeconds);
      var log := NaiveLog(cfg, reqs, key);
      && Init(all) == reqs
      && (OutcomeOf(cfg, all) == Accepted <==> |kept| < cfg.maxRequests)
      && BucketOf(StateAfter(cfg, all), key) == (if |kept| < cfg.maxRequests then kept + [now] else kept)
      && Log(cfg, all, key) == (if |kept| < cfg.maxRequests then Log(cfg, reqs, key) + [now] else Log(cfg, reqs, key))
      && NaiveLog(cfg, all, key) == (if NaiveAllows(cfg, log, now) then log + [now] else log)
      && (NeverEvicted(cfg, reqs, key) ==> NeverEvicted(cfg, all, key))
  {
    hide Consistent, Check, Expire;
    var all := reqs + [Request(key, now)];
    assert Init(all) == reqs && Last(all) == Request(key, now);
    CheckEffect(cfg, StateAfter(cfg, reqs), key, now);
  }

  /** Where the key "k" stands: its bucket, what was accepted, and what the naive limiter accepted. */
  ghost predicate Stands(cfg: Config, reqs: seq<Request>, bucket: seq<real>, log: seq<real>, naive: seq<real>) {
    && NeverEvicted(cfg, reqs, "k") && BucketOf(StateAfter(cfg, reqs), "k") == bucket
    && Log(cfg, reqs, "k") == log && NaiveLog(cfg, reqs, "k") == naive
  }

  lemma Asked(cfg: Config, reqs: seq<Request>, next: seq<Request>, now: real,
    bucket: seq<real>, kept: seq<real>, log: seq<real>, naive: seq<real>)
    requires Stands(cfg, reqs, bucket, log, naive) && next == reqs + [Request("k", now)]
    requires Expire(bucket, now - cfg.windowSeconds) == kept
    ensures Init(next) == reqs && (OutcomeOf(cfg, next) == Accepted <==> |kept| < cfg.maxRequests)
    ensures Stands(cfg, next,
      if |kept| < cfg.maxRequests then kept + [now] else kept,
      if |kept| < cfg.maxRequests then log + [now] else log,
      if Recent(naive, now - cfg.windowSeconds) < cfg.maxRequests then naive + [now] else naive)
  {
    hide OutcomeOf, StateAfter, BucketOf, Log, NaiveLog, NeverEvicted, Recent, Expire;
    Appended(cfg, reqs, "k", now);
  }

  /**
   The clock is read before the lock is taken, so two checks can be served in the other order. Then the
   limiter can refuse too much: here the third request, although only one accept is recent.
   */
  lemma OutOfOrderRefuses()
    ensures var cfg := Config(2, 10.0);
            var reqs := [Request("k", 20.0), Request("k", 5.0), Request("k", 16.0)];
            && NeverEvicted(cfg, reqs, "k")
            && OutcomeOf(cfg, reqs) != Accepted
            && NaiveAllows(cfg, NaiveLog(cfg, Init(reqs), "k"), 16.0)
  {
    hide OutcomeOf, StateAfter, NaiveLog, BucketOf, Log, NeverEvicted, Recent, Init, Expire, Stands;
    var cfg := Config(2, 10.0);
    var one := [Request("k", 20.0)];
    var two := [Request("k", 20.0), Request("k", 5.0)];
    var three := [Request("k", 20.0), Request("k", 5.0), Request("k", 16.0)];
    assert [] + one == one && one + [Request("k", 5.0)] == two && two + [Request("k", 16.0)] == three;
    NothingYet(cfg);
    RecentOf([], 10.0);
    ExpireFresh([], 10.0);
    Asked(cfg, [], one, 20.0, [], [], [], []);
    assert [] + [20.0] == [20.0];
    RecentOf([20.0], -5.0);
    ExpireFresh([20.0], -5.0);
    Asked(cfg, one, two, 5.0, [20.0], [20.0], [20.0], [20.0]);
    assert [20.0] + [5.0] == [20.0, 5.0];
    RecentOf([20.0, 5.0], 6.0);
    ExpireFresh([20.0, 5.0], 6.0);
    StandsFor(cfg, two, [20.0, 5.0], [20.0, 5.0], [20.0, 5.0]);
    Asked(cfg, two, three, 16.0, [20.0, 5.0], [20.0, 5.0], [20.0, 5.0], [20.0, 5.0]);
    StandsFor(cfg, three, [20.0, 5.0], [20.0, 5.0], [20.0, 5.0] + [16.0]);
  }

  /**
   And it can admit too much: here all four requests, three of them within ten seconds of each other
   under a limit of two, because accepts that count for the last one were dropped at a later time.
   */
  lemma OutOfOrderOverAdmits()
    ensures var cfg := Config(2, 10.0);
            var reqs := [Request("k", 20.0), Request("k", 21.0), Request("k", 31.5), Request("k", 25.0)];
            && NeverEvicted(cfg, reqs, "k")
            && Log(cfg, reqs, "k") == [20.0, 21.0, 31.5, 25.0]
            && CountWithin(Log(cfg, reqs, "k"), 20.0, 20.0 + cfg.windowSeconds) == 3 > cfg.maxRequests
            && OutcomeOf(cfg, reqs) == Accepted
            && !NaiveAllows(cfg, Log(cfg, Init(reqs), "k"), 25.0)
  {
    hide OutcomeOf, StateAfter, NaiveLog, BucketOf, Log, NeverEvicted, Recent, CountWithin, Init, Expire, Stands;
    var cfg := Config(2, 10.0);
    var one, two := [Request("k", 20.0)], [Request("k", 20.0), Request("k", 21.0)];
    var three := [Request("k", 20.0), Request("k", 21.0), Request("k", 31.5)];
    var four := [Request("k", 20.0), Request("k", 21.0), Request("k", 31.5), Request("k", 25.0)];
    assert [] + one == one && one + [Request("k", 21.0)] == two && two + [Request("k", 31.5)] == three;
    assert three + [Request("k", 25.0)] == four;
    NothingYet(cfg);
    RecentOf([], 10.0);
    ExpireFresh([], 10.0);
    Asked(cfg, [], one, 20.0, [], [], [], []);
    assert [] + [20.0] == [20.0];
    RecentOf([20.0], 11.0);
    ExpireFresh([20.0], 11.0);
    Asked(cfg, one, two, 21.0, [20.0], [20.0], [20.0], [20.0]);
    assert [20.0] + [21.0] == [20.0, 21.0];
    RecentOf([20.0, 21.0], 21.5);
    BothExpire();
    Asked(cfg, two, three, 31.5, [20.0, 21.0], [], [20.0, 21.0], [20.0, 21.0]);
    assert [20.0, 21.0] + [31.5] == [20.0, 21.0, 31.5];
    RecentOf([20.0, 21.0, 31.5], 15.0);
    ExpireFresh([31.5], 15.0);
    assert [] + [31.5] == [31.5];
    StandsFor(cfg, three, [31.5], [20.0, 21.0, 31.5], [20.0, 21.0, 31.5]);
    Asked(cfg, three, four, 25.0, [31.5], [31.5], [20.0, 21.0, 31.5], [20.0, 21.0, 31.5]);
    assert [20.0, 21.0, 31.5] + [25.0] == [20.0, 21.0, 31.5, 25.0];
    StandsFor(cfg, four, [31.5] + [25.0], [20.0, 21.0, 31.5, 25.0], [20.0, 21.0, 31.5]);
    ThreeWithin();
  }

  lemma StandsFor(cfg: Config, reqs: seq<Request>, bucket: seq<real>, log: seq<real>, naive: seq<real>)
    requires Stands(cfg, reqs, bucket, log, naive)
    ensures NeverEvicted(cfg, reqs, "k") && Log(cfg, reqs, "k") == log && NaiveLog(cfg, reqs, "k") == naive
  {
    hide NeverEvicted, Log, NaiveLog, StateAfter, BucketOf;
  }

  lemma ExpireFresh(bucket: seq<real>, cutoff: real)
    requires bucket == [] || bucket[0] >= cutoff
    ensures Expire(bucket, cutoff) == bucket
  {
  }

  lemma BothExpire()
    ensures Expire([20.0, 21.0], 21.5) == []
  {
    assert [20.0, 21.0][1..] == [21.0] && [21.0][1..] == [];
    assert Expire([21.0], 21.5) == Expire([], 21.5);
  }

  lemma ThreeWithin()
    ensures CountWithin([20.0, 21.0, 31.5, 25.0], 20.0, 30.0) == 3
  {
    CountWithinConcat([20.0, 21.0], [31.5, 25.0], 20.0, 30.0);
    assert [20.0, 21.0] + [31.5, 25.0] == [20.0, 21.0, 31.5, 25.0];
    assert [20.0, 21.0][1..] == [21.0] && [31.5, 25.0][1..] == [25.0];
  }

  lemma NothingYet(cfg: Config)
    ensures Stands(cfg, [], [], [], [])
  {
  }

  /** Counting the recent ones among at most four. */
  lemma RecentOf(times: seq<real>, cutoff: real)
    requires |times| <= 4
    ensures Recent(times, cutoff) ==
      (if |times| > 0 && times[0] >= cutoff then 1 else 0) + (if |times| > 1 && times[1] >= cutoff then 1 else 0)
      + (if |times| > 2 && times[2] >= cutoff then 1 else 0) + (if |times| > 3 && times[3] >= cutoff then 1 else 0)
  {
    if times != [] {
      RecentOf(times[..|times| - 1], cutoff);
    }
  }
}
