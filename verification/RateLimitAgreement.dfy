/** Exactly when the limiter agrees with a log of accepted requests, the clock being read before the lock is taken. */
module RateLimitAgreement {
  import opened Collections
  import opened RateLimit
  import opened RateLimitEviction
  import opened RateLimitMemory
  import opened RateLimitRuns

  // ------------------------------------------------------------------ decisions depend on the times of the key

  function TimesOf(reqs: seq<Request>, key: string): seq<real> {
    if reqs == [] then []
    else TimesOf(Init(reqs), key) + if Last(reqs).key == key then [Last(reqs).now] else []
  }

  function BucketAt(cfg: Config, ts: seq<real>): seq<real> {
    if ts == [] then []
    else
      var now := ts[|ts| - 1];
      var kept := Expire(BucketAt(cfg, ts[..|ts| - 1]), now - cfg.windowSeconds);
      if |kept| < cfg.maxRequests then kept + [now] else kept
  }

  function NaiveAt(cfg: Config, ts: seq<real>): seq<real> {
    if ts == [] then []
    else
      var now := ts[|ts| - 1];
      var log := NaiveAt(cfg, ts[..|ts| - 1]);
      if NaiveAllows(cfg, log, now) then log + [now] else log
  }

  predicate AllowsAt(cfg: Config, ts: seq<real>, now: real) {
    |Expire(BucketAt(cfg, ts), now - cfg.windowSeconds)| < cfg.maxRequests
  }

  lemma Allows(cfg: Config, ts: seq<real>, now: real)
    ensures AllowsAt(cfg, ts, now) <==> |Expire(BucketAt(cfg, ts), now - cfg.windowSeconds)| < cfg.maxRequests
  {
    hide Expire, BucketAt;
  }

  /** With few enough keys, the bucket and the log of a key are functions of its own request times. */
  lemma {:induction false} RunIsTimes(cfg: Config, reqs: seq<Request>, key: string)
    requires |KeysOf(reqs)| <= 10_000
    ensures BucketOf(StateAfter(cfg, reqs), key) == BucketAt(cfg, TimesOf(reqs, key))
    ensures NaiveLog(cfg, reqs, key) == NaiveAt(cfg, TimesOf(reqs, key))
    ensures reqs != [] && Last(reqs).key == key ==>
      (OutcomeOf(cfg, reqs) == Accepted <==> AllowsAt(cfg, TimesOf(Init(reqs), key), Last(reqs).now))
    decreases |reqs|
  {
    hide Consistent, Check, Expire, Recent, NaiveAllows, StateAfter, NaiveLog, OutcomeOf, BucketOf, BucketAt, NaiveAt,
      TimesOf, AllowsAt, KeysOf, Touch, Evict;
    if reqs == [] {
      NoTimes(cfg, key);
    } else {
      var before, r := Init(reqs), Last(reqs);
      KeysOfStep(reqs);
      SubsetSize(KeysOf(before), KeysOf(reqs));
      RunIsTimes(cfg, before, key);
      BucketStep(cfg, reqs, key);
      TimesStep(reqs, key);
      OneMore(cfg, TimesOf(before, key), r.now);
      Allows(cfg, TimesOf(before, key), r.now);
    }
  }

  lemma OneMore(cfg: Config, ts: seq<real>, u: real)
    ensures var kept := Expire(BucketAt(cfg, ts), u - cfg.windowSeconds);
      BucketAt(cfg, ts + [u]) == if |kept| < cfg.maxRequests then kept + [u] else kept
    ensures var log := NaiveAt(cfg, ts);
      NaiveAt(cfg, ts + [u]) == if Recent(log, u - cfg.windowSeconds) < cfg.maxRequests then log + [u] else log
  {
    assert (ts + [u])[..|ts|] == ts;
  }

  lemma NoTimes(cfg: Config, key: string)
    ensures BucketOf(StateAfter(cfg, []), key) == BucketAt(cfg, TimesOf([], key))
    ensures NaiveLog(cfg, [], key) == NaiveAt(cfg, TimesOf([], key))
  {
  }

  lemma BucketStep(cfg: Config, reqs: seq<Request>, key: string)
    requires reqs != [] && |KeysOf(reqs)| <= MAX_KEYS
    ensures var r, before := Last(reqs), Init(reqs);
      var bucket, log := BucketOf(StateAfter(cfg, before), key), NaiveLog(cfg, before, key);
      var kept := Expire(bucket, r.now - cfg.windowSeconds);
      && BucketOf(StateAfter(cfg, reqs), key) ==
           (if r.key != key then bucket else if |kept| < cfg.maxRequests then kept + [r.now] else kept)
      && NaiveLog(cfg, reqs, key) ==
           (if r.key == key && Recent(log, r.now - cfg.windowSeconds) < cfg.maxRequests then log + [r.now] else log)
      && (r.key == key ==> (OutcomeOf(cfg, reqs) == Accepted <==> |kept| < cfg.maxRequests))
  {
    hide Consistent, Check, Expire, Recent, KeysOf;
    var before, r := Init(reqs), Last(reqs);
    KeysOfStep(reqs);
    SubsetSize(KeysOf(before), KeysOf(reqs));
    FewKeysStay(cfg, before);
    FewKeysStay(cfg, reqs);
    CheckEffect(cfg, StateAfter(cfg, before), r.key, r.now);
  }

  lemma TimesStep(reqs: seq<Request>, key: string)
    requires reqs != []
    ensures Last(reqs).key == key ==> TimesOf(reqs, key) == TimesOf(Init(reqs), key) + [Last(reqs).now]
    ensures Last(reqs).key != key ==> TimesOf(reqs, key) == TimesOf(Init(reqs), key)
  {
  }

  lemma {:induction false} MonotoneIsSorted(reqs: seq<Request>, key: string)
    ensures Monotone(reqs, key) <==> Sorted(TimesOf(reqs, key))
    ensures forall now :: NoneAfter(reqs, key, now) <==> AllUpTo(TimesOf(reqs, key), now)
  {
    if reqs != [] {
      var before, r := Init(reqs), Last(reqs);
      MonotoneIsSorted(before, key);
      if r.key == key {
        SortedMore(TimesOf(before, key), r.now);
        MonotoneMore(reqs, key);
      } else {
        MonotoneMore(reqs, key);
        assert TimesOf(reqs, key) == TimesOf(before, key);
      }
    }
  }

  lemma SortedMore(ts: seq<real>, now: real)
    ensures Sorted(ts + [now]) <==> Sorted(ts) && AllUpTo(ts, now)
    ensures forall later :: AllUpTo(ts + [now], later) <==> AllUpTo(ts, later) && now <= later
  {
    var all := ts + [now];
    assert all[|ts|] == now && forall i | 0 <= i < |ts| :: all[i] == ts[i];
  }

  lemma MonotoneMore(reqs: seq<Request>, key: string)
    requires reqs != []
    ensures Monotone(reqs, key) <==>
      Monotone(Init(reqs), key) && (Last(reqs).key == key ==> NoneAfter(Init(reqs), key, Last(reqs).now))
    ensures forall now :: NoneAfter(reqs, key, now) <==>
      NoneAfter(Init(reqs), key, now) && (Last(reqs).key == key ==> Last(reqs).now <= now)
  {
    var n := |reqs| - 1;
    assert forall i | 0 <= i < n :: Init(reqs)[i] == reqs[i];
  }

  // ------------------------------------------------------------------ after times out of order

  lemma {:induction false} FirstDescent(ts: seq<real>) returns (k: nat)
    requires !Sorted(ts)
    ensures 1 <= k < |ts| && Sorted(ts[..k]) && ts[k] < ts[k - 1]
  {
    var n := |ts| - 1;
    var front := ts[..n];
    if !Sorted(front) {
      k := FirstDescent(front);
      assert front[..k] == ts[..k];
    } else {
      k := n;
      var i, j :| 0 <= i < j < |ts| && ts[i] > ts[j];
      assert forall a, b | 0 <= a < b < n :: front[a] <= front[b] && front[a] == ts[a] && front[b] == ts[b];
    }
  }

  lemma {:induction false} Bounds(ts: seq<real>) returns (lo: real, hi: real)
    requires ts != []
    ensures AllFrom(ts, lo) && AllUpTo(ts, hi) && lo <= hi
  {
    if |ts| == 1 {
      return ts[0], ts[0];
    }
    lo, hi := Bounds(ts[1..]);
    if ts[0] < lo { lo := ts[0]; }
    if ts[0] > hi { hi := ts[0]; }
    assert forall i | 1 <= i < |ts| :: ts[i] == ts[1..][i - 1];
  }

  lemma ExpireNone(bucket: seq<real>, cutoff: real)
    requires AllFrom(bucket, cutoff)
    ensures Expire(bucket, cutoff) == bucket
  {
  }

  /** With a window that spans all times of the key and a limit above their number, all are accepted. */
  lemma {:induction false} AllAccepted(cfg: Config, reqs: seq<Request>, key: string, lo: real, hi: real)
    requires var ts := TimesOf(reqs, key);
      AllFrom(ts, lo) && AllUpTo(ts, hi) && cfg.windowSeconds == hi - lo && |ts| < cfg.maxRequests
    ensures Log(cfg, reqs, key) == TimesOf(reqs, key) && NaiveLog(cfg, reqs, key) == TimesOf(reqs, key)
    ensures IsSuffix(BucketOf(StateAfter(cfg, reqs), key), TimesOf(reqs, key))
    decreases |reqs|
  {
    hide Consistent, Check, Expire, Recent, AllFrom, AllUpTo, IsSuffix;
    if reqs == [] {
      assert IsSuffix([], []) by { NothingIsSuffix([]); }
    } else {
      var before, r := Init(reqs), Last(reqs);
      var ts := TimesOf(before, key);
      var bucket := BucketOf(StateAfter(cfg, before), key);
      TimesStep(reqs, key);
      CheckEffect(cfg, StateAfter(cfg, before), r.key, r.now);
      NothingIsSuffix(ts);
      if r.key == key {
        FrontWithin(ts, r.now, lo, hi);
        AllAccepted(cfg, before, key, lo, hi);
        OneMoreKept(cfg, bucket, ts, r.now, lo, hi);
      } else {
        AllAccepted(cfg, before, key, lo, hi);
      }
    }
  }

  ghost predicate IsSuffix(bucket: seq<real>, ts: seq<real>) {
    |bucket| <= |ts| && bucket == ts[|ts| - |bucket|..]
  }

  lemma NothingIsSuffix(ts: seq<real>)
    ensures IsSuffix([], ts)
  {
  }

  lemma FrontWithin(ts: seq<real>, now: real, lo: real, hi: real)
    requires AllFrom(ts + [now], lo) && AllUpTo(ts + [now], hi)
    ensures AllFrom(ts, lo) && AllUpTo(ts, hi) && lo <= now <= hi
  {
    var all := ts + [now];
    assert all[|ts|] == now && forall i | 0 <= i < |ts| :: all[i] == ts[i];
  }

  lemma OneMoreKept(cfg: Config, bucket: seq<real>, ts: seq<real>, now: real, lo: real, hi: real)
    requires AllFrom(ts, lo) && lo <= now <= hi && cfg.windowSeconds == hi - lo && IsSuffix(bucket, ts)
    ensures Expire(bucket, now - cfg.windowSeconds) == bucket && |bucket| <= |ts|
    ensures Recent(ts, now - cfg.windowSeconds) <= |ts|
    ensures IsSuffix(bucket + [now], ts + [now])
  {
    hide Recent, Expire, IsSuffix, AllFrom;
    SuffixMore(bucket, ts, now);
    SuffixFrom(bucket, ts, lo, now - cfg.windowSeconds);
    ExpireNone(bucket, now - cfg.windowSeconds);
    RecentBounds(ts, now - cfg.windowSeconds);
  }

  lemma SuffixFrom(bucket: seq<real>, ts: seq<real>, lo: real, cutoff: real)
    requires IsSuffix(bucket, ts) && AllFrom(ts, lo) && cutoff <= lo
    ensures AllFrom(bucket, cutoff)
  {
    var n := |ts| - |bucket|;
    assert forall i | 0 <= i < |bucket| :: bucket[i] == ts[n + i];
  }

  lemma SuffixMore(bucket: seq<real>, ts: seq<real>, now: real)
    requires IsSuffix(bucket, ts)
    ensures |bucket| <= |ts| && IsSuffix(bucket + [now], ts + [now])
  {
    assert (ts + [now])[|ts| - |bucket|..] == bucket + [now];
  }

  /** A stale entry behind one that still counts is kept by the limiter, and not counted by the log. */
  lemma {:induction false} ExpireStale(sorted: seq<real>, x: real, rest: seq<real>, v: real)
    requires sorted != [] && Sorted(sorted) && sorted[|sorted| - 1] == v
    ensures Expire(sorted + [x] + rest, v) == Expire(sorted, v) + [x] + rest
    ensures Recent(sorted, v) == |Expire(sorted, v)|
  {
    ExpireSorted(sorted, v);
    if sorted[0] < v {
      assert |sorted| > 1;
      var tail := sorted[1..];
      ExpireStale(tail, x, rest, v);
      assert (sorted + [x] + rest)[1..] == tail + [x] + rest;
      assert sorted == [sorted[0]] + tail;
      RecentConcat([sorted[0]], tail, v);
      RecentBounds([sorted[0]], v);
    } else {
      assert AllFrom(sorted, v);
      RecentBounds(sorted, v);
    }
  }

  lemma InOrder(ts: seq<real>, k: nat, lo: real, hi: real)
    requires 1 <= k < |ts| && ts[k] < ts[k - 1] && AllFrom(ts, lo) && AllUpTo(ts, hi)
    ensures lo <= ts[k] < ts[k - 1] <= hi
  {
  }

  /** Behind the first descent one entry more is kept than counted. */
  lemma KeptUncounted(ts: seq<real>, k: nat)
    requires 1 <= k < |ts| && Sorted(ts[..k]) && ts[k] < ts[k - 1]
    ensures Recent(ts, ts[k - 1]) < |Expire(ts, ts[k - 1])| <= |ts|
  {
    hide Expire, Recent, Sorted;
    var v, sorted, x, rest := ts[k - 1], ts[..k], ts[k], ts[k + 1..];
    ExpireStale(sorted, x, rest, v);
    assert sorted + [x] + rest == ts;
    RecentConcat(sorted + [x], rest, v);
    RecentConcat(sorted, [x], v);
    RecentBounds([x], v);
    RecentBounds(rest, v);
    ExpireShortens(ts, v);
  }

  // ------------------------------------------------------------------ the exact condition

  /** Every decision for the key so far is the one a log of its accepted requests would have made. */
  ghost predicate Agrees(cfg: Config, reqs: seq<Request>, key: string) {
    forall n | 0 < n <= |reqs| && reqs[n - 1].key == key :: AgreesOn(cfg, reqs, key, n)
  }

  ghost predicate AgreesOn(cfg: Config, reqs: seq<Request>, key: string, n: nat)
    requires 0 < n <= |reqs|
  {
    OutcomeOf(cfg, reqs[..n]) == Accepted <==>
      NaiveAllows(cfg, NaiveLog(cfg, reqs[..n - 1], key), reqs[n - 1].now)
  }

  /** More requests for the key, in order and none earlier than those before. */
  ghost predicate Continues(reqs: seq<Request>, more: seq<Request>, key: string) {
    && (forall j | 0 <= j < |more| :: more[j].key == key && NoneAfter(reqs, key, more[j].now))
    && Monotone(more, key)
  }

  lemma {:induction false} NaiveProbes(cfg: Config, reqs: seq<Request>, key: string, u: real, m: nat)
    requires cfg.windowSeconds >= 0.0
    requires Recent(NaiveLog(cfg, reqs, key), u - cfg.windowSeconds) + m <= cfg.maxRequests
    ensures NaiveLog(cfg, reqs + Probe(key, u, m), key) == NaiveLog(cfg, reqs, key) + Repeat(u, m)
    decreases m
  {
    hide Recent;
    var log, cutoff := NaiveLog(cfg, reqs, key), u - cfg.windowSeconds;
    if m == 0 {
      assert reqs + Probe(key, u, 0) == reqs && log + Repeat(u, 0) == log;
    } else {
      NaiveProbes(cfg, reqs, key, u, m - 1);
      ProbeMore(reqs, key, u, m - 1);
      RepeatOn(log, u, m - 1);
      RecentConcat(log, Repeat(u, m - 1), cutoff);
      RecentBounds(Repeat(u, m - 1), cutoff);
    }
  }

  lemma ProbeContinues(reqs: seq<Request>, key: string, u: real, m: nat, hi: real)
    requires AllUpTo(TimesOf(reqs, key), hi) && hi <= u
    ensures Continues(reqs, Probe(key, u, m), key)
  {
    MonotoneIsSorted(reqs, key);
    assert AllUpTo(TimesOf(reqs, key), u);
    hide TimesOf;
  }

  /** After `m` probes at `u`, just one of bucket and log has room for the next. */
  ghost predicate Apart(cfg: Config, bucket: seq<real>, log: seq<real>, u: real, m: nat) {
    var kept, counted := |Expire(bucket, u - cfg.windowSeconds)| + m, Recent(log, u - cfg.windowSeconds) + m;
    kept <= cfg.maxRequests && counted <= cfg.maxRequests && (kept == cfg.maxRequests <==> counted < cfg.maxRequests)
  }

  /** The last probe shows that limiter and log differ, whichever log one compares with. */
  lemma LastProbeDiffers(cfg: Config, reqs: seq<Request>, key: string, u: real, m: nat)
    requires cfg.windowSeconds >= 0.0 && NaiveLog(cfg, reqs, key) == Log(cfg, reqs, key)
    requires Apart(cfg, BucketOf(StateAfter(cfg, reqs), key), Log(cfg, reqs, key), u, m)
    ensures !AgreesFrom(cfg, reqs, Probe(key, u, m + 1), key)
    ensures !Agrees(cfg, reqs + Probe(key, u, m + 1), key)
  {
    hide Expire, Recent, StateAfter, Log, NaiveLog, OutcomeOf, NaiveAllows, AgreesFrom;
    var all := reqs + Probe(key, u, m + 1);
    ProbesDiffer(cfg, reqs, key, u, m);
    ProbesAccepted(cfg, reqs, key, u, m);
    NaiveProbes(cfg, reqs, key, u, m);
    ProbeMore(reqs, key, u, m);
    assert all[..|all|] == all && all[..|all| - 1] == Init(all) && all[|all| - 1] == Last(all);
    assert !AgreesOn(cfg, all, key, |all|);
  }

  /** Under this limit and window nothing of the key is refused or expires while its times last. */
  function Wide(ts: seq<real>, lo: real, hi: real): Config {
    Config(|ts| + 1, hi - lo)
  }

  /**
   From times out of order, some limit and window and some probes make limiter and log disagree: if the
   key was evicted because entries are missing that count, else because one is kept that does not.
   */
  lemma Disagreement(reqs: seq<Request>, key: string) returns (cfg: Config, more: seq<Request>)
    requires !Monotone(reqs, key)
    ensures cfg.maxRequests > 0 && cfg.windowSeconds > 0.0 && Continues(reqs, more, key)
    ensures !AgreesFrom(cfg, reqs, more, key) && !Agrees(cfg, reqs + more, key)
  {
    hide Expire, Recent, Sorted, AllFrom, AllUpTo, TimesOf, StateAfter, Log, NaiveLog, Monotone, NoneAfter, Continues,
      AgreesFrom, Agrees, BucketOf, Apart, IsSuffix;
    var ts := TimesOf(reqs, key);
    MonotoneIsSorted(reqs, key);
    var k := FirstDescent(ts);
    var lo, hi := Bounds(ts);
    InOrder(ts, k, lo, hi);
    cfg := Wide(ts, lo, hi);
    AllAccepted(cfg, reqs, key, lo, hi);
    var u, m := SomeProbe(ts, BucketOf(StateAfter(cfg, reqs), key), k, lo, hi);
    LastProbeDiffers(cfg, reqs, key, u, m);
    more := Probe(key, u, m + 1);
    ProbeContinues(reqs, key, u, m + 1, hi);
  }

  lemma SomeProbe(ts: seq<real>, bucket: seq<real>, k: nat, lo: real, hi: real) returns (u: real, m: nat)
    requires 1 <= k < |ts| && Sorted(ts[..k]) && lo <= ts[k] < ts[k - 1] <= hi
    requires AllFrom(ts, lo) && IsSuffix(bucket, ts)
    ensures u >= hi && Apart(Wide(ts, lo, hi), bucket, ts, u, m)
  {
    hide Expire, Recent, Sorted, AllFrom;
    if bucket == ts {
      u := hi - lo + ts[k - 1];
      KeptUncounted(ts, k);
      m := |ts| + 1 - KeptCount(ts, k);
    } else {
      u, m := hi, 1;
      SuffixStays(bucket, ts, lo);
    }
  }

  /** How many entries are kept when the window starts at the last one before the descent. */
  ghost function KeptCount(ts: seq<real>, k: nat): (n: nat)
    requires 1 <= k < |ts| && Sorted(ts[..k]) && ts[k] < ts[k - 1]
    ensures n == |Expire(ts, ts[k - 1])| <= |ts| && Recent(ts, ts[k - 1]) < n
  {
    KeptUncounted(ts, k);
    |Expire(ts, ts[k - 1])|
  }

  lemma SuffixStays(bucket: seq<real>, ts: seq<real>, lo: real)
    requires AllFrom(ts, lo) && IsSuffix(bucket, ts) && bucket != ts
    ensures Expire(bucket, lo) == bucket && |bucket| < |ts| == Recent(ts, lo)
  {
    hide Expire, Recent;
    assert |bucket| == |ts| ==> bucket == ts;
    ExpireNone(bucket, lo);
    RecentBounds(ts, lo);
  }

  /**
   Evictions or not: the times of the key never ran back, and under every limit and window its bucket
   holds what counts or is full, if and only if, whatever the limit and the window and however the key
   goes on in order, every further decision is the one the log of accepted requests would make.
   */
  lemma AgreesIffRemembered(reqs: seq<Request>, key: string)
    ensures (&& Monotone(reqs, key)
             && forall cfg, last | NoneAfter(reqs, key, last) :: RemembersRun(cfg, reqs, key, last)) <==>
      forall cfg, more | Continues(reqs, more, key) :: AgreesFrom(cfg, reqs, more, key)
  {
    hide AgreesFrom, Continues, Monotone, RemembersRun, NoneAfter, From;
    if !Monotone(reqs, key) {
      var cfg, more := Disagreement(reqs, key);
    } else {
      forall cfg, last | NoneAfter(reqs, key, last) && !RemembersRun(cfg, reqs, key, last)
        ensures exists more :: Continues(reqs, more, key) && !AgreesFrom(cfg, reqs, more, key)
      {
        var more := ForgottenShows(cfg, reqs, key, last);
        FromContinues(reqs, more, key, last);
      }
      if forall cfg, last | NoneAfter(reqs, key, last) :: RemembersRun(cfg, reqs, key, last) {
        forall cfg, more | Continues(reqs, more, key) ensures AgreesFrom(cfg, reqs, more, key) {
          var last := ContinuesFrom(reqs, more, key);
          RememberedAgrees(cfg, reqs, more, key, last);
        }
      }
    }
  }

  lemma FromContinues(reqs: seq<Request>, more: seq<Request>, key: string, last: real)
    requires NoneAfter(reqs, key, last) && From(more, key, last)
    ensures Continues(reqs, more, key)
  {
  }

  lemma ContinuesFrom(reqs: seq<Request>, more: seq<Request>, key: string) returns (last: real)
    requires Continues(reqs, more, key)
    ensures NoneAfter(reqs, key, last) && From(more, key, last)
  {
    last := if more == [] then 0.0 else more[0].now;
    if more == [] {
      last := SomeBound(reqs, key);
    }
  }

  lemma MonotoneAgrees(cfg: Config, reqs: seq<Request>, key: string)
    requires |KeysOf(reqs)| <= MAX_KEYS && Monotone(reqs, key)
    ensures Agrees(cfg, reqs, key)
  {
    hide StateAfter, NaiveLog, OutcomeOf, KeysOf, NaiveAllows, NeverEvicted;
    forall n | 0 < n <= |reqs| && reqs[n - 1].key == key ensures AgreesOn(cfg, reqs, key, n) {
      assert Init(reqs[..n]) == reqs[..n - 1] && Last(reqs[..n]) == reqs[n - 1];
      PrefixKeys(reqs, n);
      SubsetSize(KeysOf(reqs[..n]), KeysOf(reqs));
      FewKeysNeverEvicted(cfg, reqs[..n], key);
      AgreesWithNaive(cfg, reqs[..n], key);
    }
  }

  lemma PrefixKeys(reqs: seq<Request>, n: nat)
    requires n <= |reqs|
    ensures KeysOf(reqs[..n]) <= KeysOf(reqs)
  {
  }

  lemma ContinuedIsMonotone(reqs: seq<Request>, more: seq<Request>, key: string)
    requires Monotone(reqs, key) && Continues(reqs, more, key)
    ensures Monotone(reqs + more, key) && KeysOf(reqs + more) <= KeysOf(reqs) + {key}
  {
  }

  /**
   The times of a key never ran back if and only if, whatever the limit and the window and however the
   key goes on in order, every decision is the one a log of its accepted requests would make.
   */
  lemma AgreesIffMonotone(reqs: seq<Request>, key: string)
    requires |KeysOf(reqs) + {key}| <= 10_000
    ensures Monotone(reqs, key) <==>
      forall cfg, more | Continues(reqs, more, key) :: Agrees(cfg, reqs + more, key)
  {
    hide Agrees, Continues, KeysOf, Monotone;
    if Monotone(reqs, key) {
      forall cfg, more | Continues(reqs, more, key) ensures Agrees(cfg, reqs + more, key) {
        ContinuedIsMonotone(reqs, more, key);
        SubsetSize(KeysOf(reqs + more), KeysOf(reqs) + {key});
        MonotoneAgrees(cfg, reqs + more, key);
      }
    } else {
      var cfg, more := Disagreement(reqs, key);
    }
  }
}
