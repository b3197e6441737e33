/** What a bucket must still hold for the limiter to decide like the log of accepted requests, evictions or not. */
module RateLimitMemory {
  import opened RateLimit
  import opened RateLimitRuns

  /** Requests for one key in order, none before `last`. */
  ghost predicate From(more: seq<Request>, key: string, last: real) {
    && (forall j | 0 <= j < |more| :: more[j].key == key && more[j].now >= last)
    && Monotone(more, key)
  }

  /** Each further decision is the one the log of requests accepted up to then would make. */
  ghost predicate AgreesFrom(cfg: Config, reqs: seq<Request>, more: seq<Request>, key: string) {
    forall n | 0 < n <= |more| :: AgreesNext(cfg, reqs + more[..n], key)
  }

  ghost predicate AgreesNext(cfg: Config, reqs: seq<Request>, key: string)
    requires reqs != []
  {
    OutcomeOf(cfg, reqs) == Accepted <==> NaiveAllows(cfg, Log(cfg, Init(reqs), key), Last(reqs).now)
  }

  ghost predicate RemembersRun(cfg: Config, reqs: seq<Request>, key: string, last: real) {
    Remembers(cfg, BucketOf(StateAfter(cfg, reqs), key), Log(cfg, reqs, key), last)
  }

  // ------------------------------------------------------------------ what is remembered stays remembered

  lemma {:induction false} LogSorted(cfg: Config, reqs: seq<Request>, key: string, last: real)
    requires Monotone(reqs, key) && NoneAfter(reqs, key, last)
    ensures Sorted(Log(cfg, reqs, key)) && AllUpTo(Log(cfg, reqs, key), last)
    decreases |reqs|
  {
    hide OutcomeOf, Monotone, NoneAfter;
    if reqs != [] {
      MonotoneInit(reqs, key);
      NoneAfterInit(reqs, key, last);
      LogSorted(cfg, Init(reqs), key, if Last(reqs).key == key then Last(reqs).now else last);
    }
  }

  /** A full bucket from which something expires holds all that still counts. */
  lemma FullThenCovers(cfg: Config, bucket: seq<real>, log: seq<real>, last: real, now: real)
    requires Sorted(log) && Tracks(bucket, log, last) && bucket != [] && bucket[0] < now - cfg.windowSeconds
    ensures Covers(cfg, bucket, log, now)
  {
    var n := |log| - |bucket|;
    assert log[n] == log[n..][0];
  }

  /** One more request for the key, decided by a bucket that remembers, and what it remembers then. */
  lemma StepRemembers(cfg: Config, reqs: seq<Request>, key: string, last: real)
    requires reqs != [] && Monotone(reqs, key) && Last(reqs).key == key && last <= Last(reqs).now
    requires NoneAfter(Init(reqs), key, last)
    requires RemembersRun(cfg, Init(reqs), key, last)
    ensures RemembersRun(cfg, reqs, key, Last(reqs).now) && AgreesNext(cfg, reqs, key)
  {
    hide Consistent, Check, Tracks, Covers, Expire, Monotone, NoneAfter, Recent, Sorted, AllUpTo;
    var st, log, now := StateAfter(cfg, Init(reqs)), Log(cfg, Init(reqs), key), Last(reqs).now;
    var bucket := BucketOf(st, key);
    MonotoneInit(reqs, key);
    RunTracks(cfg, Init(reqs), key, last);
    LogSorted(cfg, Init(reqs), key, last);
    CheckTracks(cfg, st, log, key, last, now);
    CheckEffect(cfg, st, key, now);
    if !Covers(cfg, bucket, log, last) {
      if bucket != [] && bucket[0] < now - cfg.windowSeconds {
        FullThenCovers(cfg, bucket, log, last, now);
        TracksLater(cfg, bucket, log, last, now);
        CheckTracks(cfg, st, log, key, now, now);
      } else {
        ExpireFirst(bucket, now - cfg.windowSeconds);
      }
    }
  }

  lemma ExpireFirst(bucket: seq<real>, cutoff: real)
    requires bucket == [] || bucket[0] >= cutoff
    ensures Expire(bucket, cutoff) == bucket
  {
  }

  lemma {:induction false} RememberedAgrees(
    cfg: Config, reqs: seq<Request>, more: seq<Request>, key: string, last: real)
    requires Monotone(reqs, key) && NoneAfter(reqs, key, last) && From(more, key, last)
    requires RemembersRun(cfg, reqs, key, last)
    ensures AgreesFrom(cfg, reqs, more, key)
    ensures var now := if more == [] then last else Last(more).now;
      && Monotone(reqs + more, key) && NoneAfter(reqs + more, key, now)
      && RemembersRun(cfg, reqs + more, key, now)
    decreases |more|
  {
    hide RemembersRun, AgreesNext;
    if more == [] {
      assert reqs + more == reqs;
    } else {
      var before := Init(more);
      var upTo := if before == [] then last else Last(before).now;
      FromInit(more, key, last);
      RememberedAgrees(cfg, reqs, before, key, last);
      assert Init(reqs + more) == reqs + before && Last(reqs + more) == Last(more);
      InOrderMore(reqs, more, key, last);
      StepRemembers(cfg, reqs + more, key, upTo);
      forall n | 0 < n <= |more| ensures AgreesNext(cfg, reqs + more[..n], key) {
        if n < |more| {
          assert before[..n] == more[..n];
        } else {
          assert more[..n] == more;
        }
      }
    }
  }

  lemma FromInit(more: seq<Request>, key: string, last: real)
    requires more != [] && From(more, key, last)
    ensures From(Init(more), key, last) && Last(more).key == key
    ensures last <= Last(more).now && (Init(more) != [] ==> Last(Init(more)).now <= Last(more).now)
  {
  }

  lemma InOrderMore(reqs: seq<Request>, more: seq<Request>, key: string, last: real)
    requires Monotone(reqs, key) && NoneAfter(reqs, key, last) && From(more, key, last)
    ensures Monotone(reqs + more, key)
    ensures NoneAfter(reqs + more, key, if more == [] then last else Last(more).now)
  {
  }

  // ------------------------------------------------------------------ what is forgotten shows

  function Repeat(u: real, m: nat): seq<real> {
    seq(m, _ => u)
  }

  function Probe(key: string, u: real, m: nat): seq<Request> {
    seq(m, _ => Request(key, u))
  }

  lemma ProbeMore(reqs: seq<Request>, key: string, u: real, m: nat)
    ensures Probe(key, u, m + 1)[..m + 1] == Probe(key, u, m + 1)
    ensures var all := reqs + Probe(key, u, m + 1);
      all != [] && Init(all) == reqs + Probe(key, u, m) && Last(all) == Request(key, u)
  {
  }

  lemma ExpireStays(kept: seq<real>, rest: seq<real>, cutoff: real)
    requires AllFrom(rest, cutoff) && (kept == [] || kept[0] >= cutoff)
    ensures Expire(kept + rest, cutoff) == kept + rest
  {
    ExpireFirst(kept + rest, cutoff);
  }

  lemma {:induction false} ExpireHeads(bucket: seq<real>, cutoff: real)
    ensures var kept := Expire(bucket, cutoff); kept == [] || kept[0] >= cutoff
  {
    if bucket != [] && bucket[0] < cutoff {
      ExpireHeads(bucket[1..], cutoff);
    }
  }

  lemma RepeatOn(front: seq<real>, u: real, m: nat)
    ensures front + Repeat(u, m) + [u] == front + Repeat(u, m + 1)
  {
  }

  lemma OneAccepted(cfg: Config, all: seq<Request>, key: string, u: real)
    requires all != [] && Last(all) == Request(key, u)
    requires |Expire(BucketOf(StateAfter(cfg, Init(all)), key), u - cfg.windowSeconds)| < cfg.maxRequests
    ensures BucketOf(StateAfter(cfg, all), key) ==
      Expire(BucketOf(StateAfter(cfg, Init(all)), key), u - cfg.windowSeconds) + [u]
    ensures Log(cfg, all, key) == Log(cfg, Init(all), key) + [u]
  {
    hide Consistent, Check, Expire;
    CheckEffect(cfg, StateAfter(cfg, Init(all)), key, u);
  }

  /** Probes at one time are all accepted, and remembered, as long as there is room. */
  lemma {:induction false} ProbesAccepted(cfg: Config, reqs: seq<Request>, key: string, u: real, m: nat)
    requires cfg.windowSeconds >= 0.0
    requires |Expire(BucketOf(StateAfter(cfg, reqs), key), u - cfg.windowSeconds)| + m <= cfg.maxRequests
    ensures var all, cutoff := reqs + Probe(key, u, m), u - cfg.windowSeconds;
      && Expire(BucketOf(StateAfter(cfg, all), key), cutoff) ==
           Expire(BucketOf(StateAfter(cfg, reqs), key), cutoff) + Repeat(u, m)
      && Log(cfg, all, key) == Log(cfg, reqs, key) + Repeat(u, m)
    decreases m
  {
    hide StateAfter, Log, Expire, BucketOf;
    var all, cutoff := reqs + Probe(key, u, m), u - cfg.windowSeconds;
    var kept := Expire(BucketOf(StateAfter(cfg, reqs), key), cutoff);
    if m == 0 {
      assert all == reqs;
      assert kept + Repeat(u, 0) == kept && Log(cfg, reqs, key) + Repeat(u, 0) == Log(cfg, reqs, key);
    } else {
      ProbesAccepted(cfg, reqs, key, u, m - 1);
      ProbeMore(reqs, key, u, m - 1);
      ExpireHeads(BucketOf(StateAfter(cfg, reqs), key), cutoff);
      ExpireStays(kept, Repeat(u, m), cutoff);
      RepeatOn(kept, u, m - 1);
      RepeatOn(Log(cfg, reqs, key), u, m - 1);
      OneAccepted(cfg, all, key, u);
    }
  }

  /** What limiter and log say to the next probe. */
  lemma NextProbe(cfg: Config, reqs: seq<Request>, key: string, u: real, m: nat)
    requires cfg.windowSeconds >= 0.0
    requires |Expire(BucketOf(StateAfter(cfg, reqs), key), u - cfg.windowSeconds)| + m <= cfg.maxRequests
    ensures var all, cutoff := reqs + Probe(key, u, m + 1), u - cfg.windowSeconds;
      && (OutcomeOf(cfg, all) == Accepted <==>
          |Expire(BucketOf(StateAfter(cfg, reqs), key), cutoff)| + m < cfg.maxRequests)
      && (NaiveAllows(cfg, Log(cfg, Init(all), key), u) <==>
          Recent(Log(cfg, reqs, key), cutoff) + m < cfg.maxRequests)
  {
    hide Consistent, Check, Expire, Recent, Log;
    var all, cutoff := reqs + Probe(key, u, m + 1), u - cfg.windowSeconds;
    ProbesAccepted(cfg, reqs, key, u, m);
    ProbeMore(reqs, key, u, m);
    CheckEffect(cfg, StateAfter(cfg, Init(all)), key, u);
    RecentConcat(Log(cfg, reqs, key), Repeat(u, m), cutoff);
    RecentBounds(Repeat(u, m), cutoff);
  }

  /** So if a probe fits the one and not the other, they disagree. */
  lemma ProbesDiffer(cfg: Config, reqs: seq<Request>, key: string, u: real, m: nat)
    requires cfg.windowSeconds >= 0.0
    requires var kept := |Expire(BucketOf(StateAfter(cfg, reqs), key), u - cfg.windowSeconds)|;
      var counted := Recent(Log(cfg, reqs, key), u - cfg.windowSeconds);
      kept + m <= cfg.maxRequests && (kept + m < cfg.maxRequests <==> counted + m >= cfg.maxRequests)
    ensures !AgreesFrom(cfg, reqs, Probe(key, u, m + 1), key)
    ensures !AgreesNext(cfg, reqs + Probe(key, u, m + 1), key)
  {
    hide Expire, Recent, Log, StateAfter, OutcomeOf;
    NextProbe(cfg, reqs, key, u, m);
    ProbeMore(reqs, key, u, m);
    var more := Probe(key, u, m + 1);
    assert !AgreesNext(cfg, reqs + more[..m + 1], key);
  }

  /** A bucket with room that has forgotten an entry that counts: as many probes as fill the log show it. */
  lemma ForgottenShows(cfg: Config, reqs: seq<Request>, key: string, last: real) returns (more: seq<Request>)
    requires Monotone(reqs, key) && NoneAfter(reqs, key, last)
    requires !RemembersRun(cfg, reqs, key, last)
    ensures From(more, key, last) && !AgreesFrom(cfg, reqs, more, key)
  {
    hide StateAfter, Log, Expire, Recent, Monotone, NoneAfter, AgreesFrom;
    var bucket, log := BucketOf(StateAfter(cfg, reqs), key), Log(cfg, reqs, key);
    RunTracks(cfg, reqs, key, last);
    LogSorted(cfg, reqs, key, last);
    StillCounted(cfg, bucket, log, last);
    var m := cfg.maxRequests - 1 - |bucket|;
    more := Probe(key, last, m + 1);
    ProbesDiffer(cfg, reqs, key, last, m);
    ProbeIsFrom(key, last, m + 1);
  }

  lemma ProbeIsFrom(key: string, last: real, m: nat)
    ensures From(Probe(key, last, m), key, last)
  {
  }

  lemma StillCounted(cfg: Config, bucket: seq<real>, log: seq<real>, last: real)
    requires Sorted(log) && AllUpTo(log, last) && Tracks(bucket, log, last) && !Covers(cfg, bucket, log, last)
    ensures cfg.windowSeconds >= 0.0
    ensures Expire(bucket, last - cfg.windowSeconds) == bucket
    ensures Recent(log, last - cfg.windowSeconds) > |bucket|
  {
    hide Recent, Expire, Sorted;
    var cutoff := last - cfg.windowSeconds;
    var i :| 0 <= i < |log| - |bucket| && log[i] >= cutoff;
    LateEntries(log, i, cutoff);
    var late := log[i..];
    assert |late| > |bucket| && bucket == late[|late| - |bucket|..];
    ExpireFirst(bucket, cutoff);
  }

  /** From an entry that counts on, all do. */
  lemma LateEntries(log: seq<real>, i: nat, cutoff: real)
    requires Sorted(log) && i < |log| && log[i] >= cutoff
    ensures AllFrom(log[i..], cutoff) && Recent(log, cutoff) >= |log| - i
  {
    hide Recent;
    assert log == log[..i] + log[i..];
    RecentConcat(log[..i], log[i..], cutoff);
    RecentBounds(log[i..], cutoff);
  }

  /**
   After any run in which the times of the key never ran back, evictions or not: the limiter decides
   like the log of accepted requests on everything that may follow if and only if the bucket of the key
   still holds all accepted requests that count, or is full.
   */
  lemma AgreesFromIff(cfg: Config, reqs: seq<Request>, key: string, last: real)
    requires Monotone(reqs, key) && NoneAfter(reqs, key, last)
    ensures RemembersRun(cfg, reqs, key, last) <==>
      forall more | From(more, key, last) :: AgreesFrom(cfg, reqs, more, key)
  {
    hide RemembersRun, AgreesFrom, From, Monotone, NoneAfter;
    if RemembersRun(cfg, reqs, key, last) {
      forall more | From(more, key, last) ensures AgreesFrom(cfg, reqs, more, key) {
        RememberedAgrees(cfg, reqs, more, key, last);
      }
    } else {
      var more := ForgottenShows(cfg, reqs, key, last);
    }
  }
}
