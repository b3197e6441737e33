/** Which key a full limiter evicts, and when a refused caller may succeed. */
module RateLimitEviction {
  import opened Collections
  import opened Ordering
  import opened RateLimit
  import opened RateLimitRuns

  /** One more than the position of the last check of `key`; zero if it was never checked. */
  function LastCheck(reqs: seq<Request>, key: string): nat {
    if reqs == [] then 0
    else if Last(reqs).key == key then |reqs|
    else LastCheck(Init(reqs), key)
  }

  /** The keys of the map in the order in which they were last checked. */
  ghost predicate ByLastCheck(reqs: seq<Request>, order: seq<string>) {
    && (forall i | 0 <= i < |order| :: LastCheck(reqs, order[i]) > 0)
    && (forall i, j | 0 <= i < j < |order| :: LastCheck(reqs, order[i]) < LastCheck(reqs, order[j]))
  }

  lemma WithoutByLastCheck(reqs: seq<Request>, order: seq<string>, v: nat)
    requires ByLastCheck(reqs, order) && v < |order|
    ensures ByLastCheck(reqs, Without(order, v))
  {
    var rest := Without(order, v);
    assert forall i | 0 <= i < |rest| :: rest[i] == (if i < v then order[i] else order[i + 1]);
  }

  lemma {:induction false} EvictByLastCheck(cfg: Config, reqs: seq<Request>, st: State, now: real)
    requires Consistent(st) && ByLastCheck(reqs, st.order)
    ensures ByLastCheck(reqs, Evict(cfg, st, now).order)
    decreases |st.order|
  {
    hide ByLastCheck;
    if |st.order| >= MAX_KEYS {
      var v := Victim(cfg, st, now);
      DropConsistent(st, v);
      WithoutByLastCheck(reqs, st.order, v);
      EvictByLastCheck(cfg, reqs, Drop(st, v), now);
    }
  }

  lemma {:induction false} LastCheckBound(reqs: seq<Request>, key: string)
    ensures LastCheck(reqs, key) <= |reqs|
  {
    if reqs != [] {
      LastCheckBound(Init(reqs), key);
    }
  }

  lemma CheckedIsLast(reqs: seq<Request>, rest: seq<string>)
    requires reqs != [] && ByLastCheck(Init(reqs), rest) && Last(reqs).key !in rest
    ensures ByLastCheck(reqs, rest + [Last(reqs).key])
  {
    var order := rest + [Last(reqs).key];
    forall i | 0 <= i < |rest| ensures LastCheck(reqs, order[i]) == LastCheck(Init(reqs), rest[i]) < |reqs| {
      LastCheckBound(Init(reqs), rest[i]);
    }
  }

  lemma KeyAbsent(st: State, key: string)
    requires Consistent(st) && key !in st.buckets
    ensures key !in st.order
  {
  }

  /** In every reachable state the map order is the order of last check. */
  lemma {:induction false} OrderIsLastCheck(cfg: Config, reqs: seq<Request>)
    ensures ByLastCheck(reqs, StateAfter(cfg, reqs).order)
    decreases |reqs|
  {
    hide Consistent, ByLastCheck, Evict, LastCheck;
    if reqs == [] {
      NoKeys(reqs);
    } else {
      var st, r := StateAfter(cfg, Init(reqs)), Last(reqs);
      OrderIsLastCheck(cfg, Init(reqs));
      TouchConsistent(cfg, st, r.key, r.now);
      if r.key in st.buckets {
        KeyListed(st, r.key);
        var v := IndexOf(st.order, r.key);
        WithoutByLastCheck(Init(reqs), st.order, v);
        DropConsistent(st, v);
        KeyAbsent(Drop(st, v), r.key);
        CheckedIsLast(reqs, Without(st.order, v));
      } else {
        EvictByLastCheck(cfg, Init(reqs), st, r.now);
        EvictConsistent(cfg, st, r.now);
        KeyAbsent(Evict(cfg, st, r.now), r.key);
        CheckedIsLast(reqs, Evict(cfg, st, r.now).order);
      }
    }
  }

  lemma NoKeys(reqs: seq<Request>)
    ensures ByLastCheck(reqs, [])
  {
  }

  /** In every reachable state a bucket is sorted, if the times of its key never ran back. */
  lemma BucketsSorted(cfg: Config, reqs: seq<Request>, key: string)
    requires Monotone(reqs, key)
    ensures Sorted(BucketOf(StateAfter(cfg, reqs), key))
  {
    hide Monotone, NoneAfter;
    var now := SomeBound(reqs, key);
    RunTracks(cfg, reqs, key, now);
  }

  /** In every reachable state a bucket is within the limit, whatever the clock did. */
  lemma {:induction false} BucketsWithinLimit(cfg: Config, reqs: seq<Request>, key: string)
    ensures var bucket := BucketOf(StateAfter(cfg, reqs), key);
      bucket == [] || |bucket| <= cfg.maxRequests
    decreases |reqs|
  {
    hide Consistent, Check;
    if reqs != [] {
      BucketsWithinLimit(cfg, Init(reqs), key);
      var st, r := StateAfter(cfg, Init(reqs)), Last(reqs);
      CheckEffect(cfg, st, r.key, r.now);
      ExpireShortens(BucketOf(st, key), r.now - cfg.windowSeconds);
    }
  }

  lemma {:induction false} ExpireShortens(bucket: seq<real>, cutoff: real)
    ensures |Expire(bucket, cutoff)| <= |bucket|
  {
    if bucket != [] && bucket[0] < cutoff {
      ExpireShortens(bucket[1..], cutoff);
    }
  }

  /**
   A full map loses exactly one key: the least recently checked one that is below its limit, or,
   only when every key is at its limit, the least recently checked one.
   */
  lemma EvictionPolicy(cfg: Config, st: State, now: real) returns (v: nat)
    requires Consistent(st) && |st.order| == MAX_KEYS
    ensures v < |st.order| && Evict(cfg, st, now) == Drop(st, v)
    ensures forall i | 0 <= i < |st.order| :: st.order[i] in st.buckets
    ensures AtLimit(cfg, st.buckets[st.order[v]], now) ==>
              v == 0 && forall i | 0 <= i < |st.order| :: AtLimit(cfg, st.buckets[st.order[i]], now)
    ensures !AtLimit(cfg, st.buckets[st.order[v]], now) ==>
              forall i | 0 <= i < v :: AtLimit(cfg, st.buckets[st.order[i]], now)
  {
    hide AtLimit;
    v := Victim(cfg, st, now);
    DropConsistent(st, v);
  }

  /** Below the limit on keys nothing is evicted. */
  lemma NoEvictionBelowLimit(cfg: Config, st: State, now: real)
    requires Consistent(st) && |st.order| < MAX_KEYS
    ensures Evict(cfg, st, now) == st
  {
  }

  function KeysOf(reqs: seq<Request>): set<string> {
    set r | r in reqs :: r.key
  }

  lemma KeysOfStep(reqs: seq<Request>)
    requires reqs != []
    ensures KeysOf(reqs) == KeysOf(Init(reqs)) + {Last(reqs).key}
  {
    assert reqs == Init(reqs) + [Last(reqs)];
  }

  lemma CheckedKeys(cfg: Config, st: State, key: string, now: real)
    requires Consistent(st)
    ensures Check(cfg, st, key, now).state.buckets.Keys <= st.buckets.Keys + {key}
    ensures key in st.buckets || |st.order| < MAX_KEYS ==>
      Check(cfg, st, key, now).state.buckets.Keys == st.buckets.Keys + {key}
  {
    hide Consistent, Evict;
    EvictConsistent(cfg, st, now);
    TouchConsistent(cfg, st, key, now);
    if |st.order| < MAX_KEYS {
      NoEvictionBelowLimit(cfg, st, now);
    }
  }

  lemma OrderSize(st: State)
    requires Consistent(st)
    ensures |st.order| == |st.buckets.Keys|
  {
    DistinctSize(st.order);
    assert (set k | k in st.order) == st.buckets.Keys;
  }

  /** As long as at most 10,000 keys were ever checked, every one of them still has its bucket. */
  lemma {:induction false} FewKeysStay(cfg: Config, reqs: seq<Request>)
    requires |KeysOf(reqs)| <= 10_000
    ensures StateAfter(cfg, reqs).buckets.Keys == KeysOf(reqs)
    decreases |reqs|
  {
    hide Consistent, Check;
    if reqs != [] {
      var before, r := Init(reqs), Last(reqs);
      var st := StateAfter(cfg, before);
      KeysOfStep(reqs);
      SubsetSize(KeysOf(before), KeysOf(reqs));
      FewKeysStay(cfg, before);
      OrderSize(st);
      if r.key !in st.buckets {
        assert |KeysOf(reqs)| == |KeysOf(before)| + 1;
      }
      CheckedKeys(cfg, st, r.key, r.now);
    }
  }

  /** So no key is ever evicted in such a run, and the limiter agrees with the naive one on each. */
  lemma {:induction false} FewKeysNeverEvicted(cfg: Config, reqs: seq<Request>, key: string)
    requires |KeysOf(reqs)| <= 10_000
    ensures NeverEvicted(cfg, reqs, key)
    decreases |reqs|
  {
    hide Consistent, Check, StateAfter;
    if reqs != [] {
      KeysOfStep(reqs);
      SubsetSize(KeysOf(Init(reqs)), KeysOf(reqs));
      FewKeysNeverEvicted(cfg, Init(reqs), key);
      FewKeysStay(cfg, Init(reqs));
      FewKeysStay(cfg, reqs);
    }
  }

  // ------------------------------------------------------------------ the advertised retry time

  lemma ExpireTwice(bucket: seq<real>, cutoff: real)
    requires Sorted(bucket) && bucket != [] && bucket[0] >= cutoff
    ensures Expire(bucket, cutoff) == bucket
  {
  }

  lemma ExpireHead(bucket: seq<real>, cutoff: real)
    requires Sorted(bucket) && bucket != [] && bucket[0] < cutoff
    ensures |Expire(bucket, cutoff)| < |bucket|
  {
    ExpireSorted(bucket[1..], cutoff);
  }

  /** What a check tells a caller when it is the next after `reqs`. */
  ghost function Answer(cfg: Config, reqs: seq<Request>, key: string, now: real): Outcome {
    OutcomeOf(cfg, reqs + [Request(key, now)])
  }

  /**
   A caller refused at `now` that comes back exactly after the advertised delay, with nothing in
   between, is accepted if and only if the oldest accept had less than one second left in the
   window: the delay is rounded down, and an accept still counts at the window's very edge.
   */
  lemma RetryAcceptedIff(cfg: Config, reqs: seq<Request>, key: string, now: real)
    requires Monotone(reqs, key) && Answer(cfg, reqs, key, now).Rejected?
    ensures var refused := reqs + [Request(key, now)];
            var kept := BucketOf(StateAfter(cfg, refused), key);
            var delay := Answer(cfg, reqs, key, now).retryAfter as real;
            && kept != []
            && (Answer(cfg, refused, key, now + delay) == Accepted <==> cfg.windowSeconds - (now - kept[0]) < 1.0)
  {
    hide Consistent, Check, Monotone;
    var st := StateAfter(cfg, reqs);
    var refused := reqs + [Request(key, now)];
    NextState(cfg, reqs, key, now);
    BucketsSorted(cfg, reqs, key);
    BucketsWithinLimit(cfg, reqs, key);
    NextState(cfg, refused, key, now + Answer(cfg, reqs, key, now).retryAfter as real);
    RetryFrom(cfg, st, key, now);
  }

  lemma NextState(cfg: Config, reqs: seq<Request>, key: string, now: real)
    ensures StateAfter(cfg, reqs + [Request(key, now)]) == Check(cfg, StateAfter(cfg, reqs), key, now).state
    ensures Answer(cfg, reqs, key, now) == Check(cfg, StateAfter(cfg, reqs), key, now).outcome
  {
    hide Consistent, Check;
    assert Init(reqs + [Request(key, now)]) == reqs;
  }

  lemma RetryFrom(cfg: Config, st: State, key: string, now: real)
    requires Consistent(st) && Sorted(BucketOf(st, key))
    requires BucketOf(st, key) == [] || |BucketOf(st, key)| <= cfg.maxRequests
    requires Check(cfg, st, key, now).outcome.Rejected?
    ensures var first := Check(cfg, st, key, now);
            var kept := BucketOf(first.state, key);
            && kept != []
            && (Check(cfg, first.state, key, now + first.outcome.retryAfter as real).outcome == Accepted <==>
                cfg.windowSeconds - (now - kept[0]) < 1.0)
  {
    hide Consistent;
    var first := Check(cfg, st, key, now);
    var later := now + first.outcome.retryAfter as real;
    var cutoff := now - cfg.windowSeconds;
    CheckEffect(cfg, st, key, now);
    CheckEffect(cfg, first.state, key, later);
    ExpireSorted(BucketOf(st, key), cutoff);
    var kept := BucketOf(first.state, key);
    RefusedDelay(cfg, st, key, now);
    if kept[0] >= later - cfg.windowSeconds {
      ExpireTwice(kept, later - cfg.windowSeconds);
    } else {
      ExpireHead(kept, later - cfg.windowSeconds);
    }
  }

  /** From the empty limiter: one accept, a refusal that says ten seconds, and a refusal ten seconds later. */
  lemma RetryRefused()
    ensures var cfg := Config(1, 10.0);
            var accepted := [Request("k", 0.0)];
            && OutcomeOf(cfg, accepted) == Accepted
            && Answer(cfg, accepted, "k", 0.0) == Rejected(10)
            && Answer(cfg, accepted + [Request("k", 0.0)], "k", 10.0) != Accepted
  {
    hide Consistent, Check;
    var cfg := Config(1, 10.0);
    var accepted := [Request("k", 0.0)];
    assert Init(accepted) == [];
    CheckEffect(cfg, StateAfter(cfg, []), "k", 0.0);
    assert BucketOf(StateAfter(cfg, accepted), "k") == [0.0];
    NextState(cfg, accepted, "k", 0.0);
    CheckEffect(cfg, StateAfter(cfg, accepted), "k", 0.0);
    BrokenStep(cfg, StateAfter(cfg, accepted), "k", 0.0);
    RefusedDelay(cfg, StateAfter(cfg, accepted), "k", 0.0);
    var refused := accepted + [Request("k", 0.0)];
    assert BucketOf(StateAfter(cfg, refused), "k") == [0.0];
    NextState(cfg, refused, "k", 10.0);
    CheckEffect(cfg, StateAfter(cfg, refused), "k", 10.0);
  }

  lemma BrokenStep(cfg: Config, st: State, key: string, now: real)
    requires Consistent(st)
    ensures Check(cfg, st, key, now).outcome == Broken <==>
      cfg.maxRequests <= 0 && Expire(BucketOf(st, key), now - cfg.windowSeconds) == []
  {
    hide Consistent, Evict;
    TouchConsistent(cfg, st, key, now);
  }

  /** Exactly a limit of zero or less makes a check read the head of an empty bucket, and then every one does. */
  lemma BrokenIff(cfg: Config, reqs: seq<Request>)
    requires reqs != []
    ensures OutcomeOf(cfg, reqs) == Broken <==> cfg.maxRequests <= 0
  {
    hide Consistent, Check, Expire;
    var st, r := StateAfter(cfg, Init(reqs)), Last(reqs);
    BrokenStep(cfg, st, r.key, r.now);
    BucketsWithinLimit(cfg, Init(reqs), r.key);
    ExpireShortens(BucketOf(st, r.key), r.now - cfg.windowSeconds);
  }

  /** The first request under a limit of zero. */
  lemma ZeroLimitBreaks()
    ensures OutcomeOf(Config(0, 10.0), [Request("k", 0.0)]) == Broken
  {
    BrokenIff(Config(0, 10.0), [Request("k", 0.0)]);
  }

  lemma RefusedDelay(cfg: Config, st: State, key: string, now: real)
    requires Consistent(st) && Check(cfg, st, key, now).outcome.Rejected?
    ensures var first := Check(cfg, st, key, now);
            var kept := BucketOf(first.state, key);
            && kept != []
            && var left := cfg.windowSeconds - (now - kept[0]);
               first.outcome.retryAfter == (if left.Floor > 1 then left.Floor else 1)
  {
    hide Consistent, Evict;
    TouchConsistent(cfg, st, key, now);
  }

  // ------------------------------------------------------------------ what eviction forgets

  /** A key without a bucket is accepted, whatever was accepted for it before. */
  lemma ForgottenIsAccepted(cfg: Config, reqs: seq<Request>, key: string, now: real)
    requires key !in StateAfter(cfg, reqs).buckets && cfg.maxRequests > 0
    ensures Answer(cfg, reqs, key, now) == Accepted
  {
    hide Consistent, Check;
    NextState(cfg, reqs, key, now);
    CheckEffect(cfg, StateAfter(cfg, reqs), key, now);
  }

  function Name(i: nat): string {
    seq(i + 1, _ => 'x')
  }

  /** So many keys, each checked once, all at the same time. */
  function Crowd(n: nat): seq<Request> {
    seq(n, i requires 0 <= i => Request(Name(i), 0.0))
  }

  lemma CrowdMore(n: nat)
    ensures Crowd(n + 1) == Crowd(n) + [Request(Name(n), 0.0)] && Init(Crowd(n + 1)) == Crowd(n)
    ensures Name(n) !in KeysOf(Crowd(n))
  {
    forall i: nat | i < n ensures Name(i) != Name(n) {
      assert |Name(i)| != |Name(n)|;
    }
  }

  lemma {:induction false} CrowdSize(n: nat)
    ensures |KeysOf(Crowd(n))| == n
  {
    hide Name;
    if n > 0 {
      hide Crowd, KeysOf;
      CrowdMore(n - 1);
      CrowdSize(n - 1);
      KeysOfStep(Crowd(n));
    }
  }

  const ONE_EACH: Config := Config(1, 10.0)

  /** With a limit of one, every bucket of a crowd is at its limit, and the first key was accepted once. */
  lemma {:induction false} CrowdBuckets(n: nat)
    requires n > 0
    ensures var st := StateAfter(ONE_EACH, Crowd(n));
      && st.buckets.Keys <= KeysOf(Crowd(n))
      && forall k | k in st.buckets :: st.buckets[k] == [0.0]
    ensures Log(ONE_EACH, Crowd(n), Name(0)) == [0.0]
    ensures LastCheck(Crowd(n), Name(0)) == 1
  {
    hide Consistent, Check;
    CrowdMore(n - 1);
    var before := Crowd(n - 1);
    var st := StateAfter(ONE_EACH, before);
    if n > 1 {
      CrowdBuckets(n - 1);
      assert |Name(0)| != |Name(n - 1)|;
    }
    KeysOfStep(Crowd(n));
    CheckedKeys(ONE_EACH, st, Name(n - 1), 0.0);
    CheckEffect(ONE_EACH, st, Name(n - 1), 0.0);
  }

  /** One key more than there is room for: the first one is evicted. */
  lemma FirstIsEvicted()
    ensures Name(0) !in StateAfter(ONE_EACH, Crowd(MAX_KEYS + 1)).buckets
  {
    hide Consistent, Check, LastCheck;
    var reqs := Crowd(MAX_KEYS);
    var st := StateAfter(ONE_EACH, reqs);
    CrowdMore(MAX_KEYS);
    CrowdSize(MAX_KEYS);
    FewKeysStay(ONE_EACH, reqs);
    OrderSize(st);
    CrowdBuckets(MAX_KEYS);
    var v := EvictionPolicy(ONE_EACH, st, 0.0);
    assert AtLimit(ONE_EACH, [0.0], 0.0);
    OrderIsLastCheck(ONE_EACH, reqs);
    assert reqs[0] == Request(Name(0), 0.0);
    KeyListed(st, Name(0));
    var i := IndexOf(st.order, Name(0));
    assert i == 0;
    NewcomerKeys(ONE_EACH, st, Name(MAX_KEYS), 0.0);
    assert |Name(0)| != |Name(MAX_KEYS)|;
  }

  lemma NewcomerKeys(cfg: Config, st: State, key: string, now: real)
    requires Consistent(st) && key !in st.buckets
    ensures Check(cfg, st, key, now).state.buckets.Keys == Evict(cfg, st, now).buckets.Keys + {key}
  {
    hide Consistent, Evict;
    TouchConsistent(cfg, st, key, now);
  }

  /** With more keys than there is room for, two requests at once are accepted under a limit of one in ten seconds. */
  lemma EvictionOverAdmits()
    ensures var before := Crowd(MAX_KEYS + 1);
            && Answer(ONE_EACH, before, Name(0), 0.0) == Accepted
            && !NaiveAllows(ONE_EACH, Log(ONE_EACH, before, Name(0)), 0.0)
            && CountWithin(Log(ONE_EACH, before + [Request(Name(0), 0.0)], Name(0)), 0.0, 10.0) == 2
            && Monotone(before + [Request(Name(0), 0.0)], Name(0))
    ensures var before := Crowd(MAX_KEYS + 1);
            var bucket := BucketOf(StateAfter(ONE_EACH, before), Name(0));
            !Remembers(ONE_EACH, bucket, Log(ONE_EACH, before, Name(0)), 0.0)
  {
    hide StateAfter, OutcomeOf, NaiveLog;
    var before := Crowd(MAX_KEYS + 1);
    var reqs := before + [Request(Name(0), 0.0)];
    FirstIsEvicted();
    ForgottenIsAccepted(ONE_EACH, before, Name(0), 0.0);
    CrowdBuckets(MAX_KEYS + 1);
    assert Init(reqs) == before;
    assert Log(ONE_EACH, reqs, Name(0)) == [0.0, 0.0];
    assert [0.0, 0.0][1..] == [0.0];
  }
}
