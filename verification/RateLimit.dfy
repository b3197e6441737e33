/** The in-process sliding-window limiter: one deque of accept times per key, in a bounded LRU map. */
module RateLimit {
  import opened Ordering

  const MAX_KEYS: nat := 10_000

  datatype Config = Config(maxRequests: int, windowSeconds: real)

  /** The ordered map: keys from least to most recently checked, and each key's deque. */
  datatype State = State(order: seq<string>, buckets: map<string, seq<real>>)

  /** `Broken` is the index error a limit of zero or less runs into on an empty deque. */
  datatype Outcome = Accepted | Rejected(retryAfter: int) | Broken

  datatype Step = Step(state: State, outcome: Outcome)

  /** The order lists each key of the map exactly once. */
  ghost predicate Consistent(st: State) {
    Distinct(st.order) && forall k :: k in st.order <==> k in st.buckets
  }

  // ------------------------------------------------------------------ the specification

  function IndexOf(order: seq<string>, key: string): (i: nat)
    requires key in order
    ensures i < |order| && order[i] == key && forall j | 0 <= j < i :: order[j] != key
  {
    if order[0] == key then 0 else 1 + IndexOf(order[1..], key)
  }

  function Without(order: seq<string>, i: nat): seq<string>
    requires i < |order|
  {
    order[..i] + order[i + 1..]
  }

  function Expire(bucket: seq<real>, cutoff: real): seq<real> {
    if bucket != [] && bucket[0] < cutoff then Expire(bucket[1..], cutoff) else bucket
  }

  /** How many timestamps are at or after the cutoff. */
  function Recent(times: seq<real>, cutoff: real): nat {
    if times == [] then 0
    else Recent(times[..|times| - 1], cutoff) + (if times[|times| - 1] >= cutoff then 1 else 0)
  }

  predicate AtLimit(cfg: Config, bucket: seq<real>, now: real) {
    Recent(bucket, now - cfg.windowSeconds) >= cfg.maxRequests
  }

  /** The first position from `i` on whose bucket is below its limit; the length if there is none. */
  function FirstBelowLimit(cfg: Config, st: State, now: real, i: nat): (r: nat)
    requires i <= |st.order| && forall k | k in st.order :: k in st.buckets
    ensures i <= r <= |st.order|
    ensures forall j | i <= j < r :: AtLimit(cfg, st.buckets[st.order[j]], now)
    ensures r < |st.order| ==> !AtLimit(cfg, st.buckets[st.order[r]], now)
    decreases |st.order| - i
  {
    if i == |st.order| || !AtLimit(cfg, st.buckets[st.order[i]], now) then i
    else FirstBelowLimit(cfg, st, now, i + 1)
  }

  /** The position evicted from a full map. */
  function Victim(cfg: Config, st: State, now: real): (v: nat)
    requires st.order != [] && forall k | k in st.order :: k in st.buckets
    ensures v < |st.order|
  {
    var r := FirstBelowLimit(cfg, st, now, 0);
    if r < |st.order| then r else 0
  }

  function Drop(st: State, v: nat): State
    requires v < |st.order|
  {
    State(Without(st.order, v), st.buckets - {st.order[v]})
  }

  function Evict(cfg: Config, st: State, now: real): State
    requires Consistent(st)
    decreases |st.order|
  {
    if |st.order| < MAX_KEYS then st
    else
      DropConsistent(st, Victim(cfg, st, now));
      Evict(cfg, Drop(st, Victim(cfg, st, now)), now)
  }

  /** The state with `key` present and moved to the most recent end. */
  function Touch(cfg: Config, st: State, key: string, now: real): State
    requires Consistent(st)
  {
    if key in st.buckets then
      State(Without(st.order, IndexOf(st.order, key)) + [key], st.buckets)
    else
      var kept := Evict(cfg, st, now);
      State(kept.order + [key], kept.buckets[key := []])
  }

  function Check(cfg: Config, st: State, key: string, now: real): (c: Step)
    requires Consistent(st)
    ensures Consistent(c.state)
  {
    TouchConsistent(cfg, st, key, now);
    var touched := Touch(cfg, st, key, now);
    var bucket := Expire(touched.buckets[key], now - cfg.windowSeconds);
    UpdateConsistent(touched, key, bucket);
    UpdateConsistent(touched, key, bucket + [now]);
    if |bucket| >= cfg.maxRequests then
      var outcome :=
        if bucket == [] then Broken
        else
          var retryIn := (cfg.windowSeconds - (now - bucket[0])).Floor;
          Rejected(if retryIn > 1 then retryIn else 1);
      Step(State(touched.order, touched.buckets[key := bucket]), outcome)
    else
      Step(State(touched.order, touched.buckets[key := bucket + [now]]), Accepted)
  }

  lemma DropConsistent(st: State, v: nat)
    requires Consistent(st) && v < |st.order|
    ensures Consistent(Drop(st, v))
  {
    var rest := Without(st.order, v);
    forall k ensures k in rest <==> k in st.buckets - {st.order[v]} {
      if k in st.buckets - {st.order[v]} {
        var i :| 0 <= i < |st.order| && st.order[i] == k;
        assert if i < v then rest[i] == k else rest[i - 1] == k;
      }
      if k in rest {
        var i :| 0 <= i < |rest| && rest[i] == k;
        assert rest[i] == (if i < v then st.order[i] else st.order[i + 1]);
      }
    }
  }

  lemma {:induction false} EvictConsistent(cfg: Config, st: State, now: real)
    requires Consistent(st)
    ensures Consistent(Evict(cfg, st, now))
    ensures |Evict(cfg, st, now).order| <= |st.order| && |Evict(cfg, st, now).order| < MAX_KEYS
    ensures forall k | k in Evict(cfg, st, now).buckets ::
              k in st.buckets && Evict(cfg, st, now).buckets[k] == st.buckets[k]
    decreases |st.order|
  {
    if |st.order| >= MAX_KEYS {
      var v := Victim(cfg, st, now);
      DropConsistent(st, v);
      EvictConsistent(cfg, Drop(st, v), now);
    }
  }

  lemma AppendConsistent(st: State, key: string, bucket: seq<real>)
    requires Consistent(st) && key !in st.buckets
    ensures Consistent(State(st.order + [key], st.buckets[key := bucket]))
  {
  }

  lemma TouchConsistent(cfg: Config, st: State, key: string, now: real)
    requires Consistent(st)
    ensures Consistent(Touch(cfg, st, key, now))
    ensures key in Touch(cfg, st, key, now).buckets
    ensures |Touch(cfg, st, key, now).order| <= (if |st.order| > MAX_KEYS then |st.order| else MAX_KEYS)
  {
    hide Consistent;
    ConsistentKeys(st);
    if key in st.buckets {
      KeyListed(st, key);
      var v := IndexOf(st.order, key);
      DropConsistent(st, v);
      AppendConsistent(Drop(st, v), key, st.buckets[key]);
      assert (st.buckets - {key})[key := st.buckets[key]] == st.buckets;
    } else {
      EvictConsistent(cfg, st, now);
      AppendConsistent(Evict(cfg, st, now), key, []);
    }
  }

  // ------------------------------------------------------------------ the class

  class SlidingWindowLimiter {
    const cfg: Config
    var order: seq<string>
    var buckets: map<string, seq<real>>

    ghost function Abstract(): State
      reads this
    {
      State(order, buckets)
    }

    ghost predicate Valid()
      reads this
    {
      Consistent(Abstract()) && |order| <= MAX_KEYS
    }

    constructor (maxRequests: int, windowSeconds: real)
      ensures Valid() && cfg == Config(maxRequests, windowSeconds) && Abstract() == State([], map[])
    {
      cfg := Config(maxRequests, windowSeconds);
      order := [];
      buckets := map[];
    }

    method BucketAtLimit(bucket: seq<real>, now: real) returns (atLimit: bool)
      ensures atLimit <==> AtLimit(cfg, bucket, now)
    {
      var cutoff := now - cfg.windowSeconds;
      var count := 0;
      for i := 0 to |bucket|
        invariant count == Recent(bucket[..i], cutoff)
      {
        assert bucket[..i + 1][..i] == bucket[..i];
        if bucket[i] >= cutoff {
          count := count + 1;
        }
      }
      assert bucket[..|bucket|] == bucket;
      return count >= cfg.maxRequests;
    }

    /** Walks the keys from the least recent until a bucket is below its limit. */
    method PickVictim(now: real) returns (v: nat)
      requires Consistent(Abstract()) && order != []
      ensures v == Victim(cfg, Abstract(), now)
    {
      hide AtLimit, Consistent;
      ConsistentKeys(Abstract());
      var i := 0;
      while i < |order|
        invariant 0 <= i <= |order|
        invariant FirstBelowLimit(cfg, Abstract(), now, 0) == FirstBelowLimit(cfg, Abstract(), now, i)
      {
        var atLimit := BucketAtLimit(buckets[order[i]], now);
        if !atLimit { return i; }
        i := i + 1;
      }
      return 0;
    }

    method EvictIfNeeded(now: real)
      requires Consistent(Abstract())
      modifies this
      ensures Abstract() == Evict(cfg, old(Abstract()), now)
    {
      hide Victim, Consistent;
      while |order| >= MAX_KEYS
        invariant Consistent(Abstract())
        invariant Evict(cfg, Abstract(), now) == Evict(cfg, old(Abstract()), now)
        decreases |order|
      {
        var v := PickVictim(now);
        ConsistentKeys(Abstract());
        DropConsistent(Abstract(), v);
        buckets := buckets - {order[v]};
        order := order[..v] + order[v + 1..];
      }
    }

    /** Finds or creates the key's deque and makes it the most recent. */
    method TouchKey(key: string, now: real)
      requires Valid()
      modifies this
      ensures Valid() && key in buckets
      ensures Abstract() == Touch(cfg, old(Abstract()), key, now)
    {
      hide Consistent, Evict;
      ghost var st := Abstract();
      TouchConsistent(cfg, st, key, now);
      if key !in buckets {
        EvictIfNeeded(now);
        order := order + [key];
        buckets := buckets[key := []];
      } else {
        KeyListed(st, key);
        var i := IndexOf(order, key);
        order := order[..i] + order[i + 1..] + [key];
      }
    }

    method CheckKey(key: string, now: real) returns (outcome: Outcome)
      requires Valid()
      modifies this
      ensures Valid()
      ensures Step(Abstract(), outcome) == Check(cfg, old(Abstract()), key, now)
    {
      hide Consistent, Touch;
      TouchKey(key, now);
      var cutoff := now - cfg.windowSeconds;
      var bucket := buckets[key];
      while bucket != [] && bucket[0] < cutoff
        invariant Expire(bucket, cutoff) == Expire(buckets[key], cutoff)
        decreases |bucket|
      {
        bucket := bucket[1..];
      }
      UpdateConsistent(Abstract(), key, bucket);
      UpdateConsistent(Abstract(), key, bucket + [now]);
      ghost var touched := buckets;
      buckets := buckets[key := bucket];
      if |bucket| >= cfg.maxRequests {
        if bucket == [] { return Broken; }
        var retryIn := (cfg.windowSeconds - (now - bucket[0])).Floor;
        return Rejected(if retryIn > 1 then retryIn else 1);
      }
      buckets := buckets[key := bucket + [now]];
      assert buckets == touched[key := bucket + [now]];
      return Accepted;
    }
  }

  lemma KeyListed(st: State, key: string)
    requires Consistent(st) && key in st.buckets
    ensures key in st.order
  {
  }

  lemma ConsistentKeys(st: State)
    requires Consistent(st)
    ensures forall k | k in st.order :: k in st.buckets
  {
  }

  lemma UpdateConsistent(st: State, key: string, bucket: seq<real>)
    requires Consistent(st) && key in st.buckets
    ensures Consistent(State(st.order, st.buckets[key := bucket]))
  {
  }
}
