/** The rows of the feed sources: which poller may poll a source, and how far it has been read. */
module FeedLease {
  import opened Collections
  import opened FeedEnvelope
  import opened FeedPoll

  const LEASE: Instant := 120_000_000
  const REASON_LIMIT: nat := 500

  type SourceId = nat
  type Owner = string

  datatype Source = Source(
    enabled: bool,
    watermark: Option<Instant>,
    guid: Option<string>,
    owner: Option<Owner>,
    until: Option<Instant>,
    failures: nat,
    lastSuccess: Option<Instant>,
    lastError: Option<string>)

  type Rows = map<SourceId, Source>

  /** What a poller remembers of the source it claimed. */
  datatype Snapshot = Snapshot(id: SourceId, watermark: Option<Instant>, guid: Option<string>, owner: Owner)

  // ------------------------------------------------------------------ what each statement does to the rows

  predicate Claimable(rows: Rows, locked: set<SourceId>, now: Instant, id: SourceId) {
    && id in rows && id !in locked && rows[id].enabled
    && (rows[id].until.None? || rows[id].until.value < now)
  }

  /** The source that has gone longest without a success; one never polled comes before all others. */
  ghost predicate IsNextSource(rows: Rows, locked: set<SourceId>, now: Instant, id: SourceId) {
    && Claimable(rows, locked, now, id)
    && forall other | Claimable(rows, locked, now, other) :: NotAfter(rows[id].lastSuccess, rows[other].lastSuccess)
  }

  predicate Owns(rows: Rows, id: SourceId, owner: Owner) {
    id in rows && rows[id].owner == Some(owner)
  }

  function Claimed(rows: Rows, id: SourceId, owner: Owner, now: Instant): Rows
    requires id in rows
  {
    rows[id := rows[id].(owner := Some(owner), until := Some(now + LEASE))]
  }

  function Extended(rows: Rows, id: SourceId, owner: Owner, now: Instant): Rows {
    if Owns(rows, id, owner) then rows[id := rows[id].(until := Some(now + LEASE))] else rows
  }

  function Released(rows: Rows, id: SourceId, owner: Owner): Rows {
    if Owns(rows, id, owner) then rows[id := rows[id].(owner := None, until := None)] else rows
  }

  function Succeeded(
    rows: Rows, id: SourceId, owner: Owner, watermark: Option<Instant>, guid: Option<string>, now: Instant): Rows
  {
    if Owns(rows, id, owner) then
      rows[id := rows[id].(watermark := watermark, guid := guid, failures := 0, lastSuccess := Some(now),
        lastError := None, owner := None, until := None)]
    else rows
  }

  function Held(rows: Rows, id: SourceId, owner: Owner, reason: string, count: bool): Rows {
    if Owns(rows, id, owner) then
      var row := rows[id];
      rows[id := row.(
        lastError := Some(if |reason| > 500 then reason[..500] else reason),
        failures := if count then row.failures + 1 else row.failures,
        owner := None, until := None)]
    else rows
  }

  class FeedRepository {
    var rows: Rows

    constructor ()
      ensures rows == map[]
    {
      rows := map[];
    }

    /** Rows locked by other transactions are skipped; the lease is stamped with the caller's clock. */
    method ClaimSource(owner: Owner, locked: set<SourceId>, appNow: Instant, dbNow: Instant)
      returns (claim: Option<Snapshot>)
      modifies this
      ensures claim.None? <==> forall id :: !Claimable(old(rows), locked, dbNow, id)
      ensures claim.None? ==> rows == old(rows)
      ensures claim.Some? ==>
        var id := claim.value.id;
        && IsNextSource(old(rows), locked, dbNow, id)
        && claim.value == Snapshot(id, old(rows)[id].watermark, old(rows)[id].guid, owner)
        && rows == Claimed(old(rows), id, owner, appNow)
    {
      var rest := rows.Keys;
      var best: Option<SourceId> := None;
      while rest != {}
        invariant rest <= rows.Keys && rows == old(rows)
        invariant best.Some? ==> Claimable(rows, locked, dbNow, best.value) && best.value !in rest
        invariant forall other | Claimable(rows, locked, dbNow, other) && other !in rest ::
          best.Some? && NotAfter(rows[best.value].lastSuccess, rows[other].lastSuccess)
        decreases |rest|
      {
        var id :| id in rest;
        rest := rest - {id};
        if Claimable(rows, locked, dbNow, id) {
          if best.None? || !NotAfter(rows[best.value].lastSuccess, rows[id].lastSuccess) {
            best := Some(id);
          }
        }
      }
      if best.None? { return None; }
      var source := rows[best.value];
      claim := Some(Snapshot(best.value, source.watermark, source.guid, owner));
      rows := Claimed(rows, best.value, owner, appNow);
    }

    method RenewLease(id: SourceId, owner: Owner, now: Instant) returns (held: bool)
      modifies this
      ensures held <==> Owns(old(rows), id, owner)
      ensures rows == Extended(old(rows), id, owner, now)
    {
      held := Owns(rows, id, owner);
      if held { rows := rows[id := rows[id].(until := Some(now + LEASE))]; }
    }

    method ReleaseLease(id: SourceId, owner: Owner) returns (held: bool)
      modifies this
      ensures held <==> Owns(old(rows), id, owner)
      ensures rows == Released(old(rows), id, owner)
    {
      held := Owns(rows, id, owner);
      if held { rows := rows[id := rows[id].(owner := None, until := None)]; }
    }

    method RecordPollSuccess(
      id: SourceId, owner: Owner, watermark: Option<Instant>, guid: Option<string>, now: Instant)
      returns (held: bool)
      modifies this
      ensures held <==> Owns(old(rows), id, owner)
      ensures rows == Succeeded(old(rows), id, owner, watermark, guid, now)
    {
      held := Owns(rows, id, owner);
      if held {
        rows := rows[id := rows[id].(watermark := watermark, guid := guid, failures := 0, lastSuccess := Some(now),
          lastError := None, owner := None, until := None)];
      }
    }

    method RecordPollHold(id: SourceId, owner: Owner, reason: string, count: bool) returns (held: bool)
      modifies this
      ensures held <==> Owns(old(rows), id, owner)
      ensures rows == Held(old(rows), id, owner, reason, count)
    {
      held := Owns(rows, id, owner);
      if held {
        var row := rows[id];
        if count { row := row.(failures := row.failures + 1); }
        var cut := if |reason| > REASON_LIMIT then reason[..REASON_LIMIT] else reason;
        rows := rows[id := row.(lastError := Some(cut), owner := None, until := None)];
      }
    }
  }

  // ------------------------------------------------------------------ many pollers

  /** A poller that crashes is one that takes no further step. */
  datatype Phase =
    | Idle
    | Polling(claim: Snapshot, claimedAt: Instant, leasedAt: Instant, renewed: bool)
    | Ended(claim: Snapshot)
    | Gone

  /** `latest` names, for every source claimed so far, the poller that claimed it last. */
  datatype State = State(rows: Rows, pollers: map<Owner, Phase>, latest: map<SourceId, Owner>)

  datatype Action =
    | Sync(rows: Rows)
    | Claim(who: Owner, id: SourceId, locked: set<SourceId>, appNow: Instant, dbNow: Instant)
    | FindNothing(who: Owner, locked: set<SourceId>, dbNow: Instant)
    | Renew(who: Owner, now: Instant)
    | UndoRenewal(who: Owner)
    | Succeed(who: Owner, dates: seq<Instant>, pageCount: nat, guid: Option<string>, now: Instant)
    | Hold(who: Owner, reason: string, count: bool)
    | Release(who: Owner)

  /** Synchronising the sources adds rows and changes which are enabled, and touches no lease or watermark. */
  ghost predicate Synced(before: Rows, after: Rows) {
    && (forall id | id in before :: id in after && after[id] == before[id].(enabled := after[id].enabled))
    && (forall id | id in after && id !in before :: after[id].owner.None? && after[id].watermark.None?)
  }

  function NewWatermark(claim: Snapshot, a: Action): Option<Instant>
    requires a.Succeed?
  {
    AdvanceWatermark(claim.watermark, a.dates, a.pageCount)
  }

  ghost predicate Acts(s: State, t: State, a: Action, p: Phase)
    requires !a.Sync? && a.who in s.pollers && p == s.pollers[a.who]
  {
    match a
    case Claim(who, id, locked, appNow, dbNow) =>
      && p.Idle? && IsNextSource(s.rows, locked, dbNow, id)
      && t == State(
        Claimed(s.rows, id, who, appNow),
        s.pollers[who := Polling(Snapshot(id, s.rows[id].watermark, s.rows[id].guid, who), appNow, appNow, false)],
        s.latest[id := who])
    case FindNothing(who, locked, dbNow) =>
      && p.Idle? && (forall id :: !Claimable(s.rows, locked, dbNow, id))
      && t == s.(pollers := s.pollers[who := Gone])
    case Renew(who, now) =>
      && p.Polling? && !p.renewed
      && t == s.(
        rows := Extended(s.rows, p.claim.id, who, now),
        pollers := s.pollers[who :=
          if Owns(s.rows, p.claim.id, who) then p.(leasedAt := now, renewed := true) else Ended(p.claim)])
    case UndoRenewal(who) =>
      // a conflict while storing observations rolls the whole transaction back
      && p.Polling? && p.renewed
      && t == s.(
        rows := Extended(s.rows, p.claim.id, who, p.claimedAt),
        pollers := s.pollers[who := p.(leasedAt := p.claimedAt)])
    case Succeed(who, dates, pageCount, guid, now) =>
      && p.Polling? && p.renewed
      && t == s.(
        rows := Succeeded(s.rows, p.claim.id, who, NewWatermark(p.claim, a), guid, now),
        pollers := s.pollers[who := Ended(p.claim)])
    case Hold(who, reason, count) =>
      && p.Polling? && !p.renewed
      && t == s.(rows := Held(s.rows, p.claim.id, who, reason, count), pollers := s.pollers[who := Ended(p.claim)])
    case Release(who) =>
      && (p.Polling? || p.Ended?)
      && t == s.(rows := Released(s.rows, p.claim.id, who), pollers := s.pollers[who := Gone])
  }

  ghost predicate Next(s: State, t: State, a: Action) {
    if a.Sync? then Synced(s.rows, a.rows) && t == s.(rows := a.rows)
    else a.who in s.pollers && Acts(s, t, a, s.pollers[a.who])
  }

  /** Any rows, with leases left behind by pollers of the past; owner ids are never used again. */
  ghost predicate Init(s: State) {
    && (forall who | who in s.pollers :: s.pollers[who].Idle?)
    && (forall id, who | id in s.rows && who in s.pollers :: s.rows[id].owner != Some(who))
    && s.latest == map[]
  }

  datatype Run = Run(states: seq<State>, actions: seq<Action>)

  ghost predicate IsRun(r: Run) {
    && |r.states| == |r.actions| + 1 && Init(r.states[0])
    && forall i | 0 <= i < |r.actions| :: Next(r.states[i], r.states[i + 1], r.actions[i])
  }

  // ------------------------------------------------------------------ the invariant

  /** A poller holds the lease of the source it claimed until it ends or someone else claims that source. */
  ghost predicate PollingFits(s: State, who: Owner, p: Phase)
    requires p.Polling?
  {
    var id := p.claim.id;
    && p.claim.owner == who && id in s.rows && id in s.latest
    && (Owns(s.rows, id, who) <==> s.latest[id] == who)
    && (forall other | other in s.rows && other != id :: s.rows[other].owner != Some(who))
    && (Owns(s.rows, id, who) ==>
          && s.rows[id].watermark == p.claim.watermark && s.rows[id].guid == p.claim.guid
          && s.rows[id].until == Some(p.leasedAt + LEASE))
  }

  ghost predicate OwnsNothing(s: State, who: Owner) {
    forall id | id in s.rows :: s.rows[id].owner != Some(who)
  }

  ghost predicate Fits(s: State, who: Owner)
    requires who in s.pollers
  {
    var p := s.pollers[who];
    && (if p.Polling? then PollingFits(s, who, p) else OwnsNothing(s, who))
    && (p.Idle? ==> who !in s.latest.Values)
  }

  ghost predicate Inv(s: State) {
    forall who | who in s.pollers :: Fits(s, who)
  }

  lemma InitFits(s: State)
    requires Init(s)
    ensures Inv(s)
  {
  }

  /** Nothing changes for a poller when a row that is not its own changes without becoming its own. */
  lemma OtherFits(s: State, t: State, who: Owner, id: SourceId)
    requires who in s.pollers && who in t.pollers && s.pollers[who] == t.pollers[who] && Fits(s, who)
    requires id in s.rows && id in t.rows && t.rows == s.rows[id := t.rows[id]] && t.latest == s.latest
    requires s.rows[id].owner != Some(who) && t.rows[id].owner != Some(who)
    ensures Fits(t, who)
  {
  }

  lemma ClaimFits(s: State, t: State, a: Action, who: Owner)
    requires Inv(s) && Next(s, t, a) && a.Claim? && who in t.pollers
    ensures Fits(t, who)
  {
    hide Claimable, IsNextSource;
    assert a.id in s.rows by { NextIsRow(s.rows, a.locked, a.dbNow, a.id); }
    assert Fits(s, who) && Fits(s, a.who);
    if who != a.who && s.pollers[who].Idle? {
      forall id | id in t.latest ensures t.latest[id] != who {
        if id != a.id {
          assert s.latest[id] in s.latest.Values;
        }
      }
    }
  }

  lemma NextIsRow(rows: Rows, locked: set<SourceId>, now: Instant, id: SourceId)
    requires IsNextSource(rows, locked, now, id)
    ensures id in rows
  {
  }

  lemma ActorFits(s: State, t: State, a: Action)
    requires Inv(s) && Next(s, t, a) && !a.Sync? && !a.Claim?
    ensures Fits(t, a.who)
  {
    hide Claimable, AdvanceWatermark;
    assert Fits(s, a.who);
  }

  lemma BystanderFits(s: State, t: State, a: Action, who: Owner)
    requires Inv(s) && Next(s, t, a) && !a.Sync? && !a.Claim? && who in t.pollers && who != a.who
    ensures Fits(t, who)
  {
    hide Claimable, AdvanceWatermark, Fits;
    assert Fits(s, who);
    if t.rows == s.rows {
      SameFits(s, t, who);
    } else {
      var id := s.pollers[a.who].claim.id;
      assert Owns(s.rows, id, a.who);
      OtherFits(s, t, who, id);
    }
  }

  lemma SameFits(s: State, t: State, who: Owner)
    requires who in s.pollers && who in t.pollers && s.pollers[who] == t.pollers[who] && Fits(s, who)
    requires t.rows == s.rows && t.latest == s.latest
    ensures Fits(t, who)
  {
  }

  lemma SyncFits(s: State, t: State, a: Action, who: Owner)
    requires Inv(s) && Next(s, t, a) && a.Sync? && who in t.pollers
    ensures Fits(t, who)
  {
    assert Fits(s, who);
  }

  lemma NextKeepsInv(s: State, t: State, a: Action)
    requires Inv(s) && Next(s, t, a)
    ensures Inv(t)
  {
    hide Fits, Next;
    forall who | who in t.pollers ensures Fits(t, who) {
      if a.Sync? {
        SyncFits(s, t, a, who);
      } else if a.Claim? {
        ClaimFits(s, t, a, who);
      } else if who == a.who {
        ActorFits(s, t, a);
      } else {
        BystanderFits(s, t, a, who);
      }
    }
  }

  lemma {:induction false} RunInv(r: Run, i: nat)
    requires IsRun(r) && i < |r.states|
    ensures Inv(r.states[i])
  {
    hide Next, Inv, Init;
    if i == 0 {
      InitFits(r.states[0]);
    } else {
      RunInv(r, i - 1);
      NextKeepsInv(r.states[i - 1], r.states[i], r.actions[i - 1]);
    }
  }

  // ------------------------------------------------------------------ what holds over every run

  /** A success counts exactly when the poller made the latest claim, and then its snapshot is current. */
  lemma SuccessCountsIff(r: Run, i: nat)
    requires IsRun(r) && i < |r.actions| && r.actions[i].Succeed?
    ensures var s, t, a := r.states[i], r.states[i + 1], r.actions[i];
      && a.who in s.pollers && s.pollers[a.who].Polling? && s.pollers[a.who].claim.id in s.rows
      && var id := s.pollers[a.who].claim.id;
      && id in s.latest
      && (s.latest[id] == a.who ==>
            && t.rows.Keys == s.rows.Keys
            && t.rows[id].watermark == AdvanceWatermark(s.rows[id].watermark, a.dates, a.pageCount)
            && t.rows[id].guid == a.guid && t.rows[id].owner.None?)
      && (s.latest[id] != a.who ==> t.rows == s.rows)
  {
    hide AdvanceWatermark;
    RunInv(r, i);
    var s, t, a := r.states[i], r.states[i + 1], r.actions[i];
    assert Next(s, t, a) && Fits(s, a.who);
  }

  lemma StepNotBack(s: State, t: State, a: Action, id: SourceId)
    requires Inv(s) && Next(s, t, a) && id in s.rows
    ensures id in t.rows && NotAfter(s.rows[id].watermark, t.rows[id].watermark)
  {
    hide AdvanceWatermark, Claimable, NotAfter;
    assert NotAfter(s.rows[id].watermark, s.rows[id].watermark) by { NotAfterItself(s.rows[id].watermark); }
    if !a.Sync? {
      assert Fits(s, a.who);
      var p := s.pollers[a.who];
      if a.Succeed? {
        AdvanceNotBack(p.claim.watermark, a.dates, a.pageCount);
      }
    }
  }

  lemma NotAfterItself(w: Option<Instant>)
    ensures NotAfter(w, w)
  {
  }

  lemma AdvanceNotBack(current: Option<Instant>, dates: seq<Instant>, pageCount: nat)
    ensures NotAfter(current, AdvanceWatermark(current, dates, pageCount))
  {
    WatermarkIsLeastBound(current, dates, pageCount, AdvanceWatermark(current, dates, pageCount));
  }

  /** The stored watermark of a source never moves back. */
  lemma {:induction false} WatermarkNeverBack(r: Run, i: nat, j: nat, id: SourceId)
    requires IsRun(r) && i <= j < |r.states| && id in r.states[i].rows
    ensures id in r.states[j].rows && NotAfter(r.states[i].rows[id].watermark, r.states[j].rows[id].watermark)
    decreases j - i
  {
    hide Next, Inv, Init;
    if i < j {
      WatermarkNeverBack(r, i, j - 1, id);
      RunInv(r, j - 1);
      StepNotBack(r.states[j - 1], r.states[j], r.actions[j - 1], id);
    }
  }

  ghost predicate ClaimsAt(r: Run, k: nat, who: Owner, id: SourceId)
    requires k < |r.actions|
  {
    r.actions[k].Claim? && r.actions[k].who == who && r.actions[k].id == id
  }

  /** Step `k` is the last claim of the source before state `i`, and `who` made it. */
  ghost predicate LastClaimAt(r: Run, i: nat, k: nat, who: Owner, id: SourceId)
    requires i <= |r.actions|
  {
    k < i && ClaimsAt(r, k, who, id) && forall j, other | k < j < i :: !ClaimsAt(r, j, other, id)
  }

  lemma StepLatest(s: State, t: State, a: Action)
    requires Next(s, t, a)
    ensures t.latest == if a.Claim? then s.latest[a.id := a.who] else s.latest
  {
    hide Claimable, IsNextSource, Extended, Released, Succeeded, Held, Claimed, AdvanceWatermark, Synced;
  }

  lemma {:induction false} LatestIsLastClaim(r: Run, i: nat, id: SourceId)
    requires IsRun(r) && i < |r.states| && id in r.states[i].latest
    ensures exists k :: LastClaimAt(r, i, k, r.states[i].latest[id], id)
  {
    hide Next;
    if i > 0 {
      var s, t, a := r.states[i - 1], r.states[i], r.actions[i - 1];
      StepLatest(s, t, a);
      var who := t.latest[id];
      if a.Claim? && a.id == id {
        assert LastClaimAt(r, i, i - 1, who, id);
      } else {
        LatestIsLastClaim(r, i - 1, id);
        var k :| LastClaimAt(r, i - 1, k, who, id);
        assert LastClaimAt(r, i, k, who, id);
      }
    }
  }

  /** Whoever writes a watermark or its GUID made the latest claim of that source. */
  lemma WrittenByLatestClaimer(r: Run, i: nat, id: SourceId)
    requires IsRun(r) && i < |r.actions| && id in r.states[i].rows && id in r.states[i + 1].rows
    requires
      || r.states[i].rows[id].watermark != r.states[i + 1].rows[id].watermark
      || r.states[i].rows[id].guid != r.states[i + 1].rows[id].guid
    ensures r.actions[i].Succeed? && exists k :: LastClaimAt(r, i, k, r.actions[i].who, id)
  {
    hide IsRun, LastClaimAt;
    RunStep(r, i);
    RunInv(r, i);
    WriterIsLatest(r.states[i], r.states[i + 1], r.actions[i], id);
    LatestIsLastClaim(r, i, id);
  }

  lemma RunStep(r: Run, i: nat)
    requires IsRun(r) && i < |r.actions|
    ensures |r.states| == |r.actions| + 1 && Next(r.states[i], r.states[i + 1], r.actions[i])
  {
    hide Next;
  }

  lemma WriterIsLatest(s: State, t: State, a: Action, id: SourceId)
    requires Inv(s) && Next(s, t, a) && id in s.rows && id in t.rows
    requires s.rows[id].watermark != t.rows[id].watermark || s.rows[id].guid != t.rows[id].guid
    ensures a.Succeed? && id in s.latest && s.latest[id] == a.who
  {
    hide AdvanceWatermark, Claimable;
    if !a.Sync? {
      assert Fits(s, a.who);
    }
  }

  // ------------------------------------------------------------------ losing the lease

  /** The poller has claimed the source, and someone else has claimed it since. */
  ghost predicate Overtaken(s: State, who: Owner, id: SourceId) {
    && who in s.pollers && !s.pollers[who].Idle?
    && (s.pollers[who].Polling? || s.pollers[who].Ended? ==> s.pollers[who].claim.id == id)
    && id in s.latest && s.latest[id] != who
  }

  lemma StepOvertaken(s: State, t: State, a: Action, who: Owner, id: SourceId)
    requires Next(s, t, a) && Overtaken(s, who, id)
    ensures Overtaken(t, who, id)
  {
    hide Claimable, IsNextSource, Extended, Released, Succeeded, Held, Claimed, AdvanceWatermark, Synced;
  }

  lemma {:induction false} StaysOvertaken(r: Run, j: nat, i: nat, who: Owner, id: SourceId)
    requires IsRun(r) && j <= i < |r.states| && Overtaken(r.states[j], who, id)
    ensures Overtaken(r.states[i], who, id)
    decreases i - j
  {
    hide Next, Overtaken, Init;
    if j < i {
      StaysOvertaken(r, j, i - 1, who, id);
      StepOvertaken(r.states[i - 1], r.states[i], r.actions[i - 1], who, id);
    }
  }

  lemma OvertakenChangesNothing(s: State, t: State, a: Action, id: SourceId)
    requires Inv(s) && Next(s, t, a) && !a.Sync? && Overtaken(s, a.who, id)
    ensures t.rows == s.rows
  {
    hide AdvanceWatermark, Claimable;
    assert Fits(s, a.who);
  }

  ghost predicate HasClaimed(s: State, who: Owner, id: SourceId) {
    && who in s.pollers && !s.pollers[who].Idle?
    && (s.pollers[who].Polling? || s.pollers[who].Ended? ==> s.pollers[who].claim.id == id)
  }

  lemma {:induction false} StaysClaimed(r: Run, k: nat, i: nat, who: Owner, id: SourceId)
    requires IsRun(r) && k < i < |r.states| && ClaimsAt(r, k, who, id)
    ensures HasClaimed(r.states[i], who, id)
    decreases i - k
  {
    hide Claimable, IsNextSource, Extended, Released, Succeeded, Held, Claimed, AdvanceWatermark, Synced, Init;
    assert Next(r.states[i - 1], r.states[i], r.actions[i - 1]);
    if k < i - 1 {
      StaysClaimed(r, k, i - 1, who, id);
    }
  }

  /** A poller whose source was claimed again after its own claim changes no row any more, whatever it does. */
  lemma OvertakenForGood(r: Run, k: nat, j: nat, i: nat, who: Owner, other: Owner, id: SourceId)
    requires IsRun(r) && k < j < i < |r.actions|
    requires ClaimsAt(r, k, who, id) && ClaimsAt(r, j, other, id)
    requires !r.actions[i].Sync? && r.actions[i].who == who
    ensures r.states[i + 1].rows == r.states[i].rows
  {
    hide IsRun, Overtaken;
    RunStep(r, j);
    StaysClaimed(r, k, j, who, id);
    StaysClaimed(r, k, j + 1, who, id);
    assert Overtaken(r.states[j + 1], who, id) by {
      ClaimOvertakes(r.states[j], r.states[j + 1], r.actions[j], who, id);
    }
    StaysOvertaken(r, j + 1, i, who, id);
    RunStep(r, i);
    RunInv(r, i);
    OvertakenChangesNothing(r.states[i], r.states[i + 1], r.actions[i], id);
  }

  lemma ClaimOvertakes(s: State, t: State, a: Action, who: Owner, id: SourceId)
    requires Next(s, t, a) && a.Claim? && a.id == id && HasClaimed(s, who, id) && HasClaimed(t, who, id)
    ensures Overtaken(t, who, id)
  {
    hide IsNextSource;
  }

  /** A source under lease is not claimed before the lease has run out on the database clock. */
  lemma TakeoverWaits(r: Run, i: nat, who: Owner)
    requires IsRun(r) && i < |r.actions| && r.actions[i].Claim? && who in r.states[i].pollers
    requires Owns(r.states[i].rows, r.actions[i].id, who)
    ensures r.states[i].pollers[who].Polling? && r.actions[i].dbNow > r.states[i].pollers[who].leasedAt + 120_000_000
  {
    RunInv(r, i);
    assert Fits(r.states[i], who) && Next(r.states[i], r.states[i + 1], r.actions[i]);
  }
}
