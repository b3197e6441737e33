/** One poll from end to end, with no other poller at work in between. */
module FeedService {
  import opened Collections
  import opened FeedEnvelope
  import opened FeedLease
  import opened FeedPoll

  /** What the provider delivers: a page, or a reason why there is none. */
  datatype Fetched = Page(envelopes: seq<Envelope>) | Unavailable(reason: string)

  datatype PollOutcome = NothingToPoll | Kept(id: SourceId) | Polled(id: SourceId, pending: seq<Envelope>)

  /** All rows but one are as before, and that one is free again. */
  ghost predicate OnlyRow(before: Rows, after: Rows, id: SourceId) {
    && id in before && after.Keys == before.Keys && after[id].owner.None? && after[id].until.None?
    && forall other | other in before && other != id :: after[other] == before[other]
  }

  function RetainedPage(page: seq<Envelope>, maxAgeDays: int, now: Instant): seq<Envelope> {
    if maxAgeDays <= 0 then page else Retained(page, now - maxAgeDays * 86_400_000_000)
  }

  /**
   * A failed fetch leaves the watermark where it was and is counted; a page moves it to the latest date
   * retained, or leaves it. Either way the lease is given up and no other source is touched.
   */
  method PollOnce(
    repository: FeedRepository, owner: Owner, locked: set<SourceId>, appNow: Instant, dbNow: Instant,
    fetched: Fetched, maxAgeDays: int, existing: set<Identity>) returns (outcome: PollOutcome)
    modifies repository
    ensures outcome.NothingToPoll? <==> forall id :: !Claimable(old(repository.rows), locked, dbNow, id)
    ensures outcome.NothingToPoll? ==> repository.rows == old(repository.rows)
    ensures !outcome.NothingToPoll? ==>
      && IsNextSource(old(repository.rows), locked, dbNow, outcome.id)
      && OnlyRow(old(repository.rows), repository.rows, outcome.id)
    ensures outcome.Kept? ==>
      && fetched.Unavailable?
      && var before, after := old(repository.rows)[outcome.id], repository.rows[outcome.id];
      && after.watermark == before.watermark && after.guid == before.guid && after.lastSuccess == before.lastSuccess
      && after.failures == before.failures + 1 && after.lastError.Some? && after.lastError.value <= fetched.reason
    ensures outcome.Polled? ==>
      && fetched.Page?
      && var before, after := old(repository.rows)[outcome.id], repository.rows[outcome.id];
      && var retained := RetainedPage(fetched.envelopes, maxAgeDays, appNow);
      && after.failures == 0 && after.lastSuccess == Some(dbNow) && after.lastError.None?
      && NotAfter(before.watermark, after.watermark)
      && (forall e | e in retained :: NotAfter(e.pubDate, after.watermark))
      && (after.watermark == before.watermark || exists e | e in retained :: e.pubDate == after.watermark)
      && after.guid == LastGuid(retained, before.guid)
      && (forall id :: Holds(outcome.pending, id) <==> Holds(retained, id) && id !in existing)
      && DistinctIdentities(outcome.pending)
  {
    hide Claimable, NotAfter, Holds, DistinctIdentities, LastGuid, Retained;
    ghost var before := repository.rows;
    var claim := repository.ClaimSource(owner, locked, appNow, dbNow);
    if claim.None? { return NothingToPoll; }
    var c := claim.value;
    NextIsRow(before, locked, dbNow, c.id);
    if fetched.Unavailable? {
      var held := repository.RecordPollHold(c.id, owner, fetched.reason, true);
      return Kept(c.id);
    }
    var renewed := repository.RenewLease(c.id, owner, appNow);
    assert renewed;
    var o := ObservePage(fetched.envelopes, c.watermark, c.guid, maxAgeDays, appNow, existing);
    var stored := repository.RecordPollSuccess(c.id, owner, o.watermark, o.guid, dbNow);
    return Polled(c.id, o.pending);
  }
}
