/** What one poll of a release feed keeps of the page it fetched, and the watermark it computes. */
module FeedPoll {
  import opened Collections
  import opened FeedEnvelope

  const DAY: Instant := 86_400_000_000
  const PAGE_LIMIT: nat := 500

  // ------------------------------------------------------------------ the watermark

  function Max(dates: seq<Instant>): (m: Instant)
    requires dates != []
    ensures m in dates && forall d | d in dates :: d <= m
  {
    if |dates| == 1 then dates[0]
    else
      var rest := Max(dates[1..]);
      assert forall d | d in dates :: d == dates[0] || d in dates[1..];
      if dates[0] >= rest then dates[0] else rest
  }

  function AdvanceWatermark(current: Option<Instant>, dates: seq<Instant>, pageCount: nat): Option<Instant> {
    if dates == [] then current
    else
      var latest := Max(dates);
      if current.None? || latest > current.value then Some(latest)
      else if pageCount < PAGE_LIMIT then Some(if current.value >= latest then current.value else latest)
      else current
  }

  /** An unset watermark is before every instant. */
  predicate NotAfter(a: Option<Instant>, b: Option<Instant>) {
    a.None? || (b.Some? && a.value <= b.value)
  }

  ghost predicate IsUpperBound(w: Option<Instant>, current: Option<Instant>, dates: seq<Instant>) {
    NotAfter(current, w) && forall d | d in dates :: NotAfter(Some(d), w)
  }

  /** The new watermark is the least one that bounds the old one and all dates, whatever the page count. */
  lemma WatermarkIsLeastBound(current: Option<Instant>, dates: seq<Instant>, pageCount: nat, w: Option<Instant>)
    ensures w == AdvanceWatermark(current, dates, pageCount) <==>
      && IsUpperBound(w, current, dates)
      && (w == current || exists d | d in dates :: w == Some(d))
  {
    if dates != [] {
      var latest := Max(dates);
      assert Some(latest) == Some(latest) && latest in dates;
      if IsUpperBound(w, current, dates) {
        assert NotAfter(Some(latest), w);
      }
    }
  }

  // ------------------------------------------------------------------ the age filter

  predicate WithinRetention(e: Envelope, cutoff: Instant) {
    e.pubDate.None? || e.pubDate.value >= cutoff
  }

  function Retained(es: seq<Envelope>, cutoff: Instant): seq<Envelope> {
    if es == [] then []
    else
      Retained(es[..|es| - 1], cutoff) + if WithinRetention(es[|es| - 1], cutoff) then [es[|es| - 1]] else []
  }

  /**
   * Keeps exactly the envelopes younger than the retention limit, in order. The watermark plays no
   * part: the second cutoff is never later than the first, so every envelope that passes the first
   * comparison passes the second, and the branch for late envelopes with a GUID is never taken.
   */
  method FilterByMaxAge(envelopes: seq<Envelope>, watermark: Option<Instant>, maxAgeDays: int, now: Instant)
    returns (kept: seq<Envelope>)
    ensures kept == if maxAgeDays <= 0 then envelopes else Retained(envelopes, now - maxAgeDays * 86_400_000_000)
  {
    if maxAgeDays <= 0 { return envelopes; }
    var absolute := now - maxAgeDays * DAY;
    var relative := if watermark.None? then absolute else watermark.value - maxAgeDays * DAY;
    var ordering := if relative < absolute then relative else absolute;
    kept := [];
    for i := 0 to |envelopes|
      invariant kept == Retained(envelopes[..i], absolute)
    {
      var e := envelopes[i];
      assert envelopes[..i + 1][..i] == envelopes[..i];
      if e.pubDate.None? {
        kept := kept + [e];
        continue;
      }
      if e.pubDate.value < absolute {
        continue;
      }
      if e.pubDate.value >= ordering {
        kept := kept + [e];
      } else if Truthy(e.guid) {
        kept := kept + [e];
      }
    }
    assert envelopes[..|envelopes|] == envelopes;
  }

  lemma {:induction false} RetainedMembers(es: seq<Envelope>, cutoff: Instant, e: Envelope)
    ensures multiset(Retained(es, cutoff))[e] == if WithinRetention(e, cutoff) then multiset(es)[e] else 0
  {
    if es != [] {
      RetainedMembers(es[..|es| - 1], cutoff, e);
      assert es == es[..|es| - 1] + [es[|es| - 1]];
    }
  }

  // ------------------------------------------------------------------ one page

  datatype Identity = ByGuid(value: string) | ByInfoHash(value: string) | ByUrl(value: string)

  function IdentityOf(e: Envelope): Identity {
    if Truthy(e.guid) then ByGuid(e.guid.value)
    else if Truthy(e.infoHash) then ByInfoHash(e.infoHash.value)
    else ByUrl(e.redactedUrl)
  }

  /** The envelope at `i` is new: not stored, and not seen earlier on the page. */
  predicate IsNew(es: seq<Envelope>, existing: set<Identity>, i: nat)
    requires i < |es|
  {
    && IdentityOf(es[i]) !in existing
    && forall j | 0 <= j < i :: IdentityOf(es[j]) != IdentityOf(es[i])
  }

  function NewIn(es: seq<Envelope>, existing: set<Identity>, n: nat): seq<Envelope>
    requires n <= |es|
  {
    if n == 0 then [] else NewIn(es, existing, n - 1) + if IsNew(es, existing, n - 1) then [es[n - 1]] else []
  }

  function Dates(es: seq<Envelope>): seq<Instant> {
    if es == [] then []
    else
      var last := es[|es| - 1];
      Dates(es[..|es| - 1]) + if last.pubDate.Some? then [last.pubDate.value] else []
  }

  /** The last GUID of the page; the one stored when the page carries none. */
  function LastGuid(es: seq<Envelope>, initial: Option<string>): Option<string> {
    if es == [] then initial
    else
      var last := es[|es| - 1];
      if Truthy(last.guid) then last.guid else LastGuid(es[..|es| - 1], initial)
  }

  /** Duplicates are not stored again, but their dates and GUIDs count like all others. */
  method ProcessPage(envelopes: seq<Envelope>, existing: set<Identity>, storedGuid: Option<string>)
    returns (pending: seq<Envelope>, dates: seq<Instant>, lastGuid: Option<string>)
    ensures pending == NewIn(envelopes, existing, |envelopes|)
    ensures dates == Dates(envelopes)
    ensures lastGuid == LastGuid(envelopes, storedGuid)
  {
    hide IdentityOf, Truthy;
    pending, dates, lastGuid := [], [], storedGuid;
    var seen: set<Identity> := {};
    for i := 0 to |envelopes|
      invariant forall id :: id in seen <==>
        id !in existing && exists j :: 0 <= j < i && IdentityOf(envelopes[j]) == id
      invariant pending == NewIn(envelopes, existing, i)
      invariant dates == Dates(envelopes[..i])
      invariant lastGuid == LastGuid(envelopes[..i], storedGuid)
    {
      var e := envelopes[i];
      var id := IdentityOf(e);
      assert envelopes[..i + 1][..i] == envelopes[..i];
      if id in existing || id in seen {
        if e.pubDate.Some? { dates := dates + [e.pubDate.value]; }
        if Truthy(e.guid) { lastGuid := e.guid; }
        continue;
      }
      seen := seen + {id};
      pending := pending + [e];
      if e.pubDate.Some? { dates := dates + [e.pubDate.value]; }
      if Truthy(e.guid) { lastGuid := e.guid; }
    }
    assert envelopes[..|envelopes|] == envelopes;
  }

  ghost predicate Holds(es: seq<Envelope>, id: Identity) {
    exists e | e in es :: IdentityOf(e) == id
  }

  ghost predicate DistinctIdentities(es: seq<Envelope>) {
    forall i, j | 0 <= i < j < |es| :: IdentityOf(es[i]) != IdentityOf(es[j])
  }

  /** What is pending has each identity once, none of them stored, and leaves out no other one. */
  lemma {:induction false} PendingIsExact(es: seq<Envelope>, existing: set<Identity>, n: nat)
    requires n <= |es|
    ensures forall id :: Holds(NewIn(es, existing, n), id) <==> Holds(es[..n], id) && id !in existing
    ensures DistinctIdentities(NewIn(es, existing, n))
  {
    hide IdentityOf;
    if n > 0 {
      PendingIsExact(es, existing, n - 1);
      forall id ensures Holds(NewIn(es, existing, n), id) <==> Holds(es[..n], id) && id !in existing {
        PendingStep(es, existing, n, NewIn(es, existing, n - 1), id);
      }
      var earlier := NewIn(es, existing, n - 1);
      if IsNew(es, existing, n - 1) {
        forall i | 0 <= i < |earlier| ensures IdentityOf(earlier[i]) != IdentityOf(es[n - 1]) {
          assert earlier[i] in earlier;
          assert Holds(earlier, IdentityOf(earlier[i]));
        }
      }
    }
  }

  lemma PendingStep(es: seq<Envelope>, existing: set<Identity>, n: nat, before: seq<Envelope>, id: Identity)
    requires 0 < n <= |es|
    requires Holds(before, id) <==> Holds(es[..n - 1], id) && id !in existing
    ensures Holds(before + if IsNew(es, existing, n - 1) then [es[n - 1]] else [], id) <==>
      Holds(es[..n], id) && id !in existing
  {
    var last := es[n - 1];
    assert es[..n] == es[..n - 1] + [last];
    HoldsAppend(es[..n - 1], last, id);
    HoldsAppend(before, last, id);
    if IsNew(es, existing, n - 1) {
    } else {
      assert before + [] == before;
      if IdentityOf(last) !in existing {
        var j :| 0 <= j < n - 1 && IdentityOf(es[j]) == IdentityOf(last);
        assert es[..n - 1][j] == es[j];
        assert Holds(es[..n - 1], IdentityOf(last));
      }
    }
  }

  lemma HoldsAppend(es: seq<Envelope>, last: Envelope, id: Identity)
    ensures Holds(es + [last], id) <==> Holds(es, id) || IdentityOf(last) == id
  {
    hide IdentityOf;
    assert forall e :: e in es + [last] <==> e in es || e == last;
    assert last in es + [last];
  }

  lemma {:induction false} DatesMembers(es: seq<Envelope>)
    ensures forall d :: d in Dates(es) <==> exists e | e in es :: e.pubDate == Some(d)
  {
    if es != [] {
      var front, last := es[..|es| - 1], es[|es| - 1];
      DatesMembers(front);
      assert es == front + [last];
      assert forall e :: e in es <==> e in front || e == last;
    }
  }

  /** A page moves the watermark to the latest date on it, or leaves it, and never back. */
  lemma WatermarkCoversPage(current: Option<Instant>, es: seq<Envelope>, pageCount: nat)
    ensures var w := AdvanceWatermark(current, Dates(es), pageCount);
      && NotAfter(current, w)
      && (forall e | e in es :: NotAfter(e.pubDate, w))
      && (w == current || exists e | e in es :: e.pubDate == w)
  {
    DatesMembers(es);
    var dates := Dates(es);
    var w := AdvanceWatermark(current, dates, pageCount);
    WatermarkIsLeastBound(current, dates, pageCount, w);
    forall e | e in es ensures NotAfter(e.pubDate, w) {
      if e.pubDate.Some? {
        var d := e.pubDate.value;
        assert exists x | x in es :: x.pubDate == Some(d);
        assert d in dates;
      }
    }
  }

  /** All a poll has to store: the entries, and the watermark and GUID that the source then has. */
  datatype Observed = Observed(pending: seq<Envelope>, watermark: Option<Instant>, guid: Option<string>)

  /**
   * One fetched page, from the age filter to the values stored. The retained entries decide: their
   * identities are stored once each, and the watermark moves to the latest of their dates or stays.
   */
  method ObservePage(envelopes: seq<Envelope>, watermark: Option<Instant>, guid: Option<string>, maxAgeDays: int,
    now: Instant, existing: set<Identity>) returns (o: Observed)
    ensures var retained :=
        if maxAgeDays <= 0 then envelopes else Retained(envelopes, now - maxAgeDays * 86_400_000_000);
      && (forall id :: Holds(o.pending, id) <==> Holds(retained, id) && id !in existing)
      && DistinctIdentities(o.pending)
      && NotAfter(watermark, o.watermark)
      && (forall e | e in retained :: NotAfter(e.pubDate, o.watermark))
      && (o.watermark == watermark || exists e | e in retained :: e.pubDate == o.watermark)
      && o.guid == LastGuid(retained, guid)
  {
    hide *;
    var retained := FilterByMaxAge(envelopes, watermark, maxAgeDays, now);
    if retained == [] {
      NothingObserved(existing, watermark, guid);
      return Observed([], watermark, guid);
    }
    var pending, dates, lastGuid := ProcessPage(retained, existing, guid);
    PendingIsExact(retained, existing, |retained|);
    assert retained[..|retained|] == retained;
    WatermarkCoversPage(watermark, retained, |envelopes|);
    return Observed(pending, AdvanceWatermark(watermark, dates, |envelopes|), lastGuid);
  }

  lemma NothingObserved(existing: set<Identity>, watermark: Option<Instant>, guid: Option<string>)
    ensures DistinctIdentities([]) && (forall id :: !Holds([], id))
    ensures NotAfter(watermark, watermark) && LastGuid([], guid) == guid
  {
  }

  // ------------------------------------------------------------------ which entries are the same

  /** Present and not empty. */
  predicate Given(s: Option<string>) {
    s.Some? && s.value != ""
  }

  /** Two entries are the same by GUID if both have one, by info hash if neither has, else by URL. */
  lemma SameIdentityIff(a: Envelope, b: Envelope)
    ensures IdentityOf(a) == IdentityOf(b) <==>
      || (Given(a.guid) && Given(b.guid) && a.guid == b.guid)
      || (!Given(a.guid) && !Given(b.guid) && Given(a.infoHash) && Given(b.infoHash) && a.infoHash == b.infoHash)
      || (&& !Given(a.guid) && !Given(b.guid) && !Given(a.infoHash) && !Given(b.infoHash)
          && a.redactedUrl == b.redactedUrl)
  {
  }

  /** The GUID kept is that of the last entry that has one. */
  lemma {:induction false} LastGuidIff(es: seq<Envelope>, initial: Option<string>, i: nat)
    requires i < |es| && Given(es[i].guid) && forall j | i < j < |es| :: !Given(es[j].guid)
    ensures LastGuid(es, initial) == es[i].guid
  {
    if i < |es| - 1 {
      LastGuidIff(es[..|es| - 1], initial, i);
    }
  }

  lemma {:induction false} NoGuidKeepsStored(es: seq<Envelope>, initial: Option<string>)
    requires forall e | e in es :: !Given(e.guid)
    ensures LastGuid(es, initial) == initial
  {
    if es != [] {
      assert es[|es| - 1] in es;
      NoGuidKeepsStored(es[..|es| - 1], initial);
    }
  }
}
