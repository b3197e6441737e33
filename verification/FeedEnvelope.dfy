/** One entry of a release feed, as the pollers deliver it. */
module FeedEnvelope {
  import opened Collections

  /** Instants in microseconds. */
  type Instant = int

  datatype Envelope = Envelope(
    title: string,
    seasons: seq<int>,
    guid: Option<string>,
    pubDate: Option<Instant>,
    infoHash: Option<string>,
    redactedUrl: string,
    imdbId: Option<string>,
    tmdbId: Option<string>,
    tvdbId: Option<string>)

  /** A missing or empty string counts as absent. */
  predicate Truthy(s: Option<string>) {
    s.Some? && s.value != ""
  }
}
