/** Binding a feed entry to a library row by ids and then by title, through indexes built once per poll. */
module FeedBind {
  import opened Collections
  import opened FeedEnvelope
  import opened Paths

  /** A movie or a show of the library. */
  datatype Media = Media(
    id: nat,
    name: string,
    year: Option<int>,
    skipped: bool,
    continuous: Option<bool>,
    imdbId: Option<string>,
    externalId: string,
    provider: string)

  /**
   * The text functions that stay abstract. `words` gives the words of a sanitised, lower-cased text,
   * `wordsWithYears` those of a title whose years in parentheses are kept.
   */
  datatype Texts = Texts(
    variants: string -> seq<string>,
    words: string -> seq<string>,
    wordsWithYears: string -> seq<string>,
    years: string -> set<int>,
    isMarker: string -> bool,
    decimal: int -> string,
    looksLikeEpisode: string -> bool)

  /** A row of the catalog: the media with its normalised name variants. */
  datatype Entry = Entry(media: Media, variants: seq<string>)

  datatype Binding = Unbound | Movie(media: Media) | Show(media: Media)

  predicate Enabled(m: Media, global: bool) {
    !m.skipped && (if m.continuous.Some? then m.continuous.value else global)
  }

  function NormalizeImdb(id: string): string {
    if "tt" <= id then id else "tt" + id
  }

  // ------------------------------------------------------------------ the specification: a scan over the rows

  function EntryOf(m: Media, texts: Texts): Entry {
    Entry(m, texts.variants(m.name))
  }

  function Pool(rows: seq<Media>, texts: Texts, global: bool): set<Entry> {
    set m | m in rows && Enabled(m, global) :: EntryOf(m, texts)
  }

  function ImdbKeys(e: Entry): seq<string> {
    (if Truthy(e.media.imdbId) then [NormalizeImdb(e.media.imdbId.value)] else [])
    + if e.media.externalId != "" then [e.media.externalId] else []
  }

  function ProviderKeys(provider: string): Entry -> seq<string> {
    (e: Entry) => if e.media.provider == provider && e.media.externalId != "" then [e.media.externalId] else []
  }

  function TitleKeys(e: Entry): seq<string> {
    e.variants
  }

  function Spaced(words: seq<string>): string {
    Join(words, ' ')
  }

  /** Some variant of the row is made of the first words of the title. */
  predicate HasPrefixVariant(e: Entry, words: seq<string>) {
    exists n | 1 <= n <= |words| :: Spaced(words[..n]) in e.variants
  }

  predicate StartsTitle(texts: Texts, title: string, name: string) {
    || title == name
    || (name + " " <= title && texts.isMarker(FirstWord(title[|name| + 1..])))
  }

  function FirstWord(s: string): string {
    if s == "" || s[0] == ' ' then "" else [s[0]] + FirstWord(s[1..])
  }

  /** The title starts with a variant; all but the first variant must be followed by the year of the row. */
  predicate VariantRelevant(texts: Texts, title: string, e: Entry, i: nat)
    requires i < |e.variants|
  {
    if i == 0 then StartsTitle(texts, Spaced(texts.words(title)), e.variants[0])
    else
      && e.media.year.Some? && texts.years(title) == {e.media.year.value}
      && var named := e.variants[i] + " " + texts.decimal(e.media.year.value);
         StartsTitle(texts, Spaced(texts.wordsWithYears(title)), named)
  }

  predicate TitleRelevant(texts: Texts, title: string, e: Entry) {
    exists i | 0 <= i < |e.variants| :: VariantRelevant(texts, title, e, i)
  }

  /** A title that states years must state that of the row, if the row has one. */
  predicate YearRelevant(texts: Texts, title: string, year: Option<int>) {
    year.None? || year.value == 0 || texts.years(title) == {} || year.value in texts.years(title)
  }

  predicate ShowCandidate(texts: Texts, title: string, e: Entry) {
    HasPrefixVariant(e, texts.words(title)) && TitleRelevant(texts, title, e)
  }

  predicate MovieCandidate(texts: Texts, title: string, e: Entry) {
    && HasPrefixVariant(e, texts.words(title)) && TitleRelevant(texts, title, e)
    && YearRelevant(texts, title, e.media.year)
  }

  function Matching(pool: set<Entry>, keys: Entry -> seq<string>, key: string): set<Entry> {
    set e | e in pool && key in keys(e)
  }

  ghost function TheOnly(es: set<Entry>): Entry
    requires |es| == 1
  {
    var e :| e in es; e
  }

  /** The one movie found; none when there are several. */
  ghost function OneMovie(es: set<Entry>): Binding {
    if |es| == 1 then Movie(TheOnly(es).media) else Unbound
  }

  ghost function OneShow(es: set<Entry>): Binding {
    if |es| == 1 then Show(TheOnly(es).media) else Unbound
  }

  /** Movies come before shows; an id that hits anything settles the matter. */
  ghost function ById(movies: set<Entry>, shows: set<Entry>): Option<Binding> {
    if movies != {} then Some(OneMovie(movies)) else if shows != {} then Some(OneShow(shows)) else None
  }

  ghost function ByImdb(e: Envelope, movies: set<Entry>, shows: set<Entry>): Option<Binding> {
    if !Truthy(e.imdbId) then None
    else
      var key := NormalizeImdb(e.imdbId.value);
      ById(Matching(movies, ImdbKeys, key), Matching(shows, ImdbKeys, key))
  }

  ghost function ByTmdb(e: Envelope, movies: set<Entry>, shows: set<Entry>): Option<Binding> {
    if !Truthy(e.tmdbId) then None
    else
      var keys, key := ProviderKeys("tmdb"), e.tmdbId.value;
      ById(Matching(movies, keys, key), Matching(shows, keys, key))
  }

  ghost function ByTvdb(e: Envelope, shows: set<Entry>): Option<Binding> {
    if !Truthy(e.tvdbId) then None else ById({}, Matching(shows, ProviderKeys("tvdb"), e.tvdbId.value))
  }

  ghost function ByTitle(e: Envelope, movies: set<Entry>, shows: set<Entry>, texts: Texts): Binding {
    if e.seasons != [] then OneShow(set x | x in shows && ShowCandidate(texts, e.title, x))
    else if texts.looksLikeEpisode(e.title) then Unbound
    else OneMovie(set x | x in movies && MovieCandidate(texts, e.title, x))
  }

  ghost function Scan(e: Envelope, movies: set<Entry>, shows: set<Entry>, texts: Texts): Binding {
    if ByImdb(e, movies, shows).Some? then ByImdb(e, movies, shows).value
    else if ByTmdb(e, movies, shows).Some? then ByTmdb(e, movies, shows).value
    else if ByTvdb(e, shows).Some? then ByTvdb(e, shows).value
    else ByTitle(e, movies, shows, texts)
  }

  // ------------------------------------------------------------------ the indexes

  type Index = map<string, seq<Entry>>

  function Bucket(index: Index, key: string): seq<Entry> {
    if key in index then index[key] else []
  }

  /** Every bucket holds exactly the rows of the pool that have its key. */
  ghost predicate Indexes(index: Index, pool: set<Entry>, keys: Entry -> seq<string>) {
    forall key, e :: e in Bucket(index, key) <==> e in Matching(pool, keys, key)
  }

  datatype Catalog = Catalog(
    imdbMovies: Index,
    imdbShows: Index,
    tmdbMovies: Index,
    tmdbShows: Index,
    tvdbShows: Index,
    showTitles: Index,
    movieTitles: Index)

  ghost predicate CatalogOf(c: Catalog, movies: set<Entry>, shows: set<Entry>) {
    && Indexes(c.imdbMovies, movies, ImdbKeys) && Indexes(c.imdbShows, shows, ImdbKeys)
    && Indexes(c.tmdbMovies, movies, ProviderKeys("tmdb")) && Indexes(c.tmdbShows, shows, ProviderKeys("tmdb"))
    && Indexes(c.tvdbShows, shows, ProviderKeys("tvdb"))
    && Indexes(c.movieTitles, movies, TitleKeys) && Indexes(c.showTitles, shows, TitleKeys)
  }

  /** Appends the row to the bucket of each of its keys, as often as the key occurs. */
  method AppendEntry(index: Index, row: Entry, keys: seq<string>) returns (out: Index)
    ensures forall key, e :: e in Bucket(out, key) <==> e in Bucket(index, key) || (e == row && key in keys)
  {
    out := index;
    for i := 0 to |keys|
      invariant forall key, e :: e in Bucket(out, key) <==> e in Bucket(index, key) || (e == row && key in keys[..i])
    {
      ghost var before := out;
      if keys[i] in out {
        out := out[keys[i] := out[keys[i]] + [row]];
      } else {
        out := out[keys[i] := [row]];
      }
      assert forall key :: key != keys[i] ==> Bucket(out, key) == Bucket(before, key);
      assert Bucket(out, keys[i]) == Bucket(before, keys[i]) + [row];
      assert keys[..i + 1] == keys[..i] + [keys[i]];
    }
    assert keys[..|keys|] == keys;
  }

  lemma IndexesMore(index: Index, out: Index, pool: set<Entry>, row: Entry, keys: Entry -> seq<string>)
    requires Indexes(index, pool, keys)
    requires forall key, e :: e in Bucket(out, key) <==> e in Bucket(index, key) || (e == row && key in keys(row))
    ensures Indexes(out, pool + {row}, keys)
  {
    hide Bucket;
  }

  lemma PoolMore(rows: seq<Media>, i: nat, texts: Texts, global: bool)
    requires i < |rows|
    ensures Pool(rows[..i + 1], texts, global) ==
      Pool(rows[..i], texts, global) + if Enabled(rows[i], global) then {EntryOf(rows[i], texts)} else {}
  {
    hide Enabled, EntryOf;
    assert rows[..i + 1] == rows[..i] + [rows[i]];
  }

  method BuildFeedCatalog(movies: seq<Media>, shows: seq<Media>, texts: Texts, global: bool) returns (c: Catalog)
    ensures CatalogOf(c, Pool(movies, texts, global), Pool(shows, texts, global))
  {
    hide *;
    var imdbMovies, tmdbMovies, movieTitles := IndexMovies(movies, texts, global);
    var imdbShows, tmdbShows, tvdbShows, showTitles := IndexShows(shows, texts, global);
    c := Catalog(imdbMovies, imdbShows, tmdbMovies, tmdbShows, tvdbShows, showTitles, movieTitles);
    IsCatalog(c, Pool(movies, texts, global), Pool(shows, texts, global));
  }

  lemma IsCatalog(c: Catalog, movies: set<Entry>, shows: set<Entry>)
    requires Indexes(c.imdbMovies, movies, ImdbKeys) && Indexes(c.imdbShows, shows, ImdbKeys)
    requires Indexes(c.tmdbMovies, movies, ProviderKeys("tmdb")) && Indexes(c.tmdbShows, shows, ProviderKeys("tmdb"))
    requires Indexes(c.tvdbShows, shows, ProviderKeys("tvdb"))
    requires Indexes(c.movieTitles, movies, TitleKeys) && Indexes(c.showTitles, shows, TitleKeys)
    ensures CatalogOf(c, movies, shows)
  {
  }

  method IndexMovies(movies: seq<Media>, texts: Texts, global: bool)
    returns (imdb: Index, tmdb: Index, titles: Index)
    ensures var pool := Pool(movies, texts, global);
      Indexes(imdb, pool, ImdbKeys) && Indexes(tmdb, pool, ProviderKeys("tmdb")) && Indexes(titles, pool, TitleKeys)
  {
    hide Indexes, Bucket, Enabled, Pool, ImdbKeys, TitleKeys, EntryOf, ProviderKeys;
    imdb, tmdb, titles := map[], map[], map[];
    ghost var pool: set<Entry> := {};
    StartPool(movies, texts, global);
    for i := 0 to |movies|
      invariant pool == Pool(movies[..i], texts, global)
      invariant Indexes(imdb, pool, ImdbKeys)
      invariant Indexes(tmdb, pool, ProviderKeys("tmdb"))
      invariant Indexes(titles, pool, TitleKeys)
    {
      PoolMore(movies, i, texts, global);
      if Enabled(movies[i], global) {
        var row := EntryOf(movies[i], texts);
        imdb := Indexed(imdb, pool, row, ImdbKeys);
        tmdb := Indexed(tmdb, pool, row, ProviderKeys("tmdb"));
        titles := Indexed(titles, pool, row, TitleKeys);
        pool := pool + {row};
      }
    }
    assert movies[..|movies|] == movies;
  }

  lemma StartPool(rows: seq<Media>, texts: Texts, global: bool)
    ensures Pool(rows[..0], texts, global) == {}
    ensures Indexes(map[], {}, ImdbKeys) && Indexes(map[], {}, TitleKeys)
    ensures forall provider :: Indexes(map[], {}, ProviderKeys(provider))
  {
    hide ImdbKeys, TitleKeys, ProviderKeys;
  }

  /** Enters one more row under all its keys. */
  method Indexed(index: Index, ghost pool: set<Entry>, row: Entry, keys: Entry -> seq<string>) returns (out: Index)
    requires Indexes(index, pool, keys)
    ensures Indexes(out, pool + {row}, keys)
  {
    hide *;
    out := AppendEntry(index, row, keys(row));
    IndexesMore(index, out, pool, row, keys);
  }

  method IndexShows(shows: seq<Media>, texts: Texts, global: bool)
    returns (imdb: Index, tmdb: Index, tvdb: Index, titles: Index)
    ensures var pool := Pool(shows, texts, global);
      && Indexes(imdb, pool, ImdbKeys) && Indexes(tmdb, pool, ProviderKeys("tmdb"))
      && Indexes(tvdb, pool, ProviderKeys("tvdb")) && Indexes(titles, pool, TitleKeys)
  {
    hide Indexes, Bucket, Enabled, Pool, ImdbKeys, TitleKeys, EntryOf, ProviderKeys;
    imdb, tmdb, tvdb, titles := map[], map[], map[], map[];
    ghost var pool: set<Entry> := {};
    StartPool(shows, texts, global);
    for i := 0 to |shows|
      invariant pool == Pool(shows[..i], texts, global)
      invariant Indexes(imdb, pool, ImdbKeys)
      invariant Indexes(tmdb, pool, ProviderKeys("tmdb"))
      invariant Indexes(tvdb, pool, ProviderKeys("tvdb"))
      invariant Indexes(titles, pool, TitleKeys)
    {
      PoolMore(shows, i, texts, global);
      if Enabled(shows[i], global) {
        var row := EntryOf(shows[i], texts);
        imdb := Indexed(imdb, pool, row, ImdbKeys);
        tmdb := Indexed(tmdb, pool, row, ProviderKeys("tmdb"));
        tvdb := Indexed(tvdb, pool, row, ProviderKeys("tvdb"));
        titles := Indexed(titles, pool, row, TitleKeys);
        pool := pool + {row};
      }
    }
    assert shows[..|shows|] == shows;
  }

  // ------------------------------------------------------------------ looking up

  /** No two rows share an id. */
  ghost predicate IdsDistinct(rows: seq<Media>) {
    forall a, b | a in rows && b in rows && a.id == b.id :: a == b
  }

  ghost predicate KeyedById(es: set<Entry>) {
    forall a, b | a in es && b in es && a.media.id == b.media.id :: a == b
  }

  lemma PoolKeyedById(rows: seq<Media>, texts: Texts, global: bool)
    requires IdsDistinct(rows)
    ensures KeyedById(Pool(rows, texts, global))
  {
  }

  /** Drops repeated rows; what is left are the same rows, each once. */
  method Unique(rows: seq<Entry>) returns (out: seq<Entry>)
    requires KeyedById(set e | e in rows)
    ensures forall e :: e in out <==> e in rows
    ensures |out| == |set e | e in rows|
  {
    var seen: set<nat> := {};
    out := [];
    for i := 0 to |rows|
      invariant forall e | e in rows[..i] :: e.media.id in seen
      invariant forall e | e in rows :: e.media.id in seen ==> e in out
      invariant forall e | e in out :: e in rows[..i]
      invariant |out| == |set e | e in out|
    {
      var row := rows[i];
      assert rows[..i + 1] == rows[..i] + [row];
      if row.media.id in seen { continue; }
      seen := seen + {row.media.id};
      assert (set e | e in out + [row]) == (set e | e in out) + {row};
      out := out + [row];
    }
    assert rows[..|rows|] == rows;
    assert (set e | e in out) == (set e | e in rows);
  }

  lemma OnlyMember(es: set<Entry>, e: Entry)
    requires |es| == 1 && e in es
    ensures TheOnly(es) == e
  {
    var other := TheOnly(es);
    if e != other {
      assert {e, other} <= es;
      assert |{e, other}| == 2;
      SubsetSize({e, other}, es);
    }
  }

  method BindFromBucket(bucket: seq<Entry>, ghost hits: set<Entry>) returns (one: Option<Media>, count: nat)
    requires KeyedById(hits) && forall e :: e in bucket <==> e in hits
    ensures count == |hits|
    ensures one.Some? <==> |hits| == 1
    ensures |hits| == 1 ==> one == Some(TheOnly(hits).media)
  {
    assert (set e | e in bucket) == hits;
    var unique := Unique(bucket);
    count := |unique|;
    if |unique| == 1 {
      assert unique[0] in unique;
      OnlyMember(hits, unique[0]);
      return Some(unique[0].media), count;
    }
    return None, count;
  }

  /** The prefixes of the title, shortest first, each looked up in the title index. */
  method TitleCandidates(titles: Index, words: seq<string>, ghost pool: set<Entry>) returns (found: seq<Entry>)
    requires Indexes(titles, pool, TitleKeys) && KeyedById(pool)
    ensures forall e :: e in found <==> e in pool && HasPrefixVariant(e, words)
    ensures |found| == |set e | e in pool && HasPrefixVariant(e, words)|
  {
    hide KeyedById, HasPrefixVariant;
    var collected: seq<Entry> := [];
    NoPrefixYet(words);
    for n := 0 to |words|
      invariant forall e :: e in collected <==> e in pool && PrefixVariantUpTo(e, words, n)
    {
      collected := collected + Bucket(titles, Spaced(words[..n + 1]));
      assert forall e ::
        e in Bucket(titles, Spaced(words[..n + 1])) <==> e in pool && Spaced(words[..n + 1]) in e.variants;
      forall e ensures PrefixVariantUpTo(e, words, n + 1) <==>
        PrefixVariantUpTo(e, words, n) || Spaced(words[..n + 1]) in e.variants
      {
        OnePrefixMore(e, words, n);
      }
    }
    ghost var wanted := set e | e in pool && HasPrefixVariant(e, words);
    forall e ensures PrefixVariantUpTo(e, words, |words|) <==> HasPrefixVariant(e, words) {
      AllPrefixes(e, words);
    }
    assert (set e | e in collected) == wanted;
    SubsetKeyed(wanted, pool);
    found := Unique(collected);
  }

  ghost predicate PrefixVariantUpTo(e: Entry, words: seq<string>, n: nat)
    requires n <= |words|
  {
    exists k | 1 <= k <= n :: Spaced(words[..k]) in e.variants
  }

  lemma NoPrefixYet(words: seq<string>)
    ensures forall e :: !PrefixVariantUpTo(e, words, 0)
  {
  }

  lemma OnePrefixMore(e: Entry, words: seq<string>, n: nat)
    requires n < |words|
    ensures PrefixVariantUpTo(e, words, n + 1) <==>
      PrefixVariantUpTo(e, words, n) || Spaced(words[..n + 1]) in e.variants
  {
    hide Spaced;
    if PrefixVariantUpTo(e, words, n) {
      var k :| 1 <= k <= n && Spaced(words[..k]) in e.variants;
      assert 1 <= k <= n + 1;
    }
  }

  lemma AllPrefixes(e: Entry, words: seq<string>)
    ensures PrefixVariantUpTo(e, words, |words|) <==> HasPrefixVariant(e, words)
  {
    hide Spaced;
  }

  lemma SubsetKeyed(a: set<Entry>, b: set<Entry>)
    requires a <= b && KeyedById(b)
    ensures KeyedById(a)
  {
  }

  /** What a title bucket settles: exactly one candidate binds. */
  method OneCandidate(kept: seq<Entry>, ghost wanted: set<Entry>) returns (one: Option<Media>)
    requires |kept| == |wanted| && forall e :: e in kept <==> e in wanted
    ensures one.Some? <==> |wanted| == 1
    ensures |wanted| == 1 ==> one == Some(TheOnly(wanted).media)
  {
    if |kept| == 1 {
      assert kept[0] in kept;
      OnlyMember(wanted, kept[0]);
      return Some(kept[0].media);
    }
    return None;
  }

  /** The rows of a duplicate-free list that pass a test, in order. */
  method Keep(rows: seq<Entry>, test: Entry -> bool, ghost pool: set<Entry>)
    returns (kept: seq<Entry>)
    requires |rows| == |pool| && forall e :: e in rows <==> e in pool
    ensures forall e :: e in kept <==> e in pool && test(e)
    ensures |kept| == |set e | e in pool && test(e)|
  {
    RowsDistinct(rows, pool);
    kept := [];
    for i := 0 to |rows|
      invariant forall e :: e in kept <==> e in rows[..i] && test(e)
      invariant |kept| == |set e | e in kept|
    {
      assert rows[..i + 1] == rows[..i] + [rows[i]];
      if test(rows[i]) {
        assert rows[i] !in rows[..i];
        assert (set e | e in kept + [rows[i]]) == (set e | e in kept) + {rows[i]};
        kept := kept + [rows[i]];
      }
    }
    assert rows[..|rows|] == rows;
    assert (set e | e in kept) == (set e | e in pool && test(e));
  }

  lemma {:induction false} SetOfSeq(rows: seq<Entry>)
    ensures |set e | e in rows| <= |rows|
  {
    if rows != [] {
      var front, last := rows[..|rows| - 1], rows[|rows| - 1];
      SetOfSeq(front);
      assert rows == front + [last];
      assert (set e | e in rows) == (set e | e in front) + {last};
    }
  }

  /** A list as long as the set of its members has no repetition. */
  lemma RowsDistinct(rows: seq<Entry>, pool: set<Entry>)
    requires |rows| == |pool| && forall e :: e in rows <==> e in pool
    ensures forall i | 0 <= i < |rows| :: rows[i] !in rows[..i]
  {
    forall i | 0 <= i < |rows| ensures rows[i] !in rows[..i] {
      var rest := rows[..i] + rows[i + 1..];
      assert rows == rows[..i] + [rows[i]] + rows[i + 1..];
      SetOfSeq(rest);
      assert rows[i] in rows[..i] ==> (set e | e in rest) == pool;
    }
  }

  // ------------------------------------------------------------------ binding

  /** Looks the id up among the movies and then, if none has it, among the shows. */
  method BindById(movies: Index, shows: Index, key: string, keys: Entry -> seq<string>,
    ghost moviePool: set<Entry>, ghost showPool: set<Entry>) returns (r: Option<Binding>)
    requires Indexes(movies, moviePool, keys) && Indexes(shows, showPool, keys)
    requires KeyedById(moviePool) && KeyedById(showPool)
    ensures r == ById(Matching(moviePool, keys, key), Matching(showPool, keys, key))
  {
    hide Indexes, KeyedById, TheOnly;
    ghost var movieHits, showHits := Matching(moviePool, keys, key), Matching(showPool, keys, key);
    SubsetKeyed(movieHits, moviePool);
    SubsetKeyed(showHits, showPool);
    BucketHits(movies, moviePool, keys, key);
    BucketHits(shows, showPool, keys, key);
    var movieBucket := Bucket(movies, key);
    if movieBucket != [] {
      assert movieBucket[0] in movieHits;
      var one, count := BindFromBucket(movieBucket, movieHits);
      if one.Some? { return Some(Movie(one.value)); }
      if count > 1 { return Some(Unbound); }
    }
    var showBucket := Bucket(shows, key);
    if showBucket != [] {
      assert showBucket[0] in showHits;
      var one, _ := BindFromBucket(showBucket, showHits);
      return Some(if one.Some? then Show(one.value) else Unbound);
    }
    return None;
  }

  lemma BucketHits(index: Index, pool: set<Entry>, keys: Entry -> seq<string>, key: string)
    requires Indexes(index, pool, keys)
    ensures forall e :: e in Bucket(index, key) <==> e in Matching(pool, keys, key)
    ensures Bucket(index, key) == [] <==> Matching(pool, keys, key) == {}
  {
    hide Bucket;
    var bucket, hits := Bucket(index, key), Matching(pool, keys, key);
    if bucket != [] { assert bucket[0] in hits; }
    if hits != {} {
      var e :| e in hits;
      assert e in bucket;
    }
  }

  method BindByTitle(e: Envelope, c: Catalog, texts: Texts, ghost movies: set<Entry>, ghost shows: set<Entry>)
    returns (r: Binding)
    requires CatalogOf(c, movies, shows) && KeyedById(movies) && KeyedById(shows)
    ensures r == ByTitle(e, movies, shows, texts)
  {
    hide Indexes, KeyedById, TheOnly, HasPrefixVariant, TitleRelevant;
    var words := texts.words(e.title);
    var looksTv := texts.looksLikeEpisode(e.title) || e.seasons != [];
    if looksTv && e.seasons != [] {
      var found := TitleCandidates(c.showTitles, words, shows);
      ghost var near := set x | x in shows && HasPrefixVariant(x, words);
      var test := (x: Entry) => TitleRelevant(texts, e.title, x);
      var kept := Keep(found, test, near);
      ghost var wanted := set x | x in shows && ShowCandidate(texts, e.title, x);
      assert wanted == set x | x in near && test(x);
      var one := OneCandidate(kept, wanted);
      return if one.Some? then Show(one.value) else Unbound;
    }
    if !looksTv {
      var found := TitleCandidates(c.movieTitles, words, movies);
      ghost var near := set x | x in movies && HasPrefixVariant(x, words);
      var test := (x: Entry) => TitleRelevant(texts, e.title, x) && YearRelevant(texts, e.title, x.media.year);
      var kept := Keep(found, test, near);
      ghost var wanted := set x | x in movies && MovieCandidate(texts, e.title, x);
      assert wanted == set x | x in near && test(x);
      var one := OneCandidate(kept, wanted);
      return if one.Some? then Movie(one.value) else Unbound;
    }
    return Unbound;
  }

  method BindIndexed(e: Envelope, c: Catalog, texts: Texts, ghost movies: set<Entry>, ghost shows: set<Entry>)
    returns (r: Binding)
    requires CatalogOf(c, movies, shows) && KeyedById(movies) && KeyedById(shows)
    ensures r == Scan(e, movies, shows, texts)
  {
    hide Indexes, KeyedById, ById, ByTitle, Matching, ImdbKeys, ProviderKeys, TitleKeys;
    if Truthy(e.imdbId) {
      var hit := BindById(c.imdbMovies, c.imdbShows, NormalizeImdb(e.imdbId.value), ImdbKeys, movies, shows);
      if hit.Some? { return hit.value; }
    }
    if Truthy(e.tmdbId) {
      var hit := BindById(c.tmdbMovies, c.tmdbShows, e.tmdbId.value, ProviderKeys("tmdb"), movies, shows);
      if hit.Some? { return hit.value; }
    }
    if Truthy(e.tvdbId) {
      NoRows("tvdb", e.tvdbId.value);
      var hit := BindById(map[], c.tvdbShows, e.tvdbId.value, ProviderKeys("tvdb"), {}, shows);
      if hit.Some? { return hit.value; }
    }
    r := BindByTitle(e, c, texts, movies, shows);
  }

  lemma NoRows(provider: string, key: string)
    ensures Indexes(map[], {}, ProviderKeys(provider)) && KeyedById({})
    ensures Matching({}, ProviderKeys(provider), key) == {}
  {
  }

  /** The indexed binding is the scan over the enabled rows. */
  method BindFeedEnvelope(e: Envelope, movies: seq<Media>, shows: seq<Media>, texts: Texts, global: bool)
    returns (r: Binding)
    requires IdsDistinct(movies) && IdsDistinct(shows)
    ensures r == Scan(e, Pool(movies, texts, global), Pool(shows, texts, global), texts)
  {
    hide Scan, Pool, KeyedById, CatalogOf, IdsDistinct;
    PoolKeyedById(movies, texts, global);
    PoolKeyedById(shows, texts, global);
    var c := BuildFeedCatalog(movies, shows, texts, global);
    r := BindIndexed(e, c, texts, Pool(movies, texts, global), Pool(shows, texts, global));
  }

  // ------------------------------------------------------------------ what the scan promises

  /** The order and the repetition of rows do not matter. */
  lemma OrderIrrelevant(e: Envelope, movies: seq<Media>, movies': seq<Media>, shows: seq<Media>, shows': seq<Media>,
    texts: Texts, global: bool)
    requires multiset(movies) == multiset(movies') && multiset(shows) == multiset(shows')
    ensures Scan(e, Pool(movies, texts, global), Pool(shows, texts, global), texts) ==
      Scan(e, Pool(movies', texts, global), Pool(shows', texts, global), texts)
  {
    hide Scan, Enabled, EntryOf;
    SamePool(movies, movies', texts, global);
    SamePool(shows, shows', texts, global);
  }

  lemma SamePool(rows: seq<Media>, rows': seq<Media>, texts: Texts, global: bool)
    requires multiset(rows) == multiset(rows')
    ensures Pool(rows, texts, global) == Pool(rows', texts, global)
  {
    hide Enabled, EntryOf;
    assert forall m :: m in rows <==> m in multiset(rows);
    assert forall m :: m in rows' <==> m in multiset(rows');
  }

  // ------------------------------------------------------------------ which rows can be bound

  /** Not skipped, and following releases by its own setting or, without one, the global one. */
  lemma PoolIff(rows: seq<Media>, texts: Texts, global: bool, m: Media)
    ensures (exists e | e in Pool(rows, texts, global) :: e.media == m) <==>
      && m in rows && !m.skipped && (m.continuous == Some(true) || (m.continuous.None? && global))
  {
    if m in rows && Enabled(m, global) {
      assert EntryOf(m, texts) in Pool(rows, texts, global);
    }
  }

  lemma OneIsMember(es: set<Entry>)
    ensures OneMovie(es).Movie? ==> |es| == 1 && exists e | e in es :: e.media == OneMovie(es).media
    ensures OneShow(es).Show? ==> |es| == 1 && exists e | e in es :: e.media == OneShow(es).media
    ensures !OneMovie(es).Show? && !OneShow(es).Movie?
  {
    if |es| == 1 {
      assert TheOnly(es) in es;
    }
  }

  /** What is bound is one of the enabled rows. */
  lemma BoundIsEnabled(e: Envelope, movies: set<Entry>, shows: set<Entry>, texts: Texts)
    ensures Scan(e, movies, shows, texts).Movie? ==>
      exists x | x in movies :: x.media == Scan(e, movies, shows, texts).media
    ensures Scan(e, movies, shows, texts).Show? ==>
      exists x | x in shows :: x.media == Scan(e, movies, shows, texts).media
  {
    hide TheOnly, OneMovie, OneShow, ShowCandidate, MovieCandidate, ImdbKeys;
    forall es: set<Entry>
      ensures OneMovie(es).Movie? ==> exists x: Entry | x in es :: x.media == OneMovie(es).media
      ensures OneShow(es).Show? ==> exists x: Entry | x in es :: x.media == OneShow(es).media
      ensures !OneMovie(es).Show? && !OneShow(es).Movie?
    {
      OneIsMember(es);
    }
  }

  /** Two IMDb ids name the same title exactly if they are equal, or one is the other with "tt" in front. */
  lemma SameImdbIff(a: string, b: string)
    ensures NormalizeImdb(a) == NormalizeImdb(b) <==>
      a == b || (!("tt" <= b) && a == "tt" + b) || (!("tt" <= a) && b == "tt" + a)
  {
    assert ("tt" + a)[2..] == a && ("tt" + b)[2..] == b;
    assert "tt" <= "tt" + a && "tt" <= "tt" + b;
  }

  /** A row answers to an IMDb id by its own one, or by an external id that is the normalised one. */
  lemma ImdbMatchIff(pool: set<Entry>, id: string, e: Entry)
    ensures e in Matching(pool, ImdbKeys, NormalizeImdb(id)) <==>
      && e in pool
      && (|| (&& e.media.imdbId.Some? && e.media.imdbId.value != ""
              && NormalizeImdb(e.media.imdbId.value) == NormalizeImdb(id))
          || (e.media.externalId != "" && e.media.externalId == NormalizeImdb(id)))
  {
    var own := if Truthy(e.media.imdbId) then [NormalizeImdb(e.media.imdbId.value)] else [];
    var other := if e.media.externalId != "" then [e.media.externalId] else [];
    assert ImdbKeys(e) == own + other;
  }

  /** A row answers to another provider's id by its external id, if that provider is its own. */
  lemma ProviderMatchIff(pool: set<Entry>, provider: string, id: string, e: Entry)
    requires id != ""
    ensures e in Matching(pool, ProviderKeys(provider), id) <==>
      e in pool && e.media.provider == provider && e.media.externalId == id
  {
  }

  /** A row is ruled out by year exactly if the title states years, and the row has one that is not among them. */
  lemma YearExcludesIff(texts: Texts, title: string, year: Option<int>)
    ensures !YearRelevant(texts, title, year) <==>
      texts.years(title) != {} && year.Some? && year.value != 0 && year.value !in texts.years(title)
  {
  }
}
