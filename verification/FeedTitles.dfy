/** Exactly when looking a title up by its first words can miss a row that the title is relevant for. */
module FeedTitles {
  import opened Collections
  import opened FeedBind
  import opened Paths

  /** Words as the sanitiser leaves them; a title may be left with none. */
  ghost predicate AllWords(words: seq<string>) {
    forall w | w in words :: w != "" && ' ' !in w
  }

  ghost predicate AreWords(words: seq<string>) {
    words != [] && AllWords(words)
  }

  lemma SpacedFirst(words: seq<string>)
    requires words != []
    ensures Spaced(words) == if |words| == 1 then words[0] else words[0] + [' '] + Spaced(words[1..])
  {
  }

  /** Splitting after whole words splits the words. */
  lemma {:induction false} SplitMore(words: seq<string>, rest: string)
    requires AreWords(words)
    ensures Split(Spaced(words) + [' '] + rest, ' ') == words + Split(rest, ' ')
  {
    hide Split, Spaced;
    var first, tail := words[0], words[1..];
    SpacedFirst(words);
    assert words == [first] + tail;
    if tail == [] {
      SplitPrefix(first, ' ', rest);
    } else {
      assert forall w | w in tail :: w in words;
      SplitMore(tail, rest);
      SplitPrefix(first, ' ', Spaced(tail) + [' '] + rest);
      assert Spaced(words) + [' '] + rest == first + [' '] + (Spaced(tail) + [' '] + rest);
    }
  }

  lemma {:induction false} FirstWordOfWords(words: seq<string>)
    requires AreWords(words)
    ensures FirstWord(Spaced(words)) == words[0]
  {
    SpacedFirst(words);
    if |words| == 1 {
      FirstWordPlain(words[0]);
    } else {
      FirstWordThen(words[0], Spaced(words[1..]));
    }
  }

  lemma {:induction false} FirstWordPlain(w: string)
    requires ' ' !in w
    ensures FirstWord(w) == w
  {
    if w != "" {
      FirstWordPlain(w[1..]);
    }
  }

  lemma {:induction false} FirstWordThen(w: string, rest: string)
    requires ' ' !in w
    ensures FirstWord(w + [' '] + rest) == w
  {
    var s := w + [' '] + rest;
    if w != "" {
      FirstWordThen(w[1..], rest);
      assert s[1..] == w[1..] + [' '] + rest;
    }
  }

  lemma {:induction false} SpacedMore(a: seq<string>, b: seq<string>)
    requires a != [] && b != []
    ensures Spaced(a + b) == Spaced(a) + [' '] + Spaced(b)
  {
    hide Spaced;
    SpacedFirst(a);
    SpacedFirst(a + b);
    if |a| == 1 {
      assert (a + b)[1..] == b;
    } else {
      SpacedMore(a[1..], b);
      assert (a + b)[1..] == a[1..] + b;
      assert Spaced(a + b) == a[0] + [' '] + (Spaced(a[1..]) + [' '] + Spaced(b));
    }
  }

  lemma SpacedNonEmpty(words: seq<string>)
    requires AreWords(words)
    ensures Spaced(words) != ""
  {
    SpacedFirst(words);
    assert words[0] in words;
  }

  lemma SpacedInjective(a: seq<string>, b: seq<string>)
    requires AllWords(a) && AllWords(b) && Spaced(a) == Spaced(b)
    ensures a == b
  {
    if a != [] { SpacedNonEmpty(a); }
    if b != [] { SpacedNonEmpty(b); }
    if a != [] && b != [] {
      JoinInjective(a, b, ' ');
    }
  }

  /** A title goes on after some words at a word boundary exactly when those are its first words. */
  lemma GoesOnIff(title: seq<string>, name: seq<string>)
    requires AllWords(title) && AreWords(name)
    ensures Spaced(name) + [' '] <= Spaced(title) <==> name < title
    ensures name < title ==>
      FirstWord(Spaced(title)[|Spaced(name)| + 1..]) == title[|name|]
  {
    hide Spaced, Split;
    if name < title {
      var rest := title[|name|..];
      assert title == name + rest;
      SpacedMore(name, rest);
      assert forall w | w in rest :: w in title;
      FirstWordOfWords(rest);
      assert Spaced(title)[|Spaced(name)| + 1..] == Spaced(rest);
    }
    if Spaced(name) + [' '] <= Spaced(title) {
      var rest := Spaced(title)[|Spaced(name)| + 1..];
      assert Spaced(title) == Spaced(name) + [' '] + rest;
      SplitMore(name, rest);
      if title != [] {
        SplitSpaced(title);
      } else {
        NoneSpaced();
      }
    }
  }

  lemma SplitSpaced(title: seq<string>)
    requires AreWords(title)
    ensures Split(Spaced(title), ' ') == title
  {
    SplitJoin(title, ' ');
  }

  lemma NoneSpaced()
    ensures Spaced([]) == ""
  {
  }

  /** A title that starts with a name, and then ends or goes on with a marker, starts with its words. */
  lemma StartsTitleIff(texts: Texts, title: seq<string>, name: seq<string>)
    requires AllWords(title) && AreWords(name)
    ensures StartsTitle(texts, Spaced(title), Spaced(name)) <==>
      title == name || (name < title && texts.isMarker(title[|name|]))
  {
    hide Spaced, FirstWord;
    GoesOnIff(title, name);
    if Spaced(title) == Spaced(name) {
      SpacedInjective(title, name);
    }
    assert Spaced(name) + " " == Spaced(name) + [' '];
  }

  // ------------------------------------------------------------------ the exact condition

  ghost predicate VariantsAreWords(e: Entry) {
    forall v | v in e.variants :: exists name :: AreWords(name) && v == Spaced(name)
  }

  /** Texts as the sanitiser and the number formatting leave them. */
  ghost predicate Sanitised(texts: Texts, title: string) {
    && AllWords(texts.words(title)) && AllWords(texts.wordsWithYears(title))
    && forall y :: AllWords([texts.decimal(y)])
  }

  /** Some row with proper variants is relevant for the title, and under none of its first words. */
  ghost predicate Misses(texts: Texts, title: string, e: Entry) {
    VariantsAreWords(e) && TitleRelevant(texts, title, e) && !HasPrefixVariant(e, texts.words(title))
  }

  /**
   * The only year of the title comes right after words that are not the first words of the title once
   * years in parentheses are gone, and then the title ends or goes on with a release marker.
   */
  ghost predicate YearTrap(texts: Texts, title: string, y: int, n: nat) {
    var all := texts.wordsWithYears(title);
    && 1 <= n < |all| && all[n] == texts.decimal(y) && texts.years(title) == {y}
    && !(all[..n] <= texts.words(title))
    && (|all| == n + 1 || texts.isMarker(all[n + 1]))
  }

  lemma PrefixVariant(e: Entry, words: seq<string>, name: seq<string>)
    requires AreWords(name) && Spaced(name) in e.variants && name <= words
    ensures HasPrefixVariant(e, words)
  {
    hide Spaced;
    assert words[..|name|] == name;
  }

  lemma NamedYear(texts: Texts, title: string, name: seq<string>, y: int)
    requires Sanitised(texts, title) && AreWords(name)
    ensures AreWords(name + [texts.decimal(y)])
    ensures Spaced(name) + " " + texts.decimal(y) == Spaced(name + [texts.decimal(y)])
  {
    var dated := [texts.decimal(y)];
    assert AllWords(dated);
    SpacedMore(name, dated);
    SpacedFirst(dated);
    assert forall w :: w in name + dated <==> w in name || w in dated;
  }

  /** A row that is missed shows the trap. */
  lemma MissShowsTrap(texts: Texts, title: string, e: Entry) returns (y: int, n: nat)
    requires Sanitised(texts, title) && Misses(texts, title, e)
    ensures e.media.year == Some(y) && YearTrap(texts, title, y, n)
  {
    hide Spaced, StartsTitle, HasPrefixVariant, Sanitised, AreWords;
    assert AllWords(texts.words(title)) && AllWords(texts.wordsWithYears(title)) by { SanitisedWords(texts, title); }
    var i :| 0 <= i < |e.variants| && VariantRelevant(texts, title, e, i);
    assert e.variants[i] in e.variants;
    var name :| AreWords(name) && e.variants[i] == Spaced(name);
    n := |name|;
    assert n > 0 by { NotNone(name); }
    if name <= texts.words(title) {
      PrefixVariant(e, texts.words(title), name);
    }
    if i == 0 {
      StartsTitleIff(texts, texts.words(title), name);
      y := 0;
    } else {
      y := e.media.year.value;
      NamedYear(texts, title, name, y);
      StartsTitleIff(texts, texts.wordsWithYears(title), name + [texts.decimal(y)]);
      var all := texts.wordsWithYears(title);
      assert all[..n + 1] == name + [texts.decimal(y)];
      assert all[..n] == name && all[n] == texts.decimal(y);
    }
  }

  lemma SanitisedWords(texts: Texts, title: string)
    requires Sanitised(texts, title)
    ensures AllWords(texts.words(title)) && AllWords(texts.wordsWithYears(title))
  {
  }

  lemma NotNone(name: seq<string>)
    requires AreWords(name)
    ensures name != []
  {
  }

  /** A row made for the trap: its full name, and before the colon the words in front of the year. */
  function TrapEntry(all: seq<string>, y: int, n: nat): Entry
    requires n <= |all|
  {
    var short := Spaced(all[..n]);
    Entry(Media(0, "", Some(y), false, Some(true), None, "", ""), [Spaced(all[..n] + ["x"]), short])
  }

  lemma TrapMisses(texts: Texts, title: string, y: int, n: nat)
    requires Sanitised(texts, title) && YearTrap(texts, title, y, n)
    ensures Misses(texts, title, TrapEntry(texts.wordsWithYears(title), y, n))
    ensures YearRelevant(texts, title, Some(y))
  {
    hide Spaced, StartsTitle;
    var all := texts.wordsWithYears(title);
    var name, longer := all[..n], all[..n] + ["x"];
    var e := TrapEntry(all, y, n);
    assert forall w | w in name :: w in all;
    assert forall w | w in longer :: w in name || w == "x";
    assert AreWords(name) && AreWords(longer);
    assert forall v | v in e.variants :: v == Spaced(name) || v == Spaced(longer);
    NamedYear(texts, title, name, y);
    var dated := name + [texts.decimal(y)];
    StartsTitleIff(texts, all, dated);
    assert all[..n + 1] == dated;
    assert dated <= all;
    assert VariantRelevant(texts, title, e, 1);
    NoPrefixOf(e, texts.words(title), name, longer);
  }

  lemma NoPrefixOf(e: Entry, words: seq<string>, name: seq<string>, longer: seq<string>)
    requires AllWords(words) && AreWords(name) && AreWords(longer) && name <= longer && !(name <= words)
    requires forall v | v in e.variants :: v == Spaced(name) || v == Spaced(longer)
    ensures !HasPrefixVariant(e, words)
  {
    hide Spaced;
    assert longer <= words ==> name <= words;
    forall k | 1 <= k <= |words| ensures Spaced(words[..k]) !in e.variants {
      SpacedIsPrefix(words, k, name);
      SpacedIsPrefix(words, k, longer);
    }
  }

  lemma SpacedIsPrefix(words: seq<string>, k: nat, name: seq<string>)
    requires AllWords(words) && AreWords(name) && k <= |words|
    ensures Spaced(words[..k]) == Spaced(name) ==> name <= words
  {
    hide Spaced;
    assert forall w | w in words[..k] :: w in words;
    if Spaced(words[..k]) == Spaced(name) {
      SpacedInjective(words[..k], name);
    }
  }

  /** The prefix index can miss a show, or a movie of a fitting year, exactly for titles with the trap. */
  lemma IndexMissesIff(texts: Texts, title: string)
    requires Sanitised(texts, title)
    ensures (exists e :: Misses(texts, title, e)) <==> exists y, n: nat :: YearTrap(texts, title, y, n)
    ensures (exists e :: Misses(texts, title, e) && YearRelevant(texts, title, e.media.year)) <==>
      exists y, n: nat :: YearTrap(texts, title, y, n)
  {
    hide Misses, YearTrap, Sanitised, YearRelevant;
    if e :| Misses(texts, title, e) {
      var y, n := MissShowsTrap(texts, title, e);
    }
    if y, n: nat :| YearTrap(texts, title, y, n) {
      TrapMisses(texts, title, y, n);
      TrapYear(texts, title, y, n);
    }
  }

  lemma TrapYear(texts: Texts, title: string, y: int, n: nat)
    requires YearTrap(texts, title, y, n)
    ensures TrapEntry(texts.wordsWithYears(title), y, n).media.year == Some(y)
  {
    hide Spaced;
  }

  /** Without the trap the scan needs no prefix test at all. */
  lemma PrefixTestIsRedundant(texts: Texts, title: string, pool: set<Entry>)
    requires Sanitised(texts, title) && forall e | e in pool :: VariantsAreWords(e)
    requires !exists y, n: nat :: YearTrap(texts, title, y, n)
    ensures forall e | e in pool :: ShowCandidate(texts, title, e) <==> TitleRelevant(texts, title, e)
    ensures forall e | e in pool ::
      MovieCandidate(texts, title, e) <==> TitleRelevant(texts, title, e) && YearRelevant(texts, title, e.media.year)
  {
    hide TitleRelevant, HasPrefixVariant, VariantsAreWords, YearTrap, YearRelevant, Sanitised;
    forall e | e in pool && TitleRelevant(texts, title, e) ensures HasPrefixVariant(e, texts.words(title)) {
      if !HasPrefixVariant(e, texts.words(title)) {
        var y, n := MissShowsTrap(texts, title, e);
      }
    }
  }

  /** A year in parentheses right after the name, and not stated again later, is no trap. */
  lemma UsualYearIsHarmless(texts: Texts, title: string, name: seq<string>, year: string, rest: seq<string>)
    requires texts.words(title) == name + rest && texts.wordsWithYears(title) == name + [year] + rest
    requires forall y | texts.years(title) == {y} :: texts.decimal(y) !in rest
    ensures !exists y, n: nat :: YearTrap(texts, title, y, n)
  {
    var all := texts.wordsWithYears(title);
    assert forall i | |name| < i < |all| :: all[i] == rest[i - |name| - 1] && all[i] in rest;
    forall y, n: nat | n < |all| && all[n] == texts.decimal(y) && texts.years(title) == {y}
      ensures all[..n] <= texts.words(title)
    {
      if n <= |name| {
        assert all[..n] == name[..n] == texts.words(title)[..n];
      }
    }
  }

  // ------------------------------------------------------------------ an example

  const SAMPLE_TITLE: string := "Foo (2020) Bar 2020"
  const SAMPLE_NAME: string := "Foo 2020 Bar: X"

  /** The text functions on the sample title and name. */
  const SAMPLE: Texts := Texts(
    (name: string) => if name == SAMPLE_NAME then ["foo 2020 bar x", "foo 2020 bar"] else [],
    (title: string) => if title == SAMPLE_TITLE then ["foo", "bar", "2020"] else [],
    (title: string) => if title == SAMPLE_TITLE then ["foo", "2020", "bar", "2020"] else [],
    (title: string) => if title == SAMPLE_TITLE then {2020} else {},
    (word: string) => word == "2020",
    (y: int) => if y == 2020 then "2020" else "0",
    (title: string) => false)

  /** The show "Foo 2020 Bar: X" of 2020 is relevant for "Foo (2020) Bar 2020", and missed: the title has the trap. */
  lemma PrefixTestCanMiss(show: Media)
    requires show.name == SAMPLE_NAME && show.year == Some(2020)
    ensures YearTrap(SAMPLE, SAMPLE_TITLE, 2020, 3)
    ensures var e := EntryOf(show, SAMPLE);
      TitleRelevant(SAMPLE, SAMPLE_TITLE, e) && !HasPrefixVariant(e, SAMPLE.words(SAMPLE_TITLE))
  {
    hide Spaced, TitleRelevant, HasPrefixVariant, YearTrap;
    SampleTrap();
    SampleRelevant(show);
    SampleUnindexed(show);
  }

  lemma SampleTrap()
    ensures YearTrap(SAMPLE, SAMPLE_TITLE, 2020, 3)
  {
    var all, words := ["foo", "2020", "bar", "2020"], ["foo", "bar", "2020"];
    assert all[..3] == ["foo", "2020", "bar"] && !(all[..3] <= words) by { assert all[1] != words[1]; }
  }

  lemma SampleVariants(show: Media)
    requires show.name == SAMPLE_NAME && show.year == Some(2020)
    ensures EntryOf(show, SAMPLE).variants == [Spaced(["foo", "2020", "bar", "x"]), Spaced(["foo", "2020", "bar"])]
    ensures EntryOf(show, SAMPLE).media.year == Some(2020)
  {
    hide Spaced;
    SpacedThree("foo", "2020", "bar");
    SpacedFour("foo", "2020", "bar", "x");
    assert Spaced(["foo", "2020", "bar"]) == "foo 2020 bar" && Spaced(["foo", "2020", "bar", "x"]) == "foo 2020 bar x";
  }

  lemma SampleRelevant(show: Media)
    requires show.name == SAMPLE_NAME && show.year == Some(2020)
    ensures TitleRelevant(SAMPLE, SAMPLE_TITLE, EntryOf(show, SAMPLE))
  {
    hide Spaced;
    var e := EntryOf(show, SAMPLE);
    SampleVariants(show);
    SpacedMore(["foo", "2020", "bar"], ["2020"]);
    assert ["foo", "2020", "bar"] + ["2020"] == ["foo", "2020", "bar", "2020"];
    OneSpaced("2020");
    assert VariantRelevant(SAMPLE, SAMPLE_TITLE, e, 1);
  }

  lemma OneSpaced(a: string)
    ensures Spaced([a]) == a
  {
    SpacedFirst([a]);
  }

  lemma SampleUnindexed(show: Media)
    requires show.name == SAMPLE_NAME && show.year == Some(2020)
    ensures !HasPrefixVariant(EntryOf(show, SAMPLE), SAMPLE.words(SAMPLE_TITLE))
  {
    hide Spaced, HasPrefixVariant, EntryOf;
    var words, name, longer := ["foo", "bar", "2020"], ["foo", "2020", "bar"], ["foo", "2020", "bar", "x"];
    SampleVariants(show);
    assert longer[..3] == name && name[1] != words[1];
    NoPrefixOf(EntryOf(show, SAMPLE), words, name, longer);
  }

  lemma SpacedTwo(a: string, b: string)
    ensures Spaced([a, b]) == a + [' '] + b
  {
    SpacedFirst([a, b]);
    SpacedFirst([b]);
    assert [a, b][1..] == [b];
  }

  lemma SpacedThree(a: string, b: string, c: string)
    ensures Spaced([a, b, c]) == a + [' '] + (b + [' '] + c)
  {
    hide Spaced;
    SpacedFirst([a, b, c]);
    SpacedTwo(b, c);
    assert [a, b, c][1..] == [b, c];
  }

  lemma SpacedFour(a: string, b: string, c: string, d: string)
    ensures Spaced([a, b, c, d]) == a + [' '] + (b + [' '] + (c + [' '] + d))
  {
    hide Spaced;
    SpacedFirst([a, b, c, d]);
    SpacedThree(b, c, d);
    assert [a, b, c, d][1..] == [b, c, d];
  }
}
