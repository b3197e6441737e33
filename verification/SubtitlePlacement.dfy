/** Choosing a target for every subtitle of a batch, so that none takes the place of another. */
module SubtitlePlacement {
  import opened Collections
  import opened Paths

  type Path = string

  datatype Info = Info(language: Option<string>, container: string, forced: bool, sdh: bool)

  /** The target of a subtitle; the number tells apart subtitles of the same language and flags. */
  type TargetFor = (Info, nat) -> Path

  type Match = Path -> Option<Info>

  datatype Placement = Placement(subtitle: Path, info: Info, number: nat, target: Path)

  ghost predicate Injective(targetFor: TargetFor, info: Info) {
    forall m: nat, n: nat | m >= 1 && n >= 1 && targetFor(info, m) == targetFor(info, n) :: m == n
  }

  function Targets(ps: seq<Placement>): set<Path> {
    set p | p in ps :: p.target
  }

  /** The target has the least number that is still free. */
  ghost predicate IsLeastFree(targetFor: TargetFor, taken: set<Path>, p: Placement) {
    && 1 <= p.number && p.target == targetFor(p.info, p.number) && p.target !in taken
    && forall k: nat | 1 <= k < p.number :: targetFor(p.info, k) in taken
  }

  /** Every subtitle that matches is placed, in order, each with the least number free at its turn. */
  ghost predicate Places(subtitles: seq<Path>, match_: Match, targetFor: TargetFor, ps: seq<Placement>) {
    if subtitles == [] then ps == []
    else
      var sub := subtitles[|subtitles| - 1];
      var front := subtitles[..|subtitles| - 1];
      if match_(sub).None? then Places(front, match_, targetFor, ps)
      else
        && ps != []
        && var last := ps[|ps| - 1];
        && Places(front, match_, targetFor, ps[..|ps| - 1])
        && last.subtitle == sub && last.info == match_(sub).value
        && IsLeastFree(targetFor, Targets(ps[..|ps| - 1]), last)
  }

  // ------------------------------------------------------------------ the search ends

  function Numbered(targetFor: TargetFor, info: Info, n: nat): set<Path> {
    set k: nat | 1 <= k <= n :: targetFor(info, k)
  }

  lemma {:induction false} NumberedSize(targetFor: TargetFor, info: Info, n: nat)
    requires Injective(targetFor, info)
    ensures |Numbered(targetFor, info, n)| == n
  {
    if n > 0 {
      NumberedSize(targetFor, info, n - 1);
      var before := Numbered(targetFor, info, n - 1);
      assert Numbered(targetFor, info, n) == before + {targetFor(info, n)};
      assert targetFor(info, n) !in before;
    } else {
      assert Numbered(targetFor, info, 0) == {};
    }
  }

  /** Among one more numbers than there are targets taken, one is free. */
  lemma SomeNumberFree(targetFor: TargetFor, info: Info, taken: set<Path>) returns (n: nat)
    requires Injective(targetFor, info)
    ensures 1 <= n <= |taken| + 1 && targetFor(info, n) !in taken
  {
    var all := Numbered(targetFor, info, |taken| + 1);
    NumberedSize(targetFor, info, |taken| + 1);
    if all <= taken {
      SubsetSize(all, taken);
    }
    var p :| p in all && p !in taken;
    n :| 1 <= n <= |taken| + 1 && targetFor(info, n) == p;
  }

  /** The search needs no more than some number being free, and never looks past the first one. */
  method FindFree(targetFor: TargetFor, info: Info, used: set<Path>) returns (n: nat)
    requires targetFor(info, 1) in used && exists m: nat :: 2 <= m && targetFor(info, m) !in used
    ensures 2 <= n && targetFor(info, n) !in used
    ensures forall k: nat | 1 <= k < n :: targetFor(info, k) in used
  {
    ghost var m: nat :| 2 <= m && targetFor(info, m) !in used;
    n := 2;
    while targetFor(info, n) in used
      invariant 2 <= n <= m && forall k: nat | 1 <= k < n :: targetFor(info, k) in used
      decreases m - n
    {
      n := n + 1;
    }
  }

  ghost predicate SomeFree(targetFor: TargetFor, info: Info, used: set<Path>) {
    exists n: nat :: 1 <= n && targetFor(info, n) !in used
  }

  method PlaceOne(sub: Path, info: Info, targetFor: TargetFor, used: set<Path>) returns (p: Placement)
    requires SomeFree(targetFor, info, used)
    ensures p.subtitle == sub && p.info == info && IsLeastFree(targetFor, used, p)
  {
    var number: nat := 1;
    if targetFor(info, 1) in used {
      number := FindFree(targetFor, info, used);
    }
    p := Placement(sub, info, number, targetFor(info, number));
  }

  /** The batch can be placed at all: at every turn some number is free. */
  ghost predicate CanPlace(subtitles: seq<Path>, match_: Match, targetFor: TargetFor) {
    exists ps :: Places(subtitles, match_, targetFor, ps)
  }

  /** Places every subtitle of a batch for which the search ends each time. */
  method LinkSubtitles(subtitles: seq<Path>, match_: Match, targetFor: TargetFor) returns (ps: seq<Placement>)
    requires CanPlace(subtitles, match_, targetFor)
    ensures Places(subtitles, match_, targetFor, ps)
  {
    hide IsLeastFree, Targets, Places, CanPlace, SomeFree;
    ps := [];
    var used: set<Path> := {};
    NothingPlaced(match_, targetFor);
    for i := 0 to |subtitles|
      invariant used == Targets(ps)
      invariant Places(subtitles[..i], match_, targetFor, ps)
    {
      var sub := subtitles[i];
      var info := match_(sub);
      assert subtitles[..i + 1] == subtitles[..i] + [sub];
      if info.None? {
        PlacesSkip(subtitles[..i], sub, match_, targetFor, ps);
        continue;
      }
      PrefixCanPlace(subtitles, i + 1, match_, targetFor);
      CanPlaceNextIff(subtitles[..i], sub, match_, targetFor, ps);
      var placed := PlaceOne(sub, info.value, targetFor, used);
      PlacesNext(subtitles[..i], sub, match_, targetFor, ps, placed);
      MoreTargets(ps, placed);
      ps := ps + [placed];
      used := used + {placed.target};
    }
    assert subtitles[..|subtitles|] == subtitles;
  }

  lemma {:induction false} PrefixCanPlace(subtitles: seq<Path>, n: nat, match_: Match, targetFor: TargetFor)
    requires n <= |subtitles| && CanPlace(subtitles, match_, targetFor)
    ensures CanPlace(subtitles[..n], match_, targetFor)
    decreases |subtitles|
  {
    if n == |subtitles| {
      assert subtitles[..n] == subtitles;
    } else {
      var front := subtitles[..|subtitles| - 1];
      var ps :| Places(subtitles, match_, targetFor, ps);
      assert Places(front, match_, targetFor,
        if match_(subtitles[|subtitles| - 1]).None? then ps else ps[..|ps| - 1]);
      PrefixCanPlace(front, n, match_, targetFor);
      assert front[..n] == subtitles[..n];
    }
  }

  /** After some are placed, the search for the next ends exactly if some number is still free for it. */
  lemma CanPlaceNextIff(front: seq<Path>, sub: Path, match_: Match, targetFor: TargetFor, ps: seq<Placement>)
    requires Places(front, match_, targetFor, ps) && match_(sub).Some?
    ensures CanPlace(front + [sub], match_, targetFor) <==> SomeFree(targetFor, match_(sub).value, Targets(ps))
  {
    hide Targets;
    var info, all := match_(sub).value, front + [sub];
    assert all[..|all| - 1] == front;
    if CanPlace(all, match_, targetFor) {
      var qs: seq<Placement> :| Places(all, match_, targetFor, qs);
      PlacesUnique(front, match_, targetFor, ps, qs[..|qs| - 1]);
      assert targetFor(info, qs[|qs| - 1].number) !in Targets(ps);
    }
    if SomeFree(targetFor, info, Targets(ps)) {
      var n := LeastFree(targetFor, info, Targets(ps));
      var p := Placement(sub, info, n, targetFor(info, n));
      PlacesNext(front, sub, match_, targetFor, ps, p);
    }
  }

  lemma LeastFree(targetFor: TargetFor, info: Info, used: set<Path>) returns (n: nat)
    requires SomeFree(targetFor, info, used)
    ensures 1 <= n && targetFor(info, n) !in used && forall k: nat | 1 <= k < n :: targetFor(info, k) in used
  {
    var m: nat :| 1 <= m && targetFor(info, m) !in used;
    n := 1;
    while targetFor(info, n) in used
      invariant 1 <= n <= m && forall k: nat | 1 <= k < n :: targetFor(info, k) in used
      decreases m - n
    {
      n := n + 1;
    }
  }

  /** When targets differ for different numbers, every batch can be placed. */
  lemma {:induction false} InjectiveCanPlace(subtitles: seq<Path>, match_: Match, targetFor: TargetFor)
    requires forall sub | sub in subtitles && match_(sub).Some? :: Injective(targetFor, match_(sub).value)
    ensures CanPlace(subtitles, match_, targetFor)
  {
    hide Injective;
    if subtitles == [] {
      NothingPlaced(match_, targetFor);
    } else {
      var front, sub := subtitles[..|subtitles| - 1], subtitles[|subtitles| - 1];
      assert subtitles == front + [sub];
      InjectiveCanPlace(front, match_, targetFor);
      var ps :| Places(front, match_, targetFor, ps);
      if match_(sub).None? {
        PlacesSkip(front, sub, match_, targetFor, ps);
      } else {
        var n := SomeNumberFree(targetFor, match_(sub).value, Targets(ps));
        CanPlaceNextIff(front, sub, match_, targetFor, ps);
      }
    }
  }

  /** With a target that never varies the second search of a batch does not end. */
  lemma ConstantTargetStuck(a: Path, b: Path, match_: Match, targetFor: TargetFor, target: Path)
    requires match_(a).Some? && match_(b).Some? && forall info, n :: targetFor(info, n) == target
    ensures CanPlace([a], match_, targetFor) && !CanPlace([a, b], match_, targetFor)
  {
    NothingPlaced(match_, targetFor);
    var p := Placement(a, match_(a).value, 1, target);
    assert [] + [a] == [a] && [] + [p] == [p] && [a] + [b] == [a, b];
    PlacesNext([], a, match_, targetFor, [], p);
    CanPlaceNextIff([a], b, match_, targetFor, [p]);
  }

  // ------------------------------------------------------------------ the targets the importers use

  function Digit(d: nat): char
    requires d < 10
  {
    "0123456789"[d]
  }

  function Decimal(n: nat): (s: string)
    ensures s != ""
  {
    if n < 10 then [Digit(n)] else Decimal(n / 10) + [Digit(n % 10)]
  }

  /** The number that a string of decimal digits stands for. */
  function ValueOf(digits: string): int {
    if digits == "" then 0
    else 10 * ValueOf(digits[..|digits| - 1]) + (digits[|digits| - 1] as int - '0' as int)
  }

  /** The decimal notation reads as the number it was made of. */
  lemma {:induction false} DecimalReads(n: nat)
    ensures ValueOf(Decimal(n)) == n
  {
    DigitReads(n % 10);
    if n >= 10 {
      DecimalReads(n / 10);
      assert Decimal(n)[..|Decimal(n)| - 1] == Decimal(n / 10);
    } else {
      assert Decimal(n)[..0] == "" && ValueOf("") == 0;
    }
  }

  lemma DigitReads(d: nat)
    requires d < 10
    ensures Digit(d) as int == '0' as int + d
  {
  }

  lemma {:induction false} DecimalInjective(m: nat, n: nat)
    requires Decimal(m) == Decimal(n)
    ensures m == n
  {
    var a, b := Decimal(m), Decimal(n);
    if m >= 10 && n >= 10 {
      assert a[..|a| - 1] == Decimal(m / 10) && b[..|b| - 1] == Decimal(n / 10);
      assert a[|a| - 1] == b[|b| - 1];
      DecimalInjective(m / 10, n / 10);
    }
  }

  /** Nothing for the first of a kind, then a dot and the number. */
  function Ordinal(n: nat): string {
    if n == 1 then "" else "." + Decimal(n)
  }

  function FlagPart(info: Info): string {
    if info.forced then ".forced" else if info.sdh then ".sdh" else ""
  }

  /** The movie importer names the language of every subtitle; the episode importer only if there is one. */
  function MovieTarget(root: string, stem: string): TargetFor {
    (info: Info, n: nat) =>
      root + "/" + stem + "." + (if info.language.Some? then info.language.value else "None") + FlagPart(info)
      + Ordinal(n) + "." + info.container
  }

  function EpisodeTarget(stem: string): TargetFor {
    (info: Info, n: nat) =>
      stem + (if info.language.Some? && info.language.value != "" then "." + info.language.value else "")
      + FlagPart(info) + Ordinal(n) + "." + info.container
  }

  lemma OrdinalInjective(front: string, back: string, m: nat, n: nat)
    requires front + Ordinal(m) + "." + back == front + Ordinal(n) + "." + back
    ensures m == n
  {
    var a, b := front + Ordinal(m) + "." + back, front + Ordinal(n) + "." + back;
    assert |Ordinal(m)| == |Ordinal(n)|;
    assert Ordinal(m) == a[|front|..|front| + |Ordinal(m)|] == b[|front|..|front| + |Ordinal(n)|] == Ordinal(n);
    if m != 1 && n != 1 {
      assert Ordinal(m)[1..] == Decimal(m) && Ordinal(n)[1..] == Decimal(n);
      DecimalInjective(m, n);
    }
  }

  /** Both give different targets for different numbers, so no import of subtitles searches for ever. */
  lemma ImportersCanPlace(root: string, stem: string, subtitles: seq<Path>, match_: Match)
    ensures CanPlace(subtitles, match_, MovieTarget(root, stem)) && CanPlace(subtitles, match_, EpisodeTarget(stem))
  {
    hide Ordinal, FlagPart;
    forall info, m: nat, n: nat | MovieTarget(root, stem)(info, m) == MovieTarget(root, stem)(info, n) ensures m == n {
      var language := if info.language.Some? then info.language.value else "None";
      OrdinalInjective(root + "/" + stem + "." + language + FlagPart(info), info.container, m, n);
    }
    forall info, m: nat, n: nat | EpisodeTarget(stem)(info, m) == EpisodeTarget(stem)(info, n) ensures m == n {
      var language := if info.language.Some? && info.language.value != "" then "." + info.language.value else "";
      OrdinalInjective(stem + language + FlagPart(info), info.container, m, n);
    }
    InjectiveCanPlace(subtitles, match_, MovieTarget(root, stem));
    InjectiveCanPlace(subtitles, match_, EpisodeTarget(stem));
  }

  // ------------------------------------------------------------------ one more subtitle

  lemma NothingPlaced(match_: Match, targetFor: TargetFor)
    ensures Places([], match_, targetFor, []) && Targets([]) == {}
  {
  }

  lemma PlacesSkip(front: seq<Path>, sub: Path, match_: Match, targetFor: TargetFor, ps: seq<Placement>)
    requires Places(front, match_, targetFor, ps) && match_(sub).None?
    ensures Places(front + [sub], match_, targetFor, ps)
  {
    assert (front + [sub])[..|front|] == front;
  }

  lemma PlacesNext(
    front: seq<Path>, sub: Path, match_: Match, targetFor: TargetFor, ps: seq<Placement>, p: Placement)
    requires Places(front, match_, targetFor, ps) && match_(sub) == Some(p.info) && p.subtitle == sub
    requires IsLeastFree(targetFor, Targets(ps), p)
    ensures Places(front + [sub], match_, targetFor, ps + [p])
  {
    assert (front + [sub])[..|front|] == front && (ps + [p])[..|ps|] == ps;
  }

  lemma MoreTargets(ps: seq<Placement>, p: Placement)
    ensures Targets(ps + [p]) == Targets(ps) + {p.target}
  {
    assert forall q :: q in ps + [p] <==> q in ps || q == p;
  }

  // ------------------------------------------------------------------ what the placements promise

  ghost predicate DistinctTargets(ps: seq<Placement>) {
    forall i, j | 0 <= i < j < |ps| :: ps[i].target != ps[j].target
  }

  /** No two subtitles of a batch share a target. */
  lemma {:induction false} PlacedApart(subtitles: seq<Path>, match_: Match, targetFor: TargetFor, ps: seq<Placement>)
    requires Places(subtitles, match_, targetFor, ps)
    ensures DistinctTargets(ps)
  {
    if subtitles != [] {
      var sub, front := subtitles[|subtitles| - 1], subtitles[..|subtitles| - 1];
      if match_(sub).None? {
        PlacedApart(front, match_, targetFor, ps);
      } else {
        var earlier, last := ps[..|ps| - 1], ps[|ps| - 1];
        PlacedApart(front, match_, targetFor, earlier);
        forall i | 0 <= i < |earlier| ensures earlier[i].target != last.target {
          assert earlier[i] in earlier;
        }
      }
    }
  }

  /** A number never exceeds the count of subtitles placed before it by more than one. */
  lemma NumberBound(targetFor: TargetFor, earlier: seq<Placement>, p: Placement)
    requires Injective(targetFor, p.info) && IsLeastFree(targetFor, Targets(earlier), p)
    ensures p.number <= |earlier| + 1
  {
    var below := Numbered(targetFor, p.info, p.number - 1);
    NumberedSize(targetFor, p.info, p.number - 1);
    SubsetSize(below, Targets(earlier));
    TargetsCount(earlier);
  }

  lemma {:induction false} TargetsCount(ps: seq<Placement>)
    ensures |Targets(ps)| <= |ps|
  {
    if ps != [] {
      var front, last := ps[..|ps| - 1], ps[|ps| - 1];
      TargetsCount(front);
      assert ps == front + [last];
      MoreTargets(front, last);
    }
  }

  /** The placements are determined: importing the same batch again finds the same targets. */
  lemma {:induction false} PlacesUnique(
    subtitles: seq<Path>, match_: Match, targetFor: TargetFor, ps: seq<Placement>, qs: seq<Placement>)
    requires Places(subtitles, match_, targetFor, ps) && Places(subtitles, match_, targetFor, qs)
    ensures ps == qs
  {
    if subtitles != [] {
      var sub, front := subtitles[|subtitles| - 1], subtitles[..|subtitles| - 1];
      if match_(sub).None? {
        PlacesUnique(front, match_, targetFor, ps, qs);
      } else {
        PlacesUnique(front, match_, targetFor, ps[..|ps| - 1], qs[..|qs| - 1]);
        var p, q := ps[|ps| - 1], qs[|qs| - 1];
        SameNumber(targetFor, Targets(ps[..|ps| - 1]), p, q);
        assert ps == ps[..|ps| - 1] + [p] && qs == qs[..|qs| - 1] + [q];
      }
    }
  }

  lemma SameNumber(targetFor: TargetFor, taken: set<Path>, p: Placement, q: Placement)
    requires IsLeastFree(targetFor, taken, p) && IsLeastFree(targetFor, taken, q)
    requires p.subtitle == q.subtitle && p.info == q.info
    ensures p == q
  {
  }

  // ------------------------------------------------------------------ what targets look like

  function FlagWords(info: Info): seq<string> {
    if info.forced then ["forced"] else if info.sdh then ["sdh"] else []
  }

  function NumberWords(n: nat): seq<string> {
    if n == 1 then [] else [Decimal(n)]
  }

  function LanguageWord(info: Info): string {
    if info.language.Some? then info.language.value else "None"
  }

  lemma JoinFirst(a: string, rest: seq<string>)
    requires rest != []
    ensures Join([a] + rest, '.') == a + "." + Join(rest, '.')
  {
    assert ([a] + rest)[1..] == rest;
  }

  /** Flag and number, if any, and container, each after a dot. */
  lemma TailWords(info: Info, n: nat)
    ensures FlagPart(info) + Ordinal(n) + "." + info.container ==
      "." + Join(FlagWords(info) + NumberWords(n) + [info.container], '.')
  {
    hide Decimal, Join;
    var last := [info.container];
    var numbered := NumberWords(n) + last;
    JoinLast(info.container);
    NumberTail(info.container, n);
    FlagTail(info, numbered);
    assert FlagWords(info) + NumberWords(n) + last == FlagWords(info) + numbered;
    assert FlagPart(info) + Ordinal(n) + "." + info.container == FlagPart(info) + (Ordinal(n) + "." + info.container);
  }

  lemma JoinLast(a: string)
    ensures Join([a], '.') == a
  {
  }

  lemma NumberTail(container: string, n: nat)
    ensures Ordinal(n) + "." + container == "." + Join(NumberWords(n) + [container], '.')
  {
    hide Decimal, Join;
    JoinLast(container);
    if n == 1 {
      assert NumberWords(n) + [container] == [container] && Ordinal(n) + "." + container == "." + container;
    } else {
      JoinFirst(Decimal(n), [container]);
      assert "." + Decimal(n) + "." + container == "." + (Decimal(n) + "." + container);
    }
  }

  lemma FlagTail(info: Info, rest: seq<string>)
    requires rest != []
    ensures FlagPart(info) + ("." + Join(rest, '.')) == "." + Join(FlagWords(info) + rest, '.')
  {
    hide Join;
    var joined := Join(rest, '.');
    if FlagWords(info) == [] {
      assert FlagWords(info) + rest == rest && "" + ("." + joined) == "." + joined;
    } else {
      var flag := FlagWords(info)[0];
      JoinFirst(flag, rest);
      assert FlagWords(info) == [flag] && FlagPart(info) == "." + flag;
      assert "." + flag + ("." + joined) == "." + (flag + "." + joined);
    }
  }

  /** The target of a film's subtitle is a name and words with dots between: language, flag, number, container. */
  lemma MovieTargetWords(root: string, stem: string, info: Info, n: nat)
    ensures MovieTarget(root, stem)(info, n) ==
      root + "/" + stem + "."
      + Join([LanguageWord(info)] + (FlagWords(info) + NumberWords(n) + [info.container]), '.')
  {
    hide FlagPart, Ordinal, FlagWords, NumberWords;
    TailWords(info, n);
    JoinFirst(LanguageWord(info), FlagWords(info) + NumberWords(n) + [info.container]);
    var front := root + "/" + stem + "." + LanguageWord(info);
    assert front + FlagPart(info) + Ordinal(n) + "." + info.container
      == front + (FlagPart(info) + Ordinal(n) + "." + info.container);
  }

  /** For an episode the same, the language being left out if there is none. */
  lemma EpisodeTargetWords(stem: string, info: Info, n: nat)
    ensures var words := FlagWords(info) + NumberWords(n) + [info.container];
      EpisodeTarget(stem)(info, n) ==
        stem + "."
        + Join((if info.language.Some? && info.language.value != "" then [info.language.value] else []) + words, '.')
  {
    hide FlagPart, Ordinal, FlagWords, NumberWords;
    TailWords(info, n);
    var tail := FlagPart(info) + Ordinal(n) + "." + info.container;
    if info.language.Some? && info.language.value != "" {
      JoinFirst(info.language.value, FlagWords(info) + NumberWords(n) + [info.container]);
      assert stem + ("." + info.language.value) + FlagPart(info) + Ordinal(n) + "." + info.container
        == stem + ("." + info.language.value + tail);
    } else {
      assert stem + "" + FlagPart(info) + Ordinal(n) + "." + info.container == stem + tail;
      assert [] + (FlagWords(info) + NumberWords(n) + [info.container])
        == FlagWords(info) + NumberWords(n) + [info.container];
    }
  }

  lemma {:induction false} DecimalIsDigits(n: nat)
    ensures forall c | c in Decimal(n) :: '0' <= c <= '9'
  {
    if n >= 10 {
      DecimalIsDigits(n / 10);
    }
  }

  ghost predicate DotFree(info: Info) {
    '.' !in LanguageWord(info) && '.' !in info.container
  }

  lemma MovieWordsDotFree(info: Info, n: nat)
    requires DotFree(info)
    ensures forall w | w in [LanguageWord(info)] + (FlagWords(info) + NumberWords(n) + [info.container]) :: '.' !in w
  {
    DecimalIsDigits(n);
  }

  /** Subtitles of a film share a target only if language, flag shown, number and container are the same. */
  lemma MovieTargetsApart(root: string, stem: string, a: Info, m: nat, b: Info, n: nat)
    requires DotFree(a) && DotFree(b) && MovieTarget(root, stem)(a, m) == MovieTarget(root, stem)(b, n)
    ensures LanguageWord(a) == LanguageWord(b) && a.container == b.container && m == n
    ensures a.forced == b.forced && (!a.forced ==> a.sdh == b.sdh)
  {
    var x := FlagWords(a) + NumberWords(m) + [a.container];
    var y := FlagWords(b) + NumberWords(n) + [b.container];
    var v, w := [LanguageWord(a)] + x, [LanguageWord(b)] + y;
    MovieTargetWords(root, stem, a, m);
    MovieTargetWords(root, stem, b, n);
    MovieWordsDotFree(a, m);
    MovieWordsDotFree(b, n);
    var front := root + "/" + stem + ".";
    assert Join(v, '.') == (front + Join(v, '.'))[|front|..] && Join(w, '.') == (front + Join(w, '.'))[|front|..];
    JoinInjective(v, w, '.');
    assert x == v[1..] && y == w[1..] && v[0] == w[0];
    WordsApart(a, m, b, n);
  }

  /** The words before the container tell flag and number apart: a number is no flag. */
  lemma FlagIsFirst(info: Info, n: nat)
    ensures var words := FlagWords(info) + NumberWords(n);
      && (info.forced <==> words != [] && words[0] == "forced")
      && (!info.forced && info.sdh <==> words != [] && words[0] == "sdh")
      && words[|FlagWords(info)|..] == NumberWords(n)
  {
    DecimalIsDigits(n);
    hide Decimal;
    var digits := Decimal(n);
    assert digits[0] in digits && "forced"[0] == 'f' && "sdh"[0] == 's';
    assert digits != "forced" && digits != "sdh" && "sdh" != "forced";
  }

  lemma WordsApart(a: Info, m: nat, b: Info, n: nat)
    requires FlagWords(a) + NumberWords(m) + [a.container] == FlagWords(b) + NumberWords(n) + [b.container]
    ensures a.container == b.container && m == n
    ensures a.forced == b.forced && (!a.forced ==> a.sdh == b.sdh)
  {
    hide NumberWords;
    var x, y := FlagWords(a) + NumberWords(m), FlagWords(b) + NumberWords(n);
    LastApart(x, a.container, y, b.container);
    FlagIsFirst(a, m);
    FlagIsFirst(b, n);
    NumbersApart(m, n);
  }

  lemma LastApart(x: seq<string>, c: string, y: seq<string>, d: string)
    requires x + [c] == y + [d]
    ensures x == y && c == d
  {
    assert (x + [c])[|x|] == c && (y + [d])[|y|] == d && x == (x + [c])[..|x|] && y == (y + [d])[..|y|];
  }

  lemma NumbersApart(m: nat, n: nat)
    ensures NumberWords(m) == NumberWords(n) ==> m == n
  {
    if m != 1 && n != 1 && NumberWords(m) == NumberWords(n) {
      assert NumberWords(m)[0] == Decimal(m) && NumberWords(n)[0] == Decimal(n);
      DecimalInjective(m, n);
    }
  }
}
