/** Which archive entry names are accepted, and the path components they stand for. */
module EntryNames {
  import opened Paths

  type Path = seq<string>

  /** Names reserved on Windows, and the NFC-and-casefold form of a component. */
  datatype NameRules = NameRules(reserved: string -> bool, fold: string -> string)

  const FORBIDDEN_SEQUENCES: seq<string> := ["%2f", "%5c", "%2e%2e", "%00"]

  predicate CharAllowed(c: char) {
    c !in "\\*?:" && c as int > 0x1F && !(0x7F <= c as int <= 0x9F)
  }

  function Lower(c: char): char {
    if 'A' <= c <= 'Z' then c + 32 as char else c
  }

  predicate OccursAt(s: string, pattern: string, at: int) {
    0 <= at <= |s| - |pattern| && forall j | 0 <= j < |pattern| :: Lower(s[at + j]) == pattern[j]
  }

  predicate Mentions(s: string, pattern: string) {
    exists at | 0 <= at <= |s| - |pattern| :: OccursAt(s, pattern, at)
  }

  predicate RealComponent(p: string) {
    p != "" && p != "."
  }

  function Filter(parts: seq<string>): (r: seq<string>)
    ensures forall p :: p in r <==> p in parts && RealComponent(p)
  {
    if parts == [] then []
    else (if RealComponent(parts[0]) then [parts[0]] else []) + Filter(parts[1..])
  }

  /** The components of a relative name: empty and "." components are dropped. */
  function Parts(name: string): (r: Path)
    ensures forall p | p in r :: RealComponent(p) && '/' !in p
  {
    Filter(Split(name, '/'))
  }

  function StripSlashes(name: string): string {
    if name != "" && name[|name| - 1] == '/' then StripSlashes(name[..|name| - 1]) else name
  }

  lemma {:induction false} SplitTrailing(s: string)
    ensures Split(s + "/", '/') == Split(s, '/') + [""]
  {
    if s == [] {
      assert s + "/" == "/" && "/"[1..] == "";
      assert Split("/", '/') == [""] + Split("", '/');
    } else {
      assert (s + "/")[1..] == s[1..] + "/";
      SplitTrailing(s[1..]);
    }
  }

  lemma {:induction false} FilterTrailing(parts: seq<string>)
    ensures Filter(parts + [""]) == Filter(parts)
  {
    if parts == [] {
      assert parts + [""] == [""] && Filter([""]) == Filter([""][1..]);
    } else {
      FilterTrailing(parts[1..]);
      assert (parts + [""])[1..] == parts[1..] + [""];
    }
  }

  /** Trailing slashes do not change the path a name stands for. */
  lemma {:induction false} StrippedParts(name: string)
    ensures Parts(StripSlashes(name)) == Parts(name)
  {
    if name != "" && name[|name| - 1] == '/' {
      var shorter := name[..|name| - 1];
      StrippedParts(shorter);
      assert name == shorter + "/";
      SplitTrailing(shorter);
      FilterTrailing(Split(shorter, '/'));
    }
  }

  predicate ComponentAllowed(p: string, rules: NameRules)
    requires p != ""
  {
    p != ".." && p[|p| - 1] !in " ." && !rules.reserved(p)
  }

  predicate ValidName(name: string, rules: NameRules) {
    && name != "" && name != "." && name != ".." && name[0] != '/'
    && (forall c | c in name :: CharAllowed(c))
    && (forall pattern | pattern in FORBIDDEN_SEQUENCES :: !Mentions(name, pattern))
    && (forall p | p in Parts(name) :: ComponentAllowed(p, rules))
  }

  function FoldAll(parts: Path, rules: NameRules): (r: Path)
    ensures |r| == |parts|
  {
    seq(|parts|, i requires 0 <= i < |parts| => rules.fold(parts[i]))
  }

  /** The key under which two spellings of one path collide. */
  function LogicalKey(name: string, rules: NameRules): string {
    Join(FoldAll(Parts(StripSlashes(name)), rules), '/')
  }

  /** Distinct keys stand for distinct paths. */
  lemma DistinctKeysDistinctPaths(a: string, b: string, rules: NameRules)
    requires LogicalKey(a, rules) != LogicalKey(b, rules)
    ensures Parts(a) != Parts(b)
  {
    StrippedParts(a);
    StrippedParts(b);
  }

  lemma {:induction false} FilterReal(parts: seq<string>)
    requires forall p | p in parts :: RealComponent(p)
    ensures Filter(parts) == parts
  {
    if parts != [] {
      FilterReal(parts[1..]);
      assert [parts[0]] + parts[1..] == parts;
    }
  }

  lemma SplitFirst(c: char, rest: string)
    ensures Split([c] + rest, '/') ==
      if c == '/' then [""] + Split(rest, '/') else [[c] + Split(rest, '/')[0]] + Split(rest, '/')[1..]
  {
    assert ([c] + rest)[1..] == rest;
  }

  lemma {:induction false} SplitBoth(a: string, b: string)
    ensures Split(a + "/" + b, '/') == Split(a, '/') + Split(b, '/')
  {
    hide Split;
    if a == "" {
      SplitFirst('/', b);
      SplitPlain(a, '/');
      assert a + "/" + b == ['/'] + b;
    } else {
      var more := a[1..] + "/" + b;
      SplitBoth(a[1..], b);
      SplitFirst(a[0], a[1..]);
      SplitFirst(a[0], more);
      assert a == [a[0]] + a[1..] && a + "/" + b == [a[0]] + more;
    }
  }

  lemma {:induction false} FilterBoth(a: seq<string>, b: seq<string>)
    ensures Filter(a + b) == Filter(a) + Filter(b)
  {
    hide Filter;
    if a == [] {
      assert a + b == b && Filter([]) == [] by { FilterNone(); }
    } else {
      FilterBoth(a[1..], b);
      FilterFirst(a[0], a[1..]);
      FilterFirst(a[0], a[1..] + b);
      assert a == [a[0]] + a[1..] && a + b == [a[0]] + (a[1..] + b);
    }
  }

  lemma FilterNone()
    ensures Filter([]) == []
  {
  }

  lemma FilterFirst(p: string, rest: seq<string>)
    ensures Filter([p] + rest) == (if RealComponent(p) then [p] else []) + Filter(rest)
  {
    assert ([p] + rest)[1..] == rest;
  }

  /**
   A slash puts the components of two names one after the other; a name without one is a single component,
   or none if it is empty or a dot. That determines the components of every name.
   */
  lemma PartsBySlash(a: string, b: string)
    ensures Parts(a + "/" + b) == Parts(a) + Parts(b)
    ensures '/' !in a ==> Parts(a) == if a == "" || a == "." then [] else [a]
  {
    SplitBoth(a, b);
    FilterBoth(Split(a, '/'), Split(b, '/'));
    if '/' !in a {
      SplitPlain(a, '/');
      assert [a][1..] == [] && Filter([a]) == (if RealComponent(a) then [a] else []) + Filter([]);
    }
  }

  lemma PartsOfJoin(parts: Path)
    requires parts != [] && forall p | p in parts :: RealComponent(p) && '/' !in p
    ensures Parts(Join(parts, '/')) == parts
  {
    SplitJoin(parts, '/');
    FilterReal(parts);
  }

  lemma {:induction false} JoinChars(parts: Path, c: char)
    requires c in Join(parts, '/')
    ensures c == '/' || exists p | p in parts :: c in p
  {
    if |parts| > 1 {
      if c in Join(parts[1..], '/') {
        JoinChars(parts[1..], c);
      }
    } else if |parts| == 1 {
      assert c in parts[0] && parts[0] in parts;
    }
  }

  /** A separator-free pattern found in a joined name lies inside one component. */
  lemma {:induction false} PatternInComponent(parts: Path, pattern: string, at: int) returns (i: nat)
    requires '/' !in pattern && |pattern| > 0
    requires OccursAt(Join(parts, '/'), pattern, at)
    ensures i < |parts| && Mentions(parts[i], pattern)
  {
    var s := Join(parts, '/');
    if |parts| == 1 {
      i := 0;
    } else {
      var n := |parts[0]|;
      var rest := Join(parts[1..], '/');
      assert s == parts[0] + ['/'] + rest && s[n] == '/';
      PatternHasNoSlash(s, pattern, at);
      if at + |pattern| <= n {
        assert OccursAt(parts[0], pattern, at);
        i := 0;
      } else {
        assert n < at;
        forall j | 0 <= j < |pattern| ensures Lower(rest[at - n - 1 + j]) == pattern[j] {
          assert rest[at - n - 1 + j] == s[at + j];
        }
        assert OccursAt(rest, pattern, at - n - 1);
        var k := PatternInComponent(parts[1..], pattern, at - n - 1);
        i := k + 1;
      }
    }
  }

  lemma JoinMentions(parts: Path, pattern: string) returns (i: nat)
    requires '/' !in pattern && |pattern| > 0 && Mentions(Join(parts, '/'), pattern)
    ensures i < |parts| && Mentions(parts[i], pattern)
  {
    var at :| OccursAt(Join(parts, '/'), pattern, at);
    i := PatternInComponent(parts, pattern, at);
  }

  lemma PatternHasNoSlash(s: string, pattern: string, at: int)
    requires '/' !in pattern && OccursAt(s, pattern, at)
    ensures forall k | at <= k < at + |pattern| :: s[k] != '/'
  {
    forall k | at <= k < at + |pattern| ensures s[k] != '/' {
      assert Lower(s[at + (k - at)]) == pattern[k - at] && pattern[k - at] in pattern;
    }
  }

  /** What a component contains, the whole name contains. */
  lemma ComponentInName(name: string, p: string) returns (at: nat)
    requires p in Parts(name)
    ensures at + |p| <= |name| && name[at..at + |p|] == p
  {
    var i :| 0 <= i < |Split(name, '/')| && Split(name, '/')[i] == p;
    at := SplitSlice(name, '/', i);
  }

  lemma ComponentMentions(name: string, p: string, pattern: string)
    requires p in Parts(name) && Mentions(p, pattern)
    ensures Mentions(name, pattern)
  {
    var at := ComponentInName(name, p);
    var k :| 0 <= k <= |p| - |pattern| && OccursAt(p, pattern, k);
    forall j | 0 <= j < |pattern| ensures Lower(name[at + k + j]) == pattern[j] {
      assert name[at + k + j] == name[at..at + |p|][k + j];
    }
    assert OccursAt(name, pattern, at + k);
  }

  /**
   Every non-empty ancestor path of a valid name, spelt with "/", is itself a valid name for that
   path: creating an entry's parent directories cannot fail the name check the entry passed.
   */
  lemma AncestorNamesValid(name: string, n: nat, rules: NameRules)
    requires ValidName(name, rules) && 0 < n <= |Parts(name)|
    ensures ValidName(Join(Parts(name)[..n], '/'), rules)
    ensures Parts(Join(Parts(name)[..n], '/')) == Parts(name)[..n]
  {
    hide Parts, Mentions, ComponentAllowed;
    var parts := Parts(name)[..n];
    var joined := Join(parts, '/');
    assert forall p | p in parts :: p in Parts(name);
    PartsOfJoin(parts);
    forall c | c in joined ensures CharAllowed(c) {
      JoinChars(parts, c);
      if c != '/' {
        var p :| p in parts && c in p;
        var at := ComponentInName(name, p);
        assert c in name[at..at + |p|];
      }
    }
    forall pattern | pattern in FORBIDDEN_SEQUENCES ensures !Mentions(joined, pattern) {
      assert '/' !in pattern && |pattern| > 0;
      if Mentions(joined, pattern) {
        var i := JoinMentions(parts, pattern);
        ComponentMentions(name, parts[i], pattern);
      }
    }
    JoinedIsRelative(parts, rules);
  }

  lemma JoinedIsRelative(parts: Path, rules: NameRules)
    requires parts != [] && forall p | p in parts :: RealComponent(p) && '/' !in p && ComponentAllowed(p, rules)
    ensures var s := Join(parts, '/'); s != "" && s != "." && s != ".." && s[0] != '/'
  {
    var s, p := Join(parts, '/'), parts[0];
    assert p in parts;
    assert s[..|p|] == p && s[0] == p[0] && p[0] in p;
    if |parts| > 1 {
      assert s[|p|] == '/';
      assert ".."[1] == '.' ;
    }
  }

  // ------------------------------------------------------------------ lists of names

  /** Every name is valid and no two share a logical key. */
  ghost predicate NamesAccepted(names: seq<string>, rules: NameRules) {
    && (forall i | 0 <= i < |names| :: ValidName(names[i], rules))
    && (forall i, j | 0 <= i < j < |names| :: LogicalKey(names[i], rules) != LogicalKey(names[j], rules))
  }

  ghost function Keys(names: seq<string>, rules: NameRules): set<string> {
    set i | 0 <= i < |names| :: LogicalKey(names[i], rules)
  }

  /** One more name is accepted exactly when it is valid and its key is new. */
  lemma NamesStep(names: seq<string>, name: string, rules: NameRules)
    ensures Keys(names + [name], rules) == Keys(names, rules) + {LogicalKey(name, rules)}
    ensures NamesAccepted(names + [name], rules) <==>
            NamesAccepted(names, rules) && ValidName(name, rules) && LogicalKey(name, rules) !in Keys(names, rules)
  {
    hide ValidName, LogicalKey;
    var more := names + [name];
    assert forall i | 0 <= i < |names| :: more[i] == names[i];
    assert more[|names|] == name;
    forall key | key in Keys(names, rules) ensures key in Keys(more, rules) {
      var i :| 0 <= i < |names| && key == LogicalKey(names[i], rules);
      assert key == LogicalKey(more[i], rules);
    }
    if NamesAccepted(more, rules) {
      forall i | 0 <= i < |names| ensures LogicalKey(name, rules) != LogicalKey(names[i], rules) {
        assert LogicalKey(more[i], rules) != LogicalKey(more[|names|], rules);
      }
      forall i, j | 0 <= i < j < |names| ensures LogicalKey(names[i], rules) != LogicalKey(names[j], rules) {
        assert LogicalKey(more[i], rules) != LogicalKey(more[j], rules);
      }
    }
  }

  lemma NamesPrefix(names: seq<string>, k: nat, rules: NameRules)
    requires k <= |names| && NamesAccepted(names, rules)
    ensures NamesAccepted(names[..k], rules)
  {
    hide ValidName, LogicalKey;
  }

  /** In an accepted list, a name's path differs from every earlier one. */
  lemma EarlierPathsDiffer(names: seq<string>, k: nat, rules: NameRules)
    requires k < |names| && NamesAccepted(names, rules)
    ensures ValidName(names[k], rules)
    ensures forall i | 0 <= i < k :: Parts(names[i]) != Parts(names[k])
  {
    hide ValidName, LogicalKey, Parts;
    forall i | 0 <= i < k ensures Parts(names[i]) != Parts(names[k]) {
      DistinctKeysDistinctPaths(names[i], names[k], rules);
    }
  }

  // ------------------------------------------------------------------ which names collide

  /** Folding makes no component empty and puts no slash into one. */
  ghost predicate FoldsComponents(rules: NameRules) {
    forall p | RealComponent(p) && '/' !in p :: rules.fold(p) != "" && '/' !in rules.fold(p)
  }

  /** The same number of components, pairwise the same when folded. */
  ghost predicate SameFolded(a: Path, b: Path, rules: NameRules) {
    |a| == |b| && forall i | 0 <= i < |a| :: rules.fold(a[i]) == rules.fold(b[i])
  }

  lemma JoinedNonEmpty(parts: Path)
    requires parts != [] && forall p | p in parts :: p != ""
    ensures Join(parts, '/') != ""
  {
    assert parts[0] in parts;
  }

  /** Two names collide exactly when their paths are the same but for folding. */
  lemma KeysEqualIff(a: string, b: string, rules: NameRules)
    requires FoldsComponents(rules)
    ensures LogicalKey(a, rules) == LogicalKey(b, rules) <==> SameFolded(Parts(a), Parts(b), rules)
  {
    hide Parts;
    StrippedParts(a);
    StrippedParts(b);
    var x, y := FoldAll(Parts(a), rules), FoldAll(Parts(b), rules);
    FoldedComponents(Parts(a), rules);
    FoldedComponents(Parts(b), rules);
    if x != [] {
      JoinedNonEmpty(x);
    }
    if y != [] {
      JoinedNonEmpty(y);
    }
    if LogicalKey(a, rules) == LogicalKey(b, rules) {
      if x != [] && y != [] {
        JoinInjective(x, y, '/');
      }
      assert x == y;
    }
    if SameFolded(Parts(a), Parts(b), rules) {
      assert x == y;
    }
  }

  lemma FoldedComponents(parts: Path, rules: NameRules)
    requires FoldsComponents(rules) && forall p | p in parts :: RealComponent(p) && '/' !in p
    ensures forall p | p in FoldAll(parts, rules) :: p != "" && '/' !in p
    ensures FoldAll(parts, rules) == [] <==> parts == []
    ensures forall i | 0 <= i < |parts| :: FoldAll(parts, rules)[i] == rules.fold(parts[i])
  {
    var folded := FoldAll(parts, rules);
    forall p | p in folded ensures p != "" && '/' !in p {
      var i :| 0 <= i < |folded| && folded[i] == p;
      assert parts[i] in parts;
    }
  }

  /** A list of names is accepted exactly when all are valid and no two ask for one path but for folding. */
  lemma NamesAcceptedIff(names: seq<string>, rules: NameRules)
    requires FoldsComponents(rules)
    ensures NamesAccepted(names, rules) <==>
      && (forall i | 0 <= i < |names| :: ValidName(names[i], rules))
      && (forall i, j | 0 <= i < j < |names| :: !SameFolded(Parts(names[i]), Parts(names[j]), rules))
  {
    hide ValidName, LogicalKey, SameFolded, Parts;
    forall i, j | 0 <= i < j < |names|
      ensures LogicalKey(names[i], rules) == LogicalKey(names[j], rules) <==>
        SameFolded(Parts(names[i]), Parts(names[j]), rules)
    {
      KeysEqualIff(names[i], names[j], rules);
    }
  }

  /** A key is taken exactly when an earlier name asks for the same path but for folding. */
  lemma KeyTakenIff(names: seq<string>, name: string, rules: NameRules)
    requires FoldsComponents(rules)
    ensures LogicalKey(name, rules) in Keys(names, rules) <==>
      exists i :: 0 <= i < |names| && SameFolded(Parts(names[i]), Parts(name), rules)
  {
    hide LogicalKey, SameFolded, Parts;
    forall i | 0 <= i < |names|
      ensures LogicalKey(names[i], rules) == LogicalKey(name, rules) <==>
        SameFolded(Parts(names[i]), Parts(name), rules)
    {
      KeysEqualIff(names[i], name, rules);
    }
  }

  /** Folding tells the components of these names apart. */
  ghost predicate FoldsApart(names: seq<string>, rules: NameRules) {
    forall i, j, p, q | 0 <= i < |names| && 0 <= j < |names| && p in Parts(names[i]) && q in Parts(names[j]) ::
      rules.fold(p) == rules.fold(q) ==> p == q
  }

  /** Then the list is accepted exactly when all names are valid and their paths differ. */
  lemma DistinctPathsAccepted(names: seq<string>, rules: NameRules)
    requires FoldsComponents(rules) && FoldsApart(names, rules)
    ensures NamesAccepted(names, rules) <==>
      && (forall i | 0 <= i < |names| :: ValidName(names[i], rules))
      && (forall i, j | 0 <= i < j < |names| :: Parts(names[i]) != Parts(names[j]))
  {
    hide ValidName, NamesAccepted, Parts;
    NamesAcceptedIff(names, rules);
    forall i, j | 0 <= i < j < |names|
      ensures SameFolded(Parts(names[i]), Parts(names[j]), rules) <==> Parts(names[i]) == Parts(names[j])
    {
      var a, b := Parts(names[i]), Parts(names[j]);
      if SameFolded(a, b, rules) {
        forall k | 0 <= k < |a| ensures a[k] == b[k] {
          assert a[k] in a && b[k] in b;
        }
      }
    }
  }

  // ------------------------------------------------------------------ encoded characters

  /** At this position is "%2f", "%5c", "%00" or "%2e%2e", in capitals or not. */
  predicate EncodedAt(s: string, i: int) {
    && 0 <= i && i + 3 <= |s| && s[i] == '%'
    && (|| (s[i + 1] == '2' && s[i + 2] in "fF")
        || (s[i + 1] == '5' && s[i + 2] in "cC")
        || (s[i + 1] == '0' && s[i + 2] == '0')
        || (&& i + 6 <= |s| && s[i + 1] == '2' && s[i + 2] in "eE"
            && s[i + 3] == '%' && s[i + 4] == '2' && s[i + 5] in "eE"))
  }

  /** A valid name has none of them. */
  lemma ForbiddenIff(name: string)
    ensures (exists pattern | pattern in FORBIDDEN_SEQUENCES :: Mentions(name, pattern)) <==>
      exists i :: EncodedAt(name, i)
  {
    forall i
      ensures EncodedAt(name, i) <==> exists pattern | pattern in FORBIDDEN_SEQUENCES :: OccursAt(name, pattern, i)
    {
      EncodedAtIff(name, i);
    }
    if pattern :| pattern in FORBIDDEN_SEQUENCES && Mentions(name, pattern) {
      var i :| 0 <= i <= |name| - |pattern| && OccursAt(name, pattern, i);
      assert EncodedAt(name, i);
    }
    if i :| EncodedAt(name, i) {
      var pattern :| pattern in FORBIDDEN_SEQUENCES && OccursAt(name, pattern, i);
      assert Mentions(name, pattern);
    }
  }

  lemma EncodedAtIff(s: string, i: int)
    ensures EncodedAt(s, i) <==> exists pattern | pattern in FORBIDDEN_SEQUENCES :: OccursAt(s, pattern, i)
  {
    ThreeAt(s, i, '2', 'f');
    ThreeAt(s, i, '5', 'c');
    ThreeAt(s, i, '0', '0');
    SixAt(s, i);
    assert FORBIDDEN_SEQUENCES[0] == "%2f" && FORBIDDEN_SEQUENCES[1] == "%5c"
      && FORBIDDEN_SEQUENCES[2] == "%2e%2e" && FORBIDDEN_SEQUENCES[3] == "%00";
    assert ['%', '2', 'f'] == "%2f" && ['%', '5', 'c'] == "%5c" && ['%', '0', '0'] == "%00";
  }

  lemma ThreeAt(s: string, i: int, a: char, b: char)
    requires a in "250" && b in "fc0"
    ensures OccursAt(s, ['%', a, b], i) <==>
      && 0 <= i && i + 3 <= |s| && s[i] == '%' && s[i + 1] == a
      && (s[i + 2] == b || (b == 'f' && s[i + 2] == 'F') || (b == 'c' && s[i + 2] == 'C'))
  {
    var pattern := ['%', a, b];
    if OccursAt(s, pattern, i) {
      assert Lower(s[i + 0]) == pattern[0] && Lower(s[i + 1]) == pattern[1] && Lower(s[i + 2]) == pattern[2];
    }
  }

  lemma SixAt(s: string, i: int)
    ensures OccursAt(s, "%2e%2e", i) <==>
      && 0 <= i && i + 6 <= |s| && s[i] == '%' && s[i + 1] == '2' && s[i + 2] in "eE"
      && s[i + 3] == '%' && s[i + 4] == '2' && s[i + 5] in "eE"
  {
    var pattern := "%2e%2e";
    if OccursAt(s, pattern, i) {
      assert Lower(s[i + 0]) == pattern[0] && Lower(s[i + 1]) == pattern[1] && Lower(s[i + 2]) == pattern[2];
      assert Lower(s[i + 3]) == pattern[3] && Lower(s[i + 4]) == pattern[4] && Lower(s[i + 5]) == pattern[5];
    }
  }

  // ------------------------------------------------------------------ what a valid name can be

  /** No component of a valid name leads out of the directory, is reserved, or ends in a space or a dot. */
  lemma ValidComponents(name: string, rules: NameRules)
    requires ValidName(name, rules)
    ensures forall p | p in Parts(name) ::
      && p != "" && p != "." && p != ".." && '/' !in p && p[|p| - 1] != ' ' && p[|p| - 1] != '.' && !rules.reserved(p)
    ensures name != "" && name[0] != '/'
    ensures forall c | c in name ::
      c != '\\' && c != '*' && c != '?' && c != ':' && !(c as int < 0x20) && !(0x7F <= c as int <= 0x9F)
    ensures forall i :: !EncodedAt(name, i)
  {
    hide Parts, Mentions;
    ForbiddenIff(name);
  }

  /** And these conditions are all that is asked of a name with at least one component. */
  lemma ValidIff(name: string, rules: NameRules)
    ensures ValidName(name, rules) <==>
      && name != "" && name != "." && name != ".." && name[0] != '/'
      && (forall c | c in name ::
            c != '\\' && c != '*' && c != '?' && c != ':' && !(c as int < 0x20) && !(0x7F <= c as int <= 0x9F))
      && (forall i :: !EncodedAt(name, i))
      && (forall p | p in Parts(name) ::
            p != ".." && p[|p| - 1] != ' ' && p[|p| - 1] != '.' && !rules.reserved(p))
  {
    hide Parts, Mentions, EncodedAt;
    ForbiddenIff(name);
    forall c ensures CharAllowed(c) <==>
      c != '\\' && c != '*' && c != '?' && c != ':' && !(c as int < 0x20) && !(0x7F <= c as int <= 0x9F)
    {
    }
  }
}
