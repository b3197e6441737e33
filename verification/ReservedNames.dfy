/** Archives with directory names that publication and listing reserve for themselves: what importing them does. */
module ReservedNames {
  import opened Binary
  import opened Collections
  import opened ContainerNames
  import opened ImportPipeline
  import opened Paths

  const PLAIN_RULES: E.NameRules := E.NameRules(_ => false, s => s)

  ghost predicate PlainComponent(p: string) {
    && E.RealComponent(p) && p != ".." && p[|p| - 1] !in " ."
    && forall c | c in p :: E.CharAllowed(c) && c != '/' && c != '%'
  }

  /** One entry, a file of one byte in one directory. */
  function OneFile(dir: string, file: string, x: byte): seq<Z.ZipInfo> {
    [Z.ZipInfo(dir + "/" + file, false, 1, [x], true)]
  }

  lemma TwoParts(dir: string, file: string)
    requires PlainComponent(dir) && PlainComponent(file)
    ensures E.Parts(dir + "/" + file) == [dir, file]
  {
    hide E.RealComponent, E.CharAllowed;
    assert Join([dir, file], '/') == dir + "/" + file;
    SplitJoin([dir, file], '/');
    BothReal(dir, file);
  }

  lemma BothReal(dir: string, file: string)
    requires E.RealComponent(dir) && E.RealComponent(file)
    ensures E.Filter([dir, file]) == [dir, file]
  {
    assert E.Filter([file]) == [file] + E.Filter([]);
    assert [dir, file][1..] == [file];
  }

  lemma NoPercent(name: string)
    requires '%' !in name
    ensures forall pattern | pattern in E.FORBIDDEN_SEQUENCES :: !E.Mentions(name, pattern)
  {
    forall pattern | pattern in E.FORBIDDEN_SEQUENCES ensures !E.Mentions(name, pattern) {
      assert pattern[0] == '%';
      if E.Mentions(name, pattern) {
        MentionsPercent(name, pattern);
      }
    }
  }

  lemma MentionsPercent(name: string, pattern: string)
    requires pattern != "" && pattern[0] == '%' && E.Mentions(name, pattern)
    ensures '%' in name
  {
    var at :| 0 <= at <= |name| - |pattern| && E.OccursAt(name, pattern, at);
    assert E.Lower(name[at + 0]) == pattern[0] && name[at] in name;
  }

  /** Such an entry is accepted, and asks for just that file. */
  lemma OneFileAccepted(dir: string, file: string, x: byte)
    requires PlainComponent(dir) && PlainComponent(file) && dir[0] != '/'
    ensures Z.Acceptable(OneFile(dir, file, x), 1, 1, PLAIN_RULES)
    ensures Z.Items(OneFile(dir, file, x)) == [T.Item([dir, file], S.File([x]))]
  {
    hide E.CharAllowed, E.Parts, E.Mentions, E.LogicalKey, E.ValidName;
    var name := dir + "/" + file;
    TwoParts(dir, file);
    assert name[|name| - 1] == file[|file| - 1] && file[|file| - 1] in file;
    OneFileIsValid(dir, file);
    var infos := OneFile(dir, file, x);
    assert infos[..0] == [] && !infos[0].IsDir();
    assert Z.ContentTotal([]) == 0 && Z.DeclaredTotal([]) == 0;
    assert Z.ContentTotal(infos) == 1 && Z.DeclaredTotal(infos) == 1;
  }

  lemma OneFileIsValid(dir: string, file: string)
    requires PlainComponent(dir) && PlainComponent(file)
    ensures E.ValidName(dir + "/" + file, PLAIN_RULES)
  {
    hide E.Parts, E.Mentions;
    var name := dir + "/" + file;
    TwoParts(dir, file);
    NoPercent(name);
  }

  function ZeroDigest(): string {
    L.Repeated('0', 64)
  }

  /** Reading bytes as characters one by one, which is how they are read as ASCII. */
  function AsAscii(b: bytes): string {
    seq(|b|, i requires 0 <= i < |b| => b[i] as char)
  }

  /** A video in a directory named like debris. */
  function HiddenArchive(): seq<Z.ZipInfo> {
    OneFile(".mm-extract-x", "v.mkv", 7)
  }

  /** A directory named like a container, with a marker that is not ASCII. */
  function MarkedArchive(): seq<Z.ZipInfo> {
    OneFile(CONTAINER_PREFIX + ZeroDigest(), MARKER_PREFIX + ZeroDigest(), 0xE9)
  }

  /** An archive whose only file lies in a directory named like debris is imported, and nothing is offered. */
  method HiddenFile(digest: P.DigestFn, a: O.Answers, hex: L.HexCheck)
    returns (published: bool, listed: bool, offered: seq<Path>)
    requires a.ino != 1 && HexDigests(digest, hex)
    requires Works(a) && Hashable(Z.Items(HiddenArchive()), digest, a)
    ensures published && listed && offered == []
  {
    hide *;
    HiddenFileAccepted(hex);
    ghost var d;
    published, listed, offered, d := ImportArchive(HiddenArchive(), 1, 1, [], PLAIN_RULES, digest, a, AsAscii, hex);
    NothingOffered(offered, d, hex);
  }

  lemma HiddenFileAccepted(hex: L.HexCheck)
    ensures S.WritesSucceed([])
    ensures Z.Acceptable(HiddenArchive(), 1, 1, PLAIN_RULES)
    ensures NoneUnreadable(Z.Items(HiddenArchive()), AsAscii, hex)
  {
    hide L.DigestFromName, PlainComponent, Z.Acceptable, L.MarkerStatus, L.IsDebris, Z.Items, Reachable;
    assert PlainComponent(".mm-extract-x") && PlainComponent("v.mkv") by { HiddenParts(); }
    OneFileAccepted(".mm-extract-x", "v.mkv", 7);
    var items := Z.Items(HiddenArchive());
    NoMarkers(items, AsAscii, hex);
  }

  /** Where no file is named like a marker, no marker is unreadable. */
  lemma NoMarkers(items: seq<T.Item>, read: Reader, hex: L.HexCheck)
    requires forall item | item in items && item.path != [] :: !(MARKER_PREFIX <= item.path[|item.path| - 1])
    ensures NoneUnreadable(items, read, hex)
  {
    hide MarkerReads, Reachable;
    forall q ensures !Unreadable(items, read, q, hex) {
      if Unreadable(items, read, q, hex) {
        var item, digest := MarkedHas(items, read, q, hex, L.Unreadable);
        assert false;
      }
    }
  }

  lemma HiddenParts()
    ensures PlainComponent(".mm-extract-x") && PlainComponent("v.mkv")
  {
  }

  lemma HiddenIsUnreachable(hex: L.HexCheck)
    ensures !Reachable(Z.Items(HiddenArchive()), AsAscii, [".mm-extract-x", "v.mkv"], hex)
  {
    assert ".mm-extract-" in L.DEBRIS_PREFIXES && ".mm-extract-" <= ".mm-extract-x";
    assert !Enterable(Z.Items(HiddenArchive()), AsAscii, [".mm-extract-x", "v.mkv"], 0, hex);
  }

  lemma OnlyHidden(p: Path)
    requires HasFile(Z.Items(HiddenArchive()), p)
    ensures p == [".mm-extract-x", "v.mkv"]
  {
    hide PlainComponent, Z.Acceptable, Z.Items, E.Parts;
    HiddenParts();
    OneFileAccepted(".mm-extract-x", "v.mkv", 7);
  }

  lemma NothingOffered(offered: seq<Path>, d: string, hex: L.HexCheck)
    requires OffersItems(offered, Z.Items(HiddenArchive()), d, AsAscii, hex)
    ensures offered == []
  {
    hide *;
    HiddenIsUnreachable(hex);
    forall p | HasFile(Z.Items(HiddenArchive()), p) ensures !Reachable(Z.Items(HiddenArchive()), AsAscii, p, hex) {
      OnlyHidden(p);
    }
    NoneReachable(offered, Z.Items(HiddenArchive()), d, AsAscii, hex);
  }

  lemma NoneReachable(offered: seq<Path>, items: seq<T.Item>, d: string, read: Reader, hex: L.HexCheck)
    requires OffersItems(offered, items, d, read, hex)
    requires forall p | HasFile(items, p) :: !Reachable(items, read, p, hex)
    ensures offered == []
  {
    hide HasFile, Reachable, L.SortedPaths, ContainerName;
    EmptyOrFirst(offered);
    assert forall p :: p !in offered;
  }

  lemma EmptyOrFirst<X>(s: seq<X>)
    ensures s == [] || s[0] in s
  {
  }

  /** An archive like the other one is imported, and from then on the listing fails. */
  method BrokenListing(digest: P.DigestFn, a: O.Answers, hex: L.HexCheck)
    returns (published: bool, listed: bool, offered: seq<Path>)
    requires a.ino != 1 && HexDigests(digest, hex) && hex(ZeroDigest())
    requires Works(a) && Hashable(Z.Items(MarkedArchive()), digest, a)
    ensures published && !listed
  {
    hide *;
    BrokenListingAccepted(hex);
    ghost var d;
    published, listed, offered, d := ImportArchive(MarkedArchive(), 1, 1, [], PLAIN_RULES, digest, a, AsAscii, hex);
  }

  lemma BrokenListingAccepted(hex: L.HexCheck)
    requires hex(ZeroDigest())
    ensures S.WritesSucceed([])
    ensures Z.Acceptable(MarkedArchive(), 1, 1, PLAIN_RULES)
    ensures !NoneUnreadable(Z.Items(MarkedArchive()), AsAscii, hex)
  {
    hide PlainComponent, Z.Acceptable, L.IsDebris, Z.Items, L.StripLeft, L.StripRight;
    var dir, file := CONTAINER_PREFIX + ZeroDigest(), MARKER_PREFIX + ZeroDigest();
    MarkedParts();
    OneFileAccepted(dir, file, 0xE9);
    var items := Z.Items(MarkedArchive());
    assert dir[|CONTAINER_PREFIX|..] == ZeroDigest() && L.DigestFromName(dir, hex) == Some(ZeroDigest());
    var text := AsAscii([0xE9]);
    assert text[0] as int == 0xE9;
    assert [dir] + [file] == [dir, file] && HasText(items, AsAscii, [dir] + [file], text);
    assert MarkerReads(items, AsAscii, [dir], hex, L.Unreadable);
    assert Unreadable(items, AsAscii, [dir], hex);
  }

  lemma MarkedParts()
    ensures PlainComponent(CONTAINER_PREFIX + ZeroDigest()) && PlainComponent(MARKER_PREFIX + ZeroDigest())
  {
    var zeros := ZeroDigest();
    assert forall c | c in zeros :: c == '0';
    PlainMore(CONTAINER_PREFIX, zeros);
    PlainMore(MARKER_PREFIX, zeros);
  }

  lemma PlainMore(prefix: string, zeros: string)
    requires |prefix| > 3 && zeros != "" && forall c | c in zeros :: c == '0'
    requires forall c | c in prefix :: E.CharAllowed(c) && c != '/' && c != '%'
    ensures PlainComponent(prefix + zeros)
  {
    var p := prefix + zeros;
    assert p[|p| - 1] == zeros[|zeros| - 1] && zeros[|zeros| - 1] in zeros;
  }
}
