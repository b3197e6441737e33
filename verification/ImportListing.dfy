/** Which files below an import directory are offered for import. */
module ImportListing {
  import opened Collections
  import opened ContainerNames
  import opened Ordering

  type Path = seq<string>

  /** A directory tree without symlinks; `Special` is neither a directory nor a regular file. */
  datatype Node = File(content: string) | Dir(children: map<string, Node>) | Special

  type Children = map<string, Node>

  const DEBRIS_PREFIXES: seq<string> := [".mm-publish-", ".mm-quarantine-", ".mm-extract-"]

  /** Whether a 64-character suffix reads as a base-16 number. */
  type HexCheck = string -> bool

  predicate IsDebris(name: string) {
    exists prefix | prefix in DEBRIS_PREFIXES :: prefix <= name
  }

  function DigestFromName(name: string, hex: HexCheck): Option<string> {
    if !(CONTAINER_PREFIX <= name) then None
    else
      var digest := name[|CONTAINER_PREFIX|..];
      if |digest| != 64 || !hex(digest) then None else Some(digest)
  }

  /** A name is a container's exactly if it is the prefix followed by 64 characters that read as hexadecimal. */
  lemma NamedLikeContainerIff(name: string, digest: string, hex: HexCheck)
    ensures DigestFromName(name, hex) == Some(digest) <==>
      name == ".mm-archive-" + digest && |digest| == 64 && hex(digest)
  {
    if name == ".mm-archive-" + digest {
      assert name[|CONTAINER_PREFIX|..] == digest;
    }
  }

  /** Debris is what starts like a private build, a quarantine or an extraction directory. */
  lemma DebrisIff(name: string)
    ensures IsDebris(name) <==>
      ".mm-publish-" <= name || ".mm-quarantine-" <= name || ".mm-extract-" <= name
  {
    assert ".mm-publish-" in DEBRIS_PREFIXES && ".mm-quarantine-" in DEBRIS_PREFIXES;
    assert ".mm-extract-" in DEBRIS_PREFIXES;
    if prefix :| prefix in DEBRIS_PREFIXES && prefix <= name {
      assert prefix == ".mm-publish-" || prefix == ".mm-quarantine-" || prefix == ".mm-extract-";
    }
  }

  predicate IsBlank(c: char) {
    c == ' ' || 0x09 <= c as int <= 0x0D || 0x1C <= c as int <= 0x1F
  }

  function StripLeft(s: string): string {
    if s != "" && IsBlank(s[0]) then StripLeft(s[1..]) else s
  }

  function StripRight(s: string): string {
    if s != "" && IsBlank(s[|s| - 1]) then StripRight(s[..|s| - 1]) else s
  }

  /** `Unreadable` is a marker that is not ASCII: reading it raises, and nothing catches that. */
  datatype Status = Incomplete | Complete | Unreadable

  /** What the text of a marker says about the container of this digest. */
  function MarkerStatus(text: string, digest: string): Status {
    if exists i | 0 <= i < |text| :: text[i] as int >= 0x80 then Unreadable
    else if StripRight(StripLeft(text)) == digest then Complete
    else Incomplete
  }

  function ContainerStatus(name: string, node: Node, hex: HexCheck): Status {
    var digest := DigestFromName(name, hex);
    if digest.None? || !node.Dir? then Incomplete
    else
      var marker := MARKER_PREFIX + digest.value;
      if marker !in node.children || !node.children[marker].File? then Incomplete
      else MarkerStatus(node.children[marker].content, digest.value)
  }

  // ------------------------------------------------------------------ what a marker has to read

  /** Only tabs, line ends, the separators 0x1C to 0x1F, and spaces. */
  predicate AllBlank(s: string) {
    forall i | 0 <= i < |s| :: s[i] as int in {0x09, 0x0A, 0x0B, 0x0C, 0x0D, 0x1C, 0x1D, 0x1E, 0x1F, 0x20}
  }

  predicate AllAscii(s: string) {
    forall i | 0 <= i < |s| :: s[i] as int < 0x80
  }

  /** The text is the digest, which has no blank at either end, with only blanks around it. */
  ghost predicate ReadsAs(text: string, digest: string) {
    && (digest != "" ==> !AllBlank(digest[..1]) && !AllBlank(digest[|digest| - 1..]))
    && exists before, after :: AllBlank(before) && AllBlank(after) && text == before + digest + after
  }

  /** A marker is valid exactly if it is ASCII and reads as the digest, and unreadable exactly if it is not ASCII. */
  lemma MarkerStatusIff(text: string, digest: string)
    ensures MarkerStatus(text, digest) == Complete <==> AllAscii(text) && ReadsAs(text, digest)
    ensures MarkerStatus(text, digest) == Unreadable <==> !AllAscii(text)
  {
    hide ReadsAs;
    var left := StripLeft(text);
    var before := StrippedLeft(text);
    var after := StrippedRight(left);
    if StripRight(left) == digest {
      StrippedReads(text, digest, before, after);
    }
    if ReadsAs(text, digest) {
      ReadsStripped(text, digest);
    }
  }

  lemma {:induction false} StrippedLeft(s: string) returns (before: string)
    ensures AllBlank(before) && s == before + StripLeft(s)
    ensures StripLeft(s) != "" ==> !AllBlank(StripLeft(s)[..1])
  {
    if s != "" && IsBlank(s[0]) {
      var more := StrippedLeft(s[1..]);
      before := [s[0]] + more;
    } else {
      before := "";
    }
  }

  lemma {:induction false} StrippedRight(s: string) returns (after: string)
    ensures AllBlank(after) && s == StripRight(s) + after
    ensures StripRight(s) != "" ==> !AllBlank(StripRight(s)[|StripRight(s)| - 1..])
  {
    if s == "" || !IsBlank(s[|s| - 1]) {
      after := "";
    } else {
      hide StripRight, AllBlank, IsBlank;
      var front, last := s[..|s| - 1], s[|s| - 1];
      StripRightMore(front, last);
      var more := StrippedRight(front);
      BlankMore(more, last);
      after := more + [last];
      assert s == front + [last] == StripRight(front) + more + [last] == StripRight(front) + after;
    }
  }

  lemma StripRightMore(front: string, last: char)
    requires IsBlank(last)
    ensures StripRight(front + [last]) == StripRight(front)
  {
    assert (front + [last])[..|front|] == front;
  }

  lemma BlankMore(blanks: string, last: char)
    requires AllBlank(blanks) && IsBlank(last)
    ensures AllBlank(blanks + [last])
  {
  }

  lemma StrippedReads(text: string, digest: string, before: string, after: string)
    requires AllBlank(before) && AllBlank(after)
    requires text == before + StripLeft(text) && StripLeft(text) == digest + after
    requires StripLeft(text) != "" ==> !AllBlank(StripLeft(text)[..1])
    requires digest != "" ==> !AllBlank(digest[|digest| - 1..])
    ensures ReadsAs(text, digest)
  {
    assert text == before + digest + after;
    if digest != "" {
      assert (digest + after)[..1] == digest[..1];
    }
  }

  lemma {:induction false} StripLeftBlanks(before: string, rest: string)
    requires AllBlank(before) && (rest != "" ==> !AllBlank(rest[..1]))
    ensures StripLeft(before + rest) == rest
  {
    if before != "" {
      StripLeftBlanks(before[1..], rest);
      assert (before + rest)[1..] == before[1..] + rest;
    } else {
      assert before + rest == rest;
    }
  }

  lemma {:induction false} StripRightBlanks(rest: string, after: string)
    requires AllBlank(after) && (rest != "" ==> !AllBlank(rest[|rest| - 1..]))
    ensures StripRight(rest + after) == rest
  {
    if after != "" {
      var front := after[..|after| - 1];
      StripRightBlanks(rest, front);
      assert (rest + after)[..|rest + after| - 1] == rest + front;
    } else {
      assert rest + after == rest;
    }
  }

  lemma BlankBoth(a: string, b: string)
    requires AllBlank(a) && AllBlank(b)
    ensures AllBlank(a + b)
  {
  }

  lemma NothingToStrip()
    ensures StripRight("") == ""
  {
  }

  lemma ReadsStripped(text: string, digest: string)
    requires ReadsAs(text, digest)
    ensures StripRight(StripLeft(text)) == digest
  {
    hide StripLeft, StripRight, AllBlank;
    var before, after :| AllBlank(before) && AllBlank(after) && text == before + digest + after;
    if digest == "" {
      BlankBoth(before, after);
      StripLeftBlanks(before + after, "");
      NothingToStrip();
      assert text == before + after + "";
    } else {
      assert text == before + (digest + after) && (digest + after)[..1] == digest[..1];
      StripLeftBlanks(before, digest + after);
      StripRightBlanks(digest, after);
    }
  }

  /** In the directory is a regular file named as the marker of this digest, with a valid text. */
  ghost predicate Marked(node: Node, digest: string) {
    && node.Dir? && ".mm-complete-" + digest in node.children
    && var marker := node.children[".mm-complete-" + digest];
       marker.File? && AllAscii(marker.content) && ReadsAs(marker.content, digest)
  }

  /** A container is complete exactly if it has the marker of the digest in its name. */
  lemma CompleteIff(name: string, node: Node, hex: HexCheck)
    ensures ContainerStatus(name, node, hex) == Complete <==>
      DigestFromName(name, hex).Some? && Marked(node, DigestFromName(name, hex).value)
  {
    hide MarkerStatus, ReadsAs, AllAscii, DigestFromName;
    var digest := DigestFromName(name, hex);
    if digest.Some? && node.Dir? && MARKER_PREFIX + digest.value in node.children
      && node.children[MARKER_PREFIX + digest.value].File?
    {
      MarkerStatusIff(node.children[MARKER_PREFIX + digest.value].content, digest.value);
    }
  }

  // ------------------------------------------------------------------ the specification

  predicate HasPayload(node: Node) {
    node.Dir? && PAYLOAD in node.children && node.children[PAYLOAD].Dir?
  }

  /** The file at `p` is to be listed when listing the directory with these children. */
  ghost predicate Listed(children: Children, p: Path, hex: HexCheck)
    decreases |p|, 0
  {
    p != [] && p[0] in children && ListedBelow(p[0], children[p[0]], p[1..], hex)
  }

  /** The same for one entry of a directory, `p` being what is left of the path below it. */
  ghost predicate ListedBelow(name: string, node: Node, p: Path, hex: HexCheck)
    decreases |p|, 1
  {
    match node
    case File(_) => p == []
    case Special => false
    case Dir(below) =>
      && !IsDebris(name)
      && if DigestFromName(name, hex).Some? then ListedInContainer(name, node, p, hex) else Listed(below, p, hex)
  }

  ghost predicate ListedInContainer(name: string, node: Node, p: Path, hex: HexCheck)
    decreases |p|, 0
  {
    && ContainerStatus(name, node, hex) == Complete && HasPayload(node)
    && p != [] && p[0] == PAYLOAD && Listed(node.children[PAYLOAD].children, p[1..], hex)
  }

  /** Listing these children comes across an unreadable marker. */
  ghost predicate Raises(node: Node, hex: HexCheck)
    decreases node, 0
  {
    node.Dir? && exists name | name in node.children :: RaisesAt(name, node.children[name], hex)
  }

  ghost predicate RaisesAt(name: string, node: Node, hex: HexCheck)
    decreases node, 1
  {
    && node.Dir? && !IsDebris(name)
    && if DigestFromName(name, hex).Some? then
         || ContainerStatus(name, node, hex) == Unreadable
         || (ContainerStatus(name, node, hex) == Complete && HasPayload(node) && Raises(node.children[PAYLOAD], hex))
       else Raises(node, hex)
  }

  /** Some container directly below the root is complete. */
  ghost predicate HoldsComplete(children: Children, hex: HexCheck) {
    exists name | name in children :: ContainerStatus(name, children[name], hex) == Complete
  }

  /** What listing the root must produce: complete containers there hide everything else. */
  ghost predicate ListedAtRoot(children: Children, p: Path, hex: HexCheck) {
    if HoldsComplete(children, hex) then
      p != [] && p[0] in children && ListedInContainer(p[0], children[p[0]], p[1..], hex)
    else Listed(children, p, hex)
  }

  ghost predicate RaisesAtRoot(children: Children, hex: HexCheck) {
    || (exists name | name in children :: ContainerStatus(name, children[name], hex) == Unreadable)
    || if HoldsComplete(children, hex) then
         exists name | name in children ::
           ContainerStatus(name, children[name], hex) == Complete && HasPayload(children[name])
           && Raises(children[name].children[PAYLOAD], hex)
       else Raises(Dir(children), hex)
  }

  // ------------------------------------------------------------------ the listing

  /** The names of a directory, sorted; the order in which they are enumerated is arbitrary. */
  method SortedNames(names: set<string>) returns (sorted: seq<string>)
    ensures StrictlySortedBy(sorted, Identity)
    ensures forall n :: n in sorted <==> n in names
  {
    var rest, found: seq<string> := names, [];
    while rest != {}
      invariant forall n :: n in names <==> n in rest || n in found
      invariant forall n | n in found :: n !in rest
      invariant Distinct(found)
      decreases |rest|
    {
      var n :| n in rest;
      rest, found := rest - {n}, found + [n];
    }
    sorted := Sort(found, Identity);
    SortedDistinct(found);
  }

  lemma SortedDistinct(names: seq<string>)
    requires Distinct(names)
    ensures StrictlySortedBy(Sort(names, Identity), Identity)
    ensures forall n :: n in Sort(names, Identity) <==> n in names
  {
    SortMembers(names, Identity);
    SortSorted(names, Identity);
    var sorted := Sort(names, Identity);
    SameMembers(sorted, names);
    DistinctPermuted(names, sorted);
    DistinctStrict(sorted, Identity);
  }

  // ------------------------------------------------------------------ sorted lists of paths

  ghost predicate PathLess(a: Path, b: Path) {
    b != [] && (a == [] || Less(a[0], b[0]) || (a[0] == b[0] && PathLess(a[1..], b[1..])))
  }

  ghost predicate SortedPaths(ps: seq<Path>) {
    forall i, j | 0 <= i < j < |ps| :: PathLess(ps[i], ps[j])
  }

  lemma {:induction false} PathLessIrreflexive(a: Path)
    ensures !PathLess(a, a)
  {
    if a != [] {
      LessIrreflexive(a[0]);
      PathLessIrreflexive(a[1..]);
    }
  }

  lemma {:induction false} PathLessTransitive(a: Path, b: Path, c: Path)
    requires PathLess(a, b) && PathLess(b, c)
    ensures PathLess(a, c)
  {
    if a != [] {
      if a[0] == b[0] == c[0] {
        LessIrreflexive(a[0]);
        PathLessTransitive(a[1..], b[1..], c[1..]);
      } else if Less(a[0], b[0]) && Less(b[0], c[0]) {
        LessTransitive(a[0], b[0], c[0]);
      }
    }
  }

  lemma {:induction false} PathLessUnder(prefix: Path, a: Path, b: Path)
    requires PathLess(a, b)
    ensures PathLess(prefix + a, prefix + b)
  {
    if prefix != [] {
      PathLessUnder(prefix[1..], a, b);
      assert (prefix + a)[1..] == prefix[1..] + a && (prefix + b)[1..] == prefix[1..] + b;
    } else {
      assert prefix + a == a && prefix + b == b;
    }
  }

  /** A sorted list has no duplicates and is determined by its members. */
  lemma SortedPathsDistinct(ps: seq<Path>)
    requires SortedPaths(ps)
    ensures Distinct(ps)
  {
    forall i, j | 0 <= i < j < |ps| ensures ps[i] != ps[j] {
      PathLessIrreflexive(ps[i]);
    }
  }

  lemma {:induction false} SortedPathsUnique(xs: seq<Path>, ys: seq<Path>)
    requires SortedPaths(xs) && SortedPaths(ys) && forall p :: p in xs <==> p in ys
    ensures xs == ys
  {
    assert ys != [] ==> ys[0] in ys;
    if xs != [] {
      assert xs[0] in xs;
      SamePathHead(xs, ys);
      forall p ensures p in xs[1..] <==> p in ys[1..] {
        PathTailMember(xs, p);
        PathTailMember(ys, p);
      }
      SortedPathsUnique(xs[1..], ys[1..]);
      assert xs == [xs[0]] + xs[1..] && ys == [ys[0]] + ys[1..];
    }
  }

  lemma SamePathHead(xs: seq<Path>, ys: seq<Path>)
    requires SortedPaths(xs) && SortedPaths(ys) && xs != [] && ys != []
    requires xs[0] in ys && ys[0] in xs
    ensures xs[0] == ys[0]
  {
    var i :| 0 <= i < |ys| && ys[i] == xs[0];
    var j :| 0 <= j < |xs| && xs[j] == ys[0];
    if i > 0 && j > 0 {
      PathLessTransitive(xs[0], xs[j], ys[i]);
      PathLessIrreflexive(xs[0]);
    }
  }

  lemma PathTailMember(xs: seq<Path>, p: Path)
    requires SortedPaths(xs) && xs != []
    ensures p in xs[1..] <==> p in xs && p != xs[0]
  {
    PathLessIrreflexive(xs[0]);
    if p in xs[1..] {
      var i :| 0 <= i < |xs[1..]| && xs[1..][i] == p;
      assert PathLess(xs[0], xs[i + 1]);
    }
    if p in xs && p != xs[0] {
      var i :| 0 <= i < |xs| && xs[i] == p;
      assert xs[1..][i - 1] == p;
    }
  }

  lemma SortedConcat(a: seq<Path>, b: seq<Path>)
    requires SortedPaths(a) && SortedPaths(b)
    requires forall p, q | p in a && q in b :: PathLess(p, q)
    ensures SortedPaths(a + b)
  {
    hide PathLess;
    var all := a + b;
    forall i, j | 0 <= i < j < |all| ensures PathLess(all[i], all[j]) {
      if i < |a| <= j {
        assert all[i] in a && all[j] in b;
      }
    }
  }

  // ------------------------------------------------------------------ collecting

  /** `found` lists, in order, the files to be offered from one entry at `at`. */
  ghost predicate ListsBelow(name: string, node: Node, at: Path, found: seq<Path>, hex: HexCheck) {
    && SortedPaths(found)
    && forall p :: p in found <==> at <= p && ListedBelow(name, node, p[|at|..], hex)
  }

  /** `found` lists, in order, the files to be offered from those entries at `at` named in `names`. */
  ghost predicate ListsNames(children: Children, names: seq<string>, at: Path, found: seq<Path>, hex: HexCheck) {
    && SortedPaths(found)
    && forall p :: p in found <==> at <= p && |at| < |p| && p[|at|] in names && Listed(children, p[|at|..], hex)
  }

  ghost predicate Lists(children: Children, at: Path, found: seq<Path>, hex: HexCheck) {
    && SortedPaths(found)
    && forall p :: p in found <==> at <= p && Listed(children, p[|at|..], hex)
  }

  lemma ListsNone(children: Children, at: Path, hex: HexCheck)
    ensures ListsNames(children, [], at, [], hex)
  {
  }

  /** One more entry, later in name order than all before it. */
  lemma ListsNext(
    children: Children, names: seq<string>, name: string, at: Path, found: seq<Path>, more: seq<Path>, hex: HexCheck)
    requires ListsNames(children, names, at, found, hex) && name in children
    requires ListsBelow(name, children[name], at + [name], more, hex)
    requires forall n | n in names :: Less(n, name)
    ensures ListsNames(children, names + [name], at, found + more, hex)
  {
    hide ListedBelow, Less, Listed, SortedPaths, PathLess, ListsBelow;
    assert SortedPaths(more) by { MoreSorted(children, name, at, more, hex); }
    forall p ensures p in more <==> at <= p && |at| < |p| && p[|at|] == name && Listed(children, p[|at|..], hex) {
      OneName(children, name, at, more, p, hex);
    }
    forall p, q | p in found && q in more ensures PathLess(p, q) {
      LaterName(at, p, q);
    }
    SortedConcat(found, more);
  }

  lemma MoreSorted(children: Children, name: string, at: Path, more: seq<Path>, hex: HexCheck)
    requires name in children && ListsBelow(name, children[name], at + [name], more, hex)
    ensures SortedPaths(more)
  {
    hide ListedBelow, SortedPaths;
  }

  lemma LaterName(at: Path, p: Path, q: Path)
    requires at <= p && at <= q && |at| < |p| && |at| < |q| && Less(p[|at|], q[|at|])
    ensures PathLess(p, q)
  {
    hide Less;
    var a, b := p[|at|..], q[|at|..];
    assert p == at + a && q == at + b && PathLess(a, b);
    PathLessUnder(at, a, b);
  }

  lemma OneName(children: Children, name: string, at: Path, more: seq<Path>, p: Path, hex: HexCheck)
    requires name in children && ListsBelow(name, children[name], at + [name], more, hex)
    ensures p in more <==> at <= p && |at| < |p| && p[|at|] == name && Listed(children, p[|at|..], hex)
  {
    hide ListedBelow, SortedPaths;
    if at + [name] <= p {
      assert p[|at|] == name && p[|at|..][1..] == p[|at + [name]|..];
    }
    if at <= p && |at| < |p| && p[|at|] == name {
      assert at + [name] <= p;
      assert p[|at|..][0] == name && p[|at|..][1..] == p[|at + [name]|..];
    }
  }

  lemma ListsAll(children: Children, names: seq<string>, at: Path, found: seq<Path>, hex: HexCheck)
    requires ListsNames(children, names, at, found, hex) && forall n :: n in names <==> n in children
    ensures Lists(children, at, found, hex)
  {
    hide ListedBelow;
    forall p ensures p in found <==> at <= p && Listed(children, p[|at|..], hex) {
      if at <= p && Listed(children, p[|at|..], hex) {
        assert p[|at|..][0] == p[|at|];
      }
    }
  }

  method CollectImportableFiles(node: Node, at: Path, hex: HexCheck, results: seq<Path>)
    returns (ok: bool, out: seq<Path>, ghost found: seq<Path>)
    requires node.Dir?
    ensures ok <==> !Raises(node, hex)
    ensures ok ==> out == results + found && Lists(node.children, at, found, hex)
    decreases node, 0
  {
    hide *;
    out, found := results, [];
    var children := node.children;
    var entries := SortedNames(children.Keys);
    ghost var done: seq<string> := [];
    ListsNone(children, at, hex);
    NothingYet(children, hex);
    for k := 0 to |entries|
      invariant done == entries[..k]
      invariant out == results + found
      invariant ListsNames(children, done, at, found, hex)
      invariant NoneRaises(children, done, hex)
    {
      var name := entries[k];
      assert name in entries;
      ghost var more;
      ok, out, more := CollectEntry(name, children[name], at + [name], hex, out);
      if !ok {
        RaisesThere(node, name, hex);
        return;
      }
      EarlierLess(entries, k);
      ListsNext(children, done, name, at, found, more, hex);
      NoneRaisesNext(children, done, name, hex);
      done, found := done + [name], found + more;
    }
    ListsAll(children, done, at, found, hex);
    NothingRaises(node, done, hex);
    return true, out, found;
  }

  ghost predicate NoneRaises(children: Children, names: seq<string>, hex: HexCheck) {
    forall n | n in names :: n in children && !RaisesAt(n, children[n], hex)
  }

  lemma NothingYet(children: Children, hex: HexCheck)
    ensures NoneRaises(children, [], hex)
  {
    hide RaisesAt;
  }

  lemma NoneRaisesNext(children: Children, names: seq<string>, name: string, hex: HexCheck)
    requires NoneRaises(children, names, hex) && name in children && !RaisesAt(name, children[name], hex)
    ensures NoneRaises(children, names + [name], hex)
  {
    hide RaisesAt;
  }

  lemma RaisesThere(node: Node, name: string, hex: HexCheck)
    requires node.Dir? && name in node.children && RaisesAt(name, node.children[name], hex)
    ensures Raises(node, hex)
  {
    hide RaisesAt;
  }

  lemma NothingRaises(node: Node, entries: seq<string>, hex: HexCheck)
    requires node.Dir? && (forall n :: n in entries <==> n in node.children)
    requires NoneRaises(node.children, entries, hex)
    ensures !Raises(node, hex)
  {
    hide RaisesAt;
  }

  lemma EarlierLess(entries: seq<string>, k: nat)
    requires StrictlySortedBy(entries, Identity) && k < |entries|
    ensures forall n | n in entries[..k] :: Less(n, entries[k])
  {
    hide Less;
    forall n | n in entries[..k] ensures Less(n, entries[k]) {
      var i :| 0 <= i < k && entries[i] == n;
      assert Less(Identity(entries[i]), Identity(entries[k]));
    }
  }

  method CollectEntry(name: string, node: Node, at: Path, hex: HexCheck, results: seq<Path>)
    returns (ok: bool, out: seq<Path>, ghost found: seq<Path>)
    ensures ok <==> !RaisesAt(name, node, hex)
    ensures ok ==> out == results + found && ListsBelow(name, node, at, found, hex)
    decreases node, 1
  {
    hide IsDebris, DigestFromName, ContainerStatus, Lists, PathLess;
    ok, out, found := true, results, [];
    match node {
      case Special =>
      case File(_) =>
        out, found := results + [at], [at];
        assert forall p | at <= p && p[|at|..] == [] :: p == at;
      case Dir(below) =>
        if IsDebris(name) { return; }
        if DigestFromName(name, hex).Some? {
          ok, out, found := CollectContainer(name, node, at, hex, results);
          return;
        }
        ok, out, found := CollectImportableFiles(node, at, hex, results);
        if ok {
          ListsToBelow(name, node, at, found, hex);
        }
    }
  }

  lemma ListsToBelow(name: string, node: Node, at: Path, found: seq<Path>, hex: HexCheck)
    requires node.Dir? && !IsDebris(name) && DigestFromName(name, hex).None?
    requires Lists(node.children, at, found, hex)
    ensures ListsBelow(name, node, at, found, hex)
  {
    hide Listed, IsDebris;
  }

  /** A container is entered through its payload when it is complete, and skipped otherwise. */
  method CollectContainer(name: string, node: Node, at: Path, hex: HexCheck, results: seq<Path>)
    returns (ok: bool, out: seq<Path>, ghost found: seq<Path>)
    requires node.Dir? && !IsDebris(name) && DigestFromName(name, hex).Some?
    ensures ok <==> !RaisesAt(name, node, hex)
    ensures ok ==> out == results + found && ListsContainer(name, node, at, found, hex)
    ensures ok ==> ListsBelow(name, node, at, found, hex)
    decreases node, 0
  {
    hide IsDebris, DigestFromName, ContainerStatus, Lists, Listed;
    var status := ContainerStatus(name, node, hex);
    if status == Unreadable { return false, results, []; }
    if status == Complete && HasPayload(node) {
      ok, out, found := CollectImportableFiles(node.children[PAYLOAD], at + [PAYLOAD], hex, results);
      if ok {
        ListsThroughPayload(name, node, at, found, hex);
      }
      return;
    }
    return true, results, [];
  }

  ghost predicate ListsContainer(name: string, node: Node, at: Path, found: seq<Path>, hex: HexCheck) {
    && SortedPaths(found)
    && forall p :: p in found <==> at <= p && ListedInContainer(name, node, p[|at|..], hex)
  }

  lemma ListsThroughPayload(name: string, node: Node, at: Path, found: seq<Path>, hex: HexCheck)
    requires ContainerStatus(name, node, hex) == Complete && HasPayload(node)
    requires Lists(node.children[PAYLOAD].children, at + [PAYLOAD], found, hex)
    ensures ListsContainer(name, node, at, found, hex)
  {
    hide Listed, ContainerStatus;
    forall p ensures p in found <==> at <= p && ListedInContainer(name, node, p[|at|..], hex) {
      if at + [PAYLOAD] <= p {
        assert p[|at|..][0] == PAYLOAD && p[|at|..][1..] == p[|at + [PAYLOAD]|..];
      }
      if at <= p && ListedInContainer(name, node, p[|at|..], hex) {
        assert p[|at|] == PAYLOAD;
        assert at + [PAYLOAD] <= p && p[|at|..][1..] == p[|at + [PAYLOAD]|..];
      }
    }
  }

  // ------------------------------------------------------------------ the root

  /** The complete containers among the entries, by name; the entries are enumerated in any order. */
  method CompleteContainers(children: Children, hex: HexCheck) returns (ok: bool, complete: seq<string>)
    ensures ok <==> forall n | n in children :: ContainerStatus(n, children[n], hex) != Unreadable
    ensures ok ==> StrictlySortedBy(complete, Identity)
    ensures ok ==> forall n :: n in complete <==> n in children && ContainerStatus(n, children[n], hex) == Complete
  {
    hide ContainerStatus, StrictlySortedBy, Sort;
    var rest, found: seq<string> := children.Keys, [];
    while rest != {}
      invariant rest <= children.Keys && Distinct(found)
      invariant forall n | n in children && n !in rest :: ContainerStatus(n, children[n], hex) != Unreadable
      invariant forall n :: n in found <==>
        n in children && n !in rest && ContainerStatus(n, children[n], hex) == Complete
      decreases |rest|
    {
      var n :| n in rest;
      var status := ContainerStatus(n, children[n], hex);
      if status == Unreadable { return false, []; }
      if status == Complete { found := found + [n]; }
      rest := rest - {n};
    }
    SortedDistinct(found);
    return true, Sort(found, Identity);
  }

  /** `found` lists, in order, what the containers in `names` offer. */
  ghost predicate ListsContainers(children: Children, names: seq<string>, found: seq<Path>, hex: HexCheck) {
    && SortedPaths(found)
    && forall p :: p in found <==>
         p != [] && p[0] in names && p[0] in children && ListedInContainer(p[0], children[p[0]], p[1..], hex)
  }

  lemma NoContainers(children: Children, hex: HexCheck)
    ensures ListsContainers(children, [], [], hex)
  {
    hide ListedInContainer, PathLess;
  }

  lemma ContainersNext(
    children: Children, names: seq<string>, name: string, found: seq<Path>, more: seq<Path>, hex: HexCheck)
    requires ListsContainers(children, names, found, hex) && name in children
    requires ListsContainer(name, children[name], [name], more, hex)
    requires forall n | n in names :: Less(n, name)
    ensures ListsContainers(children, names + [name], found + more, hex)
  {
    hide ListedInContainer, Less, SortedPaths, PathLess;
    forall p ensures p in more <==> p != [] && p[0] == name && ListedInContainer(name, children[name], p[1..], hex) {
      if p != [] && p[0] == name {
        assert [name] <= p && p[1..] == p[|[name]|..];
      }
    }
    forall p, q | p in found && q in more ensures PathLess(p, q) {
      LaterName([], p, q);
    }
    SortedConcat(found, more);
  }

  /** The files below one complete container at the root. */
  method CollectPayload(name: string, node: Node, hex: HexCheck, results: seq<Path>)
    returns (ok: bool, out: seq<Path>, ghost found: seq<Path>)
    requires ContainerStatus(name, node, hex) == Complete
    ensures ok <==> !(HasPayload(node) && Raises(node.children[PAYLOAD], hex))
    ensures ok ==> out == results + found && ListsContainer(name, node, [name], found, hex)
  {
    hide ContainerStatus, Lists, Listed, Raises;
    if HasPayload(node) {
      ok, out, found := CollectImportableFiles(node.children[PAYLOAD], [name] + [PAYLOAD], hex, results);
      if ok {
        ListsThroughPayload(name, node, [name], found, hex);
      }
      return;
    }
    return true, results, [];
  }

  /**
   * The listing is exactly what is to be listed, each file once and in path order, unless a marker
   * cannot be read, and then it fails.
   */
  method ListImportableFiles(root: Node, hex: HexCheck) returns (ok: bool, out: seq<Path>)
    requires root.Dir?
    ensures ok <==> !RaisesAtRoot(root.children, hex)
    ensures ok ==> SortedPaths(out) && Distinct(out)
    ensures ok ==> forall p :: p in out <==> ListedAtRoot(root.children, p, hex)
    ensures ok ==> forall p, digest | p in out && |p| > 1 && DigestFromName(p[0], hex) == Some(digest) ::
      p[0] in root.children && Marked(root.children[p[0]], digest)
    ensures ok ==> forall p, name | p in out && name in root.children && DigestFromName(name, hex).Some?
      && Marked(root.children[name], DigestFromName(name, hex).value) :: |p| > 1 && DigestFromName(p[0], hex).Some?
  {
    hide *;
    MarkersDecide(root, hex);
    var children := root.children;
    var complete;
    ok, complete := CompleteContainers(children, hex);
    if !ok {
      RootUnreadable(children, hex);
      return false, [];
    }
    if complete != [] {
      ok, out := CollectComplete(children, complete, hex);
      return;
    }
    ghost var found;
    ok, out, found := CollectImportableFiles(root, [], hex, []);
    WholeRoot(root, found, hex);
    assert ok ==> out == found;
  }

  method CollectComplete(children: Children, complete: seq<string>, hex: HexCheck) returns (ok: bool, out: seq<Path>)
    requires StrictlySortedBy(complete, Identity) && complete != []
    requires forall n :: n in complete <==> n in children && ContainerStatus(n, children[n], hex) == Complete
    requires forall n | n in children :: ContainerStatus(n, children[n], hex) != Unreadable
    ensures ok <==> !RaisesAtRoot(children, hex)
    ensures ok ==> SortedPaths(out) && Distinct(out)
    ensures ok ==> forall p :: p in out <==> ListedAtRoot(children, p, hex)
  {
    hide *;
    out := [];
    ghost var done: seq<string> := [];
    NoContainers(children, hex);
    NonePayloadRaisesYet(children, hex);
    for k := 0 to |complete|
      invariant done == complete[..k]
      invariant ListsContainers(children, done, out, hex)
      invariant NoPayloadRaises(children, done, hex)
    {
      var name := complete[k];
      assert name in complete;
      ghost var more;
      ghost var before := out;
      ok, out, more := CollectPayload(name, children[name], hex, out);
      if !ok {
        RootRaises(children, name, hex);
        return;
      }
      EarlierLess(complete, k);
      ContainersNext(children, done, name, before, more, hex);
      NoPayloadRaisesNext(children, done, name, hex);
      done := done + [name];
    }
    assert done == complete;
    RootContainers(children, complete, out, hex);
    return true, out;
  }

  ghost predicate NoPayloadRaises(children: Children, names: seq<string>, hex: HexCheck) {
    forall n | n in names ::
      n in children && !(HasPayload(children[n]) && Raises(children[n].children[PAYLOAD], hex))
  }

  lemma NonePayloadRaisesYet(children: Children, hex: HexCheck)
    ensures NoPayloadRaises(children, [], hex)
  {
    hide Raises;
  }

  lemma NoPayloadRaisesNext(children: Children, names: seq<string>, name: string, hex: HexCheck)
    requires NoPayloadRaises(children, names, hex) && name in children
    requires !(HasPayload(children[name]) && Raises(children[name].children[PAYLOAD], hex))
    ensures NoPayloadRaises(children, names + [name], hex)
  {
    hide Raises, HasPayload;
  }

  lemma RootUnreadable(children: Children, hex: HexCheck)
    requires exists n | n in children :: ContainerStatus(n, children[n], hex) == Unreadable
    ensures RaisesAtRoot(children, hex)
  {
    hide ContainerStatus, Raises, HasPayload;
  }

  lemma RootRaises(children: Children, name: string, hex: HexCheck)
    requires name in children && ContainerStatus(name, children[name], hex) == Complete
    requires HasPayload(children[name]) && Raises(children[name].children[PAYLOAD], hex)
    ensures RaisesAtRoot(children, hex)
  {
    hide ContainerStatus, Raises;
    assert HoldsComplete(children, hex);
  }

  lemma RootContainers(children: Children, complete: seq<string>, out: seq<Path>, hex: HexCheck)
    requires complete != [] && ListsContainers(children, complete, out, hex) && NoPayloadRaises(children, complete, hex)
    requires forall n :: n in complete <==> n in children && ContainerStatus(n, children[n], hex) == Complete
    requires forall n | n in children :: ContainerStatus(n, children[n], hex) != Unreadable
    ensures !RaisesAtRoot(children, hex)
    ensures SortedPaths(out) && Distinct(out)
    ensures forall p :: p in out <==> ListedAtRoot(children, p, hex)
  {
    hide ContainerStatus, Raises, HasPayload, SortedPaths, Listed, Distinct;
    assert complete[0] in complete;
    SortedPathsDistinct(out);
  }

  lemma WholeRoot(root: Node, found: seq<Path>, hex: HexCheck)
    requires root.Dir?
    requires forall n | n in root.children :: ContainerStatus(n, root.children[n], hex) == Incomplete
    ensures RaisesAtRoot(root.children, hex) <==> Raises(root, hex)
    ensures Lists(root.children, [], found, hex) ==> SortedPaths(found) && Distinct(found)
    ensures Lists(root.children, [], found, hex) ==> forall p :: p in found <==> ListedAtRoot(root.children, p, hex)
  {
    hide ContainerStatus, Raises, HasPayload, SortedPaths, Listed, Distinct;
    assert root == Dir(root.children);
    if Lists(root.children, [], found, hex) {
      SortedPathsDistinct(found);
      forall p ensures p in found <==> ListedAtRoot(root.children, p, hex) {
        assert p[0..] == p;
      }
    }
  }

  // ------------------------------------------------------------------ the policy, ancestor by ancestor

  function NodeAt(node: Node, p: Path): Option<Node> {
    if p == [] then Some(node)
    else if node.Dir? && p[0] in node.children then NodeAt(node.children[p[0]], p[1..])
    else None
  }

  /**
   * The `i`-th directory on the way to `p` may be entered: it is not debris, and if it is named like
   * a container then it is a complete one and the path goes on through its payload directory.
   */
  ghost predicate MayEnter(root: Node, p: Path, i: nat, hex: HexCheck)
    requires i + 1 < |p|
  {
    var here := NodeAt(root, p[..i + 1]);
    && !IsDebris(p[i])
    && (DigestFromName(p[i], hex).Some? ==>
          && here.Some? && ContainerStatus(p[i], here.value, hex) == Complete
          && p[i + 1] == PAYLOAD && HasPayload(here.value))
  }

  ghost predicate MayEnterAll(root: Node, p: Path, hex: HexCheck) {
    forall i | 0 <= i < |p| - 1 :: MayEnter(root, p, i, hex)
  }

  ghost predicate IsFileAt(root: Node, p: Path) {
    p != [] && NodeAt(root, p).Some? && NodeAt(root, p).value.File?
  }

  lemma MayEnterShift(root: Node, p: Path, i: nat, hex: HexCheck)
    requires i + 2 < |p| && root.Dir? && p[0] in root.children
    ensures MayEnter(root, p, i + 1, hex) <==> MayEnter(root.children[p[0]], p[1..], i, hex)
  {
    hide IsDebris, DigestFromName, ContainerStatus, HasPayload;
    assert p[..i + 2][1..] == p[1..][..i + 1];
  }

  lemma MayEnterStep(root: Node, p: Path, hex: HexCheck)
    requires |p| > 1 && root.Dir? && p[0] in root.children
    ensures MayEnterAll(root, p, hex) <==> MayEnter(root, p, 0, hex) && MayEnterAll(root.children[p[0]], p[1..], hex)
  {
    hide MayEnter;
    var below := root.children[p[0]];
    if MayEnterAll(root, p, hex) {
      forall i | 0 <= i < |p[1..]| - 1 ensures MayEnter(below, p[1..], i, hex) {
        MayEnterShift(root, p, i, hex);
      }
    }
    if MayEnter(root, p, 0, hex) && MayEnterAll(below, p[1..], hex) {
      forall i | 0 <= i < |p| - 1 ensures MayEnter(root, p, i, hex) {
        if i > 0 {
          assert MayEnter(below, p[1..], i - 1, hex);
          MayEnterShift(root, p, i - 1, hex);
        }
      }
    }
  }

  lemma FirstEntered(root: Node, p: Path, hex: HexCheck)
    requires |p| > 1 && root.Dir? && p[0] in root.children
    ensures MayEnter(root, p, 0, hex) <==>
      && !IsDebris(p[0])
      && (DigestFromName(p[0], hex).Some? ==>
            && ContainerStatus(p[0], root.children[p[0]], hex) == Complete
            && p[1] == PAYLOAD && HasPayload(root.children[p[0]]))
  {
    hide IsDebris, DigestFromName, ContainerStatus, HasPayload;
    var below := root.children[p[0]];
    assert p[..1][1..] == [] && NodeAt(below, []) == Some(below);
  }

  lemma PayloadListed(below: Children, p: Path, hex: HexCheck)
    requires p != [] && p[0] == PAYLOAD && PAYLOAD in below && below[PAYLOAD].Dir?
    ensures Listed(below, p, hex) <==> Listed(below[PAYLOAD].children, p[1..], hex)
  {
    hide IsDebris, DigestFromName;
    PlainPayload(hex);
  }

  lemma PlainPayload(hex: HexCheck)
    ensures !IsDebris(PAYLOAD) && DigestFromName(PAYLOAD, hex).None?
  {
    assert PAYLOAD[0] == 'p' && CONTAINER_PREFIX[0] == '.';
    assert forall prefix | prefix in DEBRIS_PREFIXES :: prefix[0] == '.';
  }

  /** One step down: through a file, a plain directory or a complete container. */
  lemma ListedStep(root: Node, p: Path, hex: HexCheck)
    requires root.Dir? && p != [] && p[0] in root.children
    ensures |p| == 1 ==> (Listed(root.children, p, hex) <==> root.children[p[0]].File?)
    ensures |p| > 1 ==> (Listed(root.children, p, hex) <==>
      root.children[p[0]].Dir? && MayEnter(root, p, 0, hex) && Listed(root.children[p[0]].children, p[1..], hex))
  {
    hide IsDebris, DigestFromName, ContainerStatus, MayEnter, Listed, ListedInContainer;
    var node := root.children[p[0]];
    ListedHead(root.children, p, hex);
    if |p| > 1 {
      FirstEntered(root, p, hex);
      ThroughPayload(p[0], node, p[1..], hex);
    } else if node.Dir? {
      ListedEmpty(node.children, p[1..], hex);
      ThroughPayload(p[0], node, p[1..], hex);
    }
  }

  lemma ListedHead(children: Children, p: Path, hex: HexCheck)
    requires p != [] && p[0] in children
    ensures Listed(children, p, hex) <==> ListedBelow(p[0], children[p[0]], p[1..], hex)
  {
    hide ListedBelow;
  }

  lemma ThroughPayload(name: string, node: Node, p: Path, hex: HexCheck)
    ensures ListedInContainer(name, node, p, hex) <==>
      ContainerStatus(name, node, hex) == Complete && HasPayload(node) && p != [] && p[0] == PAYLOAD
      && Listed(node.children, p, hex)
  {
    hide Listed, ContainerStatus;
    if HasPayload(node) && p != [] && p[0] == PAYLOAD {
      PayloadListed(node.children, p, hex);
    }
  }

  lemma FileBelow(root: Node, p: Path)
    requires p != [] && root.Dir? && p[0] in root.children
    ensures |p| == 1 ==> (IsFileAt(root, p) <==> root.children[p[0]].File?)
    ensures |p| > 1 ==> (IsFileAt(root, p) <==> root.children[p[0]].Dir? && IsFileAt(root.children[p[0]], p[1..]))
  {
    var below := root.children[p[0]];
    assert NodeAt(root, p) == NodeAt(below, p[1..]);
    assert NodeAt(below, []) == Some(below);
    if |p| == 1 {
      assert p[1..] == [];
    }
  }

  /** A file is listed exactly when every directory on the way to it may be entered. */
  lemma {:induction false} ListedIffEntered(root: Node, p: Path, hex: HexCheck)
    requires root.Dir?
    ensures Listed(root.children, p, hex) <==> IsFileAt(root, p) && MayEnterAll(root, p, hex)
    decreases |p|
  {
    hide ListedBelow, IsFileAt, MayEnter;
    if p == [] || p[0] !in root.children {
      assert !IsFileAt(root, p) by { NoFile(root, p); }
      return;
    }
    ListedStep(root, p, hex);
    FileBelow(root, p);
    if |p| > 1 {
      MayEnterStep(root, p, hex);
      if root.children[p[0]].Dir? {
        ListedIffEntered(root.children[p[0]], p[1..], hex);
      }
    }
  }

  lemma NoFile(root: Node, p: Path)
    requires root.Dir? && (p == [] || p[0] !in root.children)
    ensures !IsFileAt(root, p)
  {
  }

  /** At the root the same holds, except that complete containers there hide all other files. */
  lemma ListedAtRootIff(root: Node, p: Path, hex: HexCheck)
    requires root.Dir?
    ensures ListedAtRoot(root.children, p, hex) <==>
      && IsFileAt(root, p) && MayEnterAll(root, p, hex)
      && (HoldsComplete(root.children, hex) ==> |p| > 1 && DigestFromName(p[0], hex).Some?)
  {
    hide IsFileAt, MayEnterAll, HoldsComplete, Listed, ContainerStatus, DigestFromName, IsDebris;
    ListedIffEntered(root, p, hex);
    if p == [] || p[0] !in root.children {
      ListedEmpty(root.children, p, hex);
    } else {
      ContainerIsListed(root.children, p, hex);
    }
  }

  lemma ListedEmpty(children: Children, p: Path, hex: HexCheck)
    requires p == [] || p[0] !in children
    ensures !Listed(children, p, hex)
  {
  }

  lemma ContainerIsListed(children: Children, p: Path, hex: HexCheck)
    requires p != [] && p[0] in children
    ensures ListedInContainer(p[0], children[p[0]], p[1..], hex) <==>
      |p| > 1 && DigestFromName(p[0], hex).Some? && Listed(children, p, hex)
  {
    CompleteIsContainer(p[0], children[p[0]], hex);
    hide ContainerStatus, DigestFromName, IsDebris;
  }

  lemma CompleteIsContainer(name: string, node: Node, hex: HexCheck)
    ensures ContainerStatus(name, node, hex) == Complete ==> DigestFromName(name, hex).Some? && node.Dir?
    ensures DigestFromName(name, hex).Some? ==> !IsDebris(name)
  {
    if CONTAINER_PREFIX <= name {
      forall prefix | prefix in DEBRIS_PREFIXES ensures !(prefix <= name) {
        assert name[4] == CONTAINER_PREFIX[4] && prefix[4] != CONTAINER_PREFIX[4];
      }
    }
  }

  /** At `q` is a container that listing gets to and whose marker cannot be read. */
  ghost predicate UnreadableAt(root: Node, q: Path, hex: HexCheck) {
    && q != [] && NodeAt(root, q).Some? && MayEnterAll(root, q, hex)
    && ContainerStatus(q[|q| - 1], NodeAt(root, q).value, hex) == Unreadable
  }

  lemma UnreadableStep(root: Node, q: Path, hex: HexCheck)
    requires root.Dir? && q != [] && q[0] in root.children
    ensures |q| == 1 ==>
      (UnreadableAt(root, q, hex) <==> ContainerStatus(q[0], root.children[q[0]], hex) == Unreadable)
    ensures |q| > 1 ==>
      (UnreadableAt(root, q, hex) <==> MayEnter(root, q, 0, hex) && UnreadableAt(root.children[q[0]], q[1..], hex))
  {
    hide MayEnter, ContainerStatus;
    var below := root.children[q[0]];
    assert NodeAt(root, q) == NodeAt(below, q[1..]);
    if |q| == 1 {
      assert NodeAt(below, []) == Some(below) && q[1..] == [];
    } else {
      MayEnterStep(root, q, hex);
    }
  }

  lemma NotUnreadable(name: string, node: Node, hex: HexCheck)
    requires DigestFromName(name, hex).None? || !node.Dir?
    ensures ContainerStatus(name, node, hex) == Incomplete
  {
  }

  /** What is met through a complete container is met in its payload. */
  lemma UnreadableInPayload(node: Node, q: Path, hex: HexCheck)
    requires HasPayload(node) && q != [] && q[0] == PAYLOAD
    ensures UnreadableAt(node, q, hex) <==> UnreadableAt(node.children[PAYLOAD], q[1..], hex)
  {
    hide UnreadableAt, MayEnter, ContainerStatus, DigestFromName, IsDebris;
    PlainPayload(hex);
    UnreadableStep(node, q, hex);
    if |q| > 1 {
      FirstEntered(node, q, hex);
    } else {
      assert q[1..] == [];
      NotUnreadable(PAYLOAD, node.children[PAYLOAD], hex);
      NothingUnreadable(node.children[PAYLOAD], hex);
    }
  }

  lemma NothingUnreadable(root: Node, hex: HexCheck)
    ensures !UnreadableAt(root, [], hex)
  {
  }

  /** A marker that is met makes the listing fail. */
  lemma {:induction false} UnreadableRaises(root: Node, q: Path, hex: HexCheck)
    requires UnreadableAt(root, q, hex)
    ensures Raises(root, hex)
    decreases |q|
  {
    hide MayEnter, MayEnterAll, ContainerStatus, DigestFromName, IsDebris;
    var name := q[0];
    assert root.Dir? && name in root.children;
    var below := root.children[name];
    UnreadableStep(root, q, hex);
    CompleteIsContainer(name, below, hex);
    if |q| == 1 {
      StatusNeedsName(name, below, hex);
    } else {
      FirstEntered(root, q, hex);
      if DigestFromName(name, hex).Some? {
        UnreadableInPayload(below, q[1..], hex);
        UnreadableRaises(below.children[PAYLOAD], q[1..][1..], hex);
      } else {
        UnreadableRaises(below, q[1..], hex);
      }
    }
    assert RaisesAt(name, below, hex);
  }

  lemma StatusNeedsName(name: string, node: Node, hex: HexCheck)
    ensures ContainerStatus(name, node, hex) != Incomplete ==> DigestFromName(name, hex).Some? && node.Dir?
  {
  }

  /** A listing that fails has met an unreadable marker. */
  lemma {:induction false} RaisesUnreadable(root: Node, hex: HexCheck) returns (q: Path)
    requires Raises(root, hex)
    ensures UnreadableAt(root, q, hex)
    decreases root
  {
    hide MayEnter, ContainerStatus, DigestFromName, IsDebris, UnreadableAt, Raises;
    var name := RaisingEntry(root, hex);
    var below := root.children[name];
    if ContainerStatus(name, below, hex) == Unreadable {
      q := [name];
    } else if DigestFromName(name, hex).Some? {
      var rest := RaisesUnreadable(below.children[PAYLOAD], hex);
      q := [name, PAYLOAD] + rest;
      assert q[1..] == [PAYLOAD] + rest && q[1..][1..] == rest;
      UnreadableInPayload(below, q[1..], hex);
      FirstEntered(root, q, hex);
    } else {
      var rest := RaisesUnreadable(below, hex);
      q := [name] + rest;
      assert q[1..] == rest && rest != [] by { if rest == [] { NothingUnreadable(below, hex); } }
      FirstEntered(root, q, hex);
    }
    UnreadableStep(root, q, hex);
  }

  lemma RaisingEntry(root: Node, hex: HexCheck) returns (name: string)
    requires Raises(root, hex)
    ensures root.Dir? && name in root.children && RaisesAt(name, root.children[name], hex)
  {
    hide RaisesAt;
    name :| name in root.children && RaisesAt(name, root.children[name], hex);
  }

  /** Listing a directory fails exactly if it gets to a container whose marker cannot be read. */
  lemma RaisesIffUnreadable(root: Node, hex: HexCheck)
    ensures Raises(root, hex) <==> exists q :: UnreadableAt(root, q, hex)
  {
    hide Raises, UnreadableAt;
    if Raises(root, hex) {
      var q := RaisesUnreadable(root, hex);
    }
    if q :| UnreadableAt(root, q, hex) {
      UnreadableRaises(root, q, hex);
    }
  }

  /** The same when listing starts at the root. */
  ghost predicate UnreadableFromRoot(root: Node, q: Path, hex: HexCheck)
    requires root.Dir?
  {
    UnreadableAt(root, q, hex) && (HoldsComplete(root.children, hex) ==> DigestFromName(q[0], hex).Some?)
  }

  /** At the root the same holds, except that complete containers there hide all but the containers. */
  lemma RaisesAtRootIff(root: Node, hex: HexCheck)
    requires root.Dir?
    ensures RaisesAtRoot(root.children, hex) <==>
      exists q :: UnreadableFromRoot(root, q, hex)
  {
    hide UnreadableAt, ContainerStatus, DigestFromName, IsDebris, HoldsComplete, Raises, MayEnter;
    if RaisesAtRoot(root.children, hex) {
      if name :| name in root.children && ContainerStatus(name, root.children[name], hex) == Unreadable {
        UnreadableStep(root, [name], hex);
        StatusNeedsName(name, root.children[name], hex);
        assert UnreadableFromRoot(root, [name], hex);
      } else if HoldsComplete(root.children, hex) {
        var name :| name in root.children && ContainerStatus(name, root.children[name], hex) == Complete
          && HasPayload(root.children[name]) && Raises(root.children[name].children[PAYLOAD], hex);
        var rest := RaisesUnreadable(root.children[name].children[PAYLOAD], hex);
        var q := [name, PAYLOAD] + rest;
        assert q[1..] == [PAYLOAD] + rest && q[1..][1..] == rest;
        UnreadableInPayload(root.children[name], q[1..], hex);
        CompleteIsContainer(name, root.children[name], hex);
        FirstEntered(root, q, hex);
        UnreadableStep(root, q, hex);
        assert UnreadableFromRoot(root, q, hex);
      } else {
        assert root == Dir(root.children);
        var q := RaisesUnreadable(root, hex);
        assert q != [] by { if q == [] { NothingUnreadable(root, hex); } }
        assert UnreadableFromRoot(root, q, hex);
      }
    }
    if q :| UnreadableFromRoot(root, q, hex) {
      UnreadableRoots(root, q, hex);
    }
  }

  lemma UnreadableRoots(root: Node, q: Path, hex: HexCheck)
    requires root.Dir? && UnreadableAt(root, q, hex)
    requires HoldsComplete(root.children, hex) ==> DigestFromName(q[0], hex).Some?
    ensures RaisesAtRoot(root.children, hex)
  {
    hide ContainerStatus, DigestFromName, IsDebris, HoldsComplete, Raises, MayEnter, MayEnterAll;
    var below := root.children[q[0]];
    UnreadableStep(root, q, hex);
    if |q| > 1 {
      if HoldsComplete(root.children, hex) {
        hide UnreadableAt;
        FirstEntered(root, q, hex);
        UnreadableInPayload(below, q[1..], hex);
        UnreadableRaises(below.children[PAYLOAD], q[1..][1..], hex);
      } else {
        UnreadableRaises(root, q, hex);
        assert root == Dir(root.children);
      }
    }
  }

  /** At the root a listed path leads through a marked container, or there is no marked one. */
  lemma MarkersDecide(root: Node, hex: HexCheck)
    requires root.Dir?
    ensures forall p, digest |
      ListedAtRoot(root.children, p, hex) && |p| > 1 && DigestFromName(p[0], hex) == Some(digest) ::
      p[0] in root.children && Marked(root.children[p[0]], digest)
    ensures forall p, name | ListedAtRoot(root.children, p, hex) && name in root.children
      && DigestFromName(name, hex).Some? && Marked(root.children[name], DigestFromName(name, hex).value) ::
      |p| > 1 && DigestFromName(p[0], hex).Some?
  {
    hide DigestFromName, Marked, Listed, ListedAtRoot, ContainerStatus;
    forall p, digest | ListedAtRoot(root.children, p, hex) && |p| > 1 && DigestFromName(p[0], hex) == Some(digest)
      ensures p[0] in root.children && Marked(root.children[p[0]], digest)
    {
      ListedNeedsMarker(root, p, hex);
    }
    forall p, name | ListedAtRoot(root.children, p, hex) && name in root.children
      && DigestFromName(name, hex).Some? && Marked(root.children[name], DigestFromName(name, hex).value)
      ensures |p| > 1 && DigestFromName(p[0], hex).Some?
    {
      CompleteIff(name, root.children[name], hex);
      ListedAtRootIff(root, p, hex);
    }
  }

  lemma ListedNeedsMarker(root: Node, p: Path, hex: HexCheck)
    requires root.Dir? && ListedAtRoot(root.children, p, hex) && |p| > 1 && DigestFromName(p[0], hex).Some?
    ensures p[0] in root.children && Marked(root.children[p[0]], DigestFromName(p[0], hex).value)
  {
    hide DigestFromName, Marked, Listed, ListedAtRoot, ContainerStatus, IsDebris, HasPayload;
    ListedAtRootIff(root, p, hex);
    assert NodeAt(root, p).Some? && p[0] in root.children;
    FirstEntered(root, p, hex);
    assert MayEnter(root, p, 0, hex);
    CompleteIff(p[0], root.children[p[0]], hex);
  }

  // ------------------------------------------------------------------ a listing that fails

  function Repeated(c: char, n: nat): (s: string)
    ensures |s| == n && forall i | 0 <= i < n :: s[i] == c
  {
    seq(n, _ => c)
  }

  /** A directory with one video, and one container whose marker is no ASCII text. */
  function UnreadableRoot(): Children {
    var digest := Repeated('0', 64);
    map[
      CONTAINER_PREFIX + digest := Dir(map[MARKER_PREFIX + digest := File("\U{e9}")]),
      "video.mkv" := File("")]
  }

  /** Its listing fails, although the video would be offered but for the marker. */
  lemma UnreadableMarkerFails(hex: HexCheck)
    requires hex(Repeated('0', 64))
    ensures RaisesAtRoot(UnreadableRoot(), hex)
    ensures !RaisesAtRoot(map["video.mkv" := File("")], hex)
    ensures ListedAtRoot(map["video.mkv" := File("")], ["video.mkv"], hex)
  {
    var digest := Repeated('0', 64);
    var name := CONTAINER_PREFIX + digest;
    var root := UnreadableRoot();
    assert name[|CONTAINER_PREFIX|..] == digest;
    assert DigestFromName(name, hex) == Some(digest);
    assert "\U{e9}"[0] as int >= 0x80;
    assert ContainerStatus(name, root[name], hex) == Unreadable;
    assert ["video.mkv"][1..] == [];
  }
}
