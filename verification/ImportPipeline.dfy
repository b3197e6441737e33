/**
 * From an archive to the files offered for import: the extracted tree, the published container and the
 * listed directory hold the same files, seen by three components.
 */
module ImportPipeline {
  import opened Binary
  import opened Collections
  import opened ContainerNames
  import C = CanonicalTree
  import E = EntryNames
  import L = ImportListing
  import O = PublishOnce
  import P = Publication
  import R = TarStream
  import S = Staging
  import T = LeastTree
  import Z = ZipExtraction

  type Path = seq<string>

  /** How the content of a file reads as text. */
  type Reader = bytes -> string

  // ------------------------------------------------------------------ one tree, three views

  /** An extracted tree as the publisher finds it: files with a single link. */
  function Staged(t: S.Tree): C.Tree {
    map p | p in t :: if t[p].Dir? then C.Dir else C.File(t[p].content, 1)
  }

  function Names(t: C.Tree, prefix: Path): set<string> {
    set p | p in t && |p| == |prefix| + 1 && p[..|prefix|] == prefix :: p[|prefix|]
  }

  lemma NamesOf(t: C.Tree, prefix: Path, name: string)
    ensures name in Names(t, prefix) <==> prefix + [name] in t
  {
    if prefix + [name] in t {
      var p := prefix + [name];
      assert p[..|prefix|] == prefix && p[|prefix|] == name;
    }
    if name in Names(t, prefix) {
      var p :| p in t && |p| == |prefix| + 1 && p[..|prefix|] == prefix && p[|prefix|] == name;
      assert p == prefix + [name];
    }
  }

  /** No path of the tree has more than `h` components. */
  predicate Within(t: C.Tree, h: nat) {
    forall p | p in t :: |p| <= h
  }

  /** What the listing finds at `prefix` and below, in a directory. */
  function NodeOf(t: C.Tree, read: Reader, prefix: Path, h: nat): L.Node
    requires Within(t, h)
    decreases h + 1 - |prefix|, 1
  {
    L.Dir(map name | name in Names(t, prefix) :: ChildOf(t, read, prefix, name, h))
  }

  function ChildOf(t: C.Tree, read: Reader, prefix: Path, name: string, h: nat): L.Node
    requires Within(t, h)
    decreases h + 1 - |prefix|, 0
  {
    var p := prefix + [name];
    if p !in t then L.Special
    else match t[p]
      case Special => L.Special
      case File(content, _) => L.File(read(content))
      case Dir => NodeOf(t, read, p, h)
  }

  /** Every proper ancestor is a directory of the tree. */
  ghost predicate Closed(t: C.Tree) {
    forall p | p in t :: forall k | 0 < k < |p| :: p[..k] in t && t[p[..k]].Dir?
  }

  ghost predicate ShowsFile(t: C.Tree, p: Path) {
    p in t && t[p].File?
  }

  /** What walking down the nodes finds: what the tree has there. */
  function Found(t: C.Tree, read: Reader, prefix: Path, h: nat, q: Path): Option<L.Node>
    requires Within(t, h)
  {
    var p := prefix + q;
    if q == [] then Some(NodeOf(t, read, prefix, h))
    else if p in t then Some(ChildOf(t, read, p[..|p| - 1], p[|p| - 1], h))
    else None
  }

  lemma {:induction false} NodeAtIsFound(t: C.Tree, read: Reader, prefix: Path, h: nat, q: Path)
    requires Within(t, h) && Closed(t)
    ensures L.NodeAt(NodeOf(t, read, prefix, h), q) == Found(t, read, prefix, h, q)
    decreases |q|
  {
    hide NodeOf, ChildOf, Closed;
    if q != [] {
      var p := prefix + [q[0]];
      FirstStep(t, read, prefix, h, q);
      if p in t && t[p].Dir? {
        NodeAtIsFound(t, read, p, h, q[1..]);
        assert p + q[1..] == prefix + q;
      }
    }
  }

  /** One step down: nothing there, a leaf, or a directory to go on from. */
  lemma FirstStep(t: C.Tree, read: Reader, prefix: Path, h: nat, q: Path)
    requires Within(t, h) && Closed(t) && q != []
    ensures var p := prefix + [q[0]];
      if p in t && t[p].Dir? then
        && L.NodeAt(NodeOf(t, read, prefix, h), q) == L.NodeAt(NodeOf(t, read, p, h), q[1..])
        && Found(t, read, prefix, h, q) == Found(t, read, p, h, q[1..])
      else L.NodeAt(NodeOf(t, read, prefix, h), q) == Found(t, read, prefix, h, q)
  {
    hide NodeOf, ChildOf, Closed;
    var p := prefix + [q[0]];
    DirectStep(t, read, prefix, h, q[0]);
    assert p + q[1..] == prefix + q;
    if |q| == 1 {
      assert q[1..] == [] && prefix + q == p && p[..|p| - 1] == prefix;
      assert L.NodeAt(NodeOf(t, read, p, h), []) == Some(NodeOf(t, read, p, h));
    } else {
      OnTheWay(t, prefix, q);
    }
  }

  lemma DirectStep(t: C.Tree, read: Reader, prefix: Path, h: nat, name: string)
    requires Within(t, h)
    ensures var node, p := NodeOf(t, read, prefix, h), prefix + [name];
      && node.Dir? && (name in node.children <==> p in t)
      && (p in t ==> node.children[name] == ChildOf(t, read, prefix, name, h))
      && (p in t && t[p].Dir? ==> node.children[name] == NodeOf(t, read, p, h))
      && (p in t && !t[p].Dir? ==> !node.children[name].Dir?)
  {
    NamesOf(t, prefix, name);
  }

  lemma OnTheWay(t: C.Tree, prefix: Path, q: Path)
    requires Closed(t) && |q| > 1
    ensures prefix + q in t ==> prefix + [q[0]] in t && t[prefix + [q[0]]].Dir?
  {
    var p := prefix + q;
    var k := |prefix| + 1;
    assert p in t ==> p[..k] in t && t[p[..k]].Dir?;
    assert p[..k] == prefix + [q[0]];
  }

  /** Walking down the nodes finds a file exactly where the tree has one. */
  lemma FileInNode(t: C.Tree, read: Reader, prefix: Path, h: nat, q: Path)
    requires Within(t, h) && Closed(t)
    ensures q != [] ==> (L.IsFileAt(NodeOf(t, read, prefix, h), q) <==> ShowsFile(t, prefix + q))
  {
    hide NodeOf, L.NodeAt, Closed;
    NodeAtIsFound(t, read, prefix, h, q);
    if q != [] {
      var p := prefix + q;
      assert p[..|p| - 1] + [p[|p| - 1]] == p;
      if p in t && t[p].Dir? {
        NodeIsDir(t, read, p, h);
      }
    }
  }

  // ------------------------------------------------------------------ reserved names

  /** A directory name that the listing treats specially. */
  predicate Reserved(name: string, hex: L.HexCheck) {
    L.IsDebris(name) || L.DigestFromName(name, hex).Some?
  }

  ghost predicate NoneReserved(t: C.Tree, hex: L.HexCheck) {
    forall p | p in t && t[p].Dir? && p != [] :: !Reserved(p[|p| - 1], hex)
  }

  /** Below such a node no directory is treated specially. */
  ghost predicate Plain(node: L.Node, hex: L.HexCheck) {
    node.Dir? ==>
      forall name | name in node.children ::
        (node.children[name].Dir? ==> !Reserved(name, hex)) && Plain(node.children[name], hex)
  }

  lemma {:induction false} PlainNeverRaises(node: L.Node, hex: L.HexCheck)
    requires Plain(node, hex)
    ensures !L.Raises(node, hex)
    decreases node
  {
    hide L.IsDebris, L.DigestFromName, L.ContainerStatus;
    if node.Dir? {
      forall name | name in node.children ensures !L.RaisesAt(name, node.children[name], hex) {
        PlainNeverRaises(node.children[name], hex);
      }
    }
  }

  lemma {:induction false} NodeIsPlain(t: C.Tree, read: Reader, prefix: Path, h: nat, hex: L.HexCheck)
    requires Within(t, h) && NoneReserved(t, hex)
    ensures Plain(NodeOf(t, read, prefix, h), hex)
    decreases h + 1 - |prefix|
  {
    hide Reserved, Within;
    var node := NodeOf(t, read, prefix, h);
    forall name | name in node.children
      ensures (node.children[name].Dir? ==> !Reserved(name, hex)) && Plain(node.children[name], hex)
    {
      NamesOf(t, prefix, name);
      var p := prefix + [name];
      assert node.children[name] == ChildOf(t, read, prefix, name, h);
      if t[p].Dir? {
        assert |p| <= h by { WithinAt(t, h, p); }
        NodeIsPlain(t, read, p, h, hex);
        assert p[|p| - 1] == name;
      }
    }
  }

  lemma WithinAt(t: C.Tree, h: nat, p: Path)
    requires Within(t, h) && p in t
    ensures |p| <= h
  {
  }

  lemma MayEnterPlain(t: C.Tree, root: L.Node, q: Path, hex: L.HexCheck)
    requires Closed(t) && NoneReserved(t, hex) && q in t
    ensures L.MayEnterAll(root, q, hex)
  {
    hide L.IsDebris, L.DigestFromName, L.NodeAt, L.ContainerStatus, L.HasPayload;
    forall i | 0 <= i < |q| - 1 ensures L.MayEnter(root, q, i, hex) {
      assert q[..i + 1] in t && t[q[..i + 1]].Dir? && q[..i + 1][i] == q[i];
      assert !Reserved(q[i], hex);
    }
  }

  // ------------------------------------------------------------------ a published container, listed

  function MarkerNames(c: P.Container): set<string> {
    set d | d in c.markers :: MARKER_PREFIX + d
  }

  function MarkerText(c: P.Container, name: string): string {
    if MARKER_PREFIX <= name && name[|MARKER_PREFIX|..] in c.markers then c.markers[name[|MARKER_PREFIX|..]] else ""
  }

  predicate PayloadWithin(c: P.Container, h: nat) {
    c.payload.Some? ==> Within(c.payload.value, h)
  }

  function ContainerNode(c: P.Container, read: Reader, h: nat): L.Node
    requires PayloadWithin(c, h)
  {
    L.Dir(
      (map name | name in MarkerNames(c) :: L.File(MarkerText(c, name)))
      + if c.payload.Some? then map[PAYLOAD := NodeOf(c.payload.value, read, [], h)] else map[])
  }

  /** The import directory as the listing finds it. */
  function DirectoryNode(dest: map<string, P.Ino>, containers: map<P.Ino, P.Container>, read: Reader, h: nat): L.Node
    requires forall n | n in dest && dest[n] in containers :: PayloadWithin(containers[dest[n]], h)
  {
    L.Dir(map n | n in dest && dest[n] in containers :: ContainerNode(containers[dest[n]], read, h))
  }

  /** A digest as the hash writes it. */
  predicate IsHexDigest(d: string, hex: L.HexCheck) {
    |d| == 64 && hex(d) && forall c | c in d :: c in "0123456789abcdef"
  }

  lemma HexIsPlain(d: string, hex: L.HexCheck)
    requires IsHexDigest(d, hex)
    ensures L.StripRight(L.StripLeft(d)) == d && forall i | 0 <= i < |d| :: (d[i] as int) < 0x80
  {
    forall i | 0 <= i < |d| ensures (d[i] as int) < 0x80 && !L.IsBlank(d[i]) {
      assert d[i] in "0123456789abcdef";
    }
  }

  lemma NamedByDigest(d: string, hex: L.HexCheck)
    requires IsHexDigest(d, hex)
    ensures L.DigestFromName(ContainerName(d), hex) == Some(d)
  {
    assert ContainerName(d)[|CONTAINER_PREFIX|..] == d;
  }

  lemma ContainerChildren(t: C.Tree, d: string, read: Reader, h: nat)
    requires Within(t, h)
    ensures var node := ContainerNode(P.Container(Some(t), map[d := d]), read, h);
      && node.Dir? && MARKER_PREFIX + d in node.children && node.children[MARKER_PREFIX + d] == L.File(d)
      && PAYLOAD in node.children && node.children[PAYLOAD] == NodeOf(t, read, [], h)
  {
    hide NodeOf;
    var c := P.Container(Some(t), map[d := d]);
    var marker := MARKER_PREFIX + d;
    assert marker[|MARKER_PREFIX|..] == d && MarkerText(c, marker) == d;
    assert marker in MarkerNames(c);
    assert marker != PAYLOAD by { assert marker[0] == '.'; }
  }

  lemma MarkedIsComplete(t: C.Tree, d: string, read: Reader, h: nat, hex: L.HexCheck)
    requires IsHexDigest(d, hex) && Within(t, h)
    ensures var node := ContainerNode(P.Container(Some(t), map[d := d]), read, h);
      && L.ContainerStatus(ContainerName(d), node, hex) == L.Complete
      && L.HasPayload(node) && node.children[PAYLOAD] == NodeOf(t, read, [], h)
  {
    hide NodeOf, ContainerNode, L.StripLeft, L.StripRight, ContainerName, IsHexDigest, L.DigestFromName, Within;
    NamedByDigest(d, hex);
    HexIsPlain(d, hex);
    ContainerChildren(t, d, read, h);
    NodeIsDir(t, read, [], h);
  }

  /** What is offered from a directory whose one container was published complete. */
  ghost predicate Offers(root: L.Node, t: C.Tree, d: string, payload: L.Node, hex: L.HexCheck, p: Path)
    requires root.Dir?
  {
    L.ListedAtRoot(root.children, p, hex) <==>
      && |p| > 2 && p[0] == ContainerName(d) && p[1] == PAYLOAD
      && ShowsFile(t, p[2..]) && L.MayEnterAll(payload, p[2..], hex)
  }

  /** Exactly the files of the tree are offered of which every directory may be entered. */
  lemma PublishedIsOffered(
    dest: map<string, P.Ino>, containers: map<P.Ino, P.Container>, ino: P.Ino, t: C.Tree, d: string, read: Reader,
    h: nat, hex: L.HexCheck, p: Path)
    requires IsHexDigest(d, hex) && Within(t, h) && Closed(t)
    requires dest == map[ContainerName(d) := ino] && ino in containers
    requires containers[ino] == P.Container(Some(t), map[d := d])
    ensures Offers(DirectoryNode(dest, containers, read, h), t, d, NodeOf(t, read, [], h), hex, p)
  {
    hide NodeOf, L.ContainerStatus, L.DigestFromName, L.IsDebris, L.Listed, L.MayEnterAll, L.IsFileAt, ContainerName,
      ContainerNode, Closed, Within, ShowsFile, IsHexDigest, L.HasPayload;
    var root, payload := DirectoryNode(dest, containers, read, h), NodeOf(t, read, [], h);
    var name := ContainerName(d);
    var node := root.children[name];
    MarkedIsComplete(t, d, read, h, hex);
    assert node == ContainerNode(containers[ino], read, h);
    assert L.HoldsComplete(root.children, hex);
    assert payload.Dir? by { NodeIsDir(t, read, [], h); }
    if |p| > 1 {
      L.ListedIffEntered(payload, p[2..], hex);
      FileInNode(t, read, [], h, p[2..]);
      assert [] + p[2..] == p[2..];
      if |p| == 2 {
        L.NoFile(payload, p[2..]);
      }
      assert p[1..][1..] == p[2..];
    }
  }

  /** Listing the directory fails exactly if listing the payload does. */
  lemma PublishedFailsIff(
    dest: map<string, P.Ino>, containers: map<P.Ino, P.Container>, ino: P.Ino, t: C.Tree, d: string, read: Reader,
    h: nat, hex: L.HexCheck)
    requires IsHexDigest(d, hex) && Within(t, h)
    requires dest == map[ContainerName(d) := ino] && ino in containers
    requires containers[ino] == P.Container(Some(t), map[d := d])
    ensures L.RaisesAtRoot(DirectoryNode(dest, containers, read, h).children, hex) <==>
      L.Raises(NodeOf(t, read, [], h), hex)
  {
    hide NodeOf, L.ContainerStatus, ContainerName, ContainerNode, Within, IsHexDigest, L.HasPayload, L.Raises;
    var root := DirectoryNode(dest, containers, read, h);
    MarkedIsComplete(t, d, read, h, hex);
    assert root.children[ContainerName(d)] == ContainerNode(containers[ino], read, h);
    assert L.HoldsComplete(root.children, hex);
  }

  lemma NodeIsDir(t: C.Tree, read: Reader, prefix: Path, h: nat)
    requires Within(t, h)
    ensures NodeOf(t, read, prefix, h).Dir?
  {
  }

  /** Without specially treated directory names the listing does not fail, and offers all files of the tree. */
  lemma PlainIsOffered(
    dest: map<string, P.Ino>, containers: map<P.Ino, P.Container>, ino: P.Ino, t: C.Tree, d: string, read: Reader,
    h: nat, hex: L.HexCheck)
    requires IsHexDigest(d, hex) && Within(t, h) && Closed(t) && NoneReserved(t, hex)
    requires dest == map[ContainerName(d) := ino] && ino in containers
    requires containers[ino] == P.Container(Some(t), map[d := d])
    ensures var root := DirectoryNode(dest, containers, read, h);
      && !L.RaisesAtRoot(root.children, hex)
      && forall p :: L.ListedAtRoot(root.children, p, hex) <==>
           |p| > 2 && p[0] == ContainerName(d) && p[1] == PAYLOAD && ShowsFile(t, p[2..])
  {
    hide NodeOf, L.ContainerStatus, L.DigestFromName, L.IsDebris, L.Listed, L.MayEnterAll, L.IsFileAt, ContainerName,
      ContainerNode, Closed, Within, IsHexDigest, L.HasPayload, L.Raises, NoneReserved, L.ListedAtRoot;
    var root, payload := DirectoryNode(dest, containers, read, h), NodeOf(t, read, [], h);
    MarkedIsComplete(t, d, read, h, hex);
    assert root.children[ContainerName(d)] == ContainerNode(containers[ino], read, h);
    assert L.HoldsComplete(root.children, hex);
    NodeIsPlain(t, read, [], h, hex);
    PlainNeverRaises(payload, hex);
    forall p ensures L.ListedAtRoot(root.children, p, hex) <==>
      |p| > 2 && p[0] == ContainerName(d) && p[1] == PAYLOAD && ShowsFile(t, p[2..])
    {
      PublishedIsOffered(dest, containers, ino, t, d, read, h, hex, p);
      if |p| > 2 && ShowsFile(t, p[2..]) {
        MayEnterPlain(t, payload, p[2..], hex);
      }
    }
  }

  // ------------------------------------------------------------------ the listing, in terms of the archive

  ghost predicate HasFile(items: seq<T.Item>, p: Path) {
    exists item | item in items :: item.entry.File? && item.path == p
  }

  /** The items have a file at `p` that reads as this text. */
  ghost predicate HasText(items: seq<T.Item>, read: Reader, p: Path, text: string) {
    exists item | item in items :: item.entry.File? && item.path == p && read(item.entry.content) == text
  }

  /** The directory at `q` is named like a container, and the items have a marker in it that says so. */
  ghost predicate MarkerReads(items: seq<T.Item>, read: Reader, q: Path, hex: L.HexCheck, status: L.Status)
    requires q != []
  {
    var digest := L.DigestFromName(q[|q| - 1], hex);
    && digest.Some?
    && exists text :: HasText(items, read, q + [MARKER_PREFIX + digest.value], text)
         && L.MarkerStatus(text, digest.value) == status
  }

  /**
   * The `i`-th directory on the way to `p` is entered by the listing: it is not named like debris, and
   * if it is named like a container then the archive has its marker, with the right text, and the path
   * goes on below its payload directory.
   */
  ghost predicate Enterable(items: seq<T.Item>, read: Reader, p: Path, i: nat, hex: L.HexCheck)
    requires i + 1 < |p|
  {
    && !L.IsDebris(p[i])
    && (L.DigestFromName(p[i], hex).Some? ==>
          MarkerReads(items, read, p[..i + 1], hex, L.Complete) && p[i + 1] == PAYLOAD && i + 2 < |p|)
  }

  ghost predicate Reachable(items: seq<T.Item>, read: Reader, p: Path, hex: L.HexCheck) {
    forall i | 0 <= i < |p| - 1 :: Enterable(items, read, p, i, hex)
  }

  /** The listing gets to a directory of the archive that is named like a container with a marker that is no text. */
  ghost predicate Unreadable(items: seq<T.Item>, read: Reader, q: Path, hex: L.HexCheck) {
    q != [] && Reachable(items, read, q, hex) && MarkerReads(items, read, q, hex, L.Unreadable)
  }

  lemma StagedIsClosed(t: S.Tree)
    requires S.WellFormed(t)
    ensures Closed(Staged(t))
  {
    forall p | p in Staged(t) ensures forall k | 0 < k < |p| :: p[..k] in Staged(t) && Staged(t)[p[..k]].Dir? {
      forall k | 0 < k < |p| ensures p[..k] in Staged(t) && Staged(t)[p[..k]].Dir? {
        assert S.IsDir(t, p[..k]);
      }
    }
  }

  lemma LeastIsWellFormed(t: S.Tree, items: seq<T.Item>)
    requires T.IsLeastTree(t, items)
    ensures S.WellFormed(t)
  {
  }

  /** The files of the least tree are the files listed, with their content. */
  lemma LeastFiles(t: S.Tree, items: seq<T.Item>, p: Path)
    requires T.IsLeastTree(t, items)
    ensures ShowsFile(Staged(t), p) <==> HasFile(items, p)
    ensures forall read: Reader, text :: HasText(items, read, p, text) <==>
      ShowsFile(Staged(t), p) && read(Staged(t)[p].content) == text
  {
    if p in t {
      var item := T.Because(t, items, p);
    }
  }

  lemma FoundIsFile(t: C.Tree, read: Reader, h: nat, q: Path)
    requires Within(t, h) && Closed(t) && q != []
    ensures ShowsFile(t, q) ==> Found(t, read, [], h, q) == Some(L.File(read(t[q].content)))
    ensures Found(t, read, [], h, q).Some? && Found(t, read, [], h, q).value.File? ==> ShowsFile(t, q)
    ensures q in t && t[q].Dir? ==> Found(t, read, [], h, q) == Some(NodeOf(t, read, q, h))
  {
    hide NodeOf;
    assert [] + q == q && q[..|q| - 1] + [q[|q| - 1]] == q;
    if q in t && t[q].Dir? {
      NodeIsDir(t, read, q, h);
    }
  }

  /** The children of the directory at `q` are what is found one step below. */
  lemma ChildIsFound(t: C.Tree, read: Reader, h: nat, q: Path, name: string)
    requires Within(t, h) && q in t && t[q].Dir? && q != []
    ensures var node := NodeOf(t, read, q, h);
      && node.Dir?
      && (name in node.children <==> q + [name] in t)
      && (name in node.children ==> Found(t, read, [], h, q + [name]) == Some(node.children[name]))
  {
    NamesOf(t, q, name);
    var p := q + [name];
    assert [] + p == p && p[..|p| - 1] == q && p[|p| - 1] == name;
  }

  /** How the listing judges the directory at `q`, in terms of the items. */
  lemma StatusReads(
    t: S.Tree, items: seq<T.Item>, read: Reader, h: nat, q: Path, hex: L.HexCheck, status: L.Status)
    requires T.IsLeastTree(t, items) && Within(Staged(t), h) && q != [] && q in t && status != L.Incomplete
    ensures Found(Staged(t), read, [], h, q).Some?
    ensures L.ContainerStatus(q[|q| - 1], Found(Staged(t), read, [], h, q).value, hex) == status <==>
      MarkerReads(items, read, q, hex, status)
  {
    hide NodeOf, L.DigestFromName, L.MarkerStatus, T.IsLeastTree, HasText, Within, Found, Closed;
    LeastIsWellFormed(t, items);
    StagedIsClosed(t);
    FoundSome(Staged(t), read, h, q);
    var node := Found(Staged(t), read, [], h, q).value;
    var digest := L.DigestFromName(q[|q| - 1], hex);
    if digest.Some? {
      var marker := MARKER_PREFIX + digest.value;
      FoundIsFile(Staged(t), read, h, q);
      FoundIsFile(Staged(t), read, h, q + [marker]);
      LeastFiles(t, items, q + [marker]);
      if t[q].Dir? {
        ChildIsFound(Staged(t), read, h, q, marker);
      } else {
        FileHasNothingBelow(Staged(t), q, marker);
      }
    }
  }

  lemma FoundSome(t: C.Tree, read: Reader, h: nat, q: Path)
    requires Within(t, h) && q != []
    ensures Found(t, read, [], h, q).Some? <==> q in t
    ensures Found(t, read, [], h, q).Some? && Found(t, read, [], h, q).value.Dir? ==> q in t && t[q].Dir?
  {
    assert [] + q == q && q[..|q| - 1] + [q[|q| - 1]] == q;
  }

  lemma FileHasNothingBelow(t: C.Tree, q: Path, name: string)
    requires Closed(t) && q != [] && q in t && !t[q].Dir?
    ensures q + [name] !in t
  {
    assert (q + [name])[..|q|] == q;
  }

  /** Entering a directory on the way to `p`, in terms of the items. */
  lemma EnterableIff(t: S.Tree, items: seq<T.Item>, read: Reader, h: nat, p: Path, i: nat, hex: L.HexCheck)
    requires T.IsLeastTree(t, items) && Within(Staged(t), h) && p in t && i + 1 < |p|
    requires t[p].File? || p[|p| - 1] != PAYLOAD
    ensures L.MayEnter(NodeOf(Staged(t), read, [], h), p, i, hex) <==> Enterable(items, read, p, i, hex)
  {
    hide NodeOf, L.DigestFromName, L.ContainerStatus, L.IsDebris, T.IsLeastTree, MarkerReads, Within, Found, L.NodeAt;
    LeastIsWellFormed(t, items);
    StagedIsClosed(t);
    var c := Staged(t);
    var q := p[..i + 1];
    assert q in c && c[q].Dir?;
    NodeAtIsFound(c, read, [], h, q);
    StatusReads(t, items, read, h, q, hex, L.Complete);
    FoundIsFile(c, read, h, q);
    ChildIsFound(c, read, h, q, PAYLOAD);
    if p[i + 1] == PAYLOAD {
      assert q + [PAYLOAD] == p[..i + 2];
      FoundIsFile(c, read, h, p[..i + 2]);
      if i + 2 < |p| {
        assert c[p[..i + 2]].Dir?;
        NodeIsDir(c, read, p[..i + 2], h);
      } else {
        assert p[..i + 2] == p;
      }
    }
  }

  lemma ReachableIff(t: S.Tree, items: seq<T.Item>, read: Reader, h: nat, p: Path, hex: L.HexCheck)
    requires T.IsLeastTree(t, items) && Within(Staged(t), h) && p in t && p != []
    requires t[p].File? || p[|p| - 1] != PAYLOAD
    ensures L.MayEnterAll(NodeOf(Staged(t), read, [], h), p, hex) <==> Reachable(items, read, p, hex)
  {
    hide NodeOf, L.MayEnter, Enterable, T.IsLeastTree, Within;
    forall i | 0 <= i < |p| - 1
      ensures L.MayEnter(NodeOf(Staged(t), read, [], h), p, i, hex) <==> Enterable(items, read, p, i, hex)
    {
      EnterableIff(t, items, read, h, p, i, hex);
    }
  }

  /** The unreadable markers that the listing gets to are those the items have. */
  lemma UnreadableIff(t: S.Tree, items: seq<T.Item>, read: Reader, h: nat, q: Path, hex: L.HexCheck)
    requires T.IsLeastTree(t, items) && Within(Staged(t), h)
    ensures L.UnreadableAt(NodeOf(Staged(t), read, [], h), q, hex) <==> Unreadable(items, read, q, hex)
  {
    hide NodeOf, L.MayEnterAll, Reachable, T.IsLeastTree, Within, MarkerReads, L.ContainerStatus, L.NodeAt, Found;
    if q != [] {
      var c := Staged(t);
      LeastIsWellFormed(t, items);
      StagedIsClosed(t);
      NodeAtIsFound(c, read, [], h, q);
      FoundSome(c, read, h, q);
      if q in t {
        StatusReads(t, items, read, h, q, hex, L.Unreadable);
        if MarkerReads(items, read, q, hex, L.Unreadable) {
          MarkedIsNoPayload(items, read, q, hex);
          ReachableIff(t, items, read, h, q, hex);
        }
      } else if MarkerReads(items, read, q, hex, L.Unreadable) {
        MarkedIsThere(t, items, read, q, hex);
      }
    }
  }

  lemma MarkedIsNoPayload(items: seq<T.Item>, read: Reader, q: Path, hex: L.HexCheck)
    requires q != [] && MarkerReads(items, read, q, hex, L.Unreadable)
    ensures q[|q| - 1] != PAYLOAD
  {
    L.PlainPayload(hex);
  }

  lemma MarkedIsThere(t: S.Tree, items: seq<T.Item>, read: Reader, q: Path, hex: L.HexCheck)
    requires T.IsLeastTree(t, items) && q != [] && MarkerReads(items, read, q, hex, L.Unreadable)
    ensures q in t
  {
    hide MarkerReads, T.IsLeastTree;
    var item, digest := MarkedHas(items, read, q, hex, L.Unreadable);
    T.Present(t, items, item, q);
  }

  lemma MarkedHas(items: seq<T.Item>, read: Reader, q: Path, hex: L.HexCheck, status: L.Status)
    returns (item: T.Item, digest: string)
    requires q != [] && MarkerReads(items, read, q, hex, status)
    ensures item in items && item.entry.File? && item.path == q + [MARKER_PREFIX + digest]
    ensures L.DigestFromName(q[|q| - 1], hex) == Some(digest)
  {
    hide L.DigestFromName, L.MarkerStatus;
    digest := L.DigestFromName(q[|q| - 1], hex).value;
    var text :| HasText(items, read, q + [MARKER_PREFIX + digest], text);
    item :| item in items && item.entry.File? && item.path == q + [MARKER_PREFIX + digest];
  }

  // ------------------------------------------------------------------ from archive to listing

  /** What is offered: the files of the archive that the listing gets to, under the container of the digest. */
  ghost predicate OffersItems(offered: seq<Path>, items: seq<T.Item>, d: string, read: Reader, hex: L.HexCheck) {
    && L.SortedPaths(offered)
    && forall p :: p in offered <==>
         && |p| > 2 && p[0] == ContainerName(d) && p[1] == "payload"
         && HasFile(items, p[2..]) && Reachable(items, read, p[2..], hex)
  }

  ghost predicate NoneUnreadable(items: seq<T.Item>, read: Reader, hex: L.HexCheck) {
    forall q :: !Unreadable(items, read, q, hex)
  }

  /** The listing of this directory fails exactly on an unreadable marker, and lists exactly those files. */
  ghost predicate ListsItems(root: L.Node, items: seq<T.Item>, d: string, read: Reader, hex: L.HexCheck)
    requires root.Dir?
  {
    && (L.RaisesAtRoot(root.children, hex) <==> !NoneUnreadable(items, read, hex))
    && forall p :: L.ListedAtRoot(root.children, p, hex) <==>
         && |p| > 2 && p[0] == ContainerName(d) && p[1] == PAYLOAD
         && HasFile(items, p[2..]) && Reachable(items, read, p[2..], hex)
  }

  lemma ItemsAreListed(
    t: S.Tree, items: seq<T.Item>, dest: map<string, P.Ino>, containers: map<P.Ino, P.Container>, ino: P.Ino, d: string,
    read: Reader, h: nat, hex: L.HexCheck)
    requires T.IsLeastTree(t, items) && IsHexDigest(d, hex) && Within(Staged(t), h)
    requires dest == map[ContainerName(d) := ino] && ino in containers
    requires containers[ino] == P.Container(Some(Staged(t)), map[d := d])
    ensures var root := DirectoryNode(dest, containers, read, h);
      root.Dir? && ListsItems(root, items, d, read, hex)
  {
    hide NodeOf, L.ListedAtRoot, L.RaisesAtRoot, L.Raises, L.UnreadableAt, Unreadable, Closed, ShowsFile, Reachable,
      T.IsLeastTree, IsHexDigest, ContainerName, Staged, Within, ContainerNode, HasFile, L.MayEnterAll;
    LeastIsWellFormed(t, items);
    StagedIsClosed(t);
    var root, payload := DirectoryNode(dest, containers, read, h), NodeOf(Staged(t), read, [], h);
    PublishedFailsIff(dest, containers, ino, Staged(t), d, read, h, hex);
    L.RaisesIffUnreadable(payload, hex);
    forall q ensures L.UnreadableAt(payload, q, hex) <==> Unreadable(items, read, q, hex) {
      UnreadableIff(t, items, read, h, q, hex);
    }
    forall p ensures L.ListedAtRoot(root.children, p, hex) <==>
      && |p| > 2 && p[0] == ContainerName(d) && p[1] == PAYLOAD
      && HasFile(items, p[2..]) && Reachable(items, read, p[2..], hex)
    {
      PublishedIsOffered(dest, containers, ino, Staged(t), d, read, h, hex, p);
      if |p| > 2 {
        FileIsReachable(t, items, read, h, p[2..], hex);
      }
    }
  }

  lemma FileIsReachable(t: S.Tree, items: seq<T.Item>, read: Reader, h: nat, p: Path, hex: L.HexCheck)
    requires T.IsLeastTree(t, items) && Within(Staged(t), h) && p != []
    ensures ShowsFile(Staged(t), p) && L.MayEnterAll(NodeOf(Staged(t), read, [], h), p, hex) <==>
      HasFile(items, p) && Reachable(items, read, p, hex)
  {
    hide NodeOf, L.MayEnterAll, Reachable, T.IsLeastTree, Within, HasFile, HasText;
    LeastFiles(t, items, p);
    if ShowsFile(Staged(t), p) {
      ReachableIff(t, items, read, h, p, hex);
    }
  }

  lemma ListedAreOffered(
    offered: seq<Path>, root: L.Node, items: seq<T.Item>, d: string, read: Reader, hex: L.HexCheck)
    requires root.Dir? && ListsItems(root, items, d, read, hex) && L.SortedPaths(offered)
    requires forall p :: p in offered <==> L.ListedAtRoot(root.children, p, hex)
    ensures OffersItems(offered, items, d, read, hex)
  {
    hide L.ListedAtRoot, L.RaisesAtRoot, L.SortedPaths, ContainerName, HasFile, Reachable;
  }

  lemma ListingFailsIff(root: L.Node, items: seq<T.Item>, d: string, read: Reader, hex: L.HexCheck)
    requires root.Dir? && ListsItems(root, items, d, read, hex)
    ensures L.RaisesAtRoot(root.children, hex) <==> !NoneUnreadable(items, read, hex)
  {
    hide L.RaisesAtRoot, NoneUnreadable;
  }

  method Height(t: C.Tree) returns (h: nat)
    ensures Within(t, h)
  {
    h := 0;
    var rest := t.Keys;
    while rest != {}
      invariant rest <= t.Keys && forall p | p in t && p !in rest :: |p| <= h
      decreases |rest|
    {
      var p :| p in rest;
      rest := rest - {p};
      if |p| > h { h := |p|; }
    }
  }

  predicate Works(a: O.Answers) {
    && a.makes && a.installs && a.hashes && a.opensMarker && a.looks && a.renames && a.reopens
    && a.privateName != "staging"
  }

  /** Publication into an empty destination yields a path exactly if its container appears, and is reopened. */
  lemma FreshPublication(cfg: P.Config, a: O.Answers, tree: C.Tree)
    requires cfg.staged == map[0 := P.Staged("staging", 1, tree)]
    ensures var parent, r := map["staging" := 1], O.ExpectedResult(cfg, map["staging" := 1], map[], map[], a);
      && (r.Published? ==>
            && cfg.digest(tree).Some? && O.BuiltDigest(cfg, parent, a) == cfg.digest(tree)
            && O.Appears(cfg, parent, map[], a) == Some(ContainerName(cfg.digest(tree).value)))
      && (Works(a) && cfg.digest(tree).Some? && |cfg.digest(tree).value| <= a.markerBytes ==> r.Published?)
  {
    hide ContainerName;
  }

  /** Publishes a tree into an empty destination. */
  method PublishFresh(tree: C.Tree, digest: P.DigestFn, a: O.Answers)
    returns (ok: bool, dest: map<string, P.Ino>, containers: map<P.Ino, P.Container>)
    requires a.ino != 1
    ensures ok ==>
      && digest(tree).Some? && var d := digest(tree).value;
      && dest == map[ContainerName(d) := a.ino] && a.ino in containers
      && containers[a.ino] == P.Container(Some(tree), map[d := d])
    ensures Works(a) && digest(tree).Some? && |digest(tree).value| <= a.markerBytes ==> ok
  {
    hide *;
    var cfg := P.Config(map[0 := P.Staged("staging", 1, tree)], map[], map[], digest);
    assert cfg.staged.Keys == {0};
    var directory := new O.ImportDirectory(map["staging" := 1], map[], map[]);
    var result;
    ghost var pub;
    ghost var run;
    result, pub, run := directory.PublishStagingTree(cfg, a);
    FreshPublication(cfg, a, tree);
    ok := result.Published?;
    dest, containers := directory.dest, directory.containers;
  }

  lemma OneContainer(
    dest: map<string, P.Ino>, containers: map<P.Ino, P.Container>, ino: P.Ino, t: C.Tree, d: string, h: nat)
    requires dest == map[ContainerName(d) := ino] && ino in containers
    requires containers[ino] == P.Container(Some(t), map[d := d]) && Within(t, h)
    ensures forall n | n in dest && dest[n] in containers :: PayloadWithin(containers[dest[n]], h)
  {
    hide Within;
  }

  /** The hash writes every digest in hexadecimal. */
  ghost predicate HexDigests(digest: P.DigestFn, hex: L.HexCheck) {
    forall t | digest(t).Some? :: IsHexDigest(digest(t).value, hex)
  }

  /** The tree of these items can be hashed, and the whole digest fits what is written of the marker. */
  ghost predicate Hashable(items: seq<T.Item>, digest: P.DigestFn, a: O.Answers) {
    forall t | T.IsLeastTree(t, items) :: digest(Staged(t)).Some? && |digest(Staged(t)).value| <= a.markerBytes
  }

  /** Publication of an extracted tree into an empty destination, and the next listing of it. */
  method PublishAndList(
    tree: S.Tree, ghost items: seq<T.Item>, digest: P.DigestFn, a: O.Answers, read: Reader, hex: L.HexCheck)
    returns (published: bool, listed: bool, offered: seq<Path>, ghost d: string)
    requires T.IsLeastTree(tree, items) && a.ino != 1 && HexDigests(digest, hex)
    ensures published ==> (listed <==> NoneUnreadable(items, read, hex))
    ensures listed ==> published && OffersItems(offered, items, d, read, hex)
    ensures Works(a) && Hashable(items, digest, a) ==> published
  {
    hide *;
    d, offered, listed := "", [], false;
    var staged := Staged(tree);
    var dest, containers;
    published, dest, containers := PublishFresh(staged, digest, a);
    CanBeHashed(tree, items, digest, a);
    if !published { return; }
    d := digest(staged).value;
    HexDigest(staged, digest, hex);
    var h := Height(staged);
    OneContainer(dest, containers, a.ino, staged, d, h);
    var root := DirectoryNode(dest, containers, read, h);
    ItemsAreListed(tree, items, dest, containers, a.ino, d, read, h, hex);
    listed, offered := L.ListImportableFiles(root, hex);
    ListingFailsIff(root, items, d, read, hex);
    if listed {
      ListedAreOffered(offered, root, items, d, read, hex);
    }
  }

  lemma HexDigest(t: C.Tree, digest: P.DigestFn, hex: L.HexCheck)
    requires HexDigests(digest, hex) && digest(t).Some?
    ensures IsHexDigest(digest(t).value, hex)
  {
  }

  lemma CanBeHashed(t: S.Tree, items: seq<T.Item>, digest: P.DigestFn, a: O.Answers)
    requires T.IsLeastTree(t, items)
    ensures Hashable(items, digest, a) ==> digest(Staged(t)).Some? && |digest(Staged(t)).value| <= a.markerBytes
  {
    hide T.IsLeastTree, Staged;
  }

  /**
   * A ZIP archive is extracted into an empty staging directory, published into an empty destination, and
   * that is listed. If the listing succeeds it offers exactly the files of the archive that it gets to,
   * each once; it fails exactly if it gets to a marker that is no text. When writes and calls work and
   * the tree can be hashed, exactly the acceptable archives are published.
   */
  method ImportArchive(
    infos: seq<Z.ZipInfo>, entryCount: nat, limit: nat, writes: seq<S.WriteOutcome>, rules: E.NameRules,
    digest: P.DigestFn, a: O.Answers, read: Reader, hex: L.HexCheck)
    returns (published: bool, listed: bool, offered: seq<Path>, ghost d: string)
    requires a.ino != 1 && HexDigests(digest, hex)
    ensures published ==> Z.Acceptable(infos, entryCount, limit, rules)
    ensures published ==> (listed <==> NoneUnreadable(Z.Items(infos), read, hex))
    ensures listed ==> published && OffersItems(offered, Z.Items(infos), d, read, hex)
    ensures S.WritesSucceed(writes) && Works(a) && Hashable(Z.Items(infos), digest, a) ==>
      (published <==> Z.Acceptable(infos, entryCount, limit, rules))
  {
    hide *;
    var staging := new S.StagingDirectory(writes);
    var budget := new S.Budget(limit);
    var registry := new S.Registry();
    var ok := Z.ExtractZipArchive(infos, entryCount, staging, budget, registry, rules);
    if !ok { return false, false, [], ""; }
    published, listed, offered, d := PublishAndList(staging.tree, Z.Items(infos), digest, a, read, hex);
  }

  /** The same for a tar stream, the files being what arrives of them when writes may be short. */
  method ImportTarStream(
    content: bytes, limit: nat, writes: seq<S.WriteOutcome>, rules: E.NameRules, decode: R.HeaderDecoder,
    digest: P.DigestFn, a: O.Answers, read: Reader, hex: L.HexCheck)
    returns (published: bool, listed: bool, offered: seq<Path>, ghost d: string)
    requires a.ino != 1 && HexDigests(digest, hex)
    ensures published ==> TarExtracts(content, limit, writes, rules, decode)
    ensures published ==> (listed <==> NoneUnreadable(TarItems(content, writes, decode), read, hex))
    ensures listed ==> published && OffersItems(offered, TarItems(content, writes, decode), d, read, hex)
    ensures Works(a) && Hashable(TarItems(content, writes, decode), digest, a) ==>
      (published <==> TarExtracts(content, limit, writes, rules, decode))
  {
    hide *;
    var input := new R.TarInput(content);
    var staging := new S.StagingDirectory(writes);
    var budget := new S.Budget(limit);
    var registry := new S.Registry();
    var ok := R.ParseTarStream(input, staging, budget, registry, rules, decode);
    TarExtracted(content, limit, writes, rules, decode);
    if !ok { return false, false, [], ""; }
    published, listed, offered, d :=
      PublishAndList(staging.tree, TarItems(content, writes, decode), digest, a, read, hex);
  }

  ghost predicate TarExtracts(
    content: bytes, limit: nat, writes: seq<S.WriteOutcome>, rules: E.NameRules, decode: R.HeaderDecoder)
  {
    && R.Extractable(content, limit, rules, decode)
    && R.NoWriteFails(writes, R.Decode(content, decode).value)
  }

  ghost function TarItems(content: bytes, writes: seq<S.WriteOutcome>, decode: R.HeaderDecoder): seq<T.Item> {
    var rs := R.Decode(content, decode);
    if rs.None? then [] else R.RecordItems(R.Received(writes, rs.value), decode)
  }

  lemma TarExtracted(
    content: bytes, limit: nat, writes: seq<S.WriteOutcome>, rules: E.NameRules, decode: R.HeaderDecoder)
    ensures TarExtracts(content, limit, writes, rules, decode) <==>
      R.Extractable(content, limit, rules, decode) && R.NoWriteFails(writes, R.Decode(content, decode).value)
    ensures R.Extractable(content, limit, rules, decode) ==>
      && R.Decode(content, decode).Some?
      && TarItems(content, writes, decode) ==
           R.RecordItems(R.Received(writes, R.Decode(content, decode).value), decode)
  {
    hide R.Decode, R.RecordItems, R.Received, R.NoWriteFails;
  }

  // ------------------------------------------------------------------ archives without reserved names

  /** No directory that the entries ask for, themselves or on the way to a file, has a reserved name. */
  ghost predicate ItemsPlain(items: seq<T.Item>, hex: L.HexCheck) {
    forall item, k | item in items && 0 <= k < |item.path| && (k < |item.path| - 1 || item.entry.Dir?) ::
      !Reserved(item.path[k], hex)
  }

  /** All files of such an archive are offered, and the listing does not fail. */
  lemma PlainArchive(items: seq<T.Item>, read: Reader, hex: L.HexCheck)
    requires ItemsPlain(items, hex)
    ensures NoneUnreadable(items, read, hex)
    ensures forall p | HasFile(items, p) :: Reachable(items, read, p, hex)
  {
    hide MarkerReads, L.IsDebris, L.DigestFromName;
    forall p | HasFile(items, p) ensures Reachable(items, read, p, hex) {
      forall i | 0 <= i < |p| - 1 ensures Enterable(items, read, p, i, hex) {
        assert !Reserved(p[i], hex);
      }
    }
    forall q ensures !Unreadable(items, read, q, hex) {
      if Unreadable(items, read, q, hex) {
        MarkedIsReserved(items, read, q, hex);
      }
    }
  }

  lemma MarkedIsReserved(items: seq<T.Item>, read: Reader, q: Path, hex: L.HexCheck)
    requires q != [] && MarkerReads(items, read, q, hex, L.Unreadable)
    ensures !ItemsPlain(items, hex)
  {
    hide MarkerReads, L.DigestFromName;
    var item, digest := MarkedHas(items, read, q, hex, L.Unreadable);
    assert item.path[|q| - 1] == q[|q| - 1] && Reserved(q[|q| - 1], hex);
  }
}
