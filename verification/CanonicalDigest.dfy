/** The walk, sort and streaming that feed a directory tree to the hash. */
module CanonicalDigest {
  import opened Binary
  import opened CanonicalTree
  import opened Ordering
  import opened Paths
  import S = Staging

  const READ_CHUNK_SIZE: nat := 64 * 1024

  // ------------------------------------------------------------------ one walk over the tree

  /** One directory as the walk reports it, names in no particular order. */
  datatype WalkStep = WalkStep(dir: Path, dirnames: seq<string>, filenames: seq<string>)

  ghost predicate IsDirectory(t: Tree, p: Path) {
    p == [] || (p in t && t[p].Dir?)
  }

  /** The names of one directory, each once; directories are never listed among the files. */
  ghost predicate IsListing(t: Tree, step: WalkStep) {
    && IsDirectory(t, step.dir)
    && Distinct(step.dirnames + step.filenames)
    && (forall n :: n in step.dirnames || n in step.filenames <==> step.dir + [n] in t)
    && (forall n | n in step.dirnames :: step.dir + [n] in t && !t[step.dir + [n]].File?)
    && (forall n | n in step.filenames :: step.dir + [n] in t && !t[step.dir + [n]].Dir?)
  }

  /** A walk visits the root and every directory once, in any order. */
  ghost predicate IsWalk(t: Tree, walk: seq<WalkStep>) {
    && (forall i, j | 0 <= i < j < |walk| :: walk[i].dir != walk[j].dir)
    && (forall i | 0 <= i < |walk| :: IsListing(t, walk[i]))
    && (forall p | IsDirectory(t, p) :: exists i | 0 <= i < |walk| :: walk[i].dir == p)
  }

  function ChildRel(base: string, name: string): string {
    if base == "" then name else base + "/" + name
  }

  /** Whether an entry passes the checks made while it is listed. */
  predicate EntryAccepted(t: Tree, p: Path) {
    p in t && (t[p].Dir? || (t[p].File? && t[p].links <= 1))
  }

  ghost predicate StepAccepted(t: Tree, step: WalkStep) {
    && (forall n | n in step.dirnames :: step.dir + [n] in t && t[step.dir + [n]].Dir?)
    && (forall n | n in step.filenames :: step.dir + [n] in t && EntryAccepted(t, step.dir + [n]))
  }

  /** The entries of the given names of one directory. */
  ghost function ChildEntries(t: Tree, dir: Path, names: seq<string>): (es: seq<CanonicalEntry>)
    requires forall n | n in names :: dir + [n] in t
    ensures |es| == |names| && forall i | 0 <= i < |names| :: es[i] == EntryOf(t, dir + [names[i]])
  {
    seq(|names|, i requires 0 <= i < |names| => EntryOf(t, dir + [names[i]]))
  }

  method CollectDirs(t: Tree, dir: Path, names: seq<string>) returns (ok: bool, es: seq<CanonicalEntry>)
    requires WellFormed(t) && IsDirectory(t, dir) && forall n | n in names :: dir + [n] in t
    ensures ok <==> forall n | n in names :: t[dir + [n]].Dir?
    ensures ok ==> es == ChildEntries(t, dir, names)
  {
    hide WellFormed, Join;
    var relBase := RelPath(dir);
    es := [];
    for k := 0 to |names|
      invariant |es| == k && forall i | 0 <= i < k :: es[i] == EntryOf(t, dir + [names[i]])
      invariant forall i | 0 <= i < k :: t[dir + [names[i]]].Dir?
    {
      if !t[dir + [names[k]]].Dir? { return false, es; }
      RelPathOfChild(t, dir, names[k]);
      es := es + [CanonicalEntry(ChildRel(relBase, names[k]), true, 0)];
    }
    return true, es;
  }

  method CollectFiles(t: Tree, dir: Path, names: seq<string>) returns (ok: bool, es: seq<CanonicalEntry>)
    requires WellFormed(t) && IsDirectory(t, dir) && forall n | n in names :: dir + [n] in t && !t[dir + [n]].Dir?
    ensures ok <==> forall n | n in names :: EntryAccepted(t, dir + [n])
    ensures ok ==> es == ChildEntries(t, dir, names)
  {
    hide WellFormed, Join;
    var relBase := RelPath(dir);
    es := [];
    for k := 0 to |names|
      invariant |es| == k && forall i | 0 <= i < k :: es[i] == EntryOf(t, dir + [names[i]])
      invariant forall i | 0 <= i < k :: EntryAccepted(t, dir + [names[i]])
    {
      var node := t[dir + [names[k]]];
      if !node.File? || node.links > 1 {
        assert !EntryAccepted(t, dir + [names[k]]);
        return false, es;
      }
      RelPathOfChild(t, dir, names[k]);
      es := es + [CanonicalEntry(ChildRel(relBase, names[k]), false, |node.content|)];
    }
    return true, es;
  }

  method CollectStep(t: Tree, step: WalkStep) returns (ok: bool, es: seq<CanonicalEntry>)
    requires WellFormed(t) && IsListing(t, step)
    ensures ok <==> StepAccepted(t, step)
    ensures ok ==> var names := Sort(step.dirnames, Identity) + Sort(step.filenames, Identity);
                   (forall n | n in names :: step.dir + [n] in t) && es == ChildEntries(t, step.dir, names)
  {
    hide WellFormed, Sort, EntryOf, EntryAccepted;
    var dirs, files := Sort(step.dirnames, Identity), Sort(step.filenames, Identity);
    SortMembers(step.dirnames, Identity);
    SortMembers(step.filenames, Identity);
    SameMembers(dirs, step.dirnames);
    SameMembers(files, step.filenames);
    ok, es := CollectDirs(t, step.dir, dirs);
    if !ok { return; }
    var more;
    ok, more := CollectFiles(t, step.dir, files);
    es := es + more;
  }

  lemma {:induction false} JoinChild(dir: Path, name: string)
    requires dir != []
    ensures Join(dir + [name], '/') == Join(dir, '/') + "/" + name
  {
    if |dir| == 1 {
      assert (dir + [name])[1..] == [name];
      assert Join([name], '/') == name;
    } else {
      assert (dir + [name])[1..] == dir[1..] + [name];
      JoinChild(dir[1..], name);
    }
  }

  /** Listing a child under its directory's relative path spells the child's own path. */
  lemma RelPathOfChild(t: Tree, dir: Path, name: string)
    requires WellFormed(t) && IsDirectory(t, dir)
    ensures ChildRel(RelPath(dir), name) == RelPath(dir + [name])
  {
    if dir == [] {
      assert dir + [name] == [name];
    } else {
      JoinChild(dir, name);
      assert dir[0] in dir && RelPath(dir)[..|dir[0]|] == dir[0];
    }
  }

  // ------------------------------------------------------------------ collecting the whole walk

  function Parent(p: Path): Path
    requires p != []
  {
    p[..|p| - 1]
  }

  ghost predicate Visited(walk: seq<WalkStep>, dir: Path) {
    exists i | 0 <= i < |walk| :: walk[i].dir == dir
  }

  /** `ps` lists, once each, the children of the visited directories. */
  ghost predicate ListsChildren(t: Tree, walk: seq<WalkStep>, ps: seq<Path>) {
    && Distinct(ps)
    && (forall p | p in ps :: p in t && p != [] && Visited(walk, Parent(p)))
    && (forall p | p in t && p != [] && Visited(walk, Parent(p)) :: p in ps)
  }

  ghost predicate EntriesOf(t: Tree, ps: seq<Path>, es: seq<CanonicalEntry>) {
    |es| == |ps| && forall i | 0 <= i < |ps| :: ps[i] in t && es[i] == EntryOf(t, ps[i])
  }

  /** The children a step lists, in the order it appends them. */
  ghost function ChildPaths(dir: Path, names: seq<string>): (ps: seq<Path>)
    ensures |ps| == |names| && forall i | 0 <= i < |names| :: ps[i] == dir + [names[i]]
  {
    seq(|names|, i requires 0 <= i < |names| => dir + [names[i]])
  }

  lemma StepChildren(t: Tree, step: WalkStep, names: seq<string>)
    requires IsListing(t, step) && multiset(names) == multiset(step.dirnames + step.filenames)
    ensures var ps := ChildPaths(step.dir, names);
            && Distinct(ps) && (forall p | p in ps :: p in t && p != [] && Parent(p) == step.dir)
            && (forall p | p in t && p != [] && Parent(p) == step.dir :: p in ps)
  {
    var ps := ChildPaths(step.dir, names);
    var listed := step.dirnames + step.filenames;
    DistinctPermuted(listed, names);
    SameMembers(names, listed);
    forall i, j | 0 <= i < j < |ps| ensures ps[i] != ps[j] {
      assert ps[i][|step.dir|] == names[i] && ps[j][|step.dir|] == names[j];
    }
    forall p | p in t && p != [] && Parent(p) == step.dir ensures p in ps {
      var n := p[|p| - 1];
      assert p == step.dir + [n];
      assert n in listed;
      var i :| 0 <= i < |names| && names[i] == n;
      assert ps[i] == p;
    }
    forall p | p in ps ensures p in t && p != [] && Parent(p) == step.dir {
      var i :| 0 <= i < |ps| && ps[i] == p;
      assert names[i] in names && names[i] in listed;
      assert Parent(p) == step.dir;
    }
  }

  lemma ListsOneMore(t: Tree, walk: seq<WalkStep>, k: nat, ps: seq<Path>, more: seq<Path>)
    requires IsWalk(t, walk) && k < |walk| && ListsChildren(t, walk[..k], ps)
    requires Distinct(more) && (forall p | p in more :: p in t && p != [] && Parent(p) == walk[k].dir)
    requires forall p | p in t && p != [] && Parent(p) == walk[k].dir :: p in more
    ensures ListsChildren(t, walk[..k + 1], ps + more)
  {
    hide IsListing;
    forall dir ensures Visited(walk[..k + 1], dir) <==> Visited(walk[..k], dir) || dir == walk[k].dir {
      VisitedStep(walk, k, dir);
    }
    assert !Visited(walk[..k], walk[k].dir);
    forall p | p in ps ensures p !in more {
    }
    var all := ps + more;
    forall i, j | 0 <= i < j < |all| ensures all[i] != all[j] {
      if i < |ps| <= j {
        assert all[i] in ps && all[j] in more;
      }
    }
  }

  lemma VisitedStep(walk: seq<WalkStep>, k: nat, dir: Path)
    requires k < |walk|
    ensures Visited(walk[..k + 1], dir) <==> Visited(walk[..k], dir) || dir == walk[k].dir
  {
    if Visited(walk[..k], dir) {
      var i :| 0 <= i < k && walk[..k][i].dir == dir;
      assert walk[..k + 1][i].dir == dir;
    }
    if dir == walk[k].dir {
      assert walk[..k + 1][k].dir == dir;
    }
    if Visited(walk[..k + 1], dir) && dir != walk[k].dir {
      var i :| 0 <= i < k + 1 && walk[..k + 1][i].dir == dir;
      assert walk[..k][i].dir == dir;
    }
  }

  method CollectCanonicalEntries(t: Tree, walk: seq<WalkStep>) returns (ok: bool, es: seq<CanonicalEntry>)
    requires WellFormed(t) && IsWalk(t, walk)
    ensures ok <==> forall p | p in t :: EntryAccepted(t, p)
    ensures ok ==> Lists(es, t)
  {
    hide WellFormed, ListsChildren, EntriesOf, StepAccepted, EntryAccepted, IsListing, Sort;
    es := [];
    ghost var ps: seq<Path> := [];
    ListsNone(t);
    for k := 0 to |walk|
      invariant EntriesOf(t, ps, es) && ListsChildren(t, walk[..k], ps)
      invariant forall i | 0 <= i < k :: StepAccepted(t, walk[i])
    {
      var more;
      var step := walk[k];
      ok, more := CollectStep(t, step);
      if !ok {
        RejectedEntry(t, step);
        return false, es;
      }
      ghost var names := Sort(step.dirnames, Identity) + Sort(step.filenames, Identity);
      SortMembers(step.dirnames, Identity);
      SortMembers(step.filenames, Identity);
      StepChildren(t, step, names);
      ListsOneMore(t, walk, k, ps, ChildPaths(step.dir, names));
      ChildrenEntries(t, step.dir, names);
      EntriesAppend(t, ps, es, ChildPaths(step.dir, names), more);
      es, ps := es + more, ps + ChildPaths(step.dir, names);
    }
    assert walk[..|walk|] == walk;
    AllAccepted(t, walk);
    SortedEntriesList(t, walk, ps, es);
    es := Sort(es, RelKey);
    return true, es;
  }

  lemma ListsNone(t: Tree)
    ensures ListsChildren(t, [], []) && EntriesOf(t, [], [])
  {
  }

  lemma ChildrenEntries(t: Tree, dir: Path, names: seq<string>)
    requires forall n | n in names :: dir + [n] in t
    ensures EntriesOf(t, ChildPaths(dir, names), ChildEntries(t, dir, names))
  {
    hide EntryOf;
  }

  lemma EntriesAppend(t: Tree, ps: seq<Path>, es: seq<CanonicalEntry>, ps': seq<Path>, es': seq<CanonicalEntry>)
    requires EntriesOf(t, ps, es) && EntriesOf(t, ps', es')
    ensures EntriesOf(t, ps + ps', es + es')
  {
    hide EntryOf;
  }

  lemma RejectedEntry(t: Tree, step: WalkStep)
    requires IsListing(t, step) && !StepAccepted(t, step)
    ensures exists p | p in t :: !EntryAccepted(t, p)
  {
    if n :| n in step.dirnames && !t[step.dir + [n]].Dir? {
      assert !EntryAccepted(t, step.dir + [n]);
    } else {
      var n :| n in step.filenames && !EntryAccepted(t, step.dir + [n]);
      assert step.dir + [n] in t;
    }
  }

  /** When every step is accepted, every entry of the tree was looked at and accepted. */
  lemma AllAccepted(t: Tree, walk: seq<WalkStep>)
    requires WellFormed(t) && IsWalk(t, walk)
    requires forall i | 0 <= i < |walk| :: StepAccepted(t, walk[i])
    ensures forall p | p in t :: EntryAccepted(t, p)
  {
    forall p | p in t ensures EntryAccepted(t, p) {
      ParentVisited(t, walk, p);
      var i :| 0 <= i < |walk| && walk[i].dir == Parent(p);
      assert StepAccepted(t, walk[i]) && IsListing(t, walk[i]);
      assert p == walk[i].dir + [p[|p| - 1]];
    }
  }

  lemma ParentVisited(t: Tree, walk: seq<WalkStep>, p: Path)
    requires WellFormed(t) && IsWalk(t, walk) && p in t
    ensures p != [] && Visited(walk, Parent(p))
  {
    hide IsListing;
    assert IsDirectory(t, Parent(p));
  }

  lemma SortedEntriesList(t: Tree, walk: seq<WalkStep>, ps: seq<Path>, es: seq<CanonicalEntry>)
    requires WellFormed(t) && IsWalk(t, walk) && EntriesOf(t, ps, es) && ListsChildren(t, walk, ps)
    ensures Lists(Sort(es, RelKey), t)
  {
    hide WellFormed, IsWalk, StrictlySortedBy, SortedBy, Sort, EntryOf, Split;
    var sorted := Sort(es, RelKey);
    SortMembers(es, RelKey);
    SortSorted(es, RelKey);
    SameMembers(sorted, es);
    forall p | p in t ensures EntryOf(t, p) in sorted {
      ParentVisited(t, walk, p);
      var i :| 0 <= i < |ps| && ps[i] == p;
      assert es[i] in es;
    }
    forall e | e in sorted ensures Split(e.relPath, '/') in t && e == EntryOf(t, Split(e.relPath, '/')) {
      var i :| 0 <= i < |es| && es[i] == e;
      EntrySplits(t, ps[i]);
    }
    EntriesDistinct(t, ps, es);
    DistinctPermuted(es, sorted);
    forall i, j | 0 <= i < j < |sorted| ensures RelKey(sorted[i]) != RelKey(sorted[j]) {
      assert sorted[i] in sorted && sorted[j] in sorted;
    }
    DistinctStrict(sorted, RelKey);
  }

  lemma EntrySplits(t: Tree, p: Path)
    requires WellFormed(t) && p in t
    ensures Split(EntryOf(t, p).relPath, '/') == p
  {
    SplitRelPath(t, p);
  }

  lemma EntriesDistinct(t: Tree, ps: seq<Path>, es: seq<CanonicalEntry>)
    requires WellFormed(t) && EntriesOf(t, ps, es) && Distinct(ps)
    ensures Distinct(es)
  {
    hide WellFormed, EntryOf, Split;
    forall i, j | 0 <= i < j < |es| ensures es[i] != es[j] {
      EntrySplits(t, ps[i]);
      EntrySplits(t, ps[j]);
    }
  }

  // ------------------------------------------------------------------ hashing

  /** The running hash, as the bytes fed to it so far. */
  class Digest {
    var fed: bytes

    constructor ()
      ensures fed == []
    {
      fed := [];
    }

    method Update(data: bytes)
      modifies this
      ensures fed == old(fed) + data
    {
      fed := fed + data;
    }
  }

  /**
   Feeds a file's bytes in arbitrary non-empty pieces: it succeeds exactly when the file has the
   size its entry recorded, and then the whole content has been fed.
   */
  method HashRegularFile(src: S.Source, digest: Digest, expectedSize: nat) returns (ok: bool)
    requires src.Valid() && src.pos == 0
    modifies src, digest
    ensures ok <==> src.sound && |src.content| == expectedSize
    ensures ok ==> digest.fed == old(digest.fed) + src.content
  {
    var hashed := 0;
    assert src.content[..0] == [];
    while hashed < expectedSize
      invariant src.Valid() && src.pos == hashed <= expectedSize
      invariant digest.fed == old(digest.fed) + src.content[..hashed]
    {
      var want := if expectedSize - hashed <= READ_CHUNK_SIZE then expectedSize - hashed else READ_CHUNK_SIZE;
      var chunk;
      ok, chunk := src.Read(want);
      if !ok || chunk == [] { return false; }
      digest.Update(chunk);
      hashed := hashed + |chunk|;
      assert src.content[..hashed] == src.content[..hashed - |chunk|] + chunk;
    }
    var extra;
    ok, extra := src.Read(1);
    if !ok || extra != [] { return false; }
    assert src.content[..hashed] == src.content;
    return true;
  }

  method FeedEntry(t: Tree, e: CanonicalEntry, utf8: Encoder, digest: Digest) returns (ok: bool)
    requires Split(e.relPath, '/') in t && e == EntryOf(t, Split(e.relPath, '/'))
    requires e.isDir || t[Split(e.relPath, '/')].File?
    modifies digest
    ensures ok <==> && utf8(e.relPath).Some? && |utf8(e.relPath).value| < Pow256(4)
                    && (!e.isDir ==> e.fileSize < Pow256(8))
    ensures ok ==> digest.fed == old(digest.fed) + EncodeFrame(FrameOf(t, e, utf8))
  {
    hide *;
    ghost var was := digest.fed;
    var tag := [if e.isDir then DIR_TAG else FILE_TAG];
    digest.Update(tag);
    var encoded := utf8(e.relPath);
    if encoded.None? { return false; }
    var pathBytes := encoded.value;
    if |pathBytes| >= Pow256(4) { return false; }
    digest.Update(BigEndian(|pathBytes|, 4));
    digest.Update(pathBytes);
    FrameParts(t, e, utf8);
    if !e.isDir {
      if e.fileSize >= Pow256(8) { return false; }
      ghost var content := t[Split(e.relPath, '/')].content;
      ok := FeedContent(t[Split(e.relPath, '/')].content, e.fileSize, digest);
      FileSize(t, e);
      Chained(was, tag, BigEndian(|pathBytes|, 4), pathBytes, BigEndian(e.fileSize, 8), content);
      return;
    }
    Chained(was, tag, BigEndian(|pathBytes|, 4), pathBytes, [], []);
    return true;
  }

  lemma FileSize(t: Tree, e: CanonicalEntry)
    requires Split(e.relPath, '/') in t && e == EntryOf(t, Split(e.relPath, '/'))
    requires t[Split(e.relPath, '/')].File?
    ensures e.fileSize == |t[Split(e.relPath, '/')].content|
  {
    hide Split;
  }

  lemma Chained(was: bytes, a: bytes, b: bytes, c: bytes, d: bytes, e: bytes)
    ensures was + a + b + c == was + (a + b + c)
    ensures was + a + b + c + d + e == was + (a + b + c + (d + e))
  {
  }

  /** The length announced for a file, and then the file. */
  method FeedContent(content: bytes, size: nat, digest: Digest) returns (ok: bool)
    modifies digest
    ensures ok <==> |content| == size
    ensures ok ==> digest.fed == old(digest.fed) + BigEndian(size, 8) + content
  {
    hide BigEndian;
    digest.Update(BigEndian(size, 8));
    var src := new S.Source(content, true);
    ok := HashRegularFile(src, digest, size);
  }

  /** The frame of an entry in the order it is fed. */
  lemma FrameParts(t: Tree, e: CanonicalEntry, utf8: Encoder)
    requires Split(e.relPath, '/') in t && e == EntryOf(t, Split(e.relPath, '/')) && utf8(e.relPath).Some?
    requires e.isDir || t[Split(e.relPath, '/')].File?
    ensures var path := utf8(e.relPath).value;
      EncodeFrame(FrameOf(t, e, utf8)) ==
      if e.isDir then [DIR_TAG] + BigEndian(|path|, 4) + path
      else
        [FILE_TAG] + BigEndian(|path|, 4) + path
        + (BigEndian(e.fileSize, 8) + t[Split(e.relPath, '/')].content)
  {
    hide Split, BigEndian;
  }

  /**
   The stream fed to the hash for a whole tree. The result depends on the tree alone, whatever
   order the walk enumerates it in and however its files are read.
   */
  method CanonicalTreeDigest(t: Tree, walk: seq<WalkStep>, utf8: Encoder) returns (ok: bool, digest: Digest)
    requires WellFormed(t) && IsWalk(t, walk)
    ensures ok <==> Hashable(t, utf8)
    ensures ok ==> StreamOf(t, digest.fed, utf8)
  {
    hide WellFormed, IsWalk, Lists, EncodeFrame, FrameOf, Split, Pow256, Hashable, EntryAccepted;
    digest := new Digest();
    var es;
    ok, es := CollectCanonicalEntries(t, walk);
    if !ok {
      UnacceptedNotHashable(t, utf8);
      return;
    }
    for k := 0 to |es|
      invariant digest.fed == EncodeFrames(FramesOf(t, es[..k], utf8))
      invariant forall i | 0 <= i < k :: EntryFeedable(t, es[i], utf8)
    {
      Listed(es, t, k);
      AcceptedKind(t, Split(es[k].relPath, '/'));
      FeedableOf(t, es[k], utf8);
      ok := FeedEntry(t, es[k], utf8, digest);
      if !ok { return; }
      FramesStep(t, es, k, utf8);
    }
    assert es[..|es|] == es;
    AllFeedable(t, es, utf8);
    return true, digest;
  }

  ghost predicate EntryFeedable(t: Tree, e: CanonicalEntry, utf8: Encoder) {
    utf8(e.relPath).Some? && |utf8(e.relPath).value| < Pow256(4) && (!e.isDir ==> e.fileSize < Pow256(8))
  }

  lemma UnacceptedNotHashable(t: Tree, utf8: Encoder)
    requires exists p | p in t :: !EntryAccepted(t, p)
    ensures !Hashable(t, utf8)
  {
    hide RelPath;
  }

  lemma AcceptedKind(t: Tree, p: Path)
    requires p in t && EntryAccepted(t, p)
    ensures EntryOf(t, p).isDir || t[p].File?
  {
  }

  lemma FeedableOf(t: Tree, e: CanonicalEntry, utf8: Encoder)
    requires WellFormed(t) && Split(e.relPath, '/') in t && e == EntryOf(t, Split(e.relPath, '/'))
    requires EntryAccepted(t, Split(e.relPath, '/'))
    ensures Hashable(t, utf8) ==> EntryFeedable(t, e, utf8)
  {
    hide Split;
  }

  lemma FramesStep(t: Tree, es: seq<CanonicalEntry>, k: nat, utf8: Encoder)
    requires k < |es|
    ensures EncodeFrames(FramesOf(t, es[..k + 1], utf8)) ==
            EncodeFrames(FramesOf(t, es[..k], utf8)) + EncodeFrame(FrameOf(t, es[k], utf8))
  {
    hide EncodeFrame, FrameOf;
    var fs := FramesOf(t, es[..k + 1], utf8);
    assert fs[..|fs| - 1] == FramesOf(t, es[..k], utf8);
  }

  lemma AllFeedable(t: Tree, es: seq<CanonicalEntry>, utf8: Encoder)
    requires WellFormed(t) && Lists(es, t) && (forall p | p in t :: EntryAccepted(t, p))
    requires forall i | 0 <= i < |es| :: EntryFeedable(t, es[i], utf8)
    ensures Hashable(t, utf8)
  {
    hide WellFormed, Lists, Pow256, Join;
    forall p | p in t
      ensures !t[p].Special? && (t[p].File? ==> t[p].links <= 1 && |t[p].content| < Pow256(8))
      ensures utf8(RelPath(p)).Some? && |utf8(RelPath(p)).value| < Pow256(4)
    {
      var i := ListedAt(es, t, p);
      assert EntryFeedable(t, es[i], utf8) && EntryAccepted(t, p);
    }
  }
}
