/**
 The canonical byte stream of a directory tree: the framing, its decoder, and the walk, sort and
 streaming that produce it.
 */
module CanonicalTree {
  import opened Binary
  import opened Collections
  import opened Ordering
  import opened Paths

  type Path = seq<string>

  /** A directory entry; anything that is neither a directory nor a regular file is `Special`. */
  datatype Node = Dir | File(content: bytes, links: nat) | Special

  type Tree = map<Path, Node>

  /** UTF-8 encoding of a relative path; not every string has one. */
  type Encoder = string -> Option<bytes>

  ghost predicate Injective(utf8: Encoder) {
    forall a, b | utf8(a).Some? && utf8(a) == utf8(b) :: a == b
  }

  ghost predicate WellFormed(t: Tree) {
    forall p | p in t ::
      && p != [] && (forall name | name in p :: name != "" && '/' !in name)
      && forall k | 0 < k < |p| :: p[..k] in t && t[p[..k]].Dir?
  }

  function RelPath(p: Path): string {
    Join(p, '/')
  }

  // ------------------------------------------------------------------ framing and its decoder

  const DIR_TAG: byte := 0x44
  const FILE_TAG: byte := 0x46

  /** What one entry contributes to the stream. */
  datatype Frame = DirFrame(path: bytes) | FileFrame(path: bytes, content: bytes)

  ghost predicate Frameable(f: Frame) {
    |f.path| < Pow256(4) && (f.FileFrame? ==> |f.content| < Pow256(8))
  }

  function EncodeFrame(f: Frame): bytes {
    match f
    case DirFrame(path) => [DIR_TAG] + BigEndian(|path|, 4) + path
    case FileFrame(path, content) =>
      [FILE_TAG] + BigEndian(|path|, 4) + path + (BigEndian(|content|, 8) + content)
  }

  function EncodeFrames(fs: seq<Frame>): bytes {
    if fs == [] then [] else EncodeFrames(fs[..|fs| - 1]) + EncodeFrame(fs[|fs| - 1])
  }

  /** The frame at the front of a stream, and how many bytes it takes. */
  function TakeFrame(s: bytes): Option<(Frame, nat)> {
    if |s| < 5 then None
    else
      var n := FromBigEndian(s[1..5]);
      if |s| < 5 + n then None
      else if s[0] == DIR_TAG then Some((DirFrame(s[5..5 + n]), 5 + n))
      else if s[0] != FILE_TAG || |s| < 13 + n then None
      else
        var m := FromBigEndian(s[5 + n..13 + n]);
        if |s| < 13 + n + m then None
        else Some((FileFrame(s[5..5 + n], s[13 + n..13 + n + m]), 13 + n + m))
  }

  function DecodeFrames(s: bytes): Option<seq<Frame>> {
    if s == [] then Some([])
    else
      match TakeFrame(s)
      case None => None
      case Some((f, n)) =>
        if n == 0 || n > |s| then None
        else
          match DecodeFrames(s[n..])
          case None => None
          case Some(fs) => Some([f] + fs)
  }

  lemma TakeEncodedDir(path: bytes, rest: bytes)
    requires |path| < Pow256(4)
    ensures var s := EncodeFrame(DirFrame(path)) + rest;
            TakeFrame(s) == Some((DirFrame(path), 5 + |path|)) && s[5 + |path|..] == rest
  {
    var s := EncodeFrame(DirFrame(path)) + rest;
    BigEndianRoundTrip(|path|, 4);
    FourParts([DIR_TAG], BigEndian(|path|, 4), path, rest);
    assert s == [DIR_TAG] + BigEndian(|path|, 4) + path + rest;
    assert s[0] == DIR_TAG && s[1..5] == BigEndian(|path|, 4) && s[5..5 + |path|] == path;
  }

  lemma TakeEncodedFile(path: bytes, content: bytes, rest: bytes)
    requires |path| < Pow256(4) && |content| < Pow256(8)
    ensures var s := EncodeFrame(FileFrame(path, content)) + rest;
            var n := 13 + |path| + |content|;
            TakeFrame(s) == Some((FileFrame(path, content), n)) && |s| == n + |rest| && s[n..] == rest
  {
    hide BigEndian, FromBigEndian;
    var s := EncodeFrame(FileFrame(path, content)) + rest;
    var head, body := BigEndian(|path|, 4), BigEndian(|content|, 8) + content + rest;
    BigEndianRoundTrip(|path|, 4);
    BigEndianRoundTrip(|content|, 8);
    assert s == [FILE_TAG] + head + path + body;
    FourParts([FILE_TAG], head, path, body);
    assert s[0] == FILE_TAG && s[1..5] == head && s[5..5 + |path|] == path && s[5 + |path|..] == body;
    FourParts(BigEndian(|content|, 8), content, rest, []);
    assert BigEndian(|content|, 8) + content + rest + [] == body;
    var a := 5 + |path|;
    SubSlice(s, a, |s|, 0, 8);
    SubSlice(s, a, |s|, 8, 8 + |content|);
    SubSlice(s, a, |s|, 8 + |content|, |body|);
    assert |s| == a + |body| && |body| == 8 + |content| + |rest|;
    assert s[a..a + 8] == BigEndian(|content|, 8);
    assert s[a + 8..a + 8 + |content|] == content;
    assert s[a + 8 + |content|..] == rest;
  }

  lemma TakeEncoded(f: Frame, rest: bytes)
    requires Frameable(f)
    ensures var s, n := EncodeFrame(f) + rest, |EncodeFrame(f)|;
            n > 0 && TakeFrame(s) == Some((f, n)) && s[n..] == rest
  {
    match f
    case DirFrame(path) => TakeEncodedDir(path, rest);
    case FileFrame(path, content) => TakeEncodedFile(path, content, rest);
  }

  lemma {:induction false} EncodeFramesFront(f: Frame, fs: seq<Frame>)
    ensures EncodeFrames([f] + fs) == EncodeFrame(f) + EncodeFrames(fs)
  {
    hide EncodeFrame;
    var all := [f] + fs;
    if fs == [] {
      assert all == [f] && all[..0] == [];
    } else {
      assert all[..|all| - 1] == [f] + fs[..|fs| - 1];
      EncodeFramesFront(f, fs[..|fs| - 1]);
    }
  }

  /** Decoding undoes framing, so the framed stream determines its frames. */
  lemma {:induction false} DecodeEncode(fs: seq<Frame>)
    requires forall i | 0 <= i < |fs| :: Frameable(fs[i])
    ensures DecodeFrames(EncodeFrames(fs)) == Some(fs)
  {
    hide EncodeFrame, TakeFrame, Frameable;
    if fs != [] {
      var f, rest := fs[0], fs[1..];
      assert fs == [f] + rest;
      EncodeFramesFront(f, rest);
      TakeEncoded(f, EncodeFrames(rest));
      DecodeEncode(rest);
    }
  }

  // ------------------------------------------------------------------ the entries of a tree

  datatype CanonicalEntry = CanonicalEntry(relPath: string, isDir: bool, fileSize: nat)

  function RelKey(e: CanonicalEntry): string {
    e.relPath
  }

  function EntryOf(t: Tree, p: Path): CanonicalEntry
    requires p in t
  {
    CanonicalEntry(RelPath(p), t[p].Dir?, if t[p].File? then |t[p].content| else 0)
  }

  /** `es` is the sorted list of the entries of `t`. */
  ghost predicate Lists(es: seq<CanonicalEntry>, t: Tree) {
    && StrictlySortedBy(es, RelKey)
    && (forall e | e in es :: Split(e.relPath, '/') in t && e == EntryOf(t, Split(e.relPath, '/')))
    && (forall p | p in t :: EntryOf(t, p) in es)
  }

  /** The tree can be hashed: only directories and unshared regular files, every path encodable. */
  ghost predicate Hashable(t: Tree, utf8: Encoder) {
    forall p | p in t ::
      && !t[p].Special? && (t[p].File? ==> t[p].links <= 1 && |t[p].content| < Pow256(8))
      && utf8(RelPath(p)).Some? && |utf8(RelPath(p)).value| < Pow256(4)
  }

  ghost predicate SameTree(t: Tree, t': Tree) {
    && t.Keys == t'.Keys
    && forall p | p in t ::
         && (t[p].Dir? <==> t'[p].Dir?) && (t[p].File? <==> t'[p].File?)
         && (t[p].File? ==> t[p].content == t'[p].content)
  }

  function PathBytes(rel: string, utf8: Encoder): bytes {
    match utf8(rel)
    case None => []
    case Some(b) => b
  }

  function FrameOf(t: Tree, e: CanonicalEntry, utf8: Encoder): Frame {
    var p := Split(e.relPath, '/');
    if e.isDir then DirFrame(PathBytes(e.relPath, utf8))
    else FileFrame(PathBytes(e.relPath, utf8), if p in t && t[p].File? then t[p].content else [])
  }

  function FramesOf(t: Tree, es: seq<CanonicalEntry>, utf8: Encoder): (fs: seq<Frame>)
    ensures |fs| == |es| && forall i | 0 <= i < |es| :: fs[i] == FrameOf(t, es[i], utf8)
  {
    seq(|es|, i requires 0 <= i < |es| => FrameOf(t, es[i], utf8))
  }

  /** `s` is the stream of `t`: its sorted entries, framed. */
  ghost predicate StreamOf(t: Tree, s: bytes, utf8: Encoder) {
    exists es :: Lists(es, t) && s == EncodeFrames(FramesOf(t, es, utf8))
  }

  lemma SplitRelPath(t: Tree, p: Path)
    requires WellFormed(t) && p in t
    ensures Split(RelPath(p), '/') == p
  {
    SplitJoin(p, '/');
  }

  lemma FramesFrameable(t: Tree, es: seq<CanonicalEntry>, utf8: Encoder)
    requires WellFormed(t) && Hashable(t, utf8) && Lists(es, t)
    ensures forall i | 0 <= i < |es| :: Frameable(FramesOf(t, es, utf8)[i])
  {
    hide StrictlySortedBy, Split, Join;
    forall i | 0 <= i < |es| ensures Frameable(FramesOf(t, es, utf8)[i]) {
      var p := Split(es[i].relPath, '/');
      assert es[i] in es;
      assert es[i] == EntryOf(t, p);
    }
  }

  /** A tree's stream does not depend on how its entries were listed. */
  lemma StreamUnique(t: Tree, s: bytes, t': Tree, s': bytes, utf8: Encoder)
    requires WellFormed(t) && WellFormed(t') && StreamOf(t, s, utf8) && StreamOf(t', s', utf8)
    requires SameTree(t, t')
    ensures s == s'
  {
    hide WellFormed, SameTree, Lists, StrictlySortedBy, FrameOf;
    var es :| Lists(es, t) && s == EncodeFrames(FramesOf(t, es, utf8));
    var es' :| Lists(es', t') && s' == EncodeFrames(FramesOf(t', es', utf8));
    SameTreeSymmetric(t, t');
    SameEntries(t, es, t', es');
    SameEntries(t', es', t, es);
    ListsSorted(es, t);
    ListsSorted(es', t');
    StrictlySortedUnique(es, es', RelKey);
    FramesAgree(t, t', es, utf8);
  }

  lemma SameTreeSymmetric(t: Tree, t': Tree)
    requires SameTree(t, t')
    ensures SameTree(t', t)
  {
  }

  lemma ListsSorted(es: seq<CanonicalEntry>, t: Tree)
    requires Lists(es, t)
    ensures StrictlySortedBy(es, RelKey)
  {
  }

  lemma FramesAgree(t: Tree, t': Tree, es: seq<CanonicalEntry>, utf8: Encoder)
    requires SameTree(t, t')
    ensures FramesOf(t, es, utf8) == FramesOf(t', es, utf8)
  {
    hide Split, PathBytes;
    forall i | 0 <= i < |es| ensures FrameOf(t, es[i], utf8) == FrameOf(t', es[i], utf8) {
      var p := Split(es[i].relPath, '/');
      assert p in t <==> p in t';
    }
  }

  /** The entry at one position, as the tree gives it. */
  lemma Listed(es: seq<CanonicalEntry>, t: Tree, i: nat)
    requires Lists(es, t) && i < |es|
    ensures Split(es[i].relPath, '/') in t && es[i] == EntryOf(t, Split(es[i].relPath, '/'))
  {
    hide StrictlySortedBy, Split, Join;
    assert es[i] in es;
  }

  lemma ListedAt(es: seq<CanonicalEntry>, t: Tree, p: Path) returns (i: nat)
    requires Lists(es, t) && p in t
    ensures i < |es| && es[i] == EntryOf(t, p)
  {
    hide StrictlySortedBy, Split, Join;
    i :| 0 <= i < |es| && es[i] == EntryOf(t, p);
  }

  lemma SamePathBytes(t: Tree, t': Tree, p: Path, p': Path, utf8: Encoder)
    requires Hashable(t, utf8) && Hashable(t', utf8) && Injective(utf8) && p in t && p' in t'
    requires PathBytes(RelPath(p), utf8) == PathBytes(RelPath(p'), utf8)
    ensures RelPath(p) == RelPath(p')
    ensures !t[p].Special? && !t'[p'].Special?
  {
    hide Join;
  }

  lemma SameEntries(t: Tree, es: seq<CanonicalEntry>, t': Tree, es': seq<CanonicalEntry>)
    requires Lists(es, t) && Lists(es', t') && SameTree(t, t')
    ensures forall e | e in es :: e in es'
  {
    hide StrictlySortedBy, Split, Join, Lists, SameTree;
    forall e | e in es ensures e in es' {
      var i :| 0 <= i < |es| && es[i] == e;
      var p := Split(e.relPath, '/');
      Listed(es, t, i);
      SameNode(t, t', p);
      var j := ListedAt(es', t', p);
      assert es'[j] == e;
    }
  }

  lemma SameNode(t: Tree, t': Tree, p: Path)
    requires SameTree(t, t') && p in t
    ensures p in t' && EntryOf(t, p) == EntryOf(t', p)
  {
    hide Join;
  }

  /** Equal streams come from equal trees. */
  lemma StreamInjective(t: Tree, t': Tree, s: bytes, utf8: Encoder)
    requires WellFormed(t) && WellFormed(t') && Hashable(t, utf8) && Hashable(t', utf8) && Injective(utf8)
    requires StreamOf(t, s, utf8) && StreamOf(t', s, utf8)
    ensures SameTree(t, t')
  {
    hide WellFormed, Hashable, Injective, Lists, SameTree;
    var es :| Lists(es, t) && s == EncodeFrames(FramesOf(t, es, utf8));
    var es' :| Lists(es', t') && s == EncodeFrames(FramesOf(t', es', utf8));
    FramesFrameable(t, es, utf8);
    FramesFrameable(t', es', utf8);
    DecodeEncode(FramesOf(t, es, utf8));
    DecodeEncode(FramesOf(t', es', utf8));
    SameFramesSameTree(t, es, t', es', utf8);
  }

  lemma SameFramesSameTree(
    t: Tree, es: seq<CanonicalEntry>, t': Tree, es': seq<CanonicalEntry>, utf8: Encoder)
    requires WellFormed(t) && WellFormed(t') && Hashable(t, utf8) && Hashable(t', utf8) && Injective(utf8)
    requires Lists(es, t) && Lists(es', t')
    requires FramesOf(t, es, utf8) == FramesOf(t', es', utf8)
    ensures SameTree(t, t')
  {
    hide WellFormed, Hashable, Injective, Lists;
    forall p | p in t
      ensures p in t' && (t[p].Dir? <==> t'[p].Dir?) && (t[p].File? <==> t'[p].File?)
      ensures t[p].File? ==> t[p].content == t'[p].content
    {
      FrameGivesEntry(t, es, t', es', p, utf8);
    }
    forall p | p in t' ensures p in t {
      FrameGivesEntry(t', es', t, es, p, utf8);
    }
  }

  lemma FrameGivesEntry(
    t: Tree, es: seq<CanonicalEntry>, t': Tree, es': seq<CanonicalEntry>, p: Path, utf8: Encoder)
    requires WellFormed(t) && WellFormed(t') && Hashable(t, utf8) && Hashable(t', utf8) && Injective(utf8)
    requires Lists(es, t) && Lists(es', t') && p in t
    requires FramesOf(t, es, utf8) == FramesOf(t', es', utf8)
    ensures p in t' && (t[p].Dir? <==> t'[p].Dir?) && (t[p].File? <==> t'[p].File?)
    ensures t[p].File? ==> t[p].content == t'[p].content
  {
    hide WellFormed, Hashable, Injective, Lists, Split, Join, PathBytes;
    var i := ListedAt(es, t, p);
    var p' := Split(es'[i].relPath, '/');
    Listed(es', t', i);
    assert FramesOf(t, es, utf8)[i] == FramesOf(t', es', utf8)[i];
    SplitRelPath(t, p);
    SplitRelPath(t', p');
    SamePathBytes(t, t', p, p', utf8);
  }

  // ------------------------------------------------------------------ what a frame looks like

  /** A directory "a" is six bytes; a file "a" of two bytes has its length and content after those. */
  lemma FramesLookLike()
    ensures EncodeFrame(DirFrame([0x61])) == [0x44, 0x00, 0x00, 0x00, 0x01, 0x61]
    ensures EncodeFrame(FileFrame([0x61], [0x01, 0x02])) ==
      [0x46, 0x00, 0x00, 0x00, 0x01, 0x61, 0x00, 0x00, 0x00, 0x00, 0x00, 0x00, 0x00, 0x02, 0x01, 0x02]
  {
    hide BigEndian;
    OneInFour();
    TwoInEight();
  }

  lemma OneInFour()
    ensures BigEndian(1, 4) == [0x00, 0x00, 0x00, 0x01]
  {
    SmallBigEndian(1, 3);
    hide BigEndian;
  }

  lemma TwoInEight()
    ensures BigEndian(2, 8) == [0x00, 0x00, 0x00, 0x00, 0x00, 0x00, 0x00, 0x02]
  {
    SmallBigEndian(2, 7);
    hide BigEndian;
  }

  lemma {:induction false} SmallBigEndian(value: byte, zeros: nat)
    ensures BigEndian(value, zeros + 1) == seq(zeros, _ => 0 as byte) + [value]
  {
    BigEndianZero(zeros);
  }

  lemma {:induction false} BigEndianZero(width: nat)
    ensures BigEndian(0, width) == seq(width, _ => 0 as byte)
  {
    if width > 0 {
      BigEndianZero(width - 1);
    }
  }
}
