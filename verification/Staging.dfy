/**
 The staging tree an archive is extracted into: directory creation, exclusive file creation,
 and bounded copying of a stream into a file under short and interrupted writes.
 */
module Staging {
  import opened Binary
  import opened EntryNames
  import opened Limits
  import opened Paths

  datatype Entry = Dir | File(content: bytes)

  type Tree = map<Path, Entry>

  /** Every entry's proper ancestors are directories of the tree; the root is implicit. */
  ghost predicate WellFormed(t: Tree) {
    forall p | p in t :: p != [] && forall k | 0 < k < |p| :: IsDir(t, p[..k])
  }

  predicate IsDir(t: Tree, p: Path) {
    p in t && t[p].Dir?
  }

  predicate IsFile(t: Tree, p: Path) {
    p in t && t[p].File?
  }

  ghost predicate ParentExists(t: Tree, p: Path) {
    forall k | 0 < k < |p| :: IsDir(t, p[..k])
  }

  /** Some component on the way down to `p`, or `p` itself, is a file. */
  ghost predicate Blocked(t: Tree, p: Path) {
    exists k | 0 < k <= |p| :: IsFile(t, p[..k])
  }

  ghost function Ancestors(p: Path): set<Path> {
    set k | 0 < k <= |p| :: p[..k]
  }

  /** `t` with every missing component of `p` added as a directory. */
  ghost function AddDirs(t: Tree, p: Path): Tree {
    map q | q in t.Keys + Ancestors(p) :: if q in t then t[q] else Dir
  }

  // ------------------------------------------------------------------ bytes held

  ghost function SizeOf(e: Entry): nat {
    match e
    case Dir => 0
    case File(content) => |content|
  }

  /** The bytes held by the files among `ps`. */
  ghost function BytesIn(t: Tree, ps: set<Path>): nat
    requires ps <= t.Keys
  {
    if ps == {} then 0 else
    var p :| p in ps;
    SizeOf(t[p]) + BytesIn(t, ps - {p})
  }

  ghost function Written(t: Tree): nat {
    BytesIn(t, t.Keys)
  }

  lemma {:induction false} BytesInSplit(t: Tree, ps: set<Path>, p: Path)
    requires ps <= t.Keys && p in ps
    ensures BytesIn(t, ps) == SizeOf(t[p]) + BytesIn(t, ps - {p})
    decreases |ps|
  {
    var q :| q in ps && BytesIn(t, ps) == SizeOf(t[q]) + BytesIn(t, ps - {q});
    if q != p {
      BytesInSplit(t, ps - {q}, p);
      BytesInSplit(t, ps - {p}, q);
      assert ps - {q} - {p} == ps - {p} - {q};
    }
  }

  lemma {:induction false} BytesInAgree(t: Tree, t': Tree, ps: set<Path>)
    requires ps <= t.Keys && ps <= t'.Keys
    requires forall p | p in ps :: SizeOf(t[p]) == SizeOf(t'[p])
    ensures BytesIn(t, ps) == BytesIn(t', ps)
    decreases |ps|
  {
    if ps != {} {
      var p :| p in ps;
      BytesInSplit(t, ps, p);
      BytesInSplit(t', ps, p);
      BytesInAgree(t, t', ps - {p});
    }
  }

  /** Rebinding one path changes the total by that path's share. */
  lemma WrittenUpdate(t: Tree, p: Path, e: Entry)
    ensures Written(t[p := e]) == Written(t) - (if p in t then SizeOf(t[p]) else 0) + SizeOf(e)
  {
    var t' := t[p := e];
    BytesInSplit(t', t'.Keys, p);
    assert t'.Keys - {p} == t.Keys - {p};
    BytesInAgree(t, t', t.Keys - {p});
    if p in t {
      BytesInSplit(t, t.Keys, p);
    } else {
      assert t.Keys - {p} == t.Keys;
    }
  }

  lemma {:induction false} DirsHoldNothing(t: Tree, ps: set<Path>, extra: set<Path>)
    requires ps <= t.Keys && extra <= t.Keys && ps !! extra
    requires forall p | p in extra :: t[p].Dir?
    ensures BytesIn(t, ps + extra) == BytesIn(t, ps)
    decreases |extra|
  {
    if extra == {} {
      assert ps + extra == ps;
    } else {
      var p :| p in extra;
      BytesInSplit(t, ps + extra, p);
      assert ps + extra - {p} == ps + (extra - {p});
      DirsHoldNothing(t, ps, extra - {p});
    }
  }

  lemma WrittenAddDirs(t: Tree, p: Path)
    ensures Written(AddDirs(t, p)) == Written(t)
  {
    var t' := AddDirs(t, p);
    var extra := t'.Keys - t.Keys;
    assert t'.Keys == t.Keys + extra;
    DirsHoldNothing(t', t.Keys, extra);
    BytesInAgree(t, t', t.Keys);
  }

  // ------------------------------------------------------------------ budget and registry

  class Budget {
    const limit: nat
    var total: nat

    constructor (limit: nat)
      ensures this.limit == limit && total == 0
    {
      this.limit := limit;
      total := 0;
    }

    /** Debits first and complains afterwards, so a failed debit leaves the total over the limit. */
    method Consume(n: nat) returns (ok: bool)
      modifies this
      ensures total == old(total) + n
      ensures ok <==> total <= limit
    {
      total := total + n;
      return total <= limit;
    }
  }

  class Registry {
    var seen: set<string>

    constructor ()
      ensures seen == {}
    {
      seen := {};
    }

    method Register(name: string, rules: NameRules) returns (ok: bool)
      modifies this
      ensures ok <==> ValidName(name, rules) && LogicalKey(name, rules) !in old(seen)
      ensures seen == if ok then old(seen) + {LogicalKey(name, rules)} else old(seen)
    {
      if !ValidName(name, rules) { return false; }
      var key := LogicalKey(name, rules);
      if key in seen { return false; }
      seen := seen + {key};
      return true;
    }
  }

  // ------------------------------------------------------------------ source streams

  /**
   A readable stream; each read returns an arbitrary non-empty piece until the end. A stream that is
   not sound raises there, as a decompressor does on a bad checksum, instead of ending.
   */
  class Source {
    const content: bytes
    const sound: bool
    var pos: nat

    ghost predicate Valid()
      reads this
    {
      pos <= |content|
    }

    constructor (content: bytes, sound: bool)
      ensures Valid() && this.content == content && this.sound == sound && pos == 0
    {
      this.content := content;
      this.sound := sound;
      pos := 0;
    }

    method Read(size: nat) returns (ok: bool, chunk: bytes)
      requires Valid() && size > 0
      modifies this
      ensures Valid() && old(pos) <= pos
      ensures ok <==> sound || old(pos) < |content|
      ensures chunk == content[old(pos)..pos] && |chunk| <= size
      ensures chunk == [] <==> old(pos) == |content|
    {
      if pos == |content| { return sound, []; }
      ok := true;
      var available := if size <= |content| - pos then size else |content| - pos;
      var n: nat :| 1 <= n <= available;
      chunk := content[pos..pos + n];
      pos := pos + n;
    }
  }

  // ------------------------------------------------------------------ the staging directory

  /** What the next os.write does: accept up to `n` bytes, be interrupted, or fail. */
  datatype WriteOutcome = Accepts(n: nat) | Interrupted | Failed

  /** No write fails outright or stalls at zero bytes; past the script, writes are complete. */
  ghost predicate WritesSucceed(script: seq<WriteOutcome>) {
    forall i | 0 <= i < |script| :: !script[i].Failed? && script[i] != Accepts(0)
  }

  /** Interrupted and short writes do no harm; a failed one, or one that takes nothing, does. */
  lemma WritesSucceedIff(first: WriteOutcome, script: seq<WriteOutcome>)
    ensures WritesSucceed([])
    ensures WritesSucceed([first] + script) <==>
      WritesSucceed(script) && match first { case Interrupted => true case Failed => false case Accepts(n) => n > 0 }
  {
    assert forall i | 0 <= i < |script| :: ([first] + script)[i + 1] == script[i];
    assert ([first] + script)[0] == first;
  }

  /** Past the script, writes are complete. */
  function NextWrite(script: seq<WriteOutcome>, size: nat): WriteOutcome {
    if script == [] then Accepts(size) else script[0]
  }

  function LaterWrites(script: seq<WriteOutcome>): seq<WriteOutcome> {
    if script == [] then [] else script[1..]
  }

  function Accepted(outcome: WriteOutcome, size: nat): (n: nat)
    ensures n <= size
  {
    if !outcome.Accepts? then 0 else if outcome.n <= size then outcome.n else size
  }

  ghost predicate Suffix(script: seq<WriteOutcome>, of: seq<WriteOutcome>) {
    |script| <= |of| && script == of[|of| - |script|..]
  }

  ghost function Grown(t: Tree, p: Path, data: bytes): Tree
    requires IsFile(t, p)
  {
    t[p := File(t[p].content + data)]
  }

  class StagingDirectory {
    var tree: Tree
    var writes: seq<WriteOutcome>

    constructor (writes: seq<WriteOutcome>)
      ensures tree == map[] && this.writes == writes
    {
      tree := map[];
      this.writes := writes;
    }

    /** Creates every missing component of `parts`, descending through each one. */
    method MkdirParts(parts: Path) returns (ok: bool)
      requires WellFormed(tree)
      modifies this`tree
      ensures WellFormed(tree)
      ensures ok <==> !Blocked(old(tree), parts)
      ensures tree == if ok then AddDirs(old(tree), parts) else old(tree)
    {
      ghost var was := tree;
      var current: Path := [];
      AddDirsNone(tree);
      while |current| < |parts|
        invariant |current| <= |parts| && current == parts[..|current|]
        invariant WellFormed(was)
        invariant tree == AddDirs(was, current) && !Blocked(was, current)
      {
        var next := parts[..|current| + 1];
        AddDirsStep(was, parts, |current|);
        if next !in tree {
          tree := tree[next := Dir];
        }
        if !tree[next].Dir? {
          assert IsFile(was, next);
          return false;
        }
        current := next;
      }
      assert current == parts;
      AddDirsWellFormed(was, parts);
      return true;
    }

    /** Opens each parent component as a directory, then creates the leaf exclusively. */
    method OpenEntryForWrite(parts: Path) returns (ok: bool)
      requires WellFormed(tree)
      modifies this`tree
      ensures WellFormed(tree)
      ensures ok <==> parts != [] && ParentExists(old(tree), parts) && parts !in old(tree)
      ensures tree == if ok then old(tree)[parts := File([])] else old(tree)
    {
      if parts == [] { return false; }
      var k := 1;
      while k < |parts|
        invariant 1 <= k <= |parts|
        invariant forall j | 0 < j < k :: IsDir(tree, parts[..j])
      {
        if !IsDir(tree, parts[..k]) { return false; }
        k := k + 1;
      }
      if parts in tree { return false; }
      tree := tree[parts := File([])];
      return true;
    }

    /** Writes all of `data`, retrying short and interrupted writes. */
    method WriteAll(path: Path, data: bytes) returns (ok: bool, ghost n: nat)
      requires IsFile(tree, path)
      modifies this
      ensures n <= |data| && tree == Grown(old(tree), path, data[..n])
      ensures ok ==> n == |data|
      ensures Suffix(writes, old(writes))
      ensures WritesSucceed(old(writes)) ==> ok
    {
      var total := 0;
      GrownNone(tree, path);
      while total < |data|
        invariant total <= |data|
        invariant IsFile(tree, path) && tree == Grown(old(tree), path, data[..total])
        invariant Suffix(writes, old(writes))
        decreases |data| - total, |writes|
      {
        var outcome := if writes == [] then Accepts(|data|) else writes[0];
        assert WritesSucceed(old(writes)) ==> !outcome.Failed? && outcome != Accepts(0);
        writes := if writes == [] then [] else writes[1..];
        if outcome.Failed? { return false, total; }
        if outcome.Accepts? {
          var written := if outcome.n <= |data| - total then outcome.n else |data| - total;
          if written == 0 { return false, total; }
          GrownTwice(old(tree), path, data, 0, total, total + written);
          tree := tree[path := File(tree[path].content + data[total..total + written])];
          total := total + written;
        }
      }
      return true, total;
    }

    /** One write, taken as it comes: how many of the bytes were accepted is not looked at. */
    method WriteOnce(path: Path, data: bytes) returns (ok: bool, ghost n: nat)
      requires IsFile(tree, path)
      modifies this
      ensures n <= |data| && tree == Grown(old(tree), path, data[..n])
      ensures ok <==> NextWrite(old(writes), |data|).Accepts?
      ensures n == Accepted(NextWrite(old(writes), |data|), |data|)
      ensures writes == LaterWrites(old(writes))
    {
      var outcome := NextWrite(writes, |data|);
      writes := LaterWrites(writes);
      GrownNone(tree, path);
      if !outcome.Accepts? { return false, 0; }
      var written := Accepted(outcome, |data|);
      tree := tree[path := File(tree[path].content + data[..written])];
      return true, written;
    }

    /** Debits each chunk before writing it, until the source is exhausted or the budget is. */
    method CopyStreamBounded(src: Source, path: Path, budget: Budget) returns (ok: bool, ghost n: nat)
      requires IsFile(tree, path) && src.Valid() && budget.total <= budget.limit
      modifies this, src, budget
      ensures n <= |src.content| - old(src.pos) && old(budget.total) + n <= budget.limit
      ensures n <= budget.total - old(budget.total)
      ensures tree == Grown(old(tree), path, src.content[old(src.pos)..old(src.pos) + n])
      ensures Suffix(writes, old(writes))
      ensures ok ==> src.sound && n == |src.content| - old(src.pos) && budget.total == old(budget.total) + n
      ensures WritesSucceed(old(writes)) ==>
                (ok <==> src.sound && old(budget.total) + |src.content| - old(src.pos) <= budget.limit)
    {
      hide Grown, Suffix, WritesSucceed;
      n := 0;
      GrownNone(tree, path);
      SuffixSelf(writes);
      assert src.content[src.pos..src.pos] == [];
      while true
        invariant IsFile(tree, path) && src.Valid() && old(src.pos) + n == src.pos
        invariant budget.total == old(budget.total) + n <= budget.limit
        invariant tree == Grown(old(tree), path, src.content[old(src.pos)..src.pos])
        invariant Suffix(writes, old(writes))
        decreases |src.content| - src.pos
      {
        ghost var from := src.pos;
        var chunk;
        ok, chunk := src.Read(COPY_CHUNK_SIZE);
        if !ok { return false, n; }
        if chunk == [] { return true, n; }
        ok := budget.Consume(|chunk|);
        if !ok { return false, n; }
        ghost var m;
        ghost var script := writes;
        ok, m := WriteAll(path, chunk);
        SuffixTrans(old(writes), script, writes);
        GrownTwice(old(tree), path, src.content, old(src.pos), from, from + m);
        assert chunk[..m] == src.content[from..from + m];
        n := n + m;
        if !ok { return false, n; }
      }
    }

    /** Creates a directory entry and its parents. */
    method MkdirEntry(name: string, rules: NameRules) returns (ok: bool)
      requires WellFormed(tree)
      modifies this`tree
      ensures WellFormed(tree)
      ensures ok <==> ValidName(name, rules) && Parts(name) != [] && !Blocked(old(tree), Parts(name))
      ensures tree == if ok then AddDirs(old(tree), Parts(name)) else old(tree)
    {
      if !ValidName(name, rules) { return false; }
      StrippedParts(name);
      var parts := Parts(StripSlashes(name));
      if parts == [] { return false; }
      ok := MkdirParts(parts);
    }

    /** Creates the parents, then the file, then copies the stream into it. */
    method WriteEntryStream(name: string, rules: NameRules, src: Source, budget: Budget)
      returns (ok: bool, ghost n: nat)
      requires WellFormed(tree) && src.Valid() && budget.total <= budget.limit
      modifies this, src, budget
      ensures WellFormed(tree) && Suffix(writes, old(writes))
      ensures !ValidName(name, rules) || !CanCreate(old(tree), Parts(name)) ==>
                !ok && n == 0 && budget.total == old(budget.total) && Written(tree) == Written(old(tree))
      ensures ValidName(name, rules) && CanCreate(old(tree), Parts(name)) ==>
                && n <= |src.content| - old(src.pos)
                && tree == Created(old(tree), Parts(name), src.content[old(src.pos)..old(src.pos) + n])
                && old(budget.total) + n <= budget.limit && n <= budget.total - old(budget.total)
      ensures ok ==> src.sound && n == |src.content| - old(src.pos) && budget.total == old(budget.total) + n
      ensures WritesSucceed(old(writes)) ==>
                (ok <==> && src.sound && ValidName(name, rules) && CanCreate(old(tree), Parts(name))
                         && old(budget.total) + |src.content| - old(src.pos) <= budget.limit)
    {
      hide Grown, ValidName, Parts, Suffix, WritesSucceed, Written, Blocked, AddDirs, WellFormed;
      SuffixSelf(writes);
      var parts := Parts(name);
      var parents := if parts == [] then [] else parts[..|parts| - 1];
      WrittenAddDirs(tree, parents);
      ghost var was := tree;
      if parents != [] {
        var parentName := Join(parents, '/');
        if ValidName(name, rules) {
          AncestorNamesValid(name, |parents|, rules);
        }
        ParentNameParts(name, |parents|);
        var made := MkdirEntry(parentName, rules);
        if !made { return false, 0; }
      } else {
        AddDirsNone(tree);
        NothingBlocksRoot(tree);
      }
      if !ValidName(name, rules) { return false, 0; }
      if parts == [] { return false, 0; }
      LeafAfterParents(was, parts);
      var created := OpenEntryForWrite(parts);
      if !created { return false, 0; }
      CreatedIsWellFormed(was, parts, []);
      ghost var from := src.pos;
      ok, n := CopyStreamBounded(src, parts, budget);
      GrownIsCreated(was, parts, src.content[from..from + n]);
      CreatedIsWellFormed(was, parts, src.content[from..from + n]);
    }
  }

  /** A file can be created at `p`, making its parents on the way. */
  ghost predicate CanCreate(t: Tree, p: Path) {
    p != [] && !Blocked(t, p[..|p| - 1]) && p !in t
  }

  ghost function Created(t: Tree, p: Path, content: bytes): Tree
    requires p != []
  {
    AddDirs(t, p[..|p| - 1])[p := File(content)]
  }

  // ------------------------------------------------------------------ facts the methods use

  lemma AddDirsNone(t: Tree)
    ensures AddDirs(t, []) == t
  {
    assert Ancestors([]) == {};
  }

  lemma AddDirsStep(t: Tree, parts: Path, k: nat)
    requires WellFormed(t) && k < |parts| && !Blocked(t, parts[..k])
    ensures var next, before := parts[..k + 1], AddDirs(t, parts[..k]);
            && AddDirs(t, next) == (if next in before then before else before[next := Dir])
            && (IsFile(before, next) <==> IsFile(t, next))
            && (Blocked(t, next) <==> IsFile(t, next))
            && (IsFile(t, next) ==> before == t && Blocked(t, parts))
  {
    var next, before := parts[..k + 1], AddDirs(t, parts[..k]);
    AncestorsStep(parts, k);
    assert next[..k + 1] == next && parts[..k + 1] == next;
    if IsFile(t, next) {
      forall q | q in Ancestors(parts[..k]) ensures q in t {
        var j :| 0 < j <= k && q == parts[..k][..j];
        assert q == next[..j] && IsDir(t, next[..j]);
      }
    }
    forall j | 0 < j <= k ensures !IsFile(t, next[..j]) {
      assert next[..j] == parts[..k][..j];
    }
  }

  lemma AncestorsStep(parts: Path, k: nat)
    requires k < |parts|
    ensures Ancestors(parts[..k + 1]) == Ancestors(parts[..k]) + {parts[..k + 1]}
  {
    var next := parts[..k + 1];
    assert next[..k + 1] == next;
    forall j | 0 < j <= k ensures next[..j] == parts[..k][..j] {
    }
    forall q | q in Ancestors(parts[..k]) ensures q in Ancestors(next) {
      var j :| 0 < j <= k && q == parts[..k][..j];
      assert q == next[..j];
    }
    forall q | q in Ancestors(next) ensures q in Ancestors(parts[..k]) + {next} {
      var j :| 0 < j <= k + 1 && q == next[..j];
    }
  }

  lemma AddDirsWellFormed(t: Tree, p: Path)
    requires WellFormed(t) && !Blocked(t, p)
    ensures WellFormed(AddDirs(t, p))
  {
    var t' := AddDirs(t, p);
    forall q, k | q in t' && 0 < k < |q| ensures IsDir(t', q[..k]) {
      if q in t {
        assert IsDir(t, q[..k]);
      } else {
        var j :| 0 < j <= |p| && q == p[..j];
        assert q[..k] == p[..k];
        assert p[..k] in Ancestors(p);
        assert !IsFile(t, p[..k]);
      }
    }
  }

  lemma SuffixSelf(a: seq<WriteOutcome>)
    ensures Suffix(a, a)
  {
  }

  lemma SuffixTrans(a: seq<WriteOutcome>, b: seq<WriteOutcome>, c: seq<WriteOutcome>)
    requires Suffix(b, a) && Suffix(c, b)
    ensures Suffix(c, a)
    ensures WritesSucceed(a) ==> WritesSucceed(b) && WritesSucceed(c)
  {
    SubSlice(a, |a| - |b|, |a|, |b| - |c|, |b|);
  }

  lemma ParentNameParts(name: string, n: nat)
    requires 0 < n <= |Parts(name)|
    ensures Parts(Join(Parts(name)[..n], '/')) == Parts(name)[..n]
  {
    var parts := Parts(name)[..n];
    assert forall p | p in parts :: p in Parts(name);
    PartsOfJoin(parts);
  }

  lemma NothingBlocksRoot(t: Tree)
    ensures !Blocked(t, [])
  {
  }

  lemma LeafAfterParents(t: Tree, p: Path)
    requires p != [] && WellFormed(t) && !Blocked(t, p[..|p| - 1])
    ensures ParentExists(AddDirs(t, p[..|p| - 1]), p)
    ensures p in AddDirs(t, p[..|p| - 1]) <==> p in t
  {
    var parent := p[..|p| - 1];
    forall k | 0 < k < |p| ensures IsDir(AddDirs(t, parent), p[..k]) {
      assert p[..k] == parent[..k];
      assert parent[..k] in Ancestors(parent);
      assert !IsFile(t, parent[..k]);
    }
    forall q | q in Ancestors(parent) ensures |q| < |p| {
    }
  }

  lemma CreatedIsWellFormed(t: Tree, p: Path, content: bytes)
    requires WellFormed(t) && CanCreate(t, p)
    ensures WellFormed(Created(t, p, content))
    ensures IsFile(Created(t, p, content), p)
    ensures Written(Created(t, p, content)) == Written(t) + |content|
  {
    hide Written;
    var parent := p[..|p| - 1];
    AddDirsWellFormed(t, parent);
    LeafAfterParents(t, p);
    WrittenAddDirs(t, parent);
    WrittenUpdate(AddDirs(t, parent), p, File(content));
    var t' := Created(t, p, content);
    forall q, k | q in t' && 0 < k < |q| ensures IsDir(t', q[..k]) {
      if q == p {
        assert IsDir(AddDirs(t, parent), p[..k]);
      } else {
        assert IsDir(AddDirs(t, parent), q[..k]);
      }
    }
  }

  lemma GrownIsCreated(t: Tree, p: Path, content: bytes)
    requires p != []
    ensures Grown(Created(t, p, []), p, content) == Created(t, p, content)
  {
    assert [] + content == content;
  }

  lemma GrownNone(t: Tree, p: Path)
    requires IsFile(t, p)
    ensures Grown(t, p, []) == t
  {
    assert t[p].content + [] == t[p].content;
  }

  lemma GrownTwice(t: Tree, p: Path, data: bytes, from: nat, mid: nat, to: nat)
    requires IsFile(t, p) && from <= mid <= to <= |data|
    ensures IsFile(Grown(t, p, data[from..to]), p) && IsFile(Grown(t, p, data[from..mid]), p)
    ensures Grown(Grown(t, p, data[from..mid]), p, data[mid..to]) == Grown(t, p, data[from..to])
  {
    assert data[from..mid] + data[mid..to] == data[from..to];
    assert t[p].content + data[from..mid] + data[mid..to] == t[p].content + data[from..to];
  }
}
