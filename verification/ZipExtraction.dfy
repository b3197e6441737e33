/** Extraction of a validated ZIP entry list into an empty staging directory. */
module ZipExtraction {
  import opened Binary
  import opened EntryNames
  import opened LeastTree
  import opened Limits
  import opened Staging

  /** One listed entry: its declared size, the bytes its stream delivers, and whether it ends without an error. */
  datatype ZipInfo = ZipInfo(filename: string, symlink: bool, declaredSize: nat, content: bytes, sound: bool) {
    predicate IsDir() {
      filename != "" && filename[|filename| - 1] == '/'
    }

    /** The path and content the entry asks for. */
    function AsItem(): Item {
      Item(Parts(filename), if IsDir() then Dir else File(content))
    }
  }

  function Items(infos: seq<ZipInfo>): (items: seq<Item>)
    ensures |items| == |infos|
    ensures forall i | 0 <= i < |infos| :: items[i] == infos[i].AsItem()
  {
    seq(|infos|, i requires 0 <= i < |infos| => infos[i].AsItem())
  }

  function DeclaredTotal(infos: seq<ZipInfo>): nat {
    if infos == [] then 0
    else
      var last := infos[|infos| - 1];
      DeclaredTotal(infos[..|infos| - 1]) + (if last.IsDir() then 0 else last.declaredSize)
  }

  function ContentTotal(infos: seq<ZipInfo>): nat {
    if infos == [] then 0
    else
      var last := infos[|infos| - 1];
      ContentTotal(infos[..|infos| - 1]) + (if last.IsDir() then 0 else |last.content|)
  }

  // ------------------------------------------------------------------ acceptance

  function Names(infos: seq<ZipInfo>): (names: seq<string>)
    ensures |names| == |infos| && forall i | 0 <= i < |infos| :: names[i] == infos[i].filename
  {
    seq(|infos|, i requires 0 <= i < |infos| => infos[i].filename)
  }

  ghost predicate NoSymlinks(infos: seq<ZipInfo>) {
    forall i | 0 <= i < |infos| :: infos[i].IsDir() || !infos[i].symlink
  }

  ghost predicate AllSound(infos: seq<ZipInfo>) {
    forall i | 0 <= i < |infos| :: infos[i].IsDir() || infos[i].sound
  }

  /** What the entry list must satisfy for extraction to succeed. */
  ghost predicate Acceptable(infos: seq<ZipInfo>, count: nat, limit: nat, rules: NameRules) {
    && |infos| == count <= 10_000
    && NamesAccepted(Names(infos), rules)
    && NoSymlinks(infos)
    && DeclaredTotal(infos) <= 50 * 1024 * 1024 * 1024
    && ContentTotal(infos) <= limit
    && AllSound(infos)
    && (forall i | 0 <= i < |infos| :: infos[i].AsItem().path != [])
    && ConflictFree(Items(infos))
  }

  method ValidateZipEntries(infos: seq<ZipInfo>, registry: Registry, rules: NameRules) returns (ok: bool)
    requires registry.seen == {}
    modifies registry
    ensures ok <==> && |infos| <= MAX_ARCHIVE_ENTRIES && NamesAccepted(Names(infos), rules) && NoSymlinks(infos)
                    && DeclaredTotal(infos) <= MAX_EXPANDED_BYTES
  {
    hide ValidName, LogicalKey, NamesAccepted, Keys, Names;
    var entryCount := 0;
    var totalBytes := 0;
    NoNames(infos, rules);
    while entryCount < |infos|
      invariant entryCount <= |infos| && entryCount <= MAX_ARCHIVE_ENTRIES
      invariant totalBytes == DeclaredTotal(infos[..entryCount]) <= MAX_EXPANDED_BYTES
      invariant NamesAccepted(Names(infos[..entryCount]), rules) && NoSymlinks(infos[..entryCount])
      invariant registry.seen == Keys(Names(infos[..entryCount]), rules)
    {
      var info := infos[entryCount];
      assert infos[..entryCount + 1][..entryCount] == infos[..entryCount];
      DeclaredMonotone(infos, entryCount + 1);
      NamesPrefixStep(infos, entryCount, rules);
      entryCount := entryCount + 1;
      var registered := registry.Register(info.filename, rules);
      if !registered {
        assert infos[entryCount - 1] == info;
        return false;
      }
      if entryCount > MAX_ARCHIVE_ENTRIES { return false; }
      if !info.IsDir() {
        if info.symlink { return false; }
        totalBytes := totalBytes + info.declaredSize;
        if totalBytes > MAX_EXPANDED_BYTES { return false; }
      }
    }
    assert infos[..entryCount] == infos;
    return true;
  }

  lemma NoNames(infos: seq<ZipInfo>, rules: NameRules)
    ensures NamesAccepted(Names(infos[..0]), rules) && Keys(Names(infos[..0]), rules) == {}
  {
    hide ValidName, LogicalKey;
  }

  lemma NamesPrefixStep(infos: seq<ZipInfo>, k: nat, rules: NameRules)
    requires k < |infos|
    ensures var less, more, name := Names(infos[..k]), Names(infos[..k + 1]), infos[k].filename;
            && Keys(more, rules) == Keys(less, rules) + {LogicalKey(name, rules)}
            && (NamesAccepted(more, rules) <==>
                NamesAccepted(less, rules) && ValidName(name, rules) && LogicalKey(name, rules) !in Keys(less, rules))
            && (NamesAccepted(Names(infos), rules) ==> NamesAccepted(more, rules))
  {
    hide ValidName, LogicalKey, NamesAccepted, Keys;
    NamesStep(Names(infos[..k]), infos[k].filename, rules);
    assert Names(infos[..k + 1]) == Names(infos[..k]) + [infos[k].filename];
    assert Names(infos[..k + 1]) == Names(infos)[..k + 1];
    if NamesAccepted(Names(infos), rules) {
      NamesPrefix(Names(infos), k + 1, rules);
    }
  }

  lemma {:induction false} DeclaredMonotone(infos: seq<ZipInfo>, k: nat)
    requires k <= |infos|
    ensures DeclaredTotal(infos[..k]) <= DeclaredTotal(infos)
    decreases |infos|
  {
    if k < |infos| {
      var shorter := infos[..|infos| - 1];
      assert shorter[..k] == infos[..k];
      DeclaredMonotone(shorter, k);
    } else {
      assert infos[..k] == infos;
    }
  }

  lemma {:induction false} ContentMonotone(infos: seq<ZipInfo>, k: nat)
    requires k <= |infos|
    ensures ContentTotal(infos[..k]) <= ContentTotal(infos)
    decreases |infos|
  {
    if k < |infos| {
      var shorter := infos[..|infos| - 1];
      assert shorter[..k] == infos[..k];
      ContentMonotone(shorter, k);
    } else {
      assert infos[..k] == infos;
    }
  }

  lemma EarlierItemsDiffer(infos: seq<ZipInfo>, k: nat, rules: NameRules)
    requires k < |infos| && NamesAccepted(Names(infos), rules)
    ensures ValidName(infos[k].filename, rules)
    ensures forall item | item in Items(infos[..k]) :: item.path != infos[k].AsItem().path
  {
    hide ValidName, Parts, NamesAccepted;
    EarlierPathsDiffer(Names(infos), k, rules);
    forall item | item in Items(infos[..k]) ensures item.path != infos[k].AsItem().path {
      var i :| 0 <= i < k && item == Items(infos[..k])[i];
      assert Names(infos)[i] == infos[i].filename;
    }
  }

  lemma ItemsStep(infos: seq<ZipInfo>, k: nat)
    requires k < |infos|
    ensures Items(infos[..k + 1]) == Items(infos[..k]) + [infos[k].AsItem()]
    ensures forall item | item in Items(infos[..k]) :: item in Items(infos)
    ensures infos[k].AsItem() in Items(infos)
  {
    hide Parts;
    forall item | item in Items(infos[..k]) ensures item in Items(infos) {
      var i :| 0 <= i < k && item == Items(infos[..k])[i];
      assert item == Items(infos)[i];
    }
    assert infos[k].AsItem() == Items(infos)[k];
  }

  // ------------------------------------------------------------------ extraction

  /** Creates one entry: a directory, or a file filled from the entry's stream. */
  method ExtractEntry(info: ZipInfo, staging: StagingDirectory, budget: Budget, rules: NameRules)
    returns (ok: bool)
    requires WellFormed(staging.tree) && budget.total <= budget.limit && ValidName(info.filename, rules)
    modifies staging, budget
    ensures Suffix(staging.writes, old(staging.writes))
    ensures Written(staging.tree) - Written(old(staging.tree)) <= budget.total - old(budget.total)
    ensures Written(staging.tree) - Written(old(staging.tree)) <= budget.limit - old(budget.total)
    ensures ok ==> && (info.IsDir() || info.sound) && Fits(old(staging.tree), info.AsItem())
                   && staging.tree == Placed(old(staging.tree), info.AsItem())
                   && budget.total == old(budget.total) + SizeOf(info.AsItem().entry) <= budget.limit
    ensures WritesSucceed(old(staging.writes)) ==>
              (ok <==> (info.IsDir() || info.sound) && Fits(old(staging.tree), info.AsItem())
                       && old(budget.total) + SizeOf(info.AsItem().entry) <= budget.limit)
  {
    hide ValidName, Parts, Suffix, WritesSucceed, Written, Created, AddDirs, Blocked, WellFormed;
    SuffixSelf(staging.writes);
    if info.IsDir() {
      WrittenAddDirs(staging.tree, Parts(info.filename));
      ok := staging.MkdirEntry(info.filename, rules);
    } else {
      var src := new Source(info.content, info.sound);
      ghost var n;
      ghost var was := staging.tree;
      ok, n := staging.WriteEntryStream(info.filename, rules, src, budget);
      CreatedWritten(was, Parts(info.filename), info.content[..n]);
      assert ok ==> info.content[..n] == info.content;
    }
  }

  lemma CreatedWritten(t: Tree, p: Path, content: bytes)
    requires WellFormed(t)
    ensures CanCreate(t, p) ==> Written(Created(t, p, content)) == Written(t) + |content|
  {
    hide Written, WellFormed;
    if CanCreate(t, p) {
      CreatedIsWellFormed(t, p, content);
    }
  }

  lemma NothingWritten()
    ensures Written(map[]) == 0
  {
  }

  /** Why one more entry does or does not fit, in terms of the entry list alone. */
  lemma ExtractionStep(t: Tree, infos: seq<ZipInfo>, k: nat, rules: NameRules)
    requires k < |infos| && NamesAccepted(Names(infos), rules)
    requires IsLeastTree(t, Items(infos[..k])) && ConflictFree(Items(infos[..k]))
    ensures var item := infos[k].AsItem();
            && (Fits(t, item) ==> && item.path != []
                                  && IsLeastTree(Placed(t, item), Items(infos[..k + 1]))
                                  && WellFormed(Placed(t, item))
                                  && Written(Placed(t, item)) == Written(t) + SizeOf(item.entry)
                                  && ConflictFree(Items(infos[..k + 1])))
            && (!Fits(t, item) ==> item.path == [] || !ConflictFree(Items(infos)))
  {
    hide IsLeastTree, Placed, Fits, ConflictFree, Written, Parts, Items, NamesAccepted;
    var items, item := Items(infos[..k]), infos[k].AsItem();
    ItemsStep(infos, k);
    EarlierItemsDiffer(infos, k, rules);
    ConflictFreeStep(items, item);
    if ConflictFree(Items(infos)) {
      ConflictFreeAmong(infos, k + 1);
    }
    if item.path != [] {
      FitsIff(t, items, item);
    }
    if Fits(t, item) {
      FitsHasPath(t, item);
      PlaceItem(t, items, item);
    }
  }

  lemma FitsHasPath(t: Tree, item: Item)
    requires Fits(t, item)
    ensures item.path != []
  {
  }

  lemma ConflictFreeAmong(infos: seq<ZipInfo>, k: nat)
    requires k <= |infos| && ConflictFree(Items(infos))
    ensures ConflictFree(Items(infos[..k]))
  {
    hide Parts;
    forall item | item in Items(infos[..k]) ensures item in Items(infos) {
      var i :| 0 <= i < k && item == Items(infos[..k])[i];
      assert item == Items(infos)[i];
    }
  }

  lemma ContentStep(infos: seq<ZipInfo>, k: nat)
    requires k < |infos|
    ensures ContentTotal(infos[..k + 1]) == ContentTotal(infos[..k]) + SizeOf(infos[k].AsItem().entry)
    ensures ContentTotal(infos[..k + 1]) <= ContentTotal(infos)
  {
    hide Parts;
    assert infos[..k + 1][..k] == infos[..k];
    ContentMonotone(infos, k + 1);
  }

  method ExtractZipArchive(
    infos: seq<ZipInfo>, entryCount: nat, staging: StagingDirectory, budget: Budget, registry: Registry,
    rules: NameRules) returns (ok: bool)
    requires staging.tree == map[] && budget.total == 0 && registry.seen == {}
    modifies staging, budget, registry
    ensures Written(staging.tree) <= budget.limit && Written(staging.tree) <= budget.total
    ensures ok ==> && Acceptable(infos, entryCount, budget.limit, rules)
                   && IsLeastTree(staging.tree, Items(infos))
                   && budget.total == Written(staging.tree) == ContentTotal(infos)
    ensures WritesSucceed(old(staging.writes)) ==>
              (ok <==> Acceptable(infos, entryCount, budget.limit, rules))
  {
    hide ValidName, LogicalKey, Parts, Suffix, WritesSucceed, Written, Placed, Fits, IsLeastTree, Items,
         NamesAccepted, NoSymlinks, DeclaredTotal, ContentTotal, ConflictFree, WellFormed;
    NothingWritten();
    EmptyIsLeast();
    SuffixSelf(staging.writes);
    if |infos| != entryCount { return false; }
    var validated := ValidateZipEntries(infos, registry, rules);
    if !validated { return false; }
    var k := 0;
    StartsEmpty(infos);
    while k < |infos|
      invariant k <= |infos|
      invariant WellFormed(staging.tree) && IsLeastTree(staging.tree, Items(infos[..k]))
      invariant ConflictFree(Items(infos[..k])) && forall i | 0 <= i < k :: infos[i].AsItem().path != []
      invariant budget.total == Written(staging.tree) == ContentTotal(infos[..k]) <= budget.limit
      invariant Suffix(staging.writes, old(staging.writes))
      invariant forall i | 0 <= i < k :: infos[i].IsDir() || infos[i].sound
    {
      ghost var script := staging.writes;
      ExtractionStep(staging.tree, infos, k, rules);
      ContentStep(infos, k);
      EarlierItemsDiffer(infos, k, rules);
      ok := ExtractEntry(infos[k], staging, budget, rules);
      SuffixTrans(old(staging.writes), script, staging.writes);
      if !ok { return false; }
      k := k + 1;
    }
    assert infos[..k] == infos;
    return true;
  }

  lemma StartsEmpty(infos: seq<ZipInfo>)
    ensures infos[..0] == [] && Items(infos[..0]) == [] && ContentTotal(infos[..0]) == 0
    ensures WellFormed(map[]) && ConflictFree([])
  {
  }

  /** An entry is a directory exactly if its name ends in a slash; its path does not depend on that slash. */
  lemma EntryKindIff(info: ZipInfo)
    ensures info.AsItem().entry.Dir? <==> exists front :: info.filename == front + "/"
    ensures forall front | info.filename == front + "/" :: info.AsItem().path == Parts(front)
    ensures !info.AsItem().entry.Dir? ==> info.AsItem().entry == File(info.content)
  {
    hide Parts;
    if info.AsItem().entry.Dir? {
      assert info.filename == info.filename[..|info.filename| - 1] + "/";
    }
    forall front | info.filename == front + "/" ensures info.AsItem().path == Parts(front) {
      StrippedParts(front + "/");
      StrippedParts(front);
      SlashStripped(front);
    }
  }

  lemma SlashStripped(front: string)
    ensures StripSlashes(front + "/") == StripSlashes(front)
  {
    assert (front + "/")[..|front|] == front;
  }
}
