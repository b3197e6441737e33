/** The smallest directory tree that holds a list of files and directories. */
module LeastTree {
  import opened EntryNames
  import opened Staging

  datatype Item = Item(path: Path, entry: Entry)

  /** `a` is a file where `b` needs a directory. */
  predicate Conflict(a: Item, b: Item) {
    a.entry.File? && a.path < b.path
  }

  ghost predicate ConflictFree(items: seq<Item>) {
    forall a, b | a in items && b in items :: !Conflict(a, b)
  }

  /** `p` bound to `e` is there because of `item`: its own entry, or one of its ancestors. */
  predicate Accounts(item: Item, p: Path, e: Entry) {
    if p == item.path then e == item.entry else p <= item.path && e == Dir
  }

  ghost predicate Accounted(items: seq<Item>, p: Path, e: Entry) {
    exists item | item in items :: Accounts(item, p, e)
  }

  ghost predicate Holds(t: Tree, items: seq<Item>) {
    forall item | item in items :: item.path in t && t[item.path] == item.entry
  }

  ghost predicate Minimal(t: Tree, items: seq<Item>) {
    forall p | p in t :: Accounted(items, p, t[p])
  }

  ghost predicate IsLeastTree(t: Tree, items: seq<Item>) {
    WellFormed(t) && Holds(t, items) && Minimal(t, items)
  }

  lemma EmptyIsLeast()
    ensures IsLeastTree(map[], [])
  {
  }

  lemma Present(t: Tree, items: seq<Item>, item: Item, p: Path)
    requires IsLeastTree(t, items) && item in items && p != [] && p <= item.path
    ensures p in t
    ensures p != item.path ==> t[p] == Dir
  {
    if p != item.path {
      assert item.path[..|p|] == p;
      assert IsDir(t, item.path[..|p|]);
    }
  }

  lemma Because(t: Tree, items: seq<Item>, p: Path) returns (item: Item)
    requires IsLeastTree(t, items) && p in t
    ensures item in items && Accounts(item, p, t[p])
  {
    assert Accounted(items, p, t[p]);
    item :| item in items && Accounts(item, p, t[p]);
  }

  /** The least tree depends only on which items there are, not on their order or repetition. */
  lemma LeastTreeUnique(t: Tree, items: seq<Item>, t': Tree, items': seq<Item>)
    requires IsLeastTree(t, items) && IsLeastTree(t', items')
    requires forall item :: item in items <==> item in items'
    ensures t == t'
  {
    hide IsLeastTree;
    forall p | p in t ensures p in t' && t'[p] == t[p] {
      LeastTreeIncluded(t, items, t', items', p);
    }
    forall p | p in t' ensures p in t {
      LeastTreeIncluded(t', items', t, items, p);
    }
  }

  lemma LeastTreeIncluded(t: Tree, items: seq<Item>, t': Tree, items': seq<Item>, p: Path)
    requires IsLeastTree(t, items) && IsLeastTree(t', items')
    requires forall item :: item in items <==> item in items'
    requires p in t
    ensures p in t' && t'[p] == t[p]
  {
    hide IsLeastTree;
    NonEmptyPath(t, items, p);
    var item := Because(t, items, p);
    Present(t', items', item, p);
    ItemHeld(t', items', item);
  }

  lemma NonEmptyPath(t: Tree, items: seq<Item>, p: Path)
    requires IsLeastTree(t, items) && p in t
    ensures p != []
  {
  }

  lemma ItemHeld(t: Tree, items: seq<Item>, item: Item)
    requires IsLeastTree(t, items) && item in items
    ensures item.path in t && t[item.path] == item.entry && item.path != []
  {
  }

  /** Going down to `p` is blocked exactly by an item that is a file at `p` or above it. */
  lemma BlockedIff(t: Tree, items: seq<Item>, p: Path)
    requires IsLeastTree(t, items)
    ensures Blocked(t, p) <==> exists item | item in items :: item.entry.File? && item.path <= p
  {
    hide IsLeastTree;
    if Blocked(t, p) {
      var k :| 0 < k <= |p| && IsFile(t, p[..k]);
      var item := Because(t, items, p[..k]);
      assert item.path <= p;
    }
    if item :| item in items && item.entry.File? && item.path <= p {
      ItemHeld(t, items, item);
      assert p[..|item.path|] == item.path;
      assert IsFile(t, p[..|item.path|]);
    }
  }

  /** A path is taken exactly when some item is at it or below it. */
  lemma TakenIff(t: Tree, items: seq<Item>, p: Path)
    requires IsLeastTree(t, items) && p != []
    ensures p in t <==> exists item | item in items :: p <= item.path
  {
    hide IsLeastTree;
    if p in t {
      var item := Because(t, items, p);
      assert p <= item.path;
    }
    if item :| item in items && p <= item.path {
      Present(t, items, item, p);
    }
  }

  lemma AddDirsAccounted(t: Tree, items: seq<Item>, p: Path, item: Item, q: Path)
    requires Minimal(t, items) && p <= item.path && (p == item.path ==> item.entry == Dir)
    requires q in AddDirs(t, p)
    ensures Accounted(items + [item], q, AddDirs(t, p)[q])
  {
    if q in t {
      assert Accounted(items, q, t[q]);
      var earlier :| earlier in items && Accounts(earlier, q, t[q]);
      assert earlier in items + [item];
    } else {
      assert q <= p && q <= item.path;
      assert Accounts(item, q, Dir) && item in items + [item];
    }
  }

  lemma PlaceDir(t: Tree, items: seq<Item>, item: Item)
    requires IsLeastTree(t, items) && item.entry.Dir? && item.path != [] && !Blocked(t, item.path)
    ensures IsLeastTree(AddDirs(t, item.path), items + [item])
  {
    hide WellFormed, Accounted;
    var p := item.path;
    var t' := AddDirs(t, p);
    AddDirsWellFormed(t, p);
    assert p[..|p|] == p;
    assert p in Ancestors(p) && !IsFile(t, p);
    forall q | q in t' ensures Accounted(items + [item], q, t'[q]) {
      AddDirsAccounted(t, items, p, item, q);
    }
  }

  lemma PlaceFile(t: Tree, items: seq<Item>, item: Item)
    requires IsLeastTree(t, items) && item.entry.File? && CanCreate(t, item.path)
    ensures IsLeastTree(Created(t, item.path, item.entry.content), items + [item])
  {
    hide WellFormed, Accounted, Blocked;
    var p := item.path;
    var t' := Created(t, p, item.entry.content);
    CreatedIsWellFormed(t, p, item.entry.content);
    forall q | q in t' ensures Accounted(items + [item], q, t'[q]) {
      if q == p {
        ItemAccountsForItself(items, item);
      } else {
        AddDirsAccounted(t, items, p[..|p| - 1], item, q);
      }
    }
  }

  lemma ItemAccountsForItself(items: seq<Item>, item: Item)
    ensures Accounted(items + [item], item.path, item.entry)
  {
    assert item in items + [item] && Accounts(item, item.path, item.entry);
  }

  // ------------------------------------------------------------------ placing one item

  /** The file system lets `item` be created in `t`, parents included. */
  ghost predicate Fits(t: Tree, item: Item) {
    item.path != [] && if item.entry.Dir? then !Blocked(t, item.path) else CanCreate(t, item.path)
  }

  ghost function Placed(t: Tree, item: Item): Tree
    requires item.path != []
  {
    if item.entry.Dir? then AddDirs(t, item.path) else Created(t, item.path, item.entry.content)
  }

  lemma PlaceItem(t: Tree, items: seq<Item>, item: Item)
    requires IsLeastTree(t, items) && Fits(t, item)
    ensures IsLeastTree(Placed(t, item), items + [item]) && WellFormed(Placed(t, item))
    ensures Written(Placed(t, item)) == Written(t) + SizeOf(item.entry)
  {
    hide Written, Blocked;
    if item.entry.Dir? {
      PlaceDir(t, items, item);
      WrittenAddDirs(t, item.path);
    } else {
      PlaceFile(t, items, item);
      CreatedIsWellFormed(t, item.path, item.entry.content);
    }
  }

  ghost predicate ConflictsWithNone(items: seq<Item>, item: Item) {
    forall earlier | earlier in items :: !Conflict(earlier, item) && !Conflict(item, earlier)
  }

  /** A path not seen before fits exactly when it conflicts with nothing placed, either way round. */
  lemma FitsIff(t: Tree, items: seq<Item>, item: Item)
    requires IsLeastTree(t, items) && item.path != []
    requires forall earlier | earlier in items :: earlier.path != item.path
    ensures Fits(t, item) <==> ConflictsWithNone(items, item)
  {
    hide IsLeastTree, Blocked;
    var p := item.path;
    var parent := p[..|p| - 1];
    BlockedIff(t, items, p);
    BlockedIff(t, items, parent);
    TakenIff(t, items, p);
    forall earlier: Item | earlier in items ensures earlier.path <= parent <==> earlier.path < p {
      assert parent < p;
    }
  }

  lemma ConflictFreeStep(items: seq<Item>, item: Item)
    requires ConflictFree(items)
    ensures ConflictFree(items + [item]) <==> ConflictsWithNone(items, item)
  {
    assert item in items + [item];
    assert forall i | i in items :: i in items + [item];
  }
}
