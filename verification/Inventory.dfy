/** The table of files resolved on disk: unique by lookup key, and unique by path. */
module Inventory {
  import opened Collections

  type RowId = nat
  type Path = string

  datatype Key = Key(fileId: nat, kind: string, language: string)

  datatype Stat = Stat(size: nat, mtime: int)

  datatype Row = Row(key: Key, mediaType: string, path: Path, stat: Stat, lastSeen: int)

  type Rows = map<RowId, Row>

  /** No language is the same as the empty one. */
  function KeyOf(fileId: nat, kind: string, language: Option<string>): Key {
    Key(fileId, kind, if language.Some? then language.value else "")
  }

  ghost predicate BothUnique(rows: Rows) {
    forall a, b | a in rows && b in rows && a != b :: rows[a].key != rows[b].key && rows[a].path != rows[b].path
  }

  /** The table as a relation between keys and paths. */
  ghost function Pairs(rows: Rows): set<(Key, Path)> {
    set id | id in rows :: (rows[id].key, rows[id].path)
  }

  /** One to one in both directions. */
  ghost predicate IsMatching(pairs: set<(Key, Path)>) {
    forall a, b | a in pairs && b in pairs && a != b :: a.0 != b.0 && a.1 != b.1
  }

  /** Binding a key to a path takes the place of every pair that shares either. */
  ghost function Bind(pairs: set<(Key, Path)>, key: Key, path: Path): set<(Key, Path)> {
    (set p | p in pairs && p.0 != key && p.1 != path) + {(key, path)}
  }

  /** The rows that an upsert leaves alone. */
  ghost function Others(rows: Rows, key: Key, path: Path): Rows {
    map id | id in rows && rows[id].key != key && rows[id].path != path :: rows[id]
  }

  /** The row of the key brought up to date with its file. */
  ghost function Refreshed(rows: Rows, key: Key, stat: Stat, now: int): Rows {
    map id | id in rows ::
      if rows[id].key == key && rows[id].stat != stat then rows[id].(stat := stat, lastSeen := now) else rows[id]
  }

  class Table {
    var rows: Rows

    constructor ()
      ensures rows == map[] && BothUnique(rows)
    {
      rows := map[];
    }

    /**
     * The path is bound to the key. A row that had the path is rewritten, else one that had the key,
     * else a new row is made; no other row is touched, save one removed because it had the key.
     */
    method UpsertInventoryPath(
      fileId: nat, kind: string, language: Option<string>, mediaType: string, path: Path, stat: Option<Stat>, now: int,
      newId: RowId)
      requires BothUnique(rows) && newId !in rows
      modifies this
      ensures BothUnique(rows)
      ensures stat.None? ==> rows == old(rows)
      ensures stat.Some? ==> Pairs(rows) == Bind(Pairs(old(rows)), KeyOf(fileId, kind, language), path)
      ensures stat.Some? ==> exists id: RowId :: var key := KeyOf(fileId, kind, language);
        && rows == Others(old(rows), key, path)[id := Row(key, mediaType, path, stat.value, now)]
        && (if exists a :: a in old(rows) && old(rows)[a].path == path then
              id in old(rows) && old(rows)[id].path == path
            else if exists a :: a in old(rows) && old(rows)[a].key == key then
              id in old(rows) && old(rows)[id].key == key
            else id == newId)
    {
      hide BothUnique, Pairs, Bind, Others, KeyOf;
      if stat.None? { return; }
      var key := KeyOf(fileId, kind, language);
      ghost var before := rows;
      var row := Row(key, mediaType, path, stat.value, now);
      if id :| id in rows && rows[id].path == path {
        OthersDiffer(rows, id);
        var doomed := set other | other in rows && rows[other].key == key && other != id;
        rows := rows - doomed;
        rows := rows[id := rows[id].(key := key, mediaType := mediaType, stat := stat.value, lastSeen := now)];
        Rewritten(before, rows, id, row);
        return;
      }
      if id :| id in rows && rows[id].key == key {
        OthersDiffer(rows, id);
        rows := rows[id := rows[id].(path := path, mediaType := mediaType, stat := stat.value, lastSeen := now)];
        Rewritten(before, rows, id, row);
        return;
      }
      rows := rows[newId := row];
      Rewritten(before, rows, newId, row);
    }

    /** A row whose file is gone is removed; one whose file changed is brought up to date. */
    method FindInventoryPath(
      fileId: nat, kind: string, language: Option<string>, statOf: Path -> Option<Stat>, now: int)
      returns (found: Option<Path>)
      requires BothUnique(rows)
      modifies this
      ensures BothUnique(rows)
      ensures found.Some? <==>
        exists path :: (KeyOf(fileId, kind, language), path) in Pairs(old(rows)) && statOf(path).Some?
      ensures found.Some? ==> (KeyOf(fileId, kind, language), found.value) in Pairs(old(rows))
      ensures found.Some? ==> Pairs(rows) == Pairs(old(rows))
      ensures found.Some? ==> statOf(found.value).Some?
      ensures found.Some? ==>
        rows == Refreshed(old(rows), KeyOf(fileId, kind, language), statOf(found.value).value, now)
      ensures found.None? ==> Pairs(rows) == set p | p in Pairs(old(rows)) && p.0 != KeyOf(fileId, kind, language)
      ensures found.None? ==>
        rows == map id | id in old(rows) && old(rows)[id].key != KeyOf(fileId, kind, language) :: old(rows)[id]
    {
      hide KeyOf;
      var key := KeyOf(fileId, kind, language);
      if id :| id in rows && rows[id].key == key {
        var row := rows[id];
        OnlyRow(rows, id);
        if statOf(row.path).None? {
          RemovedPairs(rows, id);
          rows := rows - {id};
          return None;
        }
        var stat := statOf(row.path).value;
        if stat != row.stat {
          RefreshedPairs(rows, id, row.(stat := stat, lastSeen := now));
          rows := rows[id := row.(stat := stat, lastSeen := now)];
        }
        return Some(row.path);
      }
      NoRow(rows, key);
      return None;
    }

    /** Any number of upserts, the files all being there: what is left bound are those not undone later. */
    method UpsertAll(upserts: seq<(Key, Path)>, mediaType: string, stat: Stat, now: int)
      requires BothUnique(rows)
      modifies this
      ensures BothUnique(rows) && Pairs(rows) == After(Pairs(old(rows)), upserts)
      ensures forall p :: p in Pairs(rows) <==> IsStanding(Pairs(old(rows)), upserts, p)
    {
      hide BothUnique, Pairs, Bind, Others, KeyOf, IsStanding;
      ghost var first := Pairs(rows);
      for i := 0 to |upserts|
        invariant BothUnique(rows) && Pairs(rows) == After(first, upserts[..i])
      {
        var key, path := upserts[i].0, upserts[i].1;
        var newId := FreshId(rows);
        KeyAgain(key);
        assert upserts[..i + 1][..i] == upserts[..i];
        UpsertInventoryPath(key.fileId, key.kind, Some(key.language), mediaType, path, Some(stat), now, newId);
      }
      assert upserts[..|upserts|] == upserts;
      UniqueIsMatching(old(rows));
      forall p ensures p in Pairs(rows) <==> IsStanding(first, upserts, p) {
        LastUpsertWins(first, upserts, p);
      }
    }
  }

  lemma KeyAgain(key: Key)
    ensures KeyOf(key.fileId, key.kind, Some(key.language)) == key
  {
  }

  method FreshId(rows: Rows) returns (id: RowId)
    ensures id !in rows
  {
    id := 0;
    var rest := rows.Keys;
    while rest != {}
      invariant rest <= rows.Keys && forall other | other in rows && other !in rest :: other < id
      decreases |rest|
    {
      var other :| other in rest;
      rest := rest - {other};
      if other >= id { id := other + 1; }
    }
  }

  lemma OthersDiffer(rows: Rows, id: RowId)
    requires BothUnique(rows) && id in rows
    ensures forall other | other in rows && other != id ::
      rows[other].key != rows[id].key && rows[other].path != rows[id].path
  {
  }

  lemma Rewritten(before: Rows, after: Rows, id: RowId, row: Row)
    requires BothUnique(before)
    requires id in before ==> before[id].key == row.key || before[id].path == row.path
    requires id in after && after[id] == row
    requires forall other | other != id :: other in after <==>
      other in before && before[other].key != row.key && before[other].path != row.path
    requires forall other | other != id && other in after :: after[other] == before[other]
    ensures after == Others(before, row.key, row.path)[id := row]
    ensures BothUnique(after) && Pairs(after) == Bind(Pairs(before), row.key, row.path)
  {
    RewrittenPairs(before, after, id, row);
  }

  lemma RewrittenPairs(before: Rows, after: Rows, id: RowId, row: Row)
    requires id in before ==> before[id].key == row.key || before[id].path == row.path
    requires id in after && after[id] == row
    requires forall other | other != id :: other in after <==>
      other in before && before[other].key != row.key && before[other].path != row.path
    requires forall other | other != id && other in after :: after[other] == before[other]
    ensures Pairs(after) == Bind(Pairs(before), row.key, row.path)
  {
    forall p ensures p in Pairs(after) <==> p in Bind(Pairs(before), row.key, row.path) {
      if p in Pairs(before) && p.0 != row.key && p.1 != row.path {
        var other :| other in before && (before[other].key, before[other].path) == p;
        assert other in after;
      }
    }
  }

  lemma OnlyRow(rows: Rows, id: RowId)
    requires BothUnique(rows) && id in rows
    ensures (rows[id].key, rows[id].path) in Pairs(rows)
    ensures forall path :: (rows[id].key, path) in Pairs(rows) ==> path == rows[id].path
  {
  }

  lemma NoRow(rows: Rows, key: Key)
    requires !exists id :: id in rows && rows[id].key == key
    ensures forall p | p in Pairs(rows) :: p.0 != key
  {
  }

  lemma RemovedPairs(rows: Rows, id: RowId)
    requires BothUnique(rows) && id in rows
    ensures BothUnique(rows - {id})
    ensures Pairs(rows - {id}) == set p | p in Pairs(rows) && p.0 != rows[id].key
  {
    forall p | p in Pairs(rows) && p.0 != rows[id].key ensures p in Pairs(rows - {id}) {
      var other :| other in rows && (rows[other].key, rows[other].path) == p;
      assert other in rows - {id};
    }
  }

  lemma RefreshedPairs(rows: Rows, id: RowId, row: Row)
    requires BothUnique(rows) && id in rows && row.key == rows[id].key && row.path == rows[id].path
    ensures BothUnique(rows[id := row]) && Pairs(rows[id := row]) == Pairs(rows)
  {
    var after := rows[id := row];
    forall p ensures p in Pairs(after) <==> p in Pairs(rows) {
      if p in Pairs(rows) {
        var other :| other in rows && (rows[other].key, rows[other].path) == p;
        assert other in after;
      }
      if p in Pairs(after) {
        var other :| other in after && (after[other].key, after[other].path) == p;
        assert other in rows;
      }
    }
  }

  // ------------------------------------------------------------------ runs of upserts

  lemma UniqueIsMatching(rows: Rows)
    requires BothUnique(rows)
    ensures IsMatching(Pairs(rows))
  {
  }

  lemma BindKeepsMatching(pairs: set<(Key, Path)>, key: Key, path: Path)
    requires IsMatching(pairs)
    ensures IsMatching(Bind(pairs, key, path))
  {
  }

  ghost function After(pairs: set<(Key, Path)>, upserts: seq<(Key, Path)>): set<(Key, Path)> {
    if upserts == [] then pairs
    else
      var last := upserts[|upserts| - 1];
      Bind(After(pairs, upserts[..|upserts| - 1]), last.0, last.1)
  }

  /** No upsert from position `from` on undoes the pair: each repeats it or concerns neither its key nor its path. */
  ghost predicate Untouched(upserts: seq<(Key, Path)>, from: nat, p: (Key, Path)) {
    forall j | from <= j < |upserts| :: upserts[j] == p || (upserts[j].0 != p.0 && upserts[j].1 != p.1)
  }

  /** The pair was there at first, or an upsert bound it, and nothing later undid it. */
  ghost predicate IsStanding(pairs: set<(Key, Path)>, upserts: seq<(Key, Path)>, p: (Key, Path)) {
    || (p in pairs && Untouched(upserts, 0, p))
    || exists i :: 0 <= i < |upserts| && upserts[i] == p && Untouched(upserts, i, p)
  }

  /** After any upserts on any one-to-one table, exactly the standing pairs are bound, one to one. */
  lemma {:induction false} LastUpsertWins(pairs: set<(Key, Path)>, upserts: seq<(Key, Path)>, p: (Key, Path))
    requires IsMatching(pairs)
    ensures p in After(pairs, upserts) <==> IsStanding(pairs, upserts, p)
    ensures IsMatching(After(pairs, upserts))
  {
    if upserts != [] {
      var n := |upserts| - 1;
      var front, last := upserts[..n], upserts[n];
      LastUpsertWins(pairs, front, p);
      BindKeepsMatching(After(pairs, front), last.0, last.1);
      StandingStep(pairs, upserts, p);
    }
  }

  lemma StandingStep(pairs: set<(Key, Path)>, upserts: seq<(Key, Path)>, p: (Key, Path))
    requires upserts != []
    ensures var last := upserts[|upserts| - 1];
      IsStanding(pairs, upserts, p) <==>
      p == last || (IsStanding(pairs, upserts[..|upserts| - 1], p) && p.0 != last.0 && p.1 != last.1)
  {
    var n := |upserts| - 1;
    var front, last := upserts[..n], upserts[n];
    assert forall j | 0 <= j < n :: front[j] == upserts[j];
    UntouchedStep(upserts, 0, p);
    if p == last {
      assert Untouched(upserts, n, p);
    } else if i :| 0 <= i < |upserts| && upserts[i] == p && Untouched(upserts, i, p) {
      UntouchedStep(upserts, i, p);
      assert front[i] == p;
    }
    if i :| 0 <= i < n && front[i] == p && Untouched(front, i, p) {
      UntouchedStep(upserts, i, p);
      assert upserts[i] == p;
    }
  }

  lemma UntouchedStep(upserts: seq<(Key, Path)>, from: nat, p: (Key, Path))
    requires from < |upserts|
    ensures var n := |upserts| - 1;
      Untouched(upserts, from, p) <==>
      Untouched(upserts[..n], from, p) && (upserts[n] == p || (upserts[n].0 != p.0 && upserts[n].1 != p.1))
  {
    var n := |upserts| - 1;
    assert forall j | 0 <= j < n :: upserts[..n][j] == upserts[j];
  }
}
