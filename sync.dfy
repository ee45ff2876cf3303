/** One table's backup or recovery as `main` runs it (MySqlAzureBackup.py, lines 214-241):
    read both sides, then upsert the source's entities the target lacks, then delete the
    target's entities the source lacks. Both stores are modelled as tables of entities
    keyed by `id`: Azure addresses an entity by `PartitionKey` and `RowKey` (the table
    name and `str(id)`), MySQL replaces by primary key and receives the row the typed
    conversion produced. */
module Sync {
  import opened Wrappers
  import opened Values
  import opened Dicts
  import opened Entities
  import opened Codec
  import opened Reconcile

  /** The rows of one table by id. */
  type Table = map<int, Entity>

  /** Every row is stored under its own id. */
  predicate Keyed(m: Table) {
    forall id :: id in m ==> m[id].id == id
  }

  function IdsOf(s: set<Entity>): (ids: set<int>)
    ensures forall e :: e in s ==> e.id in ids
    ensures forall id :: id in ids ==> exists e :: e in s && e.id == id
  {
    set e | e in s :: e.id
  }

  /** A set with one entity per id, as a table. */
  function ById(s: set<Entity>): (m: Table)
    requires IdsUnique(s)
    ensures Keyed(m) && m.Keys == IdsOf(s)
    ensures forall e :: e in s ==> m[e.id] == e
  {
    map e | e in s :: e.id := e
  }

  /** The entities a table holds, as `list_entities` or `SELECT *` returns them. */
  function Rows(m: Table): (s: set<Entity>)
    ensures forall id :: id in m ==> m[id] in s
    ensures Keyed(m) ==> forall a :: a in s ==> a.id in m && m[a.id] == a
  {
    set id | id in m :: m[id]
  }

  /** Both tables hold the same ids, and equal entities under each. */
  predicate SameRows(m1: Table, m2: Table) {
    m1.Keys == m2.Keys && forall id :: id in m1 ==> Equal(m1[id], m2[id])
  }

  lemma KeyedIdsUnique(m: Table)
    requires Keyed(m)
    ensures IdsUnique(Rows(m))
  {
  }

  lemma SubsetIdsUnique(s: set<Entity>, t: set<Entity>)
    requires IdsUnique(s) && t <= s
    ensures IdsUnique(t)
  {
  }

  // ---------------------------------------------------------------------------
  // The two stores

  /** The Azure table: `upsert_entity(mode=REPLACE)` replaces the whole entity at its
      address, `delete_entity` removes whatever is at the address. */
  class AzureTable {
    var rows: Table

    constructor (rows: Table)
      ensures this.rows == rows
    {
      this.rows := rows;
    }

    method Upsert(e: Entity)
      modifies this
      ensures rows == old(rows)[e.id := e]
    {
      rows := rows[e.id := e];
    }

    method Delete(e: Entity)
      modifies this
      ensures rows == old(rows) - {e.id}
    {
      rows := rows - {e.id};
    }
  }

  /** `DELETE ... WHERE c1=%s AND ... AND cn=%s`: the row goes only when every column matches. */
  function DeleteRow(m: Table, e: Entity): (r: Table)
    ensures r.Keys <= m.Keys && forall id :: id in r ==> r[id] == m[id]
    ensures forall id :: id in m && id != e.id ==> id in r
    ensures e.id in r <==> e.id in m && !Equal(m[e.id], e)
  {
    if e.id in m && Equal(m[e.id], e) then m - {e.id} else m
  }

  /** The MySQL table, `id` its primary key: `REPLACE INTO` replaces the row with that id. */
  class MysqlTable {
    var rows: Table

    constructor (rows: Table)
      ensures this.rows == rows
    {
      this.rows := rows;
    }

    method Replace(row: Entity)
      modifies this
      ensures rows == old(rows)[row.id := row]
    {
      rows := rows[row.id := row];
    }

    method DeleteMatching(row: Entity)
      modifies this
      ensures rows == DeleteRow(old(rows), row)
    {
      rows := DeleteRow(rows, row);
    }
  }

  // ---------------------------------------------------------------------------
  // What one run leaves behind

  /** The rows left after deleting, one at a time, each entity of `s` that matches its row. */
  function DeleteMatchingAll(m: Table, s: set<Entity>): (r: Table)
    ensures r.Keys <= m.Keys
    ensures forall id :: id in m ==> (id in r <==> HashKey(m[id]) !in KeysOf(s))
    ensures forall id :: id in r ==> r[id] == m[id]
  {
    map id | id in m && HashKey(m[id]) !in KeysOf(s) :: m[id]
  }

  /** Backup as written: upsert the new entities, then delete the stale ones by address. */
  function BackupOutcome(target: Table, source: set<Entity>): Table
    requires IdsUnique(source)
  {
    var p := Diff(source, Rows(target));
    SubsetIdsUnique(source, p.upserts);
    (target + ById(p.upserts)) - IdsOf(p.deletes)
  }

  /** Backup with the deletes issued first. */
  function BackupDeletesFirstOutcome(target: Table, source: set<Entity>): Table
    requires IdsUnique(source)
  {
    var p := Diff(source, Rows(target));
    SubsetIdsUnique(source, p.upserts);
    (target - IdsOf(p.deletes)) + ById(p.upserts)
  }

  // ---------------------------------------------------------------------------
  // The rows recovery writes

  /** The row `REPLACE INTO` or `DELETE` sends for `e`: the values the conversion gave,
      stored under the entity's id. */
  function WrittenRow(e: Entity, converted: Dict<Value>): (r: Entity)
    ensures r.id == e.id && r.tableName == e.tableName
    ensures "id" !in Keys(r.data)
  {
    RemoveKeys(converted, "id");
    Entity(e.tableName, e.id, Remove(converted, "id"))
  }

  /** The row written for `e` when its conversion with `tags` succeeds. */
  function Written(e: Entity, tags: seq<string>, fp: FloatOps): Entity
    requires ToMysql(e, tags, fp).Ok?
  {
    WrittenRow(e, ToMysql(e, tags, fp).value)
  }

  /** The entity converts to its own values: one entry per key, each tag its value's type. */
  predicate WritesItself(e: Entity, tags: seq<string>, fp: FloatOps) {
    UniqueKeys(MysqlEntries(e)) && TagsFit(e, tags, fp)
  }

  /** With tags that fit, the row written is the entity itself. */
  lemma WrittenOwnValues(e: Entity, tags: seq<string>, fp: FloatOps)
    requires WritesItself(e, tags, fp)
    ensures ToMysql(e, tags, fp).Ok? && Written(e, tags, fp) == e
  {
    ToMysqlFitting(e, tags, fp);
    var entries := MysqlEntries(e);
    UniqueTail(entries);
    assert entries[1..] == e.data;
    RemoveKeys(e.data, "id");
  }

  /** Every entity of `s` converts without an exception. */
  predicate Converts(s: set<Entity>, tags: seq<string>, fp: FloatOps) {
    forall e :: e in s ==> ToMysql(e, tags, fp).Ok?
  }

  /** The rows written for the entities of `s`. */
  function WrittenSet(s: set<Entity>, tags: seq<string>, fp: FloatOps): set<Entity>
    requires Converts(s, tags, fp)
  {
    set e | e in s :: Written(e, tags, fp)
  }

  /** Writing keeps each entity's id, so the rows written have the entities' ids, one row
      per id when there was one entity per id. */
  lemma WrittenIds(s: set<Entity>, tags: seq<string>, fp: FloatOps)
    requires Converts(s, tags, fp)
    ensures IdsOf(WrittenSet(s, tags, fp)) == IdsOf(s)
    ensures IdsUnique(s) ==> IdsUnique(WrittenSet(s, tags, fp))
  {
    var w := WrittenSet(s, tags, fp);
    forall id | id in IdsOf(w) ensures id in IdsOf(s) {
      var r :| r in w && r.id == id;
      WrittenFrom(s, tags, fp, r);
    }
    forall id | id in IdsOf(s) ensures id in IdsOf(w) {
      var e :| e in s && e.id == id;
      assert Written(e, tags, fp) in w;
    }
    if IdsUnique(s) {
      forall r1, r2 | r1 in w && r2 in w && r1.id == r2.id ensures r1 == r2 {
        WrittenFrom(s, tags, fp, r1);
        WrittenFrom(s, tags, fp, r2);
      }
    }
  }

  /** A row written for `s` comes from an entity of `s` with its id. */
  lemma WrittenFrom(s: set<Entity>, tags: seq<string>, fp: FloatOps, r: Entity)
    requires Converts(s, tags, fp) && r in WrittenSet(s, tags, fp)
    ensures exists e :: e in s && e.id == r.id && Written(e, tags, fp) == r
  {
    var e :| e in s && Written(e, tags, fp) == r;
  }

  /** Writing one more entity. */
  lemma WrittenAdd(s: set<Entity>, e: Entity, tags: seq<string>, fp: FloatOps)
    requires Converts(s, tags, fp) && ToMysql(e, tags, fp).Ok?
    ensures Converts(s + {e}, tags, fp)
    ensures WrittenSet(s + {e}, tags, fp) == WrittenSet(s, tags, fp) + {Written(e, tags, fp)}
  {
    var a, b := WrittenSet(s + {e}, tags, fp), WrittenSet(s, tags, fp) + {Written(e, tags, fp)};
    forall r | r in a ensures r in b {
      var x :| x in s + {e} && Written(x, tags, fp) == r;
    }
  }

  /** Every entity of `s` writes itself. */
  predicate AllWriteThemselves(s: set<Entity>, tags: seq<string>, fp: FloatOps) {
    forall e :: e in s ==> WritesItself(e, tags, fp)
  }

  /** Entities that write themselves are written as they are. */
  lemma WrittenSetOwnValues(s: set<Entity>, tags: seq<string>, fp: FloatOps)
    requires AllWriteThemselves(s, tags, fp)
    ensures Converts(s, tags, fp) && WrittenSet(s, tags, fp) == s
  {
    forall e | e in s ensures ToMysql(e, tags, fp).Ok? && Written(e, tags, fp) == e {
      WrittenOwnValues(e, tags, fp);
    }
    var w := WrittenSet(s, tags, fp);
    forall r | r in w ensures r in s {
      var e :| e in s && Written(e, tags, fp) == r;
    }
  }

  /** Every entity recovery upserts or deletes converts. */
  predicate PlanConverts(target: Table, source: set<Entity>, tags: seq<string>, fp: FloatOps) {
    var p := Diff(source, Rows(target));
    Converts(p.upserts, tags, fp) && Converts(p.deletes, tags, fp)
  }

  /** Recovery: `REPLACE INTO` the rows converted from the new entities, then delete the
      rows matching the conversion of a stale one. */
  function RecoveryOutcome(target: Table, source: set<Entity>, tags: seq<string>, fp: FloatOps): Table
    requires IdsUnique(source) && PlanConverts(target, source, tags, fp)
  {
    var p := Diff(source, Rows(target));
    SubsetIdsUnique(source, p.upserts);
    WrittenIds(p.upserts, tags, fp);
    DeleteMatchingAll(target + ById(WrittenSet(p.upserts, tags, fp)), WrittenSet(p.deletes, tags, fp))
  }

  /** Recovery when every row is written as the entity it came from. */
  function OwnValuesOutcome(target: Table, source: set<Entity>): Table
    requires IdsUnique(source)
  {
    var p := Diff(source, Rows(target));
    SubsetIdsUnique(source, p.upserts);
    DeleteMatchingAll(target + ById(p.upserts), p.deletes)
  }

  // ---------------------------------------------------------------------------
  // Facts about a plan, one id at a time

  /** A source entity that is not upserted has an equal row in the target, under its id. */
  lemma NotUpsertedIsStored(target: Table, source: set<Entity>, a: Entity)
    requires Keyed(target)
    requires a in source && a !in Diff(source, Rows(target)).upserts
    ensures a.id in target && Equal(target[a.id], a)
  {
    assert HashKey(a) in KeysOf(Rows(target));
    var b :| b in Rows(target) && HashKey(b) == HashKey(a);
  }

  /** A target row that is not deleted has an equal source entity, the one with its id. */
  lemma NotDeletedIsInSource(target: Table, source: set<Entity>, id: int)
    requires Keyed(target) && IdsUnique(source)
    requires id in target && target[id] !in Diff(source, Rows(target)).deletes
    ensures id in IdsOf(source) && Equal(ById(source)[id], target[id])
  {
    assert HashKey(target[id]) in KeysOf(source);
    var a :| a in source && HashKey(a) == HashKey(target[id]);
  }


  /** The ids a plan deletes are the ids of the deleted rows. */
  lemma DeletedIds(target: Table, source: set<Entity>, id: int)
    requires Keyed(target)
    ensures id in IdsOf(Diff(source, Rows(target)).deletes) <==>
      id in target && target[id] in Diff(source, Rows(target)).deletes
  {
    if id in IdsOf(Diff(source, Rows(target)).deletes) {
      var d :| d in Diff(source, Rows(target)).deletes && d.id == id;
    }
  }

  /** The source's ids are the target's kept ids plus the upserted ones. */
  lemma SourceIds(target: Table, source: set<Entity>, id: int)
    requires Keyed(target) && IdsUnique(source)
    requires id !in IdsOf(Diff(source, Rows(target)).upserts)
    ensures id in IdsOf(source) ==> id in target && target[id] !in Diff(source, Rows(target)).deletes
  {
    if id in IdsOf(source) {
      var a :| a in source && a.id == id;
      NotUpsertedIsStored(target, source, a);
      assert HashKey(target[id]) in KeysOf(source);
    }
  }

  // ---------------------------------------------------------------------------
  // Convergence

  /** When both sides' entities write themselves, recovery writes the entities as they are. */
  lemma RecoveryOwnValues(target: Table, source: set<Entity>, tags: seq<string>, fp: FloatOps)
    requires IdsUnique(source)
    requires AllWriteThemselves(source, tags, fp) && AllWriteThemselves(Rows(target), tags, fp)
    ensures PlanConverts(target, source, tags, fp)
    ensures RecoveryOutcome(target, source, tags, fp) == OwnValuesOutcome(target, source)
  {
    var p := Diff(source, Rows(target));
    WrittenSetOwnValues(p.upserts, tags, fp);
    WrittenSetOwnValues(p.deletes, tags, fp);
  }

  /** Recovery leaves MySQL holding exactly the Azure entities, up to the table name, in a
      single run, when every entity on both sides writes itself (the tags are the types of
      its values, in its own order): the changed row is replaced by `REPLACE INTO`, and its
      stale version no longer matches every column, so the `DELETE` leaves it. */
  lemma RecoveryConverges(target: Table, source: set<Entity>, tags: seq<string>, fp: FloatOps)
    requires Keyed(target) && IdsUnique(source)
    requires AllWriteThemselves(source, tags, fp) && AllWriteThemselves(Rows(target), tags, fp)
    ensures PlanConverts(target, source, tags, fp)
    ensures SameRows(RecoveryOutcome(target, source, tags, fp), ById(source))
  {
    RecoveryOwnValues(target, source, tags, fp);
    OwnValuesConverge(target, source);
  }

  /** Recovery with rows written as the entities leaves exactly the Azure entities. */
  lemma OwnValuesConverge(target: Table, source: set<Entity>)
    requires Keyed(target) && IdsUnique(source)
    ensures SameRows(OwnValuesOutcome(target, source), ById(source))
  {
    RecoveryKeys(target, source);
    var r, m := OwnValuesOutcome(target, source), ById(source);
    forall id | id in r ensures Equal(r[id], m[id]) {
      RecoveryRowAt(target, source, id);
    }
  }

  /** Recovery leaves exactly the source's ids. */
  lemma RecoveryKeys(target: Table, source: set<Entity>)
    requires Keyed(target) && IdsUnique(source)
    ensures OwnValuesOutcome(target, source).Keys == IdsOf(source)
  {
    var r := OwnValuesOutcome(target, source);
    forall id ensures id in r <==> id in IdsOf(source) {
      RecoveryKeepsId(target, source, id);
    }
  }

  /** After recovery an id is present exactly when it is a source id. */
  lemma RecoveryKeepsId(target: Table, source: set<Entity>, id: int)
    requires Keyed(target) && IdsUnique(source)
    ensures id in OwnValuesOutcome(target, source) <==> id in IdsOf(source)
  {
    var p := Diff(source, Rows(target));
    SubsetIdsUnique(source, p.upserts);
    var m1 := target + ById(p.upserts);
    assert OwnValuesOutcome(target, source) == DeleteMatchingAll(m1, p.deletes);
    if id in IdsOf(p.upserts) {
      var a :| a in p.upserts && a.id == id;
      assert m1[id] == a;
      assert HashKey(a) !in KeysOf(p.deletes);
    } else if id in target {
      assert m1[id] == target[id];
      DeletedIds(target, source, id);
      SourceIds(target, source, id);
      if target[id] !in p.deletes {
        NotDeletedIsInSource(target, source, id);
      } else {
        assert HashKey(target[id]) in KeysOf(p.deletes);
      }
    } else {
      SourceIds(target, source, id);
    }
  }

  /** A row recovery leaves equals the source entity with its id. */
  lemma RecoveryRowAt(target: Table, source: set<Entity>, id: int)
    requires Keyed(target) && IdsUnique(source)
    requires id in OwnValuesOutcome(target, source) && id in IdsOf(source)
    ensures Equal(OwnValuesOutcome(target, source)[id], ById(source)[id])
  {
    var p := Diff(source, Rows(target));
    SubsetIdsUnique(source, p.upserts);
    var m1 := target + ById(p.upserts);
    var r := OwnValuesOutcome(target, source);
    assert r == DeleteMatchingAll(m1, p.deletes);
    if id in IdsOf(p.upserts) {
      var a :| a in p.upserts && a.id == id;
      assert m1[id] == a;
    } else {
      assert m1[id] == target[id];
      assert HashKey(target[id]) !in KeysOf(p.deletes);
      NotDeletedIsInSource(target, source, id);
    }
  }

  /** Backup as written loses a changed row: when the target holds another version of a
      source entity's id, the upsert writes the new version and the delete of the old one,
      addressed by the same `PartitionKey`/`RowKey`, then removes it. */
  lemma BackupLosesChangedRow(target: Table, source: set<Entity>, a: Entity)
    requires Keyed(target) && IdsUnique(source)
    requires a in source && a.id in target && !Equal(target[a.id], a)
    ensures a.id !in BackupOutcome(target, source)
  {
    assert HashKey(target[a.id]) !in KeysOf(source);
    assert target[a.id] in Diff(source, Rows(target)).deletes;
  }

  /** One id of the delete-first backup. */
  lemma DeletesFirstRow(target: Table, source: set<Entity>, id: int)
    requires Keyed(target) && IdsUnique(source)
    ensures id in BackupDeletesFirstOutcome(target, source) <==> id in IdsOf(source)
    ensures id in BackupDeletesFirstOutcome(target, source) ==>
      Equal(BackupDeletesFirstOutcome(target, source)[id], ById(source)[id])
  {
    var p := Diff(source, Rows(target));
    SubsetIdsUnique(source, p.upserts);
    var r := BackupDeletesFirstOutcome(target, source);
    assert r == (target - IdsOf(p.deletes)) + ById(p.upserts);
    DeletedIds(target, source, id);
    if id in IdsOf(p.upserts) {
      var a :| a in p.upserts && a.id == id;
    } else {
      SourceIds(target, source, id);
      if id in target && target[id] !in p.deletes {
        NotDeletedIsInSource(target, source, id);
      }
    }
  }

  /** With the deletes issued first, backup leaves Azure holding exactly the MySQL
      entities in a single run. */
  lemma BackupDeletesFirstConverges(target: Table, source: set<Entity>)
    requires Keyed(target) && IdsUnique(source)
    ensures SameRows(BackupDeletesFirstOutcome(target, source), ById(source))
  {
    var r := BackupDeletesFirstOutcome(target, source);
    forall id ensures (id in r <==> id in IdsOf(source)) && (id in r ==> Equal(r[id], ById(source)[id])) {
      DeletesFirstRow(target, source, id);
    }
    assert r.Keys == IdsOf(source);
  }

  /** Backup as written keeps nothing the source lacks: every row left has an equal
      source entity under its id. */
  lemma BackupKeepsOnlySource(target: Table, source: set<Entity>)
    requires Keyed(target) && IdsUnique(source)
    ensures Keyed(BackupOutcome(target, source))
    ensures forall id :: id in BackupOutcome(target, source) ==>
      id in IdsOf(source) && Equal(BackupOutcome(target, source)[id], ById(source)[id])
  {
    var p := Diff(source, Rows(target));
    SubsetIdsUnique(source, p.upserts);
    var r := BackupOutcome(target, source);
    forall id | id in r ensures id in IdsOf(source) && Equal(r[id], ById(source)[id]) {
      if id in IdsOf(p.upserts) {
        var a :| a in p.upserts && a.id == id;
      } else {
        DeletedIds(target, source, id);
        NotDeletedIsInSource(target, source, id);
      }
    }
  }

  /** A table whose every row has an equal source entity plans no delete. */
  lemma NothingToDelete(target: Table, source: set<Entity>)
    requires Keyed(target) && IdsUnique(source)
    requires forall id :: id in target ==> id in IdsOf(source) && Equal(target[id], ById(source)[id])
    ensures Diff(source, Rows(target)).deletes == {}
  {
    forall d | d in Diff(source, Rows(target)).deletes ensures false {
    }
  }

  /** Without deletes, the two orders of backup agree. */
  lemma OrdersAgreeWithoutDeletes(target: Table, source: set<Entity>)
    requires IdsUnique(source) && Diff(source, Rows(target)).deletes == {}
    ensures BackupOutcome(target, source) == BackupDeletesFirstOutcome(target, source)
  {
    var p := Diff(source, Rows(target));
    SubsetIdsUnique(source, p.upserts);
    var up := ById(p.upserts);
    assert IdsOf(p.deletes) == {};
    assert target - {} == target;
    assert (target + up) - {} == target + up;
  }

  /** The rows lost by a backup run come back on the next one: after it, Azure holds
      exactly the MySQL entities. */
  lemma BackupSecondRunConverges(target: Table, source: set<Entity>)
    requires Keyed(target) && IdsUnique(source)
    ensures SameRows(BackupOutcome(BackupOutcome(target, source), source), ById(source))
  {
    var t1 := BackupOutcome(target, source);
    BackupKeepsOnlySource(target, source);
    NothingToDelete(t1, source);
    OrdersAgreeWithoutDeletes(t1, source);
    BackupDeletesFirstConverges(t1, source);
  }

  // ---------------------------------------------------------------------------
  // The loops of `main`

  /** `r` is `start` with the entities of `s` written over it, each under its id. */
  predicate Upserted(r: Table, start: Table, s: set<Entity>) {
    && r.Keys == start.Keys + IdsOf(s)
    && (forall e :: e in s ==> r[e.id] == e)
    && (forall id :: id in start && id !in IdsOf(s) ==> r[id] == start[id])
  }

  /** Writing one more entity over the table. */
  lemma UpsertedStep(r: Table, start: Table, done: set<Entity>, e: Entity)
    requires Upserted(r, start, done) && e.id !in IdsOf(done)
    ensures Upserted(r[e.id := e], start, done + {e})
  {
    assert IdsOf(done + {e}) == IdsOf(done) + {e.id};
  }

  /** The entities written one by one, in any order, give the union of the tables. */
  lemma UpsertedIsUnion(r: Table, start: Table, s: set<Entity>)
    requires IdsUnique(s) && Upserted(r, start, s)
    ensures r == start + ById(s)
  {
    var u := start + ById(s);
    assert r.Keys == u.Keys;
    forall id | id in r ensures r[id] == u[id] {
      if id in IdsOf(s) {
        var e :| e in s && e.id == id;
      }
    }
  }

  lemma UpsertedNone(start: Table)
    ensures Upserted(start, start, {})
  {
    assert IdsOf({}) == {};
  }

  /** Taking one more element from what is left. */
  lemma TakeOne(all: set<Entity>, rest: set<Entity>, e: Entity)
    requires rest <= all && e in rest
    ensures all - (rest - {e}) == (all - rest) + {e}
  {
  }

  /** A written entity's id is not among those written before. */
  lemma FreshId(done: set<Entity>, e: Entity, all: set<Entity>)
    requires IdsUnique(all) && done <= all && e in all && e !in done
    ensures e.id !in IdsOf(done)
  {
  }

  /** `for entity in entitiesToUpsertInAzure: upsert_entity_using_azure_table_client(...)`. */
  method UpsertAllAzure(azure: AzureTable, upserts: set<Entity>)
    requires IdsUnique(upserts)
    modifies azure
    ensures azure.rows == old(azure.rows) + ById(upserts)
  {
    ghost var start := azure.rows;
    var rest := upserts;
    UpsertedNone(start);
    assert upserts - rest == {};
    while rest != {}
      invariant rest <= upserts
      invariant Upserted(azure.rows, start, upserts - rest)
      decreases |rest|
    {
      var e :| e in rest;
      FreshId(upserts - rest, e, upserts);
      UpsertedStep(azure.rows, start, upserts - rest, e);
      azure.Upsert(e);
      TakeOne(upserts, rest, e);
      rest := rest - {e};
    }
    assert upserts - rest == upserts;
    UpsertedIsUnion(azure.rows, start, upserts);
  }

  /** `for entity in entitiesToDeleteInAzure: delete_entity_using_azure_table_client(...)`. */
  method DeleteAllAzure(azure: AzureTable, deletes: set<Entity>)
    modifies azure
    ensures azure.rows == old(azure.rows) - IdsOf(deletes)
  {
    ghost var start := azure.rows;
    var rest := deletes;
    assert deletes - rest == {};
    while rest != {}
      invariant rest <= deletes
      invariant azure.rows == start - IdsOf(deletes - rest)
      decreases |rest|
    {
      var e :| e in rest;
      azure.Delete(e);
      TakeOne(deletes, rest, e);
      assert IdsOf((deletes - rest) + {e}) == IdsOf(deletes - rest) + {e.id};
      rest := rest - {e};
    }
    assert deletes - rest == deletes;
  }

  /** Backup of one table as `main` runs it: the entities to upsert in any order, then
      the entities to delete in any order. */
  method Backup(source: set<Entity>, azure: AzureTable)
    requires Keyed(azure.rows) && IdsUnique(source)
    modifies azure
    ensures azure.rows == BackupOutcome(old(azure.rows), source)
  {
    var p := Diff(source, Rows(azure.rows));
    SubsetIdsUnique(source, p.upserts);
    UpsertAllAzure(azure, p.upserts);
    DeleteAllAzure(azure, p.deletes);
  }

  lemma KeysOfAdd(s: set<Entity>, e: Entity)
    ensures KeysOf(s + {e}) == KeysOf(s) + {HashKey(e)}
  {
  }

  /** A table with rows written over it keeps every row under its own id. */
  lemma KeyedUnion(a: Table, b: Table)
    requires Keyed(a) && Keyed(b)
    ensures Keyed(a + b)
  {
  }

  /** Backup with the two loops swapped: the stale entities are deleted by address
      first, so the upserts that follow are never undone. */
  method BackupDeletesFirst(source: set<Entity>, azure: AzureTable)
    requires Keyed(azure.rows) && IdsUnique(source)
    modifies azure
    ensures azure.rows == BackupDeletesFirstOutcome(old(azure.rows), source)
    ensures SameRows(azure.rows, ById(source))
  {
    ghost var start := azure.rows;
    var p := Diff(source, Rows(azure.rows));
    SubsetIdsUnique(source, p.upserts);
    DeleteAllAzure(azure, p.deletes);
    UpsertAllAzure(azure, p.upserts);
    BackupDeletesFirstConverges(start, source);
  }

  /** Deleting one more entity's matching row. */
  lemma DeleteMatchingStep(m: Table, done: set<Entity>, e: Entity)
    requires Keyed(m)
    ensures DeleteRow(DeleteMatchingAll(m, done), e) == DeleteMatchingAll(m, done + {e})
  {
    var a, b := DeleteRow(DeleteMatchingAll(m, done), e), DeleteMatchingAll(m, done + {e});
    forall id ensures id in a <==> id in b {
      DeleteMatchingAt(m, done, e, id);
    }
    assert a.Keys == b.Keys;
  }

  /** One id's fate under one more matching delete. */
  lemma DeleteMatchingAt(m: Table, done: set<Entity>, e: Entity, id: int)
    requires Keyed(m)
    ensures id in DeleteRow(DeleteMatchingAll(m, done), e) <==> id in DeleteMatchingAll(m, done + {e})
  {
    KeysOfAdd(done, e);
    if id in m && id != e.id {
      assert HashKey(m[id]) != HashKey(e);
    }
  }

  /** `for entity in entitiesToUpsertInMysql: upsert_entity_into_mysql_table(...)`: each
      entity converted with the tags and its row replaced, a failed conversion ending the run. */
  method ReplaceAllMysql(mysql: MysqlTable, upserts: set<Entity>, tags: seq<string>, fp: FloatOps)
    returns (failure: Option<Error>)
    requires IdsUnique(upserts)
    modifies mysql
    ensures failure.None? <==> Converts(upserts, tags, fp)
    ensures failure.Some? ==> exists e :: e in upserts && ToMysql(e, tags, fp) == Err(failure.value)
    ensures failure.None? ==> mysql.rows == old(mysql.rows) + ById(WrittenSet(upserts, tags, fp))
  {
    ghost var start := mysql.rows;
    var rest := upserts;
    UpsertedNone(start);
    assert upserts - rest == {};
    while rest != {}
      invariant rest <= upserts
      invariant Converts(upserts - rest, tags, fp)
      invariant Upserted(mysql.rows, start, WrittenSet(upserts - rest, tags, fp))
      decreases |rest|
    {
      var e :| e in rest;
      var converted := ToMysql(e, tags, fp);
      if converted.Err? {
        return Some(converted.error);
      }
      var row := WrittenRow(e, converted.value);
      ghost var done := upserts - rest;
      FreshId(done, e, upserts);
      WrittenIds(done, tags, fp);
      UpsertedStep(mysql.rows, start, WrittenSet(done, tags, fp), row);
      WrittenAdd(done, e, tags, fp);
      mysql.Replace(row);
      TakeOne(upserts, rest, e);
      rest := rest - {e};
    }
    assert upserts - rest == upserts;
    WrittenIds(upserts, tags, fp);
    UpsertedIsUnion(mysql.rows, start, WrittenSet(upserts, tags, fp));
    return None;
  }

  /** `for entity in entitiesToDeleteInMysql: delete_entity_from_mysql_table(...)`: each
      entity converted with the tags and the row matching the conversion deleted. */
  method DeleteAllMysql(mysql: MysqlTable, deletes: set<Entity>, tags: seq<string>, fp: FloatOps)
    returns (failure: Option<Error>)
    requires Keyed(mysql.rows)
    modifies mysql
    ensures failure.None? <==> Converts(deletes, tags, fp)
    ensures failure.Some? ==> exists e :: e in deletes && ToMysql(e, tags, fp) == Err(failure.value)
    ensures failure.None? ==> mysql.rows == DeleteMatchingAll(old(mysql.rows), WrittenSet(deletes, tags, fp))
  {
    ghost var start := mysql.rows;
    var rest := deletes;
    assert deletes - rest == {};
    assert DeleteMatchingAll(start, WrittenSet({}, tags, fp)) == start;
    while rest != {}
      invariant rest <= deletes
      invariant Converts(deletes - rest, tags, fp)
      invariant mysql.rows == DeleteMatchingAll(start, WrittenSet(deletes - rest, tags, fp))
      decreases |rest|
    {
      var e :| e in rest;
      var converted := ToMysql(e, tags, fp);
      if converted.Err? {
        return Some(converted.error);
      }
      var row := WrittenRow(e, converted.value);
      ghost var done := deletes - rest;
      DeleteMatchingStep(start, WrittenSet(done, tags, fp), row);
      WrittenAdd(done, e, tags, fp);
      mysql.DeleteMatching(row);
      TakeOne(deletes, rest, e);
      rest := rest - {e};
    }
    assert deletes - rest == deletes;
    return None;
  }

  /** Recovery of one table as `main` runs it, with the type tags read from the catalog:
      the entities to upsert, then the entities to delete, a failed conversion ending
      the run with its exception. */
  method Recovery(source: set<Entity>, mysql: MysqlTable, tags: seq<string>, fp: FloatOps)
    returns (failure: Option<Error>)
    requires Keyed(mysql.rows) && IdsUnique(source)
    modifies mysql
    ensures failure.None? <==> PlanConverts(old(mysql.rows), source, tags, fp)
    ensures failure.None? ==> mysql.rows == RecoveryOutcome(old(mysql.rows), source, tags, fp)
  {
    var p := Diff(source, Rows(mysql.rows));
    SubsetIdsUnique(source, p.upserts);
    ghost var start := mysql.rows;
    failure := ReplaceAllMysql(mysql, p.upserts, tags, fp);
    if failure.Some? {
      return;
    }
    ghost var upserted := mysql.rows;
    ghost var written := WrittenSet(p.upserts, tags, fp);
    WrittenIds(p.upserts, tags, fp);
    assert upserted == start + ById(written);
    KeyedUnion(start, ById(written));
    failure := DeleteAllMysql(mysql, p.deletes, tags, fp);
    assert failure.None? ==> mysql.rows == DeleteMatchingAll(upserted, WrittenSet(p.deletes, tags, fp));
  }

  // ---------------------------------------------------------------------------
  // Recovery with the catalog's tags

  /** Recovery as written never settles on the orders table (`id int, amount double,
      name varchar`) for a non-integral amount `x`: the catalog's tags, in name order,
      convert the order to the row with amount `int(x)`, so the first run writes a changed
      row; the next run upserts the order again and its `DELETE` of the stale row,
      converted the same way, matches the row just replaced, leaving the table empty, as
      it started. */
  lemma RecoveryNeverSettles(x: Double, fp: FloatOps)
    requires fp.fromInt(7).Some? && fp.truncate(x).Some?
    requires fp.fromInt(fp.truncate(x).value) != Some(x)
    ensures PlanConverts(map[], {Order(VFloat(x))}, CatalogTags(OrdersSchema()), fp)
    ensures var first := RecoveryOutcome(map[], {Order(VFloat(x))}, CatalogTags(OrdersSchema()), fp);
      && 7 in first && !Equal(first[7], Order(VFloat(x)))
      && PlanConverts(first, {Order(VFloat(x))}, CatalogTags(OrdersSchema()), fp)
      && RecoveryOutcome(first, {Order(VFloat(x))}, CatalogTags(OrdersSchema()), fp) == map[]
  {
    OrdersCatalog();
    WrittenOrder(x, fp);
    var o := Order(VFloat(x));
    assert o.data[0].1 != Written(o, CatalogTags(OrdersSchema()), fp).data[0].1;
    RecoveryAlternates(o, CatalogTags(OrdersSchema()), fp);
  }

  /** An entity converted to other values, whose row converts to itself, is written by one
      recovery run from an empty table and deleted by the next. */
  lemma RecoveryAlternates(o: Entity, tags: seq<string>, fp: FloatOps)
    requires ToMysql(o, tags, fp).Ok? && !Equal(Written(o, tags, fp), o)
    requires ToMysql(Written(o, tags, fp), tags, fp).Ok?
    requires Written(Written(o, tags, fp), tags, fp) == Written(o, tags, fp)
    ensures PlanConverts(map[], {o}, tags, fp)
    ensures var first := RecoveryOutcome(map[], {o}, tags, fp);
      && o.id in first && !Equal(first[o.id], o)
      && PlanConverts(first, {o}, tags, fp)
      && RecoveryOutcome(first, {o}, tags, fp) == map[]
  {
    RecoveryFromEmpty(o, tags, fp);
    RecoveryOverWritten(o, tags, fp);
  }

  lemma WrittenOne(e: Entity, tags: seq<string>, fp: FloatOps)
    requires ToMysql(e, tags, fp).Ok?
    ensures Converts({e}, tags, fp) && WrittenSet({e}, tags, fp) == {Written(e, tags, fp)}
  {
    WrittenAdd({}, e, tags, fp);
    assert {} + {e} == {e};
  }

  /** From an empty table, recovery writes the entity's row. */
  lemma RecoveryFromEmpty(o: Entity, tags: seq<string>, fp: FloatOps)
    requires ToMysql(o, tags, fp).Ok?
    ensures PlanConverts(map[], {o}, tags, fp)
    ensures RecoveryOutcome(map[], {o}, tags, fp) == map[o.id := Written(o, tags, fp)]
  {
    var empty: Table := map[];
    PlanFromEmpty(o);
    WrittenOne(o, tags, fp);
    OutcomeOfPlan(empty, {o}, tags, fp, {o}, {});
    assert WrittenSet({}, tags, fp) == {};
    InsertIntoEmpty(Written(o, tags, fp));
  }

  /** From an empty table the plan upserts the entity and deletes nothing. */
  lemma PlanFromEmpty(o: Entity)
    ensures Diff({o}, Rows(map[])).upserts == {o}
    ensures Diff({o}, Rows(map[])).deletes == {}
  {
    var empty: Table := map[];
    assert Rows(empty) == {};
  }

  /** Writing one row into an empty table, with nothing to delete. */
  lemma InsertIntoEmpty(w: Entity)
    ensures IdsUnique({w})
    ensures DeleteMatchingAll(map[] + ById({w}), {}) == map[w.id := w]
  {
    assert ById({w}) == map[w.id := w];
  }

  /** Over the row written for an entity that it changed, recovery upserts the entity
      again and deletes the row, which converts to itself. */
  lemma RecoveryOverWritten(o: Entity, tags: seq<string>, fp: FloatOps)
    requires ToMysql(o, tags, fp).Ok? && !Equal(Written(o, tags, fp), o)
    requires ToMysql(Written(o, tags, fp), tags, fp).Ok?
    requires Written(Written(o, tags, fp), tags, fp) == Written(o, tags, fp)
    ensures PlanConverts(map[o.id := Written(o, tags, fp)], {o}, tags, fp)
    ensures RecoveryOutcome(map[o.id := Written(o, tags, fp)], {o}, tags, fp) == map[]
  {
    var w := Written(o, tags, fp);
    var first: Table := map[o.id := w];
    PlanOverRow(o, w);
    WrittenOne(o, tags, fp);
    WrittenOne(w, tags, fp);
    OutcomeOfPlan(first, {o}, tags, fp, {o}, {w});
    DeleteReplacedRow(w);
  }

  /** Recovery's outcome from the plan's two sets. */
  lemma OutcomeOfPlan(target: Table, source: set<Entity>, tags: seq<string>, fp: FloatOps,
                      up: set<Entity>, del: set<Entity>)
    requires IdsUnique(source) && PlanConverts(target, source, tags, fp)
    requires Diff(source, Rows(target)).upserts == up && Diff(source, Rows(target)).deletes == del
    ensures Converts(up, tags, fp) && Converts(del, tags, fp) && IdsUnique(up)
    ensures RecoveryOutcome(target, source, tags, fp)
      == DeleteMatchingAll(target + ById(WrittenSet(up, tags, fp)), WrittenSet(del, tags, fp))
  {
    SubsetIdsUnique(source, up);
    WrittenIds(up, tags, fp);
  }

  /** Replacing a row by itself and deleting its match leaves nothing. */
  lemma DeleteReplacedRow(w: Entity)
    ensures IdsUnique({w})
    ensures DeleteMatchingAll(map[w.id := w] + ById({w}), {w}) == map[]
  {
    var m: Table := map[w.id := w];
    assert ById({w}) == m;
    assert m + m == m;
    assert HashKey(w) in KeysOf({w});
  }

  /** A one-row table holding another version of the entity's id: the plan upserts the
      entity and deletes the row. */
  lemma PlanOverRow(o: Entity, w: Entity)
    requires w.id == o.id && !Equal(w, o)
    ensures Diff({o}, Rows(map[o.id := w])).upserts == {o}
    ensures Diff({o}, Rows(map[o.id := w])).deletes == {w}
  {
    var first: Table := map[o.id := w];
    assert first.Keys == {o.id} && first[o.id] == w;
    assert Rows(first) == {w};
    assert HashKey(o) != HashKey(w);
  }

  /** The orders converted with the catalog's tags: both versions are written with the
      truncated amount. */
  lemma WrittenOrder(x: Double, fp: FloatOps)
    requires fp.fromInt(7).Some? && fp.truncate(x).Some?
    ensures ToMysql(Order(VFloat(x)), ["double", "int", "varchar"], fp).Ok?
    ensures Written(Order(VFloat(x)), ["double", "int", "varchar"], fp) == Order(VInt(fp.truncate(x).value))
    ensures ToMysql(Order(VInt(fp.truncate(x).value)), ["double", "int", "varchar"], fp).Ok?
    ensures Written(Order(VInt(fp.truncate(x).value)), ["double", "int", "varchar"], fp) == Order(VInt(fp.truncate(x).value))
  {
    var t := fp.truncate(x).value;
    OrderConversion(VFloat(x), fp);
    OrderConversion(VInt(t), fp);
    var d: Dict<Value> := [("id", VFloat(fp.fromInt(7).value)), ("amount", VInt(t)), ("name", VStr("x"))];
    var n: Dict<Value> := [("name", VStr("x"))];
    var a: Dict<Value> := [("amount", VInt(t))] + n;
    assert d == [d[0]] + a && a[1..] == n && n[1..] == [];
    assert Remove(n, "id") == n;
    assert Remove(a, "id") == a;
    assert Remove(d, "id") == a;
  }
}
