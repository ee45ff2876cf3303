/** The sets of entities `main` compares (MySqlAzureBackup.py, lines 160-168, 189-195 and
    214-241): a Python `set` of `GeneralizedEntity` holds at most one entity per
    `(id, data)`, `set.add` keeps the element already there, and `a.difference(b)` keeps
    the elements of `a` equal to no element of `b`. */
module Reconcile {
  import opened Wrappers
  import opened Values
  import opened Dicts
  import opened Entities
  import opened Codec

  /** What `__eq__` and `__hash__` look at. */
  type Key = (int, seq<(string, Value)>)

  function KeysOf(s: set<Entity>): (ks: set<Key>)
    ensures forall e :: e in s ==> HashKey(e) in ks
    ensures forall k :: k in ks ==> exists e :: e in s && HashKey(e) == k
  {
    set e | e in s :: HashKey(e)
  }

  /** What every Python set of entities satisfies: no two elements compare equal. */
  predicate KeyUnique(s: set<Entity>) {
    forall a, b :: a in s && b in s && HashKey(a) == HashKey(b) ==> a == b
  }

  /** No two entities share an id (a table keyed by `id`). */
  predicate IdsUnique(s: set<Entity>) {
    forall a, b :: a in s && b in s && a.id == b.id ==> a == b
  }

  /** `s.add(e)`: nothing happens when an equal element is already there. */
  function Add(s: set<Entity>, e: Entity): (r: set<Entity>)
    ensures KeysOf(r) == KeysOf(s) + {HashKey(e)}
    ensures KeyUnique(s) ==> KeyUnique(r)
    ensures s <= r <= s + {e}
  {
    if HashKey(e) in KeysOf(s) then s else s + {e}
  }

  /** `a.difference(b)`. */
  function Difference(a: set<Entity>, b: set<Entity>): (r: set<Entity>)
    ensures r <= a
    ensures KeysOf(r) == KeysOf(a) - KeysOf(b)
    ensures forall e :: e in a && HashKey(e) in KeysOf(b) ==> e !in r
  {
    var r := set e | e in a && HashKey(e) !in KeysOf(b);
    assert forall k :: k in KeysOf(a) - KeysOf(b) ==> k in KeysOf(r) by {
      forall k | k in KeysOf(a) - KeysOf(b) ensures k in KeysOf(r) {
        var e :| e in a && HashKey(e) == k;
        assert e in r;
      }
    }
    r
  }

  /** What one run sends to the target: the upserts, then the deletes. */
  datatype Plan = Plan(upserts: set<Entity>, deletes: set<Entity>)

  /** The two differences of `main`: source minus target to upsert, target minus source
      to delete (backup: MySQL to Azure; recovery: Azure to MySQL). */
  function Diff(source: set<Entity>, target: set<Entity>): (p: Plan)
    ensures p.upserts <= source && p.deletes <= target
    ensures KeysOf(p.upserts) == KeysOf(source) - KeysOf(target)
    ensures KeysOf(p.deletes) == KeysOf(target) - KeysOf(source)
  {
    Plan(Difference(source, target), Difference(target, source))
  }

  /** Nothing is both upserted and deleted, not even an equal copy. */
  lemma PlanDisjoint(source: set<Entity>, target: set<Entity>)
    ensures KeysOf(Diff(source, target).upserts) !! KeysOf(Diff(source, target).deletes)
  {
  }

  /** A run plans nothing exactly when both sides hold the same entities up to equality,
      so a rerun after an unchanged run issues no operation. */
  lemma PlanEmptyIff(source: set<Entity>, target: set<Entity>)
    ensures Diff(source, target) == Plan({}, {}) <==> KeysOf(source) == KeysOf(target)
  {
    var p := Diff(source, target);
    if KeysOf(source) == KeysOf(target) {
      EmptyKeys(p.upserts);
      EmptyKeys(p.deletes);
    }
  }

  lemma EmptyKeys(s: set<Entity>)
    requires KeysOf(s) == {}
    ensures s == {}
  {
  }

  /** An id present on both sides with different data lands once in each set: the new
      version among the upserts, the old among the deletes. */
  lemma ChangedRowInBoth(source: set<Entity>, target: set<Entity>, a: Entity, b: Entity)
    requires IdsUnique(source) && IdsUnique(target)
    requires a in source && b in target && a.id == b.id && a.data != b.data
    ensures a in Diff(source, target).upserts && b in Diff(source, target).deletes
    ensures forall x :: x in Diff(source, target).upserts && x.id == a.id ==> x == a
    ensures forall x :: x in Diff(source, target).deletes && x.id == a.id ==> x == b
  {
  }

  /** An entity with an equal copy on the other side is left alone. */
  lemma UnchangedRowInNeither(source: set<Entity>, target: set<Entity>, a: Entity, b: Entity)
    requires a in source && b in target && Equal(a, b)
    ensures a !in Diff(source, target).upserts && b !in Diff(source, target).deletes
  {
    assert HashKey(a) == HashKey(b);
  }

  // ---------------------------------------------------------------------------
  // Reading a whole table into a set

  /** What a set built by adding the converted rows one by one holds, or the first
      conversion error. */
  predicate Collected(r: Result<set<Entity>, Error>, results: seq<Result<Entity, Error>>) {
    && (r.Ok? <==> forall i :: 0 <= i < |results| ==> results[i].Ok?)
    && (r.Ok? ==>
          && KeyUnique(r.value)
          && KeysOf(r.value) == (set i | 0 <= i < |results| && results[i].Ok? :: HashKey(results[i].value))
          && forall x :: x in r.value ==> exists i :: 0 <= i < |results| && results[i] == Ok(x))
    && (r.Err? ==>
          exists i :: (0 <= i < |results| && results[i].Err? && r.error == results[i].error
            && forall j :: 0 <= j < i ==> results[j].Ok?))
  }

  /** The conversions `get_set_of_all_mysql_entities_of_table` applies, row by row. */
  function MysqlResults(tableName: string, columns: seq<string>, rows: seq<seq<Value>>, fp: FloatOps): (rs: seq<Result<Entity, Error>>)
    ensures |rs| == |rows|
    ensures forall i :: 0 <= i < |rows| ==> rs[i] == RowToEntity(tableName, columns, rows[i], fp)
  {
    seq(|rows|, i requires 0 <= i < |rows| => RowToEntity(tableName, columns, rows[i], fp))
  }

  /** The conversions `get_set_of_all_azure_entities_using_table_client` applies, item by item. */
  function AzureResults(items: seq<Dict<Value>>, fp: FloatOps): (rs: seq<Result<Entity, Error>>)
    ensures |rs| == |items|
    ensures forall i :: 0 <= i < |items| ==> rs[i] == FromAzure(items[i], fp)
  {
    seq(|items|, i requires 0 <= i < |items| => FromAzure(items[i], fp))
  }

  /** One more converted entity added to the set keeps what `Collected` says of the prefix. */
  lemma CollectStep(acc: set<Entity>, results: seq<Result<Entity, Error>>, i: nat)
    requires i < |results| && results[i].Ok?
    requires Collected(Ok(acc), results[..i])
    ensures Collected(Ok(Add(acc, results[i].value)), results[..i + 1])
  {
    var prefix, next := results[..i], results[..i + 1];
    assert forall j :: 0 <= j < i ==> next[j] == prefix[j];
    var e := results[i].value;
    var r := Add(acc, e);
    assert (set j | 0 <= j < |next| && next[j].Ok? :: HashKey(next[j].value))
        == (set j | 0 <= j < |prefix| && prefix[j].Ok? :: HashKey(prefix[j].value)) + {HashKey(e)};
    forall x | x in r ensures exists j :: 0 <= j < |next| && next[j] == Ok(x) {
      if x == e {
        assert next[i] == Ok(x);
      } else {
        var j :| 0 <= j < |prefix| && prefix[j] == Ok(x);
        assert next[j] == Ok(x);
      }
    }
  }

  /** The set the loop has built after the given conversions, or the first error. */
  function Collect(results: seq<Result<Entity, Error>>): Result<set<Entity>, Error> {
    if results == [] then Ok({})
    else
      var n := |results| - 1;
      match Collect(results[..n])
      case Err(err) => Err(err)
      case Ok(acc) => if results[n].Err? then Err(results[n].error) else Ok(Add(acc, results[n].value))
  }

  /** `Collect` adds the conversions one at a time, in order, to a set with no two equal
      elements, and stops at the first error. */
  lemma {:induction false} CollectMeets(results: seq<Result<Entity, Error>>)
    ensures Collected(Collect(results), results)
  {
    if results != [] {
      var n := |results| - 1;
      var init := results[..n];
      CollectMeets(init);
      assert forall j :: 0 <= j < n ==> init[j] == results[j];
      match Collect(init)
      case Err(err) =>
        var i :| 0 <= i < n && init[i].Err? && err == init[i].error
          && forall j :: 0 <= j < i ==> init[j].Ok?;
        assert results[i].Err?;
      case Ok(acc) =>
        if results[n].Ok? {
          CollectStep(acc, results, n);
          assert results[..n + 1] == results;
        }
    }
  }

  /** One more conversion. */
  lemma CollectNext(results: seq<Result<Entity, Error>>, i: nat)
    requires i < |results|
    ensures Collect(results[..i + 1]) ==
      match Collect(results[..i])
      case Err(err) => Err(err)
      case Ok(acc) => if results[i].Err? then Err(results[i].error) else Ok(Add(acc, results[i].value))
  {
    assert results[..i + 1][..i] == results[..i];
  }

  /** A converted entity is added to the set. */
  lemma CollectAdds(results: seq<Result<Entity, Error>>, i: nat, acc: set<Entity>)
    requires i < |results| && Collect(results[..i]) == Ok(acc) && results[i].Ok?
    ensures Collect(results[..i + 1]) == Ok(Add(acc, results[i].value))
  {
    CollectNext(results, i);
  }

  /** The first failed conversion is the loop's outcome. */
  lemma CollectFails(results: seq<Result<Entity, Error>>, i: nat, acc: set<Entity>)
    requires i < |results| && Collect(results[..i]) == Ok(acc) && results[i].Err?
    ensures Collect(results) == Err(results[i].error)
    ensures Collected(Collect(results), results)
  {
    CollectNext(results, i);
    CollectStops(results, i + 1);
    CollectMeets(results);
  }

  /** Every conversion done, the set is the outcome. */
  lemma CollectDone(results: seq<Result<Entity, Error>>, acc: set<Entity>)
    requires Collect(results[..|results|]) == Ok(acc)
    ensures Collect(results) == Ok(acc)
    ensures Collected(Collect(results), results)
  {
    assert results[..|results|] == results;
    CollectMeets(results);
  }

  /** Once a prefix has failed, the whole sequence fails with the same error. */
  lemma {:induction false} CollectStops(results: seq<Result<Entity, Error>>, m: nat)
    requires m <= |results| && Collect(results[..m]).Err?
    ensures Collect(results) == Collect(results[..m])
    decreases |results| - m
  {
    if m < |results| {
      CollectNext(results, m);
      CollectStops(results, m + 1);
    } else {
      assert results[..m] == results;
    }
  }

  /** `get_set_of_all_mysql_entities_of_table` once the rows are fetched: each row is
      zipped with the column names and converted, and the entity added to the set. */
  method MysqlEntities(tableName: string, columns: seq<string>, rows: seq<seq<Value>>, fp: FloatOps)
    returns (r: Result<set<Entity>, Error>)
    ensures r == Collect(MysqlResults(tableName, columns, rows, fp))
    ensures Collected(r, MysqlResults(tableName, columns, rows, fp))
  {
    ghost var results := MysqlResults(tableName, columns, rows, fp);
    var acc: set<Entity> := {};
    var i := 0;
    assert results[..0] == [];
    while i < |rows|
      invariant 0 <= i <= |rows|
      invariant Collect(results[..i]) == Ok(acc)
    {
      var entity := RowToEntity(tableName, columns, rows[i], fp);
      if entity.Err? {
        CollectFails(results, i, acc);
        return Err(entity.error);
      }
      CollectAdds(results, i, acc);
      acc := Add(acc, entity.value);
      i := i + 1;
    }
    CollectDone(results, acc);
    return Ok(acc);
  }

  /** `get_set_of_all_azure_entities_using_table_client` once the items are listed. */
  method AzureEntities(items: seq<Dict<Value>>, fp: FloatOps) returns (r: Result<set<Entity>, Error>)
    ensures r == Collect(AzureResults(items, fp))
    ensures Collected(r, AzureResults(items, fp))
  {
    ghost var results := AzureResults(items, fp);
    var acc: set<Entity> := {};
    var i := 0;
    assert results[..0] == [];
    while i < |items|
      invariant 0 <= i <= |items|
      invariant Collect(results[..i]) == Ok(acc)
    {
      var entity := FromAzure(items[i], fp);
      if entity.Err? {
        CollectFails(results, i, acc);
        return Err(entity.error);
      }
      CollectAdds(results, i, acc);
      acc := Add(acc, entity.value);
      i := i + 1;
    }
    CollectDone(results, acc);
    return Ok(acc);
  }

  /** Rows that agree with each other up to equality collapse to one element: two rows
      with the same id and data, under different table names, give a one-element set. */
  lemma DuplicateRowsCollapse(t1: string, t2: string, id: int, data: seq<(string, Value)>)
    ensures var a, b := Entity(VStr(t1), id, data), Entity(VStr(t2), id, data);
      Add(Add({}, a), b) == {a}
  {
  }
}
