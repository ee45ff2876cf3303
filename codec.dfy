/** The four converters between `GeneralizedEntity` and the stores' native shapes
    (MySqlAzureBackup.py, lines 83-111): an Azure item to an entity, a column/value dict to
    an entity, an entity to an Azure item, and an entity to a typed MySQL column/value dict
    driven by the positional type tags of `dataTypeConversionFuncDict`. */
module Codec {
  import opened Wrappers
  import opened Text
  import opened Values
  import opened Dicts
  import opened Entities

  const PartitionKey: string := "PartitionKey"
  const RowKey: string := "RowKey"

  // ---------------------------------------------------------------------------
  // Azure item <-> entity

  /** `convert_azure_entity_to_GeneralizedEntity`: pops `PartitionKey` (the table name)
      and `RowKey` (the id), and what remains is the data. */
  function FromAzure(item: Dict<Value>, fp: FloatOps): (r: Result<Entity, Error>)
    ensures PartitionKey !in Keys(item) ==> r == Err(KeyError(PartitionKey))
    ensures PartitionKey in Keys(item) && RowKey !in Keys(item) ==> r == Err(KeyError(RowKey))
    ensures r.Ok? <==>
      PartitionKey in Keys(item) && RowKey in Keys(item) && IntOf(Get(item, RowKey).value, fp).Some?
    ensures r.Ok? ==>
      && r.value.tableName == Get(item, PartitionKey).value
      && r.value.id == IntOf(Get(item, RowKey).value, fp).value
      && Sorted(r.value.data)
      && multiset(r.value.data) == multiset(Remove(Remove(item, PartitionKey), RowKey))
  {
    RemoveGet(item, PartitionKey, RowKey);
    match Pop(item, PartitionKey)
    case None => Err(KeyError(PartitionKey))
    case Some((tableName, rest)) =>
      match Pop(rest, RowKey)
      case None => Err(KeyError(RowKey))
      case Some((id, data)) => MakeEntity(tableName, id, data, fp)
  }

  /** `convert_GeneralizedEntity_to_dict_for_azure`: `PartitionKey` and `RowKey` first,
      then the data items; a data key of the same name overwrites the value but not the place. */
  function ToAzure(e: Entity): (r: Dict<Value>)
    ensures UniqueKeys(r)
    ensures forall k :: k in Keys(r) <==> k == PartitionKey || k == RowKey || k in Keys(e.data)
  {
    var ps := AzureHeader(e) + e.data;
    assert forall k :: k in Keys(ps) <==> k == PartitionKey || k == RowKey || k in Keys(e.data) by {
      assert Keys(ps) == [PartitionKey, RowKey] + Keys(e.data);
    }
    FromPairs(ps)
  }

  function AzureHeader(e: Entity): seq<(string, Value)> {
    [(PartitionKey, e.tableName), (RowKey, VStr(IntToString(e.id)))]
  }

  /** The item always starts with `PartitionKey` and then `RowKey`, whatever the data holds. */
  lemma AzureAddressFirst(e: Entity)
    ensures |ToAzure(e)| >= 2 && ToAzure(e)[0].0 == PartitionKey && ToAzure(e)[1].0 == RowKey
  {
    var ps := AzureHeader(e) + e.data;
    FromPairsKeepsPrefix(ps, 2);
    assert ps[..2] == AzureHeader(e);
    FromPairsOfUnique(AzureHeader(e));
  }

  /** Without data keys named `PartitionKey` or `RowKey`, the item is exactly the two
      address properties followed by the data. */
  lemma ToAzureLayout(e: Entity)
    requires UniqueKeys(e.data)
    requires PartitionKey !in Keys(e.data) && RowKey !in Keys(e.data)
    ensures ToAzure(e) == AzureHeader(e) + e.data
  {
    var ps := AzureHeader(e) + e.data;
    forall i, j | 0 <= i < j < |ps| ensures ps[i].0 != ps[j].0 {
      if j >= 2 {
        assert ps[j] == e.data[j - 2];
        if i >= 2 {
          assert ps[i] == e.data[i - 2];
        }
      }
    }
    FromPairsOfUnique(ps);
  }

  /** `convert_GeneralizedEntity_to_dict_for_azure` step by step: the data list gets
      `PartitionKey` inserted at 0 and `RowKey` at 1, then the dict is built from the list. */
  method BuildAzureItem(e: Entity) returns (item: Dict<Value>)
    ensures item == ToAzure(e)
    ensures |item| >= 2 && item[0].0 == PartitionKey && item[1].0 == RowKey
  {
    var aux := e.data;
    aux := [(PartitionKey, e.tableName)] + aux;
    aux := aux[..1] + [(RowKey, VStr(IntToString(e.id)))] + aux[1..];
    assert aux == AzureHeader(e) + e.data;
    item := FromPairs(aux);
    AzureAddressFirst(e);
  }

  /** Popping the two address properties off a laid-out item leaves the data. */
  lemma PopAddress(e: Entity)
    requires PartitionKey !in Keys(e.data) && RowKey !in Keys(e.data)
    ensures var item := AzureHeader(e) + e.data;
      && Get(item, PartitionKey) == Some(e.tableName)
      && Get(Remove(item, PartitionKey), RowKey) == Some(VStr(IntToString(e.id)))
      && Remove(Remove(item, PartitionKey), RowKey) == e.data
  {
    var rowKey := (RowKey, VStr(IntToString(e.id)));
    var rest := [rowKey] + e.data;
    var item := [(PartitionKey, e.tableName)] + rest;
    assert AzureHeader(e) + e.data == item;
    RemoveKeys(e.data, PartitionKey);
    RemoveKeys(e.data, RowKey);
    assert item[1..] == rest && rest[1..] == e.data;
    assert Remove(item, PartitionKey) == Remove(rest, PartitionKey);
    assert Remove(rest, PartitionKey) == [rowKey] + Remove(e.data, PartitionKey);
    assert Remove(rest, RowKey) == Remove(e.data, RowKey);
  }

  /** Writing an entity to Azure and reading it back gives the same entity, table name
      included (this rests on `int(str(n)) == n`). */
  lemma AzureRoundTrip(e: Entity, fp: FloatOps)
    requires Sorted(e.data) && UniqueKeys(e.data)
    requires PartitionKey !in Keys(e.data) && RowKey !in Keys(e.data)
    ensures FromAzure(ToAzure(e), fp) == Ok(e)
  {
    ToAzureLayout(e);
    PopAddress(e);
    var item := ToAzure(e);
    var rowKey := VStr(IntToString(e.id));
    assert Pop(item, PartitionKey) == Some((e.tableName, Remove(item, PartitionKey)));
    assert Pop(Remove(item, PartitionKey), RowKey) == Some((rowKey, e.data));
    IntToStringRoundTrip(e.id);
    SortSortedIsIdentity(e.data);
    assert MakeEntity(e.tableName, rowKey, e.data, fp) == Ok(e);
  }

  /** `convert_dict_to_GeneralizedEntity`: refuses a dict without `id` or `tableName`,
      otherwise pops both and builds the entity from the rest. */
  function FromDict(d: Dict<Value>, fp: FloatOps): (r: Result<Entity, Error>)
    ensures "id" !in Keys(d) || "tableName" !in Keys(d) ==> r == Err(MissingIdOrTableName)
    ensures r.Ok? <==> "id" in Keys(d) && "tableName" in Keys(d) && IntOf(Get(d, "id").value, fp).Some?
    ensures r.Ok? ==>
      && r.value.tableName == Get(d, "tableName").value
      && r.value.id == IntOf(Get(d, "id").value, fp).value
      && Sorted(r.value.data)
      && multiset(r.value.data) == multiset(Remove(Remove(d, "tableName"), "id"))
  {
    if "id" !in Keys(d) || "tableName" !in Keys(d) then Err(MissingIdOrTableName)
    else
      RemoveGet(d, "tableName", "id");
      var tableName := Get(d, "tableName").value;
      var data := Remove(d, "tableName");
      var id := Get(data, "id").value;
      MakeEntity(tableName, id, Remove(data, "id"), fp)
  }

  // ---------------------------------------------------------------------------
  // The caller's dict is emptied of the popped keys.

  /** A dict object the converters pop keys out of. */
  class MutableDict {
    var items: Dict<Value>

    constructor (items: Dict<Value>)
      ensures this.items == items
    {
      this.items := items;
    }

    /** `d.pop(key)`. */
    method Pop(key: string) returns (r: Result<Value, Error>)
      modifies this
      ensures key in Keys(old(items)) ==> r == Ok(Get(old(items), key).value) && items == Remove(old(items), key)
      ensures key !in Keys(old(items)) ==> r == Err(KeyError(key)) && items == old(items)
    {
      match Dicts.Pop(items, key)
      case None =>
        r := Err(KeyError(key));
      case Some((v, rest)) =>
        r := Ok(v);
        items := rest;
    }
  }

  /** `convert_azure_entity_to_GeneralizedEntity` as the source runs it, popping from the item. */
  method ConvertAzureEntity(item: MutableDict, fp: FloatOps) returns (r: Result<Entity, Error>)
    modifies item
    ensures r == FromAzure(old(item.items), fp)
    ensures item.items ==
      if PartitionKey !in Keys(old(item.items)) then old(item.items)
      else if RowKey !in Keys(old(item.items)) then Remove(old(item.items), PartitionKey)
      else Remove(Remove(old(item.items), PartitionKey), RowKey)
  {
    RemoveGet(item.items, PartitionKey, RowKey);
    var tableName := item.Pop(PartitionKey);
    if tableName.Err? {
      return Err(tableName.error);
    }
    var id := item.Pop(RowKey);
    if id.Err? {
      return Err(id.error);
    }
    var data := item.items;
    r := MakeEntity(tableName.value, id.value, data, fp);
  }

  /** `convert_dict_to_GeneralizedEntity` as the source runs it, popping from the dict. */
  method ConvertDict(d: MutableDict, fp: FloatOps) returns (r: Result<Entity, Error>)
    modifies d
    ensures r == FromDict(old(d.items), fp)
    ensures d.items ==
      if "id" !in Keys(old(d.items)) || "tableName" !in Keys(old(d.items)) then old(d.items)
      else Remove(Remove(old(d.items), "tableName"), "id")
  {
    if "id" !in Keys(d.items) || "tableName" !in Keys(d.items) {
      return Err(MissingIdOrTableName);
    }
    RemoveGet(d.items, "tableName", "id");
    var tableName := d.Pop("tableName");
    var id := d.Pop("id");
    r := MakeEntity(tableName.value, id.value, d.items, fp);
  }

  // ---------------------------------------------------------------------------
  // Entity -> typed MySQL dict

  /** The three conversions of `dataTypeConversionFuncDict`. */
  datatype Conversion = ToInt | ToStr | ToFloat

  /** The closed lookup table, keyed by the type name the catalog reports. */
  function ConversionFor(tag: string): (c: Option<Conversion>)
    ensures c.Some? <==> tag in {"int", "varchar", "double"}
  {
    if tag == "int" then Some(ToInt)
    else if tag == "varchar" then Some(ToStr)
    else if tag == "double" then Some(ToFloat)
    else None
  }

  /** `dataTypeConversionFuncDict[tag](v)`. */
  function Coerce(tag: string, v: Value, fp: FloatOps): (r: Result<Value, Error>)
    ensures ConversionFor(tag).None? ==> r == Err(UnsupportedType(tag))
    ensures tag == "varchar" ==> r == Ok(VStr(StrOf(v, fp)))
    ensures tag == "int" ==> r == (if IntOf(v, fp).Some? then Ok(VInt(IntOf(v, fp).value)) else Err(CoercionFailed))
    ensures tag == "double" ==> r == (if FloatOf(v, fp).Some? then Ok(VFloat(FloatOf(v, fp).value)) else Err(CoercionFailed))
  {
    match ConversionFor(tag)
    case None => Err(UnsupportedType(tag))
    case Some(ToInt) =>
      (match IntOf(v, fp)
       case None => Err(CoercionFailed)
       case Some(n) => Ok(VInt(n)))
    case Some(ToStr) => Ok(VStr(StrOf(v, fp)))
    case Some(ToFloat) =>
      (match FloatOf(v, fp)
       case None => Err(CoercionFailed)
       case Some(d) => Ok(VFloat(d)))
  }

  /** A value already of its column's type passes through its coercion unchanged. */
  lemma CoerceOwnType(v: Value, fp: FloatOps)
    ensures v.VInt? ==> Coerce("int", v, fp) == Ok(v)
    ensures v.VStr? ==> Coerce("varchar", v, fp) == Ok(v)
    ensures v.VFloat? ==> Coerce("double", v, fp) == Ok(v)
  {
  }

  /** `int("abc")` raises, so an `int` column refuses a non-numeric string. */
  lemma IntTagRefusesText(fp: FloatOps)
    ensures Coerce("int", VStr("abc"), fp) == Err(CoercionFailed)
    ensures Coerce("bigint", VInt(1), fp) == Err(UnsupportedType("bigint"))
  {
    assert Strip("abc") == "abc";
  }

  /** `(("id", entity.id),) + entity.data`: the entries the tags are matched against. */
  function MysqlEntries(e: Entity): seq<(string, Value)> {
    [("id", VInt(e.id))] + e.data
  }

  /** Entry `i` converts: there is an `i`-th tag, it is known, and its coercion succeeds. */
  predicate EntryConverts(entries: seq<(string, Value)>, tags: seq<string>, i: nat, fp: FloatOps)
    requires i < |entries|
  {
    i < |tags| && Coerce(tags[i], entries[i].1, fp).Ok?
  }

  /** The exception entry `i` raises when it does not convert. */
  function EntryError(entries: seq<(string, Value)>, tags: seq<string>, i: nat, fp: FloatOps): Error
    requires i < |entries| && !EntryConverts(entries, tags, i, fp)
  {
    if i >= |tags| then IndexError else Coerce(tags[i], entries[i].1, fp).error
  }

  /** Dropping the last entry changes no other entry's conversion. */
  lemma InitConverts(entries: seq<(string, Value)>, tags: seq<string>, fp: FloatOps)
    requires entries != []
    ensures var init := entries[..|entries| - 1];
      && Keys(entries) == Keys(init) + [entries[|entries| - 1].0]
      && forall j :: 0 <= j < |init| ==>
        init[j] == entries[j] && EntryConverts(init, tags, j, fp) == EntryConverts(entries, tags, j, fp)
  {
  }

  /** The value entry `i` converts to. */
  function Converted(entries: seq<(string, Value)>, tags: seq<string>, i: nat, fp: FloatOps): Value
    requires i < |entries| && EntryConverts(entries, tags, i, fp)
  {
    Coerce(tags[i], entries[i].1, fp).value
  }

  /** The dict comprehension over `range(len(entries))`: key `i` gets tag `i`'s
      coercion of value `i`; the first entry that fails raises. */
  function CoerceEntries(entries: seq<(string, Value)>, tags: seq<string>, fp: FloatOps): (r: Result<Dict<Value>, Error>)
    ensures r.Ok? <==> forall i :: 0 <= i < |entries| ==> EntryConverts(entries, tags, i, fp)
    ensures r.Ok? ==> UniqueKeys(r.value) && forall k :: k in Keys(r.value) <==> k in Keys(entries)
  {
    if entries == [] then Ok([])
    else
      var n := |entries| - 1;
      var init := entries[..n];
      InitConverts(entries, tags, fp);
      match CoerceEntries(init, tags, fp)
      case Err(err) =>
        InitFails(entries, init, tags, fp);
        Err(err)
      case Ok(d) =>
        if n >= |tags| then
          assert !EntryConverts(entries, tags, n, fp);
          Err(IndexError)
        else
          match Coerce(tags[n], entries[n].1, fp)
          case Err(err) =>
            assert !EntryConverts(entries, tags, n, fp);
            Err(err)
          case Ok(v) =>
            LastConverts(entries, init, tags, fp, d, v);
            Ok(Set(d, entries[n].0, v))
  }

  /** An entry before the last that fails fails in the whole sequence too. */
  lemma InitFails(entries: seq<(string, Value)>, init: seq<(string, Value)>, tags: seq<string>, fp: FloatOps)
    requires entries != [] && init == entries[..|entries| - 1]
    requires !forall i :: 0 <= i < |init| ==> EntryConverts(init, tags, i, fp)
    ensures !forall i :: 0 <= i < |entries| ==> EntryConverts(entries, tags, i, fp)
  {
    var j :| 0 <= j < |init| && !EntryConverts(init, tags, j, fp);
    InitConverts(entries, tags, fp);
  }

  /** The last entry converting after the others did: every entry converts, and setting
      its key adds exactly that key. */
  lemma LastConverts(entries: seq<(string, Value)>, init: seq<(string, Value)>, tags: seq<string>, fp: FloatOps,
                     d: Dict<Value>, v: Value)
    requires entries != [] && init == entries[..|entries| - 1] && |init| < |tags|
    requires Coerce(tags[|init|], entries[|init|].1, fp) == Ok(v)
    requires forall i :: 0 <= i < |init| ==> EntryConverts(init, tags, i, fp)
    requires UniqueKeys(d) && forall k :: k in Keys(d) <==> k in Keys(init)
    ensures forall i :: 0 <= i < |entries| ==> EntryConverts(entries, tags, i, fp)
    ensures UniqueKeys(Set(d, entries[|init|].0, v))
    ensures forall k :: k in Keys(Set(d, entries[|init|].0, v)) <==> k in Keys(entries)
  {
    InitConverts(entries, tags, fp);
    SetKeys(d, entries[|entries| - 1].0, v);
    SetUnique(d, entries[|entries| - 1].0, v);
  }

  /** The error raised is the one of the first entry that does not convert. */
  lemma {:induction false} CoerceEntriesFirstError(entries: seq<(string, Value)>, tags: seq<string>, fp: FloatOps)
    requires CoerceEntries(entries, tags, fp).Err?
    ensures exists i :: (0 <= i < |entries| && !EntryConverts(entries, tags, i, fp)
      && (forall j :: 0 <= j < i ==> EntryConverts(entries, tags, j, fp))
      && CoerceEntries(entries, tags, fp).error == EntryError(entries, tags, i, fp))
  {
    var n := |entries| - 1;
    var init := entries[..n];
    InitConverts(entries, tags, fp);
    if CoerceEntries(init, tags, fp).Err? {
      CoerceEntriesFirstError(init, tags, fp);
      var i :| 0 <= i < n && !EntryConverts(init, tags, i, fp)
        && (forall j :: 0 <= j < i ==> EntryConverts(init, tags, j, fp))
        && CoerceEntries(init, tags, fp).error == EntryError(init, tags, i, fp);
      assert EntryError(init, tags, i, fp) == EntryError(entries, tags, i, fp);
    } else {
      assert !EntryConverts(entries, tags, n, fp);
    }
  }

  /** With distinct keys, item `i` of the typed dict is key `i` with value `i` converted. */
  lemma {:induction false} CoerceEntriesInPlace(entries: seq<(string, Value)>, tags: seq<string>, fp: FloatOps)
    requires UniqueKeys(entries) && CoerceEntries(entries, tags, fp).Ok?
    ensures var d := CoerceEntries(entries, tags, fp).value;
      && |d| == |entries|
      && forall i :: 0 <= i < |entries| ==> d[i] == (entries[i].0, Converted(entries, tags, i, fp))
  {
    if entries != [] {
      var n := |entries| - 1;
      var init := entries[..n];
      UniqueInit(entries);
      CoerceEntriesStep(entries, tags, fp);
      CoerceEntriesInPlace(init, tags, fp);
      var d := CoerceEntries(init, tags, fp).value;
      assert entries[n].0 !in Keys(d) by {
        forall j | 0 <= j < n ensures Keys(d)[j] == Keys(init)[j] {
        }
        assert Keys(d) == Keys(init);
      }
      var last := (entries[n].0, Converted(entries, tags, n, fp));
      SetNewKey(d, last.0, last.1);
      var r := d + [last];
      assert r == CoerceEntries(entries, tags, fp).value;
      forall i | 0 <= i < n ensures r[i] == (entries[i].0, Converted(entries, tags, i, fp)) {
        ConvertedPrefix(entries, tags, fp, n, i);
        assert r[i] == d[i];
      }
      assert r[n] == last;
    }
  }

  /** An entry converts alike within a prefix of the entries. */
  lemma ConvertedPrefix(entries: seq<(string, Value)>, tags: seq<string>, fp: FloatOps, n: nat, i: nat)
    requires i < n <= |entries| && EntryConverts(entries, tags, i, fp)
    ensures EntryConverts(entries[..n], tags, i, fp)
    ensures entries[..n][i] == entries[i]
    ensures Converted(entries[..n], tags, i, fp) == Converted(entries, tags, i, fp)
  {
    assert entries[..n][i] == entries[i];
  }

  /** The last entry is assigned after all the others. */
  lemma CoerceEntriesStep(entries: seq<(string, Value)>, tags: seq<string>, fp: FloatOps)
    requires entries != [] && CoerceEntries(entries, tags, fp).Ok?
    ensures var n := |entries| - 1;
      && CoerceEntries(entries[..n], tags, fp).Ok?
      && EntryConverts(entries, tags, n, fp)
      && CoerceEntries(entries, tags, fp).value
         == Set(CoerceEntries(entries[..n], tags, fp).value, entries[n].0, Converted(entries, tags, n, fp))
  {
  }

  /** `convert_GeneralizedEntity_to_dict_for_mysql(entity, dataTypes)`: `"id"` then the data
      keys in order, the `i`-th value coerced by the `i`-th tag. Raises when there are fewer
      tags than entries, on an unknown tag, or when a coercion fails (`CoerceEntries` says
      which error comes first). */
  function ToMysql(e: Entity, tags: seq<string>, fp: FloatOps): (r: Result<Dict<Value>, Error>)
    ensures |tags| < 1 + |e.data| ==> r.Err?
    ensures r.Ok? && UniqueKeys(MysqlEntries(e)) ==> Keys(r.value) == ["id"] + Keys(e.data)
  {
    var entries := MysqlEntries(e);
    var r := CoerceEntries(entries, tags, fp);
    assert |tags| < |entries| ==> !EntryConverts(entries, tags, |entries| - 1, fp);
    assert r.Ok? && UniqueKeys(entries) ==> Keys(r.value) == Keys(entries) by {
      if r.Ok? && UniqueKeys(entries) {
        CoerceEntriesInPlace(entries, tags, fp);
      }
    }
    assert Keys(entries) == ["id"] + Keys(e.data);
    r
  }

  /** Tags beyond the number of entries are never looked at. */
  lemma {:induction false} ExtraTagsIgnored(entries: seq<(string, Value)>, tags: seq<string>, more: seq<string>, fp: FloatOps)
    requires |tags| >= |entries|
    ensures CoerceEntries(entries, tags + more, fp) == CoerceEntries(entries, tags, fp)
  {
    if entries != [] {
      ExtraTagsIgnored(entries[..|entries| - 1], tags, more, fp);
      assert (tags + more)[|entries| - 1] == tags[|entries| - 1];
    }
  }

  // ---------------------------------------------------------------------------
  // MySQL row -> entity, and the relational round trip

  /** One row of `get_set_of_all_mysql_entities_of_table`:
      `dict(zip(('tableName',) + column_names, (tableName,) + row))`, then
      `convert_dict_to_GeneralizedEntity`. `zip` stops at the shorter tuple. */
  function RowToEntity(tableName: string, columns: seq<string>, row: seq<Value>, fp: FloatOps): (r: Result<Entity, Error>)
    ensures r.Ok? ==> "id" in Keys(Zip(columns, row))
  {
    var pairs := Zip(["tableName"] + columns, [VStr(tableName)] + row);
    var r := FromDict(FromPairs(pairs), fp);
    RowPairsId(tableName, columns, row);
    r
  }

  /** Behind the table name, the row's pairs hold `id` only when the zipped columns do. */
  lemma RowPairsId(tableName: string, columns: seq<string>, row: seq<Value>)
    ensures "id" in Keys(Zip(["tableName"] + columns, [VStr(tableName)] + row)) ==> "id" in Keys(Zip(columns, row))
  {
    var pairs := Zip(["tableName"] + columns, [VStr(tableName)] + row);
    assert pairs == [("tableName", VStr(tableName))] + Zip(columns, row);
    ConsParts(("tableName", VStr(tableName)), Zip(columns, row));
  }

  /** `zip` stops at the shorter side: a row with fewer values than columns reads as if
      the columns past its end did not exist. */
  lemma ShortRowTruncates(tableName: string, columns: seq<string>, row: seq<Value>, fp: FloatOps)
    requires |row| < |columns|
    ensures RowToEntity(tableName, columns, row, fp) == RowToEntity(tableName, columns[..|row|], row, fp)
  {
    var a, b := ["tableName"] + columns, ["tableName"] + columns[..|row|];
    var values := [VStr(tableName)] + row;
    var za, zb := Zip(a, values), Zip(b, values);
    assert |za| == |zb|;
    forall i | 0 <= i < |za| ensures za[i] == zb[i] {
      assert a[i] == b[i];
    }
    assert za == zb;
  }

  /** For instance, `id`, `name` with the row `3` reads as the entity 3 without data. */
  lemma ShortRowDropsColumns(fp: FloatOps)
    ensures RowToEntity("t", ["id", "name"], [VInt(3)], fp) == Ok(Entity(VStr("t"), 3, []))
  {
    var pairs := [("tableName", VStr("t")), ("id", VInt(3))];
    assert Zip(["tableName"] + ["id", "name"], [VStr("t")] + [VInt(3)]) == pairs;
    FromPairsOfUnique(pairs);
    assert Remove(pairs, "tableName") == [("id", VInt(3))];
    assert Remove([("id", VInt(3))], "id") == [];
  }

  /** The type tags fit the entity: one per entry, each a coercion that leaves its value as is. */
  predicate TagsFit(e: Entity, tags: seq<string>, fp: FloatOps) {
    |tags| >= |MysqlEntries(e)|
    && forall i :: 0 <= i < |MysqlEntries(e)| ==> Coerce(tags[i], MysqlEntries(e)[i].1, fp) == Ok(MysqlEntries(e)[i].1)
  }

  lemma NoCollisionUnique<V>(s: seq<(string, V)>)
    requires NoCaseCollision(s)
    ensures UniqueKeys(s)
  {
  }

  lemma {:induction false} RemoveNoCollision<V>(s: seq<(string, V)>, k: string)
    requires NoCaseCollision(s)
    ensures NoCaseCollision(Remove(s, k))
  {
    if s != [] {
      RemoveNoCollision(s[1..], k);
      if s[0].0 != k {
        RemoveMembers(s[1..], k);
        var t := Remove(s[1..], k);
        var r := [s[0]] + t;
        forall i, j | 0 <= i < j < |r| ensures SortKey(r[i]) != SortKey(r[j]) {
          if i == 0 {
            assert r[j] == t[j - 1] && t[j - 1] in s[1..];
          } else {
            assert r[i] == t[i - 1] && r[j] == t[j - 1];
          }
        }
      }
    }
  }

  /** With tags that fit, the typed dict is the entries themselves. */
  lemma ToMysqlFitting(e: Entity, tags: seq<string>, fp: FloatOps)
    requires UniqueKeys(MysqlEntries(e)) && TagsFit(e, tags, fp)
    ensures ToMysql(e, tags, fp) == Ok(MysqlEntries(e))
  {
    var entries := MysqlEntries(e);
    assert forall i :: 0 <= i < |entries| ==> EntryConverts(entries, tags, i, fp);
    var r := CoerceEntries(entries, tags, fp);
    CoerceEntriesInPlace(entries, tags, fp);
    forall i | 0 <= i < |entries| ensures r.value[i] == entries[i] {
      assert r.value[i] == (entries[i].0, Converted(entries, tags, i, fp));
    }
    assert r.value == entries;
  }

  /** Zipping a row's column names with its values, behind the table name, builds the dict
      `[("tableName", t)] + row` when no column is called `tableName`. */
  lemma ZipRow(tableName: string, row: Dict<Value>)
    requires UniqueKeys(row) && "tableName" !in Keys(row)
    ensures FromPairs(Zip(["tableName"] + Keys(row), [VStr(tableName)] + Dicts.Values(row)))
         == [("tableName", VStr(tableName))] + row
  {
    var zipped := Zip(["tableName"] + Keys(row), [VStr(tableName)] + Dicts.Values(row));
    assert zipped == [("tableName", VStr(tableName))] + row;
    UniqueCons(("tableName", VStr(tableName)), row);
    FromPairsOfUnique(zipped);
  }

  /** `convert_dict_to_GeneralizedEntity` on such a dict pops the table name and the id and
      keeps the other columns. */
  lemma FromDictOfRow(tableName: string, row: Dict<Value>, id: int, fp: FloatOps)
    requires UniqueKeys(row) && "tableName" !in Keys(row) && ("id", VInt(id)) in row
    ensures FromDict([("tableName", VStr(tableName))] + row, fp)
         == Ok(Entity(VStr(tableName), id, SortByLowerKey(Remove(row, "id"))))
  {
    var head := ("tableName", VStr(tableName));
    var d := [head] + row;
    ConsParts(head, row);
    RemoveKeys(row, "tableName");
    assert Remove(d, "tableName") == row;
    GetUnique(row, "id", VInt(id));
    assert "id" in Keys(row);
    assert Get(d, "tableName") == Some(VStr(tableName));
    assert Get(d, "id") == Some(VInt(id));
  }

  lemma RowDataMultiset(e: Entity, row: Dict<Value>)
    requires multiset(row) == multiset(MysqlEntries(e))
    requires UniqueKeys(row)
    ensures multiset(Remove(row, "id")) == multiset(e.data)
  {
    assert ("id", VInt(e.id)) in multiset(row);
    GetUnique(row, "id", VInt(e.id));
    RemoveMultiset(row, "id");
    var x := ("id", VInt(e.id));
    assert MysqlEntries(e) == [x] + e.data;
    assert multiset(MysqlEntries(e)) == multiset{x} + multiset(e.data);
    calc {
      multiset(Remove(row, "id"));
      multiset(Remove(row, "id")) + multiset{x} - multiset{x};
      multiset(row) - multiset{x};
      multiset(MysqlEntries(e)) - multiset{x};
      multiset(e.data) + multiset{x} - multiset{x};
      multiset(e.data);
    }
  }

  /** The columns other than `id` of a row holding the entity's entries are its data. */
  lemma RowDataIsEntityData(e: Entity, row: Dict<Value>)
    requires Sorted(e.data) && NoCaseCollision(e.data)
    requires multiset(row) == multiset(MysqlEntries(e))
    requires NoCaseCollision(row)
    ensures SortByLowerKey(Remove(row, "id")) == e.data
  {
    NoCollisionUnique(row);
    RowDataMultiset(e, row);
    RemoveNoCollision(row, "id");
    SortOrderInvariant(Remove(row, "id"), e.data);
    SortSortedIsIdentity(e.data);
  }

  /** Writing an entity to MySQL with tags that fit, then reading the row back in any column
      order, gives the same entity (with the table name the reader supplies). */
  lemma MysqlRoundTrip(e: Entity, tags: seq<string>, tableName: string, row: Dict<Value>, fp: FloatOps)
    requires Sorted(e.data) && NoCaseCollision(e.data) && "id" !in Keys(e.data)
    requires TagsFit(e, tags, fp)
    requires multiset(row) == multiset(MysqlEntries(e))
    requires NoCaseCollision(row) && "tableName" !in Keys(row)
    ensures ToMysql(e, tags, fp) == Ok(MysqlEntries(e))
    ensures RowToEntity(tableName, Keys(row), Dicts.Values(row), fp) == Ok(e.(tableName := VStr(tableName)))
  {
    NoCollisionUnique(e.data);
    assert UniqueKeys(MysqlEntries(e)) by {
      UniqueCons(("id", VInt(e.id)), e.data);
    }
    ToMysqlFitting(e, tags, fp);
    NoCollisionUnique(row);
    ZipRow(tableName, row);
    assert ("id", VInt(e.id)) in multiset(row);
    FromDictOfRow(tableName, row, e.id, fp);
    RowDataIsEntityData(e, row);
  }

  // ---------------------------------------------------------------------------
  // Where the type tags come from

  /** `get_mysql_table_data_types_ordered_by_column_names`: the declared type of every column
      of the table, in the order of the column names. `schema` maps each column to its type;
      the order is MySQL's default case-insensitive collation, taken here as the order of
      the lower-cased names. */
  function CatalogTags(schema: Dict<string>): (tags: seq<string>)
    ensures |tags| == |schema|
  {
    var sorted := SortByLowerKey(schema);
    assert |multiset(sorted)| == |multiset(schema)|;
    Dicts.Values(sorted)
  }

  /** The catalog's tags are the schema's types, each column's type once, in the order of
      the lower-cased column names. */
  lemma CatalogTagsSorted(schema: Dict<string>)
    ensures forall i :: 0 <= i < |CatalogTags(schema)| ==>
      exists j :: 0 <= j < |schema| && schema[j].1 == CatalogTags(schema)[i]
    ensures exists s :: Sorted(s) && multiset(s) == multiset(schema) && CatalogTags(schema) == Dicts.Values(s)
  {
    var sorted := SortByLowerKey(schema);
    assert forall i :: 0 <= i < |sorted| ==> sorted[i] in multiset(schema);
    assert Sorted(sorted) && multiset(sorted) == multiset(schema);
  }

  /** Each entry gets the type declared for its own column. */
  predicate TagsMatchColumns(e: Entity, tags: seq<string>, schema: Dict<string>) {
    |tags| >= |MysqlEntries(e)|
    && forall i :: 0 <= i < |MysqlEntries(e)| ==> Get(schema, MysqlEntries(e)[i].0) == Some(tags[i])
  }

  /** The catalog orders `id` among the other columns by name, while the entity puts it
      first: for a table with columns `id int` and `email varchar` the tags come out as
      `varchar, int`, so the id is made a string and the e-mail address fails `int()`. */
  lemma CatalogOrderMisalignsId(fp: FloatOps)
    ensures var schema := [("id", "int"), ("email", "varchar")];
      var e := Entity(VStr("users"), 7, [("email", VStr("a@b.c"))]);
      && CatalogTags(schema) == ["varchar", "int"]
      && !TagsMatchColumns(e, CatalogTags(schema), schema)
      && ToMysql(e, CatalogTags(schema), fp) == Err(CoercionFailed)
  {
    var schema := [("id", "int"), ("email", "varchar")];
    var e := Entity(VStr("users"), 7, [("email", VStr("a@b.c"))]);
    IdEmailCatalog();
    assert MysqlEntries(e) == [("id", VInt(7)), ("email", VStr("a@b.c"))];
    assert Get(schema, "id") == Some("int");
    IdEmailCoercion(fp);
  }

  /** The catalog lists `email` before `id`. */
  lemma IdEmailCatalog()
    ensures CatalogTags([("id", "int"), ("email", "varchar")]) == ["varchar", "int"]
  {
    var idColumn, emailColumn := ("id", "int"), ("email", "varchar");
    var schema := [idColumn, emailColumn];
    assert Lower("id") == "id" && Lower("email") == "email";
    assert !LessEq("id", "email");
    assert SortByLowerKey([emailColumn]) == [emailColumn] by {
      assert [emailColumn][1..] == [];
    }
    assert schema[1..] == [emailColumn];
    assert Insert(idColumn, [emailColumn]) == [emailColumn, idColumn];
    assert SortByLowerKey(schema) == [emailColumn, idColumn];
  }

  /** The id takes the `varchar` tag, and the e-mail address then fails `int()`. */
  lemma IdEmailCoercion(fp: FloatOps)
    ensures CoerceEntries([("id", VInt(7)), ("email", VStr("a@b.c"))], ["varchar", "int"], fp) == Err(CoercionFailed)
  {
    var entries := [("id", VInt(7)), ("email", VStr("a@b.c"))];
    var tags := ["varchar", "int"];
    assert entries[..1] == [("id", VInt(7))] && entries[..1][..0] == [];
    assert CoerceEntries(entries[..1], tags, fp).Ok?;
    assert Strip("a@b.c") == "a@b.c";
    assert ParseInt("a@b.c") == None;
    assert Coerce("int", VStr("a@b.c"), fp) == Err(CoercionFailed);
  }

  /** The tags in the entity's own layout: the type of `id`, then the other columns'
      types by column name. */
  function IdFirstTags(schema: Dict<string>): seq<string> {
    (if "id" in Keys(schema) then [Get(schema, "id").value] else [])
      + Dicts.Values(SortByLowerKey(Remove(schema, "id")))
  }

  /** The sorted non-id columns line up with the data of an entity over the same columns. */
  lemma SortedColumnsMatchData(e: Entity, schema: Dict<string>)
    requires Sorted(e.data) && NoCaseCollision(e.data) && NoCaseCollision(schema)
    requires forall k :: k in Keys(e.data) <==> k in Keys(schema) && k != "id"
    ensures Keys(SortByLowerKey(Remove(schema, "id"))) == Keys(e.data)
  {
    var rest := Remove(schema, "id");
    var sorted := SortByLowerKey(rest);
    RemoveNoCollision(schema, "id");
    SortNoCollision(rest);
    RemoveMembers(schema, "id");
    forall k ensures k in Keys(sorted) <==> k in Keys(e.data) {
      if k in Keys(sorted) {
        var i :| 0 <= i < |sorted| && sorted[i].0 == k;
        assert sorted[i] in multiset(rest);
        assert sorted[i] in schema;
      }
      if k in Keys(e.data) {
        var i :| 0 <= i < |schema| && schema[i].0 == k;
        assert schema[i] in rest;
        assert schema[i] in multiset(sorted);
      }
    }
    SortedKeysUnique(sorted, e.data);
  }

  /** With `id` first, every entry gets the type of its own column. */
  lemma IdFirstTagsMatchColumns(e: Entity, schema: Dict<string>)
    requires Sorted(e.data) && NoCaseCollision(e.data) && NoCaseCollision(schema)
    requires "id" in Keys(schema)
    requires forall k :: k in Keys(e.data) <==> k in Keys(schema) && k != "id"
    ensures TagsMatchColumns(e, IdFirstTags(schema), schema)
  {
    SortedColumnsMatchData(e, schema);
    forall i | 0 <= i < |MysqlEntries(e)|
      ensures Get(schema, MysqlEntries(e)[i].0) == Some(IdFirstTags(schema)[i])
    {
      if i > 0 {
        SortedColumnType(e, schema, i);
      }
    }
  }

  /** Entry `i > 0` of the entity meets the `i`-th tag, which is its own column's type. */
  lemma SortedColumnType(e: Entity, schema: Dict<string>, i: nat)
    requires NoCaseCollision(schema) && "id" in Keys(schema)
    requires Keys(SortByLowerKey(Remove(schema, "id"))) == Keys(e.data)
    requires 0 < i < |MysqlEntries(e)|
    ensures Get(schema, MysqlEntries(e)[i].0) == Some(IdFirstTags(schema)[i])
  {
    var rest := Remove(schema, "id");
    var sorted := SortByLowerKey(rest);
    var c := sorted[i - 1];
    assert MysqlEntries(e)[i] == e.data[i - 1];
    assert Keys(e.data)[i - 1] == Keys(sorted)[i - 1];
    assert IdFirstTags(schema)[i] == Dicts.Values(sorted)[i - 1];
    assert c in multiset(rest);
    RemoveMembers(schema, "id");
    NoCollisionUnique(schema);
    GetUnique(schema, c.0, c.1);
  }

  /** A value of the type a tag declares: what a column of that type holds. */
  predicate OfType(v: Value, tag: string) {
    (tag == "int" && v.VInt?) || (tag == "varchar" && v.VStr?) || (tag == "double" && v.VFloat?)
  }

  /** The entry holds a value of its own column's declared type. */
  predicate EntryOfColumnType(entry: (string, Value), schema: Dict<string>) {
    Get(schema, entry.0).Some? && OfType(entry.1, Get(schema, entry.0).value)
  }

  /** With `id` first, an entity whose values have their columns' types converts to its
      own values: nothing changes on the way to MySQL. */
  lemma IdFirstTagsFit(e: Entity, schema: Dict<string>, fp: FloatOps)
    requires Sorted(e.data) && NoCaseCollision(e.data) && NoCaseCollision(schema)
    requires "id" in Keys(schema)
    requires forall k :: k in Keys(e.data) <==> k in Keys(schema) && k != "id"
    requires forall i :: 0 <= i < |MysqlEntries(e)| ==> EntryOfColumnType(MysqlEntries(e)[i], schema)
    ensures TagsFit(e, IdFirstTags(schema), fp)
  {
    var tags := IdFirstTags(schema);
    IdFirstTagsMatchColumns(e, schema);
    forall i | 0 <= i < |MysqlEntries(e)|
      ensures Coerce(tags[i], MysqlEntries(e)[i].1, fp) == Ok(MysqlEntries(e)[i].1)
    {
      assert EntryOfColumnType(MysqlEntries(e)[i], schema);
      assert Get(schema, MysqlEntries(e)[i].0) == Some(tags[i]);
      CoerceOwnType(MysqlEntries(e)[i].1, fp);
    }
  }

  // An example table where the catalog's tags convert without error but change values.

  /** A table `orders` with columns `id int`, `amount double`, `name varchar`. */
  function OrdersSchema(): Dict<string> {
    [("id", "int"), ("amount", "double"), ("name", "varchar")]
  }

  /** An `orders` row with id 7, the given amount and the name `x`. */
  function Order(amount: Value): Entity {
    Entity(VStr("orders"), 7, [("amount", amount), ("name", VStr("x"))])
  }

  /** The catalog orders the tags `amount`, `id`, `name`. */
  lemma OrdersCatalog()
    ensures CatalogTags(OrdersSchema()) == ["double", "int", "varchar"]
  {
    var id, amount, name := ("id", "int"), ("amount", "double"), ("name", "varchar");
    assert Lower("id") == "id" && Lower("amount") == "amount" && Lower("name") == "name";
    assert LessEq("amount", "name") && LessEq("id", "name") && !LessEq("id", "amount");
    CatalogOfThree(id, amount, name);
  }

  /** Three columns where the first sorts between the other two. */
  lemma CatalogOfThree(a: (string, string), b: (string, string), c: (string, string))
    requires LessEq(SortKey(b), SortKey(c)) && LessEq(SortKey(a), SortKey(c))
    requires !LessEq(SortKey(a), SortKey(b))
    ensures CatalogTags([a, b, c]) == [b.1, a.1, c.1]
  {
    var schema := [a, b, c];
    SortOfThree(a, b, c);
    CatalogTagsOfSorted(schema, [b, a, c]);
    ValuesOfThree(b, a, c);
  }

  lemma SortOfThree<V>(a: (string, V), b: (string, V), c: (string, V))
    requires LessEq(SortKey(b), SortKey(c)) && LessEq(SortKey(a), SortKey(c))
    requires !LessEq(SortKey(a), SortKey(b))
    ensures SortByLowerKey([a, b, c]) == [b, a, c]
  {
    assert [a, b, c][1..] == [b, c];
    SortOfTwo(b, c);
    InsertSecond(a, b, c);
  }

  lemma ValuesOfThree<V>(x: (string, V), y: (string, V), z: (string, V))
    ensures Dicts.Values([x, y, z]) == [x.1, y.1, z.1]
  {
  }

  lemma CatalogTagsOfSorted(schema: Dict<string>, sorted: Dict<string>)
    requires SortByLowerKey(schema) == sorted
    ensures CatalogTags(schema) == Dicts.Values(sorted)
  {
  }

  lemma SortOfTwo<V>(b: (string, V), c: (string, V))
    requires LessEq(SortKey(b), SortKey(c))
    ensures SortByLowerKey([b, c]) == [b, c]
  {
    assert [b, c][1..] == [c] && [c][1..] == [];
    assert SortByLowerKey([c]) == [c];
  }

  lemma InsertSecond<V>(a: (string, V), b: (string, V), c: (string, V))
    requires LessEq(SortKey(a), SortKey(c)) && !LessEq(SortKey(a), SortKey(b))
    ensures Insert(a, [b, c]) == [b, a, c]
  {
    assert [b, c][1..] == [c];
    assert Insert(a, [c]) == [a, c];
  }

  /** Under those tags an order converts without error whenever `int(amount)` does: the id
      becomes `float(7)` and the amount `int(amount)`. */
  lemma OrderConversion(amount: Value, fp: FloatOps)
    requires fp.fromInt(7).Some? && IntOf(amount, fp).Some?
    ensures ToMysql(Order(amount), ["double", "int", "varchar"], fp)
      == Ok([("id", VFloat(fp.fromInt(7).value)), ("amount", VInt(IntOf(amount, fp).value)), ("name", VStr("x"))])
  {
    var tags := ["double", "int", "varchar"];
    var entries := MysqlEntries(Order(amount));
    var want := [("id", VFloat(fp.fromInt(7).value)), ("amount", VInt(IntOf(amount, fp).value)), ("name", VStr("x"))];
    assert entries == [("id", VInt(7)), ("amount", amount), ("name", VStr("x"))];
    assert UniqueKeys(entries);
    assert forall i :: 0 <= i < 3 ==> EntryConverts(entries, tags, i, fp);
    CoerceEntriesInPlace(entries, tags, fp);
    var d := CoerceEntries(entries, tags, fp).value;
    assert |d| == 3;
    forall i | 0 <= i < 3 ensures d[i] == want[i] {
      assert d[i] == (entries[i].0, Converted(entries, tags, i, fp));
    }
    assert d == want;
  }
}
