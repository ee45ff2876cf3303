/** The two statements the MySQL side is written with (MySqlAzureBackup.py, lines 138-156):
    `REPLACE INTO t(c1,...,cn) VALUES(%s,...,%s);` for an upsert and
    `DELETE FROM t WHERE c1=%s AND ... AND cn=%s;` for a delete, each with the typed values
    of the entity as its parameters. */
module Sql {
  import opened Wrappers
  import opened Values
  import opened Dicts
  import opened Entities
  import opened Codec
  import opened SqlText

  /** A statement text with its `%s` parameters, as handed to `cursor.execute`. */
  datatype Statement = Statement(text: string, params: seq<Value>)

  /** No `%` in a table name or in any key of the entity (the names are pasted into the
      text, so a `%` there would be read as a placeholder). */
  predicate NamesFreeOfPercent(e: Entity, tableName: string) {
    Occurrences('%', tableName) == 0 && forall k :: k in Keys(e.data) ==> Occurrences('%', k) == 0
  }

  /** The column dict's keys carry no `%` when the entity's names carry none. */
  lemma ColumnsFreeOfPercent(e: Entity, tableName: string, d: Dict<Value>)
    requires NamesFreeOfPercent(e, tableName)
    requires forall k :: k in Keys(d) <==> k in Keys(MysqlEntries(e))
    ensures forall i :: 0 <= i < |d| ==> Occurrences('%', Keys(d)[i]) == 0
  {
    forall i | 0 <= i < |d| ensures Occurrences('%', Keys(d)[i]) == 0 {
      var k := Keys(d)[i];
      assert k in Keys(MysqlEntries(e));
      var j :| 0 <= j < |MysqlEntries(e)| && MysqlEntries(e)[j].0 == k;
      if j > 0 {
        assert MysqlEntries(e)[j] == e.data[j - 1];
      }
    }
  }

  /** With fitting tags the statement's columns are `id` and the data keys, and its
      parameters the id and the data values, in the same order. */
  lemma FittingColumns(e: Entity, tags: seq<string>, fp: FloatOps)
    requires UniqueKeys(MysqlEntries(e)) && TagsFit(e, tags, fp)
    ensures ToMysql(e, tags, fp) == Ok(MysqlEntries(e))
    ensures Keys(MysqlEntries(e)) == ["id"] + Keys(e.data)
    ensures Dicts.Values(MysqlEntries(e)) == [VInt(e.id)] + Dicts.Values(e.data)
  {
    ToMysqlFitting(e, tags, fp);
    ConsParts(("id", VInt(e.id)), e.data);
    ValuesCons(("id", VInt(e.id)), e.data);
  }

  /** With distinct keys, the typed dict's columns are `id` and the data keys, and its
      `i`-th value is entry `i`'s coercion by tag `i`. */
  lemma TypedColumns(e: Entity, tags: seq<string>, fp: FloatOps)
    requires UniqueKeys(MysqlEntries(e)) && ToMysql(e, tags, fp).Ok?
    ensures Keys(ToMysql(e, tags, fp).value) == ["id"] + Keys(e.data)
    ensures |Dicts.Values(ToMysql(e, tags, fp).value)| == |MysqlEntries(e)|
    ensures forall i :: 0 <= i < |MysqlEntries(e)| ==>
      (EntryConverts(MysqlEntries(e), tags, i, fp)
       && Dicts.Values(ToMysql(e, tags, fp).value)[i] == Converted(MysqlEntries(e), tags, i, fp))
  {
    CoerceEntriesInPlace(MysqlEntries(e), tags, fp);
  }

  /** `upsert_entity_into_mysql_table` with the type tags given: the statement, or the
      exception the conversion raises. */
  function UpsertStatement(e: Entity, tableName: string, tags: seq<string>, fp: FloatOps): (r: Result<Statement, Error>)
    ensures r.Ok? <==> ToMysql(e, tags, fp).Ok?
    ensures r.Err? ==> r.error == ToMysql(e, tags, fp).error
    ensures r.Ok? && NamesFreeOfPercent(e, tableName) ==> Occurrences('%', r.value.text) == |r.value.params|
    ensures UniqueKeys(MysqlEntries(e)) && TagsFit(e, tags, fp) ==>
      r == Ok(Statement(ReplaceText(tableName, ["id"] + Keys(e.data)), [VInt(e.id)] + Dicts.Values(e.data)))
    ensures r.Ok? && UniqueKeys(MysqlEntries(e)) ==>
      && r.value.text == ReplaceText(tableName, ["id"] + Keys(e.data))
      && |r.value.params| == |MysqlEntries(e)|
      && forall i :: 0 <= i < |r.value.params| ==>
        EntryConverts(MysqlEntries(e), tags, i, fp) && r.value.params[i] == Converted(MysqlEntries(e), tags, i, fp)
  {
    match ToMysql(e, tags, fp)
    case Err(err) => Err(err)
    case Ok(d) =>
      var s := Statement(ReplaceText(tableName, Keys(d)), Dicts.Values(d));
      assert UniqueKeys(MysqlEntries(e)) ==>
        (&& Keys(d) == ["id"] + Keys(e.data) && |s.params| == |MysqlEntries(e)|
         && forall i :: 0 <= i < |s.params| ==>
           EntryConverts(MysqlEntries(e), tags, i, fp) && s.params[i] == Converted(MysqlEntries(e), tags, i, fp)) by {
        if UniqueKeys(MysqlEntries(e)) {
          TypedColumns(e, tags, fp);
        }
      }
      assert NamesFreeOfPercent(e, tableName) ==> Occurrences('%', s.text) == |s.params| by {
        if NamesFreeOfPercent(e, tableName) {
          ColumnsFreeOfPercent(e, tableName, d);
          ReplacePlaceholders(tableName, Keys(d));
        }
      }
      assert UniqueKeys(MysqlEntries(e)) && TagsFit(e, tags, fp) ==>
        s == Statement(ReplaceText(tableName, ["id"] + Keys(e.data)), [VInt(e.id)] + Dicts.Values(e.data)) by {
        if UniqueKeys(MysqlEntries(e)) && TagsFit(e, tags, fp) {
          FittingColumns(e, tags, fp);
        }
      }
      Ok(s)
  }

  /** `delete_entity_from_mysql_table` with the type tags given. The row is matched on
      every column, not only on `id`. */
  function DeleteStatement(e: Entity, tableName: string, tags: seq<string>, fp: FloatOps): (r: Result<Statement, Error>)
    ensures r.Ok? <==> ToMysql(e, tags, fp).Ok?
    ensures r.Err? ==> r.error == ToMysql(e, tags, fp).error
    ensures r.Ok? && NamesFreeOfPercent(e, tableName) ==> Occurrences('%', r.value.text) == |r.value.params|
    ensures UniqueKeys(MysqlEntries(e)) && TagsFit(e, tags, fp) ==>
      r == Ok(Statement(DeleteText(tableName, ["id"] + Keys(e.data)), [VInt(e.id)] + Dicts.Values(e.data)))
    ensures r.Ok? && UniqueKeys(MysqlEntries(e)) ==>
      && r.value.text == DeleteText(tableName, ["id"] + Keys(e.data))
      && |r.value.params| == |MysqlEntries(e)|
      && forall i :: 0 <= i < |r.value.params| ==>
        EntryConverts(MysqlEntries(e), tags, i, fp) && r.value.params[i] == Converted(MysqlEntries(e), tags, i, fp)
  {
    match ToMysql(e, tags, fp)
    case Err(err) => Err(err)
    case Ok(d) =>
      var s := Statement(DeleteText(tableName, Keys(d)), Dicts.Values(d));
      assert UniqueKeys(MysqlEntries(e)) ==>
        (&& Keys(d) == ["id"] + Keys(e.data) && |s.params| == |MysqlEntries(e)|
         && forall i :: 0 <= i < |s.params| ==>
           EntryConverts(MysqlEntries(e), tags, i, fp) && s.params[i] == Converted(MysqlEntries(e), tags, i, fp)) by {
        if UniqueKeys(MysqlEntries(e)) {
          TypedColumns(e, tags, fp);
        }
      }
      assert NamesFreeOfPercent(e, tableName) ==> Occurrences('%', s.text) == |s.params| by {
        if NamesFreeOfPercent(e, tableName) {
          ColumnsFreeOfPercent(e, tableName, d);
          DeletePlaceholders(tableName, Keys(d));
        }
      }
      assert UniqueKeys(MysqlEntries(e)) && TagsFit(e, tags, fp) ==>
        s == Statement(DeleteText(tableName, ["id"] + Keys(e.data)), [VInt(e.id)] + Dicts.Values(e.data)) by {
        if UniqueKeys(MysqlEntries(e)) && TagsFit(e, tags, fp) {
          FittingColumns(e, tags, fp);
        }
      }
      Ok(s)
  }

  /** The column list of `REPLACE INTO` splits back into the columns of the typed dict,
      `id` first. */
  lemma ReplaceColumnList(e: Entity, tags: seq<string>, fp: FloatOps)
    requires UniqueKeys(MysqlEntries(e)) && ToMysql(e, tags, fp).Ok?
    requires forall k :: k in Keys(e.data) ==> ',' !in k
    ensures Split(Join(",", Keys(ToMysql(e, tags, fp).value)), ',') == ["id"] + Keys(e.data)
  {
    var columns := ["id"] + Keys(e.data);
    forall i | 0 <= i < |columns| ensures ',' !in columns[i] {
      if i > 0 {
        assert columns[i] in Keys(e.data);
      }
    }
    SplitJoin(columns, ',');
  }
}
