/** The text side of the two MySQL statements: `str.join`, `[s] * n`, `str.split`, the
    statement texts of MySqlAzureBackup.py lines 142-145 and 153-156, and the count of their
    `%s` placeholders. */
module SqlText {
  /** `sep.join(parts)`. */
  function Join(sep: string, parts: seq<string>): string {
    if parts == [] then ""
    else if |parts| == 1 then parts[0]
    else parts[0] + sep + Join(sep, parts[1..])
  }

  /** `[s] * n`. */
  function Repeat(s: string, n: nat): (r: seq<string>)
    ensures |r| == n && forall i :: 0 <= i < n ==> r[i] == s
  {
    if n == 0 then [] else [s] + Repeat(s, n - 1)
  }

  /** How many times `c` occurs in `s`. */
  function Occurrences(c: char, s: string): nat {
    if s == [] then 0 else (if s[0] == c then 1 else 0) + Occurrences(c, s[1..])
  }

  lemma {:induction false} OccurrencesAppend(c: char, a: string, b: string)
    ensures Occurrences(c, a + b) == Occurrences(c, a) + Occurrences(c, b)
  {
    if a == [] {
      assert a + b == b;
    } else {
      assert (a + b)[1..] == a[1..] + b;
      OccurrencesAppend(c, a[1..], b);
    }
  }

  lemma {:induction false} OccurrencesAbsent(c: char, s: string)
    requires c !in s
    ensures Occurrences(c, s) == 0
  {
    if s != [] {
      OccurrencesAbsent(c, s[1..]);
    }
  }

  /** How many times `c` occurs over all the parts. */
  function CountIn(c: char, parts: seq<string>): nat {
    if parts == [] then 0 else Occurrences(c, parts[0]) + CountIn(c, parts[1..])
  }

  /** Joining with a separator free of `c` adds no occurrence of `c`. */
  lemma {:induction false} OccurrencesJoin(c: char, sep: string, parts: seq<string>)
    requires Occurrences(c, sep) == 0
    ensures Occurrences(c, Join(sep, parts)) == CountIn(c, parts)
  {
    if |parts| > 1 {
      OccurrencesJoin(c, sep, parts[1..]);
      OccurrencesAppend(c, parts[0], sep);
      OccurrencesAppend(c, parts[0] + sep, Join(sep, parts[1..]));
    }
  }

  /** Parts that hold `c` the same number of times each. */
  lemma {:induction false} CountInEach(c: char, parts: seq<string>, m: nat)
    requires forall i :: 0 <= i < |parts| ==> Occurrences(c, parts[i]) == m
    ensures CountIn(c, parts) == m * |parts|
  {
    if parts != [] {
      var tail := parts[1..];
      forall i | 0 <= i < |tail| ensures Occurrences(c, tail[i]) == m {
        assert tail[i] == parts[i + 1];
      }
      CountInEach(c, tail, m);
      var n := |tail|;
      assert m * (n + 1) == m + m * n;
    }
  }

  /** `s.split(c)` for a one-character separator. */
  function Split(s: string, c: char): (r: seq<string>)
    ensures |r| > 0
  {
    if s == [] then [""]
    else
      var rest := Split(s[1..], c);
      if s[0] == c then [""] + rest else [[s[0]] + rest[0]] + rest[1..]
  }

  lemma {:induction false} SplitAfter(p: string, c: char, s: string)
    requires c !in p
    ensures Split(p + [c] + s, c) == [p] + Split(s, c)
    ensures Split(p, c) == [p]
  {
    if p != [] {
      SplitAfter(p[1..], c, s);
      assert (p + [c] + s)[1..] == p[1..] + [c] + s;
      assert [p[0]] + p[1..] == p;
    }
  }

  /** Splitting the column list on commas gives back the columns, so the statement names
      exactly the dict's columns, in order. */
  lemma {:induction false} SplitJoin(columns: seq<string>, c: char)
    requires |columns| > 0
    requires forall i :: 0 <= i < |columns| ==> c !in columns[i]
    ensures Split(Join([c], columns), c) == columns
  {
    SplitAfter(columns[0], c, []);
    if |columns| > 1 {
      SplitJoin(columns[1..], c);
      SplitAfter(columns[0], c, Join([c], columns[1..]));
      assert columns == [columns[0]] + columns[1..];
    }
  }

  // ---------------------------------------------------------------------------
  // The statements

  /** The text of `upsert_entity_into_mysql_table`. */
  function ReplaceText(tableName: string, columns: seq<string>): string {
    "REPLACE INTO " + tableName + "(" + Join(",", columns) + ") VALUES("
      + Join(",", Repeat("%s", |columns|)) + ");"
  }

  /** `[f"{column}=%s" for column in columns]`. */
  function WhereTerms(columns: seq<string>): (terms: seq<string>)
    ensures |terms| == |columns|
    ensures forall i :: 0 <= i < |columns| ==> terms[i] == columns[i] + "=%s"
  {
    seq(|columns|, i requires 0 <= i < |columns| => columns[i] + "=%s")
  }

  /** The text of `delete_entity_from_mysql_table`. */
  function DeleteText(tableName: string, columns: seq<string>): string {
    "DELETE FROM " + tableName + " WHERE " + Join(" AND ", WhereTerms(columns)) + ";"
  }

  // The fixed pieces of the two texts hold no `%`; one lemma per piece keeps each
  // literal's check apart from the others.

  lemma ShortPiecesCount()
    ensures Occurrences('%', ",") == 0 && Occurrences('%', "(") == 0
    ensures Occurrences('%', ");") == 0 && Occurrences('%', ";") == 0
    ensures Occurrences('%', "%s") == 1 && Occurrences('%', "=%s") == 1
  {
  }

  lemma ReplaceIntoFree()
    ensures Occurrences('%', "REPLACE INTO ") == 0
  {
    OccurrencesAbsent('%', "REPLACE INTO ");
  }

  lemma ValuesFree()
    ensures Occurrences('%', ") VALUES(") == 0
  {
    OccurrencesAbsent('%', ") VALUES(");
  }

  lemma DeleteFromFree()
    ensures Occurrences('%', "DELETE FROM ") == 0
  {
    OccurrencesAbsent('%', "DELETE FROM ");
  }

  lemma WhereFree()
    ensures Occurrences('%', " WHERE ") == 0
  {
    OccurrencesAbsent('%', " WHERE ");
  }

  lemma AndFree()
    ensures Occurrences('%', " AND ") == 0
  {
    OccurrencesAbsent('%', " AND ");
  }

  /** The column list of `REPLACE INTO` holds no `%` when the names hold none. */
  lemma ColumnListFree(columns: seq<string>)
    requires forall i :: 0 <= i < |columns| ==> Occurrences('%', columns[i]) == 0
    ensures Occurrences('%', Join(",", columns)) == 0
  {
    ShortPiecesCount();
    OccurrencesJoin('%', ",", columns);
    CountInEach('%', columns, 0);
  }

  /** The value list of `REPLACE INTO` holds one `%` per column. */
  lemma ValueListCount(n: nat)
    ensures Occurrences('%', Join(",", Repeat("%s", n))) == n
  {
    ShortPiecesCount();
    OccurrencesJoin('%', ",", Repeat("%s", n));
    CountInEach('%', Repeat("%s", n), 1);
  }

  /** `REPLACE INTO` has as many placeholders as there are parameters. */
  lemma ReplacePlaceholders(tableName: string, columns: seq<string>)
    requires Occurrences('%', tableName) == 0
    requires forall i :: 0 <= i < |columns| ==> Occurrences('%', columns[i]) == 0
    ensures Occurrences('%', ReplaceText(tableName, columns)) == |columns|
  {
    ReplaceIntoFree();
    ValuesFree();
    ShortPiecesCount();
    ColumnListFree(columns);
    ValueListCount(|columns|);
    var names, values := Join(",", columns), Join(",", Repeat("%s", |columns|));
    OccurrencesAppend('%', "REPLACE INTO ", tableName);
    OccurrencesAppend('%', "REPLACE INTO " + tableName, "(");
    OccurrencesAppend('%', "REPLACE INTO " + tableName + "(", names);
    OccurrencesAppend('%', "REPLACE INTO " + tableName + "(" + names, ") VALUES(");
    OccurrencesAppend('%', "REPLACE INTO " + tableName + "(" + names + ") VALUES(", values);
    OccurrencesAppend('%', "REPLACE INTO " + tableName + "(" + names + ") VALUES(" + values, ");");
  }

  /** The `WHERE` list holds one `%` per column, in its `col=%s` term. */
  lemma WhereListCount(columns: seq<string>)
    requires forall i :: 0 <= i < |columns| ==> Occurrences('%', columns[i]) == 0
    ensures Occurrences('%', Join(" AND ", WhereTerms(columns))) == |columns|
  {
    AndFree();
    ShortPiecesCount();
    var terms := WhereTerms(columns);
    forall i | 0 <= i < |terms| ensures Occurrences('%', terms[i]) == 1 {
      OccurrencesAppend('%', columns[i], "=%s");
    }
    OccurrencesJoin('%', " AND ", terms);
    CountInEach('%', terms, 1);
  }

  /** `DELETE` has as many placeholders as there are parameters. */
  lemma DeletePlaceholders(tableName: string, columns: seq<string>)
    requires Occurrences('%', tableName) == 0
    requires forall i :: 0 <= i < |columns| ==> Occurrences('%', columns[i]) == 0
    ensures Occurrences('%', DeleteText(tableName, columns)) == |columns|
  {
    DeleteFromFree();
    WhereFree();
    ShortPiecesCount();
    WhereListCount(columns);
    var where := Join(" AND ", WhereTerms(columns));
    OccurrencesAppend('%', "DELETE FROM ", tableName);
    OccurrencesAppend('%', "DELETE FROM " + tableName, " WHERE ");
    OccurrencesAppend('%', "DELETE FROM " + tableName + " WHERE ", where);
    OccurrencesAppend('%', "DELETE FROM " + tableName + " WHERE " + where, ";");
  }
}
