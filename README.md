# MySQL ⇄ Azure Table backup, modelled in Dafny

This project models the core of `MySqlAzureBackup.py`, a script that keeps an Azure
Table copy of every MySQL table. Run in **backup** mode, it makes Azure match MySQL. Run
in **recovery** mode, it makes MySQL match Azure. For each table it reads both sides into
Python sets of `GeneralizedEntity`, computes two set differences, upserts the first and
deletes the second.

What is modelled:

- **The entity.** `GeneralizedEntity` is a table name, an integer `id` and `data`, a tuple
  of (key, value) pairs sorted by the lower-cased key. Equality and hash look only at
  `(id, data)` (`Entities`).
- **Python dicts.** A dict is modelled as an ordered sequence of items: assigning to an
  existing key keeps its place, a new key goes last (`Dicts`). `str.lower`, `int(str)`
  (with the surrounding whitespace it ignores) and `str(int)` are in `Text`. The scalar values, the `int()`/`str()`/`float()`
  conversions and the exceptions are in `Values`.
- **The four converters** (`Codec`):
  - Azure item → entity, popping `PartitionKey` and `RowKey`.
  - Column/value dict → entity, with its explicit missing-key check.
  - Entity → Azure item.
  - Entity → typed MySQL dict, driven by positional type tags through the closed table
    `int` / `varchar` / `double`.
  The two converters that pop keys out of the caller's dict are also modelled as methods
  on a mutable dict object.
- **The SQL statements.** The text of `REPLACE INTO` and `DELETE`, and their parameters
  (`SqlText`, `Sql`).
- **Reading a table.** The loops that read a whole table into a set, with Python's `set`
  semantics (`Reconcile`).
- **The diff-and-apply of `main`** (`Sync`). Both stores are modelled as tables of
  entities keyed by `id`, each a class whose methods update the stored rows. MySQL
  receives the rows the typed conversion produced, not the entities themselves. The
  backup and recovery loops run over the diff sets in an arbitrary order.

Three behaviours of the code are modelled as written and reported under Findings or
Left out:

- The catalog orders the type tags by column name, while the entity puts `id` first. A
  conversion that then raises stops recovery; one that succeeds changes the values, and
  recovery never settles.
- `zip` silently truncates a row with fewer values than columns.
- A backup run upserts before it deletes, and the Azure delete is addressed by key.

## Model

| member | source | states |
|---|---|---|
| Text.Lower | MySqlAzureBackup.py:56 | `str.lower` keeps the length, turns every ASCII capital into its small letter and keeps every other character |
| Text.LessEqTotal | MySqlAzureBackup.py:56 | the comparison `sorted` uses on lower-cased keys is total (with LessEqTransitive, LessEqAntisymmetric: a total order) |
| Text.LessEqTransitive | MySqlAzureBackup.py:56 | the key comparison is transitive |
| Text.LessEqAntisymmetric | MySqlAzureBackup.py:56 | two keys that compare both ways are the same string |
| Text.IntToStringRoundTrip | MySqlAzureBackup.py:61 | `int(str(n)) == n` for every integer, negative ones included |
| Text.IntToString | MySqlAzureBackup.py:101 | `str(n)`; `int()` inverts it (Text.IntToStringRoundTrip) |
| Text.ParseInt | MySqlAzureBackup.py:61 | `int(s)` on a string: optional sign, decimal digits with single underscores between them, surrounding whitespace ignored, `None` where Python raises; it inverts `str(n)` (Text.IntToStringRoundTrip) |
| Text.NatToStringDigits | MySqlAzureBackup.py:101 | `str(n)` of a natural is a non-empty string of decimal digits whose value is `n` |
| Values.IntOf | MySqlAzureBackup.py:105 | `int(x)`: an int is kept, a string goes through Text.ParseInt, a float is truncated by the supplied float operations; `None` where Python raises |
| Values.StrOf | MySqlAzureBackup.py:105 | `str(x)`: a string is kept, an int goes through Text.IntToString, a float through the supplied formatter |
| Values.FloatOf | MySqlAzureBackup.py:105 | `float(x)`: a float is kept, an int or a string goes through the supplied float operations; `None` where Python raises |
| Dicts.Get | MySqlAzureBackup.py:90 | the lookup finds a value exactly when the key is present, and the item is in the dict |
| Dicts.SetKeys | MySqlAzureBackup.py:102 | assignment keeps an existing key in its place and appends a new key at the end |
| Dicts.SetGet | MySqlAzureBackup.py:102 | after assignment the key reads the new value and every other key reads as before |
| Dicts.SetUnique | MySqlAzureBackup.py:102 | assignment keeps the keys distinct |
| Dicts.FromPairs | MySqlAzureBackup.py:102 | a dict built from pairs has unique keys, and exactly the keys of the pairs |
| Dicts.FromPairsOfUnique | MySqlAzureBackup.py:102 | pairs whose keys are already distinct come back unchanged |
| Dicts.Pop | MySqlAzureBackup.py:84-85 | `pop` succeeds exactly when the key is present; it returns that key's value and a dict without the key in which every other key looks up as before, and with distinct keys the popped item and the rest make up the original items |
| Dicts.RemoveMultiset | MySqlAzureBackup.py:94-95 | removing a present key from a dict takes out exactly that one item |
| Dicts.RemoveGet | MySqlAzureBackup.py:94-95 | removing one key leaves the lookup of every other key unchanged |
| Dicts.Zip | MySqlAzureBackup.py:165 | `zip` is as long as the shorter side and pairs equal positions |
| Entities.SortByLowerKey | MySqlAzureBackup.py:55-56 | the sorted items are in non-decreasing order of lower-cased key and a permutation of the input |
| Entities.SortIsStable | MySqlAzureBackup.py:55-56 | items with the same lower-cased key keep their input order (stability of `sorted`) |
| Entities.SortSortedIsIdentity | MySqlAzureBackup.py:55-56 | sorting an already sorted sequence changes nothing |
| Entities.SortNoCollision | MySqlAzureBackup.py:55-56 | sorting keeps keys pairwise distinct after lower-casing |
| Entities.SortedKeysUnique | MySqlAzureBackup.py:55-56 | two sorted, case-distinct sequences over the same key set list the keys in the same order |
| Entities.SortOrderInvariant | MySqlAzureBackup.py:55-56 | two dicts with the same items in any order sort to the same sequence, provided no two keys are equal case-insensitively |
| Entities.MakeEntity | MySqlAzureBackup.py:59-64 | the constructor succeeds exactly when `int(id)` does (otherwise the conversion error); the entity keeps the table name, stores `int(id)`, and stores data sorted by lower-cased key and a permutation of the input items |
| Entities.MakeEntityOrderInvariant | MySqlAzureBackup.py:59-64 | the same items in another order, under any table name, give the same outcome, and an equal entity with identical data |
| Entities.Equal | MySqlAzureBackup.py:76-78 | `__eq__` compares `id` and `data` only (properties in Entities.EqualIsHashKeyEquality) |
| Entities.HashKey | MySqlAzureBackup.py:74-75 | `__hash__` hashes the tuple `(id, data)` |
| Entities.EqualIsHashKeyEquality | MySqlAzureBackup.py:74-78 | equality is equality of `(id, data)`; equal entities hash alike under any hash function; the table name plays no part |
| Codec.FromAzure | MySqlAzureBackup.py:83-87 | a missing `PartitionKey` raises first, then a missing `RowKey`; it succeeds exactly when both are present and `int(RowKey)` converts; the entity has `tableName = PartitionKey`, `id = int(RowKey)`, and sorted data made of the remaining items |
| Codec.MutableDict.Pop | MySqlAzureBackup.py:84-85 | `pop` returns the value and removes the key from the object, or raises `KeyError` and leaves it as it was |
| Codec.ConvertAzureEntity | MySqlAzureBackup.py:83-87 | the method on the caller's dict returns what `FromAzure` computes and leaves the dict with the popped keys removed |
| Codec.FromDict | MySqlAzureBackup.py:89-96 | a dict without `id` or without `tableName` raises the explicit exception; otherwise it succeeds exactly when `int(id)` converts, and the data are the dict minus both keys, sorted |
| Codec.ConvertDict | MySqlAzureBackup.py:89-96 | the method on the caller's dict returns what `FromDict` computes and leaves the dict with the popped keys removed |
| Codec.ToAzure | MySqlAzureBackup.py:98-103 | the Azure item has unique keys: `PartitionKey`, `RowKey` and the data keys |
| Codec.AzureHeader | MySqlAzureBackup.py:99-101 | the two pairs inserted first: `PartitionKey` with the table name, `RowKey` with `str(id)` |
| Codec.AzureAddressFirst | MySqlAzureBackup.py:98-103 | the item starts with `PartitionKey`, then `RowKey`, whatever the data hold |
| Codec.ToAzureLayout | MySqlAzureBackup.py:98-103 | without data keys named `PartitionKey`/`RowKey`, the item is `PartitionKey = tableName`, `RowKey = str(id)`, then the data pairs in order |
| Codec.BuildAzureItem | MySqlAzureBackup.py:98-103 | the two list inserts followed by the dict comprehension give the item `ToAzure` describes, address first |
| Codec.AzureRoundTrip | MySqlAzureBackup.py:83-87 | writing an entity to Azure and reading it back gives the same entity, table name included, when no data key is `PartitionKey` or `RowKey` |
| Codec.ConversionFor | MySqlAzureBackup.py:105 | the conversion table knows exactly the tags `int`, `varchar` and `double` |
| Codec.Coerce | MySqlAzureBackup.py:105 | an unknown tag raises; `varchar` is `str(x)`; `int` is `int(x)`, `double` is `float(x)`, each raising when the conversion fails |
| Codec.CoerceOwnType | MySqlAzureBackup.py:105 | a value of its column's own type passes through unchanged |
| Codec.MysqlEntries | MySqlAzureBackup.py:107 | the tuple `(("id", id),) + data` that is converted column by column |
| Codec.CoerceEntries | MySqlAzureBackup.py:107-111 | the comprehension succeeds exactly when every entry has a tag, the tag is known and the coercion succeeds; the result has unique keys, those of the entries |
| Codec.CoerceEntriesFirstError | MySqlAzureBackup.py:107-111 | a failure is the exception of the first entry that fails, every earlier entry converting |
| Codec.CoerceEntriesInPlace | MySqlAzureBackup.py:107-111 | with distinct keys, entry `i` of the result is key `i` with tag `i`'s coercion of value `i` |
| Codec.ExtraTagsIgnored | MySqlAzureBackup.py:107-111 | tags beyond the number of entries make no difference |
| Codec.ToMysql | MySqlAzureBackup.py:106-111 | fewer tags than `1 + len(data)` always fails; on success, when the entry keys are distinct, the keys are `id` followed by the data keys, in order |
| Codec.ToMysqlFitting | MySqlAzureBackup.py:106-111 | tags that fit the entity produce exactly `(("id", id),) + data` |
| Codec.RowToEntity | MySqlAzureBackup.py:165-166 | a row converts only when `id` is among its zipped columns |
| Codec.ShortRowTruncates | MySqlAzureBackup.py:165 | a row with fewer values than columns converts exactly as if the columns past its end did not exist |
| Codec.ShortRowDropsColumns | MySqlAzureBackup.py:165 | an instance of Codec.ShortRowTruncates: columns `id`, `name` with the row `3` convert without error to entity 3 with no data |
| Codec.MysqlRoundTrip | MySqlAzureBackup.py:106-111 | with fitting tags, the typed dict is the entity's entries, and a row read back with its columns gives the same entity under the MySQL table name |
| Codec.CatalogTags | MySqlAzureBackup.py:128-136 | one tag per column of the table |
| Codec.CatalogTagsSorted | MySqlAzureBackup.py:128-136 | the tags are the declared types of the columns taken in the order of the lower-cased column names: the types of a sorted permutation of the schema, each tag some column's type |
| Codec.CatalogOrderMisalignsId | MySqlAzureBackup.py:128-136 | for columns `id int`, `email varchar` the catalog order gives `varchar, int`: the tags do not match the entity's columns, and the conversion raises |
| Codec.IdFirstTagsMatchColumns | MySqlAzureBackup.py:107 | tags laid out as the entity lays out its columns (`id` first, the rest by name) give every entry its own column's type |
| Codec.IdFirstTagsFit | MySqlAzureBackup.py:107-109 | with those tags, an entity whose every value already has its column's type converts to its own values |
| Codec.OrdersCatalog | MySqlAzureBackup.py:128-136 | for the columns `id int`, `amount double`, `name varchar` the catalog gives `double, int, varchar` |
| Codec.OrderConversion | MySqlAzureBackup.py:106-111 | under those tags the order `id=7` converts without error to `id = float(7)`, `amount = int(amount)`, `name` unchanged |
| SqlText.Join | MySqlAzureBackup.py:142 | `sep.join(parts)` (properties in SqlText.SplitJoin and SqlText.OccurrencesJoin) |
| SqlText.ReplaceText | MySqlAzureBackup.py:142-145 | the `REPLACE INTO t(c1,...) VALUES(%s,...);` text (properties in SqlText.ReplacePlaceholders) |
| SqlText.WhereTerms | MySqlAzureBackup.py:153 | one term `col=%s` per column, in the columns' order |
| SqlText.DeleteText | MySqlAzureBackup.py:153-156 | the `DELETE FROM t WHERE c1=%s AND ...;` text (properties in SqlText.DeletePlaceholders) |
| SqlText.SplitJoin | MySqlAzureBackup.py:142 | the comma-joined column list splits back into the columns when no name holds a comma |
| SqlText.OccurrencesJoin | MySqlAzureBackup.py:142-144 | joining with a separator free of a character adds no occurrence of it |
| SqlText.ReplacePlaceholders | MySqlAzureBackup.py:142-145 | the `REPLACE INTO` text holds one `%s` per column when the names hold no `%` |
| SqlText.DeletePlaceholders | MySqlAzureBackup.py:153-156 | the `DELETE` text holds exactly one `%` per column (each in its `col=%s` term) when the names hold no `%` |
| Sql.UpsertStatement | MySqlAzureBackup.py:139-147 | the statement exists exactly when the conversion succeeds, and otherwise raises its exception; it has one placeholder per parameter; with distinct keys, under any tags, its text is `REPLACE INTO t(id,k1,...)` naming `id` and then the data keys, and parameter `i` is entry `i`'s coercion by tag `i`, in the same order; with fitting tags the parameters are `id, v1, ...` themselves |
| Sql.DeleteStatement | MySqlAzureBackup.py:150-157 | the same for `DELETE FROM t WHERE id=%s AND k1=%s ...`: one `col=%s` per column, `id` and then the data keys, parameter `i` entry `i`'s coercion, matching every column |
| Sql.TypedColumns | MySqlAzureBackup.py:141-143 | with distinct keys, the typed dict's keys are `id` then the data keys, and its `i`-th value is entry `i`'s coercion by tag `i` |
| Sql.ReplaceColumnList | MySqlAzureBackup.py:141-142 | the column list of the statement names `id` and then the data keys, in order |
| Reconcile.Add | MySqlAzureBackup.py:167 | `set.add` adds the entity's key; the element already there stays; no two elements become equal |
| Reconcile.Difference | MySqlAzureBackup.py:223 | `a.difference(b)` keeps elements of `a` only, and its keys are those of `a` minus those of `b` |
| Reconcile.Diff | MySqlAzureBackup.py:222-241 | upserts = source − target and deletes = target − source, as sets of keys |
| Reconcile.PlanDisjoint | MySqlAzureBackup.py:222-241 | no entity is both upserted and deleted |
| Reconcile.PlanEmptyIff | MySqlAzureBackup.py:222-241 | both sets are empty exactly when the two sides hold the same entities up to equality |
| Reconcile.ChangedRowInBoth | MySqlAzureBackup.py:222-241 | an id with different data on the two sides lands once among the upserts (new version) and once among the deletes (old version) |
| Reconcile.UnchangedRowInNeither | MySqlAzureBackup.py:222-241 | an entity with an equal copy on the other side is neither upserted nor deleted |
| Reconcile.DuplicateRowsCollapse | MySqlAzureBackup.py:74-78 | two rows equal up to the table name collapse to one set element |
| Reconcile.Collect | MySqlAzureBackup.py:160-168 | the loop's result: adding the converted rows one by one, the first conversion error ending it (properties in Reconcile.CollectMeets) |
| Reconcile.CollectMeets | MySqlAzureBackup.py:160-168 | adding the converted rows one by one to an empty set gives the first row's conversion error, or a set with no two equal elements whose keys are exactly those of the converted rows, each element one of them |
| Reconcile.MysqlEntities | MySqlAzureBackup.py:160-168 | the loop returns what adding the converted rows one by one computes, so (by CollectMeets) the first row's conversion error or the set of the converted rows up to equality |
| Reconcile.AzureEntities | MySqlAzureBackup.py:189-195 | the same for the Azure items through `FromAzure`: the first item's error, or the set of the converted items up to equality |
| Sync.AzureTable.Upsert | MySqlAzureBackup.py:179-181 | `upsert_entity(mode=REPLACE)` replaces the whole entity at its address |
| Sync.AzureTable.Delete | MySqlAzureBackup.py:184-186 | `delete_entity` removes whatever is at the address, whatever its data |
| Sync.MysqlTable.Replace | MySqlAzureBackup.py:139-147 | `REPLACE INTO` puts the row given in place of the row with the same primary key |
| Sync.MysqlTable.DeleteMatching | MySqlAzureBackup.py:150-157 | `DELETE ... WHERE` every column matches removes the row only when all its columns match |
| Sync.DeleteRow | MySqlAzureBackup.py:150-157 | no row is added or changed and only the entity's id can go; the row under that id is gone exactly when every column equals the entity's |
| Sync.WrittenRow | MySqlAzureBackup.py:141-146 | the row sent keeps the entity's id and table name, and its data are the converted values without `id` |
| Sync.WrittenOwnValues | MySqlAzureBackup.py:139-141 | with tags that fit the entity, the row written is the entity itself |
| Sync.WrittenIds | MySqlAzureBackup.py:235-241 | the rows written for a set of entities have the entities' ids, one row per id when the entities had one per id |
| Sync.DeleteMatchingAll | MySqlAzureBackup.py:239-241 | after the deletes, a row is gone exactly when one of the deleted entities equals it |
| Sync.UpsertAllAzure | MySqlAzureBackup.py:223-225 | upserting the set in any order leaves the table overwritten by those entities, each under its id |
| Sync.DeleteAllAzure | MySqlAzureBackup.py:227-229 | deleting the set in any order removes exactly the ids of those entities |
| Sync.BackupOutcome | MySqlAzureBackup.py:222-229 | the table a backup run leaves: the upserts written over the target, then the ids of the deletes removed |
| Sync.Backup | MySqlAzureBackup.py:222-229 | one backup run leaves Azure as `BackupOutcome`: upserts, then deletes by address |
| Sync.ReplaceAllMysql | MySqlAzureBackup.py:235-237 | the loop fails exactly when some entity does not convert, with that entity's exception; otherwise the table is overwritten by the converted rows, each under its entity's id |
| Sync.DeleteAllMysql | MySqlAzureBackup.py:239-241 | the loop fails exactly when some entity does not convert; otherwise exactly the rows equal to a deleted entity's converted row are gone |
| Sync.RecoveryOutcome | MySqlAzureBackup.py:232-241 | the table a recovery run leaves: the converted upserts written over the target, then every row equal to a converted delete removed |
| Sync.Recovery | MySqlAzureBackup.py:232-241 | one recovery run fails exactly when some planned entity does not convert; otherwise it leaves MySQL as `RecoveryOutcome` |
| Sync.RecoveryOwnValues | MySqlAzureBackup.py:232-241 | when every entity on both sides converts to its own values, recovery stores the entities as they are |
| Sync.RecoveryConverges | MySqlAzureBackup.py:232-241 | when every entity on both sides converts to its own values (the tags are its values' types, in its own column order), one recovery run leaves MySQL holding exactly the Azure entities, one equal row per id |
| Sync.RecoveryAlternates | MySqlAzureBackup.py:232-241 | an entity whose conversion changes its values, and whose converted row converts to itself, is written by a recovery run from an empty table and deleted by the next run |
| Sync.RecoveryNeverSettles | MySqlAzureBackup.py:232-241 | with the catalog's tags, the order `id=7, amount=x, name='x'` with a non-integral amount `x` (`float(int(x)) != x`) is recovered as `amount=int(x)` and the next run empties the table again, so recovery never settles |
| Sync.BackupLosesChangedRow | MySqlAzureBackup.py:222-229 | after one backup run, an id whose data changed in MySQL is missing from Azure |
| Sync.BackupKeepsOnlySource | MySqlAzureBackup.py:222-229 | every row a backup run leaves in Azure equals the MySQL entity with its id |
| Sync.BackupSecondRunConverges | MySqlAzureBackup.py:222-229 | a second backup run restores the lost rows: Azure then holds exactly the MySQL entities |
| Sync.BackupDeletesFirstConverges | MySqlAzureBackup.py:222-229 | with the deletes issued first, one backup run leaves Azure holding exactly the MySQL entities |
| Sync.BackupDeletesFirst | MySqlAzureBackup.py:222-229 | the method with the two loops swapped, and the single-run convergence it achieves |

## Left out

- Reading the configuration files and opening the MySQL and Azure connections: file I/O and client construction.
- `SHOW TABLES`, `SELECT *`, the `information_schema` query, `execute` and `commit`. The column names, the rows and the catalog's per-column types are parameters.
- The Azure client library. Its table is modelled as a map from `id` to entity. `PartitionKey` (the table name) is not part of the address, so the model assumes one partition per table.
- The interactive `bup`/`rec` prompt and the loop over all tables. Each mode is a method over one table.
- Floating point. A `double` is an opaque 64-bit pattern, and `float()`, `int(float)` and `str(float)` are supplied by the caller.
- Codec.ConversionFor: the tags are strings standing for the byte strings `b'int'`, `b'varchar'`, `b'double'` that key the conversion table and that the connector returns for `DATA_TYPE`. A catalog that yielded `str` tags would make every lookup a `KeyError`, which the model does not show.
- `str.lower` and the whitespace `int(str)` ignores cover ASCII only, and `int(str)` accepts ASCII digits only. Python's Unicode case mapping, whitespace and digits are not modelled.
- Python's cross-type equality (`1 == 1.0`), NaN's self-inequality, `bool` values and SQL `NULL`. Values are compared structurally.
- Sync.RecoveryNeverSettles: requires a non-integral amount. For an integral one (`3.0`) the program settles after one run, because `int(3.0)` stored in a `double` column reads back as `3.0` and `3 == 3.0` in Python; the model, comparing values structurally and storing them as sent, cannot show that.
- Concrete hash values. Only the hash's agreement with equality is stated.
- Which row a MySQL `DELETE` matches under the server's collation and type conversion. The model matches on equal entities.
- Sync.Backup, Sync.Recovery: require the source set to hold one entity per id (MySQL primary key `id`, one Azure partition per table). With two entities of one id the result would depend on set iteration order.
- Sync.ReplaceAllMysql, Sync.DeleteAllMysql, Sync.Recovery: the server stores the converted values as sent, without converting them to the column's declared type. The row is filed under the entity's id, not under the converted `id` value. `DELETE` matches a row whose values equal the converted ones.
- Sync.Backup, Sync.AzureTable.Upsert: an entity is stored under its `id`, not as the item Codec.ToAzure builds. So two behaviours of the real Azure table are not captured. A data column named `PartitionKey` or `RowKey` overwrites the address in the item (Codec.ToAzureLayout excludes this case). Two `RowKey`s that parse to one integer, such as `01` and `1`, are two Azure entities but one id here.
- Sync.ReplaceAllMysql, Sync.DeleteAllMysql, Sync.Recovery: on a failed conversion the run stops; the table left by the statements already executed is not described.
- Codec.CatalogTags: takes MySQL's column-name order as the order of the lower-cased names.
- Codec.RowToEntity: states only that `id` must be among the zipped columns. The exact entity is stated by Codec.MysqlRoundTrip.
- Entities.Entity: `tableName` is any value, because nothing in the source forces it to be a string.

## Findings

| source | as written | input that shows it | evidently intended | confidence | as-written member | corrected member |
|---|---|---|---|---|---|---|
| MySqlAzureBackup.py:128-136 | the type tags come in column-name order, `id` included, while the entity's entries put `id` first | table with columns `id int`, `email varchar`: tags `varchar, int`, so `email` gets `int()` and recovery raises | tag `i` is the type of entry `i`'s own column: `id`'s type first, then the others by name | not executed | Codec.CatalogOrderMisalignsId | Codec.IdFirstTagsMatchColumns |
| MySqlAzureBackup.py:128-136 | the catalog's tags can also convert without error and change values | columns `id int`, `amount double`, `name varchar` give the tags `double, int, varchar`; the Azure entity `id=7, amount=3.5, name='x'` (any non-integral amount) is written as `id=7.0, amount=3`; the next recovery run deletes that row, the one after writes it again | recovery leaves each value as it is | not executed | Sync.RecoveryNeverSettles | Codec.IdFirstTagsFit |
| MySqlAzureBackup.py:222-229 | backup upserts the changed row, then deletes its old version by `PartitionKey`/`RowKey`, the same address | MySQL row `id=1, name=b`, Azure entity `id=1, name=a`: after the run Azure has no entity with id 1 | Azure matches MySQL after one run, as recovery already does | not executed | Sync.BackupLosesChangedRow | Sync.BackupDeletesFirstConverges |
