# SinORM in Dafny

A model of SinORM's `sinorm.py`, a small object-relational mapping helper. It turns dicts into SQL text for SQLite or MySQL and turns fetched rows back into dicts.

The model has five modules:

- `Values` (`values.dfy`): a Python 2 scalar (`str`, `int`, `long`, `float`, `None`), its truthiness and its `str()`.
- `Text` (`text.dfy`): `join`, `find` and `lower`. It also has two readers that undo what the renderer writes: one reads a single-quoted SQLite string literal, the other reads a list of back-quoted names.
- `Dicts` (`dicts.dfy`): a Python dict as a sequence of entries with distinct keys, and the mapping it stands for (`ToMap`). It covers `dict(zip(names, row))`, and has `PyDict`, a class for the dicts the ORM edits in place for its caller.
- `Render` (`render.dfy`): every piece of SQL text the ORM writes. This covers `__literal__`, `__typemap__`, `__createconditions__` and the statement each CRUD call builds.
- `Orm` (`orm.dfy`): the module globals `db`, `cur`, `__dbtype__` and `autocommit`, held as the fields of class `Session`. It has `set_db`, `__checkdb__`, `exe_sql` and the CRUD calls as methods. `cur.execute` is replaced by appending `(sql, commit)` to the field `log`. Each CRUD method is specified by the exact statement it appends. What the driver answers is passed in as a `Reply`: the truth value of `execute`'s result, the names in `cur.description` and the rows of `cur.fetchall()`.

The code has no PostgreSQL backend, no retry, no ping and no `group` argument, so none is modelled.

## Model

| member | source | states |
|---|---|---|
| `Render.TypeMap` | sinorm.py:36-48 | a non-empty string is the column type verbatim and `''` gives `text`; a float, int or long gives `float`, `int` or `bigint`, with ` not null` appended exactly when the example is non-zero; `None` gives Python `None` |
| `Render.TypeMapNotNull` | sinorm.py:29-48 | through `__ifornot__`, a numeric column is declared `not null` if and only if its example value is non-zero |
| `Render.Literal` | sinorm.py:50-55 | for SQLite the literal is `str(v)` between single quotes with nothing escaped, and for MySQL it is exactly what the driver's `literal` returns; `Render.SqliteLiteralRoundTrip` gives what the SQLite form means |
| `Render.SqliteLiteralRoundTrip` | sinorm.py:52-53 | an SQLite literal reads back as `str(v)` if and only if `str(v)` holds no quote, because nothing is escaped |
| `Render.SqliteNumberLiteralRoundTrip` | sinorm.py:52-53 | ints, longs and `None` always read back from their SQLite literal |
| `Render.SqliteLiteralBreaksOnQuote` | sinorm.py:52-53 | `O'Brien` is rendered as `'O'Brien'`, which does not read back as one string literal |
| `Render.WhereClause` | sinorm.py:57-64 | the corrected clause: empty if and only if the conditions are empty; otherwise it starts with ` where `; a raw string follows it unchanged; a dict gives its pairs joined by ` condtype ` |
| `Render.WhereClauseAsWritten` | sinorm.py:57-64 | the clause as the source writes it, which the statements use: its text is `{}` exactly for an empty dict, and empty exactly for `''` |
| `Render.WhereClauseEmptyDictFinding` | sinorm.py:59-64 | the source and the corrected clause differ only on the empty dict, where the source gives `{}` |
| `Render.WhereClauseSnoc` | sinorm.py:60-61 | one more condition entry appends the combinator and that entry's `` `k`=literal `` pair, so the clause is the entries' pairs joined in dict order |
| `Render.ColumnsReadBack` | sinorm.py:123-124 | a list of columns renders to back-quoted names joined by `,`, and the names read back from that text in order |
| `Render.Clause` | sinorm.py:126-131 | the keyword is added if and only if the value is truthy; a falsy value is written as `str(v)` alone, so `''` adds nothing while `0` adds `0` and `None` adds `None` |
| `Render.SelectDefaults` | sinorm.py:121-132 | with every default argument the statement is `` select * from `t` `` |
| `Render.KeyConditionWhere` | sinorm.py:159-160 | the key condition, passed through `__createconditions__`, gives `` where `key`=literal(keyid) `` |
| `Render.EffectiveKey` | sinorm.py:154-157 | an explicit truthy `keyid` wins; otherwise the dict's own key value is used, if the dict has one |
| `Render.EmptyDictStatements` | sinorm.py:121-132 | with an empty conditions dict, `get_objects` issues `` select * from `t` {} `` and `del_objects` issues `` delete from `t`{} `` |
| `Render.SetListOmitsKey` | sinorm.py:158-160 | the SET list built after the delete never names the key column and has every other entry |
| `Render.InsertColumnsReadBack` | sinorm.py:185-189 | the column list of the insert reads back as the object's keys, in order |
| `Render.TemplateWithKey` | sinorm.py:198-202 | afterwards the template has the key, and an existing key is left alone |
| `Render.TemplateKeyDeclared` | sinorm.py:198-204 | a template without the key gets the backend's key declaration as its last `` `k` type `` column, and the other columns stay as they were |
| `Text.Find` | sinorm.py:78-83 | `s.find(t)` is the least index where `t` occurs, or -1 if and only if `t` does not occur |
| `Orm.DetectDbType` | sinorm.py:77-89 | the backend is SQLite if and only if the lower-cased type name contains `sqlite`; it is MySQL if and only if the name contains `mysql` and not `sqlite`; otherwise there is none |
| `Orm.DetectIgnoresCase` | sinorm.py:77 | detection gives the same result for a type name and its lower-cased form, because lower-casing twice is lower-casing once |
| `Orm.Session.constructor` | sinorm.py:15-22 | at import time there is no connection and no cursor, the backend is SQLite and autocommit is on |
| `Orm.Session.SetDb` | sinorm.py:74-91 | a known backend binds `db`, records the backend and opens a new cursor; an unknown one raises `Unknown database type:<name>` and leaves `db`, `cur` and the backend unchanged |
| `Orm.Session.CheckDb` | sinorm.py:66-72 | raises without a connection; keeps an existing cursor, and opens one only when there is none |
| `Orm.Session.ExeSql` | sinorm.py:97-105 | without a connection it raises and issues nothing; otherwise exactly `(sql, commit)` is issued and the driver's answer is returned |
| `Orm.Fetched` | sinorm.py:107-119 | one object per fetched row when `execute` answered truthily, none otherwise |
| `Orm.Session.GetObjectsBySql` | sinorm.py:107-119 | issues `sql` without commit and returns, in fetch order, `dict(zip(names, row))` for every row |
| `Dicts.RowDictSpec` | sinorm.py:115 | in `dict(zip(names, row))`, each column name within the shorter length maps to the value of its last column of that name |
| `Dicts.RowDictKeys` | sinorm.py:115 | a row's dict has exactly the column names that are paired with a value |
| `Dicts.RowDictDistinct` | sinorm.py:115 | with distinct names of the row's width, the dict is the zipped pairs in order |
| `Dicts.FromPairsLastWins` | sinorm.py:115 | in `dict(pairs)` a key gets the value of its last pair |
| `Dicts.RowsToDicts` | sinorm.py:112-116 | there is one object per row |
| `Orm.RowsToObjects` | sinorm.py:112-116 | the loop appends `dict(zip(names, row))` for each fetched row, giving exactly `RowsToDicts` |
| `Orm.Session.GetObjects` | sinorm.py:121-133 | issues the SELECT built from columns, table, the as-written WHERE clause, ORDER BY, LIMIT and OFFSET, in that order, and returns the fetched objects; the defaults are those of the source |
| `Orm.Session.GetObject` | sinorm.py:135-142 | issues `` select * from `t` where key=literal `` and returns the first object, or `None` when nothing is fetched |
| `Orm.Session.SetObjects` | sinorm.py:144-149 | issues `` update `t` set `` followed by the pairs and the as-written WHERE clause, committing when autocommit is on |
| `Orm.Session.SetObject` | sinorm.py:151-163 | issues the update of every non-key entry where the key equals the effective key value; afterwards the dict is its old mapping if the old key value was truthy and the statement was issued, and otherwise the old mapping without the key |
| `Orm.Session.DelObjects` | sinorm.py:165-169 | issues `` delete from `t` `` followed by the as-written WHERE clause |
| `Orm.Session.DelObject` | sinorm.py:171-183 | issues the delete where the key equals the effective key value, with the same removal and restoring of the key as `set_object` |
| `Orm.Session.AddObject` | sinorm.py:185-190 | issues `` insert into `t`(keys) values(literals) `` |
| `Orm.Session.CreateTable` | sinorm.py:192-206 | with `new`, `drop table if exists` is issued first; the template gains the backend's key declaration if it lacks the key; then `create table if not exists` is issued with every column and `primary key (key)` |
| `Orm.Session.DeclareAndCreate` | sinorm.py:198-206 | the template becomes `TemplateWithKey` for the backend in use, and the CREATE statement built from it is issued with the autocommit flag |
| `Orm.Session.ResetTable` | sinorm.py:208-211 | issues `` truncate table `t` `` |
| `Orm.Session.DropTable` | sinorm.py:213-216 | issues `` drop table `t` ``, without `if exists` |
| `Orm.OwnKeyValue` | sinorm.py:153-155 | the remembered key value is the dict's own value, or `None` when the key is absent |
| `Orm.ExtractKey` | sinorm.py:153-158 | picks the key value to select by, remembers the dict's own value, and deletes the key from the dict |
| `Orm.RestoreKey` | sinorm.py:161-162 | puts the remembered key value back only if it is truthy, which restores the old mapping |
| `Orm.AddKeyDeclaration` | sinorm.py:198-202 | the template ends up as `TemplateWithKey` of its old value |
| `Dicts.PyDict.Delete` | sinorm.py:158 | `del d[k]` removes exactly the key from the mapping |
| `Dicts.PyDict.Store` | sinorm.py:162 | `d[k] = v` is a map update |
| `Dicts.RemoveThenPutRestores` | sinorm.py:158-162 | deleting a key and storing its old value again gives back the same mapping |
| `Dicts.PutKeepsDistinct` | sinorm.py:162 | storing keeps the keys distinct, and a new key goes at the end |
| `Dicts.RemoveKeepsDistinct` | sinorm.py:158 | deleting keeps the keys distinct and removes the key |
| `Dicts.PutShape` | sinorm.py:162 | storing an existing key keeps the length, and storing a new key appends one entry |
| `Dicts.Lookup` | sinorm.py:154-155 | `obj[k]` is found exactly when `obj.has_key(k)`, and it is the value of an entry for `k` |
| `Dicts.LookupPut` | sinorm.py:162 | after `obj[k] = v`, `k` reads `v` and every other key reads as before |
| `Dicts.LookupRemove` | sinorm.py:158 | after `del obj[k]`, `k` is absent and every other key reads as before |
| `Dicts.ToMapPut` | sinorm.py:162 | as a mapping, storing is a map update |
| `Dicts.ToMapRemove` | sinorm.py:158 | as a mapping, deleting removes exactly that key |
| `Dicts.Keys` | sinorm.py:187 | `obj.keys()` has one key per entry, and a string is among them if and only if `obj.has_key` it |
| `Dicts.ValuesOf` | sinorm.py:188 | `obj.values()` corresponds to `obj.keys()`: the value at each position is what the key at that position looks up |
| `Dicts.FromPairsKeys` | sinorm.py:115 | `dict(pairs)` has exactly the keys of the pairs |
| `Dicts.FromPairsDistinct` | sinorm.py:115 | `dict(pairs)` never holds a key twice |
| `Dicts.FromDistinctPairs` | sinorm.py:115 | pairs with distinct keys make a dict of exactly those entries, in order |
| `Text.Join` | sinorm.py:61 | joining one part gives that part, and the result is never shorter than the first part |
| `Text.JoinSnoc` | sinorm.py:61 | joining one more part appends the separator and that part |
| `Text.Lower` | sinorm.py:77 | `lower()` keeps the length, leaves no capital letter, turns each capital into its small letter and changes nothing else |
| `Text.UnquoteRoundTrip` | sinorm.py:53 | a text in single quotes reads back as itself if and only if it has no quote |
| `Text.QuotedListRoundTrip` | sinorm.py:124 | a list of back-quoted names joined by `,` reads back as the same names |
| `Values.Digits` | sinorm.py:53 | the digits of a natural number have no leading zero and read back as that number |
| `Values.Decimal` | sinorm.py:53 | `str()` of an integer is a minus sign exactly when it is negative, followed by digits without a leading zero whose value is the magnitude |

## Findings

| source | as written | input that shows it | evidently intended | confidence | as-written member | corrected member |
|---|---|---|---|---|---|---|
| sinorm.py:57-64 | an empty dict is falsy, so `__createconditions__` returns the dict itself, and the statement's `%s` formatting then writes `{}` into the SQL | `get_objects('t', conditions={})` issues `` select * from `t` {} ``; `del_objects('t', {})` issues `` delete from `t`{} `` | no conditions add nothing to the statement | high (not executed) | `Render.WhereClauseAsWritten` | `Render.WhereClause` |

The statements the session issues are built with `WhereClauseAsWritten`, as the source builds them, and `Render.EmptyDictStatements` shows the `{}` they then carry. `Render.WhereClause` is the corrected clause, and `Render.WhereClauseEmptyDictFinding` proves that the two differ only on the empty dict.

## Left out

- Driver calls: `db.cursor()`, `cur.execute`, `cur.description`, `cur.fetchall` and `db.commit()` are foreign I/O. A cursor is a value with a serial number. Executing a statement appends it, with its commit flag, to `log`. The driver's answer is the `Reply` parameter.
- Driver exceptions: the model does not cover `execute` raising. Every issued statement succeeds, so the path where `set_object` or `del_object` skips putting the key back after a driver error is covered only for the "no connection" error.
- The MySQL literal: `db.literal(v)` belongs to the MySQLdb driver and its escaping rules are not visible. It is the connection's `driverLiteral` function, and nothing is proved about it.
- `db_commit` on its own is not modelled. The commits that `exe_sql` makes are recorded as the commit flag in `log`.
- `mode_debug` and the `print` output: console I/O.
- `__test__` and the `__main__` block: they need live databases.
- Floats: only whether the value is zero and the text `str()` prints for it are kept. Float formatting is not modelled.
- Python `bool`, `unicode` and values of other types are not modelled: not their literal, not their truthiness and not their column type. `Null` is Python's `None` only.
- `conditions` and `columns` of other Python types, such as `None` or numbers, are not modelled. Only a dict or a string is modelled for `conditions`, and only a list or a string for `columns`.
- Python 2 dict order: a dict is one fixed order of its entries. A new key goes at the end, and storing an existing key keeps its place. So after `set_object` or `del_object` the key that was put back is last. The mapping is restored, not necessarily the iteration order.
- `str(type(sdb))`: it is the connection's `typeName` field, given as input.
- `Render.SelectDefaults`: proved only for the all-defaults statement. The general statement is the `SelectSql` that `Orm.Session.GetObjects` is specified by.
