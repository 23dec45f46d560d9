/** The ORM's session: the module globals `db`, `cur`, `__dbtype__` and
    `autocommit`, and the calls that read and change them.  The cursor's
    `execute` is replaced by appending the statement to `log`; what the
    driver answers is passed in as a `Reply`. */
module Orm {
  import opened Values
  import opened Text
  import opened Dicts
  import opened Render

  /** `__TYPE_SQLITE__` (0) and `__TYPE_MYSQL__` (1). */
  datatype DbType = SQLiteType | MySQLType

  /** A driver connection, as far as the ORM looks at it: the text of
      `str(type(conn))` and the connection's own `literal` method. */
  datatype Connection = Connection(typeName: string, driverLiteral: Value -> string)

  /** The result of `db.cursor()`; `serial` tells cursors apart. */
  datatype Cursor = Cursor(conn: Connection, serial: nat)

  /** The ORM's `Error` exception and its message. */
  datatype Error = Error(message: string)

  datatype Result<T> = Ok(value: T) | Err(error: Error)

  /** What the driver answers to one statement: whether the value
      `cur.execute(sql)` returned is truthy, the column names in
      `cur.description`, and the rows of `cur.fetchall()`. */
  datatype Reply = Reply(truthy: bool, names: seq<string>, rows: seq<seq<Value>>)

  /** One statement given to the cursor, and whether a commit followed it. */
  datatype Exec = Exec(sql: string, commit: bool)

  const NOT_CONNECTED: string :=
    "The database connection is None. Please open a connection from SinORM before you user the modle"

  const UNKNOWN_DB_TYPE: string := "Unknown database type:"

  /** The backend `set_db` picks from the lower-cased type name: SQLite if
      it mentions `sqlite`, otherwise MySQL if it mentions `mysql`. */
  function DetectDbType(typeName: string): (r: Option<DbType>)
    ensures r == Some(SQLiteType) <==> exists j :: OccursAt(Lower(typeName), "sqlite", j)
    ensures r == Some(MySQLType) <==>
      (!exists j :: OccursAt(Lower(typeName), "sqlite", j)) && exists j :: OccursAt(Lower(typeName), "mysql", j)
    ensures r == None <==>
      (!exists j :: OccursAt(Lower(typeName), "sqlite", j)) && !exists j :: OccursAt(Lower(typeName), "mysql", j)
  {
    var name := Lower(typeName);
    if Find(name, "sqlite") >= 0 then Some(SQLiteType)
    else if Find(name, "mysql") >= 0 then Some(MySQLType)
    else None
  }

  /** The detection ignores the case of the type name. */
  lemma DetectIgnoresCase(typeName: string)
    ensures DetectDbType(Lower(typeName)) == DetectDbType(typeName)
  {
    LowerIdempotent(typeName);
  }

  /** The objects `get_objects_by_sql` returns for a reply: one per fetched
      row when `execute` answered truthily, none otherwise. */
  function Fetched(reply: Reply): (r: seq<Dict>)
    ensures |r| == if reply.truthy then |reply.rows| else 0
  {
    if reply.truthy then RowsToDicts(reply.names, reply.rows) else []
  }

  /** The module-level state of the ORM. */
  class Session {
    var db: Option<Connection>
    var cur: Option<Cursor>
    var dbtype: DbType
    var autocommit: bool
    /** Every statement executed so far, oldest first. */
    var log: seq<Exec>
    /** How many cursors have been opened. */
    var cursorsOpened: nat

    /** The backend matches the bound connection, and a cursor exists
        only once a connection is bound. */
    ghost predicate Valid()
      reads this
    {
      && (db.Some? ==> DetectDbType(db.value.typeName) == Some(dbtype))
      && (dbtype == MySQLType ==> db.Some?)
      && (cur.Some? ==> db.Some? && cur.value.conn == db.value && cur.value.serial < cursorsOpened)
    }

    /** The dialect `__literal__` and `create_table` switch on. */
    function CurrentDialect(): Dialect
      reads this
      requires Valid()
    {
      match dbtype
      case SQLiteType => SQLite
      case MySQLType => MySQL(db.value.driverLiteral)
    }

    /** The state at import time: no connection, no cursor, SQLite, and
        commits after every change. */
    constructor ()
      ensures Valid()
      ensures db.None? && cur.None? && dbtype == SQLiteType && autocommit
      ensures log == [] && cursorsOpened == 0
    {
      db, cur, dbtype, autocommit := None, None, SQLiteType, true;
      log, cursorsOpened := [], 0;
    }

    /** The cursor is the old one if there was one; otherwise, once a
        connection is bound, a new one from it. */
    twostate predicate CursorReady()
      reads this
    {
      && (old(cur).Some? ==> cur == old(cur) && cursorsOpened == old(cursorsOpened))
      && (old(cur).None? && db.Some? ==> cur == Some(Cursor(db.value, old(cursorsOpened))) && cursorsOpened == old(cursorsOpened) + 1)
      && (db.None? ==> cur == old(cur) && cursorsOpened == old(cursorsOpened))
    }

    /** The effect of `exe_sql(sql, commit)`: nothing but a raised error
        without a connection, otherwise the statement is executed. */
    twostate predicate Issued(sqls: seq<Exec>)
      reads this
    {
      && db == old(db) && dbtype == old(dbtype) && autocommit == old(autocommit)
      && CursorReady()
      && log == if db.None? then old(log) else old(log) + sqls
    }

    function Answer<T>(value: T): Result<T>
      reads this
    {
      if db.None? then Err(Error(NOT_CONNECTED)) else Ok(value)
    }

    /** `set_db(sdb)`: binds the connection and opens a cursor when its type
        name names a known backend; otherwise raises and changes nothing. */
    method SetDb(sdb: Connection) returns (r: Result<()>)
      requires Valid()
      modifies this
      ensures Valid()
      ensures log == old(log) && autocommit == old(autocommit)
      ensures DetectDbType(sdb.typeName).None? ==>
        && r == Err(Error(UNKNOWN_DB_TYPE + Lower(sdb.typeName)))
        && db == old(db) && cur == old(cur) && dbtype == old(dbtype) && cursorsOpened == old(cursorsOpened)
      ensures DetectDbType(sdb.typeName).Some? ==>
        && r == Ok(())
        && dbtype == DetectDbType(sdb.typeName).value
        && db == Some(sdb) && cur == Some(Cursor(sdb, old(cursorsOpened))) && cursorsOpened == old(cursorsOpened) + 1
    {
      var name := Lower(sdb.typeName);
      if Find(name, "sqlite") >= 0 {
        dbtype := SQLiteType;
      } else if Find(name, "mysql") >= 0 {
        dbtype := MySQLType;
      } else {
        return Err(Error(UNKNOWN_DB_TYPE + name));
      }
      db := Some(sdb);
      cur := Some(Cursor(sdb, cursorsOpened));
      cursorsOpened := cursorsOpened + 1;
      r := Ok(());
    }

    /** `__checkdb__()`: raises without a connection; opens a cursor only
        when there is none. */
    method CheckDb() returns (r: Result<()>)
      requires Valid()
      modifies this
      ensures Valid()
      ensures Issued([])
      ensures r == Answer(())
      ensures r.Ok? ==> cur.Some?
    {
      if db.None? {
        return Err(Error(NOT_CONNECTED));
      }
      if cur.None? {
        cur := Some(Cursor(db.value, cursorsOpened));
        cursorsOpened := cursorsOpened + 1;
      }
      r := Ok(());
    }

    /** `exe_sql(sql, commit)`: the statement goes to the cursor and is
        committed when asked; the driver's answer is returned. */
    method ExeSql(sql: string, commit: bool := false, reply: Reply) returns (r: Result<Reply>)
      requires Valid()
      modifies this
      ensures Valid()
      ensures Issued([Exec(sql, commit)])
      ensures r == Answer(reply)
    {
      var ready := CheckDb();
      if ready.Err? {
        return Err(ready.error);
      }
      log := log + [Exec(sql, commit)];
      r := Ok(reply);
    }

    /** `get_objects_by_sql(sql)`: one dict per fetched row, in fetch order,
        each zipping the description's names with the row's values. */
    method GetObjectsBySql(sql: string, reply: Reply) returns (r: Result<seq<Dict>>)
      requires Valid()
      modifies this
      ensures Valid()
      ensures Issued([Exec(sql, false)])
      ensures r == Answer(Fetched(reply))
    {
      var count := ExeSql(sql, false, reply);
      if count.Err? {
        return Err(count.error);
      }
      var res: seq<Dict> := [];
      if count.value.truthy {
        res := RowsToObjects(reply.names, reply.rows);
      }
      r := Ok(res);
    }

    /** `get_objects(...)`: the SELECT built from the arguments, its rows
        as dicts. */
    method GetObjects(table: string, columns: Columns := ColumnText("*"), conditions: Conditions := TextCond(""),
                      condType: string := "and", limit: Value := Str(""), order: Value := Str(""),
                      offset: Value := Str(""), reply: Reply)
      returns (r: Result<seq<Dict>>)
      requires Valid()
      modifies this
      ensures Valid()
      ensures Issued([Exec(SelectSql(CurrentDialect(), table, columns, conditions, condType, limit, order, offset), false)])
      ensures r == Answer(Fetched(reply))
    {
      var sql := SelectSql(CurrentDialect(), table, columns, conditions, condType, limit, order, offset);
      r := GetObjectsBySql(sql, reply);
    }

    /** `get_object(table, keyid, keyidname)`: the first row whose key
        column equals `keyId`, or `None`. */
    method GetObject(table: string, keyId: Value, keyName: string := "id", reply: Reply)
      returns (r: Result<Option<Dict>>)
      requires Valid()
      modifies this
      ensures Valid()
      ensures Issued([Exec(SelectByKeySql(CurrentDialect(), table, keyId, keyName), false)])
      ensures r == Answer(if Fetched(reply) != [] then Some(Fetched(reply)[0]) else None)
    {
      var sql := SelectByKeySql(CurrentDialect(), table, keyId, keyName);
      var objs := GetObjectsBySql(sql, reply);
      if objs.Err? {
        return Err(objs.error);
      }
      if objs.value != [] {
        r := Ok(Some(objs.value[0]));
      } else {
        r := Ok(None);
      }
    }

    /** `set_objects(table, obj, conditions, condtype)`. */
    method SetObjects(table: string, obj: Dict, conditions: Conditions := TextCond(""), condType: string := "and",
                      reply: Reply)
      returns (r: Result<Reply>)
      requires Valid()
      modifies this
      ensures Valid()
      ensures Issued([Exec(UpdateSql(CurrentDialect(), table, obj, conditions, condType), old(autocommit))])
      ensures r == Answer(reply)
    {
      var sql := UpdateSql(CurrentDialect(), table, obj, conditions, condType);
      r := ExeSql(sql, autocommit, reply);
    }

    /** `set_object(table, obj, keyid, keyidname)`: updates the row the key
        selects with every other entry of `obj`.  The key is taken out of
        `obj` for the statement and put back only when its value was
        truthy and the statement was issued. */
    method SetObject(table: string, obj: PyDict, keyId: Value := Int(0), keyName: string := "id", reply: Reply)
      returns (r: Result<Reply>)
      requires Valid() && obj.Valid()
      modifies this, obj
      ensures Valid() && obj.Valid()
      ensures var own := Lookup(old(obj.items), keyName);
        var rest := Remove(old(obj.items), keyName);
        var key := KeyCondition(CurrentDialect(), keyName, EffectiveKey(keyId, own));
        && Issued([Exec(UpdateSql(CurrentDialect(), table, rest, TextCond(key), "and"), old(autocommit))])
        && r == Answer(reply)
        && obj.items == (if r.Ok? && own.Some? && Truthy(own.value) then Put(rest, keyName, own.value) else rest)
      ensures ToMap(obj.items) ==
        if r.Ok? && Truthy(OwnKeyValue(old(obj.items), keyName)) then ToMap(old(obj.items))
        else ToMap(old(obj.items)) - {keyName}
    {
      ghost var before := obj.items;
      ToMapRemove(before, keyName);
      var key, objKeyId := ExtractKey(obj, keyId, keyName);
      var conditions := KeyCondition(CurrentDialect(), keyName, key);
      r := SetObjects(table, obj.items, TextCond(conditions), "and", reply);
      if r.Err? {
        return;
      }
      RestoreKey(obj, keyName, objKeyId, before);
    }

    /** `del_objects(table, conditions, condtype)`. */
    method DelObjects(table: string, conditions: Conditions := TextCond(""), condType: string := "and", reply: Reply)
      returns (r: Result<Reply>)
      requires Valid()
      modifies this
      ensures Valid()
      ensures Issued([Exec(DeleteSql(CurrentDialect(), table, conditions, condType), old(autocommit))])
      ensures r == Answer(reply)
    {
      var sql := DeleteSql(CurrentDialect(), table, conditions, condType);
      r := ExeSql(sql, autocommit, reply);
    }

    /** `del_object(table, obj, keyid, keyidname)`: deletes the row the key
        selects, with the same take-out and put-back of the key as
        `set_object`. */
    method DelObject(table: string, obj: PyDict, keyId: Value := Int(0), keyName: string := "id", reply: Reply)
      returns (r: Result<Reply>)
      requires Valid() && obj.Valid()
      modifies this, obj
      ensures Valid() && obj.Valid()
      ensures var own := Lookup(old(obj.items), keyName);
        var rest := Remove(old(obj.items), keyName);
        var key := KeyCondition(CurrentDialect(), keyName, EffectiveKey(keyId, own));
        && Issued([Exec(DeleteSql(CurrentDialect(), table, TextCond(key), "and"), old(autocommit))])
        && r == Answer(reply)
        && obj.items == (if r.Ok? && own.Some? && Truthy(own.value) then Put(rest, keyName, own.value) else rest)
      ensures ToMap(obj.items) ==
        if r.Ok? && Truthy(OwnKeyValue(old(obj.items), keyName)) then ToMap(old(obj.items))
        else ToMap(old(obj.items)) - {keyName}
    {
      ghost var before := obj.items;
      ToMapRemove(before, keyName);
      var key, objKeyId := ExtractKey(obj, keyId, keyName);
      var conditions := KeyCondition(CurrentDialect(), keyName, key);
      r := DelObjects(table, TextCond(conditions), "and", reply);
      if r.Err? {
        return;
      }
      RestoreKey(obj, keyName, objKeyId, before);
    }

    /** `add_object(table, obj)`: an INSERT of the object's keys and values. */
    method AddObject(table: string, obj: Dict, reply: Reply) returns (r: Result<Reply>)
      requires Valid()
      modifies this
      ensures Valid()
      ensures Issued([Exec(InsertSql(CurrentDialect(), table, obj), old(autocommit))])
      ensures r == Answer(reply)
    {
      var sql := InsertSql(CurrentDialect(), table, obj);
      r := ExeSql(sql, autocommit, reply);
    }

    /** `create_table(table, tplobj, keyidname, new)`: with `new` (here `recreate`), first
        drops the table if it exists (raising before anything else without a
        connection); then adds the backend's key declaration to `tplobj` if
        it lacks the key, and creates the table with the key as primary key. */
    method CreateTable(table: string, tpl: PyDict, keyName: string := "id", recreate: bool := false,
                       reply: Reply)
      returns (r: Result<Reply>)
      requires Valid() && tpl.Valid()
      modifies this, tpl
      ensures Valid() && tpl.Valid()
      ensures var withKey := TemplateWithKey(CurrentDialect(), old(tpl.items), keyName);
        var drop := if recreate then [Exec(DropIfExistsSql(table), false)] else [];
        && Issued(drop + [Exec(CreateTableSql(table, withKey, keyName), old(autocommit))])
        && r == Answer(reply)
        && tpl.items == (if recreate && db.None? then old(tpl.items) else withKey)
    {
      if recreate {
        var sql := DropIfExistsSql(table);
        var dropped := ExeSql(sql, false, reply);
        if dropped.Err? {
          return Err(dropped.error);
        }
      }
      ghost var logBefore := log;
      r := DeclareAndCreate(table, tpl, keyName, reply);
      assert db.Some? ==> log == logBefore + [Exec(CreateTableSql(table, tpl.items, keyName), old(autocommit))];
    }

    /** The second half of `create_table`: add the backend's key
        declaration to the template if it lacks the key, then create the
        table with the key as primary key. */
    method DeclareAndCreate(table: string, tpl: PyDict, keyName: string, reply: Reply)
      returns (r: Result<Reply>)
      requires Valid() && tpl.Valid()
      modifies this, tpl
      ensures Valid() && tpl.Valid()
      ensures tpl.items == TemplateWithKey(CurrentDialect(), old(tpl.items), keyName)
      ensures Issued([Exec(CreateTableSql(table, tpl.items, keyName), old(autocommit))])
      ensures r == Answer(reply)
    {
      AddKeyDeclaration(tpl, keyName, CurrentDialect());
      var sql := CreateTableSql(table, tpl.items, keyName);
      r := ExeSql(sql, autocommit, reply);
    }

    /** `reset_table(table)`: empties the table with TRUNCATE. */
    method ResetTable(table: string, reply: Reply) returns (r: Result<Reply>)
      requires Valid()
      modifies this
      ensures Valid()
      ensures Issued([Exec(TruncateSql(table), old(autocommit))])
      ensures r == Answer(reply)
    {
      r := ExeSql(TruncateSql(table), autocommit, reply);
    }

    /** `drop_table(table)`. */
    method DropTable(table: string, reply: Reply) returns (r: Result<Reply>)
      requires Valid()
      modifies this
      ensures Valid()
      ensures Issued([Exec(DropSql(table), old(autocommit))])
      ensures r == Answer(reply)
    {
      r := ExeSql(DropSql(table), autocommit, reply);
    }
  }

  /** The key value `set_object` and `del_object` remember for putting back:
      the object's own key value, or `None` when it has none. */
  function OwnKeyValue(items: Dict, keyName: string): (r: Value)
    ensures HasKey(items, keyName) ==> r == Lookup(items, keyName).value
    ensures !HasKey(items, keyName) ==> r == Null
  {
    match Lookup(items, keyName)
    case Some(v) => v
    case None => Null
  }

  /** The loop of `get_objects_by_sql`: one `dict(zip(names, row))` per
      fetched row, appended in fetch order. */
  method RowsToObjects(names: seq<string>, allrow: seq<seq<Value>>) returns (res: seq<Dict>)
    ensures res == RowsToDicts(names, allrow)
  {
    res := [];
    var i := 0;
    while i < |allrow|
      invariant 0 <= i <= |allrow|
      invariant |res| == i
      invariant forall j :: 0 <= j < i ==> res[j] == RowDict(names, allrow[j])
    {
      var obj := RowDict(names, allrow[i]);
      res := res + [obj];
      i := i + 1;
    }
  }

  /** The part of `create_table` that makes sure the template declares the
      key, with the declaration of the backend in use. */
  method AddKeyDeclaration(tpl: PyDict, keyName: string, d: Dialect)
    requires tpl.Valid()
    modifies tpl
    ensures tpl.Valid()
    ensures tpl.items == TemplateWithKey(d, old(tpl.items), keyName)
  {
    if !HasKey(tpl.items, keyName) {
      tpl.Store(keyName, Str(KeyDeclaration(d)));
    }
  }

  /** The first half of `set_object` and `del_object`: pick the key value
      to select by, remember the object's own, and delete it from `obj`. */
  method ExtractKey(obj: PyDict, keyId: Value, keyName: string) returns (key: Value, objKeyId: Value)
    requires obj.Valid()
    modifies obj
    ensures obj.Valid()
    ensures key == EffectiveKey(keyId, Lookup(old(obj.items), keyName))
    ensures objKeyId == OwnKeyValue(old(obj.items), keyName)
    ensures obj.items == Remove(old(obj.items), keyName)
  {
    key, objKeyId := keyId, Null;
    if HasKey(obj.items, keyName) {
      objKeyId := Lookup(obj.items, keyName).value;
      if !Truthy(key) {
        key := Lookup(obj.items, keyName).value;
      }
      obj.Delete(keyName);
    } else {
      RemoveAbsent(obj.items, keyName);
    }
  }

  /** The second half: put the remembered key value back if it is truthy. */
  method RestoreKey(obj: PyDict, keyName: string, objKeyId: Value, ghost before: Dict)
    requires obj.Valid() && DistinctKeys(before)
    requires obj.items == Remove(before, keyName) && objKeyId == OwnKeyValue(before, keyName)
    modifies obj
    ensures obj.Valid()
    ensures obj.items == if Truthy(objKeyId) then Put(Remove(before, keyName), keyName, objKeyId)
                         else Remove(before, keyName)
    ensures ToMap(obj.items) == if Truthy(objKeyId) then ToMap(before) else ToMap(before) - {keyName}
  {
    ToMapRemove(before, keyName);
    if Truthy(objKeyId) {
      RemoveThenPutRestores(before, keyName);
      obj.Store(keyName, objKeyId);
    }
  }

  /** Deleting an absent key changes nothing. */
  lemma {:induction false} RemoveAbsent(d: Dict, k: string)
    requires !HasKey(d, k)
    ensures Remove(d, k) == d
    decreases |d|
  {
    if d != [] {
      assert d[0].0 != k;
      RemoveAbsent(d[1..], k);
      assert [d[0]] + d[1..] == d;
    }
  }
}
