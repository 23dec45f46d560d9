/** The SQL text the ORM writes: literals, column types, WHERE clauses and
    every statement its CRUD calls issue.  All of it is string
    concatenation over the current backend, which is passed in as a
    `Dialect`. */
module Render {
  import opened Values
  import opened Text
  import opened Dicts

  /** The backend the SQL is written for.  For MySQL the literal is
      whatever the driver's `db.literal(v)` returns; its escaping rules are
      the driver's, so the model takes them as a given function. */
  datatype Dialect = SQLite | MySQL(driverLiteral: Value -> string)

  // ---------------------------------------------------------------- literals

  /** `__literal__(v)`: SQLite gets `str(v)` in single quotes, with nothing
      escaped; MySQL gets the driver's rendering. */
  function Literal(d: Dialect, v: Value): (r: string)
    ensures d.SQLite? ==> r == "'" + PyStr(v) + "'"
    ensures d.MySQL? ==> r == d.driverLiteral(v)
  {
    match d
    case SQLite => "'" + PyStr(v) + "'"
    case MySQL(driverLiteral) => driverLiteral(v)
  }

  /** A SQLite literal reads back as `str(v)` exactly when `str(v)` holds no
      quote: the quoting escapes nothing. */
  lemma SqliteLiteralRoundTrip(v: Value)
    ensures UnquoteString(Literal(SQLite, v)) == Some(PyStr(v)) <==> '\'' !in PyStr(v)
  {
    UnquoteRoundTrip(PyStr(v));
  }

  function Literals(d: Dialect, vs: seq<Value>): (r: seq<string>)
    ensures |r| == |vs|
    ensures forall j :: 0 <= j < |vs| ==> r[j] == Literal(d, vs[j])
  {
    seq(|vs|, j requires 0 <= j < |vs| => Literal(d, vs[j]))
  }

  /** Numbers and `None` always read back. */
  lemma SqliteNumberLiteralRoundTrip(v: Value)
    requires v.Int? || v.Long? || v.Null?
    ensures UnquoteString(Literal(SQLite, v)) == Some(PyStr(v))
  {
    if v.Int? {
      DecimalHasNoQuote(v.i);
    } else if v.Long? {
      DecimalHasNoQuote(v.l);
    }
    SqliteLiteralRoundTrip(v);
  }

  /** A value with a quote in it ends the literal early. */
  lemma SqliteLiteralBreaksOnQuote()
    ensures Literal(SQLite, Str("O'Brien")) == "'O'Brien'"
    ensures UnquoteString(Literal(SQLite, Str("O'Brien"))) == None
  {
    var body := "O'Brien";
    assert body[1..] == "'Brien";
    assert body[1..][0] == '\'' && body[1..][1] != '\'';
    assert Unescape(body[1..]) == None;
    assert Unescape(body) == None;
    assert Literal(SQLite, Str(body))[1..|"'O'Brien'"| - 1] == body;
  }

  // ---------------------------------------------------------------- column types

  /** The SQL type name an example number stands for. */
  function NumericType(v: Value): string
    requires IsNumeric(v)
  {
    match v
    case Float(_, _) => "float"
    case Int(_) => "int"
    case Long(_) => "bigint"
  }

  /** `__typemap__(v)`: the column declaration an example value stands for.
      `None` is the Python `None` the source falls through to for a value of
      any other type. */
  function TypeMap(v: Value): (r: Option<string>)
    ensures r.None? <==> v.Null?
    ensures v.Str? ==> r == Some(if v.s == "" then "text" else v.s)
    ensures IsNumeric(v) ==> r == Some(NumericType(v) + if Truthy(v) then " not null" else "")
  {
    match v
    case Str(s) => Some(if |s| > 0 then s else "text")
    case Float(_, _) =>
      var t := IfOrNot(v, "float not null", "float");
      assert t == "float" + if Truthy(v) then " not null" else "";
      Some(t)
    case Int(_) =>
      var t := IfOrNot(v, "int not null", "int");
      assert t == "int" + if Truthy(v) then " not null" else "";
      Some(t)
    case Long(_) =>
      var t := IfOrNot(v, "bigint not null", "bigint");
      assert t == "bigint" + if Truthy(v) then " not null" else "";
      Some(t)
    case Null => None
  }

  /** A numeric column is declared `not null` exactly when its example
      value is non-zero. */
  lemma TypeMapNotNull(v: Value)
    requires IsNumeric(v)
    ensures EndsWithNotNull(TypeMap(v).value) <==> Truthy(v)
  {
  }

  predicate EndsWithNotNull(t: string)
  {
    |t| >= 9 && t[|t| - 9..] == " not null"
  }

  // ---------------------------------------------------------------- WHERE clauses

  /** The `conditions` argument: a dict of column to value, or raw SQL. */
  datatype Conditions = DictCond(items: Dict) | TextCond(text: string)

  predicate IsEmpty(c: Conditions)
  {
    match c
    case DictCond(items) => items == []
    case TextCond(text) => text == ""
  }

  /** `` `k`=literal ``. */
  function Pair(d: Dialect, k: string, v: Value): string
  {
    Backquote(k) + "=" + Literal(d, v)
  }

  /** The pair of every entry, in dict order. */
  function Pairs(d: Dialect, items: Dict): (r: seq<string>)
    ensures |r| == |items|
    ensures forall j :: 0 <= j < |items| ==> r[j] == Pair(d, items[j].0, items[j].1)
  {
    seq(|items|, j requires 0 <= j < |items| => Pair(d, items[j].0, items[j].1))
  }

  /** `__createconditions__` as written, giving the text its result adds
      when formatted with `%s`.  An empty dict is falsy, so it is returned
      unchanged, and `'%s' % {}` is `{}`. */
  function WhereClauseAsWritten(d: Dialect, c: Conditions, condType: string): (r: string)
    ensures r == "{}" <==> c == DictCond([])
    ensures r == "" <==> c == TextCond("")
  {
    match c
    case DictCond(items) =>
      if items != [] then " where " + Join(" " + condType + " ", Pairs(d, items)) else "{}"
    case TextCond(text) =>
      if text != "" then " where " + text else text
  }

  /** `__createconditions__` as intended: no conditions add nothing. */
  function WhereClause(d: Dialect, c: Conditions, condType: string): (r: string)
    ensures r == "" <==> IsEmpty(c)
    ensures r != "" ==> |r| > 7 && r[..7] == " where "
    ensures c.TextCond? && c.text != "" ==> r == " where " + c.text
    ensures c.DictCond? && c.items != [] ==> r == " where " + Join(" " + condType + " ", Pairs(d, c.items))
  {
    match c
    case DictCond(items) =>
      if items != [] then
        var pairs := Pairs(d, items);
        assert |Join(" " + condType + " ", pairs)| >= |pairs[0]| > 0;
        " where " + Join(" " + condType + " ", pairs)
      else ""
    case TextCond(text) =>
      if text != "" then " where " + text else ""
  }

  /** The two differ only on the empty dict, where the source's text is `{}`. */
  lemma WhereClauseEmptyDictFinding(d: Dialect, c: Conditions, condType: string)
    ensures c == DictCond([]) ==>
      WhereClauseAsWritten(d, c, condType) == "{}" && WhereClause(d, c, condType) == ""
    ensures c != DictCond([]) ==> WhereClauseAsWritten(d, c, condType) == WhereClause(d, c, condType)
  {
  }

  lemma PairsSnoc(d: Dialect, items: Dict, k: string, v: Value)
    ensures Pairs(d, items + [(k, v)]) == Pairs(d, items) + [Pair(d, k, v)]
  {
    var lhs, rhs := Pairs(d, items + [(k, v)]), Pairs(d, items) + [Pair(d, k, v)];
    assert |lhs| == |rhs|;
    forall j | 0 <= j < |lhs| ensures lhs[j] == rhs[j] {
      if j < |items| {
        assert (items + [(k, v)])[j] == items[j];
      }
    }
  }

  /** One more condition entry adds the combinator and its pair at the end. */
  lemma WhereClauseSnoc(d: Dialect, items: Dict, k: string, v: Value, condType: string)
    requires items != []
    ensures WhereClause(d, DictCond(items + [(k, v)]), condType) ==
      WhereClause(d, DictCond(items), condType) + (" " + condType + " ") + Pair(d, k, v)
  {
    var sep := " " + condType + " ";
    var joined := Join(sep, Pairs(d, items));
    var pair := Pair(d, k, v);
    calc {
      WhereClause(d, DictCond(items + [(k, v)]), condType);
      " where " + Join(sep, Pairs(d, items + [(k, v)]));
      { JoinPairsSnoc(d, items, k, v, sep); }
      " where " + (joined + sep + pair);
      { ConcatAssoc(" where ", joined, sep, pair); }
      (" where " + joined) + sep + pair;
      WhereClause(d, DictCond(items), condType) + sep + pair;
    }
  }

  lemma ConcatAssoc(a: string, b: string, c: string, e: string)
    ensures a + (b + c + e) == (a + b) + c + e
  {
  }

  lemma JoinPairsSnoc(d: Dialect, items: Dict, k: string, v: Value, sep: string)
    requires items != []
    ensures Join(sep, Pairs(d, items + [(k, v)])) == Join(sep, Pairs(d, items)) + sep + Pair(d, k, v)
  {
    PairsSnoc(d, items, k, v);
    JoinSnoc(sep, Pairs(d, items), Pair(d, k, v));
  }

  // ---------------------------------------------------------------- SELECT

  /** The `columns` argument: a list of names, or raw SQL such as `*`. */
  datatype Columns = ColumnList(names: seq<string>) | ColumnText(text: string)

  /** A non-empty list becomes back-quoted names joined by commas; anything
      else is formatted with `%s` (so an empty list prints as `[]`). */
  function ColumnsText(c: Columns): string
  {
    match c
    case ColumnList(names) => if names != [] then QuotedList(names) else "[]"
    case ColumnText(text) => text
  }

  /** A rendered column list names exactly the columns asked for. */
  lemma ColumnsReadBack(names: seq<string>)
    requires names != [] && NoBackquote(names)
    ensures ParseQuotedList(ColumnsText(ColumnList(names))) == Some(names)
  {
    QuotedListRoundTrip(names);
  }

  /** `limit`, `order` and `offset`: a truthy value gets its keyword; a
      falsy one is formatted as it is (`''` adds nothing, `0` adds `0`). */
  function Clause(keyword: string, v: Value): (r: string)
    ensures Truthy(v) ==> r == keyword + PyStr(v)
    ensures !Truthy(v) ==> r == PyStr(v)
    ensures v == Str("") ==> r == ""
  {
    if Truthy(v) then keyword + PyStr(v) else PyStr(v)
  }

  /** The statement `get_objects` issues. */
  function SelectSql(d: Dialect, table: string, columns: Columns, c: Conditions, condType: string,
                     limit: Value, order: Value, offset: Value): string
  {
    "select " + ColumnsText(columns) + " from " + Backquote(table) + " " + WhereClauseAsWritten(d, c, condType)
      + Clause(" order by ", order) + Clause(" limit ", limit) + Clause(" offset ", offset)
  }

  /** With every optional argument left at its default the statement
      selects everything and stops after the table name. */
  lemma SelectDefaults(d: Dialect, table: string)
    ensures SelectSql(d, table, ColumnText("*"), TextCond(""), "and", Str(""), Str(""), Str(""))
      == "select * from `" + table + "` "
  {
  }

  /** The statement `get_object` issues: the key name is not back-quoted. */
  function SelectByKeySql(d: Dialect, table: string, keyId: Value, keyName: string): string
  {
    "select * from " + Backquote(table) + " where " + keyName + "=" + Literal(d, keyId)
  }

  // ---------------------------------------------------------------- UPDATE, DELETE, INSERT

  /** The statement `set_objects` issues. */
  function UpdateSql(d: Dialect, table: string, obj: Dict, c: Conditions, condType: string): string
  {
    "update " + Backquote(table) + " set " + Join(",", Pairs(d, obj)) + WhereClauseAsWritten(d, c, condType)
  }

  /** The SET list of `set_object` never names the key column, and holds
      every other entry of the object. */
  lemma SetListOmitsKey(d: Dialect, obj: Dict, keyName: string)
    ensures var rest := Remove(obj, keyName);
      && (forall j :: 0 <= j < |rest| ==> rest[j].0 != keyName && Pairs(d, rest)[j] == Pair(d, rest[j].0, rest[j].1))
      && ToMap(rest) == ToMap(obj) - {keyName}
  {
    var rest := Remove(obj, keyName);
    forall j | 0 <= j < |rest| ensures rest[j].0 != keyName {
      LookupRemove(obj, keyName, keyName);
      assert HasKey(rest, rest[j].0);
    }
    ToMapRemove(obj, keyName);
  }

  /** The statement `del_objects` issues. */
  function DeleteSql(d: Dialect, table: string, c: Conditions, condType: string): string
  {
    "delete from " + Backquote(table) + WhereClauseAsWritten(d, c, condType)
  }

  /** An empty conditions dict is written into the statement as `{}`. */
  lemma EmptyDictStatements(d: Dialect, table: string)
    ensures SelectSql(d, table, ColumnText("*"), DictCond([]), "and", Str(""), Str(""), Str(""))
      == "select * from `" + table + "` {}"
    ensures DeleteSql(d, table, DictCond([]), "and") == "delete from `" + table + "`{}"
  {
  }

  /** The raw condition `set_object` and `del_object` pass on. */
  function KeyCondition(d: Dialect, keyName: string, keyId: Value): string
  {
    Pair(d, keyName, keyId)
  }

  /** The key condition always yields a WHERE clause on the key column. */
  lemma KeyConditionWhere(d: Dialect, keyName: string, keyId: Value)
    ensures WhereClauseAsWritten(d, TextCond(KeyCondition(d, keyName, keyId)), "and")
      == " where `" + keyName + "`=" + Literal(d, keyId)
  {
  }

  /** The key value `set_object` and `del_object` select by: an explicit
      truthy `keyId` wins, otherwise the object's own key value if it has
      one, otherwise the `keyId` given. */
  function EffectiveKey(keyId: Value, own: Option<Value>): (r: Value)
    ensures Truthy(keyId) ==> r == keyId
    ensures !Truthy(keyId) && own.Some? ==> r == own.value
    ensures own.None? ==> r == keyId
  {
    if own.Some? && !Truthy(keyId) then own.value else keyId
  }

  /** The statement `add_object` issues. */
  function InsertSql(d: Dialect, table: string, obj: Dict): string
  {
    "insert into " + Backquote(table) + "(" + QuotedList(Keys(obj)) + ") values("
      + Join(",", Literals(d, ValuesOf(obj))) + ")"
  }

  /** The column list of an insert names the object's keys, in order. */
  lemma InsertColumnsReadBack(d: Dialect, table: string, obj: Dict)
    requires obj != [] && NoBackquote(Keys(obj))
    ensures var prefix := "insert into " + Backquote(table) + "(";
      var cols := QuotedList(Keys(obj));
      InsertSql(d, table, obj)[|prefix|..|prefix| + |cols|] == cols
      && ParseQuotedList(cols) == Some(Keys(obj))
  {
    QuotedListRoundTrip(Keys(obj));
  }

  // ---------------------------------------------------------------- CREATE, TRUNCATE, DROP

  /** The key declaration `create_table` adds to a template without a key. */
  function KeyDeclaration(d: Dialect): string
  {
    match d
    case SQLite => "integer not null"
    case MySQL(_) => "int not null auto_increment"
  }

  /** The template after `create_table` has made sure it declares the key. */
  function TemplateWithKey(d: Dialect, tpl: Dict, keyName: string): (r: Dict)
    ensures HasKey(r, keyName)
    ensures HasKey(tpl, keyName) ==> r == tpl
  {
    if HasKey(tpl, keyName) then tpl
    else
      LookupPut(tpl, keyName, Str(KeyDeclaration(d)), keyName);
      Put(tpl, keyName, Str(KeyDeclaration(d)))
  }

  /** `` `k` type `` for one template entry; a type the source does not map
      prints as `None`. */
  function ColumnDeclaration(k: string, v: Value): string
  {
    Backquote(k) + " " + match TypeMap(v) case Some(t) => t case None => "None"
  }

  function ColumnDeclarations(tpl: Dict): (r: seq<string>)
    ensures |r| == |tpl|
    ensures forall j :: 0 <= j < |tpl| ==> r[j] == ColumnDeclaration(tpl[j].0, tpl[j].1)
  {
    seq(|tpl|, j requires 0 <= j < |tpl| => ColumnDeclaration(tpl[j].0, tpl[j].1))
  }

  /** The statement `create_table` issues for a template that already
      holds the key. */
  function CreateTableSql(table: string, tpl: Dict, keyName: string): string
  {
    "create table if not exists " + Backquote(table) + "(" + Join(",", ColumnDeclarations(tpl))
      + ",primary key (" + Backquote(keyName) + "))"
  }

  /** A template without the key gets the backend's key column as its last
      declaration; the other declarations are unchanged. */
  lemma {:induction false} TemplateKeyDeclared(d: Dialect, tpl: Dict, keyName: string)
    requires DistinctKeys(tpl) && !HasKey(tpl, keyName)
    ensures ColumnDeclarations(TemplateWithKey(d, tpl, keyName))
      == ColumnDeclarations(tpl) + [Backquote(keyName) + " " + KeyDeclaration(d)]
  {
    PutKeepsDistinct(tpl, keyName, Str(KeyDeclaration(d)));
    assert TypeMap(Str(KeyDeclaration(d))) == Some(KeyDeclaration(d));
    var r := TemplateWithKey(d, tpl, keyName);
    assert r == tpl + [(keyName, Str(KeyDeclaration(d)))];
  }

  function DropIfExistsSql(table: string): string
  {
    "drop table if exists " + Backquote(table)
  }

  /** The statement `reset_table` issues. */
  function TruncateSql(table: string): string
  {
    "truncate table " + Backquote(table)
  }

  /** The statement `drop_table` issues; it has no `if exists`. */
  function DropSql(table: string): string
  {
    "drop table " + Backquote(table)
  }
}
