/**
 * BaseSQLBuilder: the fluent query state. Every mutator of the PHP class
 * stores one key of `$_query` and returns the same object; here each one is
 * a function from the builder to the updated builder. The renderer that
 * turns the state into SQL is not part of this model.
 */
module BaseSQLBuilder {
  import opened Wrappers
  import opened PhpString
  import opened PhpArray
  import opened PhpValue

  /** The class a builder instance belongs to. */
  datatype Dialect = Base | MySQL | MSSQL

  /** What `_getTable` returns: a table and an alias that is null or truthy. */
  datatype TableRef = TableRef(table: Value, alias: Value)

  /** One element of `$_query['join']`. */
  datatype JoinClause = JoinClause(table: Value, alias: Value, on: Value, kind: Value)

  /**
   * `$_query`; `None` is a key that was never assigned. The offset has no
   * setter among the methods modelled here, but the MySQL renderer reads it.
   */
  datatype Query = Query(
    select: Option<Value>,
    from: Option<TableRef>,
    joins: seq<JoinClause>,
    where: Option<Value>,
    limit: Option<Value>,
    offset: Option<Value>,
    group: Option<Value>,
    order: Option<Value>)

  datatype Builder = Builder(dialect: Dialect, query: Query)

  const EmptyQuery := Query(None, None, [], None, None, None, None, None)

  /** `isset($this->_query[...])`: assigned and not null. */
  predicate IsSet(v: Option<Value>) {
    v.Some? && !v.value.Null?
  }

  /** `static::$_fec` and `static::$_bec`, the front and back escape characters of each class. */
  function EscapeChars(d: Dialect): (r: (string, string))
    ensures d == Base ==> r == ("", "")
    ensures d == MySQL ==> r.0 == "`" && r.1 == "`"
    ensures d == MSSQL ==> r.0 == "]" && r.1 == "["
  {
    match d
    case Base => ("", "")
    case MySQL => ("`", "`")
    case MSSQL => ("]", "[")
  }

  /** `startQuery`: forgets every stored clause and keeps the object's class. */
  function StartQuery(b: Builder): (r: Builder)
    ensures r.dialect == b.dialect
    ensures !IsSet(r.query.select) && r.query.from.None? && r.query.joins == []
    ensures !IsSet(r.query.where) && !IsSet(r.query.limit) && !IsSet(r.query.offset)
    ensures !IsSet(r.query.group) && !IsSet(r.query.order)
  {
    Builder(b.dialect, EmptyQuery)
  }

  /**
   * `start()`: `new self` is resolved where the method is written, so the
   * instance is a plain BaseSQLBuilder whichever class it is called through.
   */
  function Start(calledThrough: Dialect): (r: Builder)
    ensures r.dialect == Base
    ensures r == StartQuery(r)
  {
    StartQuery(Builder(Base, EmptyQuery))
  }

  /** Even `MySQLBuilder::start()` gives a builder without escape characters. */
  lemma StartLosesDialect(d: Dialect)
    ensures EscapeChars(Start(d).dialect) == ("", "")
    ensures d != Base ==> Start(d).dialect != d
  {
  }

  /**
   * `start()` as its callers use it (`MySQLBuilder::start()` in the MySQL
   * gateway): `new static`, an empty builder of the class called through.
   */
  function StartStatic(calledThrough: Dialect): (r: Builder)
    ensures r.dialect == calledThrough
    ensures EscapeChars(r.dialect) == EscapeChars(calledThrough)
    ensures r == StartQuery(r)
  {
    StartQuery(Builder(calledThrough, EmptyQuery))
  }

  // ---------------------------------------------------------------------------
  // select, group, order
  // ---------------------------------------------------------------------------

  /**
   * The stored form of a field list: an array is kept as it is; anything
   * else is cast to string, split on the delimiter and trimmed piece by piece.
   * PHP 8 rejects an empty delimiter with a ValueError.
   */
  function FieldList(fields: Value, delimiter: string): (r: Result<Value>)
    ensures fields.Arr? ==> r == Ok(fields)
    ensures !fields.Arr? ==> (r.Ok? <==> delimiter != "")
    ensures !fields.Arr? && r.Ok? ==>
      r.value.Arr? && Implode(delimiter, Explode(delimiter, StringOf(fields))) == StringOf(fields)
    ensures !fields.Arr? && r.Ok? ==>
      var parts := Explode(delimiter, StringOf(fields));
      |r.value.entries| == |parts| &&
      forall i :: 0 <= i < |parts| ==> r.value.entries[i] == (IKey(i), Str(Trim(parts[i])))
  {
    if fields.Arr? then Ok(fields)
    else if delimiter == "" then Err("explode(): Argument #1 ($separator) cannot be empty")
    else
      var parts := Explode(delimiter, StringOf(fields));
      ExplodeImplode(delimiter, StringOf(fields));
      Ok(Arr(List(StrList(TrimAll(parts)))))
  }

  function TrimAll(ss: seq<string>): (r: seq<string>)
    ensures |r| == |ss|
    ensures forall i :: 0 <= i < |ss| ==> r[i] == Trim(ss[i])
  {
    seq(|ss|, i requires 0 <= i < |ss| => Trim(ss[i]))
  }

  /** `select($fields, $delimiter)`: replaces the select list and nothing else. */
  function Select(b: Builder, fields: Value, delimiter: string): (r: Result<Builder>)
    ensures r.Ok? <==> FieldList(fields, delimiter).Ok?
    ensures r.Ok? ==> r.value == b.(query := b.query.(select := Some(FieldList(fields, delimiter).value)))
  {
    var f :- FieldList(fields, delimiter);
    Ok(b.(query := b.query.(select := Some(f))))
  }

  /** `group($fields, $delimiter)`: replaces the group list and nothing else. */
  function Group(b: Builder, fields: Value, delimiter: string): (r: Result<Builder>)
    ensures r.Ok? <==> FieldList(fields, delimiter).Ok?
    ensures r.Ok? ==> r.value == b.(query := b.query.(group := Some(FieldList(fields, delimiter).value)))
  {
    var f :- FieldList(fields, delimiter);
    Ok(b.(query := b.query.(group := Some(f))))
  }

  /** `order($fields, $delimiter)`: replaces the order list and nothing else. */
  function Order(b: Builder, fields: Value, delimiter: string): (r: Result<Builder>)
    ensures r.Ok? <==> FieldList(fields, delimiter).Ok?
    ensures r.Ok? ==> r.value == b.(query := b.query.(order := Some(FieldList(fields, delimiter).value)))
  {
    var f :- FieldList(fields, delimiter);
    Ok(b.(query := b.query.(order := Some(f))))
  }

  /** No piece contains the separator character and none has surrounding blanks. */
  predicate PlainFields(names: seq<string>, sep: char) {
    forall j :: 0 <= j < |names| ==>
      Trim(names[j]) == names[j] && forall k :: 0 <= k < |names[j]| ==> names[j][k] != sep
  }

  /**
   * Passing field names as one delimited string stores the same list as
   * passing them as a PHP list: `select('a, b')` is `select(['a', 'b'])`.
   */
  lemma {:induction false} SelectTextIsList(b: Builder, names: seq<string>, sep: char)
    requires |names| >= 1 && PlainFields(names, sep)
    ensures Select(b, Str(Implode([sep], names)), [sep]) == Select(b, Arr(List(StrList(names))), [sep])
  {
    var text := Implode([sep], names);
    ImplodeExplode([sep], names);
    assert TrimAll(names) == names;
    assert FieldList(Str(text), [sep]) == Ok(Arr(List(StrList(TrimAll(Explode([sep], text))))));
  }

  /** The case the test suite checks: `select('a')` and `select(['a'])` store the same list. */
  lemma SelectSingleName(b: Builder, name: string)
    requires Trim(name) == name
    requires forall k :: 0 <= k < |name| ==> name[k] != ','
    ensures Select(b, Str(name), ",") == Select(b, Arr([(IKey(0), Str(name))]), ",")
  {
    SingletonList(name, ',');
    SelectTextIsList(b, [name], ',');
  }

  lemma SingletonList(name: string, sep: char)
    requires Trim(name) == name
    requires forall k :: 0 <= k < |name| ==> name[k] != sep
    ensures PlainFields([name], sep)
    ensures Implode([sep], [name]) == name
    ensures List(StrList([name])) == [(IKey(0), Str(name))]
  {
    var l := List(StrList([name]));
    assert |l| == 1 && l[0] == (IKey(0), Str(name));
  }

  // ---------------------------------------------------------------------------
  // from and joins
  // ---------------------------------------------------------------------------

  /** `isset($v[0]) ? $v[0] : ...` on whatever value the table resolved to. */
  function OffsetZero(v: Value): Result<Option<Value>> {
    match v
    case Arr(e) => Ok(IssetGet(e, IKey(0)))
    case Str(s) => Ok(if |s| > 0 then Some(Str(s[..1])) else None)
    case Expr(_) => Err("Cannot use object of type SQLBuilder\\BaseExpression as array")
    case _ => Ok(None)
  }

  /** `$alias ? $alias : null` */
  function AliasOrNull(alias: Value): (r: Value)
    ensures r.Null? || Truthy(r)
    ensures Truthy(alias) ==> r == alias
  {
    if Truthy(alias) then alias else Null
  }

  /**
   * `_getTable($tableName, $alias)`. With an explicit alias the table is kept
   * as given. Otherwise a string with a space is split at the spaces (first
   * piece table, second alias), and an array is read by its `alias`, `1`,
   * `table` and `0` entries in that order of precedence.
   */
  function GetTable(tableName: Value, alias: Value): (r: Result<TableRef>)
    ensures r.Ok? ==> r.value.alias.Null? || Truthy(r.value.alias)
    ensures !alias.Null? ==> r == Ok(TableRef(tableName, AliasOrNull(alias)))
    ensures alias.Null? && !tableName.Arr? && !(tableName.Str? && Contains(tableName.s, " ")) ==>
      r == Ok(TableRef(tableName, Null))
    ensures alias.Null? && tableName.Str? && Contains(tableName.s, " ") ==>
      var parts := Explode(" ", tableName.s);
      |parts| >= 2 && r == Ok(TableRef(Str(parts[0]), AliasOrNull(Str(parts[1]))))
    ensures r.Err? ==> tableName.Arr?
  {
    if !alias.Null? then Ok(TableRef(tableName, AliasOrNull(alias)))
    else if tableName.Str? && StrstrTruthy(tableName.s, " ") then
      var parts := Explode(" ", tableName.s);
      assert |parts| >= 2 by { SplitAtFirst(" ", tableName.s); }
      Ok(TableRef(Str(parts[0]), AliasOrNull(Str(parts[1]))))
    else if tableName.Arr? then
      var a := tableName.entries;
      var alias1 := match IssetGet(a, SKey("alias")) case Some(v) => v case None => Null;
      var alias2 := match IssetGet(a, IKey(1)) case Some(v) => v case None => alias1;
      var table1 := match IssetGet(a, SKey("table")) case Some(v) => v case None => tableName;
      var zero :- OffsetZero(table1);
      var table2 := match zero case Some(v) => v case None => table1;
      Ok(TableRef(table2, AliasOrNull(alias2)))
    else
      Ok(TableRef(tableName, Null))
  }

  /** A text with an occurrence of the delimiter explodes into at least two pieces. */
  lemma SplitAtFirst(d: string, s: string)
    requires |d| > 0 && Contains(s, d)
    ensures |Explode(d, s)| >= 2
  {
  }

  /** `"table alias"` is read as the table and its alias. */
  lemma GetTableSpaced(table: string, alias: string)
    requires Truthy(Str(alias))
    requires forall k :: 0 <= k < |table| ==> table[k] != ' '
    requires forall k :: 0 <= k < |alias| ==> alias[k] != ' '
    ensures GetTable(Str(table + " " + alias), Null) == Ok(TableRef(Str(table), Str(alias)))
  {
    var s := table + " " + alias;
    assert Implode(" ", [table, alias]) == s;
    ImplodeExplode(" ", [table, alias]);
    assert OccursAt(s, " ", |table|) by { assert s[|table|..|table| + 1] == " "; }
  }

  /** `[table, alias]` as a PHP list is read as the table and its alias. */
  lemma GetTableListed(table: Value, alias: Value)
    requires !table.Null? && Truthy(alias)
    ensures GetTable(Arr([(IKey(0), table), (IKey(1), alias)]), Null) == Ok(TableRef(table, alias))
  {
    var a: Array<Value> := [(IKey(0), table), (IKey(1), alias)];
    assert Get(a, SKey("alias")) == None by { assert !HasKey(a, SKey("alias")); }
    assert Get(a, SKey("table")) == None by { assert !HasKey(a, SKey("table")); }
    assert Get(a, IKey(1)) == Some(alias) by { assert Find(a, IKey(1)) == Some(1); }
  }

  /**
   * `['table' => 'name']` keeps only the first character of the name: the
   * `table` entry is a string, and `isset($tableName[0])` then reads its
   * first character.
   */
  lemma GetTableKeyedTruncates(name: string)
    requires |name| >= 1
    ensures GetTable(Arr([(SKey("table"), Str(name))]), Null) == Ok(TableRef(Str(name[..1]), Null))
  {
    var a: Array<Value> := [(SKey("table"), Str(name))];
    assert Get(a, SKey("alias")) == None by { assert !HasKey(a, SKey("alias")); }
    assert Get(a, IKey(1)) == None by { assert !HasKey(a, IKey(1)); }
  }

  /** `from($tableName, $alias)`: replaces the source and nothing else. */
  function From(b: Builder, tableName: Value, alias: Value): (r: Result<Builder>)
    ensures r.Ok? <==> GetTable(tableName, alias).Ok?
    ensures r.Ok? ==> r.value == b.(query := b.query.(from := Some(GetTable(tableName, alias).value)))
  {
    var t :- GetTable(tableName, alias);
    Ok(b.(query := b.query.(from := Some(t))))
  }

  /** A plain string table name never fails and is stored with the alias given. */
  lemma FromName(b: Builder, name: string, alias: Value)
    requires !alias.Null? || !Contains(name, " ")
    ensures From(b, Str(name), alias).Ok?
    ensures From(b, Str(name), alias).value.query.from == Some(TableRef(Str(name), AliasOrNull(alias)))
  {
  }

  /** `join($tableName, $on, $alias, $type)`: appends one join and changes nothing else. */
  function Join(b: Builder, tableName: Value, on: Value, alias: Value, kind: Value): (r: Result<Builder>)
    ensures r.Ok? <==> GetTable(tableName, alias).Ok?
    ensures r.Ok? ==>
      var t := GetTable(tableName, alias).value;
      r.value == b.(query := b.query.(joins := b.query.joins + [JoinClause(t.table, t.alias, on, kind)]))
  {
    var t :- GetTable(tableName, alias);
    Ok(b.(query := b.query.(joins := b.query.joins + [JoinClause(t.table, t.alias, on, kind)])))
  }

  /** The join type used when the caller gives none. */
  const DefaultJoinKind: Value := Str("left")

  /** `innerJoin`: a join whose type is "inner". */
  function InnerJoin(b: Builder, tableName: Value, on: Value, alias: Value): (r: Result<Builder>)
    ensures r.Ok? ==> |r.value.query.joins| == |b.query.joins| + 1
    ensures r.Ok? ==> r.value.query.joins[|b.query.joins|].kind == Str("inner")
    ensures r == Join(b, tableName, on, alias, Str("inner"))
  {
    Join(b, tableName, on, alias, Str("inner"))
  }

  /** `leftJoin`: a join whose type is "left", the same as `join` without a type. */
  function LeftJoin(b: Builder, tableName: Value, on: Value, alias: Value): (r: Result<Builder>)
    ensures r.Ok? ==> |r.value.query.joins| == |b.query.joins| + 1
    ensures r.Ok? ==> r.value.query.joins[|b.query.joins|].kind == Str("left")
    ensures r == Join(b, tableName, on, alias, DefaultJoinKind)
  {
    Join(b, tableName, on, alias, Str("left"))
  }

  // ---------------------------------------------------------------------------
  // where, limit
  // ---------------------------------------------------------------------------

  /** `where($params)`: replaces the condition tree and nothing else. */
  function Where(b: Builder, params: Value): (r: Builder)
    ensures r.query.where == Some(params)
    ensures r.dialect == b.dialect && r.query.(where := b.query.where) == b.query
  {
    b.(query := b.query.(where := Some(params)))
  }

  /** The stored tree is non-empty in PHP's sense. */
  predicate HasCondition(q: Query) {
    q.where.Some? && Truthy(q.where.value)
  }

  /**
   * Combines the stored tree with a new condition under `op`: a non-empty
   * tree becomes `[op, tree, params]`, an empty or missing one `[op, params]`.
   */
  function Combine(b: Builder, op: string, params: Value): (r: Builder)
    ensures r.dialect == b.dialect && r.query.(where := b.query.where) == b.query
    ensures r.query.where.Some? && r.query.where.value.Arr?
    ensures var t := r.query.where.value.entries;
      && |t| >= 2 && t[0] == (IKey(0), Str(op))
      && t[|t| - 1] == (IKey(|t| - 1), params)
      && (|t| == 3 <==> HasCondition(b.query))
      && (|t| == 3 ==> t[1] == (IKey(1), b.query.where.value))
  {
    var tree :=
      if HasCondition(b.query) then List([Str(op), b.query.where.value, params])
      else List([Str(op), params]);
    b.(query := b.query.(where := Some(Arr(tree))))
  }

  /** `andWhere($params)` */
  function AndWhere(b: Builder, params: Value): (r: Builder)
    ensures r.dialect == b.dialect && r.query.(where := b.query.where) == b.query
    ensures r.query.where.Some? && r.query.where.value.Arr?
    ensures var t := r.query.where.value.entries;
      && |t| >= 2 && t[0] == (IKey(0), Str("and")) && t[|t| - 1] == (IKey(|t| - 1), params)
      && (|t| == 3 <==> HasCondition(b.query))
      && (|t| == 3 ==> t[1] == (IKey(1), b.query.where.value))
      && (|t| == 2 <==> !HasCondition(b.query))
  {
    Combine(b, "and", params)
  }

  /** `orWhere($params)`: the tree `andWhere` would build, with `or` as its operator. */
  function OrWhere(b: Builder, params: Value): (r: Builder)
    ensures var a := AndWhere(b, params);
      && r.dialect == a.dialect && r.query.(where := a.query.where) == a.query
      && r.query.where == Some(Arr(a.query.where.value.entries[0 := (IKey(0), Str("or"))]))
  {
    CombineOperator(b, "and", "or", params);
    Combine(b, "or", params)
  }

  /** Combining under another operator changes only the operator entry of the tree. */
  lemma CombineOperator(b: Builder, op: string, op': string, params: Value)
    ensures Combine(b, op', params).query.where ==
      Some(Arr(Combine(b, op, params).query.where.value.entries[0 := (IKey(0), Str(op'))]))
  {
    var vs := if HasCondition(b.query) then [Str(op), b.query.where.value, params] else [Str(op), params];
    var ws := if HasCondition(b.query) then [Str(op'), b.query.where.value, params] else [Str(op'), params];
    assert Combine(b, op, params).query.where.value.entries == List(vs);
    assert Combine(b, op', params).query.where.value.entries == List(ws);
    assert ws == vs[0 := Str(op')];
    assert List(vs)[0 := (IKey(0), Str(op'))] == List(ws);
  }

  /** Conditions added one after another nest to the left, the first one deepest. */
  lemma AndWhereNests(b: Builder, x: Value, y: Value, z: Value)
    requires Truthy(x)
    ensures AndWhere(AndWhere(Where(b, x), y), z).query.where ==
      Some(Arr(List([Str("and"), Arr(List([Str("and"), x, y])), z])))
  {
  }

  /** On an empty tree `andWhere` does not keep the empty condition as an operand. */
  lemma AndWhereOnEmpty(b: Builder, y: Value)
    ensures AndWhere(Where(b, Arr([])), y).query.where == Some(Arr(List([Str("and"), y])))
  {
  }

  /** `limit($limit)`: stores the value as given (no cast, no check) and nothing else. */
  function Limit(b: Builder, limit: Value): (r: Builder)
    ensures r.query.limit == Some(limit)
    ensures r.dialect == b.dialect && r.query.(limit := b.query.limit) == b.query
  {
    b.(query := b.query.(limit := Some(limit)))
  }
}
