/**
 * BasePDO: the database gateway's helpers that do not talk to a server.
 * Connection set-up (`resolveClass`, `construct`), the error-message
 * lookup, the schema comparison `isTableEqual` and the DROP TABLE text.
 * What a live connection answers (error codes, catalogue rows) comes in
 * as arguments.
 */
module BasePDO {
  import opened Wrappers
  import opened PhpString
  import opened PhpArray
  import opened PhpValue

  /** A column descriptor as `getColumns` returns it: attribute name => value. */
  type Column = Array<Value>

  /** Column name => descriptor, in catalogue order. */
  type ColumnSet = Array<Column>

  // ---------------------------------------------------------------------------
  // Connection set-up
  // ---------------------------------------------------------------------------

  const MySQLClass: string := "\\DB\\MySQLPDO"
  const MSSQLClass: string := "\\DB\\MSSQLPDO"

  /** The DSN scheme => gateway class table of `resolveClass`. */
  const Classes: Array<string> := [
    (SKey("mysql"), MySQLClass),
    (SKey("mssql"), MSSQLClass),
    (SKey("odbc"), MSSQLClass)
  ]

  /** The text before the first ':' of a DSN (all of it when there is none). */
  function Scheme(dsn: string): string {
    Explode(":", dsn)[0]
  }

  /** `resolveClass($dsn)`: the class for the DSN's scheme, MySQL for an unknown scheme. */
  function ResolveClass(dsn: string): (r: string)
    ensures r == MySQLClass || r == MSSQLClass
    ensures r == MSSQLClass <==> Scheme(dsn) == "mssql" || Scheme(dsn) == "odbc"
  {
    ClassesLookup(Scheme(dsn));
    match Get(Classes, ToKey(Scheme(dsn)))
    case Some(c) => c
    case None => MySQLClass
  }

  lemma ClassesLookup(s: string)
    ensures Get(Classes, ToKey(s)) ==
      if s == "mysql" then Some(MySQLClass)
      else if s == "mssql" || s == "odbc" then Some(MSSQLClass)
      else None
  {
    if s == "mysql" || s == "mssql" || s == "odbc" {
      WordKey(s);
    }
    assert Keys(Classes) == [SKey("mysql"), SKey("mssql"), SKey("odbc")];
  }

  /** Only the scheme decides: whatever follows the first ':' is ignored. */
  lemma ResolveClassByScheme(scheme: string, rest: string)
    requires forall k :: 0 <= k < |scheme| ==> scheme[k] != ':'
    ensures ResolveClass(scheme + ":" + rest) == ResolveClass(scheme)
    ensures ResolveClass(scheme + ":" + rest) == MSSQLClass <==> scheme == "mssql" || scheme == "odbc"
  {
    ExplodeHead(":", scheme, rest);
    ExplodeWithout(":", scheme);
  }

  /** The arguments `construct` hands to the chosen class's `create`. */
  datatype Connection = Connection(cls: Value, dsn: Value, username: Value, passwd: Value, options: Array<Value>)

  /** The parameter names `construct` consumes; everything else is passed on as options. */
  predicate IsConnectionKey(k: Key) {
    k == SKey("dsn") || k == SKey("username") || k == SKey("passwd") || k == SKey("class")
  }

  /**
   * `construct($params)`: fails without a DSN; user name and password
   * default to the empty string; the class is given or resolved from the
   * DSN; the four connection keys are removed from the options.
   */
  function Construct(params: Array<Value>): (r: Result<Connection>)
    ensures r.Err? <==> IssetGet(params, SKey("dsn")).None?
    ensures r.Err? ==> r.message == "No DSN specified!"
    ensures r.Ok? ==> Some(r.value.dsn) == IssetGet(params, SKey("dsn"))
    ensures r.Ok? ==> r.value.username == (if IssetGet(params, SKey("username")).Some? then Read(params, SKey("username")) else Str(""))
    ensures r.Ok? ==> r.value.passwd == (if IssetGet(params, SKey("passwd")).Some? then Read(params, SKey("passwd")) else Str(""))
    ensures r.Ok? && IssetGet(params, SKey("class")).None? ==> r.value.cls == Str(ResolveClass(StringOf(r.value.dsn)))
    ensures r.Ok? && IssetGet(params, SKey("class")).Some? ==> r.value.cls == IssetGet(params, SKey("class")).value
    ensures r.Ok? ==> forall k :: IsConnectionKey(k) ==> !HasKey(r.value.options, k)
    ensures r.Ok? ==> forall k :: !IsConnectionKey(k) ==> Get(r.value.options, k) == Get(params, k)
    ensures r.Ok? && Distinct(params) ==> Distinct(r.value.options)
  {
    match IssetGet(params, SKey("dsn"))
    case None => Err("No DSN specified!")
    case Some(dsn) =>
      var username := match IssetGet(params, SKey("username")) case Some(v) => v case None => Str("");
      var passwd := match IssetGet(params, SKey("passwd")) case Some(v) => v case None => Str("");
      var cls := match IssetGet(params, SKey("class")) case Some(v) => v case None => Str(ResolveClass(StringOf(dsn)));
      Ok(Connection(cls, dsn, username, passwd, Options(params)))
  }

  /** `$params` after the four `unset` calls. */
  function Options(params: Array<Value>): (r: Array<Value>)
    ensures forall k :: IsConnectionKey(k) ==> !HasKey(r, k)
    ensures forall k :: !IsConnectionKey(k) ==> Get(r, k) == Get(params, k)
    ensures Distinct(params) ==> Distinct(r)
  {
    var a := Unset(params, SKey("dsn"));
    var b := Unset(a, SKey("username"));
    var c := Unset(b, SKey("passwd"));
    var r := Unset(c, SKey("class"));
    assert !HasKey(r, SKey("passwd")) by {
      assert Get(r, SKey("passwd")) == Get(c, SKey("passwd"));
    }
    assert !HasKey(r, SKey("username")) by {
      assert Get(r, SKey("username")) == Get(c, SKey("username")) == Get(b, SKey("username"));
    }
    assert !HasKey(r, SKey("dsn")) by {
      assert Get(r, SKey("dsn")) == Get(c, SKey("dsn")) == Get(b, SKey("dsn")) == Get(a, SKey("dsn"));
    }
    r
  }

  // ---------------------------------------------------------------------------
  // Error messages
  // ---------------------------------------------------------------------------

  /** What a statement or the connection reports: `errorCode()` and `errorInfo()`. */
  datatype ErrorState = ErrorState(code: Value, info: Array<Value>)

  /** The object has an error worth reporting: a code other than '00000' and a non-empty message. */
  predicate Reports(e: ErrorState) {
    e.code != Str("00000") && Truthy(Read(e.info, IKey(2)))
  }

  /**
   * `getErrorMessage()`: the last statement's message if it reports one,
   * else the connection's, else the empty string.
   */
  function GetErrorMessage(lastStatement: Option<ErrorState>, connection: ErrorState): (r: Value)
    ensures lastStatement.Some? && Reports(lastStatement.value) ==> r == Read(lastStatement.value.info, IKey(2))
    ensures !(lastStatement.Some? && Reports(lastStatement.value)) && Reports(connection) ==> r == Read(connection.info, IKey(2))
    ensures Truthy(r) <==> (lastStatement.Some? && Reports(lastStatement.value)) || Reports(connection)
  {
    var fromStatement :=
      match lastStatement
      case Some(st) =>
        if st.code != Str("00000") then
          var error := st.info;
          if Truthy(Read(error, IKey(2))) then Some(Read(error, IKey(2))) else None
        else None
      case None => None;
    if fromStatement.Some? then fromStatement.value
    else if connection.code != Str("00000") && Truthy(Read(connection.info, IKey(2))) then Read(connection.info, IKey(2))
    else Str("")
  }

  /** A statement that succeeded never hides the connection's error. */
  lemma CleanStatementDefers(st: ErrorState, connection: ErrorState)
    requires st.code == Str("00000")
    ensures GetErrorMessage(Some(st), connection) == GetErrorMessage(None, connection)
  {
  }

  // ---------------------------------------------------------------------------
  // Schema comparison
  // ---------------------------------------------------------------------------

  function StringValues(b: Column): (r: seq<string>)
    ensures |r| == |b|
    ensures forall i :: 0 <= i < |b| ==> r[i] == StringOf(b[i].1)
  {
    seq(|b|, i requires 0 <= i < |b| => StringOf(b[i].1))
  }

  /**
   * `array_diff($a, $b)`: the entries of `a`, keys and order kept, whose
   * value's string form is not the string form of any value of `b`.
   */
  function ArrayDiff(a: Column, b: Column): (r: Column)
    ensures |r| <= |a|
    ensures forall i :: 0 <= i < |r| ==> r[i] in a && StringOf(r[i].1) !in StringValues(b)
    ensures forall i :: 0 <= i < |a| && StringOf(a[i].1) !in StringValues(b) ==> a[i] in r
  {
    if a == [] then []
    else
      var rest := ArrayDiff(a[1..], b);
      assert forall i :: 1 <= i < |a| ==> a[i] == a[1..][i - 1];
      if StringOf(a[0].1) in StringValues(b) then rest else [a[0]] + rest
  }

  /** The stored descriptor `columns[name]` describes `data`: same name present, no value of `data` missing. */
  predicate Describes(columns: ColumnSet, name: Key, data: Column) {
    HasKey(columns, name) && ArrayDiff(data, Get(columns, name).value) == []
  }

  /**
   * `isTableEqual`, given the table's catalogue `tableColumns`: every
   * catalogued column is described in `columns`. Extra entries of `columns`
   * and extra attribute values are not compared.
   */
  function IsTableEqual(tableColumns: ColumnSet, columns: ColumnSet): (r: bool)
    ensures r <==> forall i :: 0 <= i < |tableColumns| ==> Describes(columns, tableColumns[i].0, tableColumns[i].1)
  {
    if tableColumns == [] then true
    else
      assert forall i :: 1 <= i < |tableColumns| ==> tableColumns[i] == tableColumns[1..][i - 1];
      Describes(columns, tableColumns[0].0, tableColumns[0].1) && IsTableEqual(tableColumns[1..], columns)
  }

  lemma DiffSelf(c: Column)
    ensures ArrayDiff(c, c) == []
  {
    DiffCovered(c, c);
  }

  lemma {:induction false} DiffCovered(a: Column, b: Column)
    requires forall i :: 0 <= i < |a| ==> StringOf(a[i].1) in StringValues(b)
    ensures ArrayDiff(a, b) == []
  {
    if a != [] {
      assert forall i :: 0 <= i < |a[1..]| ==> a[1..][i] == a[i + 1];
      DiffCovered(a[1..], b);
    }
  }

  /** A table is equal to its own catalogue. */
  lemma IsTableEqualReflexive(t: ColumnSet)
    requires Distinct(t)
    ensures IsTableEqual(t, t)
  {
    forall i | 0 <= i < |t|
      ensures Describes(t, t[i].0, t[i].1)
    {
      GetMembership(t, t[i].0, t[i].1);
      DiffSelf(t[i].1);
    }
  }

  /** Columns added after the compared ones never turn equality into inequality. */
  lemma IsTableEqualIgnoresExtra(t: ColumnSet, columns: ColumnSet, extra: ColumnSet)
    requires IsTableEqual(t, columns)
    ensures IsTableEqual(t, columns + extra)
  {
    forall i | 0 <= i < |t|
      ensures Describes(columns + extra, t[i].0, t[i].1)
    {
      assert Describes(columns, t[i].0, t[i].1);
      GetPrefix(columns, extra, t[i].0);
    }
  }

  /** A catalogued column that `columns` does not name makes the tables unequal. */
  lemma IsTableEqualMissingColumn(t: ColumnSet, columns: ColumnSet, i: nat)
    requires i < |t| && !HasKey(columns, t[i].0)
    ensures !IsTableEqual(t, columns)
  {
    assert !Describes(columns, t[i].0, t[i].1);
  }

  // ---------------------------------------------------------------------------
  // DROP TABLE
  // ---------------------------------------------------------------------------

  /** `dropTable($tableName, $ifExists)`'s statement; without IF EXISTS two spaces remain. */
  function DropTable(tableName: string, ifExists: bool): (r: string)
    ensures |r| == (if ifExists then 24 else 15) + |tableName|
    ensures ifExists ==> r[..22] == "DROP TABLE IF EXISTS `" && r[22..|r| - 2] == tableName
    ensures !ifExists ==> r[..13] == "DROP TABLE  `" && r[13..|r| - 2] == tableName
    ensures r[|r| - 2..] == "`;"
    ensures r[11] == (if ifExists then 'I' else ' ')
  {
    "DROP TABLE " + (if ifExists then "IF EXISTS" else "") + " `" + tableName + "`;"
  }

  /** The statement text determines both the table and whether IF EXISTS was asked for. */
  lemma DropTableInjective(t1: string, e1: bool, t2: string, e2: bool)
    requires DropTable(t1, e1) == DropTable(t2, e2)
    ensures t1 == t2 && e1 == e2
  {
    var r := DropTable(t1, e1);
    if e1 {
      assert t1 == r[22..|r| - 2];
    } else {
      assert t1 == r[13..|r| - 2];
    }
  }

  // ---------------------------------------------------------------------------
  // Keyed collection of catalogue rows
  // ---------------------------------------------------------------------------

  /**
   * The loop both `getColumns` implementations run: `$columns[name(row)] =
   * describe(row)` for each catalogue row in order.
   */
  function Collect<R>(rows: seq<R>, name: R -> string, describe: R -> Column): (r: ColumnSet)
    ensures Distinct(r)
  {
    GatherDistinctKeys(Entries(rows, name, describe));
    Gather(Entries(rows, name, describe))
  }

  /** Each catalogue row as the entry it writes: its name as a key, its descriptor as the value. */
  function Entries<R>(rows: seq<R>, name: R -> string, describe: R -> Column): (es: seq<(Key, Column)>)
    ensures |es| == |rows|
    ensures forall i :: 0 <= i < |rows| ==> es[i] == (ToKey(name(rows[i])), describe(rows[i]))
  {
    seq(|rows|, i requires 0 <= i < |rows| => (ToKey(name(rows[i])), describe(rows[i])))
  }

  /** The entries assigned one after another into an empty array. */
  function Gather(es: seq<(Key, Column)>): ColumnSet {
    if es == [] then []
    else Assign(Gather(es[..|es| - 1]), es[|es| - 1].0, es[|es| - 1].1)
  }

  /** Assignment keeps the keys distinct. */
  lemma {:induction false} GatherDistinctKeys(es: seq<(Key, Column)>)
    ensures Distinct(Gather(es))
  {
    if es != [] {
      GatherDistinctKeys(es[..|es| - 1]);
    }
  }

  lemma KeysAppend<V>(a: Array<V>, e: (Key, V))
    ensures Keys(a + [e]) == Keys(a) + [e.0]
  {
  }

  /** A key is a key of the result exactly when it is the key of an entry. */
  lemma {:induction false} GatherKeys(es: seq<(Key, Column)>, k: Key)
    ensures HasKey(Gather(es), k) <==> HasKey(es, k)
  {
    if es != [] {
      GatherKeys(es[..|es| - 1], k);
      GatherKeysStep(Gather(es[..|es| - 1]), es, k);
    }
  }

  lemma GatherKeysStep(g: ColumnSet, es: seq<(Key, Column)>, k: Key)
    requires es != []
    requires HasKey(g, k) <==> HasKey(es[..|es| - 1], k)
    ensures HasKey(Assign(g, es[|es| - 1].0, es[|es| - 1].1), k) <==> HasKey(es, k)
  {
    var prefix, last := es[..|es| - 1], es[|es| - 1];
    assert prefix + [last] == es;
    AssignKeys(g, last.0, last.1);
    KeysAppend(prefix, last);
    if !HasKey(g, last.0) {
      KeysAppend(g, last);
    }
  }

  /** Every entry of the result is one of the entries assigned. */
  lemma {:induction false} GatherEntries(es: seq<(Key, Column)>)
    ensures forall j :: 0 <= j < |Gather(es)| ==> Gather(es)[j] in es
  {
    if es != [] {
      var prefix := es[..|es| - 1];
      GatherEntries(prefix);
      GatherEntriesStep(Gather(prefix), es);
    }
  }

  lemma GatherEntriesStep(p: ColumnSet, es: seq<(Key, Column)>)
    requires es != []
    requires forall j :: 0 <= j < |p| ==> p[j] in es[..|es| - 1]
    ensures var r := Assign(p, es[|es| - 1].0, es[|es| - 1].1);
      forall j :: 0 <= j < |r| ==> r[j] in es
  {
    AssignEntries(p, es[|es| - 1].0, es[|es| - 1].1);
  }

  /** An entry is the one looked up under its key unless a later entry has the same key. */
  lemma {:induction false} GatherLastWins(es: seq<(Key, Column)>, i: nat)
    requires i < |es|
    requires forall j :: i < j < |es| ==> es[j].0 != es[i].0
    ensures Get(Gather(es), es[i].0) == Some(es[i].1)
  {
    if i < |es| - 1 {
      var prefix := es[..|es| - 1];
      assert prefix[i] == es[i];
      assert forall j :: i < j < |prefix| ==> prefix[j] == es[j];
      GatherLastWins(prefix, i);
    }
  }

  /** Entries with pairwise different keys are gathered as they are, in order. */
  lemma {:induction false} GatherDistinct(es: seq<(Key, Column)>)
    requires Distinct(es)
    ensures Gather(es) == es
  {
    if es != [] {
      var prefix := es[..|es| - 1];
      var last := es[|es| - 1];
      assert Distinct(prefix);
      GatherDistinct(prefix);
      assert !HasKey(prefix, last.0) by {
        assert forall j :: 0 <= j < |prefix| ==> Keys(prefix)[j] != last.0;
      }
      assert prefix + [last] == es;
    }
  }

  /** Every row's name is a key of the result, and every key is some row's name. */
  lemma CollectKeys<R>(rows: seq<R>, name: R -> string, describe: R -> Column)
    ensures var r := Collect(rows, name, describe);
      && (forall i :: 0 <= i < |rows| ==> HasKey(r, ToKey(name(rows[i]))))
      && (forall j :: 0 <= j < |r| ==> exists i :: 0 <= i < |rows| && ToKey(name(rows[i])) == r[j].0)
  {
    var es := Entries(rows, name, describe);
    var r := Gather(es);
    forall i | 0 <= i < |rows|
      ensures HasKey(r, ToKey(name(rows[i])))
    {
      GatherKeys(es, es[i].0);
      assert Keys(es)[i] == es[i].0;
    }
    forall j | 0 <= j < |r|
      ensures exists i :: 0 <= i < |rows| && ToKey(name(rows[i])) == r[j].0
    {
      GatherKeys(es, r[j].0);
      assert Keys(r)[j] == r[j].0;
      var i := KeyIndex(es, r[j].0);
      assert es[i].0 == ToKey(name(rows[i]));
    }
  }

  /** The position of a key among the entries. */
  lemma KeyIndex(es: seq<(Key, Column)>, k: Key) returns (i: nat)
    requires HasKey(es, k)
    ensures i < |es| && es[i].0 == k
  {
    i := Find(es, k).value;
  }

  /** A property every row's descriptor has, every stored descriptor has. */
  lemma CollectValues<R>(rows: seq<R>, name: R -> string, describe: R -> Column, P: Column -> bool)
    requires forall i :: 0 <= i < |rows| ==> P(describe(rows[i]))
    ensures forall j :: 0 <= j < |Collect(rows, name, describe)| ==> P(Collect(rows, name, describe)[j].1)
  {
    var es := Entries(rows, name, describe);
    GatherEntries(es);
    forall j | 0 <= j < |Gather(es)|
      ensures P(Gather(es)[j].1)
    {
      var i :| 0 <= i < |es| && es[i] == Gather(es)[j];
    }
  }

  /** A row's descriptor is the one stored unless a later row has the same name. */
  lemma CollectLastWins<R>(rows: seq<R>, name: R -> string, describe: R -> Column, i: nat)
    requires i < |rows|
    requires forall j :: i < j < |rows| ==> ToKey(name(rows[j])) != ToKey(name(rows[i]))
    ensures Get(Collect(rows, name, describe), ToKey(name(rows[i]))) == Some(describe(rows[i]))
  {
    GatherLastWins(Entries(rows, name, describe), i);
  }

  /** With pairwise different names the result lists the rows' descriptors in row order. */
  lemma CollectDistinctNames<R>(rows: seq<R>, name: R -> string, describe: R -> Column)
    requires forall i, j :: 0 <= i < j < |rows| ==> ToKey(name(rows[i])) != ToKey(name(rows[j]))
    ensures var r := Collect(rows, name, describe);
      |r| == |rows| && forall i :: 0 <= i < |rows| ==> r[i] == (ToKey(name(rows[i])), describe(rows[i]))
  {
    GatherDistinct(Entries(rows, name, describe));
  }
}
