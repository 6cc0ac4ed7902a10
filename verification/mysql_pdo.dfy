/**
 * MySQLPDO: the MySQL gateway. Reading a table's columns from `SHOW
 * COLUMNS` rows, the CREATE TABLE, DROP TABLE and truncate statements,
 * and the builder the gateway hands out. Executing a statement is not
 * part of this model: the functions give the SQL text that would be run.
 */
module MySQLPDO {
  import opened Wrappers
  import opened PhpString
  import opened PhpArray
  import opened PhpValue
  import opened BaseSQLBuilder
  import BasePDO

  type Column = BasePDO.Column
  type ColumnSet = BasePDO.ColumnSet

  // ---------------------------------------------------------------------------
  // getColumns
  // ---------------------------------------------------------------------------

  /** One row of `SHOW COLUMNS FROM ...`, as fetched. */
  datatype ShowColumnsRow = ShowColumnsRow(
    field: string, columnType: string, nullable: string, key: string, default: Value, extra: string)

  predicate IsParen(c: char) {
    c == '(' || c == ')'
  }

  /**
   * The `size` attribute: the text between the first '(' and the next '('
   * (or the end), with parentheses trimmed from both ends, or `false` when
   * the type has no '('.
   */
  function SizeOf(columnType: string): (r: Value)
    ensures r == Bool(false) <==> !Contains(columnType, "(")
    ensures r.Str? || r == Bool(false)
    ensures r.Str? ==> r.s == [] || (!IsParen(r.s[0]) && !IsParen(r.s[|r.s| - 1]))
  {
    var size := Explode("(", columnType);
    if |size| >= 2 then Str(TrimWith(size[1], IsParen)) else Bool(false)
  }

  /** With a single '(', the size is everything after it, trimmed. */
  lemma SizeAfterParen(base: string, rest: string)
    requires forall k :: 0 <= k < |base| ==> base[k] != '('
    requires forall k :: 0 <= k < |rest| ==> rest[k] != '('
    ensures SizeOf(base + "(" + rest) == Str(TrimWith(rest, IsParen))
  {
    var parts := [base, rest];
    ImplodeExplode("(", parts);
    assert Implode("(", parts[1..]) == rest;
    assert Implode("(", parts) == base + "(" + rest;
  }

  /**
   * Only the piece up to the second '(' counts: `enum('a(b)','c')` has size
   * "'a", whatever follows.
   */
  lemma SizeStopsAtSecondParen(base: string, mid: string, rest: string)
    requires forall k :: 0 <= k < |base| ==> base[k] != '('
    requires forall k :: 0 <= k < |mid| ==> mid[k] != '('
    ensures SizeOf(base + "(" + mid + "(" + rest) == Str(TrimWith(mid, IsParen))
  {
    var s := base + "(" + mid + "(" + rest;
    assert s == base + "(" + (mid + "(" + rest);
    ExplodeHead("(", base, mid + "(" + rest);
    ExplodeHead("(", mid, rest);
  }

  /** `int(11) unsigned` has size "11) unsigned". */
  lemma SizeOfUnsignedExample()
    ensures SizeOf("int(11) unsigned") == Str("11) unsigned")
  {
    assert "int(11) unsigned" == "int" + "(" + "11) unsigned";
    SizeKeepsInnerParen("int", "11) unsigned");
  }

  /** `int(11)` has size "11", `decimal(10,2)` has size "10,2". */
  lemma SizeOfSimpleType(base: string, size: string)
    requires forall k :: 0 <= k < |base| ==> base[k] != '('
    requires forall k :: 0 <= k < |size| ==> !IsParen(size[k])
    ensures SizeOf(base + "(" + size + ")") == Str(size)
  {
    assert base + "(" + size + ")" == base + "(" + (size + ")");
    SizeAfterParen(base, size + ")");
    TrimClosing(size, ')', IsParen);
  }

  /**
   * Only parentheses at the very ends are trimmed, so a modifier after the
   * width stays in the size: `int(11) unsigned` has size "11) unsigned".
   */
  lemma SizeKeepsInnerParen(base: string, rest: string)
    requires forall k :: 0 <= k < |base| ==> base[k] != '('
    requires forall k :: 0 <= k < |rest| ==> rest[k] != '('
    requires rest == [] || (!IsParen(rest[0]) && !IsParen(rest[|rest| - 1]))
    ensures SizeOf(base + "(" + rest) == Str(rest)
  {
    SizeAfterParen(base, rest);
    TrimKeepsClean(rest, IsParen);
  }

  /** The types whose display width `getColumns` drops. */
  const NumericTypes: seq<string> :=
    ["TINYINT", "SMALLINT", "MEDIUMINT", "INT", "INTEGER", "BIGINT", "FLOAT", "DOUBLE", "REAL"]

  /** The upper-cased text before the first '(' of a column type. */
  function BaseType(columnType: string): string {
    ToUpper(Explode("(", columnType)[0])
  }

  /**
   * The `type` attribute: a numeric type is reduced to its lower-case base
   * name (width and any modifier dropped); every other type is kept as fetched.
   */
  function NormalType(columnType: string): (r: string)
    ensures BaseType(columnType) in NumericTypes ==> r == ToLower(BaseType(columnType))
    ensures BaseType(columnType) !in NumericTypes ==> r == columnType
  {
    var t := ToUpper(Explode("(", columnType)[0]);
    if t in NumericTypes then ToLower(t) else columnType
  }

  /** Reading a normalised type again changes nothing. */
  lemma NormalTypeIdempotent(columnType: string)
    ensures NormalType(NormalType(columnType)) == NormalType(columnType)
  {
    var p := Explode("(", columnType)[0];
    var t := ToUpper(p);
    if t in NumericTypes {
      var n := ToLower(t);
      CharNotContained(p, '(');
      assert forall k :: 0 <= k < |n| ==> n[k] == LowerChar(UpperChar(p[k]));
      ExplodeWithout("(", n);
      UpperOfLower(t);
      UpperOfUpper(p);
      assert BaseType(n) == t;
    }
  }

  /** The base type is the upper-cased text before the first '('. */
  lemma BaseTypeOf(base: string, rest: string)
    requires forall k :: 0 <= k < |base| ==> base[k] != '('
    ensures BaseType(base + "(" + rest) == ToUpper(base)
  {
    ExplodeHead("(", base, rest);
  }

  /** `INT(11) unsigned` and `int(11)` both read as "int": width and modifier are dropped. */
  lemma NormalTypeDropsWidth(base: string, rest: string)
    requires forall k :: 0 <= k < |base| ==> base[k] != '('
    requires ToUpper(base) in NumericTypes
    ensures NormalType(base + "(" + rest) == ToLower(base)
  {
    BaseTypeOf(base, rest);
    LowerOfUpper(base);
  }

  /** The descriptor `getColumns` builds from one row. */
  function Describe(row: ShowColumnsRow): (d: Column)
    ensures Distinct(d)
    ensures Keys(d) == [SKey("type"), SKey("size"), SKey("null"), SKey("default"), SKey("primary"), SKey("key"), SKey("extra")]
    ensures d[0].1 == Str(NormalType(row.columnType)) && d[2].1 == Bool(row.nullable == "YES")
    ensures d[1].1 == SizeOf(row.columnType) && d[3].1 == row.default && d[6].1 == Str(row.extra)
    ensures d[4].1 == Bool(row.key == "PRI") && d[5].1 == Bool(Truthy(Str(row.key)))
  {
    Layout(Str(NormalType(row.columnType)), SizeOf(row.columnType), Bool(row.nullable == "YES"), row.default,
      Bool(row.key == "PRI"), Bool(Truthy(Str(row.key))), Str(row.extra))
  }

  /** The descriptor layout: type, size, null, default, primary, key and extra, in that order. */
  function Layout(typ: Value, size: Value, nullable: Value, default: Value, primary: Value, key: Value, extra: Value): (d: Column)
    ensures Distinct(d)
    ensures Keys(d) == [SKey("type"), SKey("size"), SKey("null"), SKey("default"), SKey("primary"), SKey("key"), SKey("extra")]
    ensures d[0].1 == typ && d[1].1 == size && d[2].1 == nullable && d[3].1 == default
    ensures d[4].1 == primary && d[5].1 == key && d[6].1 == extra
  {
    [ (SKey("type"), typ), (SKey("size"), size), (SKey("null"), nullable), (SKey("default"), default),
      (SKey("primary"), primary), (SKey("key"), key), (SKey("extra"), extra) ]
  }

  lemma LayoutPrimary(typ: Value, size: Value, nullable: Value, default: Value, primary: Value, key: Value, extra: Value)
    ensures Read(Layout(typ, size, nullable, default, primary, key, extra), SKey("primary")) == primary
  {
    ReadAt(Layout(typ, size, nullable, default, primary, key, extra), SKey("primary"), 4);
  }

  lemma LayoutKey(typ: Value, size: Value, nullable: Value, default: Value, primary: Value, key: Value, extra: Value)
    ensures Read(Layout(typ, size, nullable, default, primary, key, extra), SKey("key")) == key
  {
    ReadAt(Layout(typ, size, nullable, default, primary, key, extra), SKey("key"), 5);
  }

  function FieldOf(row: ShowColumnsRow): string {
    row.field
  }

  /** `getColumns`, given the rows the server returned: descriptors keyed by field name. */
  function GetColumns(rows: seq<ShowColumnsRow>): (r: ColumnSet)
    ensures Distinct(r)
    ensures forall i :: 0 <= i < |rows| ==> HasKey(r, ToKey(rows[i].field))
  {
    BasePDO.CollectKeys(rows, FieldOf, Describe);
    BasePDO.Collect(rows, FieldOf, Describe)
  }

  /** A field's descriptor is built from its last row; with distinct names, from its only row. */
  lemma GetColumnsDescribes(rows: seq<ShowColumnsRow>, i: nat)
    requires i < |rows|
    requires forall j :: i < j < |rows| ==> ToKey(rows[j].field) != ToKey(rows[i].field)
    ensures Get(GetColumns(rows), ToKey(rows[i].field)) == Some(Describe(rows[i]))
  {
    BasePDO.CollectLastWins(rows, FieldOf, Describe, i);
  }

  /** A primary column always counts as a key column too. */
  lemma PrimaryIsKey(row: ShowColumnsRow)
    ensures Read(Describe(row), SKey("primary")) == Bool(true) ==> Read(Describe(row), SKey("key")) == Bool(true)
  {
    LayoutFlags(Str(NormalType(row.columnType)), SizeOf(row.columnType), Bool(row.nullable == "YES"), row.default, row.key, Str(row.extra));
  }

  lemma LayoutFlags(typ: Value, size: Value, nullable: Value, default: Value, key: string, extra: Value)
    ensures var d := Layout(typ, size, nullable, default, Bool(key == "PRI"), Bool(Truthy(Str(key))), extra);
      Read(d, SKey("primary")) == Bool(true) ==> Read(d, SKey("key")) == Bool(true)
  {
    LayoutPrimary(typ, size, nullable, default, Bool(key == "PRI"), Bool(Truthy(Str(key))), extra);
    LayoutKey(typ, size, nullable, default, Bool(key == "PRI"), Bool(Truthy(Str(key))), extra);
  }

  // ---------------------------------------------------------------------------
  // createTable
  // ---------------------------------------------------------------------------

  predicate IsPrimary(fd: Column) {
    Truthy(Read(fd, SKey("primary")))
  }

  predicate IsKey(fd: Column) {
    Truthy(Read(fd, SKey("key")))
  }

  /** The default part of a column line: a quoted non-empty default, else DEFAULT NULL for a nullable column, else NOT NULL. */
  function DefaultClause(quote: Value -> string, fd: Column): (r: string)
    ensures Truthy(Read(fd, SKey("default"))) ==> r == "DEFAULT " + quote(Read(fd, SKey("default")))
    ensures r == "NOT NULL" <==> !Truthy(Read(fd, SKey("default"))) && !Truthy(Read(fd, SKey("null")))
    ensures !Truthy(Read(fd, SKey("default"))) ==> (r == "DEFAULT NULL" <==> Truthy(Read(fd, SKey("null"))))
  {
    if Truthy(Read(fd, SKey("default"))) then
      var clause := "DEFAULT " + quote(Read(fd, SKey("default")));
      assert clause[0] == 'D';
      clause
    else if Truthy(Read(fd, SKey("null"))) then "DEFAULT NULL"
    else "NOT NULL"
  }

  /** One column line: name, type, default part and extra, separated by spaces. */
  function FieldLine(quote: Value -> string, column: (Key, Column)): (r: string)
    ensures var head := "`" + KeyString(column.0) + "` "; |r| > |head| && r[..|head|] == head
    ensures var tail := " " + StringOf(Read(column.1, SKey("extra"))); |r| > |tail| && r[|r| - |tail|..] == tail
  {
    var head := "`" + KeyString(column.0) + "` ";
    var middle := StringOf(Read(column.1, SKey("type"))) + " " + DefaultClause(quote, column.1);
    var tail := " " + StringOf(Read(column.1, SKey("extra")));
    Affixes(head, middle, tail);
    head + middle + tail
  }

  /** The first and the last part of a three-part text. */
  lemma Affixes(head: string, middle: string, tail: string)
    ensures var s := head + middle + tail; s[..|head|] == head && s[|s| - |tail|..] == tail
  {
  }

  /** The line maker of a connection's `quote`. */
  function LineOf(quote: Value -> string): ((Key, Column)) -> string {
    column => FieldLine(quote, column)
  }

  /** What the loop reads of a column besides its line: its name and its two flags. */
  datatype Mark = Mark(name: Key, primary: bool, key: bool)

  function MarkOf(column: (Key, Column)): Mark {
    Mark(column.0, IsPrimary(column.1), IsKey(column.1))
  }

  /** The marks of the columns, in order. */
  function Marks<C>(mark: C -> Mark, columns: seq<C>): (ms: seq<Mark>)
    ensures |ms| == |columns|
    ensures forall i :: 0 <= i < |columns| ==> ms[i] == mark(columns[i])
  {
    seq(|columns|, i requires 0 <= i < |columns| => mark(columns[i]))
  }

  /** What the loop over the columns collects: the lines, the primary column, the key columns. */
  datatype Scan = Scan(fields: seq<string>, primary: Option<Key>, keys: seq<Key>)

  /** The `foreach` of `createTable`, as it runs over the columns in order. */
  function ScanColumns<C>(line: C -> string, mark: C -> Mark, columns: seq<C>): (r: Scan)
    ensures |r.fields| == |columns|
    ensures |r.keys| <= |columns|
    ensures r.primary.Some? ==> exists i :: 0 <= i < |columns| && mark(columns[i]).primary && mark(columns[i]).name == r.primary.value
    decreases |columns|
  {
    if columns == [] then Scan([], None, [])
    else
      var s := ScanColumns(line, mark, columns[..|columns| - 1]);
      var c := columns[|columns| - 1];
      var m := mark(c);
      Scan(
        s.fields + [line(c)],
        if m.primary then Some(m.name) else s.primary,
        if !m.primary && m.key then s.keys + [m.name] else s.keys)
  }

  /** Reference: one line per column, in column order. */
  function Lines<C>(line: C -> string, columns: seq<C>): (r: seq<string>)
    ensures |r| == |columns|
    ensures forall i :: 0 <= i < |columns| ==> r[i] == line(columns[i])
  {
    if columns == [] then [] else [line(columns[0])] + Lines(line, columns[1..])
  }

  /** Reference: the last column marked primary, if any. */
  function PrimaryColumn(columns: ColumnSet): Option<Key> {
    LastPrimary(Marks(MarkOf, columns))
  }

  function LastPrimary(ms: seq<Mark>): Option<Key> {
    if ms == [] then None
    else match LastPrimary(ms[1..])
      case Some(k) => Some(k)
      case None => if ms[0].primary then Some(ms[0].name) else None
  }

  /** Reference: the names of the key columns that are not primary, in column order. */
  function KeyColumns(columns: ColumnSet): seq<Key> {
    KeyNames(Marks(MarkOf, columns))
  }

  function KeyNames(ms: seq<Mark>): seq<Key> {
    if ms == [] then []
    else (if !ms[0].primary && ms[0].key then [ms[0].name] else []) + KeyNames(ms[1..])
  }

  /** The last primary mark of joined marks: the second part's, if it has one. */
  lemma {:induction false} LastPrimaryAppend(a: seq<Mark>, b: seq<Mark>)
    ensures LastPrimary(a + b) == if LastPrimary(b).Some? then LastPrimary(b) else LastPrimary(a)
  {
    if a != [] {
      LastPrimaryAppend(a[1..], b);
      assert (a + b)[1..] == a[1..] + b;
    } else {
      assert a + b == b;
    }
  }

  /** The key names of joined marks: the two parts' names, joined. */
  lemma {:induction false} KeyNamesAppend(a: seq<Mark>, b: seq<Mark>)
    ensures KeyNames(a + b) == KeyNames(a) + KeyNames(b)
  {
    if a != [] {
      KeyNamesAppend(a[1..], b);
      assert (a + b)[1..] == a[1..] + b;
    } else {
      assert a + b == b;
    }
  }

  /** The marks of all columns but the last, then the last one's. */
  lemma MarksLast<C>(mark: C -> Mark, columns: seq<C>)
    requires columns != []
    ensures Marks(mark, columns) == Marks(mark, columns[..|columns| - 1]) + [mark(columns[|columns| - 1])]
  {
  }

  lemma ScanFields<C>(line: C -> string, mark: C -> Mark, columns: seq<C>)
    ensures ScanColumns(line, mark, columns).fields == Lines(line, columns)
  {
    ScanFieldsAll(line, mark, columns, ScanColumns(line, mark, columns).fields);
  }

  /** The lines the loop collects are the column lines in order, by index. */
  lemma {:induction false} ScanFieldsAll<C>(line: C -> string, mark: C -> Mark, columns: seq<C>, f: seq<string>)
    requires f == ScanColumns(line, mark, columns).fields
    decreases |columns|
    ensures |f| == |columns| && forall i :: 0 <= i < |columns| ==> f[i] == line(columns[i])
  {
    if columns != [] {
      var a := columns[..|columns| - 1];
      ScanFieldsAll(line, mark, a, ScanColumns(line, mark, a).fields);
      assert forall i :: 0 <= i < |a| ==> columns[i] == a[i];
    }
  }

  lemma {:induction false} ScanPrimary<C>(line: C -> string, mark: C -> Mark, columns: seq<C>)
    decreases |columns|
    ensures ScanColumns(line, mark, columns).primary == LastPrimary(Marks(mark, columns))
  {
    if columns != [] {
      ScanPrimary(line, mark, columns[..|columns| - 1]);
      MarksLast(mark, columns);
      LastPrimaryAppend(Marks(mark, columns[..|columns| - 1]), [mark(columns[|columns| - 1])]);
    }
  }

  lemma {:induction false} ScanKeys<C>(line: C -> string, mark: C -> Mark, columns: seq<C>)
    decreases |columns|
    ensures ScanColumns(line, mark, columns).keys == KeyNames(Marks(mark, columns))
  {
    if columns != [] {
      ScanKeys(line, mark, columns[..|columns| - 1]);
      MarksLast(mark, columns);
      KeyNamesAppend(Marks(mark, columns[..|columns| - 1]), [mark(columns[|columns| - 1])]);
    }
  }

  /** The loop collects exactly the reference lines, primary column and key columns. */
  lemma ScanMatches(line: ((Key, Column)) -> string, columns: ColumnSet)
    ensures ScanColumns(line, MarkOf, columns) == Scan(Lines(line, columns), PrimaryColumn(columns), KeyColumns(columns))
  {
    ScanFields(line, MarkOf, columns);
    ScanPrimary(line, MarkOf, columns);
    ScanKeys(line, MarkOf, columns);
  }

  /** The last primary mark is one with no primary mark after it: both directions. */
  lemma {:induction false} LastPrimaryIs(ms: seq<Mark>, k: Key)
    ensures LastPrimary(ms) == Some(k) <==>
      exists i :: 0 <= i < |ms| && ms[i].name == k && ms[i].primary && forall j :: i < j < |ms| ==> !ms[j].primary
  {
    if ms != [] {
      var tail := ms[1..];
      LastPrimaryIs(tail, k);
      assert forall j :: 1 <= j < |ms| ==> ms[j] == tail[j - 1];
      if LastPrimary(ms) == Some(k) {
        if LastPrimary(tail) == Some(k) {
          var i :| 0 <= i < |tail| && tail[i].name == k && tail[i].primary && forall j :: i < j < |tail| ==> !tail[j].primary;
          assert ms[i + 1] == tail[i];
        } else {
          LastPrimaryNone(tail);
        }
      }
      if exists i :: 0 <= i < |ms| && ms[i].name == k && ms[i].primary && forall j :: i < j < |ms| ==> !ms[j].primary {
        var i :| 0 <= i < |ms| && ms[i].name == k && ms[i].primary && forall j :: i < j < |ms| ==> !ms[j].primary;
        if i > 0 {
          assert tail[i - 1] == ms[i];
        } else {
          LastPrimaryNone(tail);
        }
      }
    }
  }

  /** No last primary mark exactly when no mark is primary. */
  lemma {:induction false} LastPrimaryNone(ms: seq<Mark>)
    ensures LastPrimary(ms) == None <==> forall i :: 0 <= i < |ms| ==> !ms[i].primary
  {
    if ms != [] {
      LastPrimaryNone(ms[1..]);
      assert forall j :: 1 <= j < |ms| ==> ms[j] == ms[1..][j - 1];
    }
  }

  /** A name is a key name exactly when some non-primary mark of that name is a key. */
  lemma {:induction false} KeyNamesMembers(ms: seq<Mark>, k: Key)
    ensures k in KeyNames(ms) <==> exists i :: 0 <= i < |ms| && ms[i].name == k && !ms[i].primary && ms[i].key
  {
    if ms != [] {
      KeyNamesMembers(ms[1..], k);
      assert forall j :: 1 <= j < |ms| ==> ms[j] == ms[1..][j - 1];
      if exists i :: 0 <= i < |ms| && ms[i].name == k && !ms[i].primary && ms[i].key {
        var i :| 0 <= i < |ms| && ms[i].name == k && !ms[i].primary && ms[i].key;
        if i > 0 {
          assert ms[1..][i - 1] == ms[i];
        }
      }
    }
  }

  /** The primary column is the last column marked primary: both directions. */
  lemma PrimaryColumnIsLast(columns: ColumnSet, k: Key)
    ensures PrimaryColumn(columns) == Some(k) <==>
      exists i :: 0 <= i < |columns| && columns[i].0 == k && IsPrimary(columns[i].1)
        && forall j :: i < j < |columns| ==> !IsPrimary(columns[j].1)
  {
    var ms := Marks(MarkOf, columns);
    LastPrimaryIs(ms, k);
    if exists i :: 0 <= i < |columns| && columns[i].0 == k && IsPrimary(columns[i].1)
        && forall j :: i < j < |columns| ==> !IsPrimary(columns[j].1)
    {
      var i :| 0 <= i < |columns| && columns[i].0 == k && IsPrimary(columns[i].1)
        && forall j :: i < j < |columns| ==> !IsPrimary(columns[j].1);
      assert ms[i].name == k && ms[i].primary && forall j :: i < j < |ms| ==> !ms[j].primary;
    }
  }

  /** No primary column exactly when no column is marked primary. */
  lemma PrimaryColumnNone(columns: ColumnSet)
    ensures PrimaryColumn(columns) == None <==> forall i :: 0 <= i < |columns| ==> !IsPrimary(columns[i].1)
  {
    LastPrimaryNone(Marks(MarkOf, columns));
  }

  /** A name is in the KEY list exactly when some column of that name is a key and not primary. */
  lemma KeyColumnsMembers(columns: ColumnSet, k: Key)
    ensures k in KeyColumns(columns) <==>
      exists i :: 0 <= i < |columns| && columns[i].0 == k && !IsPrimary(columns[i].1) && IsKey(columns[i].1)
  {
    var ms := Marks(MarkOf, columns);
    KeyNamesMembers(ms, k);
    if exists i :: 0 <= i < |columns| && columns[i].0 == k && !IsPrimary(columns[i].1) && IsKey(columns[i].1) {
      var i :| 0 <= i < |columns| && columns[i].0 == k && !IsPrimary(columns[i].1) && IsKey(columns[i].1);
      assert ms[i].name == k && !ms[i].primary && ms[i].key;
    }
  }

  function Header(tableName: string, ifNotExists: bool): string {
    "CREATE TABLE " + (if ifNotExists then "IF NOT EXISTS" else "") + " `" + tableName + "` (\n"
  }

  const Footer: string := ") ENGINE=InnoDB DEFAULT CHARSET=utf8 AUTO_INCREMENT=0;"

  function PrimaryClause(primary: Option<Key>): string {
    match primary
    case None => ""
    case Some(k) => ",PRIMARY KEY (`" + KeyString(k) + "`)\n"
  }

  function KeyClauses(keys: seq<Key>): string {
    if keys == [] then "" else ", KEY `" + KeyString(keys[0]) + "` (`" + KeyString(keys[0]) + "`)" + KeyClauses(keys[1..])
  }

  /**
   * `createTable($tableName, $columns, $ifNotExists)`: the column lines
   * joined by ",\n", then a PRIMARY KEY on the last primary column, then a
   * KEY for each non-primary key column in order, then the engine clause.
   */
  function CreateTable(quote: Value -> string, tableName: string, columns: ColumnSet, ifNotExists: bool): (r: string)
    ensures r == Header(tableName, ifNotExists) + Implode(",\n", Lines(LineOf(quote), columns)) + "\n"
      + PrimaryClause(PrimaryColumn(columns)) + KeyClauses(KeyColumns(columns)) + Footer
  {
    var scan := ScanColumns(LineOf(quote), MarkOf, columns);
    ScanMatches(LineOf(quote), columns);
    // The `!empty($keys)` guard adds nothing: no keys give no clauses either way.
    Header(tableName, ifNotExists) + Implode(",\n", scan.fields) + "\n" + PrimaryClause(scan.primary)
      + (if |scan.keys| > 0 then KeyClauses(scan.keys) else "") + Footer
  }

  // ---------------------------------------------------------------------------
  // dropTable, truncateTable, getSQLBuilder
  // ---------------------------------------------------------------------------

  /** `dropTable`: the override renders exactly the base class's statement. */
  function DropTable(tableName: string, ifExists: bool): (r: string)
    ensures r == BasePDO.DropTable(tableName, ifExists)
  {
    "DROP TABLE " + (if ifExists then "IF EXISTS" else "") + " `" + tableName + "`;"
  }

  /** `truncateTable`: a DELETE of every row, the table name between backticks. */
  function TruncateTable(tableName: string): (r: string)
    ensures |r| == 25 + |tableName|
    ensures r[..13] == "DELETE FROM `" && r[13..|r| - 12] == tableName && r[|r| - 12..] == "` WHERE 1=1;"
  {
    "DELETE FROM `" + tableName + "` WHERE 1=1;"
  }

  /** `getSQLBuilder()`: an empty MySQL builder (with `start()` creating the called class). */
  function GetSQLBuilder(): (b: Builder)
    ensures b.dialect == MySQL && EscapeChars(b.dialect) == ("`", "`")
    ensures b.query == EmptyQuery
  {
    StartStatic(MySQL)
  }
}
