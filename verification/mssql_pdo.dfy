/**
 * MSSQLPDO: the SQL Server gateway. Column descriptors built from
 * INFORMATION_SCHEMA.COLUMNS rows, the truncate statement, the builder
 * it hands out, and the two methods the class leaves as empty stubs.
 */
module MSSQLPDO {
  import opened Wrappers
  import opened PhpString
  import opened PhpArray
  import opened PhpValue
  import opened BaseSQLBuilder
  import BasePDO
  import MySQLPDO

  type Column = BasePDO.Column
  type ColumnSet = BasePDO.ColumnSet

  /** One row of `INFORMATION_SCHEMA.COLUMNS`, as fetched (only the attributes `getColumns` reads). */
  datatype InformationSchemaRow = InformationSchemaRow(
    columnName: string, columnDefault: Value, dataType: Value,
    charMaxLength: Value, numericPrecision: Value, numericScale: Value)

  /**
   * The `length` attribute: the character maximum length when it is
   * non-empty, else the numeric precision when the scale is empty, else
   * the text "precision, scale".
   */
  function Length(info: InformationSchemaRow): (r: Value)
    ensures Truthy(info.charMaxLength) ==> r == info.charMaxLength
    ensures !Truthy(info.charMaxLength) && !Truthy(info.numericScale) ==> r == info.numericPrecision
    ensures !Truthy(info.charMaxLength) && Truthy(info.numericScale) ==>
      r == Str(StringOf(info.numericPrecision) + ", " + StringOf(info.numericScale))
  {
    if Truthy(info.charMaxLength) then info.charMaxLength
    else if !Truthy(info.numericScale) then info.numericPrecision
    else Str(StringOf(info.numericPrecision) + ", " + StringOf(info.numericScale))
  }

  /** Reads a length text of the shape "precision, scale" back as its two numbers. */
  function ParseLength(text: string): Option<(nat, nat)> {
    var parts := Explode(",", text);
    if |parts| == 2 && IsCanonicalNat(parts[0]) && |parts[1]| >= 1 && parts[1][0] == ' ' && IsCanonicalNat(parts[1][1..]) then
      Some((ParseNat(parts[0]), ParseNat(parts[1][1..])))
    else None
  }

  /** A decimal column's length carries its precision and scale, and reads back as the two numbers, precision first. */
  lemma DecimalLengthReadsBack(info: InformationSchemaRow, precision: nat, scale: nat)
    requires !Truthy(info.charMaxLength)
    requires info.numericPrecision == Int(precision) && info.numericScale == Int(scale) && scale > 0
    ensures Length(info).Str?
    ensures ParseLength(Length(info).s) == Some((precision, scale))
  {
    var p, q := NatToString(precision), NatToString(scale);
    ParseNatToString(precision);
    ParseNatToString(scale);
    DigitsHaveNoComma(p);
    DigitsHaveNoComma(q);
    ExplodePair(p, q);
    assert Length(info).s == p + ", " + q;
    assert (" " + q)[1..] == q;
  }

  /** The descriptor `getColumns` builds from one row: default, type and length only. */
  function Describe(info: InformationSchemaRow): (d: Column)
    ensures Distinct(d)
    ensures Keys(d) == [SKey("default"), SKey("type"), SKey("length")]
    ensures d[0].1 == info.columnDefault && d[1].1 == info.dataType && d[2].1 == Length(info)
  {
    [ (SKey("default"), info.columnDefault),
      (SKey("type"), info.dataType),
      (SKey("length"), Length(info)) ]
  }

  function NameOf(info: InformationSchemaRow): string {
    info.columnName
  }

  /** `getColumns`, given the rows the catalogue returned: descriptors keyed by column name. */
  function GetColumns(rows: seq<InformationSchemaRow>): (r: ColumnSet)
    ensures Distinct(r)
    ensures forall i :: 0 <= i < |rows| ==> HasKey(r, ToKey(rows[i].columnName))
  {
    BasePDO.CollectKeys(rows, NameOf, Describe);
    BasePDO.Collect(rows, NameOf, Describe)
  }

  /** A column's descriptor is built from its last row. */
  lemma GetColumnsDescribes(rows: seq<InformationSchemaRow>, i: nat)
    requires i < |rows|
    requires forall j :: i < j < |rows| ==> ToKey(rows[j].columnName) != ToKey(rows[i].columnName)
    ensures Get(GetColumns(rows), ToKey(rows[i].columnName)) == Some(Describe(rows[i]))
  {
    BasePDO.CollectLastWins(rows, NameOf, Describe, i);
  }

  /** The descriptor has no null, primary or key attribute: all three read as null. */
  lemma DescribeHasNoFlags(info: InformationSchemaRow)
    ensures Read(Describe(info), SKey("null")) == Null
    ensures Read(Describe(info), SKey("primary")) == Null
    ensures Read(Describe(info), SKey("key")) == Null
  {
    var d := Describe(info);
    assert !HasKey(d, SKey("null")) && !HasKey(d, SKey("primary")) && !HasKey(d, SKey("key"));
  }

  /** A descriptor that MySQL's `createTable` renders without any key or NULL default. */
  predicate Unflagged(fd: Column) {
    !MySQLPDO.IsPrimary(fd) && !MySQLPDO.IsKey(fd) && !Truthy(Read(fd, SKey("null")))
  }

  /**
   * Columns read from SQL Server and created in MySQL get no PRIMARY KEY,
   * no KEY clause, and NOT NULL unless they carry a non-empty default.
   */
  lemma CopiedColumnsHaveNoKeys(quote: Value -> string, rows: seq<InformationSchemaRow>)
    ensures MySQLPDO.PrimaryColumn(GetColumns(rows)) == None
    ensures MySQLPDO.KeyColumns(GetColumns(rows)) == []
    ensures forall i :: 0 <= i < |GetColumns(rows)| ==>
      var fd := GetColumns(rows)[i].1;
      MySQLPDO.DefaultClause(quote, fd) == if Truthy(Read(fd, SKey("default"))) then "DEFAULT " + quote(Read(fd, SKey("default"))) else "NOT NULL"
  {
    var r := GetColumns(rows);
    forall i | 0 <= i < |rows|
      ensures Unflagged(Describe(rows[i]))
    {
      DescribeHasNoFlags(rows[i]);
    }
    BasePDO.CollectValues(rows, NameOf, Describe, Unflagged);
    MySQLPDO.PrimaryColumnNone(r);
    NoKeyColumns(r);
  }

  lemma NoKeyColumns(columns: ColumnSet)
    requires forall i :: 0 <= i < |columns| ==> Unflagged(columns[i].1)
    ensures MySQLPDO.KeyColumns(columns) == []
  {
    var keys := MySQLPDO.KeyColumns(columns);
    if keys != [] {
      MySQLPDO.KeyColumnsMembers(columns, keys[0]);
      assert false;
    }
  }

  /** `isTableExists`: an empty stub, so it returns null, which reads as "no such table". */
  function IsTableExists(tableName: string): (r: Value)
    ensures !Truthy(r)
  {
    Null
  }

  /** `createTable`: an empty stub returning null; no statement is produced. */
  function CreateTable(tableName: string, columns: ColumnSet, ifNotExists: bool): (r: Value)
    ensures !Truthy(r)
  {
    Null
  }

  /** `truncateTable`: a DELETE with a stray TABLE keyword, the name between backticks. */
  function TruncateTable(tableName: string): (r: string)
    ensures |r| == 31 + |tableName|
    ensures r[..19] == "DELETE FROM TABLE `" && r[19..|r| - 12] == tableName && r[|r| - 12..] == "` WHERE 1=1;"
  {
    "DELETE FROM TABLE `" + tableName + "` WHERE 1=1;"
  }

  /** The statement differs from MySQL's by the word TABLE after FROM, and never coincides with it. */
  lemma TruncateDiffersFromMySQL(t: string, u: string)
    ensures TruncateTable(t)[..12] == MySQLPDO.TruncateTable(u)[..12]
    ensures TruncateTable(t) != MySQLPDO.TruncateTable(u)
  {
    var a := TruncateTable(t);
    var b := MySQLPDO.TruncateTable(u);
    assert a[12] == 'T' && b[12] == '`';
  }

  /** `getSQLBuilder()`: an empty SQL Server builder (with `start()` creating the called class). */
  function GetSQLBuilder(): (b: Builder)
    ensures b.dialect == MSSQL && EscapeChars(b.dialect) == ("]", "[")
    ensures b.query == EmptyQuery
  {
    StartStatic(MSSQL)
  }
}
