# SQLBuilder and table transfer, modelled in Dafny

This project models the core of the PHP library SQLBuilder. The library has two parts.

- **Query builder** (`src/SQLBuilder`): a fluent builder that collects the parts of a SELECT.
  - The parts are the field list, table, joins, a nested where-tree, limit, offset, group and order.
  - MySQL and MSSQL subclasses render the limit. MySQL appends `LIMIT offset, count`. MSSQL puts `TOP n` in front of the select list.
  - `BaseExpression` wraps raw SQL so that it is not escaped.
- **Database layer** (`src/DB`): a PDO subclass per server and the `Transfer` class.
  - The PDO subclasses build DDL text and describe tables as column-descriptor arrays.
  - `Transfer` copies tables from one connection to another, with several pieces of logic:
    - an "exists action" policy (rewrite, rewriteOrClear, skip, stop, append);
    - rules that rename, keep or drop columns (`fields`) and select or retype columns by type (`types`);
    - a column map that says where each source field goes in each inserted row;
    - paged reading of the source, 100 rows at a time.

## How PHP is represented

**PHP arrays** are ordered sequences of `(Key, value)` pairs (module `PhpArray`).

- A key is `IKey(int)` or `SKey(string)`.
- `ToKey` is PHP's key cast: a canonical decimal string becomes an integer key.
- Lookup, assignment, `unset`, `array_merge`, `array_reverse` and `in_array` are written out over that representation. The same goes for `isset` on an entry, which treats `null` as unset.

**PHP values** are `Null | Bool | Int | Str | Arr | Expr` (module `PhpValue`).

- `Expr` is a `BaseExpression` object.
- The model also defines truthiness and string conversion.
- `strtolower`, `strtoupper`, `trim`, `explode`, `implode` and `strstr` are modelled in `PhpString`.

**Everything the library does not compute itself is a parameter.** This includes:

- the servers (table catalogue, rows of a query, result of an insert);
- user callbacks (`fields` callables and `handler`);
- the connection's `quote`;
- the parent-class `getSQL`/`genSelect`, which are not among the source files.

**The target database** in `Transfer.copy` is an abstract state `S` with functions for:

- existence, equality, drop, create, truncate;
- an upsert that gives the new state, or the message `execute` throws when the statement cannot be prepared or executed.

**The source database** is a record of functions. It gives:

- the table list and column descriptors;
- a query builder and the rows a query returns.

A page of the copy loop is the window `rows[offset .. offset + 100]` of those rows.

**Where the code and its intent differ**, the as-written behaviour is a member of its own, and so is the corrected one (see "## Findings").

- `TransferColumns.ProcessColumnsWith` and `TransferCopy.Copy` take a `Reading` switch.
  - `AsWritten` follows the code line by line.
  - `Intended` applies the corrections.
- Both readings are proved about.
- The rest of the model uses the corrected reading: `TransferColumns.ProcessColumns` and `TransferCopy.Copy(Intended, …)`.

## Model

| member | source | states |
|---|---|---|
| BaseExpression.New | src/SQLBuilder/BaseExpression.php:35-37 | wrapping a value gives an expression whose text is the value's string form |
| BaseExpression.ToString | src/SQLBuilder/BaseExpression.php:43-45 | converting an expression to text yields the same text PHP's string conversion gives |
| BaseExpression.C | src/SQLBuilder/BaseExpression.php:52-54 | the static factory builds the same expression as the constructor, with the value's text |
| BaseExpression.StringRoundTrip | src/SQLBuilder/BaseExpression.php:35-45 | wrapping a string and converting back returns the string |
| BaseExpression.ExpressionRoundTrip | src/SQLBuilder/BaseExpression.php:35-45 | re-wrapping an expression's text gives back the same expression |
| BaseExpression.RewrapIsIdentity | src/SQLBuilder/BaseExpression.php:35-37 | wrapping an expression again changes nothing |
| BaseSQLBuilder.EscapeChars | src/SQLBuilder/BaseSQLBuilder.php:58-63 | the base builder has empty escape characters; MySQL uses backticks on both sides (MySQLBuilder.php:19-24); MSSQL's front character is `]` and its back character is `[` (MSSQLBuilder.php:20-24) |
| BaseSQLBuilder.StartQuery | src/SQLBuilder/BaseSQLBuilder.php:69-73 | a restarted query keeps the dialect and has no select, table, joins, where, limit, offset, group or order |
| BaseSQLBuilder.Start | src/SQLBuilder/BaseSQLBuilder.php:79-83 | `start()` yields an empty query of the base class, whichever subclass it is called through |
| BaseSQLBuilder.StartLosesDialect | src/SQLBuilder/BaseSQLBuilder.php:79-83 | called through MySQL or MSSQL, `start()` returns a builder of another dialect with empty escape characters |
| BaseSQLBuilder.StartStatic | src/SQLBuilder/BaseSQLBuilder.php:79-83 | the intended `new static`: the empty builder has the dialect and escape characters of the class it is called through |
| BaseSQLBuilder.FieldList | src/SQLBuilder/BaseSQLBuilder.php:91-96 | an array is stored as given; a string is split on the delimiter and each part trimmed; the split parts join back to the string; an empty delimiter is an error |
| BaseSQLBuilder.Select | src/SQLBuilder/BaseSQLBuilder.php:91-96 | `select` fails exactly when the field list does; otherwise only the select part changes |
| BaseSQLBuilder.Group | src/SQLBuilder/BaseSQLBuilder.php:265-269 | `group` stores the field list in the group part and changes nothing else |
| BaseSQLBuilder.Order | src/SQLBuilder/BaseSQLBuilder.php:277-281 | `order` stores the field list in the order part and changes nothing else |
| BaseSQLBuilder.SelectTextIsList | src/SQLBuilder/BaseSQLBuilder.php:91-96 | `select('a,b')` and `select(['a','b'])` store the same list when the names are trimmed and free of the delimiter |
| BaseSQLBuilder.SelectSingleName | test/SQLTest.php:9-11 | `select('a')` equals `select(['a'])` |
| BaseSQLBuilder.AliasOrNull | src/SQLBuilder/BaseSQLBuilder.php:119 | a falsy alias becomes null; a truthy one is kept |
| BaseSQLBuilder.GetTable | src/SQLBuilder/BaseSQLBuilder.php:106-120 | an explicit alias is used as given, or null when falsy; without one, `"t a"` splits at the first space, `[t, a]` reads entries 0 and 1, and any other value is the table itself; an expression in array position is an error |
| BaseSQLBuilder.GetTableSpaced | src/SQLBuilder/BaseSQLBuilder.php:108-111 | `"table alias"` without an explicit alias is table `table` with alias `alias` |
| BaseSQLBuilder.GetTableListed | src/SQLBuilder/BaseSQLBuilder.php:112-116 | `[table, alias]` is that table with that alias |
| BaseSQLBuilder.GetTableKeyedTruncates | src/SQLBuilder/BaseSQLBuilder.php:115-116 | `['table' => name]` first yields the string `name`, and `isset($tableName[0])` then picks its first character as the table |
| BaseSQLBuilder.From | src/SQLBuilder/BaseSQLBuilder.php:129-132 | `from` fails exactly when the table reference does and otherwise sets only the table part |
| BaseSQLBuilder.FromName | src/SQLBuilder/BaseSQLBuilder.php:129-132 | a plain table name is stored as is, with the alias or null |
| BaseSQLBuilder.Join | src/SQLBuilder/BaseSQLBuilder.php:143-154 | `join` appends one clause with the table, alias, condition and kind, after the existing joins |
| BaseSQLBuilder.InnerJoin | src/SQLBuilder/BaseSQLBuilder.php:165-167 | `innerJoin` adds one join of kind `inner` |
| BaseSQLBuilder.LeftJoin | src/SQLBuilder/BaseSQLBuilder.php:178-180 | `leftJoin` adds one join of the default kind `left` |
| BaseSQLBuilder.Where | src/SQLBuilder/BaseSQLBuilder.php:206-209 | `where` replaces the condition tree and nothing else |
| BaseSQLBuilder.Combine | src/SQLBuilder/BaseSQLBuilder.php:217-247 | combining nests a non-empty tree as `[op, tree, new]` and starts `[op, new]` otherwise; nothing else changes |
| BaseSQLBuilder.AndWhere | src/SQLBuilder/BaseSQLBuilder.php:217-228 | `andWhere` gives `[and, old, new]` when a condition exists and `[and, new]` when none does |
| BaseSQLBuilder.OrWhere | src/SQLBuilder/BaseSQLBuilder.php:236-247 | `orWhere` builds the tree `andWhere` would build, with `or` in place of `and`, and changes nothing else |
| BaseSQLBuilder.CombineOperator | src/SQLBuilder/BaseSQLBuilder.php:217-247 | the two combinators differ only in the operator entry of the tree |
| BaseSQLBuilder.AndWhereNests | src/SQLBuilder/BaseSQLBuilder.php:217-228 | two `andWhere` calls after `where(x)` build `[and, [and, x, y], z]` |
| BaseSQLBuilder.AndWhereOnEmpty | src/SQLBuilder/BaseSQLBuilder.php:217-228 | `andWhere` after an empty `where([])` starts a fresh `[and, y]` |
| BaseSQLBuilder.Limit | src/SQLBuilder/BaseSQLBuilder.php:254-257 | `limit` sets only the limit part |
| MySQLBuilder.GenLimitation | src/SQLBuilder/MySQLBuilder.php:30-35 | no limit gives no text; a limit gives a `LIMIT ` line ending in a newline; a limit without an offset renders the limit alone |
| MySQLBuilder.OffsetNeedsLimit | src/SQLBuilder/MySQLBuilder.php:30-35 | an offset without a limit is dropped from the SQL |
| MySQLBuilder.GetSQL | src/SQLBuilder/MySQLBuilder.php:37-39 | the SQL is the parent's SQL followed by exactly the limitation text |
| MySQLBuilder.RenderedLimits | src/SQLBuilder/MySQLBuilder.php:30-35 | with numeric limit and offset the line is `LIMIT offset, count`, or `LIMIT count` without an offset |
| MySQLBuilder.LimitationRoundTrip | src/SQLBuilder/MySQLBuilder.php:30-35 | the rendered LIMIT line parses back to the offset and count it was made from |
| MySQLBuilder.ParseLimitationRenders | src/SQLBuilder/MySQLBuilder.php:30-35 | every well-formed LIMIT line is the rendering of the numbers it parses to |
| MSSQLBuilder.GenSelect | src/SQLBuilder/MSSQLBuilder.php:30-32 | with a limit, the select list is prefixed by ` TOP n `; without one, it is the parent's select list |
| MSSQLBuilder.TopIgnoresOffset | src/SQLBuilder/MSSQLBuilder.php:30-32 | the offset has no effect on the TOP prefix |
| MSSQLBuilder.TopRoundTrip | src/SQLBuilder/MSSQLBuilder.php:30-32 | the TOP prefix parses back to the limit and the parent's select list |
| BasePDO.ResolveClass | src/DB/BasePDO.php:55-65 | `mssql` and `odbc` DSNs resolve to the MSSQL class; every other scheme resolves to MySQL |
| BasePDO.ResolveClassByScheme | src/DB/BasePDO.php:55-65 | only the part before the first colon decides the class |
| BasePDO.Construct | src/DB/BasePDO.php:67-83 | a missing DSN is the error `No DSN specified!`; username and password default to empty; an explicit `class` parameter is used as given and otherwise the class is resolved from the DSN; the connection keys are removed from the options and every other entry is kept |
| BasePDO.Options | src/DB/BasePDO.php:77-80 | the options are the parameters without the four connection keys (`dsn`, `username`, `passwd`, `class`), with every other entry unchanged |
| BasePDO.GetErrorMessage | src/DB/BasePDO.php:109-125 | the last statement's message wins when it reports an error, then the connection's; the result is non-empty exactly when one of them reports |
| BasePDO.CleanStatementDefers | src/DB/BasePDO.php:110-112 | a statement with code `00000` is ignored in favour of the connection |
| BasePDO.ArrayDiff | src/DB/BasePDO.php:157 | `array_diff` keeps exactly the entries whose string value does not occur among the other array's values |
| BasePDO.IsTableEqual | src/DB/BasePDO.php:153-162 | a table equals the columns when each of its columns is present in them and every one of its attribute values occurs in that column's values |
| BasePDO.IsTableEqualReflexive | src/DB/BasePDO.php:153-162 | a table with distinct column names equals itself |
| BasePDO.IsTableEqualIgnoresExtra | src/DB/BasePDO.php:153-162 | extra columns on the requested side never break equality |
| BasePDO.IsTableEqualMissingColumn | src/DB/BasePDO.php:153-162 | a table column missing from the requested columns makes the tables unequal |
| BasePDO.DropTable | src/DB/BasePDO.php:171-175 | the statement is `DROP TABLE IF EXISTS` or `DROP TABLE ` plus a space, then the backticked name |
| BasePDO.DropTableInjective | src/DB/BasePDO.php:171-175 | different tables or flags never give the same statement |
| BasePDO.Collect | src/DB/MySQLPDO.php:64-72 | the `$columns[$name] = …` loop builds an array with distinct keys |
| BasePDO.CollectKeys | src/DB/MySQLPDO.php:64-72 | every fetched name is a key, and every key comes from a fetched name |
| BasePDO.CollectValues | src/DB/MySQLPDO.php:64-72 | any property every descriptor has holds of every collected entry |
| BasePDO.CollectLastWins | src/DB/MySQLPDO.php:64-72 | a name's entry is the descriptor of its last row |
| BasePDO.CollectDistinctNames | src/DB/MySQLPDO.php:64-72 | with distinct names the result lists the rows' descriptors in order |
| MySQLPDO.SizeOf | src/DB/MySQLPDO.php:49-54 | a type without `(` has size `false`; otherwise the size is the text between the first `(` and the next `(` (or the end), with `(`/`)` trimmed from its ends, so it never starts or ends with a parenthesis |
| MySQLPDO.SizeOfSimpleType | src/DB/MySQLPDO.php:49-54 | `int(11)` has size `11` |
| MySQLPDO.SizeAfterParen | src/DB/MySQLPDO.php:49-54 | with a single `(`, the size is all the text after it with `(`/`)` trimmed from its ends |
| MySQLPDO.SizeStopsAtSecondParen | src/DB/MySQLPDO.php:49-54 | with a second `(`, the size is only the text between the first two, trimmed: `enum('a(b)','c')` has size `'a` |
| MySQLPDO.SizeKeepsInnerParen | src/DB/MySQLPDO.php:49-54 | only parentheses at the very ends are trimmed from the size |
| MySQLPDO.SizeOfUnsignedExample | src/DB/MySQLPDO.php:49-54 | `int(11) unsigned` has size `11) unsigned` |
| MySQLPDO.NormalType | src/DB/MySQLPDO.php:56-62 | a numeric type becomes its lower-case base name; every other type is kept |
| MySQLPDO.NormalTypeIdempotent | src/DB/MySQLPDO.php:56-62 | normalising a type twice gives the same result as normalising it once |
| MySQLPDO.NormalTypeDropsWidth | src/DB/MySQLPDO.php:56-62 | `INT(11) unsigned` normalises to `int` |
| MySQLPDO.GetColumns | src/DB/MySQLPDO.php:44-75 | the descriptors are keyed by distinct field names, one for each fetched row |
| MySQLPDO.Describe | src/DB/MySQLPDO.php:64-72 | a descriptor has exactly the attributes type, size, null, default, primary, key and extra, in that order; its type is the normalised one, its size the text between the first `(` and the next `(` (or the end) with `(`/`)` trimmed from its ends (`MySQLPDO.SizeOf`), `null` is true exactly for `YES`, `primary` exactly for key `PRI`, `key` exactly for a non-empty key, and default and extra are copied from the row |
| MySQLPDO.GetColumnsDescribes | src/DB/MySQLPDO.php:64-72 | a field's descriptor holds the normalised type, size, null flag, default, primary and key flags, and extra of its last row |
| MySQLPDO.PrimaryIsKey | src/DB/MySQLPDO.php:69-70 | a primary column is always flagged as a key |
| MySQLPDO.DefaultClause | src/DB/MySQLPDO.php:93-99 | a truthy default gives `DEFAULT` plus the quoted value; otherwise a nullable column gives `DEFAULT NULL` and any other column gives `NOT NULL` |
| MySQLPDO.FieldLine | src/DB/MySQLPDO.php:92-100 | a column line starts with the backticked name and a space, and ends with a space and the column's extra |
| MySQLPDO.ScanColumns | src/DB/MySQLPDO.php:91-107 | the loop adds one line per column and at most one key name per column, and the primary column it keeps is one that is marked primary |
| MySQLPDO.ScanMatches | src/DB/MySQLPDO.php:91-107 | the loop collects the column lines in order, the last primary column, and the non-primary key columns in order |
| MySQLPDO.PrimaryColumnIsLast | src/DB/MySQLPDO.php:102-104 | the PRIMARY KEY names the last column flagged primary |
| MySQLPDO.PrimaryColumnNone | src/DB/MySQLPDO.php:109-111 | there is no PRIMARY KEY clause exactly when no column is primary |
| MySQLPDO.KeyColumnsMembers | src/DB/MySQLPDO.php:102-116 | a KEY clause is emitted exactly for the key columns that are not primary |
| MySQLPDO.CreateTable | src/DB/MySQLPDO.php:85-119 | the statement is the header, the column lines joined by `,\n`, the primary clause, one KEY clause per key column, and the engine footer |
| MySQLPDO.DropTable | src/DB/MySQLPDO.php:136-140 | the MySQL override issues the same statement as the base class |
| MySQLPDO.TruncateTable | src/DB/MySQLPDO.php:147-151 | truncation is ``DELETE FROM `t` WHERE 1=1;`` |
| MySQLPDO.GetSQLBuilder | src/DB/MySQLPDO.php:125-127 | with `start()` corrected to `new static`, the builder is an empty MySQL query with backtick escaping |
| MSSQLPDO.Length | src/DB/MSSQLPDO.php:37-40 | the length is the character maximum if truthy, else the precision, with `, scale` appended when the scale is truthy |
| MSSQLPDO.DecimalLengthReadsBack | src/DB/MSSQLPDO.php:37-40 | a decimal's length text `precision, scale` reads back as precision and scale |
| MSSQLPDO.Describe | src/DB/MSSQLPDO.php:33-41 | a descriptor holds exactly `default`, `type` and `length`, in that order: the row's default, its data type and the length rule of `MSSQLPDO.Length` |
| MSSQLPDO.GetColumns | src/DB/MSSQLPDO.php:26-44 | the descriptors are keyed by distinct column names, one for each fetched row |
| MSSQLPDO.GetColumnsDescribes | src/DB/MSSQLPDO.php:33-41 | a column's descriptor is built from its last row |
| MSSQLPDO.DescribeHasNoFlags | src/DB/MSSQLPDO.php:33-41 | an MSSQL descriptor has no null, primary or key attribute |
| MSSQLPDO.CopiedColumnsHaveNoKeys | src/DB/MSSQLPDO.php:33-41 | MSSQL columns given to MySQL's createTable produce no PRIMARY or KEY clause, and every column without a truthy default becomes `NOT NULL` |
| MSSQLPDO.IsTableExists | src/DB/MSSQLPDO.php:22-24 | the MSSQL check returns null, which is never truthy |
| MSSQLPDO.CreateTable | src/DB/MSSQLPDO.php:54-56 | MSSQL table creation returns null, which is never truthy |
| MSSQLPDO.TruncateTable | src/DB/MSSQLPDO.php:62-66 | truncation is ``DELETE FROM TABLE `t` WHERE 1=1;`` |
| MSSQLPDO.TruncateDiffersFromMySQL | src/DB/MSSQLPDO.php:62-66 | the MSSQL statement shares MySQL's first 12 characters but never equals MySQL's statement |
| MSSQLPDO.GetSQLBuilder | src/DB/MSSQLPDO.php:58-60 | with `start()` corrected to `new static`, the builder is an empty MSSQL query with MSSQL escape characters |
| TransferRules.SetExistsAction | src/DB/Transfer.php:54-60 | the lower-cased name is accepted exactly when it is rewrite, skip, stop or append; an unknown name keeps the policy and throws the listing message |
| TransferRules.FindAction | src/DB/Transfer.php:55-56 | the table lookup of the lower-cased name finds what the case-insensitive lookup finds, except that `rewriteorclear` finds nothing |
| TransferRules.RewriteOrClearUnreachable | src/DB/Transfer.php:32-38 | the key `rewriteOrClear` has a capital, so no name can select that policy |
| TransferRules.SetExistsActionCaseless | src/DB/Transfer.php:55-56 | upper-casing the name never changes the outcome |
| TransferRules.SetExistsActionIntended | src/DB/Transfer.php:54-60 | as meant: a policy is selected exactly when the name equals its name regardless of case |
| TransferRules.EveryActionSettable | src/DB/Transfer.php:32-38 | as meant: each policy's name, in either casing, selects that policy |
| TransferRules.IntendedAgreesElsewhere | src/DB/Transfer.php:54-60 | the correction changes only the outcome for `rewriteOrClear` |
| TransferRules.MergeParam | src/DB/Transfer.php:304-306 | `array_merge($tableParams, $params)`: a key already in the running parameters keeps its value; otherwise the table's value is used |
| TransferRules.MergeParams | src/DB/Transfer.php:304-306 | every parameter the running set holds, null included, keeps its value; every parameter it lacks is taken from the table |
| TransferRules.MergeKeepsRunning | src/DB/Transfer.php:304-306 | once every key is in the running parameters, no table can change them |
| TransferRules.MergeParamsIdempotent | src/DB/Transfer.php:304-306 | merging the same table twice is merging it once |
| TransferRules.RuleNameOf | src/DB/Transfer.php:123-124 | entry 0, lower-cased, selects whitelist or blacklist; anything else selects the default rule |
| TransferRules.InArrayLoose | src/DB/Transfer.php:153 | `in_array` compares loosely: a `true` entry lists every name other than "" and 0, a `null` entry lists "" and 0, an array entry lists nothing, and over strings a name is listed exactly when spelt as one of them (numeric strings: see "## Left out") |
| TransferRules.ParseFields | src/DB/Transfer.php:122-128 | an array or a callable gives a fields rule; an array rule never keeps entry 0 |
| TransferRules.ParseTypes | src/DB/Transfer.php:130-134 | only an array gives a types rule, and entry 0 is removed from it |
| TransferRules.FirstMatch | src/DB/Transfer.php:164-170 | the loop with `break` finds the first types entry whose key occurs in the column type, or reports that none does |
| TransferRules.TypeText | src/DB/Transfer.php:165 | the text `strstr` searches is the column's `type`, and the empty string when the type is missing or null |
| TransferRules.ListFormSearchesIndex | src/DB/Transfer.php:164-165 | in `['blacklist', 'varchar']` the loop searches the type for the key `1`, not for `varchar` |
| TransferColumns.NamedTarget | src/DB/Transfer.php:148-158 | whitelist reads the column's entry; blacklist keeps unlisted columns; default keeps only listed columns as written and keeps every column as meant |
| TransferColumns.Place | src/DB/Transfer.php:150 | storing under an array or object target is the `Illegal offset type` error; otherwise only that key changes |
| TransferColumns.TypesStep | src/DB/Transfer.php:161-193 | the types loop touches only the current column of its local copy, and nothing without a types rule |
| TransferColumns.ProcessLoop | src/DB/Transfer.php:140-195 | the loop's result and its error are those of the fields rule alone |
| TransferColumns.ProcessColumnsWith | src/DB/Transfer.php:119-198 | without any rule the columns come back unchanged; otherwise it fails exactly when the renaming loop fails, with its message, and the result is the reversed collection |
| TransferColumns.ProcessColumns | src/DB/Transfer.php:119-198 | with the intended placement: no rule returns the columns unchanged, a types rule alone returns none, and a callback rule returning arrays never fails |
| TransferColumns.ProcessColumnsAsWritten | src/DB/Transfer.php:119-198 | as written: no rule returns the columns unchanged, a types rule alone returns none, and a callback rule returning arrays never fails |
| TransferColumns.ResultStringLookup | src/DB/Transfer.php:197 | the final `array_reverse` leaves every string-key lookup of the collection unchanged |
| TransferColumns.TypesRuleIgnored | src/DB/Transfer.php:161-193 | with a fields rule, the types rule has no effect on the result |
| TransferColumns.TypesRuleAloneEmpties | src/DB/Transfer.php:136-197 | a types rule without a fields rule yields no columns at all |
| TransferColumns.NamedFoldFails | src/DB/Transfer.php:142-159 | the named rules fail exactly when some column's target is an array or object |
| TransferColumns.NamedFoldLookup | src/DB/Transfer.php:142-159 | each key holds the last column placed under it |
| TransferColumns.NamedFoldInOrder | src/DB/Transfer.php:142-159 | with distinct targets, the result lists the placed columns in source order |
| TransferColumns.NamedReversesOrder | src/DB/Transfer.php:197 | with distinct string targets, the returned columns are the placed columns in reverse order |
| TransferColumns.CallbackLookup | src/DB/Transfer.php:143-146 | with `array_merge($result, $processed)`, each name holds the earliest callback result that has it |
| TransferColumns.CallbackEarliestWins | src/DB/Transfer.php:143-146 | with a callback rule returning arrays the call succeeds and the earliest column's result wins for each name |
| TransferColumns.OwnNameKept | src/DB/Transfer.php:142-159 | a column whose target is its own name keeps its descriptor under that name |
| TransferColumns.BlacklistKeepsUnlisted | src/DB/Transfer.php:152-155 | as meant, a blacklist keeps every unlisted column under its own name |
| TransferColumns.BlacklistCollapses | src/DB/Transfer.php:152-155 | as written, unlisted columns are stored under `$fields[$name]`, which is null, so all collapse into key `""` and only the last survives |
| TransferColumns.DefaultKeepsUnlisted | src/DB/Transfer.php:156-158 | as meant, the default rule keeps an unlisted column under its own name, whatever else it lists, provided every listed column is renamed to a legal key other than that name |
| TransferColumns.DefaultDropsUnlisted | src/DB/Transfer.php:156-158 | as written, when the default rule lists none of the columns, no column is kept |
| TransferColumns.DefaultAloneKeepsNothing | src/DB/Transfer.php:156-158 | as written, the bare rule `['default']` keeps no column at all |
| TransferMap.KeysList | src/DB/Transfer.php:231 | `array_keys($result)` lists the result's keys as values under keys 0, 1, … |
| TransferMap.CreateColumnsMap | src/DB/Transfer.php:206-226 | without any rule the map is `false`; with either rule it is a map |
| TransferMap.MapFoldLookup | src/DB/Transfer.php:228-273 | each key of the map holds the entry of the last iteration that wrote it |
| TransferMap.ColumnsMapEntries | src/DB/Transfer.php:228-273 | with distinct names, a column's entry is its types entry if any, else its fields entry; names not among the columns have no entry |
| TransferMap.MapAgreesWithColumns | src/DB/Transfer.php:233-244 | for a named rule, the map sends each column to its target under the corrected column rules |
| TransferMap.BlacklistMapsToSelf | src/DB/Transfer.php:238-241 | under a blacklist, an unlisted column maps to its own name and a listed one has no entry |
| TransferMap.DefaultMapsToRename | src/DB/Transfer.php:242-244 | under the default rule, a column maps to its rename or to its own name |
| TransferMap.CallbackMapsToKeys | src/DB/Transfer.php:229-232 | under a callback, a column maps to the list of its result's keys, or has no entry when the result is empty |
| TransferMap.TypesRuleOnlyAdds | src/DB/Transfer.php:247-271 | adding a types rule never removes a column's map entry |
| TransferMap.TypesWhitelistAlone | src/DB/Transfer.php:248-258 | a types whitelist alone maps exactly the columns whose type matches to their own names |
| TransferFields.TypeOf | src/DB/Transfer.php:104 | the handler's type is the source column's `type` if set, else `false` |
| TransferFields.NewNames | src/DB/Transfer.php:96-100 | without a map the field keeps its name; a field missing from the map has no targets |
| TransferFields.Stored | src/DB/Transfer.php:102-107 | every stored value is a string from the connection's `quote`: of the field itself without a handler, of the handler's result with one |
| TransferFields.ProcessFields | src/DB/Transfer.php:93-111 | the only failure is the `Illegal offset type` error |
| TransferFields.ProcessFieldsFails | src/DB/Transfer.php:101-108 | processing fails exactly when some target name cannot be an array key |
| TransferFields.ProcessFieldsKeys | src/DB/Transfer.php:93-111 | the new row has a key exactly when some field is sent there |
| TransferFields.ProcessFieldsValue | src/DB/Transfer.php:101-108 | a key holds the handled, quoted value from its last writer |
| TransferFields.NoMapSucceeds | src/DB/Transfer.php:96-100 | without a map, processing never fails |
| TransferFields.NoMapKeepsField | src/DB/Transfer.php:99-107 | without a map, each field is stored under its own name, handled and quoted |
| TransferFields.NoMapAddsNothing | src/DB/Transfer.php:99-107 | without a map, no key outside the row appears |
| TransferFields.UnmappedFieldDropped | src/DB/Transfer.php:96-98 | with a map, every key of the new row comes from a mapped field |
| TransferFields.MappedListFansOut | src/DB/Transfer.php:100-101 | a field mapped to a list is written under every name in the list |
| TransferCopy.Entries | src/DB/Transfer.php:285 | a single value that is not an array becomes the only entry, under key 0, and is read as a table name exactly when it is a string; an array is used as given |
| TransferCopy.ParamsFor | src/DB/Transfer.php:304-306 | a table spec's own parameters never override a running one and fill in the ones missing; a plain table name leaves the running parameters as they are |
| TransferCopy.Dispatch | src/DB/Transfer.php:286-302 | the four accepted shapes of a table entry give the source and target described there; every other shape is `Incorrect tables` |
| TransferCopy.SelectFor | src/DB/Transfer.php:310 | the select is the given query, otherwise one left over from an earlier table, otherwise `from(table)` |
| TransferCopy.Prepare | src/DB/Transfer.php:310-320 | row types are used only for a table source; the source columns come from the table, the `columns` parameter, or the query |
| TransferCopy.Reconcile | src/DB/Transfer.php:325-344 | the copy skips exactly when the table exists under `skip` and stops exactly when it exists under `stop`; an existing table is dropped then created under `rewrite`, truncated under `rewriteOrClear` when its layout matches and recreated otherwise, and left alone under `append`; a missing table is created |
| TransferCopy.InsertRow | src/DB/Transfer.php:352-358 | a row is written exactly when processing and the upsert both succeed; a failed row leaves the target untouched, and its error is the message of the step that threw |
| TransferCopy.SkipNotice | src/DB/Transfer.php:335 | the echoed line names the source table first and ends with a newline |
| TransferCopy.StopMessage | src/DB/Transfer.php:338 | the exception message names the source table first and ends with `!`, so it never equals a notice; nor is it the notice without its newline, since the verb after the source differs |
| TransferCopy.InsertRows | src/DB/Transfer.php:351-359 | rows are upserted in order until one throws; any error is the error of one of the rows, so steps that never throw give none |
| TransferCopy.Window | src/DB/Transfer.php:350 | under a select that renders the offset, a page is the next at most 100 rows from the offset, and is empty past the end |
| TransferCopy.InsertRowsAppend | src/DB/Transfer.php:351-359 | inserting two batches is inserting the first, then, unless it failed, the second |
| TransferCopy.Pages | src/DB/Transfer.php:346-363 | past the last row the loop fetches one empty page and stops without an error; with rows that never throw it ends without an error |
| TransferCopy.PagesCoverRows | src/DB/Transfer.php:346-363 | under the window reading of pages, paging from an offset inserts exactly the rows from that offset, in order |
| TransferCopy.CopyPages | src/DB/Transfer.php:346-363 | the `while` loop inserts every source row in order and stops at the first failed row |
| TransferCopy.CopyPage | src/DB/Transfer.php:351-359 | the inner `foreach` inserts the page's rows in order |
| TransferCopy.Paged | src/DB/Transfer.php:350 | the page's select is the table's select with limit 100 and the given offset, and nothing else changed |
| TransferCopy.OffsetIgnoredNeverEnds | src/DB/Transfer.php:346-363 | as written, when the select's SQL does not change with the offset and its rows are non-empty and never throw, no number of fetches ends the loop |
| TransferCopy.FetchFollowsPages | src/DB/Transfer.php:346-363 | with a select that renders LIMIT and OFFSET, the fetch loop sees exactly the pages the window reading gives and stops where they do |
| TransferCopy.WindowedFetchEnds | src/DB/Transfer.php:346-363 | with a select that renders LIMIT and OFFSET, the loop ends once the pages run out and inserts exactly the rows from the offset, in order |
| TransferCopy.SetupTable | src/DB/Transfer.php:286-323 | the setup fails with `Incorrect tables` or with the missing-source message; otherwise it carries the route, the merged parameters, the prepared select and the processed columns |
| TransferCopy.CopyTable | src/DB/Transfer.php:286-364 | one table echoes at most one notice and keeps the earlier ones; a table that echoes leaves the target database as it was |
| TransferCopy.CopyAll | src/DB/Transfer.php:286-365 | over a list of tables, earlier notices are kept and at most one is added per table |
| TransferCopy.Copy | src/DB/Transfer.php:284-366 | a copy echoes at most one notice per table spec, and an empty list of tables does nothing |
| TransferCopy.SetupFailureTouchesNothing | src/DB/Transfer.php:301-309 | a setup failure leaves the target database and the run untouched |
| TransferCopy.MissingSourceStops | src/DB/Transfer.php:307-309 | a missing source table is an error before anything is written |
| TransferCopy.StopOnExisting | src/DB/Transfer.php:337-338 | under `stop`, an existing target ends the copy with the stop message, unchanged |
| TransferCopy.SkipOnExisting | src/DB/Transfer.php:334-336 | under `skip`, an existing target is left as is and one notice is added |
| TransferCopy.ProceedCopiesRows | src/DB/Transfer.php:325-364 | when the table is readied, every row of the select is inserted into the readied database |
| TransferCopy.ParamsCarriedOver | src/DB/Transfer.php:304-306 | after a table, the running parameters are the merge of that table's parameters |
| TransferCopy.EarlierTableWins | src/DB/Transfer.php:305 | once a table sets `fields`, no later table's `fields` is used |
| TransferCopy.ReconcileReadiesTable | src/DB/Transfer.php:325-344 | after reconciling, the target table exists and, unless appending to an existing table, has the requested columns; appending leaves the database as is |
| TransferCopy.SkipLeaksSelect | src/DB/Transfer.php:334-336 | as written, `continue` skips `unset($select)`, so the next table reads the skipped table's select |
| TransferCopy.NoSelectCarriedOver | src/DB/Transfer.php:364 | as meant, no select survives a table |
| TransferCopy.EachTableReadsItself | src/DB/Transfer.php:286-365 | as meant, over any list of tables no select is ever left over |

## Left out

- The PDO plumbing is left out because it is I/O against a server: `create`, `execute`, `prepare`, `fetchAll` and `beginTransaction` (`src/DB/BasePDO.php:46-53`, `92-103`, `132-138`). The rows a query returns and the outcome of an insert (the new state, or the message `execute` throws) are parameters of the model.
- The MySQL `isTableExists` is a `SHOW TABLES LIKE` query (`src/DB/MySQLPDO.php:27-30`). Its answer is a parameter, the source's or target's `hasTable`.
- The `Transfer` constructor only stores the two connections, so it has no model of its own.
- `TransferCopy.InsertRow`: `execute` never returns false. It throws its own message when the statement cannot be prepared or executed (`src/DB/BasePDO.php:92-103`, with `ERRMODE_EXCEPTION` set at line 32). So the `false === ...` check at lines 355-356 of `src/DB/Transfer.php` is never reached, its 'Row can not be inserted' is never produced, and the model has no such error.
- The following are not among the source files, so the model takes them as parameters:
  - the parent `getSQL` and `genSelect`;
  - `offset()`, `insertOnDuplicateUpdate`, `extractColumns` and `getSelectAll`.
- `offset()` is read as storing its argument in the offset part (`TransferCopy.Paged`).
- The `echo` of a skipped table is recorded as a notice string in the run, not printed.
- User callbacks (`fields` callables, `handler`) and the connection's `quote` are modelled as pure functions: two calls with the same arguments give the same result, and a `fields` callable returns an array of descriptors. The consequences for the column rules are the `TransferColumns.ProcessColumns` line below.
- `TransferRules.InArrayLoose`: `in_array` uses PHP 8's loose comparison of a key with a value (`PhpValue.LooseEqualsKey`): bools by truthiness, null against "" and 0, arrays never, everything else by its text. PHP 8 compares an integer key with a numeric string numerically (`1 == "01"`, `10 == "1e1"`), and two numeric strings likewise (`"1.5" == "1.50"`); the model equates them only when they are spelt the same, so its "spelt as one of them" over strings is exact only for names and entries that are not numeric strings. An expression object (`Expr`) is compared by its text. Against a string key that is what PHP does through `__toString`; against an integer key PHP 8 converts the object to the number 1, with a warning, so it equals key 1 only, while the model compares the object's text with the key's digits.
- `TransferColumns.ProcessColumns`: "a callback rule never fails" rests on two assumptions the source does not make. First, the callable's result is typed as an array of descriptors (`FieldsCallback`); a PHP callable that returns a truthy non-array (`true`, `"x"`) makes `array_merge` at line 145 of `src/DB/Transfer.php` throw a TypeError, which the model cannot express. Second, the callable is pure: the source calls it again for the columns map at line 230, and the model assumes both calls agree.
- `TransferColumns.ProcessColumnsAsWritten`: its callback case rests on the same two assumptions as `TransferColumns.ProcessColumns`.
- `TransferColumns.CallbackEarliestWins`: "the call succeeds" rests on the callable returning an array, as in the `TransferColumns.ProcessColumns` line; `array_keys` at line 231 of `src/DB/Transfer.php` would throw on a truthy non-array too.
- `TransferColumns.ProcessColumnsWith`: the property that a callback returning `[$name => $column]` reproduces the source order is not proved as a whole-sequence equality. It is proved per key, by `TransferColumns.CallbackEarliestWins`. The integer-key renumbering of `array_merge` and `array_reverse` is modelled, but it is proved about only for string keys.
- `TransferColumns.NamedReversesOrder` requires distinct string targets. With integer targets, `array_reverse` renumbers the keys, and that case is left without a lemma.
- `MySQLBuilder.LimitationRoundTrip` covers only non-negative integer limits and offsets. Any other value is rendered by its string form and not parsed back.
- The MSSQL escape characters are modelled as written: front `]`, back `[`. Whether that pair is reversed is left open, because the base `getSQL` that would use them is not available.
- Some features of the wider library are not in this code and are not modelled:
  - a `ROW_NUMBER()` window for MSSQL paging (MSSQL here renders `TOP n` only and ignores the offset);
  - `addSelect`-style variants;
  - `having`;
  - bound parameters.
- `MySQLPDO.GetSQLBuilder`, `MSSQLPDO.GetSQLBuilder`: these use the corrected `start()` (first row of "## Findings"). As written, both would return a base builder, as `BaseSQLBuilder.StartLosesDialect` shows.
- `TransferCopy.Copy` and its per-table step `CopyTable` state only the notice bounds in their own contracts. Their other behaviour is stated by the lemmas `SetupFailureTouchesNothing`, `MissingSourceStops`, `StopOnExisting`, `SkipOnExisting`, `ProceedCopiesRows`, `ParamsCarriedOver` and `EachTableReadsItself`.
- `TransferCopy.Window`: a page is read as the window `rows[offset .. offset + 100]` of the select's rows, which holds only for a select that renders LIMIT and OFFSET. The builders this code hands out are not shown to: `getSQLBuilder()` gives a base builder (`BaseSQLBuilder.StartLosesDialect`), whose `getSQL` is not part of this model, and an MSSQL builder ignores the offset (`MSSQLBuilder.TopIgnoresOffset`). So `Pages`, `PagesCoverRows`, `CopyPages`, `CopyTable` and `ProceedCopiesRows` describe the copy under such a select. What happens without one is the "## Findings" row for lines 346-363: `TransferCopy.OffsetIgnoredNeverEnds` shows that the loop then never ends.
- `TransferRules.RuleNameOf`: an array in entry 0 of a rule reads as the text `Array`, so it selects the default rule. PHP 8's `strtolower` throws a TypeError on an array instead, at lines 123-124 and 131-132 of `src/DB/Transfer.php`.
- `TransferRules.TypeText`: an array `type` reads as the text `Array`. PHP 8's `strstr` throws a TypeError on an array instead, at line 165 and the other `strstr` calls of `src/DB/Transfer.php`.
- `BaseSQLBuilder.GetTable`: a builder passed as the table (a sub-select, `self` in the docblock) has no value of its own in `Value`. It would take the branch of any other value that is neither a string nor an array, and be stored as given with a null alias.

## Findings

| source | as written | input that shows it | evidently intended | confidence | as-written member | corrected member |
|---|---|---|---|---|---|---|
| src/SQLBuilder/BaseSQLBuilder.php:81 | `start()` creates `new self`, always the base class | `MySQLBuilder::start()` returns a base builder with empty escape characters | `new static`, a builder of the class it is called through | not executed | BaseSQLBuilder.StartLosesDialect | BaseSQLBuilder.StartStatic |
| src/DB/Transfer.php:154 | a blacklist stores a kept column under `$params['fields'][$name]`, which is null for an unlisted name | `fields => ['blacklist', 'b']` over columns `a`, `c`: both are stored under `""`, and only `c` remains | store under `$name`, as `createColumnsMap` does at line 240 | not executed | TransferColumns.BlacklistCollapses | TransferColumns.BlacklistKeepsUnlisted |
| src/DB/Transfer.php:156 | the default rule keeps a column only if it is renamed | `fields => ['default']` over any columns gives no columns | keep unlisted columns under their own name, as line 243 does for the map | not executed | TransferColumns.DefaultDropsUnlisted | TransferColumns.DefaultKeepsUnlisted |
| src/DB/Transfer.php:336 | `continue` after a skipped table bypasses `unset($select)` at line 364 | copy `['a', 'b']` with `skip` when `a` exists: `b` is read with `a`'s select | each table builds its own select | not executed | TransferCopy.SkipLeaksSelect | TransferCopy.EachTableReadsItself |
| src/DB/Transfer.php:346-363 | the loop stops only at an empty page, so it relies on the select's SQL to carry the offset | a table spec whose `sql` is an MSSQL builder with a non-empty result: the builder renders the limit as `TOP 100` and has no code of its own for the offset, so unless the parent's SQL carries it, every fetch returns the same first 100 rows and the loop never ends | each page starts at the offset, so the loop ends after the last row | not executed; depends on the parent `getSQL`, which is not part of this model | TransferCopy.OffsetIgnoredNeverEnds | TransferCopy.WindowedFetchEnds |
| src/DB/Transfer.php:55 | the name is lower-cased, but the key `rewriteOrClear` is not lower-case | `setExistsAction('rewriteOrClear')` throws `Undefined action` | every listed action can be set, in any casing | not executed | TransferRules.RewriteOrClearUnreachable | TransferRules.EveryActionSettable |
