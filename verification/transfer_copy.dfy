/**
 * `Transfer::copy`: copies tables from the source connection to the
 * destination connection.
 *
 * Per table spec, in order: the spec is dispatched into a source (a table
 * name or a query builder) and a destination table; the spec's own
 * parameters are merged under the running ones; a missing source table
 * throws; the source columns are read, renamed by `processColumns` and
 * mapped by `createColumnsMap`; the destination is reconciled according to
 * the exists-action; then the source rows are fetched 100 at a time and
 * each processed row is upserted.
 *
 * Both connections are gateways: the source answers existence, column and
 * row queries; the destination is an abstract state `S` changed by the
 * schema calls and the upserts, with `quote` as its quoting function.
 */
module TransferCopy {
  import opened Wrappers
  import opened PhpString
  import opened PhpArray
  import opened PhpValue
  import opened TransferRules
  import opened TransferColumns
  import opened TransferMap
  import opened TransferFields
  import opened BaseSQLBuilder
  import BasePDO

  type ColumnSet = BasePDO.ColumnSet

  /** `$portion`: the number of rows fetched per select. */
  const Portion: nat := 100

  const IncorrectTables: string := "Incorrect tables"
  const MissingSource: string := "Table doesn't exists at first table"

  // ---------------------------------------------------------------------------
  // Gateways
  // ---------------------------------------------------------------------------

  /**
   * The source connection. `rows` is the full result of a query; a page is
   * the window of it that LIMIT/OFFSET selects.
   */
  datatype Source = Source(
    hasTable: string -> bool,
    columns: string -> ColumnSet,
    builder: Builder,
    extractColumns: Builder -> ColumnSet,
    selectAll: Builder -> Value,
    rows: Builder -> seq<Array<Value>>)

  /**
   * The destination connection over its state `S`: `upsert` is the
   * execution of `insertOnDuplicateUpdate`. `execute` never returns false:
   * it throws its own message when the statement cannot be prepared or
   * executed, and that message is the `Err` here.
   */
  datatype Target<!S> = Target(
    hasTable: (S, Value) -> bool,
    equal: (S, Value, ColumnSet) -> bool,
    drop: (S, Value) -> S,
    create: (S, Value, ColumnSet) -> S,
    truncate: (S, Value) -> S,
    upsert: (S, Value, Array<Value>) -> Result<S>,
    quote: Value -> string)

  // ---------------------------------------------------------------------------
  // Table specs
  // ---------------------------------------------------------------------------

  /**
   * A value of the `$tables` array: a table name; an array, of which the
   * model keeps its `sql` builder (when set), its `table` entry and the copy
   * parameters it carries; or anything else.
   */
  datatype TableSpec =
    | Name(name: string)
    | Spec(sql: Option<Builder>, table: Value, params: Params)
    | Other(v: Value)

  /** A value that is not a PHP array. */
  type Scalar = v: Value | !v.Arr? witness Null

  /** The `$tables` argument: one value that is not an array (wrapped into one) or an array of specs. */
  datatype Tables = Single(single: Scalar) | Many(entries: seq<(Key, TableSpec)>)

  /** `!is_array($tables) ? [$tables] : $tables`: a single value is the only entry, under key 0, and is a table name exactly when it is a string. */
  function Entries(tables: Tables): (r: seq<(Key, TableSpec)>)
    ensures tables.Single? ==> |r| == 1 && r[0].0 == IKey(0)
    ensures tables.Single? ==> (r[0].1.Name? <==> tables.single.Str?)
    ensures tables.Single? && tables.single.Str? ==> r[0].1 == Name(tables.single.s)
    ensures tables.Single? && !tables.single.Str? ==> r[0].1 == Other(tables.single)
    ensures tables.Many? ==> r == tables.entries
  {
    match tables
    case Single(v) => [(IKey(0), if v.Str? then Name(v.s) else Other(v))]
    case Many(entries) => entries
  }

  /** Where rows are read from: a table of the source, or a query builder. */
  datatype Origin = FromTable(name: string) | FromQuery(select: Builder)

  datatype Route = Route(from: Origin, to: Value)

  /** `$fromTable` as text in a message: `false` prints as "". */
  function FromText(from: Origin): string {
    if from.FromTable? then from.name else ""
  }

  /** The four accepted shapes of a table spec. */
  function Dispatch(key: Key, spec: TableSpec): (r: Result<Route>)
    ensures r.Err? ==> r.message == IncorrectTables
    ensures r.Ok? <==>
      || spec.Name?
      || (key.IKey? && spec.Spec? && spec.sql.Some?)
      || (key.SKey? && spec.Spec? && spec.sql.None?)
    ensures key.IKey? && spec.Name? ==> r == Ok(Route(FromTable(spec.name), Str(spec.name)))
    ensures key.SKey? && spec.Name? ==> r == Ok(Route(FromTable(key.s), Str(spec.name)))
    ensures r.Ok? && spec.Spec? ==> r.value.to == spec.table
    ensures r.Ok? && spec.Spec? ==> (r.value.from.FromQuery? <==> key.IKey?)
  {
    match spec
    case Name(n) => if key.IKey? then Ok(Route(FromTable(n), Str(n))) else Ok(Route(FromTable(key.s), Str(n)))
    case Spec(sql, table, _) =>
      if key.IKey? && sql.Some? then Ok(Route(FromQuery(sql.value), table))
      else if key.SKey? && sql.None? then Ok(Route(FromTable(key.s), table))
      else Err(IncorrectTables)
    case Other(_) => Err(IncorrectTables)
  }

  /** `array_merge($tableParams, $params)` for an array spec; a name leaves the parameters alone. */
  function ParamsFor(spec: TableSpec, running: Params): (r: Params)
    ensures Keeps(r, running)
    ensures spec.Spec? ==> FillsFrom(r, spec.params, running)
    ensures !spec.Spec? ==> r == running
  {
    if spec.Spec? then MergeParams(spec.params, running) else running
  }

  // ---------------------------------------------------------------------------
  // Reading the source
  // ---------------------------------------------------------------------------

  /** The query of one table, its source columns, and whether the columns carry types for the handler. */
  datatype Prepared = Prepared(select: Builder, sourceColumns: ColumnSet, useType: bool)

  /**
   * The select used for a table: the spec's query, else a select left over
   * from an earlier table (`isset($select)`), else a fresh one over the table.
   */
  function SelectFor(src: Source, leftover: Option<Builder>, from: Origin): (r: Result<Builder>)
    ensures from.FromQuery? ==> r == Ok(from.select)
    ensures from.FromTable? && leftover.Some? ==> r == Ok(leftover.value)
    ensures from.FromTable? && leftover.None? ==> r == From(src.builder, Str(from.name), Null)
  {
    match from
    case FromQuery(select) => Ok(select)
    case FromTable(name) => if leftover.Some? then Ok(leftover.value) else From(src.builder, Str(name), Null)
  }

  /**
   * The source columns: the `columns` parameter for a query that has it;
   * else, for a query, the columns extracted from it, after which the query
   * selects them all; else the table's columns.
   */
  function Prepare(src: Source, leftover: Option<Builder>, from: Origin, params: Params): (r: Result<Prepared>)
    ensures r.Ok? ==> (r.value.useType <==> from.FromTable?)
    ensures from.FromTable? ==> (r.Ok? <==> SelectFor(src, leftover, from).Ok?)
    ensures from.FromTable? && r.Ok? ==> r.value == Prepared(SelectFor(src, leftover, from).value, src.columns(from.name), true)
    ensures from.FromQuery? && params.columns.Given? ==> r == Ok(Prepared(from.select, params.columns.value, false))
    ensures from.FromQuery? && !params.columns.Given? && r.Ok? ==> r.value.sourceColumns == src.extractColumns(from.select)
  {
    var select :- SelectFor(src, leftover, from);
    match from
    case FromQuery(_) =>
      if params.columns.Given? then Ok(Prepared(select, params.columns.value, false))
      else
        var all :- Select(select, src.selectAll(select), ",");
        Ok(Prepared(all, src.extractColumns(select), false))
    case FromTable(name) => Ok(Prepared(select, src.columns(name), true))
  }

  // ---------------------------------------------------------------------------
  // Reconciling the destination
  // ---------------------------------------------------------------------------

  /** What happens to an existing destination table: go on with the rows, skip it, or stop the copy. */
  datatype Plan<S> = Proceed(db: S) | SkipTable | StopCopy

  /**
   * The destination table is readied by the policy: `rewrite` drops it and
   * creates it anew, `rewriteOrClear` only empties a table whose layout
   * already matches and otherwise recreates it, `append` leaves it as it is
   * (whether or not it matches), and a missing table is created.
   */
  function Reconcile<S(!new)>(action: Action, dst: Target<S>, db: S, to: Value, columns: ColumnSet): (r: Plan<S>)
    ensures r.SkipTable? <==> dst.hasTable(db, to) && action == Skip
    ensures r.StopCopy? <==> dst.hasTable(db, to) && action == Stop
    ensures !dst.hasTable(db, to) ==> r == Proceed(dst.create(db, to, columns))
    ensures dst.hasTable(db, to) && action == Rewrite ==> r == Proceed(dst.create(dst.drop(db, to), to, columns))
    ensures dst.hasTable(db, to) && action == RewriteOrClear ==>
      r == if dst.equal(db, to, columns) then Proceed(dst.truncate(db, to)) else Proceed(dst.create(dst.drop(db, to), to, columns))
    ensures dst.hasTable(db, to) && action == Append ==> r == Proceed(db)
  {
    if dst.hasTable(db, to) then
      match action
      case Rewrite => Proceed(dst.create(dst.drop(db, to), to, columns))
      case RewriteOrClear =>
        if dst.equal(db, to, columns) then Proceed(dst.truncate(db, to))
        else Proceed(dst.create(dst.drop(db, to), to, columns))
      case Skip => SkipTable
      case Stop => StopCopy
      case Append => Proceed(db)
    else Proceed(dst.create(db, to, columns))
  }

  /** The line echoed for a skipped table: it starts by naming the source and ends the line. */
  function SkipNotice(route: Route): (r: string)
    ensures var head := "TABLE '" + FromText(route.from) + "'"; |r| > |head| && r[..|head|] == head
    ensures r[|r| - 1] == '\n'
  {
    "TABLE '" + FromText(route.from) + "' SKIPPED BECAUSE '" + StringOf(route.to) + "' EXISTS!\n"
  }

  /**
   * The message of the stop exception: it starts by naming the source and,
   * unlike the notice, ends no line; nor is it the notice without its line
   * end, since the verb after the source differs.
   */
  function StopMessage(route: Route): (r: string)
    ensures var head := "TABLE '" + FromText(route.from) + "'"; |r| > |head| && r[..|head|] == head
    ensures r[|r| - 1] == '!'
    ensures var n := SkipNotice(route); r != n[..|n| - 1]
  {
    var head := "TABLE '" + FromText(route.from) + "'";
    var r := head + " DO STOP BECAUSE '" + StringOf(route.to) + "' EXISTS!";
    var n := SkipNotice(route);
    assert r[|head| + 1] == 'D' && n[|head| + 1] == 'S';
    r
  }

  // ---------------------------------------------------------------------------
  // Copying the rows
  // ---------------------------------------------------------------------------

  /** How each row of one table is turned into a destination row. */
  datatype RowCopy = RowCopy(to: Value, columnsMap: Option<Array<Value>>, handler: Param<Handler>, sourceColumns: Option<ColumnSet>)

  /** The destination state reached, and the message of the exception that ended the copy, if any. */
  datatype Written<S> = Written(db: S, error: Option<string>)

  /**
   * One row: `processFields`, then the upsert. A failure ends the copy with
   * the message of whichever step threw: processing's, or the one `execute`
   * throws. The `false === execute(...)` check after it is never reached.
   */
  function InsertRow<S(!new)>(dst: Target<S>, rc: RowCopy, db: S, row: Array<Value>): (r: Written<S>)
    ensures r.error.None? <==>
      ProcessFields(row, rc.columnsMap, rc.handler, rc.sourceColumns, dst.quote).Ok? &&
      dst.upsert(db, rc.to, ProcessFields(row, rc.columnsMap, rc.handler, rc.sourceColumns, dst.quote).value).Ok?
    ensures r.error.Some? ==> r.db == db
    ensures var p := ProcessFields(row, rc.columnsMap, rc.handler, rc.sourceColumns, dst.quote);
      && (p.Err? ==> r.error == Some(p.message))
      && (p.Ok? && dst.upsert(db, rc.to, p.value).Err? ==> r.error == Some(dst.upsert(db, rc.to, p.value).message))
      && (p.Ok? && dst.upsert(db, rc.to, p.value).Ok? ==> r.db == dst.upsert(db, rc.to, p.value).value)
  {
    match ProcessFields(row, rc.columnsMap, rc.handler, rc.sourceColumns, dst.quote)
    case Err(m) => Written(db, Some(m))
    case Ok(newRow) =>
      match dst.upsert(db, rc.to, newRow)
      case Err(m) => Written(db, Some(m))
      case Ok(next) => Written(next, None)
  }

  /** How one row is written; the copy uses `RowStepOf`. */
  type RowStep<!S> = (S, Array<Value>) -> Written<S>

  function RowStepOf<S(!new)>(dst: Target<S>, rc: RowCopy): RowStep<S> {
    (db: S, row: Array<Value>) => InsertRow(dst, rc, db, row)
  }

  /** A row step that never throws, whatever the state and the row. */
  ghost predicate NeverThrows<S(!new)>(step: RowStep<S>) {
    forall db: S, row: Array<Value> :: step(db, row).error.None?
  }

  /**
   * The rows in order, stopping at the first that throws: an error is the
   * error of one of the rows, so steps that never throw give none.
   */
  function InsertRows<S(!new)>(step: RowStep<S>, db: S, rows: seq<Array<Value>>): (w: Written<S>)
    ensures NeverThrows(step) ==> w.error.None?
    ensures w.error.Some? ==> exists i, d: S :: 0 <= i < |rows| && step(d, rows[i]).error == w.error
    decreases |rows|
  {
    if |rows| == 0 then Written(db, None)
    else
      var w := step(db, rows[0]);
      if w.error.Some? then w else InsertRows(step, w.db, rows[1..])
  }

  /** The page the query returns with LIMIT `Portion` OFFSET `offset`. */
  function Window<T>(all: seq<T>, offset: nat): (r: seq<T>)
    ensures offset < |all| ==> |r| > 0 && r == all[offset..if offset + Portion <= |all| then offset + Portion else |all|]
    ensures offset >= |all| ==> r == []
  {
    if offset >= |all| then []
    else if offset + Portion <= |all| then all[offset..offset + Portion]
    else all[offset..]
  }

  /** The `while ($continue)` loop from `offset` on: it ends after the first empty page. */
  function Pages<S(!new)>(step: RowStep<S>, db: S, all: seq<Array<Value>>, offset: nat): (w: Written<S>)
    ensures offset >= |all| ==> w == Written(db, None)
    ensures NeverThrows(step) ==> w.error.None?
    decreases |all| + Portion - offset
  {
    var page := Window(all, offset);
    if |page| == 0 then Written(db, None)
    else
      var w := InsertRows(step, db, page);
      if w.error.Some? then w else Pages(step, w.db, all, offset + Portion)
  }

  /** Rows inserted one after the other: the second batch starts where the first ended, unless it threw. */
  lemma {:induction false} InsertRowsAppend<S(!new)>(step: RowStep<S>, db: S, a: seq<Array<Value>>, b: seq<Array<Value>>)
    ensures InsertRows(step, db, a + b) ==
      var w := InsertRows(step, db, a);
      if w.error.Some? then w else InsertRows(step, w.db, b)
    decreases |a|
  {
    if |a| > 0 {
      assert (a + b)[0] == a[0];
      assert (a + b)[1..] == a[1..] + b;
      var w := step(db, a[0]);
      if w.error.None? {
        InsertRowsAppend(step, w.db, a[1..], b);
      }
    } else {
      assert a + b == b;
    }
  }

  /** Paging is transparent: the pages from `offset` on insert exactly the rows from `offset` on. */
  lemma {:induction false} PagesCoverRows<S(!new)>(step: RowStep<S>, db: S, all: seq<Array<Value>>, offset: nat)
    requires offset <= |all|
    ensures Pages(step, db, all, offset) == InsertRows(step, db, all[offset..])
    decreases |all| - offset
  {
    if offset < |all| {
      var end := if offset + Portion <= |all| then offset + Portion else |all|;
      var page := all[offset..end];
      assert all[offset..] == page + all[end..];
      InsertRowsAppend(step, db, page, all[end..]);
      var w := InsertRows(step, db, page);
      if w.error.None? {
        if end < offset + Portion {
          assert Window(all, offset + Portion) == [];
          assert all[end..] == [];
        } else {
          PagesCoverRows(step, w.db, all, offset + Portion);
        }
      }
    }
  }

  /** The rows from `offset` on; none once the offset has passed the end. */
  function Tail<T>(all: seq<T>, offset: nat): seq<T> {
    if offset <= |all| then all[offset..] else []
  }

  /**
   * The pagination loop as the code runs it: fetch the page at `offset`,
   * upsert its rows in order, advance by `Portion`, and stop after the
   * first empty page. It inserts every row of the query exactly once, in
   * order, as the functional `Pages` does.
   */
  method CopyPages<S(!new)>(step: RowStep<S>, db: S, all: seq<Array<Value>>) returns (w: Written<S>)
    ensures w == InsertRows(step, db, all)
    ensures w == Pages(step, db, all, 0)
  {
    PagesCoverRows(step, db, all, 0);
    var current := db;
    var offset: nat := 0;
    var more := true;
    while more
      invariant offset < |all| + Portion
      invariant more ==> InsertRows(step, db, all) == InsertRows(step, current, Tail(all, offset))
      invariant !more ==> InsertRows(step, db, all) == Written(current, None)
      decreases more, |all| + Portion - offset
    {
      more := false;
      var page := Window(all, offset);
      if |page| > 0 {
        NextPage(step, current, all, offset);
        var r := CopyPage(step, current, page);
        if r.error.Some? {
          return r;
        }
        current := r.db;
        more := true;
        offset := offset + Portion;
      }
    }
    w := Written(current, None);
  }

  /** The rows from `offset` on are the page at `offset`, then the rows from the next offset on. */
  lemma NextPage<S(!new)>(step: RowStep<S>, db: S, all: seq<Array<Value>>, offset: nat)
    requires offset < |all|
    ensures InsertRows(step, db, Tail(all, offset)) ==
      var w := InsertRows(step, db, Window(all, offset));
      if w.error.Some? then w else InsertRows(step, w.db, Tail(all, offset + Portion))
  {
    var page := Window(all, offset);
    var end := offset + |page|;
    assert Tail(all, offset) == page + all[end..];
    InsertRowsAppend(step, db, page, all[end..]);
    assert Tail(all, offset + Portion) == all[end..];
  }

  /** The `foreach` over one page: upsert each row in order, stopping at the first that throws. */
  method CopyPage<S(!new)>(step: RowStep<S>, db: S, page: seq<Array<Value>>) returns (w: Written<S>)
    ensures w == InsertRows(step, db, page)
  {
    var current := db;
    var j := 0;
    while j < |page|
      invariant 0 <= j <= |page|
      invariant InsertRows(step, db, page) == InsertRows(step, current, page[j..])
    {
      var r := step(current, page[j]);
      assert page[j..][0] == page[j] && page[j..][1..] == page[j + 1..];
      if r.error.Some? {
        return r;
      }
      current := r.db;
      j := j + 1;
    }
    assert page[j..] == [];
    w := Written(current, None);
  }

  /**
   * The select of one page: `limit($this->portion)->offset($offset)`. The
   * `offset()` setter is not part of this model; it is read as storing its
   * argument in the offset part, as `limit()` does for the limit.
   */
  function Paged(b: Builder, offset: nat): (r: Builder)
    ensures r.dialect == b.dialect
    ensures r.query.limit == Some(Int(Portion)) && r.query.offset == Some(Int(offset))
    ensures r.query.(limit := b.query.limit, offset := b.query.offset) == b.query
  {
    var limited := Limit(b, Int(Portion));
    limited.(query := limited.query.(offset := Some(Int(offset))))
  }

  /**
   * The `while ($continue)` loop as the source connection sees it: the page
   * at `offset` is what the server returns (`exec`) for the text the select
   * renders (`sql`) once limited and offset. The loop ends after the first
   * empty page or the first row that throws; `fuel` bounds the number of
   * fetches, and `None` means the pages were still coming when it ran out.
   */
  function FetchLoop<S(!new)>(step: RowStep<S>, db: S, exec: string -> seq<Array<Value>>, sql: Builder -> string,
                        b: Builder, offset: nat, fuel: nat): Option<Written<S>>
    decreases fuel
  {
    if fuel == 0 then None
    else
      var page := exec(sql(Paged(b, offset)));
      if |page| == 0 then Some(Written(db, None))
      else
        var w := InsertRows(step, db, page);
        if w.error.Some? then Some(w) else FetchLoop(step, w.db, exec, sql, b, offset + Portion, fuel - 1)
  }

  /**
   * As written, the loop relies on the select rendering the offset. A
   * select whose text does not depend on it (the `TOP n` of an MSSQL
   * builder, see `MSSQLBuilder.TopIgnoresOffset`) gets the same rows at
   * every offset; when they are not empty and upserting them never throws,
   * no number of fetches reaches an empty page, so the loop never ends.
   */
  lemma {:induction false} OffsetIgnoredNeverEnds<S(!new)>(step: RowStep<S>, db: S, exec: string -> seq<Array<Value>>,
                                                     sql: Builder -> string, b: Builder, offset: nat, fuel: nat)
    requires forall o: nat :: sql(Paged(b, o)) == sql(Paged(b, 0))
    requires |exec(sql(Paged(b, 0)))| > 0
    requires forall d: S :: InsertRows(step, d, exec(sql(Paged(b, 0)))).error.None?
    ensures FetchLoop(step, db, exec, sql, b, offset, fuel).None?
    decreases fuel
  {
    if fuel > 0 {
      var w := InsertRows(step, db, exec(sql(Paged(b, 0))));
      assert sql(Paged(b, offset)) == sql(Paged(b, 0));
      OffsetIgnoredNeverEnds(step, w.db, exec, sql, b, offset + Portion, fuel - 1);
    }
  }

  /**
   * With a select that renders LIMIT and OFFSET, each fetch is the window
   * of the query's rows at that offset. Given one fetch for each page and
   * one for the empty page after them, the loop ends and inserts exactly
   * what `Pages` inserts: every row from the offset on, in order.
   */
  lemma {:induction false} WindowedFetchEnds<S(!new)>(step: RowStep<S>, db: S, exec: string -> seq<Array<Value>>,
                                                sql: Builder -> string, b: Builder, all: seq<Array<Value>>,
                                                offset: nat, fuel: nat)
    requires forall o: nat :: exec(sql(Paged(b, o))) == Window(all, o)
    requires 0 < fuel && offset <= |all| <= offset + (fuel - 1) * Portion
    ensures FetchLoop(step, db, exec, sql, b, offset, fuel) == Some(Pages(step, db, all, offset))
    ensures FetchLoop(step, db, exec, sql, b, offset, fuel) == Some(InsertRows(step, db, all[offset..]))
  {
    FetchFollowsPages(step, db, exec, sql, b, all, offset, fuel);
    PagesCoverRows(step, db, all, offset);
  }

  /** Under the window reading, the fetch loop walks the same pages as `Pages`. */
  lemma {:induction false} FetchFollowsPages<S(!new)>(step: RowStep<S>, db: S, exec: string -> seq<Array<Value>>,
                                                 sql: Builder -> string, b: Builder, all: seq<Array<Value>>,
                                                 offset: nat, fuel: nat)
    requires forall o: nat :: exec(sql(Paged(b, o))) == Window(all, o)
    requires 0 < fuel && offset <= |all| <= offset + (fuel - 1) * Portion
    ensures FetchLoop(step, db, exec, sql, b, offset, fuel) == Some(Pages(step, db, all, offset))
    decreases fuel
  {
    var page := exec(sql(Paged(b, offset)));
    assert page == Window(all, offset);
    if offset < |all| {
      var w := InsertRows(step, db, page);
      if w.error.None? {
        var next := offset + Portion;
        assert next + (fuel - 2) * Portion == offset + (fuel - 1) * Portion;
        if next <= |all| {
          FetchFollowsPages(step, w.db, exec, sql, b, all, next, fuel - 1);
        } else {
          assert exec(sql(Paged(b, next))) == Window(all, next) == [];
        }
      }
    }
  }

  // ---------------------------------------------------------------------------
  // The copy
  // ---------------------------------------------------------------------------

  /**
   * What the copy carries from one table to the next: the destination
   * state, the running parameters, a `$select` that was not unset, and the
   * notices echoed so far.
   */
  datatype Run<S> = Run(db: S, params: Params, leftover: Option<Builder>, notices: seq<string>)

  /** The state reached, and the message of the exception that ended the copy, if any. */
  datatype Outcome<S> = Outcome(run: Run<S>, error: Option<string>)

  /** A table ready for the destination: where it goes, its parameters, its query and source columns, and the new columns. */
  datatype Setup = Setup(route: Route, params: Params, prepared: Prepared, columns: ColumnSet)

  /**
   * Everything before the destination is touched: dispatch, parameter
   * merge, the source table check, the source columns and
   * `processColumns`. `reading` selects the column placement.
   */
  function SetupTable<S(!new)>(reading: Reading, src: Source, run: Run<S>, key: Key, spec: TableSpec): (r: Result<Setup>)
    ensures Dispatch(key, spec).Err? ==> r == Err(IncorrectTables)
    ensures Dispatch(key, spec).Ok? ==> var from := Dispatch(key, spec).value.from;
      from.FromTable? && !src.hasTable(from.name) ==> r == Err(MissingSource)
    ensures r.Ok? ==>
      && r.value.route == Dispatch(key, spec).value
      && r.value.params == ParamsFor(spec, run.params)
      && Prepare(src, run.leftover, r.value.route.from, r.value.params) == Ok(r.value.prepared)
      && ProcessColumnsWith(reading, r.value.prepared.sourceColumns, r.value.params) == Ok(r.value.columns)
  {
    var route :- Dispatch(key, spec);
    var params := ParamsFor(spec, run.params);
    if route.from.FromTable? && !src.hasTable(route.from.name) then Err(MissingSource)
    else
      var prepared :- Prepare(src, run.leftover, route.from, params);
      var columns :- ProcessColumnsWith(reading, prepared.sourceColumns, params);
      Ok(Setup(route, params, prepared, columns))
  }

  /** How the rows of a set-up table are written to the destination. */
  function RowCopyOf(setup: Setup): RowCopy {
    var p := setup.prepared;
    RowCopy(setup.route.to, CreateColumnsMap(p.sourceColumns, setup.params), setup.params.handler,
            if p.useType then Some(p.sourceColumns) else None)
  }

  /**
   * One table spec. `reading` selects the code as written, where a skipped
   * table's `$select` survives into the next table and `processColumns`
   * places columns as written, or the intended behaviour, where every table
   * starts without a `$select` and columns are placed as the row map does.
   * After an exception the running state no longer matters.
   */
  function CopyTable<S(!new)>(reading: Reading, action: Action, src: Source, dst: Target<S>, run: Run<S>, key: Key, spec: TableSpec): (o: Outcome<S>)
    ensures Echoed(run.notices, o.run.notices, 1)
    ensures |o.run.notices| > |run.notices| ==> o.error.None? && o.run.db == run.db
  {
    match SetupTable(reading, src, run, key, spec)
    case Err(m) => Outcome(run, Some(m))
    case Ok(setup) =>
      var run := run.(params := setup.params);
      match Reconcile(action, dst, run.db, setup.route.to, setup.columns)
      case StopCopy => Outcome(run, Some(StopMessage(setup.route)))
      case SkipTable =>
        var leftover := if reading == AsWritten then Some(setup.prepared.select) else None;
        Outcome(run.(leftover := leftover, notices := run.notices + [SkipNotice(setup.route)]), None)
      case Proceed(db) =>
        var w := Pages(RowStepOf(dst, RowCopyOf(setup)), db, src.rows(setup.prepared.select), 0);
        Outcome(run.(db := w.db, leftover := None), w.error)
  }

  /**
   * The notices echoed by a run: what was echoed before stays, and at most
   * `n` lines are added.
   */
  predicate Echoed(before: seq<string>, after: seq<string>, n: nat) {
    |before| <= |after| <= |before| + n && after[..|before|] == before
  }

  /** The table specs in order, stopping at the first that throws; each table echoes at most one notice. */
  function CopyAll<S(!new)>(reading: Reading, action: Action, src: Source, dst: Target<S>, run: Run<S>, entries: seq<(Key, TableSpec)>): (o: Outcome<S>)
    ensures Echoed(run.notices, o.run.notices, |entries|)
    decreases |entries|
  {
    if |entries| == 0 then Outcome(run, None)
    else
      var o := CopyTable(reading, action, src, dst, run, entries[0].0, entries[0].1);
      if o.error.Some? then o else CopyAll(reading, action, src, dst, o.run, entries[1..])
  }

  /** `copy($tables, $params)` with the exists-action `action`, from destination state `db`. */
  function Copy<S(!new)>(reading: Reading, action: Action, src: Source, dst: Target<S>, db: S, tables: Tables, params: Params): (o: Outcome<S>)
    ensures |o.run.notices| <= |Entries(tables)|
    ensures Entries(tables) == [] ==> o == Outcome(Run(db, params, None, []), None)
  {
    CopyAll(reading, action, src, dst, Run(db, params, None, []), Entries(tables))
  }

  // ---------------------------------------------------------------------------
  // What one table does
  // ---------------------------------------------------------------------------

  /** An exception before the destination is touched leaves the destination and the carried state alone. */
  lemma SetupFailureTouchesNothing<S(!new)>(reading: Reading, action: Action, src: Source, dst: Target<S>, run: Run<S>, key: Key, spec: TableSpec)
    requires SetupTable(reading, src, run, key, spec).Err?
    ensures CopyTable(reading, action, src, dst, run, key, spec) == Outcome(run, Some(SetupTable(reading, src, run, key, spec).message))
  {
  }

  /** A spec naming a source table that does not exist throws before any destination call. */
  lemma MissingSourceStops<S(!new)>(reading: Reading, action: Action, src: Source, dst: Target<S>, run: Run<S>, key: Key, name: string)
    requires !src.hasTable(if key.IKey? then name else key.s)
    ensures CopyTable(reading, action, src, dst, run, key, Name(name)) == Outcome(run, Some(MissingSource))
  {
  }

  /** With `stop`, an existing destination table ends the copy with its message and nothing is written. */
  lemma StopOnExisting<S(!new)>(reading: Reading, src: Source, dst: Target<S>, run: Run<S>, key: Key, spec: TableSpec)
    requires SetupTable(reading, src, run, key, spec).Ok?
    requires dst.hasTable(run.db, SetupTable(reading, src, run, key, spec).value.route.to)
    ensures var setup := SetupTable(reading, src, run, key, spec).value;
      CopyTable(reading, Stop, src, dst, run, key, spec) == Outcome(run.(params := setup.params), Some(StopMessage(setup.route)))
  {
  }

  /** With `skip`, an existing destination table is left alone, a notice is echoed, and the copy goes on. */
  lemma SkipOnExisting<S(!new)>(reading: Reading, src: Source, dst: Target<S>, run: Run<S>, key: Key, spec: TableSpec)
    requires SetupTable(reading, src, run, key, spec).Ok?
    requires dst.hasTable(run.db, SetupTable(reading, src, run, key, spec).value.route.to)
    ensures var o := CopyTable(reading, Skip, src, dst, run, key, spec);
      && o.error.None?
      && o.run.db == run.db
      && o.run.notices == run.notices + [SkipNotice(SetupTable(reading, src, run, key, spec).value.route)]
  {
  }

  /**
   * A table that goes on to its rows inserts every row of its query, in
   * order, each through `processFields` and the upsert, until one throws.
   */
  lemma ProceedCopiesRows<S(!new)>(reading: Reading, action: Action, src: Source, dst: Target<S>, run: Run<S>, key: Key, spec: TableSpec)
    requires SetupTable(reading, src, run, key, spec).Ok?
    requires var setup := SetupTable(reading, src, run, key, spec).value;
      Reconcile(action, dst, run.db, setup.route.to, setup.columns).Proceed?
    ensures var setup := SetupTable(reading, src, run, key, spec).value;
      var db := Reconcile(action, dst, run.db, setup.route.to, setup.columns).db;
      var w := InsertRows(RowStepOf(dst, RowCopyOf(setup)), db, src.rows(setup.prepared.select));
      CopyTable(reading, action, src, dst, run, key, spec) == Outcome(run.(db := w.db, params := setup.params, leftover := None), w.error)
  {
    var setup := SetupTable(reading, src, run, key, spec).value;
    var db := Reconcile(action, dst, run.db, setup.route.to, setup.columns).db;
    PagesCoverRows(RowStepOf(dst, RowCopyOf(setup)), db, src.rows(setup.prepared.select), 0);
  }

  /** A table that does not throw leaves the running parameters merged with its own. */
  lemma ParamsCarriedOver<S(!new)>(reading: Reading, action: Action, src: Source, dst: Target<S>, run: Run<S>, key: Key, spec: TableSpec)
    requires CopyTable(reading, action, src, dst, run, key, spec).error.None?
    ensures CopyTable(reading, action, src, dst, run, key, spec).run.params == ParamsFor(spec, run.params)
  {
  }

  /**
   * Parameters accumulate across tables and the earlier table wins: a
   * `fields` rule the first spec carries stays in force for the second
   * spec, whatever that one carries.
   */
  lemma EarlierTableWins(first: TableSpec, second: TableSpec, running: Params)
    requires first.Spec? && !first.params.fields.Absent? && running.fields.Absent?
    ensures ParamsFor(second, ParamsFor(first, running)).fields == first.params.fields
  {
  }

  // ---------------------------------------------------------------------------
  // Reconciling keeps a destination table in place
  // ---------------------------------------------------------------------------

  /**
   * What the schema calls promise: a created table exists and matches the
   * columns it was created with; a truncated table still exists and still
   * matches whatever it matched.
   */
  ghost predicate Lawful<S(!new)>(dst: Target<S>) {
    && (forall db, t, c {:trigger dst.create(db, t, c)} :: dst.hasTable(dst.create(db, t, c), t) && dst.equal(dst.create(db, t, c), t, c))
    && (forall db, t {:trigger dst.truncate(db, t)} :: dst.hasTable(db, t) ==> dst.hasTable(dst.truncate(db, t), t))
    && (forall db, t, c {:trigger dst.equal(dst.truncate(db, t), t, c)} :: dst.equal(db, t, c) ==> dst.equal(dst.truncate(db, t), t, c))
  }

  /**
   * Whenever the rows are copied the destination table exists, and, unless
   * the action is `append`, it matches the new columns; `append` onto a
   * table that does not match goes on regardless.
   */
  lemma ReconcileReadiesTable<S(!new)>(action: Action, dst: Target<S>, db: S, to: Value, columns: ColumnSet)
    requires Lawful(dst)
    requires Reconcile(action, dst, db, to, columns).Proceed?
    ensures var next := Reconcile(action, dst, db, to, columns).db;
      dst.hasTable(next, to) && (action != Append || !dst.hasTable(db, to) ==> dst.equal(next, to, columns))
    ensures action == Append && dst.hasTable(db, to) ==> Reconcile(action, dst, db, to, columns).db == db
  {
    if dst.hasTable(db, to) && action == RewriteOrClear && dst.equal(db, to, columns) {
      assert dst.equal(dst.truncate(db, to), to, columns);
    }
  }

  // ---------------------------------------------------------------------------
  // The `$select` of a skipped table
  // ---------------------------------------------------------------------------

  /**
   * As written, a table skipped because its destination exists leaves its
   * `$select` set (the `continue` bypasses the `unset`), and the next table
   * named by a string reads its rows through that query instead of one over
   * its own source table.
   */
  lemma SkipLeaksSelect<S(!new)>(src: Source, dst: Target<S>, run: Run<S>, a: string, b: string)
    requires run.leftover.None? && a != b && !Contains(a, " ") && !Contains(b, " ")
    requires src.hasTable(a) && dst.hasTable(run.db, Str(a))
    requires ProcessColumnsWith(AsWritten, src.columns(a), run.params).Ok?
    ensures var o := CopyTable(AsWritten, Skip, src, dst, run, IKey(0), Name(a));
      && o.error.None?
      && o.run.leftover == Some(From(src.builder, Str(a), Null).value)
      && SelectFor(src, o.run.leftover, FromTable(b)) == Ok(From(src.builder, Str(a), Null).value)
      && SelectFor(src, o.run.leftover, FromTable(b)) != From(src.builder, Str(b), Null)
  {
    FromName(src.builder, a, Null);
    FromName(src.builder, b, Null);
  }

  /** As intended, no table leaves a `$select` behind, whatever happens to it. */
  lemma NoSelectCarriedOver<S(!new)>(action: Action, src: Source, dst: Target<S>, run: Run<S>, key: Key, spec: TableSpec)
    requires run.leftover.None?
    ensures CopyTable(Intended, action, src, dst, run, key, spec).run.leftover.None?
  {
  }

  /** So, as intended, every table named by a string reads through a fresh select over its own source table. */
  lemma {:induction false} EachTableReadsItself<S(!new)>(action: Action, src: Source, dst: Target<S>, run: Run<S>, entries: seq<(Key, TableSpec)>)
    requires run.leftover.None?
    ensures CopyAll(Intended, action, src, dst, run, entries).run.leftover.None?
    decreases |entries|
  {
    if |entries| > 0 {
      NoSelectCarriedOver(action, src, dst, run, entries[0].0, entries[0].1);
      var o := CopyTable(Intended, action, src, dst, run, entries[0].0, entries[0].1);
      if o.error.None? {
        EachTableReadsItself(action, src, dst, o.run, entries[1..]);
      }
    }
  }
}
