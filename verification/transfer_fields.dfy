/**
 * `Transfer::processFields`: turns one fetched source row into the row that
 * is written to the destination table.
 *
 * Without a column map every field is kept under its own name. With one, a
 * field whose name the map does not hold is dropped, and a kept field is
 * written under the mapped name, or under each name of a mapped list. Each
 * written value is passed through the `handler` (when given) and then the
 * destination connection's `quote`, which is a parameter here.
 */
module TransferFields {
  import opened Wrappers
  import opened PhpArray
  import opened PhpValue
  import opened TransferRules
  import opened TransferColumns
  import BasePDO
  import TransferMap

  type ColumnSet = BasePDO.ColumnSet

  /**
   * `isset($params['sourceColumns'][$name]['type']) ? ... : false`; the
   * source columns are `false` (here `None`) for a copy driven by raw SQL.
   */
  function TypeOf(sourceColumns: Option<ColumnSet>, name: Key): (r: Value)
    ensures sourceColumns.None? ==> r == Bool(false)
    ensures sourceColumns.Some? && Get(sourceColumns.value, name).Some? ==>
      r == match IssetGet(Get(sourceColumns.value, name).value, SKey("type"))
        case Some(t) => t
        case None => Bool(false)
  {
    match sourceColumns
    case None => Bool(false)
    case Some(sc) =>
      match Get(sc, name)
      case None => Bool(false)
      case Some(column) =>
        match IssetGet(column, SKey("type"))
        case None => Bool(false)
        case Some(t) => t
  }

  /**
   * The names field `$name` is written under: its own name without a map,
   * nothing when the map does not hold it, the mapped value, or each value
   * of a mapped list.
   */
  function NewNames(columnsMap: Option<Array<Value>>, name: Key): (r: seq<Value>)
    ensures columnsMap.None? ==> r == [KeyValue(name)]
    ensures columnsMap.Some? ==> (|r| == 0 <== IssetGet(columnsMap.value, name).None?)
  {
    match columnsMap
    case None => [KeyValue(name)]
    case Some(m) =>
      match IssetGet(m, name)
      case None => []
      case Some(Arr(entries)) => Values(entries)
      case Some(v) => [v]
  }

  /** The value stored for one target: the handler's result when a handler is given, then quoted. */
  function Stored(handler: Param<Handler>, quote: Value -> string, target: Value, typ: Value, field: Value): (r: Value)
    ensures r.Str?
    ensures !handler.Given? ==> r == Str(quote(field))
    ensures handler.Given? ==> r == Str(quote(handler.value(target, typ, field)))
  {
    var processed := if handler.Given? then handler.value(target, typ, field) else field;
    Str(quote(processed))
  }

  /** The writes of one field, in order: each target with the value stored under it. */
  function FieldWrites(columnsMap: Option<Array<Value>>, handler: Param<Handler>, sourceColumns: Option<ColumnSet>,
                       quote: Value -> string, name: Key, field: Value): (r: seq<(Value, Value)>)
    ensures |r| == |NewNames(columnsMap, name)|
    ensures forall j :: 0 <= j < |r| ==>
      r[j] == (NewNames(columnsMap, name)[j], Stored(handler, quote, NewNames(columnsMap, name)[j], TypeOf(sourceColumns, name), field))
  {
    var ts := NewNames(columnsMap, name);
    var typ := TypeOf(sourceColumns, name);
    seq(|ts|, j requires 0 <= j < |ts| => (ts[j], Stored(handler, quote, ts[j], typ, field)))
  }

  /** The writes of every field of the row. */
  function RowWrites(row: Array<Value>, columnsMap: Option<Array<Value>>, handler: Param<Handler>,
                     sourceColumns: Option<ColumnSet>, quote: Value -> string): (r: seq<seq<(Value, Value)>>)
    ensures |r| == |row|
    ensures forall i :: 0 <= i < |r| ==> r[i] == FieldWrites(columnsMap, handler, sourceColumns, quote, row[i].0, row[i].1)
  {
    seq(|row|, i requires 0 <= i < |row| => FieldWrites(columnsMap, handler, sourceColumns, quote, row[i].0, row[i].1))
  }

  /** `$newRow[$newName] = ...` for each write of one field; an array or object name throws. */
  function Store(write: TransferMap.Setter, acc: Array<Value>, ws: seq<(Value, Value)>): Result<Array<Value>>
  {
    if |ws| == 0 then Ok(acc)
    else
      match Store(write, acc, ws[..|ws| - 1])
      case Err(e) => Err(e)
      case Ok(prev) =>
        match AsKey(ws[|ws| - 1].0)
        case None => Err(IllegalOffset)
        case Some(k) => Ok(write(prev, k, ws[|ws| - 1].1))
  }

  /** The new row after the first `n` fields. */
  function StoreAll(write: TransferMap.Setter, wss: seq<seq<(Value, Value)>>, n: nat): Result<Array<Value>>
    requires n <= |wss|
  {
    if n == 0 then Ok([])
    else
      match StoreAll(write, wss, n - 1)
      case Err(e) => Err(e)
      case Ok(acc) => Store(write, acc, wss[n - 1])
  }

  /** `processFields($row, $columnsMap, $params)`. */
  function ProcessFields(row: Array<Value>, columnsMap: Option<Array<Value>>, handler: Param<Handler>,
                         sourceColumns: Option<ColumnSet>, quote: Value -> string): (r: Result<Array<Value>>)
    ensures r.Err? ==> r.message == IllegalOffset
  {
    var wss := RowWrites(row, columnsMap, handler, sourceColumns, quote);
    StoreAllFails(TransferMap.ArraySet, wss, |wss|);
    StoreAll(TransferMap.ArraySet, wss, |wss|)
  }

  // ---------------------------------------------------------------------------
  // What the new row holds
  // ---------------------------------------------------------------------------

  /** Every target of the writes can be an array key. */
  predicate Legal(ws: seq<(Value, Value)>) {
    forall j :: 0 <= j < |ws| ==> AsKey(ws[j].0).Some?
  }

  /** The value of the last of the writes whose target is the key `k`. */
  function LastIn(ws: seq<(Value, Value)>, k: Key): Option<Value> {
    if |ws| == 0 then None
    else if AsKey(ws[|ws| - 1].0) == Some(k) then Some(ws[|ws| - 1].1)
    else LastIn(ws[..|ws| - 1], k)
  }

  /** The value of the last write to `k` among the first `n` fields. */
  function LastAll(wss: seq<seq<(Value, Value)>>, n: nat, k: Key): Option<Value>
    requires n <= |wss|
  {
    if n == 0 then None
    else if LastIn(wss[n - 1], k).Some? then LastIn(wss[n - 1], k)
    else LastAll(wss, n - 1, k)
  }

  lemma {:induction false} StoreFails(write: TransferMap.Setter, acc: Array<Value>, ws: seq<(Value, Value)>)
    ensures Store(write, acc, ws).Ok? <==> Legal(ws)
    ensures Store(write, acc, ws).Err? ==> Store(write, acc, ws).message == IllegalOffset
  {
    if |ws| > 0 {
      var init := ws[..|ws| - 1];
      StoreFails(write, acc, init);
      assert Legal(ws) <==> Legal(init) && AsKey(ws[|ws| - 1].0).Some?;
    }
  }

  lemma {:induction false} StoreLookup(write: TransferMap.Setter, acc: Array<Value>, ws: seq<(Value, Value)>, k: Key)
    requires TransferMap.SetsByKey(write)
    ensures Store(write, acc, ws).Ok? ==>
      Get(Store(write, acc, ws).value, k) == if LastIn(ws, k).Some? then LastIn(ws, k) else Get(acc, k)
  {
    if |ws| > 0 {
      var init := ws[..|ws| - 1];
      StoreLookup(write, acc, init, k);
      var prev := Store(write, acc, init);
      if prev.Ok? && AsKey(ws[|ws| - 1].0).Some? {
        var key := AsKey(ws[|ws| - 1].0).value;
        assert Get(TransferMap.Wrote(write, prev.value, key, ws[|ws| - 1].1), k) == if k == key then Some(ws[|ws| - 1].1) else Get(prev.value, k);
      }
    }
  }

  lemma {:induction false} StoreAllFails(write: TransferMap.Setter, wss: seq<seq<(Value, Value)>>, n: nat)
    requires n <= |wss|
    ensures StoreAll(write, wss, n).Ok? <==> forall i :: 0 <= i < n ==> Legal(wss[i])
    ensures StoreAll(write, wss, n).Err? ==> StoreAll(write, wss, n).message == IllegalOffset
  {
    if n > 0 {
      StoreAllFails(write, wss, n - 1);
      if StoreAll(write, wss, n - 1).Ok? {
        StoreFails(write, StoreAll(write, wss, n - 1).value, wss[n - 1]);
      }
    }
  }

  lemma StoreAllLookup(write: TransferMap.Setter, wss: seq<seq<(Value, Value)>>, n: nat, k: Key)
    requires n <= |wss| && TransferMap.SetsByKey(write)
    ensures StoreAll(write, wss, n).Ok? ==> Get(StoreAll(write, wss, n).value, k) == LastAll(wss, n, k)
  {
    var i := 0;
    while i < n
      invariant i <= n
      invariant OkHolds(StoreAll(write, wss, i), k, LastAll(wss, i, k))
    {
      StoreAllStep(write, wss, i, k);
      i := i + 1;
    }
  }

  /** The field after the first `m` keeps the new row's entries those of the last writes. */
  lemma StoreAllStep(write: TransferMap.Setter, wss: seq<seq<(Value, Value)>>, m: nat, k: Key)
    requires m < |wss|
    ensures TransferMap.SetsByKey(write) && OkHolds(StoreAll(write, wss, m), k, LastAll(wss, m, k)) ==>
      OkHolds(StoreAll(write, wss, m + 1), k, LastAll(wss, m + 1, k))
  {
    var prev := StoreAll(write, wss, m);
    if prev.Ok? && TransferMap.SetsByKey(write) {
      assert StoreAll(write, wss, m + 1) == Store(write, prev.value, wss[m]);
      StoreLookup(write, prev.value, wss[m], k);
    }
  }

  /** The last write to `k` is found exactly when some write goes to `k`. */
  lemma {:induction false} LastInSome(ws: seq<(Value, Value)>, k: Key)
    ensures LastIn(ws, k).Some? <==> exists j :: 0 <= j < |ws| && AsKey(ws[j].0) == Some(k)
  {
    if |ws| > 0 {
      var init := ws[..|ws| - 1];
      LastInSome(init, k);
      if exists j :: 0 <= j < |init| && AsKey(init[j].0) == Some(k) {
        var j :| 0 <= j < |init| && AsKey(init[j].0) == Some(k);
        assert ws[j] == init[j];
      }
    }
  }

  /** A write to `k` that no later write to `k` follows is the one found. */
  lemma {:induction false} LastInAt(ws: seq<(Value, Value)>, j: nat, k: Key)
    requires j < |ws| && AsKey(ws[j].0) == Some(k)
    requires forall j' :: j < j' < |ws| ==> AsKey(ws[j'].0) != Some(k)
    ensures LastIn(ws, k) == Some(ws[j].1)
  {
    if j < |ws| - 1 {
      var init := ws[..|ws| - 1];
      assert init[j] == ws[j];
      LastInAt(init, j, k);
    }
  }

  lemma {:induction false} LastAllSome(wss: seq<seq<(Value, Value)>>, n: nat, k: Key)
    requires n <= |wss|
    ensures LastAll(wss, n, k).Some? <==> exists i :: 0 <= i < n && LastIn(wss[i], k).Some?
  {
    if n > 0 {
      LastAllSome(wss, n - 1, k);
    }
  }

  lemma {:induction false} LastAllAt(wss: seq<seq<(Value, Value)>>, n: nat, i: nat, k: Key)
    requires i < n <= |wss| && LastIn(wss[i], k).Some?
    requires forall i' :: i < i' < n ==> LastIn(wss[i'], k).None?
    ensures LastAll(wss, n, k) == LastIn(wss[i], k)
  {
    if i < n - 1 {
      LastAllAt(wss, n - 1, i, k);
    }
  }

  /** Field `$name` writes something under key `k`. */
  predicate WritesKey(columnsMap: Option<Array<Value>>, name: Key, k: Key) {
    exists t :: t in NewNames(columnsMap, name) && AsKey(t) == Some(k)
  }

  lemma FieldWritesKey(columnsMap: Option<Array<Value>>, handler: Param<Handler>, sourceColumns: Option<ColumnSet>,
                       quote: Value -> string, name: Key, field: Value, k: Key)
    ensures LastIn(FieldWrites(columnsMap, handler, sourceColumns, quote, name, field), k).Some? <==> WritesKey(columnsMap, name, k)
  {
    NamesWritten(FieldWrites(columnsMap, handler, sourceColumns, quote, name, field), NewNames(columnsMap, name), k);
  }

  /** Writes to the names `ts`, in order, write `k` exactly when one of the names is `k` as a key. */
  lemma NamesWritten(ws: seq<(Value, Value)>, ts: seq<Value>, k: Key)
    requires |ws| == |ts| && forall j :: 0 <= j < |ws| ==> ws[j].0 == ts[j]
    ensures LastIn(ws, k).Some? <==> exists t :: t in ts && AsKey(t) == Some(k)
  {
    LastInSome(ws, k);
    if exists t :: t in ts && AsKey(t) == Some(k) {
      var t :| t in ts && AsKey(t) == Some(k);
      var j :| 0 <= j < |ts| && ts[j] == t;
      assert AsKey(ws[j].0) == Some(k);
    }
  }

  /**
   * The row fails with an illegal offset exactly when some kept field is
   * mapped to an array or an object; the handler and `quote` are not
   * involved.
   */
  lemma ProcessFieldsFails(row: Array<Value>, columnsMap: Option<Array<Value>>, handler: Param<Handler>,
                           sourceColumns: Option<ColumnSet>, quote: Value -> string)
    ensures ProcessFields(row, columnsMap, handler, sourceColumns, quote).Ok? <==>
      forall i :: 0 <= i < |row| ==> NamesLegal(NewNames(columnsMap, row[i].0))
  {
    var wss := RowWrites(row, columnsMap, handler, sourceColumns, quote);
    StoreAllFails(TransferMap.ArraySet, wss, |wss|);
    forall i | 0 <= i < |row|
      ensures Legal(wss[i]) <==> NamesLegal(NewNames(columnsMap, row[i].0))
    {
      LegalNames(wss[i], NewNames(columnsMap, row[i].0));
    }
  }

  /** No new name is an array or an object: each can be an array key. */
  predicate NamesLegal(ts: seq<Value>) {
    forall t :: t in ts ==> !t.Arr? && !t.Expr?
  }

  /** Writes to the names `ts` are legal exactly when no name is an array or an object. */
  lemma LegalNames(ws: seq<(Value, Value)>, ts: seq<Value>)
    requires |ws| == |ts| && forall j :: 0 <= j < |ws| ==> ws[j].0 == ts[j]
    ensures Legal(ws) <==> NamesLegal(ts)
  {
    if !Legal(ws) {
      var j :| 0 <= j < |ws| && AsKey(ws[j].0).None?;
      assert ts[j] in ts;
    }
  }

  /** The new row holds exactly the keys some field writes, and each holds the last value written to it. */
  lemma ProcessFieldsKeys(row: Array<Value>, columnsMap: Option<Array<Value>>, handler: Param<Handler>,
                          sourceColumns: Option<ColumnSet>, quote: Value -> string, k: Key)
    requires ProcessFields(row, columnsMap, handler, sourceColumns, quote).Ok?
    ensures Get(ProcessFields(row, columnsMap, handler, sourceColumns, quote).value, k).Some? <==>
      exists i :: 0 <= i < |row| && WritesKey(columnsMap, row[i].0, k)
  {
    var wss := RowWrites(row, columnsMap, handler, sourceColumns, quote);
    TransferMap.ArraySetsByKey();
    StoreAllLookup(TransferMap.ArraySet, wss, |wss|, k);
    LastAllSome(wss, |wss|, k);
    forall i | 0 <= i < |row|
      ensures LastIn(wss[i], k).Some? <==> WritesKey(columnsMap, row[i].0, k)
    {
      FieldWritesKey(columnsMap, handler, sourceColumns, quote, row[i].0, row[i].1, k);
    }
  }

  /**
   * The value under a key is written by the LAST write to it: that field's
   * value, passed through the handler with the target and the column type,
   * then quoted. A later field mapped to the same name overwrites an
   * earlier one.
   */
  lemma ProcessFieldsValue(row: Array<Value>, columnsMap: Option<Array<Value>>, handler: Param<Handler>,
                           sourceColumns: Option<ColumnSet>, quote: Value -> string, i: nat, j: nat, k: Key)
    requires ProcessFields(row, columnsMap, handler, sourceColumns, quote).Ok?
    requires i < |row| && j < |NewNames(columnsMap, row[i].0)|
    requires AsKey(NewNames(columnsMap, row[i].0)[j]) == Some(k)
    requires forall j' :: j < j' < |NewNames(columnsMap, row[i].0)| ==> AsKey(NewNames(columnsMap, row[i].0)[j']) != Some(k)
    requires forall i' :: i < i' < |row| ==> !WritesKey(columnsMap, row[i'].0, k)
    ensures Get(ProcessFields(row, columnsMap, handler, sourceColumns, quote).value, k) ==
      Some(Stored(handler, quote, NewNames(columnsMap, row[i].0)[j], TypeOf(sourceColumns, row[i].0), row[i].1))
  {
    var wss := RowWrites(row, columnsMap, handler, sourceColumns, quote);
    TransferMap.ArraySetsByKey();
    StoreAllLookup(TransferMap.ArraySet, wss, |wss|, k);
    LastInAt(wss[i], j, k);
    forall i' | i < i' < |row|
      ensures LastIn(wss[i'], k).None?
    {
      FieldWritesKey(columnsMap, handler, sourceColumns, quote, row[i'].0, row[i'].1, k);
    }
    LastAllAt(wss, |wss|, i, k);
  }

  /** Without a column map no field can fail: every field is written under its own name. */
  lemma NoMapSucceeds(row: Array<Value>, handler: Param<Handler>, sourceColumns: Option<ColumnSet>, quote: Value -> string)
    ensures ProcessFields(row, None, handler, sourceColumns, quote).Ok?
  {
    ProcessFieldsFails(row, None, handler, sourceColumns, quote);
  }

  /** Without a column map a field is kept under its own name, holding its handled and quoted value. */
  lemma NoMapKeepsField(row: Array<Value>, handler: Param<Handler>, sourceColumns: Option<ColumnSet>,
                        quote: Value -> string, i: nat)
    requires Distinct(row) && forall i' :: 0 <= i' < |row| ==> ValidKey(row[i'].0)
    requires i < |row|
    ensures ProcessFields(row, None, handler, sourceColumns, quote).Ok?
    ensures Get(ProcessFields(row, None, handler, sourceColumns, quote).value, row[i].0) ==
      Some(Stored(handler, quote, KeyValue(row[i].0), TypeOf(sourceColumns, row[i].0), row[i].1))
  {
    NoMapSucceeds(row, handler, sourceColumns, quote);
    var name := row[i].0;
    AsKeyOfKeyValue(name);
    forall i' | 0 <= i' < |row| && i' != i
      ensures !WritesKey(None, row[i'].0, name)
    {
      AsKeyOfKeyValue(row[i'].0);
    }
    ProcessFieldsValue(row, None, handler, sourceColumns, quote, i, 0, name);
  }

  /** Without a column map nothing is written under a key the row does not have. */
  lemma NoMapAddsNothing(row: Array<Value>, handler: Param<Handler>, sourceColumns: Option<ColumnSet>,
                         quote: Value -> string, k: Key)
    requires forall i' :: 0 <= i' < |row| ==> ValidKey(row[i'].0)
    requires !HasKey(row, k)
    ensures ProcessFields(row, None, handler, sourceColumns, quote).Ok?
    ensures Get(ProcessFields(row, None, handler, sourceColumns, quote).value, k).None?
  {
    NoMapSucceeds(row, handler, sourceColumns, quote);
    ProcessFieldsKeys(row, None, handler, sourceColumns, quote, k);
    forall i' | 0 <= i' < |row|
      ensures !WritesKey(None, row[i'].0, k)
    {
      AsKeyOfKeyValue(row[i'].0);
      assert row[i'].0 in Keys(row);
    }
  }

  /** A field the map does not hold is dropped: every key of the new row comes from a field the map holds. */
  lemma UnmappedFieldDropped(row: Array<Value>, m: Array<Value>, handler: Param<Handler>, sourceColumns: Option<ColumnSet>,
                             quote: Value -> string, k: Key)
    requires ProcessFields(row, Some(m), handler, sourceColumns, quote).Ok?
    ensures Get(ProcessFields(row, Some(m), handler, sourceColumns, quote).value, k).Some? ==>
      exists i :: 0 <= i < |row| && IssetGet(m, row[i].0).Some? && WritesKey(Some(m), row[i].0, k)
  {
    ProcessFieldsKeys(row, Some(m), handler, sourceColumns, quote, k);
  }

  /** A field mapped to a list of names is written under each of them. */
  lemma MappedListFansOut(row: Array<Value>, m: Array<Value>, handler: Param<Handler>, sourceColumns: Option<ColumnSet>,
                          quote: Value -> string, i: nat, entries: Array<Value>, j: nat, k: Key)
    requires ProcessFields(row, Some(m), handler, sourceColumns, quote).Ok?
    requires i < |row| && IssetGet(m, row[i].0) == Some(Arr(entries))
    requires j < |entries| && AsKey(entries[j].1) == Some(k)
    ensures Get(ProcessFields(row, Some(m), handler, sourceColumns, quote).value, k).Some?
  {
    assert NewNames(Some(m), row[i].0)[j] == entries[j].1;
    assert WritesKey(Some(m), row[i].0, k);
    ProcessFieldsKeys(row, Some(m), handler, sourceColumns, quote, k);
  }
}
