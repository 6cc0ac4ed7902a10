/**
 * `Transfer::createColumnsMap`: the map from each source column name to the
 * name (or, for a callback rule, the list of names) its values are copied
 * under, built with the same `fields` and `types` rules `processColumns`
 * uses.
 */
module TransferMap {
  import opened Wrappers
  import opened PhpArray
  import opened PhpValue
  import opened TransferRules
  import opened TransferColumns
  import BasePDO

  type Column = BasePDO.Column
  type ColumnSet = BasePDO.ColumnSet

  /** `array_keys($result)`: the keys of a callback's result, as a list. */
  function KeysList(res: ColumnSet): (r: Array<Value>)
    ensures |r| == |res|
    ensures forall i :: 0 <= i < |r| ==> r[i] == (IKey(i), KeyValue(res[i].0))
  {
    if |res| == 0 then []
    else KeysList(res[..|res| - 1]) + [(IKey(|res| - 1), KeyValue(res[|res| - 1].0))]
  }

  /** The entry the `fields` rule writes for a column, if any. */
  function FieldsEntry(fr: Option<FieldsRule>, ind: int, name: Key, column: Column): Option<Value> {
    match fr
    case None => None
    case Some(Callback(f)) =>
      var res := f(ind, name, column);
      if |res| > 0 then Some(Arr(KeysList(res))) else None
    case Some(Named(rule, fields)) => NamedTarget(Intended, rule, fields, name)
  }

  /** The `types` rule writes the column's own name: a whitelist when a fragment is found, a blacklist when none is. */
  predicate TypesKeeps(tr: Option<TypesRule>, column: Column) {
    match tr
    case None => false
    case Some(TypesRule(rule, types)) =>
      (rule == Whitelist && Found(column, types)) || (rule == Blacklist && !Found(column, types))
  }

  /** What the iteration for one column writes: under its name, the `fields` entry, then the `types` entry. */
  datatype Write = Write(name: Key, fields: Option<Value>, types: Option<Value>)

  function ColumnWrite(fr: Option<FieldsRule>, tr: Option<TypesRule>, ind: int, name: Key, column: Column): Write {
    Write(name, FieldsEntry(fr, ind, name, column), if TypesKeeps(tr, column) then Some(KeyValue(name)) else None)
  }

  /** The writes of every column, `$ind` counting from 0. */
  function Writes(fr: Option<FieldsRule>, tr: Option<TypesRule>, columns: ColumnSet): (r: seq<Write>)
    ensures |r| == |columns|
    ensures forall i :: 0 <= i < |r| ==> r[i] == ColumnWrite(fr, tr, i, columns[i].0, columns[i].1)
  {
    seq(|columns|, i requires 0 <= i < |columns| => ColumnWrite(fr, tr, i, columns[i].0, columns[i].1))
  }

  /** How one entry of the map is written. */
  type Setter = (Array<Value>, Key, Value) -> Array<Value>

  /** `$columnsMap[$name] = $value`. */
  const ArraySet: Setter := (cm: Array<Value>, name: Key, v: Value) => Assign(cm, name, v)

  /** An optional write: nothing happens when there is no entry. */
  function Put(write: Setter, cm: Array<Value>, name: Key, e: Option<Value>): Array<Value> {
    match e
    case None => cm
    case Some(v) => write(cm, name, v)
  }

  /** The map after the first `n` iterations of the `foreach`. */
  function MapFold(write: Setter, ws: seq<Write>, n: nat): Array<Value>
    requires n <= |ws|
  {
    if n == 0 then []
    else Put(write, Put(write, MapFold(write, ws, n - 1), ws[n - 1].name, ws[n - 1].fields), ws[n - 1].name, ws[n - 1].types)
  }

  /**
   * `createColumnsMap($columns, $params)`: `false` (here `None`) when
   * neither rule is given, otherwise the map.
   */
  function CreateColumnsMap(columns: ColumnSet, params: Params): (r: Option<Array<Value>>)
    ensures r.None? <==> ParseFields(params.fields).None? && ParseTypes(params.types).None?
  {
    var fr := ParseFields(params.fields);
    var tr := ParseTypes(params.types);
    if fr.None? && tr.None? then None
    else
      var ws := Writes(fr, tr, columns);
      Some(MapFold(ArraySet, ws, |ws|))
  }

  // ---------------------------------------------------------------------------
  // What the map holds
  // ---------------------------------------------------------------------------

  /** The entry one write leaves: the `types` rule's own name wins over the `fields` entry. */
  function Effective(w: Write): Option<Value> {
    if w.types.Some? then w.types else w.fields
  }

  /** The entry a column ends with under the rules `fr` and `tr`. */
  function ColumnEntry(fr: Option<FieldsRule>, tr: Option<TypesRule>, ind: int, name: Key, column: Column): Option<Value> {
    Effective(ColumnWrite(fr, tr, ind, name, column))
  }

  /** The entry under key `k` after `n` writes: that of the last write to `k` that had one. */
  function MapLast(ws: seq<Write>, n: nat, k: Key): Option<Value>
    requires n <= |ws|
  {
    if n == 0 then None else Held(ws[n - 1], k, MapLast(ws, n - 1, k))
  }

  /** The entry under `k` after write `w`, given the entry `before` it. */
  function Held(w: Write, k: Key, before: Option<Value>): Option<Value> {
    if w.name == k && Effective(w).Some? then Effective(w) else before
  }

  /**
   * Writing an entry: the key holds the value afterwards and every other
   * key keeps its value. The law sits one call down so that a caller
   * passing it on does not have to prove it again.
   */
  ghost predicate SetsByKey(write: Setter) {
    KeyLaw(write)
  }

  ghost predicate KeyLaw(write: Setter) {
    forall cm, name, v, k {:trigger Get(Wrote(write, cm, name, v), k)} :: Get(Wrote(write, cm, name, v), k) == if k == name then Some(v) else Get(cm, k)
  }

  /** `write` applied; the law above fires only where a proof names it. */
  function Wrote(write: Setter, cm: Array<Value>, name: Key, v: Value): Array<Value> {
    write(cm, name, v)
  }

  lemma ArraySetsByKey()
    ensures SetsByKey(ArraySet)
  {
  }

  lemma PutLookup(write: Setter, cm: Array<Value>, name: Key, e: Option<Value>, k: Key)
    requires SetsByKey(write)
    ensures Get(Put(write, cm, name, e), k) == if k == name && e.Some? then e else Get(cm, k)
  {
    if e.Some? {
      assert Get(Wrote(write, cm, name, e.value), k) == if k == name then e else Get(cm, k);
    }
  }

  /** Each key of the map holds the entry of the last write to it. */
  lemma MapFoldLookup(ws: seq<Write>, n: nat, k: Key)
    requires n <= |ws|
    ensures Get(MapFold(ArraySet, ws, n), k) == MapLast(ws, n, k)
  {
    var i := 0;
    while i < n
      invariant i <= n
      invariant Get(MapFold(ArraySet, ws, i), k) == MapLast(ws, i, k)
    {
      i := i + 1;
      MapFoldStep(ws, i, k);
      MapLastStep(ws, i, k);
    }
  }

  lemma MapLastStep(ws: seq<Write>, n: nat, k: Key)
    requires 0 < n <= |ws|
    ensures MapLast(ws, n, k) == Held(ws[n - 1], k, MapLast(ws, n - 1, k))
  {
  }

  /** The `n`-th iteration changes the map only under its own name. */
  lemma MapFoldStep(ws: seq<Write>, n: nat, k: Key)
    requires 0 < n <= |ws|
    ensures Get(MapFold(ArraySet, ws, n), k) == Held(ws[n - 1], k, Get(MapFold(ArraySet, ws, n - 1), k))
  {
    ArraySetsByKey();
    WriteLookup(ArraySet, MapFold(ArraySet, ws, n - 1), ws[n - 1], k);
  }

  /** One iteration leaves the write's effective entry under its name and nothing else changed. */
  lemma WriteLookup(write: Setter, prev: Array<Value>, w: Write, k: Key)
    requires SetsByKey(write)
    ensures Get(Put(write, Put(write, prev, w.name, w.fields), w.name, w.types), k) ==
      if k == w.name && Effective(w).Some? then Effective(w) else Get(prev, k)
  {
    PutLookup(write, prev, w.name, w.fields, k);
    PutLookup(write, Put(write, prev, w.name, w.fields), w.name, w.types, k);
  }

  /** When no other write goes to the same name, the entry under a name is that write's own. */
  lemma {:induction false} MapLastOwn(ws: seq<Write>, n: nat, i: nat)
    requires i < n <= |ws|
    requires forall j :: 0 <= j < n && j != i ==> ws[j].name != ws[i].name
    ensures MapLast(ws, n, ws[i].name) == Effective(ws[i])
  {
    if i < n - 1 {
      MapLastOwn(ws, n - 1, i);
    } else if Effective(ws[i]).None? {
      MapLastAbsent(ws, n - 1, ws[i].name);
    }
  }

  /** A key none of the first `n` writes goes to has no entry. */
  lemma {:induction false} MapLastAbsent(ws: seq<Write>, n: nat, k: Key)
    requires n <= |ws|
    requires forall j :: 0 <= j < n ==> ws[j].name != k
    ensures MapLast(ws, n, k).None?
  {
    if n > 0 {
      MapLastAbsent(ws, n - 1, k);
    }
  }

  /**
   * With distinct column names the map holds, under each column's name,
   * exactly that column's entry, and nothing under any other key.
   */
  lemma ColumnsMapEntries(columns: ColumnSet, params: Params, i: nat, k: Key)
    requires Distinct(columns) && i < |columns|
    requires CreateColumnsMap(columns, params).Some?
    ensures Get(CreateColumnsMap(columns, params).value, columns[i].0) ==
      ColumnEntry(ParseFields(params.fields), ParseTypes(params.types), i, columns[i].0, columns[i].1)
    ensures (forall j :: 0 <= j < |columns| ==> columns[j].0 != k) ==> Get(CreateColumnsMap(columns, params).value, k).None?
  {
    var ws := Writes(ParseFields(params.fields), ParseTypes(params.types), columns);
    MapFoldLookup(ws, |ws|, columns[i].0);
    MapLastOwn(ws, |ws|, i);
    MapFoldLookup(ws, |ws|, k);
    if forall j :: 0 <= j < |columns| ==> columns[j].0 != k {
      MapLastAbsent(ws, |ws|, k);
    }
  }

  /**
   * Without a `types` rule, the map sends each column exactly where
   * `processColumns` places it: the map's entry is the named rule's target.
   */
  lemma MapAgreesWithColumns(columns: ColumnSet, params: Params, rule: RuleName, fields: Array<Value>, i: nat)
    requires ParseFields(params.fields) == Some(Named(rule, fields)) && ParseTypes(params.types).None?
    requires Distinct(columns) && i < |columns|
    ensures CreateColumnsMap(columns, params).Some?
    ensures Get(CreateColumnsMap(columns, params).value, columns[i].0) == RuleTargets(Intended, rule, fields)(columns[i].0)
  {
    ColumnsMapEntries(columns, params, i, columns[i].0);
  }

  /** A `blacklist` maps every column it does not list to its own name, and a listed one to nothing. */
  lemma BlacklistMapsToSelf(columns: ColumnSet, params: Params, fields: Array<Value>, i: nat)
    requires ParseFields(params.fields) == Some(Named(Blacklist, fields)) && ParseTypes(params.types).None?
    requires Distinct(columns) && i < |columns|
    ensures CreateColumnsMap(columns, params).Some?
    ensures Get(CreateColumnsMap(columns, params).value, columns[i].0) ==
      if InArray(columns[i].0, fields) then None else Some(KeyValue(columns[i].0))
  {
    MapAgreesWithColumns(columns, params, Blacklist, fields, i);
  }

  /** `default` maps a column to its listed new name, and an unlisted one to its own name. */
  lemma DefaultMapsToRename(columns: ColumnSet, params: Params, fields: Array<Value>, i: nat)
    requires ParseFields(params.fields) == Some(Named(Default, fields)) && ParseTypes(params.types).None?
    requires Distinct(columns) && i < |columns|
    ensures CreateColumnsMap(columns, params).Some?
    ensures Get(CreateColumnsMap(columns, params).value, columns[i].0) ==
      match IssetGet(fields, columns[i].0)
      case Some(t) => Some(t)
      case None => Some(KeyValue(columns[i].0))
  {
    MapAgreesWithColumns(columns, params, Default, fields, i);
  }

  /** A callback rule maps a column to the list of the keys its non-empty result returned. */
  lemma CallbackMapsToKeys(columns: ColumnSet, params: Params, f: FieldsCallback, i: nat)
    requires ParseFields(params.fields) == Some(Callback(f)) && ParseTypes(params.types).None?
    requires Distinct(columns) && i < |columns|
    ensures CreateColumnsMap(columns, params).Some?
    ensures var res := f(i, columns[i].0, columns[i].1);
      Get(CreateColumnsMap(columns, params).value, columns[i].0) == if |res| > 0 then Some(Arr(KeysList(res))) else None
  {
    ColumnsMapEntries(columns, params, i, columns[i].0);
  }

  /** The `types` rule only adds entries: a column the `fields` rule maps stays mapped. */
  lemma TypesRuleOnlyAdds(columns: ColumnSet, params: Params, i: nat)
    requires Distinct(columns) && i < |columns|
    requires ParseFields(params.fields).Some?
    ensures CreateColumnsMap(columns, params).Some? && CreateColumnsMap(columns, params.(types := Absent)).Some?
    ensures Get(CreateColumnsMap(columns, params.(types := Absent)).value, columns[i].0).Some? ==>
      Get(CreateColumnsMap(columns, params).value, columns[i].0).Some?
  {
    assert params.(types := Absent).fields == params.fields;
    ColumnsMapEntries(columns, params, i, columns[i].0);
    ColumnsMapEntries(columns, params.(types := Absent), i, columns[i].0);
  }

  /** A `types` whitelist on its own maps exactly the columns whose type matches, each to its own name. */
  lemma TypesWhitelistAlone(columns: ColumnSet, params: Params, types: Array<Value>, i: nat)
    requires ParseFields(params.fields).None? && ParseTypes(params.types) == Some(TypesRule(Whitelist, types))
    requires Distinct(columns) && i < |columns|
    ensures CreateColumnsMap(columns, params).Some?
    ensures Get(CreateColumnsMap(columns, params).value, columns[i].0) ==
      if Found(columns[i].1, types) then Some(KeyValue(columns[i].0)) else None
  {
    ColumnsMapEntries(columns, params, i, columns[i].0);
  }
}
