/**
 * TransferColumns: `Transfer::processColumns`, which turns the source
 * table's column descriptors into the column set of the destination table.
 *
 * Per source column, in order, the `fields` rule places the descriptor
 * under a target name (or a callback supplies a whole set of descriptors),
 * and the `types` rule edits a local copy of the input that is never read
 * again. The collected set is returned through `array_reverse`.
 *
 * The code places the columns a `blacklist` keeps under `$fields[$name]`
 * (which is missing, so every kept column lands on the key "") and makes
 * `default` keep only the listed columns; the row map and the documented
 * rules keep them under their own names. `Reading` selects the code as
 * written or the intended placement; the rest of the model uses the latter.
 */
module TransferColumns {
  import opened Wrappers
  import opened PhpArray
  import opened PhpValue
  import opened TransferRules
  import BasePDO

  type Column = BasePDO.Column
  type ColumnSet = BasePDO.ColumnSet

  /** Which placement of a named rule is meant: the code's, or the one the row map uses. */
  datatype Reading = AsWritten | Intended

  /** The exception PHP 8 throws for an array or object used as an array key. */
  const IllegalOffset: string := "Illegal offset type"

  /**
   * The value a named `fields` rule sends a column to, if any: the listed
   * name for `whitelist` and `default`; for `blacklist`, unless the name is
   * listed, `$fields[$name]` as written and the column's own name as meant.
   * `default` keeps an unlisted column under its own name as meant.
   */
  function NamedTarget(reading: Reading, rule: RuleName, fields: Array<Value>, name: Key): (r: Option<Value>)
    ensures rule == Whitelist ==> r == IssetGet(fields, name)
    ensures rule == Blacklist ==> (r.None? <==> InArray(name, fields))
    ensures rule == Blacklist && r.Some? ==> r.value == if reading == AsWritten then Read(fields, name) else KeyValue(name)
    ensures rule == Default && reading == AsWritten ==> r == IssetGet(fields, name)
    ensures rule == Default && reading == Intended ==>
      r == if IssetGet(fields, name).Some? then IssetGet(fields, name) else Some(KeyValue(name))
  {
    match rule
    case Whitelist => IssetGet(fields, name)
    case Blacklist =>
      if InArray(name, fields) then None
      else if reading == AsWritten then Some(Read(fields, name))
      else Some(KeyValue(name))
    case Default =>
      if reading == AsWritten then IssetGet(fields, name)
      else match IssetGet(fields, name)
        case Some(t) => Some(t)
        case None => Some(KeyValue(name))
  }

  /** `$processedColumns[$target] = $column`, which throws when the target cannot be a key. */
  function Place(processed: ColumnSet, target: Value, column: Column): (r: Result<ColumnSet>)
    ensures r.Err? <==> target.Arr? || target.Expr?
    ensures r.Err? ==> r.message == IllegalOffset
    ensures r.Ok? ==> Get(r.value, AsKey(target).value) == Some(column)
    ensures r.Ok? ==> forall k :: k != AsKey(target).value ==> Get(r.value, k) == Get(processed, k)
    ensures r.Ok? && Distinct(processed) ==> Distinct(r.value)
  {
    match AsKey(target)
    case None => Err(IllegalOffset)
    case Some(k) => Ok(Assign(processed, k, column))
  }

  /** Where a named rule sends each column name. */
  type Targets = Key -> Option<Value>

  function RuleTargets(reading: Reading, rule: RuleName, fields: Array<Value>): Targets {
    (name: Key) => NamedTarget(reading, rule, fields, name)
  }

  /** How a column is stored under its target. */
  type Placer = (ColumnSet, Value, Column) -> Result<ColumnSet>

  /** `$processedColumns[$target] = $column`. */
  const ArrayPlace: Placer := (processed: ColumnSet, target: Value, column: Column) => Place(processed, target, column)

  /** The columns a named rule collects over the first `n` source columns. */
  function NamedFold(place: Placer, target: Targets, columns: ColumnSet, n: nat): Result<ColumnSet>
    requires n <= |columns|
  {
    if n == 0 then Ok([])
    else match NamedFold(place, target, columns, n - 1)
      case Err(m) => Err(m)
      case Ok(p) =>
        match target(columns[n - 1].0)
        case None => Ok(p)
        case Some(t) => place(p, t, columns[n - 1].1)
  }

  /** How a callback's result joins the columns collected so far. */
  type Joiner = (ColumnSet, ColumnSet) -> ColumnSet

  /** `array_merge($result, $processedColumns)`. */
  const ArrayMerge: Joiner := (res: ColumnSet, processed: ColumnSet) => Merge(res, processed)

  /** The columns a callback rule collects: each non-empty result joined in front. */
  function CallbackFold(join: Joiner, f: FieldsCallback, columns: ColumnSet, n: nat): ColumnSet
    requires n <= |columns|
  {
    if n == 0 then []
    else
      var p := CallbackFold(join, f, columns, n - 1);
      var res := f(n - 1, columns[n - 1].0, columns[n - 1].1);
      if |res| > 0 then join(res, p) else p
  }

  /**
   * The columns collected by the `fields` rule alone over the first `n`
   * source columns: the reference the loop is measured against.
   */
  function Renamed(reading: Reading, columns: ColumnSet, fr: Option<FieldsRule>, n: nat): Result<ColumnSet>
    requires n <= |columns|
  {
    match fr
    case None => Ok([])
    case Some(Callback(f)) => Ok(CallbackFold(ArrayMerge, f, columns, n))
    case Some(Named(rule, fields)) => NamedFold(ArrayPlace, RuleTargets(reading, rule, fields), columns, n)
  }

  /**
   * The `fields` part of one iteration: a callback's non-empty result is
   * merged in front of what was collected (`array_merge($result, $processed)`);
   * a named rule places the column under its target.
   */
  function FieldsStep(reading: Reading, processed: ColumnSet, fr: Option<FieldsRule>, ind: int, name: Key, column: Column): Result<ColumnSet> {
    match fr
    case None => Ok(processed)
    case Some(Callback(f)) =>
      var res := f(ind, name, column);
      if |res| > 0 then Ok(Merge(res, processed)) else Ok(processed)
    case Some(Named(rule, fields)) =>
      match NamedTarget(reading, rule, fields, name)
      case None => Ok(processed)
      case Some(t) => Place(processed, t, column)
  }

  /** `$columns[$name]['type'] = $newType` on the local copy of the input. */
  function Retype(local: ColumnSet, name: Key, newType: Value): (r: ColumnSet)
    ensures Get(r, name).Some? && Get(Get(r, name).value, SKey("type")) == Some(newType)
    ensures forall k :: k != name ==> Get(r, k) == Get(local, k)
  {
    var column := match Get(local, name) case Some(c) => c case None => [];
    Assign(local, name, Assign(column, SKey("type"), newType))
  }

  /**
   * The `types` part of one iteration, which edits only the local copy
   * `$columns`: a whitelist retypes a matching column and drops the rest, a
   * blacklist drops a matching column, `default` retypes a matching one.
   */
  function TypesStep(local: ColumnSet, tr: Option<TypesRule>, name: Key, column: Column): (r: ColumnSet)
    ensures forall k :: k != name ==> Get(r, k) == Get(local, k)
    ensures tr.None? ==> r == local
  {
    match tr
    case None => local
    case Some(TypesRule(rule, types)) =>
      var m := FirstMatch(TypeText(column), types);
      match rule
      case Whitelist => if m.Some? then Retype(local, name, types[m.value].1) else Unset(local, name)
      case Blacklist => if m.Some? then Unset(local, name) else local
      case Default => if m.Some? then Retype(local, name, types[m.value].1) else local
  }

  /** The state of the `foreach`: the collected columns and the local copy of the input. */
  datatype ColumnsState = ColumnsState(processed: ColumnSet, local: ColumnSet)

  /**
   * The `foreach` of `processColumns` over the first `n` columns, `$ind`
   * counting from 0. Whatever the `types` rule does to the local copy, the
   * collected columns are exactly those of the `fields` rule alone.
   */
  function ProcessLoop(reading: Reading, columns: ColumnSet, fr: Option<FieldsRule>, tr: Option<TypesRule>, n: nat): (r: Result<ColumnsState>)
    requires n <= |columns|
    ensures r.Ok? <==> Renamed(reading, columns, fr, n).Ok?
    ensures r.Ok? ==> r.value.processed == Renamed(reading, columns, fr, n).value
    ensures r.Err? ==> r.message == Renamed(reading, columns, fr, n).message
  {
    if n == 0 then Ok(ColumnsState([], columns))
    else match ProcessLoop(reading, columns, fr, tr, n - 1)
      case Err(m) => Err(m)
      case Ok(st) =>
        var (name, column) := columns[n - 1];
        match FieldsStep(reading, st.processed, fr, n - 1, name, column)
        case Err(m) => Err(m)
        case Ok(p) => Ok(ColumnsState(p, TypesStep(st.local, tr, name, column)))
  }

  /**
   * `processColumns($columns, $params)`: the input unchanged when neither
   * rule is given, otherwise the collected columns reversed. Under a string
   * key the result holds what the `fields` rule collected.
   */
  function ProcessColumnsWith(reading: Reading, columns: ColumnSet, params: Params): (r: Result<ColumnSet>)
    ensures ParseFields(params.fields).None? && ParseTypes(params.types).None? ==> r == Ok(columns)
    ensures ParseFields(params.fields).Some? || ParseTypes(params.types).Some? ==>
      && (r.Ok? <==> Renamed(reading, columns, ParseFields(params.fields), |columns|).Ok?)
      && (r.Err? ==> r.message == Renamed(reading, columns, ParseFields(params.fields), |columns|).message)
      && (r.Ok? ==> r.value == Reverse(Renamed(reading, columns, ParseFields(params.fields), |columns|).value))
  {
    var fr := ParseFields(params.fields);
    var tr := ParseTypes(params.types);
    if fr.None? && tr.None? then Ok(columns)
    else match ProcessLoop(reading, columns, fr, tr, |columns|)
      case Err(m) => Err(m)
      case Ok(st) => Ok(Reverse(st.processed))
  }

  /** Under a string key the result holds what the loop collected: `array_reverse` only reorders string keys. */
  lemma ResultStringLookup(reading: Reading, columns: ColumnSet, params: Params, s: string)
    requires ParseFields(params.fields).Some? || ParseTypes(params.types).Some?
    ensures var r := ProcessColumnsWith(reading, columns, params);
      r.Ok? ==> Get(r.value, SKey(s)) == Get(Renamed(reading, columns, ParseFields(params.fields), |columns|).value, SKey(s))
  {
    var rn := Renamed(reading, columns, ParseFields(params.fields), |columns|);
    if rn.Ok? {
      ReverseGetString(rn.value, s);
    }
  }

  /** `processColumns` as the code reads. */
  function ProcessColumnsAsWritten(columns: ColumnSet, params: Params): (r: Result<ColumnSet>)
    ensures r == ProcessColumnsWith(AsWritten, columns, params)
    ensures ParseFields(params.fields).None? && ParseTypes(params.types).None? ==> r == Ok(columns)
    ensures ParseFields(params.fields).None? && ParseTypes(params.types).Some? ==> r == Ok([])
    ensures ParseFields(params.fields).Some? && ParseFields(params.fields).value.Callback? ==> r.Ok?
  {
    ProcessColumnsWith(AsWritten, columns, params)
  }

  /** `processColumns` with the placement the row map and the documented rules use. */
  function ProcessColumns(columns: ColumnSet, params: Params): (r: Result<ColumnSet>)
    ensures r == ProcessColumnsWith(Intended, columns, params)
    ensures ParseFields(params.fields).None? && ParseTypes(params.types).None? ==> r == Ok(columns)
    ensures ParseFields(params.fields).None? && ParseTypes(params.types).Some? ==> r == Ok([])
    ensures ParseFields(params.fields).Some? && ParseFields(params.fields).value.Callback? ==> r.Ok?
  {
    ProcessColumnsWith(Intended, columns, params)
  }

  // ---------------------------------------------------------------------------
  // The types rule
  // ---------------------------------------------------------------------------

  /** Once a `fields` rule is given, the `types` rule has no effect on the result. */
  lemma TypesRuleIgnored(reading: Reading, columns: ColumnSet, params: Params, types: Param<RuleParam>)
    requires ParseFields(params.fields).Some?
    ensures ProcessColumnsWith(reading, columns, params) == ProcessColumnsWith(reading, columns, params.(types := types))
  {
    var r := ProcessColumnsWith(reading, columns, params);
    var r' := ProcessColumnsWith(reading, columns, params.(types := types));
    assert params.(types := types).fields == params.fields;
    assert r.Ok? <==> r'.Ok?;
    if r.Ok? {
      assert r.value == r'.value;
    }
  }

  /** A `types` rule on its own yields no columns at all. */
  lemma TypesRuleAloneEmpties(reading: Reading, columns: ColumnSet, params: Params)
    requires ParseFields(params.fields).None? && ParseTypes(params.types).Some?
    ensures ProcessColumnsWith(reading, columns, params) == Ok([])
  {
  }

  // ---------------------------------------------------------------------------
  // Named rules
  // ---------------------------------------------------------------------------

  /** Column `i` is sent to a target that cannot be a key. */
  predicate BadAt(target: Targets, columns: ColumnSet, i: nat)
    requires i < |columns|
  {
    target(columns[i].0).Some? && AsKey(target(columns[i].0).value).None?
  }

  /**
   * What storing under a PHP array key does: it fails exactly when the
   * target cannot be a key; otherwise that key holds the column, every other
   * key keeps its value, and a new key is appended at the end.
   */
  ghost predicate PlacesByKey(place: Placer) {
    && (forall p, t, c :: place(p, t, c).Err? <==> AsKey(t).None?)
    && (forall p, t, c, k {:trigger Get(place(p, t, c).value, k)} :: place(p, t, c).Ok? ==>
          Get(place(p, t, c).value, k) == if AsKey(t) == Some(k) then Some(c) else Get(p, k))
    && (forall p, t, c :: place(p, t, c).Ok? && AsKey(t).Some? && !HasKey(p, AsKey(t).value) ==>
          place(p, t, c).value == p + [(AsKey(t).value, c)])
  }

  lemma ArrayPlacesByKey()
    ensures PlacesByKey(ArrayPlace)
  {
    forall p: ColumnSet, t: Value, c: Column, k: Key | ArrayPlace(p, t, c).Ok?
      ensures Get(ArrayPlace(p, t, c).value, k) == if AsKey(t) == Some(k) then Some(c) else Get(p, k)
    {
    }
  }

  /** A named rule fails exactly when some column is sent to an array or object target. */
  lemma {:induction false} NamedFoldFails(place: Placer, target: Targets, columns: ColumnSet, n: nat)
    requires n <= |columns| && PlacesByKey(place)
    ensures NamedFold(place, target, columns, n).Err? <==> exists i :: 0 <= i < n && BadAt(target, columns, i)
  {
    if n > 0 {
      NamedFoldFails(place, target, columns, n - 1);
      NamedFailsStep(place, target, columns, n);
    }
  }

  lemma NamedFailsStep(place: Placer, target: Targets, columns: ColumnSet, n: nat)
    requires 0 < n <= |columns| && PlacesByKey(place)
    requires NamedFold(place, target, columns, n - 1).Err? <==> exists i :: 0 <= i < n - 1 && BadAt(target, columns, i)
    ensures NamedFold(place, target, columns, n).Err? <==> exists i :: 0 <= i < n && BadAt(target, columns, i)
  {
    if NamedFold(place, target, columns, n - 1).Err? {
      var i :| 0 <= i < n - 1 && BadAt(target, columns, i);
      assert 0 <= i < n && BadAt(target, columns, i);
    } else if BadAt(target, columns, n - 1) {
      assert NamedFold(place, target, columns, n).Err?;
    } else {
      assert NamedFold(place, target, columns, n).Ok?;
      assert forall i :: 0 <= i < n && BadAt(target, columns, i) ==> i < n - 1;
    }
  }

  /** The descriptor a named rule leaves under key `k` after `n` columns: the last one sent there. */
  function LastPlaced(target: Targets, columns: ColumnSet, n: nat, k: Key): Option<Column>
    requires n <= |columns|
  {
    if n == 0 then None
    else
      var t := target(columns[n - 1].0);
      if t.Some? && AsKey(t.value) == Some(k) then Some(columns[n - 1].1)
      else LastPlaced(target, columns, n - 1, k)
  }

  /** Under a named rule, each key holds the last column sent to it; later columns overwrite earlier ones. */
  lemma NamedFoldLookup(place: Placer, target: Targets, columns: ColumnSet, n: nat, k: Key)
    requires n <= |columns| && PlacesByKey(place)
    ensures NamedFold(place, target, columns, n).Ok? ==>
      Get(NamedFold(place, target, columns, n).value, k) == LastPlaced(target, columns, n, k)
  {
    var i := 0;
    while i < n
      invariant i <= n
      invariant OkHolds(NamedFold(place, target, columns, i), k, LastPlaced(target, columns, i, k))
    {
      NamedLookupStep(place, target, columns, i, k);
      i := i + 1;
    }
  }

  /** The column after the first `m` changes the result only under its own target key. */
  lemma NamedLookupStep(place: Placer, target: Targets, columns: ColumnSet, m: nat, k: Key)
    requires m < |columns|
    ensures PlacesByKey(place) && OkHolds(NamedFold(place, target, columns, m), k, LastPlaced(target, columns, m, k)) ==>
      OkHolds(NamedFold(place, target, columns, m + 1), k, LastPlaced(target, columns, m + 1, k))
  {
    if PlacesByKey(place) && NamedFold(place, target, columns, m + 1).Ok? {
      var p := NamedFold(place, target, columns, m).value;
      var t := target(columns[m].0);
      if t.Some? {
        var c := columns[m].1;
        assert Get(place(p, t.value, c).value, k) == if AsKey(t.value) == Some(k) then Some(c) else Get(p, k);
      }
    }
  }

  /** The columns a named rule places, in source order, under their target keys. */
  function Placed(target: Targets, columns: ColumnSet, n: nat): (r: ColumnSet)
    requires n <= |columns|
    ensures |r| <= n
  {
    if n == 0 then []
    else
      var p := Placed(target, columns, n - 1);
      var t := target(columns[n - 1].0);
      if t.Some? && AsKey(t.value).Some? then p + [(AsKey(t.value).value, columns[n - 1].1)] else p
  }

  lemma PlacedPrefix(target: Targets, columns: ColumnSet, n: nat)
    requires 0 < n <= |columns|
    ensures Distinct(Placed(target, columns, n)) ==> Distinct(Placed(target, columns, n - 1))
    ensures AllStringKeys(Placed(target, columns, n)) ==> AllStringKeys(Placed(target, columns, n - 1))
  {
    var p := Placed(target, columns, n - 1);
    var q := Placed(target, columns, n);
    assert forall i :: 0 <= i < |p| ==> q[i] == p[i];
  }

  /** When a named rule succeeds with distinct target keys, it collects the placed columns in source order. */
  lemma {:induction false} NamedFoldInOrder(place: Placer, target: Targets, columns: ColumnSet, n: nat)
    requires n <= |columns| && PlacesByKey(place)
    requires Distinct(Placed(target, columns, n))
    ensures NamedFold(place, target, columns, n).Ok? ==> NamedFold(place, target, columns, n).value == Placed(target, columns, n)
  {
    if n > 0 {
      PlacedPrefix(target, columns, n);
      NamedFoldInOrder(place, target, columns, n - 1);
      NamedInOrderStep(place, target, columns, n);
    }
  }

  lemma NamedInOrderStep(place: Placer, target: Targets, columns: ColumnSet, n: nat)
    requires 0 < n <= |columns| && PlacesByKey(place)
    requires Distinct(Placed(target, columns, n))
    requires NamedFold(place, target, columns, n - 1).Ok? ==>
      NamedFold(place, target, columns, n - 1).value == Placed(target, columns, n - 1)
    ensures NamedFold(place, target, columns, n).Ok? ==> NamedFold(place, target, columns, n).value == Placed(target, columns, n)
  {
    if NamedFold(place, target, columns, n).Ok? {
      var p := Placed(target, columns, n - 1);
      var q := Placed(target, columns, n);
      var t := target(columns[n - 1].0);
      if t.Some? {
        var c := columns[n - 1].1;
        var e := (AsKey(t.value).value, c);
        assert q == p + [e];
        assert !HasKey(p, e.0) by {
          assert forall i :: 0 <= i < |p| ==> p[i].0 == q[i].0 != q[|p|].0;
        }
        assert place(p, t.value, c).value == p + [e];
      }
    }
  }

  /** A named rule's result, as seen through `processColumns`. */
  lemma NamedResult(reading: Reading, columns: ColumnSet, params: Params, rule: RuleName, fields: Array<Value>)
    requires ParseFields(params.fields) == Some(Named(rule, fields))
    ensures var r := ProcessColumnsWith(reading, columns, params);
      var fold := NamedFold(ArrayPlace, RuleTargets(reading, rule, fields), columns, |columns|);
      && (r.Ok? <==> fold.Ok?)
      && (r.Ok? ==> r.value == Reverse(fold.value))
  {
  }

  /** Under a named rule, a string key of the result holds what the placement left there. */
  lemma NamedStringLookup(reading: Reading, columns: ColumnSet, params: Params, rule: RuleName, fields: Array<Value>, s: string)
    requires ParseFields(params.fields) == Some(Named(rule, fields))
    ensures var r := ProcessColumnsWith(reading, columns, params);
      var fold := NamedFold(ArrayPlace, RuleTargets(reading, rule, fields), columns, |columns|);
      r.Ok? ==> fold.Ok? && Get(r.value, SKey(s)) == Get(fold.value, SKey(s))
  {
    NamedResult(reading, columns, params, rule, fields);
    ResultStringLookup(reading, columns, params, s);
  }

  /**
   * When a named rule succeeds with distinct string target keys, the
   * destination lists the placed columns in REVERSE source order: the final
   * `array_reverse` undoes the prepending of the callback form but reverses
   * the named rules.
   */
  lemma NamedReversesOrder(reading: Reading, columns: ColumnSet, params: Params, rule: RuleName, fields: Array<Value>)
    requires ParseFields(params.fields) == Some(Named(rule, fields))
    requires Distinct(Placed(RuleTargets(reading, rule, fields), columns, |columns|))
    requires AllStringKeys(Placed(RuleTargets(reading, rule, fields), columns, |columns|))
    ensures ProcessColumnsWith(reading, columns, params).Ok? ==>
      ProcessColumnsWith(reading, columns, params).value == SeqReverse(Placed(RuleTargets(reading, rule, fields), columns, |columns|))
  {
    NamedResult(reading, columns, params, rule, fields);
    FoldReversesOrder(RuleTargets(reading, rule, fields), columns);
  }

  /** The named fold, reversed, lists the placed columns back to front. */
  lemma FoldReversesOrder(target: Targets, columns: ColumnSet)
    requires Distinct(Placed(target, columns, |columns|)) && AllStringKeys(Placed(target, columns, |columns|))
    ensures var fold := NamedFold(ArrayPlace, target, columns, |columns|);
      fold.Ok? ==> Reverse(fold.value) == SeqReverse(Placed(target, columns, |columns|))
  {
    ArrayPlacesByKey();
    NamedFoldInOrder(ArrayPlace, target, columns, |columns|);
    ReverseStringKeys(Placed(target, columns, |columns|));
  }

  // ---------------------------------------------------------------------------
  // Callback rule
  // ---------------------------------------------------------------------------

  /**
   * What `array_merge($result, $processed)` does to string keys: the result
   * has distinct keys, and a key of `processed` keeps its value there, any
   * other key takes its last value in `result`.
   */
  ghost predicate JoinsInFront(join: Joiner) {
    && (forall res, processed {:trigger Joined(join, res, processed)} :: Distinct(Joined(join, res, processed)))
    && (forall res, processed, s {:trigger Get(Joined(join, res, processed), SKey(s))} :: Distinct(processed) ==>
          Get(Joined(join, res, processed), SKey(s)) ==
            if HasKey(processed, SKey(s)) then Get(processed, SKey(s)) else LastGet(res, SKey(s)))
  }

  /** The join of a result and the columns so far, named so that the facts about joins apply only where asked for. */
  function Joined(join: Joiner, res: ColumnSet, processed: ColumnSet): ColumnSet {
    join(res, processed)
  }

  lemma ArrayMergeJoinsInFront()
    ensures JoinsInFront(ArrayMerge)
  {
    forall res: ColumnSet, processed: ColumnSet
      ensures Distinct(Joined(ArrayMerge, res, processed))
    {
      MergeDistinct(res, processed);
    }
    forall res: ColumnSet, processed: ColumnSet, s: string | Distinct(processed)
      ensures Get(Joined(ArrayMerge, res, processed), SKey(s)) ==
        if HasKey(processed, SKey(s)) then Get(processed, SKey(s)) else LastGet(res, SKey(s))
    {
      MergeGetString(res, processed, s);
    }
  }

  /**
   * The descriptor a callback rule leaves under the string key `s`: from the
   * EARLIEST column whose non-empty result names `s` (its last entry there),
   * since each result is merged in front of what was collected.
   */
  function FirstResult(f: FieldsCallback, columns: ColumnSet, n: nat, s: string): Option<Column>
    requires n <= |columns|
  {
    if n == 0 then None
    else
      var prev := FirstResult(f, columns, n - 1, s);
      var res := f(n - 1, columns[n - 1].0, columns[n - 1].1);
      if prev.Some? then prev
      else if |res| > 0 then LastGet(res, SKey(s))
      else None
  }

  lemma CallbackLookup(join: Joiner, f: FieldsCallback, columns: ColumnSet, n: nat, s: string)
    requires n <= |columns| && JoinsInFront(join)
    ensures Distinct(CallbackFold(join, f, columns, n))
    ensures Get(CallbackFold(join, f, columns, n), SKey(s)) == FirstResult(f, columns, n, s)
  {
    var i := 0;
    while i < n
      invariant i <= n
      invariant Distinct(CallbackFold(join, f, columns, i))
      invariant Get(CallbackFold(join, f, columns, i), SKey(s)) == FirstResult(f, columns, i, s)
    {
      CallbackStep(join, CallbackFold(join, f, columns, i), f(i, columns[i].0, columns[i].1), s, FirstResult(f, columns, i, s));
      i := i + 1;
    }
  }

  /** One column of the callback loop: merging a non-empty result in front keeps an earlier entry. */
  lemma CallbackStep(join: Joiner, p: ColumnSet, res: ColumnSet, s: string, prev: Option<Column>)
    requires JoinsInFront(join) && Distinct(p) && Get(p, SKey(s)) == prev
    ensures var q := if |res| > 0 then join(res, p) else p;
      && Distinct(q)
      && Get(q, SKey(s)) == if prev.Some? then prev else if |res| > 0 then LastGet(res, SKey(s)) else None
  {
    if |res| > 0 {
      assert Distinct(Joined(join, res, p));
      assert Get(Joined(join, res, p), SKey(s)) ==
        if HasKey(p, SKey(s)) then Get(p, SKey(s)) else LastGet(res, SKey(s));
    }
  }

  /** A callback rule never fails, and the earliest column whose result names a key decides it. */
  lemma CallbackEarliestWins(columns: ColumnSet, params: Params, f: FieldsCallback, s: string)
    requires ParseFields(params.fields) == Some(Callback(f))
    ensures ProcessColumns(columns, params).Ok?
    ensures Get(ProcessColumns(columns, params).value, SKey(s)) == FirstResult(f, columns, |columns|, s)
  {
    ArrayMergeJoinsInFront();
    CallbackLookup(ArrayMerge, f, columns, |columns|, s);
    ResultStringLookup(Intended, columns, params, s);
  }

  // ---------------------------------------------------------------------------
  // The blacklist and default placements
  // ---------------------------------------------------------------------------

  /** Column names that are distinct keys a PHP array can hold. */
  predicate WellNamed(columns: ColumnSet) {
    Distinct(columns) && forall i :: 0 <= i < |columns| ==> ValidKey(columns[i].0)
  }

  /** Every column is either dropped or sent to its own name. */
  predicate OwnNames(target: Targets, columns: ColumnSet, n: nat)
    requires n <= |columns|
  {
    forall j :: 0 <= j < n ==> target(columns[j].0).None? || target(columns[j].0) == Some(KeyValue(columns[j].0))
  }

  lemma OwnNameLookup(target: Targets, columns: ColumnSet, n: nat, i: nat)
    requires i < n <= |columns| && WellNamed(columns) && OwnNames(target, columns, n)
    requires target(columns[i].0).Some?
    ensures LastPlaced(target, columns, n, columns[i].0) == Some(columns[i].1)
  {
    var name := columns[i].0;
    AsKeyOfKeyValue(name);
    var j := i + 1;
    while j < n
      invariant i < j <= n
      invariant LastPlaced(target, columns, j, name) == Some(columns[i].1)
    {
      OwnNameStep(target, columns, j, name);
      j := j + 1;
    }
  }

  /** A column kept under its own name, or dropped, leaves every other name's lookup alone. */
  lemma OwnNameStep(target: Targets, columns: ColumnSet, j: nat, name: Key)
    requires j < |columns|
    ensures (columns[j].0 != name && ValidKey(columns[j].0) &&
             (target(columns[j].0).None? || target(columns[j].0) == Some(KeyValue(columns[j].0)))) ==>
            LastPlaced(target, columns, j + 1, name) == LastPlaced(target, columns, j, name)
  {
    if ValidKey(columns[j].0) {
      AsKeyOfKeyValue(columns[j].0);
    }
  }

  /** A rule that keeps columns under their own names never fails and keeps each kept column's descriptor. */
  lemma OwnNameKept(target: Targets, columns: ColumnSet, i: nat)
    requires i < |columns| && WellNamed(columns) && OwnNames(target, columns, |columns|)
    requires target(columns[i].0).Some?
    ensures NamedFold(ArrayPlace, target, columns, |columns|).Ok?
    ensures Get(NamedFold(ArrayPlace, target, columns, |columns|).value, columns[i].0) == Some(columns[i].1)
  {
    var n := |columns|;
    forall j | 0 <= j < n
      ensures !BadAt(target, columns, j)
    {
      AsKeyOfKeyValue(columns[j].0);
    }
    ArrayPlacesByKey();
    NamedFoldFails(ArrayPlace, target, columns, n);
    OwnNameLookup(target, columns, n, i);
    NamedFoldLookup(ArrayPlace, target, columns, n, columns[i].0);
  }

  /**
   * A `blacklist` keeps every unlisted column under its own name, with its
   * own descriptor, and never fails.
   */
  lemma BlacklistKeepsUnlisted(columns: ColumnSet, params: Params, fields: Array<Value>, i: nat, s: string)
    requires ParseFields(params.fields) == Some(Named(Blacklist, fields))
    requires WellNamed(columns) && i < |columns| && columns[i].0 == SKey(s)
    requires !InArray(columns[i].0, fields)
    ensures ProcessColumns(columns, params).Ok?
    ensures Get(ProcessColumns(columns, params).value, SKey(s)) == Some(columns[i].1)
  {
    var target := RuleTargets(Intended, Blacklist, fields);
    assert OwnNames(target, columns, |columns|);
    OwnNameKept(target, columns, i);
    NamedResult(Intended, columns, params, Blacklist, fields);
    NamedStringLookup(Intended, columns, params, Blacklist, fields, s);
  }

  /** When every column is sent to `null`, only the key "" is filled, by the last column. */
  lemma {:induction false} AllToEmptyKey(target: Targets, columns: ColumnSet, n: nat, k: Key)
    requires n <= |columns|
    requires forall j :: 0 <= j < n ==> target(columns[j].0) == Some(Null)
    ensures LastPlaced(target, columns, n, k) == if k == SKey("") && n > 0 then Some(columns[n - 1].1) else None
  {
    if n > 0 && k != SKey("") {
      AllToEmptyKey(target, columns, n - 1, k);
    }
  }

  /**
   * As written, a `blacklist` sends every kept column to `$fields[$name]`,
   * which reads as null for a name the rule has no entry for: when no
   * column is listed, all of them end up as ONE column under the key "",
   * holding the last one's descriptor, and no column keeps its name.
   */
  lemma BlacklistCollapses(columns: ColumnSet, params: Params, fields: Array<Value>, s: string)
    requires ParseFields(params.fields) == Some(Named(Blacklist, fields))
    requires |columns| > 0
    requires forall j :: 0 <= j < |columns| ==> !InArray(columns[j].0, fields) && Read(fields, columns[j].0).Null?
    ensures ProcessColumnsAsWritten(columns, params).Ok?
    ensures Get(ProcessColumnsAsWritten(columns, params).value, SKey("")) == Some(columns[|columns| - 1].1)
    ensures s != "" ==> Get(ProcessColumnsAsWritten(columns, params).value, SKey(s)).None?
  {
    var n := |columns|;
    var target := RuleTargets(AsWritten, Blacklist, fields);
    assert forall j :: 0 <= j < n ==> target(columns[j].0) == Some(Null);
    assert forall j :: 0 <= j < n ==> !BadAt(target, columns, j);
    ArrayPlacesByKey();
    NamedFoldFails(ArrayPlace, target, columns, n);
    NamedFoldLookup(ArrayPlace, target, columns, n, SKey(""));
    NamedFoldLookup(ArrayPlace, target, columns, n, SKey(s));
    AllToEmptyKey(target, columns, n, SKey(""));
    AllToEmptyKey(target, columns, n, SKey(s));
    NamedResult(AsWritten, columns, params, Blacklist, fields);
    NamedStringLookup(AsWritten, columns, params, Blacklist, fields, "");
    NamedStringLookup(AsWritten, columns, params, Blacklist, fields, s);
  }

  /**
   * As meant, `default` keeps a column its rule does not list under the
   * column's own name, whatever else the rule renames, as long as every
   * listed column goes to a legal key other than that name.
   */
  lemma DefaultKeepsUnlisted(columns: ColumnSet, params: Params, fields: Array<Value>, i: nat, s: string)
    requires ParseFields(params.fields) == Some(Named(Default, fields))
    requires WellNamed(columns) && i < |columns| && columns[i].0 == SKey(s)
    requires IssetGet(fields, SKey(s)).None?
    requires forall j :: 0 <= j < |columns| && IssetGet(fields, columns[j].0).Some? ==>
      RenamesAway(IssetGet(fields, columns[j].0).value, SKey(s))
    ensures ProcessColumns(columns, params).Ok?
    ensures Get(ProcessColumns(columns, params).value, SKey(s)) == Some(columns[i].1)
  {
    var target := RuleTargets(Intended, Default, fields);
    DefaultNeverFails(fields, columns, s);
    DefaultLastPlaced(fields, columns, i, s);
    ArrayPlacesByKey();
    NamedFoldLookup(ArrayPlace, target, columns, |columns|, SKey(s));
    NamedResult(Intended, columns, params, Default, fields);
    NamedStringLookup(Intended, columns, params, Default, fields, s);
  }

  /** The intended default rule fails on no column when every listed one is renamed to a legal key. */
  lemma DefaultNeverFails(fields: Array<Value>, columns: ColumnSet, s: string)
    requires WellNamed(columns)
    requires forall j :: 0 <= j < |columns| && IssetGet(fields, columns[j].0).Some? ==>
      RenamesAway(IssetGet(fields, columns[j].0).value, SKey(s))
    ensures NamedFold(ArrayPlace, RuleTargets(Intended, Default, fields), columns, |columns|).Ok?
  {
    var target := RuleTargets(Intended, Default, fields);
    forall j | 0 <= j < |columns|
      ensures !BadAt(target, columns, j)
    {
      AsKeyOfKeyValue(columns[j].0);
    }
    ArrayPlacesByKey();
    NamedFoldFails(ArrayPlace, target, columns, |columns|);
  }

  /** Column `i`, unlisted, is the last one the intended default rule sends to its own name `s`. */
  lemma DefaultLastPlaced(fields: Array<Value>, columns: ColumnSet, i: nat, s: string)
    requires WellNamed(columns) && i < |columns| && columns[i].0 == SKey(s)
    requires IssetGet(fields, SKey(s)).None?
    requires forall j :: 0 <= j < |columns| && IssetGet(fields, columns[j].0).Some? ==>
      RenamesAway(IssetGet(fields, columns[j].0).value, SKey(s))
    ensures LastPlaced(RuleTargets(Intended, Default, fields), columns, |columns|, SKey(s)) == Some(columns[i].1)
  {
    var target := RuleTargets(Intended, Default, fields);
    DefaultPlacesOwn(fields, columns, i, s);
    forall j | i < j < |columns|
      ensures Away(target, columns, j, SKey(s))
    {
      assert columns[j].0 != columns[i].0;
      AsKeyOfKeyValue(columns[j].0);
    }
    LastPlacedStays(target, columns, i, SKey(s));
  }

  /** An unlisted column is sent to its own name. */
  lemma DefaultPlacesOwn(fields: Array<Value>, columns: ColumnSet, i: nat, s: string)
    requires i < |columns| && columns[i].0 == SKey(s) && ValidKey(SKey(s))
    requires IssetGet(fields, SKey(s)).None?
    ensures LastPlaced(RuleTargets(Intended, Default, fields), columns, i + 1, SKey(s)) == Some(columns[i].1)
  {
    AsKeyOfKeyValue(SKey(s));
  }

  /** Column `j` is dropped or sent somewhere other than `k`. */
  predicate Away(target: Targets, columns: ColumnSet, j: nat, k: Key)
    requires j < |columns|
  {
    target(columns[j].0).None? || AsKey(target(columns[j].0).value) != Some(k)
  }

  /** When no later column is sent to `k`, the last column placed under `k` is column `i`'s. */
  lemma LastPlacedStays(target: Targets, columns: ColumnSet, i: nat, k: Key)
    requires i < |columns| && LastPlaced(target, columns, i + 1, k) == Some(columns[i].1)
    requires forall j :: i < j < |columns| ==> Away(target, columns, j, k)
    ensures LastPlaced(target, columns, |columns|, k) == Some(columns[i].1)
  {
    var j := i + 1;
    while j < |columns|
      invariant i < j <= |columns|
      invariant LastPlaced(target, columns, j, k) == Some(columns[i].1)
    {
      assert Away(target, columns, j, k);
      j := j + 1;
    }
  }

  /** A rename to a legal key other than `k`. */
  predicate RenamesAway(v: Value, k: Key) {
    AsKey(v).Some? && AsKey(v).value != k
  }

  /**
   * As written, `default` places a column only under the name its rule
   * lists for it: when the rule lists none of the columns, none is kept.
   */
  lemma DefaultDropsUnlisted(columns: ColumnSet, params: Params, fields: Array<Value>)
    requires ParseFields(params.fields) == Some(Named(Default, fields))
    requires forall j :: 0 <= j < |columns| ==> IssetGet(fields, columns[j].0).None?
    ensures ProcessColumnsAsWritten(columns, params) == Ok([])
  {
    var target := RuleTargets(AsWritten, Default, fields);
    var j := 0;
    while j < |columns|
      invariant j <= |columns|
      invariant NamedFold(ArrayPlace, target, columns, j) == Ok([])
    {
      assert target(columns[j].0).None?;
      j := j + 1;
    }
    NamedResult(AsWritten, columns, params, Default, fields);
    ReverseStringKeys<Column>([]);
  }

  /** The bare rule `['default']` lists no column, so as written it keeps none of them. */
  lemma DefaultAloneKeepsNothing(columns: ColumnSet, params: Params)
    requires params.fields == Given(RuleArray([(IKey(0), Str("default"))]))
    ensures ProcessColumnsAsWritten(columns, params) == Ok([])
  {
    DefaultAlone(params.fields);
    DefaultDropsUnlisted(columns, params, []);
  }

  /** The rule `['default']`, listing no columns. */
  lemma DefaultAlone(p: Param<RuleParam>)
    requires p == Given(RuleArray([(IKey(0), Str("default"))]))
    ensures ParseFields(p) == Some(Named(Default, []))
  {
    var entries := [(IKey(0), Str("default"))];
    ListFormRule(entries, "default", Default);
    assert Unset(entries, IKey(0)) == [];
  }
}
