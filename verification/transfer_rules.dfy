/**
 * TransferRules: the parts of the Transfer class that the column and row
 * reshaping share — the exists-policy (`existsAction`), the copy
 * parameters, how a `fields` or `types` rule is read from them, and the
 * type matching of the `types` rule.
 */
module TransferRules {
  import opened Wrappers
  import opened PhpString
  import opened PhpArray
  import opened PhpValue
  import BasePDO

  type Column = BasePDO.Column
  type ColumnSet = BasePDO.ColumnSet

  // ---------------------------------------------------------------------------
  // existsAction
  // ---------------------------------------------------------------------------

  /** What `copy` does with a destination table that already exists. */
  datatype Action = Rewrite | RewriteOrClear | Skip | Stop | Append

  function ActionName(a: Action): string {
    match a
    case Rewrite => "rewrite"
    case RewriteOrClear => "rewriteOrClear"
    case Skip => "skip"
    case Stop => "stop"
    case Append => "append"
  }

  /** `$availableActions`: each action under its own name. */
  const AvailableActions: Array<Action> := [
    (SKey("rewrite"), Rewrite),
    (SKey("rewriteOrClear"), RewriteOrClear),
    (SKey("skip"), Skip),
    (SKey("stop"), Stop),
    (SKey("append"), Append)
  ]

  /** The policy a new Transfer starts with. */
  const DefaultAction: Action := Rewrite

  /** The message of the exception for an unknown policy: `implode(',', $availableActions)` after a fixed prefix. */
  const UndefinedActionMessage: string := "Undefined action, action can be rewrite,rewriteOrClear,skip,stop,append"

  lemma ActionsLookup(s: string)
    ensures Get(AvailableActions, ToKey(s)) ==
      if s == "rewriteOrClear" then Some(RewriteOrClear)
      else if s == "rewrite" then Some(Rewrite)
      else if s == "skip" then Some(Skip)
      else if s == "stop" then Some(Stop)
      else if s == "append" then Some(Append)
      else None
  {
    if s in ActionWords {
      var i :| 0 <= i < 5 && ActionWords[i] == s;
      ActionAt(i);
    } else {
      ActionMissing(s);
    }
  }

  const ActionWords: seq<string> := ["rewrite", "rewriteOrClear", "skip", "stop", "append"]

  lemma ActionAt(i: nat)
    requires i < 5
    ensures Get(AvailableActions, ToKey(ActionWords[i])) == Some(AvailableActions[i].1)
  {
    WordKey(ActionWords[i]);
    FindIs(AvailableActions, SKey(ActionWords[i]), i);
  }

  lemma ActionMissing(s: string)
    requires s !in ActionWords
    ensures Get(AvailableActions, ToKey(s)) == None
  {
    FindNone(AvailableActions, ToKey(s));
  }

  /** The policy after a lookup that found `found`, and the message thrown when it found nothing. */
  function Outcome(current: Action, found: Option<Action>): (Action, Option<string>) {
    match found
    case Some(a) => (a, None)
    case None => (current, Some(UndefinedActionMessage))
  }

  /**
   * `setExistsAction($name)`: the policy after the call, and the message of
   * the exception it throws. The name is lower-cased before the lookup, so
   * any casing of rewrite, skip, stop and append is accepted; an unknown
   * name throws and keeps the current policy.
   */
  function SetExistsAction(current: Action, name: string): (r: (Action, Option<string>))
    ensures r.1.None? <==> var l := ToLower(name); l == "rewrite" || l == "skip" || l == "stop" || l == "append"
    ensures r.1.None? ==> ActionName(r.0) == ToLower(name)
    ensures r.1.Some? ==> r.0 == current && r.1.value == UndefinedActionMessage
  {
    Outcome(current, FindAction(name))
  }

  /**
   * `$availableActions[strtolower($name)]`: the intended lookup, except that
   * no lower-cased name can reach the camel-cased key `rewriteOrClear`.
   */
  function FindAction(name: string): (r: Option<Action>)
    ensures r == if ToLower(name) == "rewriteorclear" then None else LookupIntended(ToLower(name))
  {
    LowerHasNoCapital(name, "rewriteOrClear", 7);
    LowerLookup(ToLower(name));
    Get(AvailableActions, ToKey(ToLower(name)))
  }

  /** Looking up a name without the capitals of `rewriteOrClear` finds what the intended lookup finds, `rewriteorclear` aside. */
  lemma LowerLookup(lower: string)
    requires lower != "rewriteOrClear"
    ensures Get(AvailableActions, ToKey(lower)) == if lower == "rewriteorclear" then None else LookupIntended(lower)
  {
    ActionsLookup(lower);
  }

  /** The key `rewriteOrClear` is not lower-case, so that policy can never be set. */
  lemma RewriteOrClearUnreachable(current: Action, name: string)
    requires current != RewriteOrClear
    ensures SetExistsAction(current, name).0 != RewriteOrClear
  {
  }

  /** The name a policy is recognised by when casing is ignored. */
  function LowerName(a: Action): string {
    match a
    case Rewrite => "rewrite"
    case RewriteOrClear => "rewriteorclear"
    case Skip => "skip"
    case Stop => "stop"
    case Append => "append"
  }

  /** `rewriteOrClear` lower-cased. */
  lemma LowerRewriteOrClear()
    ensures ToLower("rewriteOrClear") == "rewriteorclear"
  {
    var n, t := "rewriteOrClear", "rewriteorclear";
    assert n[7] == 'O' && n[9] == 'C';
    assert forall i | 0 <= i < |n| && i != 7 && i != 9 :: !IsUpper(n[i]) && t[i] == n[i];
    LowerPointwise(n, t);
  }

  /** A string that lower-cases position by position to `t` has `t` as its lower-case form. */
  lemma LowerPointwise(s: string, t: string)
    requires |s| == |t|
    requires forall i :: 0 <= i < |s| ==> t[i] == LowerChar(s[i])
    ensures ToLower(s) == t
  {
  }

  /** Each policy's name, lower-cased, is the name it is recognised by. */
  lemma LowerActionName(a: Action)
    ensures ToLower(ActionName(a)) == LowerName(a)
  {
    if a == RewriteOrClear {
      LowerRewriteOrClear();
    } else {
      LowerKeepsLower(ActionName(a));
    }
  }

  /** The policy recognised by the lower-cased name `lower`, if any. */
  function LookupIntended(lower: string): (r: Option<Action>)
    ensures forall a :: r == Some(a) <==> LowerName(a) == lower
  {
    if lower == "rewriteorclear" then Some(RewriteOrClear)
    else if lower == "rewrite" then Some(Rewrite)
    else if lower == "skip" then Some(Skip)
    else if lower == "stop" then Some(Stop)
    else if lower == "append" then Some(Append)
    else None
  }

  /**
   * `setExistsAction` as meant: the name is compared with each policy's name
   * regardless of case (`LowerName(a)` is `ToLower(ActionName(a))`, by
   * `LowerActionName`), so every policy, `rewriteOrClear` included, can be set.
   */
  function SetExistsActionIntended(current: Action, name: string): (r: (Action, Option<string>))
    ensures forall a :: r == (a, None) <==> LowerName(a) == ToLower(name)
    ensures r.1.Some? ==> r.0 == current && r.1.value == UndefinedActionMessage
  {
    Outcome(current, LookupIntended(ToLower(name)))
  }

  /** As meant, a policy's own name, in any casing, sets that policy. */
  lemma EveryActionSettable(current: Action, a: Action)
    ensures SetExistsActionIntended(current, ActionName(a)) == (a, None)
    ensures SetExistsActionIntended(current, ToUpper(ActionName(a))) == (a, None)
  {
    LowerActionName(a);
    LowerOfUpper(ActionName(a));
  }

  /** Apart from `rewriteOrClear`, the intended setter accepts and rejects exactly what the code does. */
  lemma IntendedAgreesElsewhere(current: Action, name: string)
    requires ToLower(name) != "rewriteorclear"
    ensures SetExistsActionIntended(current, name) == SetExistsAction(current, name)
  {
  }

  /** Setting a policy is insensitive to the casing of the name. */
  lemma SetExistsActionCaseless(current: Action, name: string)
    ensures SetExistsAction(current, ToUpper(name)) == SetExistsAction(current, name)
  {
    LowerOfUpper(name);
  }

  // ---------------------------------------------------------------------------
  // Copy parameters
  // ---------------------------------------------------------------------------

  /** An entry of a PHP parameter array: missing, holding null, or holding a value. */
  datatype Param<T> = Absent | NullParam | Given(value: T)

  /** `array_merge($tableParams, $params)` on one key: the running value wins unless the key is missing. */
  function MergeParam<T>(table: Param<T>, running: Param<T>): (r: Param<T>)
    ensures running.Absent? ==> r == table
    ensures !running.Absent? ==> r == running
  {
    if running.Absent? then table else running
  }

  /** A `fields` callback: `($ind, $name, $column)` to the columns it stands for (empty for none). */
  type FieldsCallback = (int, Key, Column) -> ColumnSet

  /** The row `handler`: `($newName, $type, $value)` to the value to store. */
  type Handler = (Value, Value, Value) -> Value

  /** The value under `fields` or `types`: an array rule, a callable, or some other scalar. */
  datatype RuleParam = RuleArray(entries: Array<Value>) | RuleCallback(f: FieldsCallback) | RuleScalar(v: Value)

  /** The parameters `copy` and its helpers read (`sql` and `table` are read from a table's own spec). */
  datatype Params = Params(
    fields: Param<RuleParam>,
    types: Param<RuleParam>,
    columns: Param<ColumnSet>,
    handler: Param<Handler>)

  const NoParams: Params := Params(Absent, Absent, Absent, Absent)

  /** Every parameter `running` sets (null included), `r` sets to the same value. */
  ghost predicate Keeps(r: Params, running: Params) {
    && (!running.fields.Absent? ==> r.fields == running.fields)
    && (!running.types.Absent? ==> r.types == running.types)
    && (!running.columns.Absent? ==> r.columns == running.columns)
    && (!running.handler.Absent? ==> r.handler == running.handler)
  }

  /** Every parameter `running` leaves out, `r` takes from `table`. */
  ghost predicate FillsFrom(r: Params, table: Params, running: Params) {
    && (running.fields.Absent? ==> r.fields == table.fields)
    && (running.types.Absent? ==> r.types == table.types)
    && (running.columns.Absent? ==> r.columns == table.columns)
    && (running.handler.Absent? ==> r.handler == table.handler)
  }

  /** `array_merge($tableParams, $params)`: keys already in the running parameters win. */
  function MergeParams(table: Params, running: Params): (r: Params)
    ensures Keeps(r, running) && FillsFrom(r, table, running)
  {
    Params(
      MergeParam(table.fields, running.fields),
      MergeParam(table.types, running.types),
      MergeParam(table.columns, running.columns),
      MergeParam(table.handler, running.handler))
  }

  /** Once the running parameters carry a key, no later table can change it. */
  lemma MergeKeepsRunning(table: Params, running: Params)
    requires !running.fields.Absent? && !running.types.Absent?
    requires !running.columns.Absent? && !running.handler.Absent?
    ensures MergeParams(table, running) == running
  {
  }

  /** Merging is idempotent: a table's parameters merged twice are merged once. */
  lemma MergeParamsIdempotent(table: Params, running: Params)
    ensures MergeParams(table, MergeParams(table, running)) == MergeParams(table, running)
  {
  }

  // ---------------------------------------------------------------------------
  // Reading a rule
  // ---------------------------------------------------------------------------

  /** The three rule names. */
  datatype RuleName = Default | Whitelist | Blacklist

  /** `$rules`: each rule name under itself. */
  const Rules: Array<RuleName> := [(SKey("default"), Default), (SKey("whitelist"), Whitelist), (SKey("blacklist"), Blacklist)]

  lemma RulesLookup(s: string)
    ensures Get(Rules, ToKey(s)) ==
      if s == "default" then Some(Default)
      else if s == "whitelist" then Some(Whitelist)
      else if s == "blacklist" then Some(Blacklist)
      else None
  {
    if s in ["default", "whitelist", "blacklist"] {
      WordKey(s);
    }
    assert Keys(Rules) == [SKey("default"), SKey("whitelist"), SKey("blacklist")];
  }

  /**
   * The rule an array names in its entry 0, lower-cased; `default` (the
   * first of `$rules`) when the entry is missing or names no rule.
   */
  function RuleNameOf(entries: Array<Value>): (r: RuleName)
    ensures r == Whitelist <==> IssetGet(entries, IKey(0)).Some? && ToLower(StringOf(IssetGet(entries, IKey(0)).value)) == "whitelist"
    ensures r == Blacklist <==> IssetGet(entries, IKey(0)).Some? && ToLower(StringOf(IssetGet(entries, IKey(0)).value)) == "blacklist"
  {
    match IssetGet(entries, IKey(0))
    case None => Default
    case Some(v) =>
      RulesLookup(ToLower(StringOf(v)));
      match Get(Rules, ToKey(ToLower(StringOf(v))))
      case Some(rule) => rule
      case None => Default
  }

  /** The `fields` rule in force: a named rule over the remaining entries, or a callback. */
  datatype FieldsRule = Named(rule: RuleName, fields: Array<Value>) | Callback(f: FieldsCallback)

  /** The `types` rule in force: a rule name over the remaining entries (type fragment => new type). */
  datatype TypesRule = TypesRule(rule: RuleName, types: Array<Value>)

  /** The `fields` rule: an array names its rule in entry 0, which is then removed; a callable is used as it is. */
  function ParseFields(p: Param<RuleParam>): (r: Option<FieldsRule>)
    ensures r.Some? <==> p.Given? && (p.value.RuleArray? || p.value.RuleCallback?)
    ensures r.Some? && r.value.Named? ==> !HasKey(r.value.fields, IKey(0))
  {
    match p
    case Given(RuleArray(entries)) =>
      UnsetProps(entries, IKey(0));
      Some(Named(RuleNameOf(entries), Unset(entries, IKey(0))))
    case Given(RuleCallback(f)) => Some(Callback(f))
    case _ => None
  }

  /** The `types` rule: only an array counts. */
  function ParseTypes(p: Param<RuleParam>): (r: Option<TypesRule>)
    ensures r.Some? <==> p.Given? && p.value.RuleArray?
    ensures r.Some? ==> !HasKey(r.value.types, IKey(0))
  {
    match p
    case Given(RuleArray(entries)) =>
      UnsetProps(entries, IKey(0));
      Some(TypesRule(RuleNameOf(entries), Unset(entries, IKey(0))))
    case _ => None
  }

  /** `in_array($name, $fields)` with PHP's loose comparison (`LooseEqualsKey`). */
  predicate InArray(name: Key, fields: Array<Value>) {
    exists i :: 0 <= i < |fields| && LooseEqualsKey(name, fields[i].1)
  }

  /**
   * What the loose comparison means for a list of names: a `true` entry
   * lists every name that is not "" or 0, a `null` entry lists "" and 0,
   * an array entry lists nothing, and a list of strings lists exactly the
   * names spelt as one of them.
   */
  lemma InArrayLoose(name: Key, fields: Array<Value>)
    ensures (exists i :: 0 <= i < |fields| && fields[i].1 == Bool(true)) && Truthy(KeyValue(name)) ==> InArray(name, fields)
    ensures (exists i :: 0 <= i < |fields| && fields[i].1 == Null) && (name == SKey("") || name == IKey(0)) ==> InArray(name, fields)
    ensures (forall i :: 0 <= i < |fields| ==> fields[i].1.Arr?) ==> !InArray(name, fields)
    ensures (forall i :: 0 <= i < |fields| ==> fields[i].1.Str?) ==>
      (InArray(name, fields) <==> exists i :: 0 <= i < |fields| && fields[i].1 == Str(KeyString(name)))
  {
    if forall i :: 0 <= i < |fields| ==> fields[i].1.Str? {
      if InArray(name, fields) {
        var i :| 0 <= i < |fields| && LooseEqualsKey(name, fields[i].1);
        assert fields[i].1 == Str(KeyString(name));
      }
      if exists i :: 0 <= i < |fields| && fields[i].1 == Str(KeyString(name)) {
        var i :| 0 <= i < |fields| && fields[i].1 == Str(KeyString(name));
        assert LooseEqualsKey(name, fields[i].1);
      }
    }
  }

  // ---------------------------------------------------------------------------
  // Type matching of the `types` rule
  // ---------------------------------------------------------------------------

  /** `$column['type']` as the text `strstr` searches. */
  function TypeText(column: Column): (r: string)
    ensures Read(column, SKey("type")).Str? ==> r == Read(column, SKey("type")).s
    ensures Read(column, SKey("type")).Null? ==> r == ""
    ensures Read(column, SKey("type")).Arr? ==> r == "Array"
  {
    StringOf(Read(column, SKey("type")))
  }

  /** The `types` entry whose key is the fragment found in the type text. */
  predicate MatchesAt(typeText: string, types: Array<Value>, i: int) {
    0 <= i < |types| && StrstrTruthy(typeText, KeyString(types[i].0))
  }

  /** The `foreach` over the `types` entries with its `break`: the first entry whose key occurs in the type. */
  function FirstMatch(typeText: string, types: Array<Value>): (r: Option<nat>)
    ensures r.Some? ==> MatchesAt(typeText, types, r.value)
    ensures r.Some? ==> forall j :: 0 <= j < r.value ==> !MatchesAt(typeText, types, j)
    ensures r.None? <==> forall j :: 0 <= j < |types| ==> !MatchesAt(typeText, types, j)
  {
    FirstTrue(Hits(typeText, types), 0)
  }

  /** Which entries' keys occur in the type, in entry order. */
  function Hits(typeText: string, types: Array<Value>): (h: seq<bool>)
    ensures |h| == |types|
    ensures forall j :: 0 <= j < |types| ==> h[j] == MatchesAt(typeText, types, j)
  {
    seq(|types|, j requires 0 <= j < |types| => MatchesAt(typeText, types, j))
  }

  /** The first position at or after `i` that holds `true`. */
  function FirstTrue(h: seq<bool>, i: nat): (r: Option<nat>)
    requires i <= |h|
    ensures r.Some? ==> i <= r.value < |h| && h[r.value]
    ensures r.Some? ==> forall j :: i <= j < r.value ==> !h[j]
    ensures r.None? <==> forall j :: i <= j < |h| ==> !h[j]
    decreases |h| - i
  {
    if i == |h| then None
    else if h[i] then Some(i)
    else FirstTrue(h, i + 1)
  }

  /** `$found`: some entry's key occurs in the type. */
  predicate Found(column: Column, types: Array<Value>) {
    FirstMatch(TypeText(column), types).Some?
  }

  /** An array naming the blacklist in entry 0 and one fragment after it. */
  lemma BlacklistListForm(entries: Array<Value>)
    requires entries == [(IKey(0), Str("blacklist")), (IKey(1), Str("varchar"))]
    ensures ParseTypes(Given(RuleArray(entries))) == Some(TypesRule(Blacklist, [(IKey(1), Str("varchar"))]))
  {
    ListFormRule(entries, "blacklist", Blacklist);
    ListFormRest(entries);
  }

  /** A rule array whose entry 0 is a lower-case rule name names that rule. */
  lemma ListFormRule(entries: Array<Value>, word: string, rule: RuleName)
    requires |entries| >= 1 && entries[0] == (IKey(0), Str(word))
    requires word == "default" || word == "whitelist" || word == "blacklist"
    requires rule == (if word == "default" then Default else if word == "whitelist" then Whitelist else Blacklist)
    ensures RuleNameOf(entries) == rule
  {
    IssetFirst(entries, Str(word));
    RuleWordLower(word);
    assert ToLower(StringOf(Str(word))) == word;
  }

  lemma IssetFirst(entries: Array<Value>, v: Value)
    requires |entries| >= 1 && entries[0] == (IKey(0), v) && !v.Null?
    ensures IssetGet(entries, IKey(0)) == Some(v)
  {
    ReadAt(entries, IKey(0), 0);
  }

  /** The rule names are already lower case. */
  lemma RuleWordLower(word: string)
    requires word == "default" || word == "whitelist" || word == "blacklist"
    ensures ToLower(word) == word
  {
    if word == "default" {
      LowerKeepsLower("default");
    } else if word == "whitelist" {
      LowerKeepsLower("whitelist");
    } else {
      LowerKeepsLower("blacklist");
    }
  }

  /** Removing entry 0 from a two-entry rule array leaves the second entry. */
  lemma ListFormRest(entries: Array<Value>)
    requires |entries| == 2 && entries[0].0 == IKey(0) && entries[1].0 != IKey(0)
    ensures Unset(entries, IKey(0)) == entries[1..]
  {
    var rest := entries[1..];
    assert Drop(rest[1..], IKey(0)) == [];
    assert Drop(rest, IKey(0)) == [rest[0]];
  }

  /**
   * The fragments are the KEYS of the rule: in the list form
   * `['blacklist', 'varchar']` the entry left after removing entry 0 is
   * `1 => 'varchar'`, so the fragment searched for is "1", not "varchar".
   */
  lemma ListFormSearchesIndex(entries: Array<Value>, column: Column)
    requires entries == [(IKey(0), Str("blacklist")), (IKey(1), Str("varchar"))]
    ensures ParseTypes(Given(RuleArray(entries))).value.types == [(IKey(1), Str("varchar"))]
    ensures Found(column, [(IKey(1), Str("varchar"))]) <==> Contains(TypeText(column), "1")
  {
    BlacklistListForm(entries);
    assert KeyString(IKey(1)) == "1";
    var types := [(IKey(1), Str("varchar"))];
    assert FirstMatch(TypeText(column), types).Some? <==> MatchesAt(TypeText(column), types, 0);
  }
}
