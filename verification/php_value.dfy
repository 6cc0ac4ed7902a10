/**
 * The PHP values that flow through the builders and the transfer engine:
 * scalars, arrays, and instances of BaseExpression (`Expr`, holding the raw
 * SQL text the instance stores). Floats and other objects are not modelled.
 */
module PhpValue {
  import opened Wrappers
  import opened PhpString
  import opened PhpArray

  datatype Value =
    | Null
    | Bool(b: bool)
    | Int(i: int)
    | Str(s: string)
    | Arr(entries: Array<Value>)
    | Expr(raw: string)

  /** `(string)$v`; an array prints as "Array", an expression as its stored text. */
  function StringOf(v: Value): string {
    match v
    case Null => ""
    case Bool(b) => if b then "1" else ""
    case Int(i) => IntToString(i)
    case Str(s) => s
    case Arr(_) => "Array"
    case Expr(raw) => raw
  }

  /** `(bool)$v`, the negation of `empty($v)`. */
  predicate Truthy(v: Value) {
    match v
    case Null => false
    case Bool(b) => b
    case Int(i) => i != 0
    case Str(s) => s != "" && s != "0"
    case Arr(e) => |e| > 0
    case Expr(_) => true
  }

  /** `isset($a[$k]) ? $a[$k] : ...`: the entry's value unless it is absent or null. */
  function IssetGet(a: Array<Value>, k: Key): Option<Value> {
    match Get(a, k)
    case Some(v) => if v.Null? then None else Some(v)
    case None => None
  }

  /** `$a[$k]` read without `isset`: a missing entry reads as null. */
  function Read(a: Array<Value>, k: Key): Value {
    match Get(a, k)
    case Some(v) => v
    case None => Null
  }

  /** Reading a key gives the value of its first entry. */
  lemma ReadAt(a: Array<Value>, k: Key, i: nat)
    requires i < |a| && a[i].0 == k
    requires forall j :: 0 <= j < i ==> a[j].0 != k
    ensures Read(a, k) == a[i].1
  {
  }

  /** A PHP list: the values under the keys 0, 1, 2, ... */
  function List(vs: seq<Value>): (a: Array<Value>)
    ensures |a| == |vs|
    ensures forall i :: 0 <= i < |vs| ==> a[i] == (IKey(i), vs[i])
  {
    seq(|vs|, i requires 0 <= i < |vs| => (IKey(i), vs[i]))
  }

  function StrList(ss: seq<string>): (vs: seq<Value>)
    ensures |vs| == |ss|
    ensures forall i :: 0 <= i < |ss| ==> vs[i] == Str(ss[i])
  {
    seq(|ss|, i requires 0 <= i < |ss| => Str(ss[i]))
  }

  /** The value `foreach` binds for a key: an integer key as an int, a string key as a string. */
  function KeyValue(k: Key): (v: Value)
    ensures StringOf(v) == KeyString(k)
  {
    match k
    case IKey(i) => Int(i)
    case SKey(s) => Str(s)
  }

  /**
   * `$k == $v` for an array key `$k`, as PHP 8 compares loosely: against a
   * bool, the key's truthiness; against null, only the key "" or 0; an array
   * never equals a key; anything else by its string form. Numeric strings
   * that spell one number differently ("1" and "01") are not equated here.
   */
  predicate LooseEqualsKey(k: Key, v: Value) {
    match v
    case Bool(b) => Truthy(KeyValue(k)) == b
    case Null => k == SKey("") || k == IKey(0)
    case Arr(_) => false
    case _ => StringOf(v) == KeyString(k)
  }

  /** A key a PHP array can actually hold: string keys never look like integers. */
  predicate ValidKey(k: Key) {
    k.SKey? ==> !IsIntegerKeyText(k.s)
  }

  /**
   * The key a value becomes in `$a[$v] = ...`: null is "", booleans are 0
   * and 1, strings are cast like array keys; arrays and objects are illegal
   * offsets (PHP 8 throws).
   */
  function AsKey(v: Value): (r: Option<Key>)
    ensures r.None? <==> v.Arr? || v.Expr?
    ensures v.Str? ==> r == Some(ToKey(v.s))
    ensures v.Null? ==> r == Some(SKey(""))
  {
    match v
    case Null => Some(SKey(""))
    case Bool(b) => Some(IKey(if b then 1 else 0))
    case Int(i) => Some(IKey(i))
    case Str(s) => Some(ToKey(s))
    case _ => None
  }

  /** Using the value of a key as a key gives the key back. */
  lemma AsKeyOfKeyValue(k: Key)
    requires ValidKey(k)
    ensures AsKey(KeyValue(k)) == Some(k)
  {
  }
}
