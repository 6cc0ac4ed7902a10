/**
 * PHP ordered arrays as sequences of key/value pairs.
 *
 * A PHP array key is an integer or a string, and a string that is the
 * canonical decimal text of a 64-bit integer is stored as that integer
 * (`ToKey`). Assignment replaces a value in place or appends; `array_merge`
 * and `array_reverse` keep string keys but renumber integer keys from 0.
 */
module PhpArray {
  import opened Wrappers
  import opened PhpString

  datatype Key = IKey(i: int) | SKey(s: string)

  /** An ordered array; PHP keeps its keys distinct (`Distinct`). */
  type Array<V> = seq<(Key, V)>

  // ---------------------------------------------------------------------------
  // Keys
  // ---------------------------------------------------------------------------

  /** The text that PHP turns into an integer key: canonical decimal within the 64-bit range. */
  predicate IsIntegerKeyText(s: string) {
    || (IsCanonicalNat(s) && ParseNat(s) <= PhpIntMax)
    || (|s| >= 2 && s[0] == '-' && IsCanonicalNat(s[1..]) && s[1] != '0' && ParseNat(s[1..]) <= -PhpIntMin)
  }

  /** The key a string becomes when it is used as an array key. */
  function ToKey(s: string): (k: Key)
    ensures k.SKey? <==> !IsIntegerKeyText(s)
    ensures k.SKey? ==> k.s == s
    ensures k.IKey? ==> PhpIntMin <= k.i <= PhpIntMax
  {
    if IsCanonicalNat(s) && ParseNat(s) <= PhpIntMax then IKey(ParseNat(s))
    else if |s| >= 2 && s[0] == '-' && IsCanonicalNat(s[1..]) && s[1] != '0' && ParseNat(s[1..]) <= -PhpIntMin
    then IKey(0 - ParseNat(s[1..]))
    else SKey(s)
  }

  /** `(string)$key`: the text a key prints as. */
  function KeyString(k: Key): string {
    match k
    case IKey(i) => IntToString(i)
    case SKey(s) => s
  }

  /** Casting text to a key and printing the key gives the text back. */
  lemma KeyStringToKey(s: string)
    ensures KeyString(ToKey(s)) == s
  {
    if IsCanonicalNat(s) && ParseNat(s) <= PhpIntMax {
      NatToStringParse(s);
    } else if |s| >= 2 && s[0] == '-' && IsCanonicalNat(s[1..]) && s[1] != '0' && ParseNat(s[1..]) <= -PhpIntMin {
      var t := s[1..];
      NatToStringParse(t);
      LeadingDigitPositive(t);
      assert s == "-" + t;
    }
  }

  /** Text that starts with neither a digit nor a minus sign stays a string key. */
  lemma WordKey(s: string)
    requires |s| >= 1 && !IsDigit(s[0]) && s[0] != '-'
    ensures ToKey(s) == SKey(s)
  {
  }

  /** The decimal text of an in-range integer is cast back to that integer key. */
  lemma ToKeyIntToString(i: int)
    requires PhpIntMin <= i <= PhpIntMax
    ensures ToKey(IntToString(i)) == IKey(i)
  {
    if i >= 0 {
      ParseNatToString(i);
    } else {
      var t := NatToString(-i);
      ParseNatToString(-i);
      assert IntToString(i)[1..] == t;
    }
  }

  // ---------------------------------------------------------------------------
  // Lookup
  // ---------------------------------------------------------------------------

  function Keys<V>(a: Array<V>): (ks: seq<Key>)
    ensures |ks| == |a|
    ensures forall i :: 0 <= i < |a| ==> ks[i] == a[i].0
  {
    if a == [] then [] else [a[0].0] + Keys(a[1..])
  }

  function Values<V>(a: Array<V>): (vs: seq<V>)
    ensures |vs| == |a|
    ensures forall i :: 0 <= i < |a| ==> vs[i] == a[i].1
  {
    if a == [] then [] else [a[0].1] + Values(a[1..])
  }

  predicate HasKey<V>(a: Array<V>, k: Key) {
    k in Keys(a)
  }

  /** PHP arrays never hold one key twice. */
  predicate Distinct<V>(a: Array<V>) {
    forall i, j :: 0 <= i < j < |a| ==> a[i].0 != a[j].0
  }

  predicate AllStringKeys<V>(a: Array<V>) {
    forall i :: 0 <= i < |a| ==> a[i].0.SKey?
  }

  /** The position of key `k`, if present. */
  function Find<V>(a: Array<V>, k: Key): (r: Option<nat>)
    ensures r.Some? ==> r.value < |a| && a[r.value].0 == k
    ensures r.Some? ==> forall j :: 0 <= j < r.value ==> a[j].0 != k
    ensures r.None? <==> !HasKey(a, k)
  {
    if a == [] then None
    else if a[0].0 == k then Some(0)
    else match Find(a[1..], k)
      case None => None
      case Some(j) => Some(j + 1)
  }

  /** `$a[$k]` when `isset`-style presence is what matters. */
  function Get<V>(a: Array<V>, k: Key): (r: Option<V>)
    ensures r.Some? <==> HasKey(a, k)
  {
    match Find(a, k)
    case None => None
    case Some(i) => Some(a[i].1)
  }

  /** A computed array, when the computation succeeded, holds `v` under `k`. */
  predicate OkHolds<V(==)>(r: Result<Array<V>>, k: Key, v: Option<V>) {
    r.Ok? ==> Get(r.value, k) == v
  }

  /** In a PHP array, a key has a value exactly when the pair is an entry. */
  lemma GetMembership<V>(a: Array<V>, k: Key, v: V)
    requires Distinct(a)
    ensures Get(a, k) == Some(v) <==> (k, v) in a
  {
    if (k, v) in a {
      var j :| 0 <= j < |a| && a[j] == (k, v);
      assert Find(a, k) == Some(j);
    }
  }

  // ---------------------------------------------------------------------------
  // Assignment and unset
  // ---------------------------------------------------------------------------

  /** Entries appended after a key's first occurrence do not change its lookup. */
  lemma {:induction false} GetPrefix<V>(a: Array<V>, b: Array<V>, k: Key)
    requires HasKey(a, k)
    ensures Get(a + b, k) == Get(a, k)
  {
    var i := Find(a, k).value;
    assert forall j :: 0 <= j <= i ==> (a + b)[j] == a[j];
    FindIs(a + b, k, i);
  }

  /** The first entry with key `k` is the one `Find` reports. */
  lemma {:induction false} FindIs<V>(a: Array<V>, k: Key, i: nat)
    requires i < |a| && a[i].0 == k
    requires forall j :: 0 <= j < i ==> a[j].0 != k
    ensures Find(a, k) == Some(i)
  {
    if i > 0 {
      FindIs(a[1..], k, i - 1);
    }
  }

  /** Without an entry with key `k`, `Find` reports none. */
  lemma {:induction false} FindNone<V>(a: Array<V>, k: Key)
    requires forall j :: 0 <= j < |a| ==> a[j].0 != k
    ensures Find(a, k) == None
  {
    if a != [] {
      FindNone(a[1..], k);
    }
  }

  lemma MissingKey<V>(a: Array<V>, k: Key)
    requires !HasKey(a, k)
    ensures forall j :: 0 <= j < |a| ==> a[j].0 != k
  {
    forall j | 0 <= j < |a|
      ensures a[j].0 != k
    {
      assert Keys(a)[j] in Keys(a);
    }
  }

  /** `$a[$k] = $v`: replaces the value in place, or appends a new entry. */
  function Assign<V>(a: Array<V>, k: Key, v: V): (r: Array<V>)
    ensures Get(r, k) == Some(v)
    ensures forall k' :: k' != k ==> Get(r, k') == Get(a, k')
    ensures !HasKey(a, k) ==> r == a + [(k, v)]
    ensures HasKey(a, k) ==> Keys(r) == Keys(a)
    ensures Distinct(a) ==> Distinct(r)
  {
    match Find(a, k)
    case None =>
      AssignNew(a, k, v);
      a + [(k, v)]
    case Some(i) =>
      AssignExisting(a, k, v, i);
      a[i := (k, v)]
  }

  /** An assignment adds its key at the end, unless the key was there already. */
  lemma AssignKeys<V>(a: Array<V>, k: Key, v: V)
    ensures Keys(Assign(a, k, v)) == if HasKey(a, k) then Keys(a) else Keys(a) + [k]
  {
    if !HasKey(a, k) {
      assert Keys(a + [(k, v)]) == Keys(a) + [k];
    }
  }

  /** Every entry after an assignment is the assigned one or an entry that was there before. */
  lemma AssignEntries<V>(a: Array<V>, k: Key, v: V)
    ensures forall j :: 0 <= j < |Assign(a, k, v)| ==> Assign(a, k, v)[j] == (k, v) || Assign(a, k, v)[j] in a
  {
  }

  lemma AssignNew<V>(a: Array<V>, k: Key, v: V)
    requires !HasKey(a, k)
    ensures Get(a + [(k, v)], k) == Some(v)
    ensures forall k' :: k' != k ==> Get(a + [(k, v)], k') == Get(a, k')
    ensures Distinct(a) ==> Distinct(a + [(k, v)])
  {
    var r := a + [(k, v)];
    assert forall j :: 0 <= j < |a| ==> a[j].0 != k by {
      assert forall j :: 0 <= j < |a| ==> a[j].0 == Keys(a)[j];
    }
    FindAppended(a, k, v, k);
    LookupAppended(a, k, v);
  }

  lemma AssignExisting<V>(a: Array<V>, k: Key, v: V, i: nat)
    requires Find(a, k) == Some(i)
    ensures Get(a[i := (k, v)], k) == Some(v)
    ensures forall k' :: k' != k ==> Get(a[i := (k, v)], k') == Get(a, k')
    ensures Keys(a[i := (k, v)]) == Keys(a)
    ensures Distinct(a) ==> Distinct(a[i := (k, v)])
  {
    var r := a[i := (k, v)];
    FindSame(a, r, k, i);
    SameKeys(a, i, (k, v));
    forall k' | k' != k
      ensures Get(r, k') == Get(a, k')
    {
      FindOther(a, r, k, k', i);
    }
  }

  /** Replacing an entry by one with the same key keeps the keys, and so distinctness. */
  lemma SameKeys<V>(a: Array<V>, i: nat, e: (Key, V))
    requires i < |a| && a[i].0 == e.0
    ensures Keys(a[i := e]) == Keys(a)
    ensures Distinct(a) ==> Distinct(a[i := e])
  {
    assert forall j :: 0 <= j < |a| ==> a[i := e][j].0 == a[j].0;
  }

  lemma LookupAppended<V>(a: Array<V>, k: Key, v: V)
    requires !HasKey(a, k)
    ensures forall k' :: k' != k ==> Get(a + [(k, v)], k') == Get(a, k')
  {
    forall k' | k' != k
      ensures Get(a + [(k, v)], k') == Get(a, k')
    {
      FindAppended(a, k, v, k');
    }
  }

  lemma {:induction false} FindAppended<V>(a: Array<V>, k: Key, v: V, k': Key)
    requires k' != k || !HasKey(a, k)
    ensures Find(a, k').Some? ==> Find(a + [(k, v)], k') == Find(a, k')
    ensures Find(a, k').None? ==> Find(a + [(k, v)], k') == if k' == k then Some(|a|) else None
  {
    var r := a + [(k, v)];
    match Find(a, k')
    case Some(i) =>
      assert forall j :: 0 <= j <= i ==> r[j] == a[j];
      FindIs(r, k', i);
    case None =>
      MissingKey(a, k');
      if k' == k {
        FindIs(r, k, |a|);
      } else {
        FindNone(r, k');
      }
  }

  lemma {:induction false} FindSame<V>(a: Array<V>, r: Array<V>, k: Key, i: nat)
    requires Find(a, k) == Some(i) && |r| == |a| && r[i].0 == k
    requires forall j :: 0 <= j < |a| && j != i ==> r[j] == a[j]
    ensures Find(r, k) == Some(i)
  {
    if i > 0 {
      FindSame(a[1..], r[1..], k, i - 1);
    }
  }

  lemma FindOther<V>(a: Array<V>, r: Array<V>, k: Key, k': Key, i: nat)
    requires k' != k && i < |a| && a[i].0 == k && |r| == |a| && r[i].0 == k
    requires forall j :: 0 <= j < |a| && j != i ==> r[j] == a[j]
    ensures Get(r, k') == Get(a, k')
  {
    match Find(a, k')
    case Some(p) =>
      assert forall j :: 0 <= j < p ==> r[j].0 != k';
      FindIs(r, k', p);
    case None =>
      MissingKey(a, k');
      assert forall j :: 0 <= j < |r| ==> r[j].0 != k';
      FindNone(r, k');
  }

  /** `unset($a[$k])`: removes the entry for `k`, leaving every other entry in order. */
  function Unset<V>(a: Array<V>, k: Key): (r: Array<V>)
    ensures !HasKey(r, k)
    ensures forall k' :: k' != k ==> Get(r, k') == Get(a, k')
    ensures Distinct(a) ==> Distinct(r)
  {
    UnsetProps(a, k);
    Drop(a, k)
  }

  function Drop<V>(a: Array<V>, k: Key): Array<V> {
    if a == [] then []
    else if a[0].0 == k then Drop(a[1..], k)
    else [a[0]] + Drop(a[1..], k)
  }

  lemma UnsetProps<V>(a: Array<V>, k: Key)
    ensures !HasKey(Drop(a, k), k)
    ensures forall k' :: k' != k ==> Get(Drop(a, k), k') == Get(a, k')
    ensures Distinct(a) ==> Distinct(Drop(a, k))
  {
    DropNoKey(a, k);
    forall k' | k' != k
      ensures Get(Drop(a, k), k') == Get(a, k')
    {
      DropFind(a, k, k');
    }
    if Distinct(a) {
      DropDistinct(a, k);
    }
  }

  lemma {:induction false} DropNoKey<V>(a: Array<V>, k: Key)
    ensures !HasKey(Drop(a, k), k)
  {
    if a != [] {
      DropNoKey(a[1..], k);
      if a[0].0 != k {
        var rest := Drop(a[1..], k);
        assert Keys([a[0]] + rest) == [a[0].0] + Keys(rest);
      }
    }
  }

  lemma {:induction false} DropFind<V>(a: Array<V>, k: Key, k': Key)
    requires k' != k
    ensures Get(Drop(a, k), k') == Get(a, k')
  {
    if a != [] {
      DropFind(a[1..], k, k');
      GetFirst(a, k');
      if a[0].0 != k {
        var r := [a[0]] + Drop(a[1..], k);
        assert r[1..] == Drop(a[1..], k);
        GetFirst(r, k');
      }
    }
  }

  /** A lookup reads the first entry, or else looks in the rest. */
  lemma GetFirst<V>(a: Array<V>, k: Key)
    requires a != []
    ensures Get(a, k) == if a[0].0 == k then Some(a[0].1) else Get(a[1..], k)
  {
  }

  lemma {:induction false} DropMember<V>(a: Array<V>, k: Key, j: nat)
    requires j < |Drop(a, k)|
    ensures exists m :: 0 <= m < |a| && a[m] == Drop(a, k)[j]
  {
    if a != [] {
      if a[0].0 == k {
        DropMember(a[1..], k, j);
        var m :| 0 <= m < |a[1..]| && a[1..][m] == Drop(a[1..], k)[j];
        assert a[m + 1] == Drop(a, k)[j];
      } else if j > 0 {
        DropMember(a[1..], k, j - 1);
        var m :| 0 <= m < |a[1..]| && a[1..][m] == Drop(a[1..], k)[j - 1];
        assert a[m + 1] == Drop(a, k)[j];
      }
    }
  }

  lemma {:induction false} DropDistinct<V>(a: Array<V>, k: Key)
    requires Distinct(a)
    ensures Distinct(Drop(a, k))
  {
    if a != [] {
      DropDistinct(a[1..], k);
      if a[0].0 != k {
        var rest := Drop(a[1..], k);
        forall j | 0 <= j < |rest|
          ensures rest[j].0 != a[0].0
        {
          DropMember(a[1..], k, j);
          var m :| 0 <= m < |a[1..]| && a[1..][m] == rest[j];
          assert a[m + 1] == rest[j];
        }
        var r := [a[0]] + rest;
        forall i, j | 0 <= i < j < |r|
          ensures r[i].0 != r[j].0
        {
          if i > 0 {
            assert r[i] == rest[i - 1] && r[j] == rest[j - 1];
          } else {
            assert r[j] == rest[j - 1];
          }
        }
      }
    }
  }

  // ---------------------------------------------------------------------------
  // array_merge and array_reverse
  // ---------------------------------------------------------------------------

  /**
   * Inserts one entry the way `array_merge` and `array_reverse` do: an
   * integer key is replaced by the next free index, a string key is assigned.
   */
  function Push<V>(acc: (Array<V>, nat), e: (Key, V)): (Array<V>, nat) {
    if e.0.IKey? then (acc.0 + [(IKey(acc.1), e.1)], acc.1 + 1)
    else (Assign(acc.0, e.0, e.1), acc.1)
  }

  function PushAll<V>(acc: (Array<V>, nat), t: Array<V>): (Array<V>, nat)
    decreases |t|
  {
    if |t| == 0 then acc else Push(PushAll(acc, t[..|t| - 1]), t[|t| - 1])
  }

  /** `array_merge($a, $b)`. */
  function Merge<V>(a: Array<V>, b: Array<V>): Array<V> {
    PushAll(([], 0), a + b).0
  }

  function SeqReverse<T>(s: seq<T>): (r: seq<T>)
    ensures |r| == |s|
    ensures forall i :: 0 <= i < |s| ==> r[i] == s[|s| - 1 - i]
  {
    if s == [] then [] else SeqReverse(s[1..]) + [s[0]]
  }

  /** `array_reverse($a)`: string keys are kept, integer keys renumbered. */
  function Reverse<V>(a: Array<V>): Array<V> {
    PushAll(([], 0), SeqReverse(a)).0
  }

  /** The accumulator of `Push` is a PHP array whose integer keys are all below the next index. */
  predicate Numbered<V>(acc: (Array<V>, nat)) {
    && Distinct(acc.0)
    && forall j :: 0 <= j < |acc.0| && acc.0[j].0.IKey? ==> acc.0[j].0.i < acc.1
  }

  lemma {:induction false} PushAllNumbered<V>(acc: (Array<V>, nat), t: Array<V>)
    requires Numbered(acc)
    decreases |t|
    ensures Numbered(PushAll(acc, t))
  {
    if |t| > 0 {
      var p := PushAll(acc, t[..|t| - 1]);
      PushAllNumbered(acc, t[..|t| - 1]);
      var e := t[|t| - 1];
      if e.0.IKey? {
        assert forall j :: 0 <= j < |p.0| ==> p.0[j].0 != IKey(p.1);
      } else {
        var r := Assign(p.0, e.0, e.1);
        forall j | 0 <= j < |r| && r[j].0.IKey?
          ensures r[j].0.i < p.1
        {
          if HasKey(p.0, e.0) {
            assert r[j].0 == Keys(r)[j] == Keys(p.0)[j] == p.0[j].0;
          } else {
            assert j < |p.0|;
          }
        }
      }
    }
  }

  /** The result of `array_merge` is a well-formed PHP array. */
  lemma MergeDistinct<V>(a: Array<V>, b: Array<V>)
    ensures Distinct(Merge(a, b))
  {
    PushAllNumbered(([], 0), a + b);
  }

  /** Pushing entries with distinct fresh string keys just appends them. */
  lemma {:induction false} PushAllFresh<V>(acc: (Array<V>, nat), t: Array<V>)
    requires AllStringKeys(t) && Distinct(acc.0 + t)
    decreases |t|
    ensures PushAll(acc, t) == (acc.0 + t, acc.1)
  {
    if |t| > 0 {
      var t' := t[..|t| - 1];
      var all := acc.0 + t;
      assert acc.0 + t' == all[..|all| - 1];
      DistinctPrefix(all, |all| - 1);
      PushAllFresh(acc, t');
      var e := t[|t| - 1];
      assert e == all[|all| - 1];
      LastKeyFresh(all);
      PushFresh((acc.0 + t', acc.1), e);
      assert acc.0 + t' + [e] == all;
    } else {
      assert acc.0 + t == acc.0;
    }
  }

  lemma PushFresh<V>(p: (Array<V>, nat), e: (Key, V))
    requires e.0.SKey? && !HasKey(p.0, e.0)
    ensures Push(p, e) == (p.0 + [e], p.1)
  {
  }

  lemma DistinctPrefix<V>(a: Array<V>, n: nat)
    requires Distinct(a) && n <= |a|
    ensures Distinct(a[..n])
  {
  }

  /** In a PHP array the last key does not occur before it. */
  lemma LastKeyFresh<V>(a: Array<V>)
    requires Distinct(a) && |a| > 0
    ensures !HasKey(a[..|a| - 1], a[|a| - 1].0)
  {
  }

  lemma SeqReverseDistinct<V>(a: Array<V>)
    requires Distinct(a)
    ensures Distinct(SeqReverse(a))
  {
  }

  /** On a string-keyed array, `array_reverse` is plain reversal of the entries. */
  lemma ReverseStringKeys<V>(a: Array<V>)
    requires AllStringKeys(a) && Distinct(a)
    ensures Reverse(a) == SeqReverse(a)
  {
    SeqReverseDistinct(a);
    assert [] + SeqReverse(a) == SeqReverse(a);
    PushAllFresh(([], 0), SeqReverse(a));
  }

  lemma {:induction false} ReverseReverse<T>(s: seq<T>)
    ensures SeqReverse(SeqReverse(s)) == s
  {
  }

  // ---------------------------------------------------------------------------
  // Lookups through array_merge and array_reverse
  // ---------------------------------------------------------------------------

  /** The value of the LAST entry with key `k`: what a run of assignments leaves behind. */
  function LastGet<V>(t: Array<V>, k: Key): (r: Option<V>)
    decreases |t|
  {
    if |t| == 0 then None
    else if t[|t| - 1].0 == k then Some(t[|t| - 1].1)
    else LastGet(t[..|t| - 1], k)
  }

  lemma GetAppendOther<V>(a: Array<V>, k: Key, v: V, k': Key)
    requires k' != k
    ensures Get(a + [(k, v)], k') == Get(a, k')
  {
    FindAppended(a, k, v, k');
  }

  /** Pushing entries leaves a string key with its last value among them, or its old value. */
  lemma {:induction false} PushAllGetString<V>(acc: (Array<V>, nat), t: Array<V>, s: string)
    decreases |t|
    ensures Get(PushAll(acc, t).0, SKey(s)) ==
      if LastGet(t, SKey(s)).Some? then LastGet(t, SKey(s)) else Get(acc.0, SKey(s))
  {
    if |t| > 0 {
      var t' := t[..|t| - 1];
      var p := PushAll(acc, t');
      var e := t[|t| - 1];
      PushAllGetString(acc, t', s);
      if e.0.IKey? {
        GetAppendOther(p.0, IKey(p.1), e.1, SKey(s));
      }
    }
  }

  /** In a PHP array the only entry of a key is also its last. */
  lemma {:induction false} LastGetDistinct<V>(t: Array<V>, k: Key)
    requires Distinct(t)
    decreases |t|
    ensures LastGet(t, k) == Get(t, k)
  {
    if |t| > 0 {
      var t' := t[..|t| - 1];
      var e := t[|t| - 1];
      assert t == t' + [e];
      assert Distinct(t');
      LastGetDistinct(t', k);
      if e.0 == k {
        assert !HasKey(t', k) by {
          assert forall j :: 0 <= j < |t'| ==> t'[j].0 == t[j].0 != t[|t| - 1].0;
        }
        FindAppended(t', e.0, e.1, k);
      } else {
        GetAppendOther(t', e.0, e.1, k);
      }
    }
  }

  lemma {:induction false} LastGetConcat<V>(a: Array<V>, b: Array<V>, k: Key)
    decreases |b|
    ensures LastGet(a + b, k) == if LastGet(b, k).Some? then LastGet(b, k) else LastGet(a, k)
  {
    if |b| > 0 {
      var b' := b[..|b| - 1];
      assert (a + b)[..|a + b| - 1] == a + b';
      LastGetConcat(a, b', k);
    } else {
      assert a + b == a;
    }
  }

  /** The last entry of the reversed array is the first of the original. */
  lemma {:induction false} LastGetReverse<V>(a: Array<V>, k: Key)
    decreases |a|
    ensures LastGet(SeqReverse(a), k) == Get(a, k)
  {
    if |a| > 0 {
      LastGetReverse(a[1..], k);
      LastGetSnoc(SeqReverse(a[1..]), a[0], k);
      GetCons(a, k);
    }
  }

  /** The last entry under `k` after appending `e`: `e` itself if it has that key. */
  lemma LastGetSnoc<V>(r: Array<V>, e: (Key, V), k: Key)
    ensures LastGet(r + [e], k) == if e.0 == k then Some(e.1) else LastGet(r, k)
  {
    assert (r + [e])[..|r|] == r;
  }

  /** The first entry under `k`: the head if it has that key, otherwise the first in the rest. */
  lemma GetCons<V>(a: Array<V>, k: Key)
    requires |a| > 0
    ensures Get(a, k) == if a[0].0 == k then Some(a[0].1) else Get(a[1..], k)
  {
  }

  /** `array_reverse` keeps the value under every string key. */
  lemma ReverseGetString<V>(a: Array<V>, s: string)
    ensures Get(Reverse(a), SKey(s)) == Get(a, SKey(s))
  {
    PushAllGetString(([], 0), SeqReverse(a), s);
    LastGetReverse(a, SKey(s));
  }

  /**
   * `array_merge($a, $b)`: under a string key, the value in `$b` wins over
   * the ones in `$a`, of which the last counts.
   */
  lemma MergeGetString<V>(a: Array<V>, b: Array<V>, s: string)
    requires Distinct(b)
    ensures Get(Merge(a, b), SKey(s)) == if HasKey(b, SKey(s)) then Get(b, SKey(s)) else LastGet(a, SKey(s))
  {
    PushAllGetString(([], 0), a + b, s);
    LastGetConcat(a, b, SKey(s));
    LastGetDistinct(b, SKey(s));
  }
}
