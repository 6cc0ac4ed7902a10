/**
 * The PHP string primitives the transfer engine and the builders rely on:
 * ASCII case mapping (`strtolower`, `strtoupper`), `trim`, `explode`,
 * `implode`, the truthiness of `strstr`, and decimal integer text.
 * Strings are sequences of characters; every primitive here is the
 * byte-wise ASCII behaviour of PHP 8.
 */
module PhpString {
  import opened Wrappers

  // ---------------------------------------------------------------------------
  // Case mapping
  // ---------------------------------------------------------------------------

  predicate IsUpper(c: char) {
    'A' <= c <= 'Z'
  }

  function LowerChar(c: char): char {
    if IsUpper(c) then (c as int + 32) as char else c
  }

  function UpperChar(c: char): char {
    if 'a' <= c <= 'z' then (c as int - 32) as char else c
  }

  /** `strtolower`: maps exactly the ASCII capitals, position by position. */
  function ToLower(s: string): (r: string)
    ensures |r| == |s|
    ensures forall i :: 0 <= i < |s| ==> r[i] == LowerChar(s[i])
    ensures forall i :: 0 <= i < |r| ==> !IsUpper(r[i])
  {
    if s == [] then [] else [LowerChar(s[0])] + ToLower(s[1..])
  }

  /** `strtoupper`: maps exactly the ASCII small letters, position by position. */
  function ToUpper(s: string): (r: string)
    ensures |r| == |s|
    ensures forall i :: 0 <= i < |s| ==> r[i] == UpperChar(s[i])
  {
    if s == [] then [] else [UpperChar(s[0])] + ToUpper(s[1..])
  }

  /** Upper-casing twice is upper-casing once. */
  lemma UpperOfUpper(s: string)
    ensures ToUpper(ToUpper(s)) == ToUpper(s)
  {
    var a := ToUpper(ToUpper(s));
    assert forall i :: 0 <= i < |s| ==> a[i] == UpperChar(UpperChar(s[i]));
  }

  /** Upper-casing forgets an earlier lower-casing. */
  lemma UpperOfLower(s: string)
    ensures ToUpper(ToLower(s)) == ToUpper(s)
  {
    var a := ToUpper(ToLower(s));
    assert forall i :: 0 <= i < |s| ==> a[i] == UpperChar(LowerChar(s[i]));
  }

  /** Lower-casing forgets an earlier upper-casing. */
  lemma LowerOfUpper(s: string)
    ensures ToLower(ToUpper(s)) == ToLower(s)
  {
    var a := ToLower(ToUpper(s));
    assert forall i :: 0 <= i < |s| ==> a[i] == LowerChar(UpperChar(s[i]));
  }

  /** Text without capitals is its own lower-case form. */
  lemma LowerKeepsLower(s: string)
    requires forall i :: 0 <= i < |s| ==> !IsUpper(s[i])
    ensures ToLower(s) == s
  {
    var a := ToLower(s);
    assert forall i :: 0 <= i < |s| ==> a[i] == LowerChar(s[i]) == s[i];
  }

  /** A string with an ASCII capital in it is never the image of `strtolower`. */
  lemma LowerHasNoCapital(s: string, t: string, i: nat)
    requires i < |t| && IsUpper(t[i])
    ensures ToLower(s) != t
  {
  }

  // ---------------------------------------------------------------------------
  // trim
  // ---------------------------------------------------------------------------

  /** The characters `trim` strips when no list is given: " \t\n\r\0\x0B". */
  predicate IsTrimSpace(c: char) {
    c == ' ' || c == '\t' || c == '\n' || c == '\r' || c == '\0' || c == '\U{000B}'
  }

  function TrimLeft(s: string, strip: char -> bool): (r: string)
    ensures |r| <= |s| && r == s[|s| - |r|..]
    ensures r == [] || !strip(r[0])
    ensures forall i :: 0 <= i < |s| - |r| ==> strip(s[i])
  {
    if s != [] && strip(s[0]) then
      var r := TrimLeft(s[1..], strip);
      assert s[1..][|s| - 1 - |r|..] == s[|s| - |r|..];
      assert forall i :: 1 <= i < |s| - |r| ==> s[i] == s[1..][i - 1];
      r
    else s
  }

  function TrimRight(s: string, strip: char -> bool): (r: string)
    ensures |r| <= |s| && r == s[..|r|]
    ensures r == [] || !strip(r[|r| - 1])
    ensures forall i :: |r| <= i < |s| ==> strip(s[i])
  {
    if s != [] && strip(s[|s| - 1]) then
      var r := TrimRight(s[..|s| - 1], strip);
      assert s[..|s| - 1][..|r|] == s[..|r|];
      assert forall i :: |r| <= i < |s| - 1 ==> s[i] == s[..|s| - 1][i];
      r
    else s
  }

  /** `trim($s, $chars)`: drops the characters `strip` accepts from both ends. */
  function TrimWith(s: string, strip: char -> bool): (r: string)
    ensures r == [] || (!strip(r[0]) && !strip(r[|r| - 1]))
    ensures exists a, b :: 0 <= a <= b <= |s| && r == s[a..b]
  {
    var l := TrimLeft(s, strip);
    var r := TrimRight(l, strip);
    SliceOfSuffix(s, l, r);
    r
  }

  /** A prefix of a suffix of `s` is a slice of `s`. */
  lemma SliceOfSuffix(s: string, l: string, r: string)
    requires |l| <= |s| && l == s[|s| - |l|..]
    requires |r| <= |l| && r == l[..|r|]
    ensures exists a, b :: 0 <= a <= b <= |s| && r == s[a..b]
  {
    assert r == s[|s| - |l|..|s| - |l| + |r|];
  }

  /** `trim($s)` with PHP's default character list. */
  function Trim(s: string): string {
    TrimWith(s, IsTrimSpace)
  }

  /** Text that does not start or end with a strippable character is left as it is. */
  lemma TrimKeepsClean(s: string, strip: char -> bool)
    requires s == [] || (!strip(s[0]) && !strip(s[|s| - 1]))
    ensures TrimWith(s, strip) == s
  {
  }

  /** A clean text followed by one strippable character trims back to the text. */
  lemma TrimClosing(s: string, c: char, strip: char -> bool)
    requires s == [] || (!strip(s[0]) && !strip(s[|s| - 1]))
    requires strip(c)
    ensures TrimWith(s + [c], strip) == s
  {
    var t := s + [c];
    if s == [] {
      assert TrimLeft(t, strip) == TrimLeft([], strip);
    } else {
      assert TrimLeft(t, strip) == t;
      assert t[..|t| - 1] == s;
      assert TrimRight(t, strip) == TrimRight(s, strip);
    }
  }

  // ---------------------------------------------------------------------------
  // Searching, explode and implode
  // ---------------------------------------------------------------------------

  /** `d` occurs in `s` at position `k`. */
  predicate OccursAt(s: string, d: string, k: int) {
    0 <= k && k + |d| <= |s| && s[k..k + |d|] == d
  }

  /** The first position at or after `i` where `d` occurs in `s`. */
  function IndexFrom(s: string, d: string, i: nat): (r: Option<nat>)
    decreases |s| - i
    ensures r.Some? ==> i <= r.value && OccursAt(s, d, r.value)
    ensures r.Some? ==> forall k :: i <= k < r.value ==> !OccursAt(s, d, k)
    ensures r.None? ==> forall k :: i <= k ==> !OccursAt(s, d, k)
  {
    if i + |d| > |s| then None
    else if s[i..i + |d|] == d then Some(i)
    else IndexFrom(s, d, i + 1)
  }

  /** `d` occurs somewhere in `s`. */
  predicate Contains(s: string, d: string) {
    IndexFrom(s, d, 0).Some?
  }

  /** A text that does not contain the one-character string `[c]` has no `c` anywhere. */
  lemma CharNotContained(s: string, c: char)
    requires !Contains(s, [c])
    ensures forall k :: 0 <= k < |s| ==> s[k] != c
  {
    forall k | 0 <= k < |s|
      ensures s[k] != c
    {
      assert !OccursAt(s, [c], k);
      assert s[k..k + 1] == [s[k]];
    }
  }

  /**
   * `explode($d, $s)`: the pieces of `s` between the non-overlapping
   * occurrences of `d`, found from the left. An empty delimiter is an
   * error in PHP, so the callers check it first.
   */
  function Explode(d: string, s: string): (parts: seq<string>)
    requires |d| > 0
    decreases |s|
    ensures |parts| >= 1
    ensures forall j :: 0 <= j < |parts| ==> !Contains(parts[j], d)
  {
    match IndexFrom(s, d, 0)
    case None => [s]
    case Some(i) =>
      NoEarlierOccurrence(s, d, i);
      [s[..i]] + Explode(d, s[i + |d|..])
  }

  lemma NoEarlierOccurrence(s: string, d: string, i: nat)
    requires |d| > 0 && IndexFrom(s, d, 0) == Some(i)
    ensures !Contains(s[..i], d)
  {
    var p := s[..i];
    forall k | OccursAt(p, d, k)
      ensures OccursAt(s, d, k) && k < i
    {
      assert p[k..k + |d|] == s[k..k + |d|];
    }
  }

  /** `implode($d, $parts)`: the parts joined with `d` in between. */
  function Implode(d: string, parts: seq<string>): string {
    if |parts| == 0 then ""
    else if |parts| == 1 then parts[0]
    else parts[0] + d + Implode(d, parts[1..])
  }

  /** Joining the pieces of `explode` with the same delimiter gives back the text. */
  lemma {:induction false} ExplodeImplode(d: string, s: string)
    requires |d| > 0
    decreases |s|
    ensures Implode(d, Explode(d, s)) == s
  {
    match IndexFrom(s, d, 0)
    case None =>
    case Some(i) =>
      var rest := s[i + |d|..];
      var tail := Explode(d, rest);
      assert Explode(d, s) == [s[..i]] + tail;
      ExplodeImplode(d, rest);
      var q := [s[..i]] + tail;
      assert q[1..] == tail;
      assert Implode(d, q) == s[..i] + d + rest;
      assert s == s[..i] + s[i..i + |d|] + rest;
  }

  /**
   * With a one-character delimiter that no part contains, `explode`
   * splits `implode`'s output back into the same parts.
   */
  lemma {:induction false} ImplodeExplode(d: string, parts: seq<string>)
    requires |d| == 1 && |parts| >= 1
    requires forall j, k :: 0 <= j < |parts| && 0 <= k < |parts[j]| ==> parts[j][k] != d[0]
    ensures Explode(d, Implode(d, parts)) == parts
  {
    var s := Implode(d, parts);
    if |parts| == 1 {
      forall k | 0 <= k && k + 1 <= |s|
        ensures !OccursAt(s, d, k)
      {
        assert s[k..k + 1][0] == s[k];
      }
    } else {
      var p := parts[0];
      var tail := Implode(d, parts[1..]);
      assert s == p + d + tail;
      assert OccursAt(s, d, |p|) by {
        assert s[|p|..|p| + 1] == d;
      }
      forall k | 0 <= k < |p|
        ensures !OccursAt(s, d, k)
      {
        assert s[k] == p[k];
        assert s[k..k + 1][0] == s[k];
      }
      assert IndexFrom(s, d, 0) == Some(|p|);
      assert s[..|p|] == p;
      assert s[|p| + 1..] == tail;
      ImplodeExplode(d, parts[1..]);
    }
  }

  /** Text without the (one-character) delimiter explodes into itself alone. */
  lemma ExplodeWithout(d: string, p: string)
    requires |d| == 1 && forall k :: 0 <= k < |p| ==> p[k] != d[0]
    ensures Explode(d, p) == [p]
  {
    ImplodeExplode(d, [p]);
  }

  /**
   * The first piece of `explode` is the text before the first delimiter, and
   * the other pieces are those of the text after it.
   */
  lemma ExplodeHead(d: string, p: string, rest: string)
    requires |d| == 1 && forall k :: 0 <= k < |p| ==> p[k] != d[0]
    ensures Explode(d, p + d + rest)[0] == p
    ensures Explode(d, p + d + rest) == [p] + Explode(d, rest)
  {
    var s := p + d + rest;
    assert OccursAt(s, d, |p|) by { assert s[|p|..|p| + 1] == d; }
    forall k | 0 <= k < |p|
      ensures !OccursAt(s, d, k)
    {
      assert s[k] == p[k];
      assert s[k..k + 1][0] == s[k];
    }
    assert IndexFrom(s, d, 0) == Some(|p|);
    assert s[..|p|] == p;
    assert s[|p| + 1..] == rest;
  }

  /**
   * Whether `strstr($h, $n)` is truthy. PHP 8 returns the haystack itself for
   * an empty needle, `false` when the needle does not occur, and otherwise the
   * suffix from the first occurrence, which is falsy when it is exactly "0".
   */
  function StrstrTruthy(h: string, n: string): (r: bool)
    ensures r && n != "" ==> Contains(h, n)
    ensures Contains(h, n) && n != "" && n != "0" ==> r
    ensures n == "" ==> (r <==> h != "" && h != "0")
  {
    if n == "" then h != "" && h != "0"
    else match IndexFrom(h, n, 0)
      case None => false
      case Some(i) =>
        assert h[i..][..|n|] == n;
        h[i..] != "0"
  }

  // ---------------------------------------------------------------------------
  // Decimal integers
  // ---------------------------------------------------------------------------

  const PhpIntMin: int := -0x8000_0000_0000_0000
  const PhpIntMax: int := 0x7FFF_FFFF_FFFF_FFFF

  predicate IsDigit(c: char) {
    '0' <= c <= '9'
  }

  predicate IsDigits(s: string) {
    forall i :: 0 <= i < |s| ==> IsDigit(s[i])
  }

  /** Decimal digits without a leading zero (a lone "0" is allowed). */
  predicate IsCanonicalNat(s: string) {
    |s| >= 1 && IsDigits(s) && (s[0] == '0' ==> |s| == 1)
  }

  function DigitChar(n: nat): (c: char)
    requires n < 10
    ensures IsDigit(c) && c as int - '0' as int == n
  {
    (n + '0' as int) as char
  }

  function DigitValue(c: char): (n: nat)
    requires IsDigit(c)
    ensures n < 10 && DigitChar(n) == c
  {
    c as int - '0' as int
  }

  /** The decimal text of a natural number, as PHP prints it. */
  function NatToString(n: nat): (r: string)
    ensures IsCanonicalNat(r)
    ensures r[0] == '0' <==> n == 0
  {
    if n < 10 then [DigitChar(n)] else NatToString(n / 10) + [DigitChar(n % 10)]
  }

  /** The value of a string of decimal digits. */
  function ParseNat(s: string): nat
    requires IsDigits(s)
  {
    if s == [] then 0 else ParseNat(s[..|s| - 1]) * 10 + DigitValue(s[|s| - 1])
  }

  /** The decimal text of an integer: a minus sign before negative values. */
  function IntToString(i: int): string {
    if i < 0 then "-" + NatToString(-i) else NatToString(i)
  }

  lemma {:induction false} ParseNatToString(n: nat)
    ensures ParseNat(NatToString(n)) == n
  {
    if n >= 10 {
      ParseNatToString(n / 10);
      var s := NatToString(n);
      assert s[..|s| - 1] == NatToString(n / 10);
    }
  }

  lemma {:induction false} LeadingDigitPositive(s: string)
    requires IsCanonicalNat(s) && s[0] != '0'
    ensures ParseNat(s) > 0
  {
    if |s| > 1 {
      var p := s[..|s| - 1];
      assert p[0] == s[0];
      LeadingDigitPositive(p);
    }
  }

  lemma {:induction false} NatToStringParse(s: string)
    requires IsCanonicalNat(s)
    ensures NatToString(ParseNat(s)) == s
  {
    if |s| > 1 {
      var p := s[..|s| - 1];
      assert p[0] == s[0];
      LeadingDigitPositive(p);
      NatToStringParse(p);
      assert s == p + [s[|s| - 1]];
    }
  }

  /** Decimal digits contain no comma. */
  lemma DigitsHaveNoComma(t: string)
    requires IsCanonicalNat(t)
    ensures forall k :: 0 <= k < |t| ==> t[k] != ','
  {
  }

  /** Two comma-free texts joined by ", " explode on "," into the first and the second with its space. */
  lemma ExplodePair(first: string, second: string)
    requires forall k :: 0 <= k < |first| ==> first[k] != ','
    requires forall k :: 0 <= k < |second| ==> second[k] != ','
    ensures Explode(",", first + ", " + second) == [first, " " + second]
  {
    var parts := [first, " " + second];
    assert first + ", " + second == Implode(",", parts);
    ImplodeExplode(",", parts);
  }
}
