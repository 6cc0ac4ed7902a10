/**
 * MSSQLBuilder: bracket escape characters (front "]", back "[", see
 * `EscapeChars`) and the `TOP n` prefix put before the select list the
 * parent class renders. The parent's `genSelect` is not part of this model;
 * it is a parameter here.
 */
module MSSQLBuilder {
  import opened Wrappers
  import opened PhpString
  import opened PhpValue
  import opened BaseSQLBuilder

  /** `genSelect`: `" TOP n "` before the parent's select list when a limit is set. */
  function GenSelect(parentGenSelect: Builder -> string, b: Builder): (r: string)
    ensures !IsSet(b.query.limit) ==> r == parentGenSelect(b)
    ensures IsSet(b.query.limit) ==> r == " TOP " + StringOf(b.query.limit.value) + " " + parentGenSelect(b)
  {
    (if IsSet(b.query.limit) then " TOP " + StringOf(b.query.limit.value) + " " else "") + parentGenSelect(b)
  }

  /**
   * The text added in front of the parent's output depends on the limit only:
   * the offset is never consulted.
   */
  lemma TopIgnoresOffset(parentGenSelect: Builder -> string, b: Builder, offset: Option<Value>)
    ensures var b' := b.(query := b.query.(offset := offset));
      var r := GenSelect(parentGenSelect, b');
      |r| >= |parentGenSelect(b')| &&
      r[..|r| - |parentGenSelect(b')|] == GenSelect(parentGenSelect, b)[..|GenSelect(parentGenSelect, b)| - |parentGenSelect(b)|]
  {
  }

  /** Reads a `" TOP n "` prefix back: the count and the text after it. */
  function ParseTop(s: string): Option<(nat, string)> {
    if |s| >= 5 && s[..5] == " TOP " then
      match IndexFrom(s, " ", 5)
      case Some(i) =>
        if IsCanonicalNat(s[5..i]) then Some((ParseNat(s[5..i]), s[i + 1..])) else None
      case None => None
    else None
  }

  /** With a non-negative integer limit, the prefix reads back as the limit and the parent's select list. */
  lemma TopRoundTrip(parentGenSelect: Builder -> string, b: Builder)
    requires b.query.limit.Some? && b.query.limit.value.Int? && b.query.limit.value.i >= 0
    ensures ParseTop(GenSelect(parentGenSelect, b)) == Some((b.query.limit.value.i as nat, parentGenSelect(b)))
  {
    TopParses(b.query.limit.value.i, parentGenSelect(b));
  }

  /** A `" TOP n "` prefix reads back as `n` and the text after it. */
  lemma TopParses(n: nat, rest: string)
    ensures ParseTop(" TOP " + NatToString(n) + " " + rest) == Some((n, rest))
  {
    var digits := NatToString(n);
    ParseNatToString(n);
    var s := " TOP " + digits + " " + rest;
    SpaceAfterDigits(digits, rest);
    assert s[5..5 + |digits|] == digits;
    assert s[5 + |digits| + 1..] == rest;
  }

  /** The first space after `" TOP "` is the one that ends the digits. */
  lemma SpaceAfterDigits(digits: string, rest: string)
    requires IsCanonicalNat(digits)
    ensures IndexFrom(" TOP " + digits + " " + rest, " ", 5) == Some(5 + |digits|)
  {
    var s := " TOP " + digits + " " + rest;
    var i := 5 + |digits|;
    assert OccursAt(s, " ", i) by { assert s[i..i + 1] == " "; }
    forall k | 5 <= k < i
      ensures !OccursAt(s, " ", k)
    {
      assert s[k] == digits[k - 5];
      assert s[k..k + 1][0] == s[k];
    }
  }
}
