/**
 * MySQLBuilder: backtick escape characters (see `EscapeChars`) and the
 * `LIMIT [offset, ]count` suffix appended to the SQL the parent class
 * renders. The parent's `getSQL` is not part of this model; it is a
 * parameter here.
 */
module MySQLBuilder {
  import opened Wrappers
  import opened PhpString
  import opened PhpValue
  import opened BaseSQLBuilder

  /** `genLimitation`: the LIMIT line, or nothing when no limit is set. */
  function GenLimitation(q: Query): (r: string)
    ensures !IsSet(q.limit) ==> r == ""
    ensures IsSet(q.limit) ==> |r| >= 7 && r[..6] == "LIMIT " && r[|r| - 1] == '\n'
    ensures IsSet(q.limit) && !IsSet(q.offset) ==> r == "LIMIT " + StringOf(q.limit.value) + "\n"
  {
    if IsSet(q.limit) then
      "LIMIT " + (if IsSet(q.offset) then StringOf(q.offset.value) + ", " else "") + StringOf(q.limit.value) + "\n"
    else ""
  }

  /** An offset alone renders nothing: it is only printed together with a limit. */
  lemma OffsetNeedsLimit(q: Query, offset: Option<Value>)
    requires !IsSet(q.limit)
    ensures GenLimitation(q.(offset := offset)) == ""
  {
  }

  /** `getSQL($level)`: the parent's SQL followed by the LIMIT line. */
  function GetSQL(parentGetSQL: (Builder, int) -> string, b: Builder, level: int): (r: string)
    ensures |r| >= |parentGetSQL(b, level)|
    ensures r[..|parentGetSQL(b, level)|] == parentGetSQL(b, level)
    ensures r[|parentGetSQL(b, level)|..] == GenLimitation(b.query)
  {
    parentGetSQL(b, level) + GenLimitation(b.query)
  }

  /**
   * Reads a LIMIT line back: `LIMIT n\n` or `LIMIT o, n\n` with canonical
   * decimal numbers; the result is the offset (if any) and the count.
   */
  function ParseLimitation(s: string): Option<(Option<nat>, nat)> {
    if |s| >= 7 && s[..6] == "LIMIT " && s[|s| - 1] == '\n' then ParseLimits(s[6..|s| - 1]) else None
  }

  /** The numbers between `LIMIT ` and the line end. */
  function ParseLimits(body: string): Option<(Option<nat>, nat)> {
    var parts := Explode(",", body);
    if |parts| == 1 && IsCanonicalNat(parts[0]) then Some((None, ParseNat(parts[0])))
    else if |parts| == 2 && IsCanonicalNat(parts[0])
      && |parts[1]| >= 1 && parts[1][0] == ' ' && IsCanonicalNat(parts[1][1..]) then
      Some((Some(ParseNat(parts[0])), ParseNat(parts[1][1..])))
    else None
  }

  /** The text `ParseLimits` reads the numbers from. */
  function LimitsText(l: (Option<nat>, nat)): string {
    (if l.0.Some? then NatToString(l.0.value) + ", " else "") + NatToString(l.1)
  }

  /** A query whose limit and offset are non-negative integers. */
  predicate NumericLimits(q: Query) {
    && q.limit.Some? && q.limit.value.Int? && q.limit.value.i >= 0
    && (IsSet(q.offset) ==> q.offset.value.Int? && q.offset.value.i >= 0)
  }

  /** The offset and count of a numeric query, as the LIMIT line should carry them. */
  function Limits(q: Query): (Option<nat>, nat)
    requires NumericLimits(q)
  {
    (if IsSet(q.offset) then Some(q.offset.value.i as nat) else None, q.limit.value.i as nat)
  }

  lemma RenderedLimits(q: Query)
    requires NumericLimits(q)
    ensures GenLimitation(q) == "LIMIT " + LimitsText(Limits(q)) + "\n"
  {
  }

  lemma LimitsTextParses(l: (Option<nat>, nat))
    ensures ParseLimits(LimitsText(l)) == Some(l)
  {
    if l.0.Some? {
      assert LimitsText(l) == NatToString(l.0.value) + ", " + NatToString(l.1);
      PairParses(l.0.value, l.1);
    } else {
      assert LimitsText(l) == NatToString(l.1);
      CountParses(l.1);
    }
  }

  lemma CountParses(n: nat)
    ensures ParseLimits(NatToString(n)) == Some((None, n))
  {
    var count := NatToString(n);
    ParseNatToString(n);
    DigitsHaveNoComma(count);
    assert count == Implode(",", [count]);
    ImplodeExplode(",", [count]);
  }

  lemma PairParses(o: nat, n: nat)
    ensures ParseLimits(NatToString(o) + ", " + NatToString(n)) == Some((Some(o), n))
  {
    var first, count := NatToString(o), NatToString(n);
    ParseNatToString(o);
    ParseNatToString(n);
    DigitsHaveNoComma(first);
    DigitsHaveNoComma(count);
    ExplodePair(first, count);
  }

  lemma {:induction false} ParsedLimitsText(body: string)
    requires ParseLimits(body).Some?
    ensures LimitsText(ParseLimits(body).value) == body
  {
    var parts := Explode(",", body);
    ExplodeImplode(",", body);
    if |parts| == 1 {
      NatToStringParse(parts[0]);
      assert parts == [parts[0]];
    } else {
      assert parts == [parts[0], parts[1]];
      PairText(parts[0], parts[1]);
    }
  }

  /** Two canonical numbers, the second after a space, are the text of the pair they read as. */
  lemma PairText(first: string, second: string)
    requires IsCanonicalNat(first) && |second| >= 1 && second[0] == ' ' && IsCanonicalNat(second[1..])
    ensures LimitsText((Some(ParseNat(first)), ParseNat(second[1..]))) == Implode(",", [first, second])
  {
    var count := second[1..];
    NatToStringParse(first);
    NatToStringParse(count);
    assert LimitsText((Some(ParseNat(first)), ParseNat(count))) == first + ", " + count;
    assert [first, second][1..] == [second];
    assert Implode(",", [first, second]) == first + "," + second;
    assert second == " " + count;
    assert first + ", " + count == first + "," + (" " + count);
  }

  /** The LIMIT line of a numeric query reads back as its offset and count, offset first. */
  lemma LimitationRoundTrip(q: Query)
    requires NumericLimits(q)
    ensures ParseLimitation(GenLimitation(q)) == Some(Limits(q))
  {
    RenderedLimits(q);
    LimitsTextParses(Limits(q));
    var s := GenLimitation(q);
    assert s[6..|s| - 1] == LimitsText(Limits(q));
  }

  /** Every text that reads as a LIMIT line is the line rendered for the numbers it carries. */
  lemma ParseLimitationRenders(s: string, q: Query)
    requires ParseLimitation(s).Some?
    requires NumericLimits(q) && Limits(q) == ParseLimitation(s).value
    ensures GenLimitation(q) == s
  {
    ParsedLimitation(s);
    RenderedLimits(q);
  }

  /** A text that reads as a LIMIT line is the line of the numbers it carries. */
  lemma ParsedLimitation(s: string)
    requires ParseLimitation(s).Some?
    ensures s == "LIMIT " + LimitsText(ParseLimitation(s).value) + "\n"
  {
    var body := s[6..|s| - 1];
    ParsedLimitsText(body);
    Framed(s, 6, |s| - 1);
    assert s[|s| - 1..] == "\n";
  }

  /** A text is its head, its middle and its tail put back together. */
  lemma Framed(s: string, i: nat, j: nat)
    requires i <= j <= |s|
    ensures s == s[..i] + s[i..j] + s[j..]
  {
    assert s[..i] + s[i..j] == s[..j];
  }
}
