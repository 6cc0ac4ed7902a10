/**
 * BaseExpression: a raw SQL fragment that the renderer must never escape.
 * An instance is the PHP object value `Expr(raw)`; its only state is the
 * string it was constructed with.
 */
module BaseExpression {
  import opened PhpValue

  type Expression = v: Value | v.Expr? witness Expr("")

  /** `new BaseExpression($value)`: stores `(string)$value`. */
  function New(value: Value): (e: Expression)
    ensures ToString(e) == StringOf(value)
  {
    Expr(StringOf(value))
  }

  /** `__toString`: the stored text, unescaped; PHP's string cast of the object gives the same. */
  function ToString(e: Expression): (s: string)
    ensures StringOf(e) == s
  {
    e.raw
  }

  /** `BaseExpression::c($value)`, the static shorthand for the constructor. */
  function C(value: Value): (e: Expression)
    ensures e == New(value)
    ensures ToString(e) == StringOf(value)
  {
    New(value)
  }

  /** Wrapping a string and printing the expression gives the string back. */
  lemma StringRoundTrip(s: string)
    ensures ToString(New(Str(s))) == s
  {
  }

  /** Every expression is the wrapping of its own text. */
  lemma ExpressionRoundTrip(e: Expression)
    ensures New(Str(ToString(e))) == e
  {
  }

  /** Wrapping an expression again copies it: the raw text is neither quoted nor altered. */
  lemma RewrapIsIdentity(e: Expression)
    ensures New(e) == e
  {
  }
}
