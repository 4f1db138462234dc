/** Parsing a condition string `'<field> <op> <value>'` into a comparison:
    split on single spaces, coerce the literal, dispatch the operator. */
module Conditions {
  import opened Outcomes
  import Tokens
  import Numbers

  /** The six supported comparison operators. */
  datatype Op = Gt | Lt | Ge | Le | Eq | Ne

  /** A cell or literal: a number (Python float, here an exact real) or a string. */
  datatype Value = Num(r: real) | Str(s: string)

  /** A parsed condition: column name, operator and coerced literal. */
  datatype Condition = Condition(field: string, op: Op, literal: Value)

  function OpSymbol(op: Op): string
  {
    match op
    case Gt => ">"
    case Lt => "<"
    case Ge => ">="
    case Le => "<="
    case Eq => "=="
    case Ne => "!="
  }

  /** The operator dispatch: exactly the six symbols are recognised. */
  function ParseOp(tok: string): (r: Option<Op>)
    ensures r.Some? <==> tok in {">", "<", ">=", "<=", "==", "!="}
  {
    if tok == ">" then Some(Gt)
    else if tok == "<" then Some(Lt)
    else if tok == ">=" then Some(Ge)
    else if tok == "<=" then Some(Le)
    else if tok == "==" then Some(Eq)
    else if tok == "!=" then Some(Ne)
    else None
  }

  /** Parsing an operator token and printing an operator are inverse. */
  lemma ParseOpSymbol(tok: string, op: Op)
    ensures ParseOp(tok) == Some(op) <==> tok == OpSymbol(op)
  {
  }

  /** The literal coercion: a token that reads as a number becomes that number;
      any other token becomes the string left after stripping quotes from both ends. */
  function Coerce(tok: string): (v: Value)
    ensures v.Num? <==> Numbers.ParseNumber(tok).Some?
    ensures v.Num? ==> Numbers.ParseNumber(tok) == Some(v.r)
    ensures v.Str? ==> v.s == Tokens.StripQuotes(tok)
    ensures v.Str? ==> Tokens.NoEdgeQuotes(v.s) && |v.s| <= |tok|
  {
    match Numbers.ParseNumber(tok)
    case Some(x) => Num(x)
    case None => Str(Tokens.StripQuotes(tok))
  }

  /** A string literal, once coerced, coerces again to itself when re-read
      with no quotes around it: stripping changes nothing a second time. */
  lemma CoerceStringStable(tok: string)
    requires Coerce(tok).Str?
    ensures Tokens.StripQuotes(Coerce(tok).s) == Coerce(tok).s
  {
    Tokens.StripQuotesIdempotent(tok);
  }

  /** A token holding a quote character never reads as a number, so it is
      always compared as a string. */
  lemma QuotedTokenIsString(tok: string, k: nat)
    requires k < |tok| && Tokens.IsQuote(tok[k])
    ensures Coerce(tok) == Str(Tokens.StripQuotes(tok))
  {
    assert !Numbers.IsNumeral(tok[k]);
  }

  /** `field, op, value = condition.split(" ")`, then the coercion of `value`,
      then the operator dispatch. */
  function ParseCondition(s: string): (r: Result<Condition>)
    ensures r.Err? && r.error.WrongTokenCount? <==> Tokens.SpaceCount(s) != 2
    ensures r.Err? && r.error.WrongTokenCount? ==> r.error.count == Tokens.SpaceCount(s) + 1
    ensures r.Ok? ==> ' ' !in r.value.field
    ensures r.Err? ==> r.error.WrongTokenCount? || r.error.InvalidOperator?
  {
    var tokens := Tokens.SplitSpaces(s);
    if |tokens| != 3 then Err(WrongTokenCount(|tokens|))
    else
      var literal := Coerce(tokens[2]);
      match ParseOp(tokens[1])
      case None => Err(InvalidOperator(tokens[1]))
      case Some(op) => Ok(Condition(tokens[0], op, literal))
  }

  /** A condition written out as its three tokens separated by single spaces. */
  function ConditionText(field: string, opTok: string, valueTok: string): string
  {
    field + " " + opTok + " " + valueTok
  }

  /** What parsing makes of any well-spaced condition text: the operator token
      decides between an error and a condition whose literal is the coerced
      value token. Together with the token-count clause of `ParseCondition`
      this covers every input. */
  lemma ParseConditionText(field: string, opTok: string, valueTok: string)
    requires ' ' !in field && ' ' !in opTok && ' ' !in valueTok
    ensures ParseCondition(ConditionText(field, opTok, valueTok)) ==
      match ParseOp(opTok)
      case None => Err(InvalidOperator(opTok))
      case Some(op) => Ok(Condition(field, op, Coerce(valueTok)))
  {
    Tokens.SplitThree(field, opTok, valueTok);
  }

  /** Round trip for string literals: a quoted literal with no space and no
      quote at either end parses back to exactly that string. */
  lemma ParseQuotedLiteral(field: string, op: Op, lit: string)
    requires ' ' !in field && ' ' !in lit && Tokens.NoEdgeQuotes(lit)
    ensures ParseCondition(ConditionText(field, OpSymbol(op), "'" + lit + "'")) == Ok(Condition(field, op, Str(lit)))
  {
    var tok := "'" + lit + "'";
    ParseConditionText(field, OpSymbol(op), tok);
    ParseOpSymbol(OpSymbol(op), op);
    QuotedTokenIsString(tok, 0);
    Tokens.StripQuotesUnwraps(lit);
  }

  /** Round trip for numeric literals: an integer written in decimal parses
      back to that number, compared as a number. */
  lemma ParseIntegerLiteral(field: string, op: Op, n: int)
    requires ' ' !in field
    ensures ParseCondition(ConditionText(field, OpSymbol(op), Numbers.IntToString(n))) ==
      Ok(Condition(field, op, Num(n as real)))
  {
    var tok := Numbers.IntToString(n);
    Numbers.ParseIntToString(n);
    assert ' ' !in tok by {
      forall k | 0 <= k < |tok| ensures tok[k] != ' ' {
        assert Numbers.IsNumeral(tok[k]);
      }
    }
    ParseConditionText(field, OpSymbol(op), tok);
    ParseOpSymbol(OpSymbol(op), op);
  }

  /** An operator token outside the six symbols is rejected, whatever the field
      and the value are. */
  lemma UnknownOperatorRejected(field: string, opTok: string, valueTok: string)
    requires ' ' !in field && ' ' !in opTok && ' ' !in valueTok
    requires opTok !in {">", "<", ">=", "<=", "==", "!="}
    ensures ParseCondition(ConditionText(field, opTok, valueTok)) == Err(InvalidOperator(opTok))
  {
    ParseConditionText(field, opTok, valueTok);
  }
}
