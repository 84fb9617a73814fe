/** The parser: recursive descent over a position into the token sequence
    (the start of the remaining slice). */
module Parser {
  import opened Syntax

  /** What one recursive parse returns: the expression read, or none when no
      token was left, and the position of the first token not consumed. */
  datatype Parsed = Parsed(expr: Option<SExpression>, rest: nat)

  function Last(ts: seq<Token>): Token
    requires |ts| > 0
  {
    ts[|ts| - 1]
  }

  /** The recursive parse of the slice `ts[pos..]`. It reads a whole
      expression from a non-empty slice, always consuming at least one token,
      and every error it raises carries the last token of the input. */
  function ParseAt(ts: seq<Token>, pos: nat): (r: Result<Parsed>)
    requires pos <= |ts|
    ensures pos == |ts| ==> r == Ok(Parsed(None, |ts|))
    ensures r.Ok? && pos < |ts| ==> r.value.expr.Some? && pos < r.value.rest <= |ts|
    ensures r.Err? ==> pos < |ts| && r.error == UnexpectedEnding(Last(ts))
    decreases |ts| - pos, 0
  {
    if pos == |ts| then Ok(Parsed(None, |ts|))
    else if ts[pos].content == "(" then
      if |ts| - pos == 1 then Err(UnexpectedEnding(ts[pos]))
      else ParseItems(ts, pos + 1, [])
    else if |ts[pos].content| > 0 && ts[pos].content[0] == '"' then
      Ok(Parsed(Some(Atom(StringAtom(ts[pos]))), pos + 1))
    else
      Ok(Parsed(Some(Atom(SymbolAtom(ts[pos]))), pos + 1))
  }

  /** The loop that reads the items of a list whose `(` came before `pos`,
      `items` being those read so far, up to and including the closing `)`. */
  function ParseItems(ts: seq<Token>, pos: nat, items: seq<SExpression>): (r: Result<Parsed>)
    requires 0 < pos <= |ts|
    ensures r.Ok? ==> r.value.expr.Some? && r.value.expr.value.List? && pos < r.value.rest <= |ts|
    ensures r.Err? ==> r.error == UnexpectedEnding(Last(ts))
    decreases |ts| - pos, 1
  {
    if pos < |ts| && ts[pos].content != ")" then
      var nextToken := ts[pos];
      match ParseAt(ts, pos)
      case Err(e) => Err(e)
      case Ok(Parsed(None, _)) => Err(UnexpectedEnding(nextToken))
      case Ok(Parsed(Some(e), rest)) => ParseItems(ts, rest, items + [e])
    else if pos == |ts| then Err(UnexpectedEnding(Last(ts)))
    else Ok(Parsed(Some(List(items)), pos + 1))
  }

  /** The public parse of a token sequence: the first complete expression,
      `Invalid` exactly when there are no tokens, and otherwise only
      `UnexpectedEnding` with the last token. Tokens after the first
      expression are ignored. */
  function ParseTokens(ts: seq<Token>): (r: Result<SExpression>)
    ensures r == Err(Invalid) <==> ts == []
    ensures r.Err? && ts != [] ==> r.error == UnexpectedEnding(Last(ts))
  {
    match ParseAt(ts, 0)
    case Err(e) => Err(e)
    case Ok(Parsed(None, _)) => Err(Invalid)
    case Ok(Parsed(Some(e), _)) => Ok(e)
  }

  /** The nested recursive parse, with its loop over the items of a list. */
  method ParseFrom(ts: seq<Token>, pos: nat) returns (r: Result<Parsed>)
    requires pos <= |ts|
    ensures r == ParseAt(ts, pos)
    decreases |ts| - pos
  {
    if pos == |ts| {
      return Ok(Parsed(None, |ts|));
    }
    var first := ts[pos];
    if first.content == "(" {
      var subExpressions: seq<SExpression> := [];
      if |ts| - pos == 1 {
        return Err(UnexpectedEnding(first));
      }
      var next := pos + 1;
      while next < |ts| && ts[next].content != ")"
        invariant pos < next <= |ts|
        invariant ParseItems(ts, next, subExpressions) == ParseItems(ts, pos + 1, [])
        decreases |ts| - next
      {
        var nextToken := ts[next];
        var res := ParseFrom(ts, next);
        match res {
          case Err(e) =>
            return Err(e);
          case Ok(Parsed(None, _)) =>
            return Err(UnexpectedEnding(nextToken));
          case Ok(Parsed(Some(e), rest)) =>
            subExpressions := subExpressions + [e];
            next := rest;
        }
      }
      if next == |ts| {
        return Err(UnexpectedEnding(Last(ts)));
      }
      return Ok(Parsed(Some(List(subExpressions)), next + 1));
    } else if |first.content| > 0 && first.content[0] == '"' {
      return Ok(Parsed(Some(Atom(StringAtom(first))), pos + 1));
    } else {
      return Ok(Parsed(Some(Atom(SymbolAtom(first))), pos + 1));
    }
  }

  /** The public parse of a token sequence. */
  method Parse(ts: seq<Token>) returns (r: Result<SExpression>)
    ensures r == ParseTokens(ts)
  {
    var res := ParseFrom(ts, 0);
    match res {
      case Err(e) => return Err(e);
      case Ok(Parsed(None, _)) => return Err(Invalid);
      case Ok(Parsed(Some(e), _)) => return Ok(e);
    }
  }
}
