/** `description` read as a flat rendering of an expression's token stream:
    tokens in order, one space between neighbours except just inside a
    parenthesis. */
module Rendering {
  import opened Syntax
  import opened Parser
  import opened ParserFacts

  /** The text of one token: parentheses and string tokens as written, a
      symbol inside square brackets, the parser's way of telling them apart. */
  function Text(t: Token): string
  {
    if t.content == "(" || t.content == ")" then t.content
    else if |t.content| > 0 && t.content[0] == '"' then t.content
    else "[" + t.content + "]"
  }

  /** The separator between two neighbouring tokens. */
  function Gap(t: Token, u: Token): string
  {
    if t.content == "(" || u.content == ")" then "" else " "
  }

  function Render(ts: seq<Token>): string
  {
    if |ts| == 0 then ""
    else if |ts| == 1 then Text(ts[0])
    else Text(ts[0]) + Gap(ts[0], ts[1]) + Render(ts[1..])
  }

  /** Rendering two non-empty token runs one after the other puts exactly
      one separator at the seam. */
  lemma {:induction false} RenderConcat(a: seq<Token>, b: seq<Token>)
    requires |a| > 0 && |b| > 0
    ensures Render(a + b) == Render(a) + Gap(a[|a| - 1], b[0]) + Render(b)
    decreases |a|
  {
    var ab := a + b;
    assert ab[0] == a[0];
    if |a| == 1 {
      assert ab[1..] == b && ab[1] == b[0];
    } else {
      var rest := a[1..];
      assert ab[1..] == rest + b && ab[1] == a[1];
      RenderConcat(rest, b);
      assert rest[|rest| - 1] == a[|a| - 1];
      var head := Text(a[0]) + Gap(a[0], a[1]);
      var seam := Gap(a[|a| - 1], b[0]);
      assert Render(ab) == head + (Render(rest) + seam + Render(b));
      assert Render(a) == head + Render(rest);
      Associate(head, Render(rest) + seam, Render(b));
      Associate(head, Render(rest), seam);
    }
  }

  /** Associativity of concatenation, called explicitly because the
      verifier finds this regrouping slowly on its own. */
  lemma Associate(x: string, y: string, z: string)
    ensures x + (y + z) == x + y + z
  {
  }

  /** The last token of a well-formed expression is not an opening
      parenthesis. */
  lemma EmitEnd(e: SExpression)
    requires WellFormed(e)
    ensures |Emit(e)| > 0 && Emit(e)[|Emit(e)| - 1].content != "("
  {
  }

  lemma EmitAllNonEmpty(items: seq<SExpression>)
    requires |items| > 0 && WellFormed(items[0])
    ensures |EmitAll(items)| > 0 && EmitAll(items)[0] == Emit(items[0])[0]
  {
    EmitStart(items[0]);
  }

  /** A non-empty run between a pair of parentheses renders with no space
      inside either of them. */
  lemma RenderParenthesized(o: Token, body: seq<Token>, c: Token)
    requires o.content == "(" && c.content == ")"
    requires |body| > 0 && body[|body| - 1].content != "("
    ensures Render([o] + body + [c]) == "(" + Render(body) + ")"
  {
    var front := [o] + body;
    var inner := Render(body);
    assert Render([o]) == "(" && Gap([o][0], body[0]) == "";
    RenderConcat([o], body);
    assert Render(front) == "(" + inner by {
      assert "(" + "" + inner == "(" + inner;
    }
    assert front[|front| - 1] == body[|body| - 1];
    assert Render([c]) == ")" && Gap(front[|front| - 1], c) == "";
    RenderConcat(front, [c]);
    assert "(" + inner + "" + ")" == "(" + inner + ")";
  }

  /** The description of a well-formed expression is the rendering of its
      tokens. A top-level `)` symbol, which the parser returns for a stray
      `)`, is not well-formed: its description `[)]` is not how a `)` token
      renders. */
  lemma {:induction false} DescribeRenders(e: SExpression)
    requires WellFormed(e)
    ensures Describe(e) == Render(Emit(e))
    decreases Size(e), 0
  {
    match e
    case Atom(a) =>
    case List(items) =>
      if items == [] {
        assert Emit(e) == [Token(0, "("), Token(0, ")")];
      } else {
        DescribeAllRenders(items);
        EmitAllEnd(items);
        RenderParenthesized(Token(0, "("), EmitAll(items), Token(0, ")"));
      }
  }

  /** The last token of a non-empty run of well-formed expressions is not an
      opening parenthesis. */
  lemma {:induction false} EmitAllEnd(items: seq<SExpression>)
    requires |items| > 0
    requires forall i :: 0 <= i < |items| ==> WellFormed(items[i])
    ensures |EmitAll(items)| > 0 && EmitAll(items)[|EmitAll(items)| - 1].content != "("
    decreases |items|
  {
    EmitEnd(items[0]);
    if |items| > 1 {
      EmitAllEnd(items[1..]);
    } else {
      assert EmitAll(items) == Emit(items[0]) + [];
    }
  }

  /** The items of a list render as their descriptions joined by spaces. */
  lemma {:induction false} DescribeAllRenders(items: seq<SExpression>)
    requires |items| > 0
    requires forall i :: 0 <= i < |items| ==> WellFormed(items[i])
    ensures Join(seq(|items|, i requires 0 <= i < |items| => Describe(items[i])), " ")
         == Render(EmitAll(items))
    decreases SizeAll(items), 2
  {
    if |items| == 1 {
      DescribeOneRenders(items);
    } else {
      DescribeConsRenders(items);
    }
  }

  /** `DescribeAllRenders` for a single item. */
  lemma {:induction false} DescribeOneRenders(items: seq<SExpression>)
    requires |items| == 1 && WellFormed(items[0])
    ensures Join(seq(|items|, i requires 0 <= i < |items| => Describe(items[i])), " ")
         == Render(EmitAll(items))
    decreases SizeAll(items), 1
  {
    var head := items[0];
    var descs := seq(|items|, i requires 0 <= i < |items| => Describe(items[i]));
    DescribeRenders(head);
    assert EmitAll(items) == Emit(head) + EmitAll(items[1..]) == Emit(head) + [];
    assert Emit(head) + [] == Emit(head);
    assert |descs| == 1 && descs[0] == Describe(head);
    assert Join(descs, " ") == Describe(head);
  }

  /** `DescribeAllRenders` for two items or more: the first item's
      description, a space, and the rest. */
  lemma {:induction false} DescribeConsRenders(items: seq<SExpression>)
    requires |items| > 1
    requires forall i :: 0 <= i < |items| ==> WellFormed(items[i])
    ensures Join(seq(|items|, i requires 0 <= i < |items| => Describe(items[i])), " ")
         == Render(EmitAll(items))
    decreases SizeAll(items), 1
  {
    var head, tail := items[0], items[1..];
    var descs := seq(|items|, i requires 0 <= i < |items| => Describe(items[i]));
    var rest := seq(|tail|, i requires 0 <= i < |tail| => Describe(tail[i]));
    assert descs[1..] == rest;
    DescribeRenders(head);
    DescribeAllRenders(tail);
    EmitEnd(head);
    EmitAllNonEmpty(tail);
    EmitStart(tail[0]);
    RenderConcat(Emit(head), EmitAll(tail));
  }

  /** The rendering reads only the texts of the tokens, so the offsets of
      parentheses do not matter. */
  lemma {:induction false} RenderContents(ts: seq<Token>, us: seq<Token>)
    requires SameUpToParens(ts, us)
    ensures Render(ts) == Render(us)
    decreases |ts|
  {
    if |ts| > 0 {
      assert Text(ts[0]) == Text(us[0]);
      if |ts| > 1 {
        assert Gap(ts[0], ts[1]) == Gap(us[0], us[1]);
        SameSplit(ts, us, 1);
        RenderContents(ts[1..], us[1..]);
      }
    }
  }

  /** What a parse returns is described as the rendering of the tokens it
      consumed: at the top level, unless the first token is a stray `)`. */
  lemma DescribeParsed(ts: seq<Token>)
    requires ParseTokens(ts).Ok? && ts[0].content != ")"
    ensures ParseAt(ts, 0).value.rest <= |ts|
    ensures Describe(ParseTokens(ts).value) == Render(ts[..ParseAt(ts, 0).value.rest])
  {
    var e := ParseTokens(ts).value;
    ParseSpells(ts, 0);
    assert ts[0..ParseAt(ts, 0).value.rest] == ts[..ParseAt(ts, 0).value.rest];
    DescribeRenders(e);
    RenderContents(ts[..ParseAt(ts, 0).value.rest], Emit(e));
  }
}
