/** `parse(source:)`: lexing followed by parsing, and the behaviour of the
    two stages together on whole inputs. */
module Pipeline {
  import opened Syntax
  import opened Lexer
  import opened LexerFacts
  import opened Parser
  import opened ParserFacts

  /** The public parse of source text. Lexing cannot fail, so every failure
      comes from the parser. */
  method ParseSource(source: string) returns (r: Result<SExpression>)
    ensures r == ParseTokens(Tokenize(source))
  {
    var tokens := Lex(source);
    r := Parse(tokens);
  }

  function Sym(index: nat, text: string): SExpression
  {
    Atom(SymbolAtom(Token(index, text)))
  }

  /** A `)` right after a symbol ends it: `(a)` is a list of one symbol. */
  lemma AdjacentClose()
    ensures Tokenize("(a)") == [Token(0, "("), Token(1, "a"), Token(2, ")")]
    ensures ParseTokens(Tokenize("(a)")) == Ok(List([Sym(1, "a")]))
  {
    var ts := [Token(0, "("), Token(1, "a"), Token(2, ")")];
    ReadParen("(a)", 0, []);
    ReadSymbol("(a)", 1, 2, [Token(0, "(")]);
    assert "(a)"[1..2] == "a";
    assert [Token(0, "(")] + [Token(1, "a")] + [Token(2, ")")] == ts;
    ParseFlatList(ts, 0, 2);
    assert AtomOf(ts[1]) == SymbolAtom(Token(1, "a"));
    assert seq(1, k requires 0 <= k < 1 => Atom(AtomOf(ts[1 + k]))) == [Sym(1, "a")];
  }

  const NestedTokens := [Token(0, "("), Token(1, "a"), Token(3, "("), Token(4, "b"),
                          Token(6, "c"), Token(7, ")"), Token(8, ")")]

  lemma LexNestingOpen(s: string)
    requires s == "(a (b c))"
    ensures LexFrom(s, 0, Start).tokens == LexFrom(s, 4, Ready(NestedTokens[..3])).tokens
  {
    var t2 := [Token(0, "("), Token(1, "a")];
    assert Start == Ready([]) && [] + [Token(0, "(")] == [Token(0, "(")];
    ReadParen(s, 0, []);
    ReadSymbol(s, 1, 2, [Token(0, "(")]);
    assert s[1..2] == "a" && [Token(0, "(")] + [Token(1, "a")] + [] == t2;
    ReadParen(s, 3, t2);
    assert t2 + [Token(3, "(")] == NestedTokens[..3];
  }

  /** The tokens of `(a (b c))`. */
  lemma LexNesting()
    ensures Tokenize("(a (b c))") == NestedTokens
  {
    var s := "(a (b c))";
    var t4 := NestedTokens[..3];
    var t6 := t4 + [Token(4, "b")];
    var t7 := t6 + [Token(6, "c"), Token(7, ")")];
    LexNestingOpen(s);
    ReadSymbol(s, 4, 5, t4);
    assert s[4..5] == "b" && t4 + [Token(4, "b")] + [] == t6;
    ReadSymbol(s, 6, 7, t6);
    assert s[6..7] == "c" && t6 + [Token(6, "c")] + [Token(7, ")")] == t7;
    ReadParen(s, 8, t7);
    assert t7 + [Token(8, ")")] == NestedTokens;
  }

  /** `(a (b c))` nests: the inner list is the second item of the outer. */
  lemma Nesting()
    ensures ParseTokens(Tokenize("(a (b c))"))
         == Ok(List([Sym(1, "a"), List([Sym(4, "b"), Sym(6, "c")])]))
  {
    LexNesting();
    var ts := NestedTokens;
    var inner := List([Sym(4, "b"), Sym(6, "c")]);
    ParseFlatList(ts, 2, 5);
    assert AtomOf(ts[3]) == SymbolAtom(Token(4, "b")) && AtomOf(ts[4]) == SymbolAtom(Token(6, "c"));
    assert seq(2, k requires 0 <= k < 2 => Atom(AtomOf(ts[3 + k]))) == inner.items;
    assert ParseAt(ts, 2) == Ok(Parsed(Some(inner), 6));
    assert [Sym(1, "a")] + [inner] == [Sym(1, "a"), inner];
    assert [] + [Sym(1, "a")] == [Sym(1, "a")];
    assert ParseItems(ts, 1, []) == Ok(Parsed(Some(List([Sym(1, "a"), inner])), 7));
  }

  /** `(a b` is not closed: it fails with `UnexpectedEnding`, naming the last
      token the lexer emitted, `a`, since the dangling `b` is dropped. */
  lemma UnclosedList()
    ensures Tokenize("(a b") == [Token(0, "("), Token(1, "a")]
    ensures ParseTokens(Tokenize("(a b")) == Err(UnexpectedEnding(Token(1, "a")))
  {
    var s := "(a b";
    ReadParen(s, 0, []);
    ReadSymbol(s, 1, 2, [Token(0, "(")]);
    assert s[1..2] == "a";
    var ts := [Token(0, "("), Token(1, "a")];
    assert [Token(0, "(")] + [Token(1, "a")] + [] == ts;
    DanglingSymbol(s[3..]);
    assert LexFrom(s, 3, Ready(ts)).tokens == ts;
    assert ParseItems(ts, 2, [Sym(1, "a")]).Err?;
  }

  /** Input with no complete token, the empty and the whitespace-only input
      among it, fails with `Invalid`. */
  lemma NoTokensInvalid(s: string)
    requires forall k :: 0 <= k < |s| ==> IsWhitespace(s[k])
    ensures ParseTokens(Tokenize(s)) == Err(Invalid)
  {
    WhitespaceOnly(s);
  }

  /** A lone symbol is never emitted, so it does not parse either. */
  lemma DanglingSymbolInvalid()
    ensures ParseTokens(Tokenize("abc")) == Err(Invalid)
  {
    DanglingSymbol("abc");
  }

  /** The tokens of `(a) b c `: the two trailing symbols are emitted. */
  lemma LexTrailing()
    ensures Tokenize("(a) b c ")
         == [Token(0, "("), Token(1, "a"), Token(2, ")"), Token(4, "b"), Token(6, "c")]
  {
    var s := "(a) b c ";
    var ts := [Token(0, "("), Token(1, "a"), Token(2, ")")];
    ReadParen(s, 0, []);
    ReadSymbol(s, 1, 2, [Token(0, "(")]);
    assert s[1..2] == "a";
    assert [Token(0, "(")] + [Token(1, "a")] + [Token(2, ")")] == ts;
    SkipWhitespace(s, 3, ts);
    ReadSymbol(s, 4, 5, ts);
    assert s[4..5] == "b";
    var tb := ts + [Token(4, "b")];
    assert ts + [Token(4, "b")] + [] == tb;
    ReadSymbol(s, 6, 7, tb);
    assert s[6..7] == "c";
    assert tb + [Token(6, "c")] + [] == tb + [Token(6, "c")];
  }

  /** The first complete expression is the result; later tokens are ignored. */
  lemma TrailingIgnored()
    ensures ParseTokens(Tokenize("(a) b c ")) == Ok(List([Sym(1, "a")]))
  {
    LexTrailing();
    var ts := [Token(0, "("), Token(1, "a"), Token(2, ")"), Token(4, "b"), Token(6, "c")];
    ParseFlatList(ts, 0, 2);
    assert AtomOf(ts[1]) == SymbolAtom(Token(1, "a"));
    assert seq(1, k requires 0 <= k < 1 => Atom(AtomOf(ts[1 + k]))) == [Sym(1, "a")];
  }

  /** A stray `)` is read as a symbol, not rejected. */
  lemma StrayClose()
    ensures ParseTokens(Tokenize(")")) == Ok(Sym(0, ")"))
  {
    ReadParen(")", 0, []);
  }

  /** `((`: the second `(` is the last token, one level down. The code as
      written traps there; the model fails with `UnexpectedEnding` at it. */
  lemma NestedOpenAtEnd()
    ensures Tokenize("((") == [Token(0, "("), Token(1, "(")]
    ensures LoneOpenAsWritten(Tokenize("(("), 1).None?
    ensures ParseTokens(Tokenize("((")) == Err(UnexpectedEnding(Token(1, "(")))
  {
    ReadParen("((", 0, []);
    ReadParen("((", 1, [Token(0, "(")]);
    NestedLoneOpen();
  }

  /** The example source. It is written as short pieces because the
      verifier compares one long string literal character by character at
      great cost; the pieces spell `( (a1 a2 (a3 a4 "xyz \"x")))`. */
  const ExampleSource := "( (a1" + " a2 (" + "a3 a4" + " \"xyz" + " \\\"x\"" + ")))"
  const ExampleString := Token(16, "\"xyz \"x\"")
  const ExampleTokens := [Token(0, "("), Token(2, "("), Token(3, "a1"), Token(6, "a2"), Token(9, "("),
                          Token(10, "a3"), Token(13, "a4"), ExampleString,
                          Token(25, ")"), Token(26, ")"), Token(27, ")")]
  const ExampleInner := List([Sym(10, "a3"), Sym(13, "a4"), Atom(StringAtom(ExampleString))])
  const ExampleMiddle := List([Sym(3, "a1"), Sym(6, "a2"), ExampleInner])

  const T3 := [Token(0, "("), Token(2, "(")]
  const T9 := T3 + [Token(3, "a1"), Token(6, "a2")]
  const T16 := T9 + [Token(9, "("), Token(10, "a3"), Token(13, "a4")]

  lemma LexOpen(s: string)
    requires s == ExampleSource
    ensures LexFrom(s, 0, Start).tokens == LexFrom(s, 3, Ready(T3)).tokens
  {
    var t1 := [Token(0, "(")];
    assert Start == Ready([]) && [] + [Token(0, "(")] == t1;
    ReadParen(s, 0, []);
    SkipWhitespace(s, 1, t1);
    ReadParen(s, 2, t1);
    assert t1 + [Token(2, [s[2]])] == T3;
  }

  lemma LexOpening(s: string)
    requires s == ExampleSource
    ensures LexFrom(s, 0, Start).tokens == LexFrom(s, 9, Ready(T9)).tokens
  {
    LexOpen(s);
    ReadSymbol(s, 3, 5, T3);
    var t6 := T3 + [Token(3, "a1")];
    assert s[3..5] == "a1" && T3 + [Token(3, "a1")] + [] == t6;
    ReadSymbol(s, 6, 8, t6);
    assert s[6..8] == "a2" && t6 + [Token(6, "a2")] + [] == T9;
  }

  const T13 := T9 + [Token(9, "("), Token(10, "a3")]

  lemma LexInnerOpen(s: string)
    requires s == ExampleSource
    ensures LexFrom(s, 9, Ready(T9)).tokens == LexFrom(s, 13, Ready(T13)).tokens
  {
    var t10 := T9 + [Token(9, "(")];
    ReadParen(s, 9, T9);
    ReadSymbol(s, 10, 12, t10);
    assert s[10..12] == "a3" && t10 + [Token(10, "a3")] + [] == T13;
  }

  lemma LexInner(s: string)
    requires s == ExampleSource
    ensures LexFrom(s, 9, Ready(T9)).tokens == LexFrom(s, 16, Ready(T16)).tokens
  {
    LexInnerOpen(s);
    ReadSymbol(s, 13, 15, T13);
    assert s[13..15] == "a4" && T13 + [Token(13, "a4")] + [] == T16;
  }

  const T25 := T16 + [ExampleString]

  lemma LexQuoted(s: string)
    requires s == ExampleSource
    ensures LexFrom(s, 16, Ready(T16)).tokens == LexFrom(s, 25, Ready(T25)).tokens
  {
    var raw := s[17..24];
    assert raw == "xyz \\\"x";
    EscapeExample();
    ReadString(s, 16, 24, T16);
    assert ['"'] + Unescape(raw) + ['"'] == ExampleString.content;
  }

  lemma LexClosing(s: string)
    requires s == ExampleSource
    ensures LexFrom(s, 16, Ready(T16)).tokens == ExampleTokens
  {
    LexQuoted(s);
    var t26 := T25 + [Token(25, ")")];
    var t27 := t26 + [Token(26, ")")];
    ReadParen(s, 25, T25);
    ReadParen(s, 26, t26);
    ReadParen(s, 27, t27);
    assert t27 + [Token(27, ")")] == ExampleTokens;
  }

  lemma LexExample()
    ensures Tokenize(ExampleSource) == ExampleTokens
  {
    LexOpening(ExampleSource);
    LexInner(ExampleSource);
    LexClosing(ExampleSource);
  }

  lemma ParseExample()
    ensures ParseTokens(ExampleTokens) == Ok(List([ExampleMiddle]))
  {
    var str := Token(16, "\"xyz \"x\"");
    var ts := [Token(0, "("), Token(2, "("), Token(3, "a1"), Token(6, "a2"), Token(9, "("),
               Token(10, "a3"), Token(13, "a4"), str, Token(25, ")"), Token(26, ")"), Token(27, ")")];
    assert ts == ExampleTokens;
    var a1, a2 := Sym(3, "a1"), Sym(6, "a2");
    var inner := List([Sym(10, "a3"), Sym(13, "a4"), Atom(StringAtom(str))]);
    var middle := List([a1, a2, inner]);
    assert inner == ExampleInner && middle == ExampleMiddle;
    ParseFlatList(ts, 4, 8);
    assert AtomOf(ts[5]) == SymbolAtom(Token(10, "a3"));
    assert AtomOf(ts[6]) == SymbolAtom(Token(13, "a4"));
    assert AtomOf(ts[7]) == StringAtom(str);
    var atoms := seq(3, k requires 0 <= k < 3 => Atom(AtomOf(ts[5 + k])));
    assert atoms == inner.items;
    assert ParseAt(ts, 4) == Ok(Parsed(Some(inner), 9));
    assert ParseItems(ts, 9, [a1, a2, inner]) == Ok(Parsed(Some(middle), 10));
    assert [a1, a2] + [inner] == [a1, a2, inner];
    assert ParseItems(ts, 4, [a1, a2]) == Ok(Parsed(Some(middle), 10));
    assert [a1] + [a2] == [a1, a2];
    assert ParseItems(ts, 3, [a1]) == Ok(Parsed(Some(middle), 10));
    assert [] + [a1] == [a1];
    assert ParseItems(ts, 2, []) == Ok(Parsed(Some(middle), 10));
    assert ParseAt(ts, 1) == Ok(Parsed(Some(middle), 10));
    assert ParseItems(ts, 10, [middle]) == Ok(Parsed(Some(List([middle])), 11));
    assert [] + [middle] == [middle];
    assert ParseItems(ts, 1, []) == Ok(Parsed(Some(List([middle])), 11));
  }

  /** Joining three parts, stated once so that the example proofs need not
      unfold `Join` on long strings, which is costly for the verifier. */
  lemma JoinThree(a: string, b: string, c: string, sep: string)
    ensures Join([a, b, c], sep) == a + sep + b + sep + c
  {
    assert [a, b, c][1..] == [b, c];
    assert [b, c][1..] == [c];
    assert Join([c], sep) == c;
    assert Join([b, c], sep) == b + sep + c;
  }

  lemma DescribeThree(x: SExpression, y: SExpression, z: SExpression)
    ensures Describe(List([x, y, z])) == "(" + Describe(x) + " " + Describe(y) + " " + Describe(z) + ")"
  {
    var items := [x, y, z];
    var parts := seq(3, i requires 0 <= i < 3 => Describe(items[i]));
    assert parts == [Describe(x), Describe(y), Describe(z)];
    JoinThree(Describe(x), Describe(y), Describe(z), " ");
  }

  lemma DescribeOne(x: SExpression)
    ensures Describe(List([x])) == "(" + Describe(x) + ")"
  {
    var parts := seq(1, i requires 0 <= i < 1 => Describe([x][i]));
    assert parts == [Describe(x)];
  }

  lemma DescribeInner()
    ensures Describe(ExampleInner) == "([a3] [a4] \"xyz \"x\")"
  {
    var str := Atom(StringAtom(Token(16, "\"xyz \"x\"")));
    assert ExampleInner == List([Sym(10, "a3"), Sym(13, "a4"), str]);
    DescribeThree(Sym(10, "a3"), Sym(13, "a4"), str);
    assert Describe(Sym(10, "a3")) == "[a3]";
    assert Describe(Sym(13, "a4")) == "[a4]";
  }

  lemma DescribeMiddle()
    ensures Describe(ExampleMiddle) == "([a1] [a2] ([a3] [a4] \"xyz \"x\"))"
  {
    var inner := "([a3] [a4] \"xyz \"x\")";
    DescribeInner();
    DescribeThree(Sym(3, "a1"), Sym(6, "a2"), ExampleInner);
    assert Describe(Sym(3, "a1")) == "[a1]";
    assert Describe(Sym(6, "a2")) == "[a2]";
    assert "(" + "[a1]" + " " + "[a2]" + " " + inner + ")" == "([a1] [a2] ([a3] [a4] \"xyz \"x\"))";
  }

  /** The last concatenation of the example description, proved on its own
      to keep the verifier's cost of `DescribeExample` down. */
  lemma OuterText()
    ensures "(" + "([a1] [a2] ([a3] [a4] \"xyz \"x\"))" + ")" == "(([a1] [a2] ([a3] [a4] \"xyz \"x\")))"
  {
  }

  lemma DescribeExample()
    ensures Describe(List([ExampleMiddle])) == "(([a1] [a2] ([a3] [a4] \"xyz \"x\")))"
  {
    DescribeMiddle();
    DescribeOne(ExampleMiddle);
    OuterText();
  }

  /** The end-to-end example: symbols come out bracketed, and the string
      keeps its quotes and its collapsed escape. */
  lemma EndToEnd()
    ensures ParseTokens(Tokenize("( (a1 a2 (a3 a4 \"xyz \\\"x\")))")).Ok?
    ensures Describe(ParseTokens(Tokenize("( (a1 a2 (a3 a4 \"xyz \\\"x\")))")).value)
         == "(([a1] [a2] ([a3] [a4] \"xyz \"x\")))"
  {
    assert "( (a1 a2 (a3 a4 \"xyz \\\"x\")))" == ExampleSource;
    LexExample();
    ParseExample();
    DescribeExample();
  }
}
