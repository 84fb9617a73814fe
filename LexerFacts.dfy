/** Consequences of the lexer's invariant for the tokens it returns, and what
    happens to a token still being read when the input ends. */
module LexerFacts {
  import opened Syntax
  import opened Lexer

  /** The text of a string token: opening and closing quote. */
  predicate IsStringText(c: seq<char>)
  {
    |c| >= 2 && c[0] == '"' && c[|c| - 1] == '"'
  }

  /** The text of a symbol token: it starts with a symbol character and has
      no whitespace and no `)` anywhere (a later `(` or `"` is kept). */
  predicate IsSymbolText(c: seq<char>)
  {
    |c| > 0 && StartsSymbol(c[0]) && forall ch :: ch in c ==> !IsDelimiter(ch)
  }

  /** Every token `Tokenize` returns starts at a source offset holding its
      first character, the offsets strictly increase, and each token is a
      single parenthesis, a quoted string or a symbol. */
  lemma TokenShapes(s: seq<char>)
    ensures forall a, b :: 0 <= a < b < |Tokenize(s)| ==> Tokenize(s)[a].index < Tokenize(s)[b].index
    ensures forall k :: 0 <= k < |Tokenize(s)| ==>
              Tokenize(s)[k].index < |s| && |Tokenize(s)[k].content| > 0
              && Tokenize(s)[k].content[0] == s[Tokenize(s)[k].index]
    ensures forall k :: 0 <= k < |Tokenize(s)| ==>
              Tokenize(s)[k].content == "(" || Tokenize(s)[k].content == ")"
              || IsStringText(Tokenize(s)[k].content) || IsSymbolText(Tokenize(s)[k].content)
  {
    var ts := Tokenize(s);
    LexGood(s);
    forall k | 0 <= k < |ts|
      ensures ts[k].index < |s| && |ts[k].content| > 0 && ts[k].content[0] == s[ts[k].index]
      ensures ts[k].content == "(" || ts[k].content == ")" || IsStringText(ts[k].content) || IsSymbolText(ts[k].content)
    {
      var t := ts[k];
      assert TokenAt(s, |s|, t);
      if StringAt(s, |s|, t) {
        var j :| t.index < j < |s| && StringLiteral(s, t.index, j, t.content);
        assert t.content[|t.content| - 1] == '"';
      } else if SymbolAt(s, |s|, t) {
        assert t.content[0] == s[t.index..t.index + |t.content|][0];
      }
    }
  }

  lemma {:induction false} WhitespaceSkipped(s: seq<char>, i: nat)
    requires i <= |s|
    requires forall k :: i <= k < |s| ==> IsWhitespace(s[k])
    ensures LexFrom(s, i, Start) == Start
    decreases |s| - i
  {
    if i < |s| {
      WhitespaceSkipped(s, i + 1);
    }
  }

  /** Whitespace-only input, the empty input among it, gives no tokens. */
  lemma WhitespaceOnly(s: seq<char>)
    requires forall k :: 0 <= k < |s| ==> IsWhitespace(s[k])
    ensures Tokenize(s) == []
  {
    WhitespaceSkipped(s, 0);
  }

  lemma {:induction false} SymbolRunsOut(s: seq<char>, i: nat, m: Machine)
    requires i <= |s| && m.state == Symbol
    requires forall k :: i <= k < |s| ==> !IsDelimiter(s[k])
    ensures LexFrom(s, i, m).tokens == m.tokens
    decreases |s| - i
  {
    if i < |s| {
      SymbolRunsOut(s, i + 1, Step(m, i, s[i]));
    }
  }

  /** A symbol that runs to the end of the input is never emitted: `abc`
      gives no tokens. */
  lemma DanglingSymbol(s: seq<char>)
    requires |s| > 0 && StartsSymbol(s[0])
    requires forall k :: 0 < k < |s| ==> !IsDelimiter(s[k])
    ensures Tokenize(s) == []
  {
    SymbolRunsOut(s, 1, Step(Start, 0, s[0]));
  }

  lemma {:induction false} StringRunsOut(s: seq<char>, i: nat, m: Machine)
    requires i <= |s| && m.state.InString?
    requires forall k :: i <= k < |s| ==> s[k] != '"'
    ensures LexFrom(s, i, m).tokens == m.tokens
    decreases |s| - i
  {
    if i < |s| {
      StringRunsOut(s, i + 1, Step(m, i, s[i]));
    }
  }

  /** A string that is never closed is never emitted. */
  lemma UnterminatedString(s: seq<char>)
    requires |s| > 0 && s[0] == '"'
    requires forall k :: 0 < k < |s| ==> s[k] != '"'
    ensures Tokenize(s) == []
  {
    StringRunsOut(s, 1, Step(Start, 0, s[0]));
  }

  // ---------------------------------------------------------------------
  // Reading one token

  /** The machine in the normal state with emitted tokens `ts`; in that state
      the buffer and its start no longer matter (see `NormalTokens`). */
  function Ready(ts: seq<Token>): Machine
  {
    Machine(Normal, 0, [], ts)
  }

  /** Two machines that can differ only in the leftover buffer of the normal
      state. */
  predicate Agree(m: Machine, m': Machine)
  {
    m.state == m'.state && m.tokens == m'.tokens && (m.state != Normal ==> m == m')
  }

  lemma {:induction false} AgreeRuns(s: seq<char>, i: nat, m: Machine, m': Machine)
    requires i <= |s| && Agree(m, m')
    ensures LexFrom(s, i, m).tokens == LexFrom(s, i, m').tokens
    decreases |s| - i
  {
    if i < |s| {
      AgreeRuns(s, i + 1, Step(m, i, s[i]), Step(m', i, s[i]));
    }
  }

  /** In the normal state only the emitted tokens decide the rest of the run. */
  lemma NormalTokens(s: seq<char>, i: nat, m: Machine)
    requires i <= |s| && m.state == Normal
    ensures LexFrom(s, i, m).tokens == LexFrom(s, i, Ready(m.tokens)).tokens
  {
    AgreeRuns(s, i, m, Ready(m.tokens));
  }

  lemma {:induction false} SymbolRest(s: seq<char>, start: nat, k: nat, j: nat, b: seq<char>, ts: seq<Token>)
    requires k <= j < |s|
    requires forall x :: k <= x < j ==> !IsDelimiter(s[x])
    requires IsDelimiter(s[j])
    ensures LexFrom(s, k, Machine(Symbol, start, b, ts)).tokens
         == LexFrom(s, j + 1, Ready(ts + [Token(start, b + s[k..j])]
                                       + (if s[j] == ')' then [Token(j, ")")] else []))).tokens
    decreases j - k
  {
    if k == j {
      var m' := Step(Machine(Symbol, start, b, ts), j, s[j]);
      assert b + s[k..j] == b;
      assert m'.tokens == ts + [Token(start, b)] + (if s[j] == ')' then [Token(j, ")")] else []);
      NormalTokens(s, j + 1, m');
    } else {
      SymbolRest(s, start, k + 1, j, b + [s[k]], ts);
      assert b + [s[k]] + s[k + 1..j] == b + s[k..j];
    }
  }

  /** A symbol is read from its first character up to the next whitespace or
      `)`; it is emitted with its start offset, followed by the `)` token when
      a `)` ended it. */
  lemma ReadSymbol(s: seq<char>, i: nat, j: nat, ts: seq<Token>)
    requires i < j < |s| && StartsSymbol(s[i])
    requires forall x :: i < x < j ==> !IsDelimiter(s[x])
    requires IsDelimiter(s[j])
    ensures LexFrom(s, i, Ready(ts)).tokens
         == LexFrom(s, j + 1, Ready(ts + [Token(i, s[i..j])]
                                       + (if s[j] == ')' then [Token(j, ")")] else []))).tokens
  {
    SymbolRest(s, i, i + 1, j, [s[i]], ts);
    assert [s[i]] + s[i + 1..j] == s[i..j];
  }

  /** The first character of a non-empty valid body: an escape pair unescapes
      to its second character, any other character to itself. */
  lemma UnescapeFirst(s: seq<char>, k: nat, j: nat)
    requires k < j <= |s| && ValidBody(s[k..j])
    ensures s[k] == '\\' ==> k + 2 <= j && ValidBody(s[k + 2..j])
                              && Unescape(s[k..j]) == [s[k + 1]] + Unescape(s[k + 2..j])
    ensures s[k] != '\\' ==> s[k] != '"' && ValidBody(s[k + 1..j])
                              && Unescape(s[k..j]) == [s[k]] + Unescape(s[k + 1..j])
  {
    if s[k] == '\\' {
      assert s[k..j][2..] == s[k + 2..j];
    } else {
      assert s[k..j][1..] == s[k + 1..j];
    }
  }

  /** Inside a string, a backslash and the character after it add that
      character to the buffer. */
  lemma StringEscapeStep(s: seq<char>, start: nat, k: nat, b: seq<char>, ts: seq<Token>)
    requires k + 2 <= |s| && s[k] == '\\'
    ensures LexFrom(s, k, Machine(InString(Body), start, b, ts))
         == LexFrom(s, k + 2, Machine(InString(Body), start, b + [s[k + 1]], ts))
  {
  }

  /** Inside a string, a character other than a quote or a backslash is
      added to the buffer. */
  lemma StringPlainStep(s: seq<char>, start: nat, k: nat, b: seq<char>, ts: seq<Token>)
    requires k < |s| && s[k] != '\\' && s[k] != '"'
    ensures LexFrom(s, k, Machine(InString(Body), start, b, ts))
         == LexFrom(s, k + 1, Machine(InString(Body), start, b + [s[k]], ts))
  {
  }

  /** Reading the rest of a string literal, from `k` to its closing quote at
      `j`, with `b` buffered: the literal is emitted whole. */
  lemma {:induction false} StringRest(s: seq<char>, start: nat, k: nat, j: nat, b: seq<char>, ts: seq<Token>)
    requires k <= j < |s| && s[j] == '"' && ValidBody(s[k..j])
    ensures LexFrom(s, k, Machine(InString(Body), start, b, ts)).tokens
         == LexFrom(s, j + 1, Ready(ts + [Token(start, b + Unescape(s[k..j]) + ['"'])])).tokens
    decreases j - k, 1
  {
    if k == j {
      assert b + Unescape(s[k..j]) + ['"'] == b + ['"'];
      NormalTokens(s, j + 1, Step(Machine(InString(Body), start, b, ts), j, s[j]));
    } else if s[k] == '\\' {
      StringRestEscape(s, start, k, j, b, ts);
    } else {
      StringRestPlain(s, start, k, j, b, ts);
    }
  }

  /** `StringRest` when the next character is a backslash. */
  lemma {:induction false} StringRestEscape(s: seq<char>, start: nat, k: nat, j: nat, b: seq<char>, ts: seq<Token>)
    requires k < j < |s| && s[j] == '"' && ValidBody(s[k..j]) && s[k] == '\\'
    ensures LexFrom(s, k, Machine(InString(Body), start, b, ts)).tokens
         == LexFrom(s, j + 1, Ready(ts + [Token(start, b + Unescape(s[k..j]) + ['"'])])).tokens
    decreases j - k, 0
  {
    UnescapeFirst(s, k, j);
    StringEscapeStep(s, start, k, b, ts);
    StringRest(s, start, k + 2, j, b + [s[k + 1]], ts);
    assert b + [s[k + 1]] + Unescape(s[k + 2..j]) == b + Unescape(s[k..j]);
  }

  /** `StringRest` when the next character is neither a backslash nor the
      closing quote. */
  lemma {:induction false} StringRestPlain(s: seq<char>, start: nat, k: nat, j: nat, b: seq<char>, ts: seq<Token>)
    requires k < j < |s| && s[j] == '"' && ValidBody(s[k..j]) && s[k] != '\\'
    ensures LexFrom(s, k, Machine(InString(Body), start, b, ts)).tokens
         == LexFrom(s, j + 1, Ready(ts + [Token(start, b + Unescape(s[k..j]) + ['"'])])).tokens
    decreases j - k, 0
  {
    UnescapeFirst(s, k, j);
    StringPlainStep(s, start, k, b, ts);
    StringRest(s, start, k + 1, j, b + [s[k]], ts);
    assert b + [s[k]] + Unescape(s[k + 1..j]) == b + Unescape(s[k..j]);
  }

  /** A string literal is read from its opening to its closing quote and
      emitted whole, with escaping backslashes dropped. */
  lemma ReadString(s: seq<char>, i: nat, j: nat, ts: seq<Token>)
    requires i < j < |s| && s[i] == '"' && s[j] == '"' && ValidBody(s[i + 1..j])
    ensures LexFrom(s, i, Ready(ts)).tokens
         == LexFrom(s, j + 1, Ready(ts + [Token(i, ['"'] + Unescape(s[i + 1..j]) + ['"'])])).tokens
  {
    StringRest(s, i, i + 1, j, ['"'], ts);
  }

  /** Reading a parenthesis emits it as a one-character token. */
  lemma ReadParen(s: seq<char>, i: nat, ts: seq<Token>)
    requires i < |s| && (s[i] == '(' || s[i] == ')')
    ensures LexFrom(s, i, Ready(ts)) == LexFrom(s, i + 1, Ready(ts + [Token(i, [s[i]])]))
  {
  }

  /** Whitespace in the normal state is skipped. */
  lemma SkipWhitespace(s: seq<char>, i: nat, ts: seq<Token>)
    requires i < |s| && IsWhitespace(s[i])
    ensures LexFrom(s, i, Ready(ts)) == LexFrom(s, i + 1, Ready(ts))
  {
  }

  /** The body of the quoted example: `xyz \"x` unescapes to `xyz "x`. */
  lemma EscapeExample()
    ensures ValidBody("xyz \\\"x") && Unescape("xyz \\\"x") == "xyz \"x"
  {
    PlainBody("xyz ");
    PlainBody("x");
    assert ValidBody("\\\"") && Unescape("\\\"") == "\"";
    BodyConcat("\\\"", "x");
    UnescapeConcat("\\\"", "x");
    BodyConcat("xyz ", "\\\"x");
    UnescapeConcat("xyz ", "\\\"x");
    assert "xyz " + "\\\"x" == "xyz \\\"x";
    assert "\\\"" + "x" == "\\\"x";
    assert "xyz " + ("\"" + "x") == "xyz \"x";
  }

  /** A source that is one well-escaped string literal lexes to that one
      token, its escaping backslashes dropped. */
  lemma LoneString(s: seq<char>)
    requires |s| >= 2 && s[0] == '"' && s[|s| - 1] == '"' && ValidBody(s[1..|s| - 1])
    ensures Tokenize(s) == [Token(0, ['"'] + Unescape(s[1..|s| - 1]) + ['"'])]
  {
    assert Start == Ready([]);
    ReadString(s, 0, |s| - 1, []);
  }

  /** The escape collapse: in `"xyz \"x"` the backslash is dropped and the
      escaped quote is kept without ending the string. */
  lemma EscapedQuote()
    ensures Tokenize("\"xyz \\\"x\"") == [Token(0, "\"xyz \"x\"")]
  {
    var s := "\"xyz \\\"x\"";
    EscapeExample();
    assert s[1..|s| - 1] == "xyz \\\"x";
    LoneString(s);
    assert ['"'] + "xyz \"x" + ['"'] == "\"xyz \"x\"";
  }
}
