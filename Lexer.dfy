/** The lexer: one pass of a four-state machine over the source characters,
    producing tokens tagged with the offset of their first character. */
module Lexer {
  import opened Syntax

  /** The whitespace set. A carriage return followed by a line feed is two
      whitespace characters here. */
  predicate IsWhitespace(c: char)
  {
    c == ' ' || c == '\n' || c == '\r'
  }

  /** A character that ends a symbol. */
  predicate IsDelimiter(c: char)
  {
    IsWhitespace(c) || c == ')'
  }

  /** A character that, met in the normal state, starts a symbol. */
  predicate StartsSymbol(c: char)
  {
    !IsWhitespace(c) && c != '(' && c != ')' && c != '"'
  }

  datatype StringState = Body | Escape
  datatype LexerState = Normal | Symbol | InString(sub: StringState)

  /** The lexer's working variables: its state, where the buffered token
      started, the buffered characters and the tokens emitted so far. */
  datatype Machine = Machine(state: LexerState, bufferStart: nat, buffer: seq<char>, tokens: seq<Token>)

  const Start := Machine(Normal, 0, [], [])

  /** The emitted tokens, and one more for a token being read. */
  function Weight(m: Machine): nat
  {
    |m.tokens| + if m.state == Normal then 0 else 1
  }

  /** One transition of the state machine on the character `c` at offset
      `index`; StepAppends states what it does to the tokens. */
  function Step(m: Machine, index: nat, c: char): (r: Machine)
  {
    match m.state
    case Normal =>
      if IsWhitespace(c) then m
      else if c == '(' || c == ')' then m.(tokens := m.tokens + [Token(index, [c])])
      else if c == '"' then m.(state := InString(Body), bufferStart := index, buffer := [c])
      else m.(state := Symbol, bufferStart := index, buffer := [c])
    case Symbol =>
      if c == ')' then
        m.(state := Normal, tokens := m.tokens + [Token(m.bufferStart, m.buffer), Token(index, ")")])
      else if IsWhitespace(c) then
        m.(state := Normal, tokens := m.tokens + [Token(m.bufferStart, m.buffer)])
      else m.(buffer := m.buffer + [c])
    case InString(Body) =>
      if c == '"' then m.(state := Normal, tokens := m.tokens + [Token(m.bufferStart, m.buffer + [c])])
      else if c == '\\' then m.(state := InString(Escape))
      else m.(buffer := m.buffer + [c])
    case InString(Escape) =>
      m.(state := InString(Body), buffer := m.buffer + [c])
  }

  /** The machine after running over `s[i..]` from `m`; LexFromAppends
      states what it does to the tokens. */
  function LexFrom(s: seq<char>, i: nat, m: Machine): (r: Machine)
    requires i <= |s|
    decreases |s| - i
  {
    if i == |s| then m else LexFrom(s, i + 1, Step(m, i, s[i]))
  }

  /** The tokens the lexer returns for `s`; a token still buffered when the
      input ends is not among them. TokenizeBound bounds their number. */
  function Tokenize(s: seq<char>): (r: seq<Token>)
  {
    LexFrom(s, 0, Start).tokens
  }

  /** One transition only appends tokens, emits one only on its way back to
      the normal state, and adds at most one token, emitted or being read. */
  lemma StepAppends(m: Machine, index: nat, c: char)
    ensures m.tokens <= Step(m, index, c).tokens
    ensures |Step(m, index, c).tokens| > |m.tokens| ==> Step(m, index, c).state == Normal
    ensures Weight(Step(m, index, c)) <= Weight(m) + 1
  {
  }

  /** A run over `s[i..]` keeps the tokens it started with and adds at most
      one token, emitted or being read, per character. */
  lemma {:induction false} LexFromAppends(s: seq<char>, i: nat, m: Machine)
    requires i <= |s|
    ensures m.tokens <= LexFrom(s, i, m).tokens
    ensures Weight(LexFrom(s, i, m)) <= Weight(m) + (|s| - i)
    decreases |s| - i
  {
    if i < |s| {
      StepAppends(m, i, s[i]);
      LexFromAppends(s, i + 1, Step(m, i, s[i]));
    }
  }

  /** The lexer returns at most one token per source character. */
  lemma TokenizeBound(s: seq<char>)
    ensures |Tokenize(s)| <= |s|
  {
    LexFromAppends(s, 0, Start);
  }

  // ---------------------------------------------------------------------
  // String literal bodies

  /** `raw` is the text between the two quotes of a complete string literal:
      every backslash is followed by the character it escapes, and no quote
      is unescaped. */
  predicate ValidBody(raw: seq<char>)
    decreases |raw|
  {
    if raw == [] then true
    else if raw[0] == '\\' then |raw| >= 2 && ValidBody(raw[2..])
    else raw[0] != '"' && ValidBody(raw[1..])
  }

  /** `raw` with every escaping backslash dropped and the escaped character kept. */
  function Unescape(raw: seq<char>): seq<char>
    decreases |raw|
  {
    if raw == [] then []
    else if raw[0] == '\\' && |raw| >= 2 then [raw[1]] + Unescape(raw[2..])
    else [raw[0]] + Unescape(raw[1..])
  }

  /** Text with no backslash and no quote is a body that stands for itself. */
  lemma {:induction false} PlainBody(raw: seq<char>)
    requires forall k :: 0 <= k < |raw| ==> raw[k] != '\\' && raw[k] != '"'
    ensures ValidBody(raw) && Unescape(raw) == raw
    decreases |raw|
  {
    if raw != [] {
      PlainBody(raw[1..]);
      assert [raw[0]] + raw[1..] == raw;
    }
  }

  /** Bodies concatenate. */
  lemma {:induction false} BodyConcat(a: seq<char>, b: seq<char>)
    requires ValidBody(a) && ValidBody(b)
    ensures ValidBody(a + b)
    decreases |a|
  {
    var ab := a + b;
    if a == [] {
      assert ab == b;
    } else if a[0] == '\\' {
      assert ab[2..] == a[2..] + b;
      BodyConcat(a[2..], b);
    } else {
      assert ab[1..] == a[1..] + b;
      BodyConcat(a[1..], b);
    }
  }

  /** Unescaping a body followed by anything unescapes the two parts apart:
      no escape spans the join. */
  lemma {:induction false} UnescapeConcat(a: seq<char>, b: seq<char>)
    requires ValidBody(a)
    ensures Unescape(a + b) == Unescape(a) + Unescape(b)
    decreases |a|
  {
    var ab := a + b;
    if a == [] {
      assert ab == b;
    } else if a[0] == '\\' {
      assert ab[2..] == a[2..] + b;
      UnescapeConcat(a[2..], b);
    } else {
      assert ab[1..] == a[1..] + b;
      UnescapeConcat(a[1..], b);
    }
  }

  /** A plain character extends a body by itself. */
  lemma AppendPlain(raw: seq<char>, c: char)
    requires ValidBody(raw) && c != '"' && c != '\\'
    ensures ValidBody(raw + [c]) && Unescape(raw + [c]) == Unescape(raw) + [c]
  {
    PlainBody([c]);
    BodyConcat(raw, [c]);
    UnescapeConcat(raw, [c]);
  }

  /** An escape extends a body by the escaped character alone. */
  lemma AppendEscaped(raw: seq<char>, c: char)
    requires ValidBody(raw)
    ensures ValidBody(raw + ['\\', c]) && Unescape(raw + ['\\', c]) == Unescape(raw) + [c]
  {
    var esc := ['\\', c];
    assert esc[2..] == [];
    BodyConcat(raw, esc);
    UnescapeConcat(raw, esc);
  }

  // ---------------------------------------------------------------------
  // What a token of the source looks like

  /** A parenthesis token: the single character at its offset. */
  ghost predicate ParenAt(s: seq<char>, n: nat, t: Token)
  {
    t.index < n <= |s| && (s[t.index] == '(' || s[t.index] == ')') && t.content == [s[t.index]]
  }

  /** A symbol token: the source text at its offset, starting with a symbol
      character, free of whitespace and `)`, and followed in the first `n`
      characters by whitespace or `)`. */
  ghost predicate SymbolAt(s: seq<char>, n: nat, t: Token)
  {
    n <= |s| && 0 < |t.content| && t.index + |t.content| < n
    && t.content == s[t.index..t.index + |t.content|]
    && StartsSymbol(t.content[0])
    && (forall c :: c in t.content ==> !IsDelimiter(c))
    && IsDelimiter(s[t.index + |t.content|])
  }

  /** `s[i..j+1]` is a complete string literal whose token text is `content`. */
  ghost predicate StringLiteral(s: seq<char>, i: nat, j: nat, content: seq<char>)
    requires i < j < |s|
  {
    s[i] == '"' && s[j] == '"' && ValidBody(s[i + 1..j])
    && content == ['"'] + Unescape(s[i + 1..j]) + ['"']
  }

  /** A string token: a complete literal that closes within the first `n`
      characters; its text keeps both quotes and drops escaping backslashes. */
  ghost predicate StringAt(s: seq<char>, n: nat, t: Token)
  {
    n <= |s| && exists j :: t.index < j < n && StringLiteral(s, t.index, j, t.content)
  }

  ghost predicate TokenAt(s: seq<char>, n: nat, t: Token)
  {
    ParenAt(s, n, t) || SymbolAt(s, n, t) || StringAt(s, n, t)
  }

  ghost predicate Increasing(ts: seq<Token>)
  {
    forall a, b :: 0 <= a < b < |ts| ==> ts[a].index < ts[b].index
  }

  /** `ts` is a sequence of tokens of the first `n` characters of `s`, in
      strictly increasing order of offset. */
  ghost predicate Lexed(s: seq<char>, n: nat, ts: seq<Token>)
  {
    Increasing(ts) && forall k :: 0 <= k < |ts| ==> TokenAt(s, n, ts[k])
  }

  /** The invariant of the machine after the first `n` characters of `s`: the
      emitted tokens are tokens of that prefix, and the buffer holds the part
      of the token being read so far, which started after every emitted token. */
  ghost predicate Good(m: Machine, s: seq<char>, n: nat)
  {
    n <= |s| && Lexed(s, n, m.tokens)
    && (m.state != Normal ==>
          m.bufferStart < n && forall k :: 0 <= k < |m.tokens| ==> m.tokens[k].index < m.bufferStart)
    && match m.state
       case Normal => true
       case Symbol =>
         m.buffer == s[m.bufferStart..n] && StartsSymbol(s[m.bufferStart])
         && forall c :: c in m.buffer ==> !IsDelimiter(c)
       case InString(Body) =>
         s[m.bufferStart] == '"' && ValidBody(s[m.bufferStart + 1..n])
         && m.buffer == ['"'] + Unescape(s[m.bufferStart + 1..n])
       case InString(Escape) =>
         m.bufferStart + 2 <= n && s[n - 1] == '\\' && s[m.bufferStart] == '"'
         && ValidBody(s[m.bufferStart + 1..n - 1])
         && m.buffer == ['"'] + Unescape(s[m.bufferStart + 1..n - 1])
  }

  lemma LexedGrows(s: seq<char>, n: nat, ts: seq<Token>)
    requires Lexed(s, n, ts) && n < |s|
    ensures Lexed(s, n + 1, ts)
  {
    forall k | 0 <= k < |ts| ensures TokenAt(s, n + 1, ts[k]) {
      if StringAt(s, n, ts[k]) {
        var j :| ts[k].index < j < n && StringLiteral(s, ts[k].index, j, ts[k].content);
        assert StringLiteral(s, ts[k].index, j, ts[k].content);
      }
    }
  }

  lemma StepNormalGood(m: Machine, s: seq<char>, n: nat)
    requires Good(m, s, n) && n < |s| && m.state == Normal
    ensures Good(Step(m, n, s[n]), s, n + 1)
  {
    var c := s[n];
    LexedGrows(s, n, m.tokens);
    if !IsWhitespace(c) && (c == '(' || c == ')') {
      assert ParenAt(s, n + 1, Token(n, [c]));
    } else if c == '"' {
      assert s[n + 1..n + 1] == [];
    }
  }

  lemma StepSymbolGood(m: Machine, s: seq<char>, n: nat)
    requires Good(m, s, n) && n < |s| && m.state == Symbol
    ensures Good(Step(m, n, s[n]), s, n + 1)
  {
    var c := s[n];
    LexedGrows(s, n, m.tokens);
    if c == ')' || IsWhitespace(c) {
      assert SymbolAt(s, n + 1, Token(m.bufferStart, m.buffer));
      if c == ')' {
        assert ParenAt(s, n + 1, Token(n, ")"));
      }
    } else {
      assert s[m.bufferStart..n + 1] == s[m.bufferStart..n] + [c];
    }
  }

  lemma StepBodyGood(m: Machine, s: seq<char>, n: nat)
    requires Good(m, s, n) && n < |s| && m.state == InString(Body)
    ensures Good(Step(m, n, s[n]), s, n + 1)
  {
    var c := s[n];
    var raw := s[m.bufferStart + 1..n];
    LexedGrows(s, n, m.tokens);
    if c == '"' {
      var t := Token(m.bufferStart, m.buffer + [c]);
      assert StringLiteral(s, m.bufferStart, n, t.content);
      assert StringAt(s, n + 1, t);
    } else if c == '\\' {
      assert s[m.bufferStart + 1..n + 1 - 1] == raw;
    } else {
      AppendPlain(raw, c);
      assert s[m.bufferStart + 1..n + 1] == raw + [c];
    }
  }

  lemma StepEscapeGood(m: Machine, s: seq<char>, n: nat)
    requires Good(m, s, n) && n < |s| && m.state == InString(Escape)
    ensures Good(Step(m, n, s[n]), s, n + 1)
  {
    var c := s[n];
    var raw := s[m.bufferStart + 1..n - 1];
    LexedGrows(s, n, m.tokens);
    AppendEscaped(raw, c);
    assert s[m.bufferStart + 1..n + 1] == raw + ['\\', c];
  }

  /** Every transition keeps the invariant. */
  lemma StepGood(m: Machine, s: seq<char>, n: nat)
    requires Good(m, s, n) && n < |s|
    ensures Good(Step(m, n, s[n]), s, n + 1)
  {
    match m.state
    case Normal => StepNormalGood(m, s, n);
    case Symbol => StepSymbolGood(m, s, n);
    case InString(Body) => StepBodyGood(m, s, n);
    case InString(Escape) => StepEscapeGood(m, s, n);
  }

  lemma {:induction false} LexFromGood(s: seq<char>, i: nat, m: Machine)
    requires i <= |s| && Good(m, s, i)
    ensures Good(LexFrom(s, i, m), s, |s|)
    decreases |s| - i
  {
    if i < |s| {
      StepGood(m, s, i);
      LexFromGood(s, i + 1, Step(m, i, s[i]));
    }
  }

  /** The whole run keeps the invariant: what `Tokenize` returns are tokens of
      the source in increasing offset order, and a token still being read when
      the input ends started after all of them. */
  lemma LexGood(s: seq<char>)
    ensures Good(LexFrom(s, 0, Start), s, |s|)
    ensures Lexed(s, |s|, Tokenize(s))
  {
    LexFromGood(s, 0, Start);
  }

  /** The lexer: a single pass over the characters that updates the state,
      the buffer start, the buffer and the token list in place. */
  method Lex(source: string) returns (tokens: seq<Token>)
    ensures tokens == Tokenize(source)
    ensures Lexed(source, |source|, tokens)
  {
    var bufferStart: nat := 0;
    var buffer: seq<char> := [];
    var state := Normal;
    tokens := [];
    for index := 0 to |source|
      invariant LexFrom(source, index, Machine(state, bufferStart, buffer, tokens)) == LexFrom(source, 0, Start)
    {
      var c := source[index];
      ghost var before := Machine(state, bufferStart, buffer, tokens);
      match state {
      case Normal =>
        if IsWhitespace(c) {
        } else if c == '(' || c == ')' {
          tokens := tokens + [Token(index, [c])];
        } else if c == '"' {
          bufferStart := index;
          buffer := [c];
          state := InString(Body);
        } else {
          bufferStart := index;
          buffer := [c];
          state := Symbol;
        }
      case Symbol =>
        if c == ')' {
          tokens := tokens + [Token(bufferStart, buffer)];
          tokens := tokens + [Token(index, ")")];
          state := Normal;
        } else if IsWhitespace(c) {
          tokens := tokens + [Token(bufferStart, buffer)];
          state := Normal;
        } else {
          buffer := buffer + [c];
        }
      case InString(Body) =>
        if c == '"' {
          tokens := tokens + [Token(bufferStart, buffer + [c])];
          state := Normal;
        } else if c == '\\' {
          state := InString(Escape);
        } else {
          buffer := buffer + [c];
        }
      case InString(Escape) =>
        buffer := buffer + [c];
        state := InString(Body);
      }
      assert Machine(state, bufferStart, buffer, tokens) == Step(before, index, c);
    }
    LexGood(source);
  }
}
