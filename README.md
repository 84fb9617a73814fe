# SExpression in Dafny

A model of the SExpression library, a small S-expression reader written in
Swift. It has three stages:

- The **lexer** (`lex(source:)`) makes one pass over the characters. It is a
  four-state machine (normal, symbol, string body, string escape) and emits
  `Token(index, content)` values.
- The **parser** (`parse(_ tokens:)`) is a recursive descent over a token
  slice. It builds a tree of lists and string or symbol atoms, or fails with
  `invalid` or `unexpectedEnding(token)`.
- The **renderer** (`description`) writes a tree back out. Symbols are put in
  square brackets.

`parse(source:)` runs the lexer, then the parser.

The modules:

- `Syntax`: tokens, atoms, expressions, the error type, `Join` (the
  `joined(separator:)` of the rendering) and `Describe` (the `description`
  rendering), with the shape of what they produce.
- `Lexer`: the step function of the state machine, its fold over a string
  (tokens are only ever appended, at most one per character), and the
  imperative `Lex`. `Lex` is the source's `for` loop over the
  `state`, `bufferStart`, `buffer` and `tokens` locals, proved against the
  fold. It also holds the invariant that every emitted token is a
  parenthesis, a symbol or a quoted string read from the source at its
  offset.
- `LexerFacts`: what the tokens look like, and what happens to a token still
  buffered when the input ends. It also holds step lemmas for reading one
  parenthesis, symbol or string.
- `Parser`: the recursive parse as a pair of mutually recursive functions
  over a position into the token sequence. The method `ParseFrom` is the
  source's recursive function with its `while` loop; it is proved equal to
  those functions. `Parse` is the public entry point.
- `ParserFacts`: an independent bracket matcher that characterizes exactly
  when parsing fails. It also covers how atoms are classified, and the round
  trip between an expression and its spellings. A spelling of an expression
  is any token sequence with the expression's token texts and atom tokens;
  the offsets of its parentheses are free, since a tree does not keep them.
  A successful parse consumes exactly a spelling of its result, and the
  tokens after that spelling never change the result.
- `Rendering`: `Describe` equals a flat rendering of an expression's token
  stream, and so of the tokens the parser consumed for it.
- `Position`: the line and column update of `ParsingPosition`.
- `Pipeline`: `parse(source:)`, the end-to-end example of the test suite, and
  small source-level examples.
- `FlatLists`: source text of the form `(`, words separated by single
  spaces, `)`, where each word is a symbol or a well-escaped string literal,
  parses to the list of one atom per word, in order.

Three behaviours of the code that a reader might not expect are modelled as
written:

- `invalid` is raised only for an empty token sequence, not for "no parseable
  expression".
- When a list runs out, the error carries the last token of the whole input.
- A stray `)` where an expression is expected is read as a symbol atom.

## Model

| member | source | states |
|---|---|---|
| Syntax.JoinEnds | Sources/SExpression/SExpression.swift:19 | What `joined(separator:)` produces starts with the first part and ends with the last. |
| Syntax.DescribeShape | Sources/SExpression/SExpression.swift:16-25 | `description` of a list is parenthesized, `()` for the empty list, with the first item's description right after `(` and the last item's right before `)`. A symbol is its text in square brackets, two characters longer. A string atom is its token text. |
| Syntax.DescribeEnds | Sources/SExpression/SExpression.swift:18-19 | For a non-empty list, the first item's description follows `(` and the last item's precedes `)`. |
| Lexer.StepAppends | Sources/SExpression/SExpression.swift:69-114 | One pass of the loop body (the `switch` on `state` for one character) only appends to `tokens`; it appends only in the branches that set `state` back to `.normal`; and the number of emitted tokens plus one for a token still being buffered grows by at most one. |
| Lexer.LexFromAppends | Sources/SExpression/SExpression.swift:68-116 | The `for` loop run over the characters from offset `i` on keeps the tokens it started with as a prefix, and the emitted tokens plus one for a token still being buffered grow by at most the number of characters read. |
| Lexer.TokenizeBound | Sources/SExpression/SExpression.swift:68-116 | The token list `lex` returns for a source has at most as many tokens as the source has characters. |
| Lexer.Lex | Sources/SExpression/SExpression.swift:62-117 | The loop returns the tokens of the per-character state machine run over the whole source. Every token is a parenthesis, a symbol or a quoted string found at its offset, and the offsets strictly increase. |
| Lexer.LexGood | Sources/SExpression/SExpression.swift:68-116 | At every character the machine keeps its invariant. Emitted tokens are well-shaped and ordered, and the pending buffer started after all of them: a symbol buffer is the source text since `bufferStart`, and a string buffer is its unescaped text. At the end, every token is a lexed token of the source. |
| Lexer.AppendEscaped | Sources/SExpression/SExpression.swift:106-107 | A backslash and the character after it add only that character to a string's text. The backslash is dropped. |
| Lexer.AppendPlain | Sources/SExpression/SExpression.swift:108-109 | Any other character except a quote is added to a string's text unchanged. |
| Lexer.UnescapeConcat | Sources/SExpression/SExpression.swift:101-113 | No escape spans the end of a complete string body, so unescaping splits at that point. |
| LexerFacts.TokenShapes | Sources/SExpression/SExpression.swift:68-116 | Token offsets strictly increase and each is below the source length. A token's first character is the source character at its offset. Every token is `(`, `)`, a string (quote first and last) or a symbol (non-empty, not starting with `(`, `)`, `"` or whitespace, with no whitespace and no `)` anywhere). |
| LexerFacts.WhitespaceOnly | Sources/SExpression/SExpression.swift:70-77 | Input made only of whitespace lexes to no tokens. |
| LexerFacts.DanglingSymbol | Sources/SExpression/SExpression.swift:89-116 | Source that starts a symbol and never ends it (no whitespace or `)` follows) lexes to no tokens: the buffered symbol is never emitted. |
| LexerFacts.UnterminatedString | Sources/SExpression/SExpression.swift:101-116 | Source that opens a string and never closes it (no later quote) lexes to no tokens: the buffered string is never emitted. |
| LexerFacts.ReadSymbol | Sources/SExpression/SExpression.swift:84-100 | In the normal state, a symbol runs to the first whitespace or `)`. It is emitted with the offset of its first character, and a closing `)` is emitted right after it. |
| LexerFacts.ReadString | Sources/SExpression/SExpression.swift:101-113 | A string literal whose body is well escaped is emitted as one token: the quotes plus the unescaped body, at the offset of the opening quote. |
| LexerFacts.ReadParen | Sources/SExpression/SExpression.swift:78-79 | A parenthesis in the normal state is emitted as its own token at its offset. |
| LexerFacts.SkipWhitespace | Sources/SExpression/SExpression.swift:71-73 | Whitespace in the normal state emits nothing. |
| LexerFacts.LoneString | Sources/SExpression/SExpression.swift:101-116 | A source that is exactly one well-escaped string literal lexes to that one token, its escaping backslashes dropped. |
| LexerFacts.EscapedQuote | Sources/SExpression/SExpression.swift:101-113 | An escaped quote does not end a string: `"xyz \"x"` lexes to the single token `"xyz "x"`. |
| Parser.ParseAt | Sources/SExpression/SExpression.swift:120-151 | Parsing at the end gives no expression. On a non-empty slice it always gives an expression and consumes at least one token. Every error it raises is `UnexpectedEnding` with the last token of the input. |
| Parser.ParseItems | Sources/SExpression/SExpression.swift:125-145 | The list loop either gives a list and moves past at least one token, or fails with `UnexpectedEnding` carrying the last token. That it ends just after the closing `)` is stated by ParserFacts.ParseItemsMatches and ParserFacts.ParseItemsSpell. |
| Parser.ParseTokens | Sources/SExpression/SExpression.swift:154-158 | The public parse fails with `Invalid` exactly when there are no tokens. Any other failure is `UnexpectedEnding` with the last token. |
| Parser.ParseFrom | Sources/SExpression/SExpression.swift:120-151 | The recursive method with its `while` loop computes exactly the recursive parse. |
| Parser.Parse | Sources/SExpression/SExpression.swift:119-159 | The public method computes exactly the public parse. |
| ParserFacts.Match | Sources/SExpression/SExpression.swift:131-145 | The bracket matcher only ever returns the position of a `)`. |
| ParserFacts.ParseAtMatches | Sources/SExpression/SExpression.swift:120-151 | A list parses if and only if the independent matcher finds its `)`, and the parse then ends just after it. An atom always parses and consumes one token. |
| ParserFacts.ParseItemsMatches | Sources/SExpression/SExpression.swift:130-145 | The list loop succeeds if and only if the list is closed, and it ends just after the closing `)`. |
| ParserFacts.ParseTokensFails | Sources/SExpression/SExpression.swift:126-156 | The public parse fails with `UnexpectedEnding` if and only if the tokens start with a `(` that is never matched. The error then carries the last token. |
| ParserFacts.SliceSubscript | Sources/SExpression/SExpression.swift:127 | Subscripting a slice of an array is defined only for indices inside the slice. The index is an offset into the whole array. |
| ParserFacts.LoneOpenAsWritten | Sources/SExpression/SExpression.swift:126-127 | As written, the lone-`(` branch produces its error only when the slice starts at 0. Anywhere else it traps. |
| ParserFacts.LoneOpen | Sources/SExpression/SExpression.swift:126-127 | A `(` that is the last token fails with `UnexpectedEnding` carrying that `(`, at any depth. The as-written branch manages this only at depth 0. |
| ParserFacts.ParseAtom | Sources/SExpression/SExpression.swift:147-150 | A token other than `(` becomes one atom: a string atom if its text starts with a quote, otherwise a symbol atom (`)` included). |
| ParserFacts.ParseFlatList | Sources/SExpression/SExpression.swift:125-145 | A `(`, some atom tokens and a `)` parse as the list of those atoms, in order, ending after the `)`. |
| ParserFacts.ParseTokensEmit | Sources/SExpression/SExpression.swift:119-159 | Round trip: any spelling of a well-formed expression, whatever the offsets of its parentheses and whatever tokens follow, parses back to that expression. |
| ParserFacts.ParseEmit | Sources/SExpression/SExpression.swift:120-151 | At any position of any token sequence, the recursive parse reads a spelling of a well-formed expression back as that expression and ends just after the spelling. |
| ParserFacts.ParseSpells | Sources/SExpression/SExpression.swift:120-151 | The converse: a successful parse at a token other than `)` returns a well-formed expression, and the tokens it consumed are a spelling of it. |
| ParserFacts.ParseItemsSpell | Sources/SExpression/SExpression.swift:130-145 | The list loop keeps the items read before it, adds only well-formed items, ends just after a `)`, and the tokens before that `)` spell the items it added. |
| ParserFacts.ParsePrefix | Sources/SExpression/SExpression.swift:120-151 | A successful parse at a position gives the same result when everything after the tokens it consumed is replaced by any other tokens. |
| ParserFacts.TrailingTokensIgnored | Sources/SExpression/SExpression.swift:154-158 | The public parse ignores trailing tokens: cutting the input after the first expression and appending anything gives the same result. |
| Rendering.DescribeRenders | Sources/SExpression/SExpression.swift:16-25 | `description` of a well-formed expression is the flat rendering of its tokens. Symbols are bracketed and strings written raw. There is one space between neighbours, except just inside a parenthesis. |
| Rendering.RenderContents | Sources/SExpression/SExpression.swift:16-25 | The rendering reads only token texts: two sequences equal up to the offsets of their parentheses render alike. |
| Rendering.DescribeParsed | Sources/SExpression/SExpression.swift:16-25 | The description of what the public parse returns (unless it is a stray `)`) is the rendering of the tokens the parse consumed. |
| Rendering.RenderConcat | Sources/SExpression/SExpression.swift:19 | Joining two rendered runs of items puts exactly one separator between them. |
| Position.Update | Sources/SExpression/SExpression.swift:42-49 | A newline character moves to column 0 of the next line. Any other character moves one column right on the same line. |
| Position.TrackCounts | Sources/SExpression/SExpression.swift:42-49 | After a run of updates, the line has advanced by the number of carriage returns. The column counts the characters since the last one, or has grown by the run's length if there was none. |
| Pipeline.ParseSource | Sources/SExpression/SExpression.swift:161-164 | Parsing source text is parsing the tokens the lexer produces. |
| Pipeline.AdjacentClose | Sources/SExpression/SExpression.swift:91-94 | In `(a)`, the `)` right after a symbol ends it, and the result is a one-symbol list. |
| Pipeline.Nesting | Sources/SExpression/SExpression.swift:125-145 | `(a (b c))` gives a list whose second item is the inner list. |
| Pipeline.UnclosedList | Sources/SExpression/SExpression.swift:141-142 | `(a b` fails with `UnexpectedEnding` carrying `a`, the last token emitted. The dangling `b` is dropped. |
| Pipeline.NoTokensInvalid | Sources/SExpression/SExpression.swift:154-156 | Empty or whitespace-only source fails with `Invalid`. |
| Pipeline.DanglingSymbolInvalid | Sources/SExpression/SExpression.swift:116 | `abc` lexes to nothing, so parsing it fails with `Invalid`. |
| Pipeline.TrailingIgnored | Sources/SExpression/SExpression.swift:154 | `(a) b c ` gives the list `(a)`. Tokens after the first expression are ignored. |
| Pipeline.StrayClose | Sources/SExpression/SExpression.swift:149-150 | `)` alone parses as a symbol atom. |
| Pipeline.NestedOpenAtEnd | Sources/SExpression/SExpression.swift:126-127 | In `((`, the as-written branch traps at the inner `(`. The model fails with `UnexpectedEnding` carrying that `(`. |
| FlatLists.FlatListSource | Sources/SExpression/SExpression.swift:119-164 | `(`, words joined by single spaces, `)` parses to the list of one atom per word, in order: a string literal becomes a string atom with its escapes collapsed, any other word a symbol atom, each at the word's offset. |
| FlatLists.LexFlatList | Sources/SExpression/SExpression.swift:68-116 | Such a source lexes to `(` at 0, one token per word at the word's offset, and `)` at the end. |
| FlatLists.LexWords | Sources/SExpression/SExpression.swift:84-113 | From a word onwards, the lexer emits one token per word and then the final `)`. |
| FlatLists.ReadWord | Sources/SExpression/SExpression.swift:84-113 | A symbol or a string literal followed by a space or `)` is emitted as one token at its offset, followed by the `)` token if that is what ends it. |
| Pipeline.LexExample | Tests/SExpressionTests/SExpressionTests.swift:6 | The test's source lexes to its eleven tokens, with the escaped quote collapsed inside the string token. |
| Pipeline.ParseExample | Sources/SExpression/SExpression.swift:119-159 | Those tokens parse to a list holding a list of `a1`, `a2` and a list of `a3`, `a4` and the string. |
| Pipeline.DescribeExample | Sources/SExpression/SExpression.swift:16-25 | That tree is described as `(([a1] [a2] ([a3] [a4] "xyz "x")))`. |
| Pipeline.EndToEnd | Tests/SExpressionTests/SExpressionTests.swift:5-10 | End to end, `( (a1 a2 (a3 a4 "xyz \"x")))` parses, and its description is `(([a1] [a2] ([a3] [a4] "xyz "x")))`. |

## Left out

- Characters are Dafny `char` values, not Swift grapheme clusters.
  - Whitespace is space, `\n` and `\r`. The two-character cluster `\r\n`, a
    single whitespace `Character` in Swift, is two characters here. The
    tokens are the same, but the offsets after such a pair differ by one.
  - Position.TrackCounts: the newline set is `\r` alone. In Swift, `\r\n` is
    one newline character, and a lone `\n` is not a newline in either.
    After `\r\n` the model is at column 1, where Swift would be at 0.
- Position.Update: `line` and `column` are unbounded naturals. The `UInt`
  overflow trap is not modelled. The update is also a method that returns
  the new value instead of changing an `inout` argument.
- `String` and `ArraySlice` index mechanics: a slice is a start position
  into the token sequence. Only the one subscript that matters
  (`tokens[0]`) is modelled with slice indexing, by `SliceSubscript`.
- The duplicated whitespace check at the start of the normal state is
  modelled once; the second test can never fire.
- The `guard` on a missing sub-expression can never fire, because a parse of
  a non-empty slice always gives an expression. `Parser.ParseAt`'s contract
  states this. The branch is still mirrored in both the function and the
  method.
- `CustomStringConvertible` conformance and `String(describing:)`:
  `description` is the plain function `Describe`.
- ParserFacts.ParseEmit, ParserFacts.ParseTokensEmit: a tree does not keep
  the offsets of its parentheses, so the round trip cannot give them back.
  It is stated for every spelling of the tree, with any offsets on its
  parentheses; `ParserFacts.Emit` is the spelling with offset 0 on each.
- Syntax.Join, Syntax.Describe, Lexer.Step, Lexer.LexFrom, Lexer.Tokenize:
  their properties are stated by the lemmas beside them (JoinEnds,
  DescribeShape, StepAppends, LexFromAppends, TokenizeBound) rather than as
  `ensures` on the functions, which the example proofs unfold many times.
- Determinism holds trivially, since every stage is a function.
- The package manifest and the test-suite registration (`allTests`) have no
  behaviour to model.

## Findings

| source | as written | input that shows it | evidently intended | confidence | as-written member | corrected member |
|---|---|---|---|---|---|---|
| Sources/SExpression/SExpression.swift:126-127 | When the slice holds a single `(`, it throws `unexpectedEnding(tokens[0])`. A slice keeps the indices of the whole array, so inside a nested list (a slice starting after 0) `tokens[0]` is out of bounds and traps. | The tokens of `((`. The outer `(` recurses on the one-token slice starting at 1. | Fail with `unexpectedEnding` carrying that `(`, as at the top level. | not executed | ParserFacts.LoneOpenAsWritten, shown by ParserFacts.NestedLoneOpen | Parser.ParseAt, with ParserFacts.LoneOpen |
