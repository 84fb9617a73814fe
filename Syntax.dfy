/** The value types of the S-expression library: tokens, atoms, expressions,
    parse errors, and the text rendering of an expression (its `description`). */
module Syntax {

  /** A lexical token: the character offset where it starts in the source and
      its raw text. */
  datatype Token = Token(index: nat, content: string)

  /** An atom keeps the token it was read from. */
  datatype Atom = StringAtom(token: Token) | SymbolAtom(token: Token)

  /** An S-expression is an atom or a list of S-expressions. */
  datatype SExpression = Atom(atom: Atom) | List(items: seq<SExpression>)

  datatype ParsingError = Invalid | UnexpectedEnding(token: Token)

  datatype Option<T> = None | Some(value: T)

  /** Outcome of a call that may throw a `ParsingError`. */
  datatype Result<T> = Ok(value: T) | Err(error: ParsingError)

  /** `parts` joined with `sep` between neighbours. */
  function Join(parts: seq<string>, sep: string): string
  {
    if |parts| == 0 then ""
    else if |parts| == 1 then parts[0]
    else parts[0] + sep + Join(parts[1..], sep)
  }

  /** The text rendering of an expression: a list is its items' renderings
      separated by single spaces inside parentheses, a string atom is its raw
      token text and a symbol atom is its token text inside square brackets. */
  function Describe(e: SExpression): string
    decreases e
  {
    match e
    case List(items) =>
      "(" + Join(seq(|items|, i requires 0 <= i < |items| => Describe(items[i])), " ") + ")"
    case Atom(StringAtom(t)) => t.content
    case Atom(SymbolAtom(t)) => "[" + t.content + "]"
  }

  /** A join starts with its first part and ends with its last. */
  lemma {:induction false} JoinEnds(parts: seq<string>, sep: string)
    requires parts != []
    ensures parts[0] <= Join(parts, sep)
    ensures |parts[|parts| - 1]| <= |Join(parts, sep)|
    ensures Join(parts, sep)[|Join(parts, sep)| - |parts[|parts| - 1]|..] == parts[|parts| - 1]
  {
    if |parts| > 1 {
      JoinEnds(parts[1..], sep);
      assert parts[1..][|parts| - 2] == parts[|parts| - 1];
    }
  }

  /** Text inside parentheses: its start follows `(` and its end precedes `)`. */
  lemma Parenthesized(body: string, first: string, last: string)
    requires first <= body && |last| <= |body| && body[|body| - |last|..] == last
    ensures var r := "(" + body + ")";
            first <= r[1..] && |last| + 2 <= |r| && r[|r| - 1 - |last|..|r| - 1] == last
  {
    var r := "(" + body + ")";
    assert r[1..] == body + ")";
    assert r[|r| - 1 - |last|..|r| - 1] == body[|body| - |last|..];
  }

  /** The rendering of a non-empty list has its first item's rendering
      right after `(` and its last item's right before `)`. */
  lemma DescribeEnds(items: seq<SExpression>)
    requires items != []
    ensures Describe(items[0]) <= Describe(List(items))[1..]
    ensures var r, last := Describe(List(items)), Describe(items[|items| - 1]);
            |last| + 2 <= |r| && r[|r| - 1 - |last|..|r| - 1] == last
  {
    var parts := seq(|items|, i requires 0 <= i < |items| => Describe(items[i]));
    JoinEnds(parts, " ");
    Parenthesized(Join(parts, " "), parts[0], parts[|parts| - 1]);
  }

  /** The shape of a rendering: a list is parenthesized, with its first
      item's rendering right after `(` and its last item's right before `)`;
      a symbol is bracketed; a string atom is its token text. */
  lemma DescribeShape(e: SExpression)
    ensures e.List? ==> |Describe(e)| >= 2 && Describe(e)[0] == '(' && Describe(e)[|Describe(e)| - 1] == ')'
    ensures e == List([]) ==> Describe(e) == "()"
    ensures e.List? && e.items != [] ==> Describe(e.items[0]) <= Describe(e)[1..]
    ensures e.List? && e.items != [] ==>
              var r, last := Describe(e), Describe(e.items[|e.items| - 1]);
              |last| + 2 <= |r| && r[|r| - 1 - |last|..|r| - 1] == last
    ensures e.Atom? && e.atom.SymbolAtom? ==>
              Describe(e) == "[" + e.atom.token.content + "]" && |Describe(e)| == |e.atom.token.content| + 2
    ensures e.Atom? && e.atom.StringAtom? ==> Describe(e) == e.atom.token.content
  {
    if e.List? && e.items != [] {
      DescribeEnds(e.items);
    }
  }
}
