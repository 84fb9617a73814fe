/** A list of atoms written out as source text: `(`, the atoms' words
    separated by single spaces, `)`. Such a source parses to the list with
    one atom per word, in order, each carrying the offset of its word. */
module FlatLists {
  import opened Syntax
  import opened Lexer
  import opened LexerFacts
  import opened Parser
  import opened ParserFacts

  /** A quoted string literal whose body is well escaped. */
  predicate IsStringWord(w: string)
  {
    |w| >= 2 && w[0] == '"' && w[|w| - 1] == '"' && ValidBody(w[1..|w| - 1])
  }

  /** The source text of one atom: a symbol or a string literal. */
  predicate IsWord(w: string)
  {
    IsSymbolText(w) || IsStringWord(w)
  }

  predicate AllWords(words: seq<string>)
  {
    forall i :: 0 <= i < |words| ==> IsWord(words[i])
  }

  /** The token text the lexer makes of a word: a string literal loses its
      escaping backslashes, a symbol is kept as written. */
  function WordText(w: string): string
    requires IsWord(w)
  {
    if IsStringWord(w) then ['"'] + Unescape(w[1..|w| - 1]) + ['"'] else w
  }

  /** The tokens of the words, the first starting at offset `at`, each word
      one space after the previous one. */
  function WordTokens(words: seq<string>, at: nat): seq<Token>
    requires AllWords(words)
  {
    if words == [] then []
    else [Token(at, WordText(words[0]))] + WordTokens(words[1..], at + |words[0]| + 1)
  }

  /** The atom of one word at offset `at`. */
  function WordAtom(w: string, at: nat): SExpression
    requires IsWord(w)
  {
    if IsStringWord(w) then Atom(StringAtom(Token(at, WordText(w)))) else Atom(SymbolAtom(Token(at, w)))
  }

  /** The atom of each word, in order, with the offset of the word. */
  function WordAtoms(words: seq<string>, at: nat): (r: seq<SExpression>)
    requires AllWords(words)
    ensures |r| == |words|
  {
    if words == [] then [] else [WordAtom(words[0], at)] + WordAtoms(words[1..], at + |words[0]| + 1)
  }

  /** A word's atom is well-formed, its token is the word's token, and it is
      a string atom exactly for a string literal. */
  lemma WordAtomFacts(w: string, at: nat)
    requires IsWord(w)
    ensures WellFormed(WordAtom(w, at)) && Emit(WordAtom(w, at)) == [Token(at, WordText(w))]
    ensures WordAtom(w, at).atom.StringAtom? <==> IsStringWord(w)
  {
    if !IsStringWord(w) {
      assert w[0] in w;
    }
  }

  /** The atoms of the words are well-formed. */
  lemma {:induction false} WordsWellFormed(words: seq<string>, at: nat)
    requires AllWords(words)
    ensures forall i :: 0 <= i < |words| ==> WellFormed(WordAtoms(words, at)[i])
    decreases |words|
  {
    if words != [] {
      var atoms := WordAtoms(words, at);
      var next := at + |words[0]| + 1;
      WordAtomFacts(words[0], at);
      WordsWellFormed(words[1..], next);
      forall i | 0 <= i < |words|
        ensures WellFormed(atoms[i])
      {
        if i > 0 {
          assert atoms[i] == WordAtoms(words[1..], next)[i - 1];
        }
      }
    }
  }

  /** The tokens of the words' atoms are the words' tokens. */
  lemma {:induction false} EmitWords(words: seq<string>, at: nat)
    requires AllWords(words)
    ensures EmitAll(WordAtoms(words, at)) == WordTokens(words, at)
    decreases |words|
  {
    if words != [] {
      var atoms := WordAtoms(words, at);
      var next := at + |words[0]| + 1;
      WordAtomFacts(words[0], at);
      EmitWords(words[1..], next);
      assert atoms[0] == WordAtom(words[0], at);
      assert atoms[1..] == WordAtoms(words[1..], next);
    }
  }

  /** The text after offset `i`, cut at a word. */
  lemma CutAt(s: string, i: nat, w: string, tail: string)
    requires i <= |s| && s[i..] == w + tail && |tail| > 0
    ensures i + |w| < |s| && s[i..i + |w|] == w && s[i + |w|] == tail[0]
    ensures s[i + |w| + 1..] == tail[1..]
  {
    assert s[i..][..|w|] == w && s[i..][|w|] == tail[0] && s[i..][|w| + 1..] == tail[1..];
  }

  /** The `n` characters of `s` from `i` are a string literal whose token
      text is `text`. */
  predicate StringSpan(s: string, i: nat, n: nat, text: string)
  {
    2 <= n && i + n <= |s| && s[i] == '"' && s[i + n - 1] == '"' && ValidBody(s[i + 1..i + n - 1])
    && text == ['"'] + Unescape(s[i + 1..i + n - 1]) + ['"']
  }

  /** The `n` characters of `s` from `i` are a symbol whose token text is
      `text`. */
  predicate SymbolSpan(s: string, i: nat, n: nat, text: string)
  {
    0 < n && i + n <= |s| && StartsSymbol(s[i]) && (forall x :: i < x < i + n ==> !IsDelimiter(s[x]))
    && text == s[i..i + n]
  }

  /** A word found in the text at `i` spans its characters there: as a
      string literal or as a symbol, with the word's token text. */
  lemma WordSpan(s: string, i: nat, w: string)
    requires IsWord(w) && i + |w| <= |s| && s[i..i + |w|] == w
    ensures StringSpan(s, i, |w|, WordText(w)) || SymbolSpan(s, i, |w|, WordText(w))
  {
    var n := |w|;
    if IsStringWord(w) {
      assert s[i] == w[0] && s[i + n - 1] == w[n - 1];
      var body, inner := s[i + 1..i + n - 1], w[1..n - 1];
      forall k | 0 <= k < |body|
        ensures body[k] == inner[k]
      {
        assert body[k] == s[i + 1 + k] == w[1 + k];
      }
      assert body == inner;
    } else {
      forall x | i < x < i + n
        ensures !IsDelimiter(s[x])
      {
        assert s[x] == w[x - i] && w[x - i] in w;
      }
      assert s[i] == w[0] && w[0] in w;
    }
  }

  /** Reading the space or `)` that follows a word. */
  lemma ReadSeparator(s: string, j: nat, ts: seq<Token>)
    requires j < |s| && (s[j] == ' ' || s[j] == ')')
    ensures LexFrom(s, j, Ready(ts)).tokens
         == LexFrom(s, j + 1, Ready(ts + (if s[j] == ')' then [Token(j, ")")] else []))).tokens
  {
    if s[j] == ')' {
      ReadParen(s, j, ts);
    } else {
      SkipWhitespace(s, j, ts);
      assert ts + [] == ts;
    }
  }

  /** Reading one word of the list, spanning `n` characters from `i`, and
      the space or `)` after it. */
  lemma ReadWord(s: string, i: nat, n: nat, text: string, ts: seq<Token>)
    requires StringSpan(s, i, n, text) || SymbolSpan(s, i, n, text)
    requires i + n < |s| && (s[i + n] == ' ' || s[i + n] == ')')
    ensures LexFrom(s, i, Ready(ts)).tokens
         == LexFrom(s, i + n + 1, Ready(ts + [Token(i, text)]
                                        + (if s[i + n] == ')' then [Token(i + n, ")")] else []))).tokens
  {
    if StringSpan(s, i, n, text) {
      ReadString(s, i, i + n - 1, ts);
      ReadSeparator(s, i + n, ts + [Token(i, text)]);
    } else {
      ReadSymbol(s, i, i + n, ts);
    }
  }

  /** Joining a non-empty run of words: the first, then the rest after a
      space. */
  lemma JoinFirst(words: seq<string>)
    requires |words| > 0
    ensures Join(words, " ") + ")"
         == words[0] + (if |words| == 1 then ")" else " " + Join(words[1..], " ") + ")")
  {
  }

  /** The first of the words that start the text at `i`: its span, the
      character after it, and the text after that. */
  lemma WordsHead(s: string, i: nat, words: seq<string>)
    requires |words| > 0 && AllWords(words)
    requires i <= |s| && s[i..] == Join(words, " ") + ")"
    ensures var n := |words[0]|;
            i + n < |s|
            && (StringSpan(s, i, n, WordText(words[0])) || SymbolSpan(s, i, n, WordText(words[0])))
            && s[i + n] == (if |words| == 1 then ')' else ' ')
            && (|words| == 1 ==> |s| == i + n + 1)
            && (|words| > 1 ==> s[i + n + 1..] == Join(words[1..], " ") + ")")
  {
    WordsCut(s, i, words);
    WordSpan(s, i, words[0]);
  }

  /** The text at `i` cut after the first of the words it starts with. */
  lemma WordsCut(s: string, i: nat, words: seq<string>)
    requires |words| > 0 && i <= |s| && s[i..] == Join(words, " ") + ")"
    ensures var n := |words[0]|;
            i + n < |s| && s[i..i + n] == words[0]
            && s[i + n] == (if |words| == 1 then ')' else ' ')
            && (|words| == 1 ==> |s| == i + n + 1)
            && (|words| > 1 ==> s[i + n + 1..] == Join(words[1..], " ") + ")")
  {
    var tail := if |words| == 1 then ")" else " " + Join(words[1..], " ") + ")";
    JoinFirst(words);
    CutAt(s, i, words[0], tail);
    if |words| > 1 {
      assert tail[1..] == Join(words[1..], " ") + ")";
    }
  }

  /** The lexer reads the words and the closing `)` that end the source. */
  lemma {:induction false} LexWords(s: string, i: nat, words: seq<string>, ts: seq<Token>)
    requires |words| > 0 && AllWords(words)
    requires i <= |s| && s[i..] == Join(words, " ") + ")"
    ensures LexFrom(s, i, Ready(ts)).tokens == ts + WordTokens(words, i) + [Token(|s| - 1, ")")]
    decreases |words|
  {
    var w, rest := words[0], words[1..];
    var n := |w|;
    var t := Token(i, WordText(w));
    WordsHead(s, i, words);
    assert WordTokens(words, i) == [t] + WordTokens(rest, i + n + 1);
    ReadWord(s, i, n, WordText(w), ts);
    if |words| == 1 {
      assert WordTokens(rest, i + n + 1) == [];
    } else {
      assert ts + [t] + [] == ts + [t];
      LexWords(s, i + n + 1, rest, ts + [t]);
    }
  }

  /** The tokens of a flat list's source: `(`, the words' tokens, `)`. */
  lemma LexFlatList(words: seq<string>)
    requires AllWords(words)
    ensures Tokenize("(" + Join(words, " ") + ")")
         == [Token(0, "(")] + WordTokens(words, 1) + [Token(|Join(words, " ")| + 1, ")")]
  {
    var s := "(" + Join(words, " ") + ")";
    assert Start == Ready([]) && [] + [Token(0, "(")] == [Token(0, "(")];
    ReadParen(s, 0, []);
    if words == [] {
      assert s == "()";
      ReadParen(s, 1, [Token(0, "(")]);
    } else {
      assert s[1..] == Join(words, " ") + ")";
      LexWords(s, 1, words, [Token(0, "(")]);
    }
  }

  lemma SameRefl(ts: seq<Token>)
    ensures SameUpToParens(ts, ts)
  {
  }

  /** A flat list written as source parses to the list of its words' atoms,
      one per word and in order: a string literal becomes a string atom with
      its escapes collapsed, any other word a symbol atom. */
  lemma FlatListSource(words: seq<string>)
    requires AllWords(words)
    ensures ParseTokens(Tokenize("(" + Join(words, " ") + ")")) == Ok(List(WordAtoms(words, 1)))
  {
    var atoms := WordAtoms(words, 1);
    var e := List(atoms);
    var close := Token(|Join(words, " ")| + 1, ")");
    var body := WordTokens(words, 1);
    LexFlatList(words);
    WordsWellFormed(words, 1);
    EmitWords(words, 1);
    assert Emit(e) == [Token(0, "(")] + body + [Token(0, ")")];
    SameRefl(body);
    SameJoin([Token(0, "(")], [Token(0, "(")], body, body);
    SameJoin([Token(0, "(")] + body, [Token(0, "(")] + body, [close], [Token(0, ")")]);
    assert [Token(0, "(")] + body + [close] + [] == [Token(0, "(")] + body + [close];
    ParseTokensEmit(e, [Token(0, "(")] + body + [close], []);
  }
}
