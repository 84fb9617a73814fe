/** Properties of the parser: when it fails (an independent bracket matcher),
    and that it reads back every well-formed expression from its tokens. */
module ParserFacts {
  import opened Syntax
  import opened Parser

  // ---------------------------------------------------------------------
  // Failure: exactly the lists that are never closed

  /** Independent bracket matcher: scanning `ts` from `i` with `depth` lists
      opened since the one being closed, the position of the `)` that closes
      it, if there is one. Only `(` and `)` tokens count. */
  function Match(ts: seq<Token>, i: nat, depth: nat): (r: Option<nat>)
    requires i <= |ts|
    ensures r.Some? ==> i <= r.value < |ts| && ts[r.value].content == ")"
    decreases |ts| - i
  {
    if i == |ts| then None
    else if ts[i].content == "(" then Match(ts, i + 1, depth + 1)
    else if ts[i].content == ")" then (if depth == 0 then Some(i) else Match(ts, i + 1, depth - 1))
    else Match(ts, i + 1, depth)
  }

  /** Closing a list opened `a` levels deeper first, then the outer one. */
  lemma {:induction false} MatchNested(ts: seq<Token>, i: nat, a: nat, d: nat)
    requires i <= |ts|
    ensures Match(ts, i, a + d + 1) ==
              match Match(ts, i, a)
              case None => None
              case Some(k) => Match(ts, k + 1, d)
    decreases |ts| - i
  {
    if i < |ts| {
      if ts[i].content == "(" {
        MatchNested(ts, i + 1, a + 1, d);
      } else if ts[i].content == ")" {
        if a > 0 {
          MatchNested(ts, i + 1, a - 1, d);
        }
      } else {
        MatchNested(ts, i + 1, a, d);
      }
    }
  }

  /** An expression starting at `pos` parses exactly when it is an atom or
      its `(` is matched, and then the parse ends just after the match. */
  lemma {:induction false} ParseAtMatches(ts: seq<Token>, pos: nat)
    requires pos < |ts|
    ensures ts[pos].content == "(" ==>
              (ParseAt(ts, pos).Ok? <==> Match(ts, pos + 1, 0).Some?)
              && (ParseAt(ts, pos).Ok? ==> ParseAt(ts, pos).value.rest == Match(ts, pos + 1, 0).value + 1)
    ensures ts[pos].content != "(" ==> ParseAt(ts, pos).Ok? && ParseAt(ts, pos).value.rest == pos + 1
    decreases |ts| - pos, 0
  {
    if ts[pos].content == "(" && |ts| - pos > 1 {
      ParseItemsMatches(ts, pos + 1, []);
    }
  }

  /** The list loop from `pos` succeeds exactly when the list is closed, and
      then it ends just after the closing `)`. */
  lemma {:induction false} ParseItemsMatches(ts: seq<Token>, pos: nat, items: seq<SExpression>)
    requires 0 < pos <= |ts|
    ensures ParseItems(ts, pos, items).Ok? <==> Match(ts, pos, 0).Some?
    ensures ParseItems(ts, pos, items).Ok? ==> ParseItems(ts, pos, items).value.rest == Match(ts, pos, 0).value + 1
    decreases |ts| - pos, 1
  {
    if pos < |ts| && ts[pos].content != ")" {
      ParseAtMatches(ts, pos);
      var sub := ParseAt(ts, pos);
      if ts[pos].content == "(" {
        MatchNested(ts, pos + 1, 0, 0);
      }
      if sub.Ok? {
        var e := sub.value.expr.value;
        ParseItemsMatches(ts, sub.value.rest, items + [e]);
      }
    }
  }

  /** The public parse fails with `UnexpectedEnding` exactly when the input
      opens with a `(` that no `)` closes; then it names the last token. */
  lemma ParseTokensFails(ts: seq<Token>)
    ensures ParseTokens(ts).Err? && ParseTokens(ts).error.UnexpectedEnding? <==>
              ts != [] && ts[0].content == "(" && Match(ts, 1, 0).None?
    ensures ParseTokens(ts).Err? && ts != [] ==> ParseTokens(ts).error == UnexpectedEnding(Last(ts))
  {
    if ts != [] {
      ParseAtMatches(ts, 0);
    }
  }

  // ---------------------------------------------------------------------
  // The lone `(` at depth one or more, as written

  /** Subscripting an array slice that starts at `start` of `ts`: the index is
      an offset into the whole array, and one outside the slice traps, shown
      here as `None`. */
  function SliceSubscript(ts: seq<Token>, start: nat, i: int): (r: Option<Token>)
    requires start <= |ts|
    ensures r.Some? <==> start <= i < |ts|
  {
    if start <= i < |ts| then Some(ts[i]) else None
  }

  /** The error the lone-`(` branch raises as written: it subscripts the
      slice `ts[pos..]` at 0; `None` is the trap. */
  function LoneOpenAsWritten(ts: seq<Token>, pos: nat): (r: Option<ParsingError>)
    requires pos < |ts|
    ensures r.Some? <==> pos == 0
    ensures r.Some? ==> r.value == UnexpectedEnding(ts[0])
  {
    match SliceSubscript(ts, pos, 0)
    case None => None
    case Some(t) => Some(UnexpectedEnding(t))
  }

  /** As written, the lone-`(` branch throws only at the top level; in a
      nested call (a slice starting after 0) it traps. The model instead
      raises `UnexpectedEnding` with the `(` itself, which is the last token. */
  lemma LoneOpen(ts: seq<Token>, pos: nat)
    requires pos == |ts| - 1 && ts[pos].content == "("
    ensures LoneOpenAsWritten(ts, pos) == (if pos == 0 then Some(UnexpectedEnding(ts[0])) else None)
    ensures ParseAt(ts, pos) == Err(UnexpectedEnding(ts[pos])) && ts[pos] == Last(ts)
  {
  }

  /** `((`: the top-level parse of `(` recurses on the one-token slice `(`
      that starts at offset 1, where the code as written traps, while the
      model reports the ending at that token. */
  lemma NestedLoneOpen()
    ensures var ts := [Token(0, "("), Token(1, "(")];
      ParseAt(ts, 0) == ParseItems(ts, 1, [])
      && LoneOpenAsWritten(ts, 1).None?
      && ParseTokens(ts) == Err(UnexpectedEnding(Token(1, "(")))
  {
  }

  // ---------------------------------------------------------------------
  // Atoms and flat lists

  /** How a token that is not `(` becomes an atom: a string atom when its
      text starts with a quote, otherwise a symbol atom, `)` included. */
  function AtomOf(t: Token): Atom
  {
    if |t.content| > 0 && t.content[0] == '"' then StringAtom(t) else SymbolAtom(t)
  }

  predicate IsParen(t: Token)
  {
    t.content == "(" || t.content == ")"
  }

  /** A token other than `(` is read as one atom, wherever it stands; at the
      top level this includes a stray `)`. */
  lemma ParseAtom(ts: seq<Token>, pos: nat)
    requires pos < |ts| && ts[pos].content != "("
    ensures ParseAt(ts, pos) == Ok(Parsed(Some(Atom(AtomOf(ts[pos]))), pos + 1))
  {
  }

  /** The list loop over atom tokens `ts[i..j]` closed by a `)` at `j` reads
      one atom per token, in order. */
  lemma {:induction false} ParseFlatItems(ts: seq<Token>, i: nat, j: nat, done: seq<SExpression>)
    requires 0 < i <= j < |ts| && ts[j].content == ")"
    requires forall k :: i <= k < j ==> !IsParen(ts[k])
    ensures ParseItems(ts, i, done)
         == Ok(Parsed(Some(List(done + seq(j - i, k requires 0 <= k < j - i => Atom(AtomOf(ts[i + k]))))), j + 1))
    decreases j - i
  {
    var atoms := seq(j - i, k requires 0 <= k < j - i => Atom(AtomOf(ts[i + k])));
    if i == j {
      assert done + atoms == done;
    } else {
      ParseAtom(ts, i);
      ParseFlatItems(ts, i + 1, j, done + [Atom(AtomOf(ts[i]))]);
      var rest := seq(j - (i + 1), k requires 0 <= k < j - (i + 1) => Atom(AtomOf(ts[i + 1 + k])));
      assert done + [Atom(AtomOf(ts[i]))] + rest == done + atoms;
    }
  }

  /** A `(` followed by atom tokens and a `)` is read as the list of those
      atoms, as many as there are tokens between the parentheses. */
  lemma ParseFlatList(ts: seq<Token>, pos: nat, j: nat)
    requires pos < j < |ts| && ts[pos].content == "(" && ts[j].content == ")"
    requires forall k :: pos < k < j ==> !IsParen(ts[k])
    ensures ParseAt(ts, pos)
         == Ok(Parsed(Some(List(seq(j - pos - 1, k requires 0 <= k < j - pos - 1 => Atom(AtomOf(ts[pos + 1 + k]))))), j + 1))
  {
    ParseFlatItems(ts, pos + 1, j, []);
    var atoms := seq(j - pos - 1, k requires 0 <= k < j - pos - 1 => Atom(AtomOf(ts[pos + 1 + k])));
    assert [] + atoms == atoms;
  }

  // ---------------------------------------------------------------------
  // Reading back the tokens of an expression

  /** An expression the parser can produce from some tokens: a string atom's
      text starts with a quote, a symbol atom's does not and is neither `(`
      nor `)` (a `)` can only be read as a symbol outside any list). */
  predicate WellFormed(e: SExpression)
  {
    match e
    case Atom(StringAtom(t)) => |t.content| > 0 && t.content[0] == '"'
    case Atom(SymbolAtom(t)) =>
      t.content != "(" && t.content != ")" && !(|t.content| > 0 && t.content[0] == '"')
    case List(items) => forall i :: 0 <= i < |items| ==> WellFormed(items[i])
  }

  function Size(e: SExpression): nat
  {
    match e
    case Atom(_) => 1
    case List(items) => 1 + SizeAll(items)
  }

  function SizeAll(items: seq<SExpression>): nat
  {
    if items == [] then 0 else Size(items[0]) + SizeAll(items[1..])
  }

  /** The tokens of an expression; the offsets of the parentheses, which a
      tree does not keep, are set to 0. */
  function Emit(e: SExpression): seq<Token>
    decreases Size(e), 0
  {
    match e
    case Atom(a) => [a.token]
    case List(items) => [Token(0, "(")] + EmitAll(items) + [Token(0, ")")]
  }

  function EmitAll(items: seq<SExpression>): seq<Token>
    decreases SizeAll(items), 1
  {
    if items == [] then [] else Emit(items[0]) + EmitAll(items[1..])
  }

  lemma EmitStart(e: SExpression)
    requires WellFormed(e)
    ensures |Emit(e)| > 0 && Emit(e)[0].content != ")"
  {
  }

  /** `ts` is, token for token, `us` with the same texts, where only the
      parentheses may differ (in their offsets). */
  predicate SameUpToParens(ts: seq<Token>, us: seq<Token>)
  {
    |ts| == |us|
    && forall i :: 0 <= i < |ts| ==> ts[i].content == us[i].content && (IsParen(us[i]) || ts[i] == us[i])
  }

  /** `ts` spells `e`: the tokens of `e`, with any offsets on its parentheses,
      as the lexer would give them. */
  predicate Spells(ts: seq<Token>, e: SExpression)
  {
    SameUpToParens(ts, Emit(e))
  }

  lemma SameSplit(ts: seq<Token>, us: seq<Token>, k: nat)
    requires SameUpToParens(ts, us) && k <= |us|
    ensures SameUpToParens(ts[..k], us[..k]) && SameUpToParens(ts[k..], us[k..])
  {
  }

  lemma SameJoin(ts: seq<Token>, us: seq<Token>, ts': seq<Token>, us': seq<Token>)
    requires SameUpToParens(ts, us) && SameUpToParens(ts', us')
    ensures SameUpToParens(ts + ts', us + us')
  {
    var a, b := ts + ts', us + us';
    forall i | 0 <= i < |a|
      ensures a[i].content == b[i].content && (IsParen(b[i]) || a[i] == b[i])
    {
      if i >= |ts| {
        assert a[i] == ts'[i - |ts|] && b[i] == us'[i - |ts|];
      }
    }
  }

  /** A spelling of an atom is its own token. */
  lemma SpellsAtom(sp: seq<Token>, a: Atom)
    requires WellFormed(Atom(a)) && Spells(sp, Atom(a))
    ensures sp == [a.token]
  {
  }

  /** A spelling of a list is a `(`, a spelling of its items and a `)`. */
  lemma SpellsList(sp: seq<Token>, items: seq<SExpression>)
    requires Spells(sp, List(items))
    ensures |sp| >= 2 && sp[0].content == "(" && sp[|sp| - 1].content == ")"
    ensures SameUpToParens(sp[1..|sp| - 1], EmitAll(items))
  {
    var n := |sp|;
    var em := Emit(List(items));
    assert em == [Token(0, "(")] + EmitAll(items) + [Token(0, ")")];
    assert sp[0].content == em[0].content && sp[n - 1].content == em[n - 1].content;
    SameSplit(sp, em, 1);
    SameSplit(sp[1..], em[1..], n - 2);
    assert sp[1..][..n - 2] == sp[1..n - 1] && em[1..][..n - 2] == EmitAll(items);
  }

  /** A spelling of a non-empty run of items is a spelling of the first
      followed by a spelling of the rest. */
  lemma SpellsItems(sp: seq<Token>, items: seq<SExpression>)
    requires |items| > 0 && WellFormed(items[0]) && SameUpToParens(sp, EmitAll(items))
    ensures |Emit(items[0])| <= |sp| && sp[0].content != ")"
    ensures Spells(sp[..|Emit(items[0])|], items[0])
    ensures SameUpToParens(sp[|Emit(items[0])|..], EmitAll(items[1..]))
  {
    var h := |Emit(items[0])|;
    EmitStart(items[0]);
    SameSplit(sp, EmitAll(items), h);
    assert EmitAll(items)[..h] == Emit(items[0]) && EmitAll(items)[h..] == EmitAll(items[1..]);
    assert sp[0].content == EmitAll(items)[0].content;
  }

  /** `SpellsItems` for the tokens at `pos..pos + n` of `ts`. */
  lemma SpellsItemsAt(items: seq<SExpression>, ts: seq<Token>, pos: nat, n: nat)
    requires |items| > 0 && WellFormed(items[0]) && pos + n <= |ts|
    requires SameUpToParens(ts[pos..pos + n], EmitAll(items))
    ensures |Emit(items[0])| <= n && ts[pos].content != ")"
    ensures Spells(ts[pos..pos + |Emit(items[0])|], items[0])
    ensures SameUpToParens(ts[pos + |Emit(items[0])|..pos + n], EmitAll(items[1..]))
  {
    var sp := ts[pos..pos + n];
    var h := |Emit(items[0])|;
    SpellsItems(sp, items);
    assert sp[..h] == ts[pos..pos + h] && sp[h..] == ts[pos + h..pos + n];
    assert ts[pos] == sp[0];
  }

  /** The list loop at a `)` ends the list there. */
  lemma ItemsEnd(ts: seq<Token>, pos: nat, done: seq<SExpression>)
    requires 0 < pos < |ts| && ts[pos].content == ")"
    ensures ParseItems(ts, pos, done) == Ok(Parsed(Some(List(done)), pos + 1))
  {
  }

  /** One turn of the list loop: an item parsed at `pos` is appended and
      the loop goes on after it. */
  lemma ItemStep(ts: seq<Token>, pos: nat, done: seq<SExpression>, e: SExpression, k: nat)
    requires 0 < pos < |ts| && ts[pos].content != ")"
    requires ParseAt(ts, pos) == Ok(Parsed(Some(e), k))
    ensures k <= |ts| && ParseItems(ts, pos, done) == ParseItems(ts, k, done + [e])
  {
  }

  /** The ends and the inside of a slice, read in the whole sequence. */
  lemma InnerSlice(ts: seq<Token>, pos: nat, n: nat)
    requires 2 <= n && pos + n <= |ts|
    ensures ts[pos..pos + n][0] == ts[pos] && ts[pos..pos + n][n - 1] == ts[pos + n - 1]
    ensures ts[pos..pos + n][1..n - 1] == ts[pos + 1..pos + n - 1]
  {
    var sp := ts[pos..pos + n];
    var mid, inner := sp[1..n - 1], ts[pos + 1..pos + n - 1];
    forall i | 0 <= i < |mid|
      ensures mid[i] == inner[i]
    {
      assert mid[i] == sp[i + 1] == ts[pos + i + 1];
    }
    assert mid == inner;
  }

  /** Whatever comes before and after, the parse at the first token of a
      spelling of a well-formed expression returns that expression and the
      position just after the spelling. */
  lemma {:induction false} ParseEmit(e: SExpression, ts: seq<Token>, pos: nat, n: nat)
    requires pos + n <= |ts| && WellFormed(e) && Spells(ts[pos..pos + n], e)
    ensures ParseAt(ts, pos) == Ok(Parsed(Some(e), pos + n))
    decreases Size(e), 0
  {
    match e
    case Atom(a) =>
      SpellsAtom(ts[pos..pos + n], a);
      assert ts[pos] == ts[pos..pos + n][0];
    case List(items) =>
      SpellsList(ts[pos..pos + n], items);
      InnerSlice(ts, pos, n);
      ParseEmitItems(items, [], ts, pos + 1, n - 2);
      assert [] + items == items;
  }

  /** The list loop over a spelling of `items` followed by `)` reads all of
      them after `done` and ends just after the `)`. */
  lemma {:induction false} ParseEmitItems(items: seq<SExpression>, done: seq<SExpression>,
                                          ts: seq<Token>, pos: nat, n: nat)
    requires 0 < pos && pos + n < |ts| && ts[pos + n].content == ")"
    requires forall i :: 0 <= i < |items| ==> WellFormed(items[i])
    requires SameUpToParens(ts[pos..pos + n], EmitAll(items))
    ensures ParseItems(ts, pos, done) == Ok(Parsed(Some(List(done + items)), pos + n + 1))
    decreases SizeAll(items), 2
  {
    if items == [] {
      assert n == 0 && done + items == done;
      ItemsEnd(ts, pos, done);
    } else {
      ParseEmitCons(items, done, ts, pos, n);
    }
  }

  /** `ParseEmitItems` for a non-empty run: the first item is read, then the
      rest. */
  lemma {:induction false} ParseEmitCons(items: seq<SExpression>, done: seq<SExpression>,
                                         ts: seq<Token>, pos: nat, n: nat)
    requires items != [] && 0 < pos && pos + n < |ts| && ts[pos + n].content == ")"
    requires forall i :: 0 <= i < |items| ==> WellFormed(items[i])
    requires SameUpToParens(ts[pos..pos + n], EmitAll(items))
    ensures ParseItems(ts, pos, done) == Ok(Parsed(Some(List(done + items)), pos + n + 1))
    decreases SizeAll(items), 1
  {
    var head, tail := items[0], items[1..];
    var h := |Emit(head)|;
    SpellsItemsAt(items, ts, pos, n);
    ParseEmit(head, ts, pos, h);
    ItemStep(ts, pos, done, head, pos + h);
    ParseEmitItems(tail, done + [head], ts, pos + h, n - h);
    assert done + [head] + tail == done + items;
  }

  /** Round trip: the public parse of a spelling of a well-formed expression,
      followed by any tokens at all, is that expression. */
  lemma ParseTokensEmit(e: SExpression, sp: seq<Token>, after: seq<Token>)
    requires WellFormed(e) && Spells(sp, e)
    ensures ParseTokens(sp + after) == Ok(e)
  {
    assert (sp + after)[0..|sp|] == sp;
    ParseEmit(e, sp + after, 0, |sp|);
  }

  /** The converse: a successful parse at a token other than `)` consumes
      exactly a spelling of the well-formed expression it returns. */
  lemma {:induction false} ParseSpells(ts: seq<Token>, pos: nat)
    requires pos < |ts| && ts[pos].content != ")" && ParseAt(ts, pos).Ok?
    ensures WellFormed(ParseAt(ts, pos).value.expr.value)
    ensures Spells(ts[pos..ParseAt(ts, pos).value.rest], ParseAt(ts, pos).value.expr.value)
    decreases |ts| - pos, 0
  {
    var r := ParseAt(ts, pos).value;
    if ts[pos].content == "(" {
      ParseItemsSpell(ts, pos + 1, []);
      var items := r.expr.value.items;
      var mid := ts[pos + 1..r.rest - 1];
      SameJoin([ts[pos]], [Token(0, "(")], mid, EmitAll(items));
      SameJoin([ts[pos]] + mid, [Token(0, "(")] + EmitAll(items), [ts[r.rest - 1]], [Token(0, ")")]);
      assert ts[pos..r.rest] == [ts[pos]] + mid + [ts[r.rest - 1]];
    } else {
      assert ts[pos..r.rest] == [ts[pos]];
    }
  }

  /** An item spelled by `ts[pos..k]`, in front of items spelled up to the
      closing `)` at `rest - 1`, extends the spelling back to `pos`. */
  lemma ItemSpells(ts: seq<Token>, pos: nat, k: nat, rest: nat, done: seq<SExpression>,
                   e: SExpression, all: seq<SExpression>)
    requires pos <= k < rest <= |ts| && WellFormed(e) && Spells(ts[pos..k], e)
    requires |done| + 1 <= |all| && all[..|done| + 1] == done + [e]
    requires forall i :: |done| + 1 <= i < |all| ==> WellFormed(all[i])
    requires SameUpToParens(ts[k..rest - 1], EmitAll(all[|done| + 1..]))
    ensures |done| <= |all| && all[..|done|] == done
    ensures forall i :: |done| <= i < |all| ==> WellFormed(all[i])
    ensures SameUpToParens(ts[pos..rest - 1], EmitAll(all[|done|..]))
  {
    assert all[..|done|] == all[..|done| + 1][..|done|] && all[|done|] == all[..|done| + 1][|done|];
    assert all[|done|..] == [e] + all[|done| + 1..];
    assert EmitAll(all[|done|..]) == Emit(e) + EmitAll(all[|done| + 1..]);
    SameJoin(ts[pos..k], Emit(e), ts[k..rest - 1], EmitAll(all[|done| + 1..]));
    assert ts[pos..rest - 1] == ts[pos..k] + ts[k..rest - 1];
  }

  /** The list loop reads items whose spellings fill the tokens up to the
      closing `)`. */
  lemma {:induction false} ParseItemsSpell(ts: seq<Token>, pos: nat, done: seq<SExpression>)
    requires 0 < pos <= |ts| && ParseItems(ts, pos, done).Ok?
    ensures var r := ParseItems(ts, pos, done).value;
      var all := r.expr.value.items;
      |done| <= |all| && all[..|done|] == done
      && (forall i :: |done| <= i < |all| ==> WellFormed(all[i]))
      && ts[r.rest - 1].content == ")"
      && SameUpToParens(ts[pos..r.rest - 1], EmitAll(all[|done|..]))
    decreases |ts| - pos, 1
  {
    var r := ParseItems(ts, pos, done).value;
    var all := r.expr.value.items;
    if pos < |ts| && ts[pos].content != ")" {
      var sub := ParseAt(ts, pos).value;
      var e := sub.expr.value;
      ParseSpells(ts, pos);
      ParseItemsSpell(ts, sub.rest, done + [e]);
      assert ParseItems(ts, pos, done) == ParseItems(ts, sub.rest, done + [e]);
      ItemSpells(ts, pos, sub.rest, r.rest, done, e, all);
    } else {
      assert all == done && all[|done|..] == [];
    }
  }

  /** Trailing tokens are ignored: a parse that succeeds at `pos` gives the
      same result whatever follows the tokens it consumed. */
  lemma ParsePrefix(ts: seq<Token>, pos: nat, u: seq<Token>)
    requires pos < |ts| && ParseAt(ts, pos).Ok?
    ensures ParseAt(ts, pos).value.rest <= |ts|
    ensures ParseAt(ts[..ParseAt(ts, pos).value.rest] + u, pos) == ParseAt(ts, pos)
  {
    var r := ParseAt(ts, pos).value;
    var k := r.rest;
    var ts' := ts[..k] + u;
    if ts[pos].content == ")" {
      assert ts'[pos] == ts[pos];
    } else {
      ParseSpells(ts, pos);
      assert ts'[pos..k] == ts[pos..k];
      ParseEmit(r.expr.value, ts', pos, k - pos);
    }
  }

  /** At the top level: only the tokens of the first expression matter. */
  lemma TrailingTokensIgnored(ts: seq<Token>, u: seq<Token>)
    requires ParseTokens(ts).Ok?
    ensures ParseAt(ts, 0).value.rest <= |ts|
    ensures ParseTokens(ts[..ParseAt(ts, 0).value.rest] + u) == ParseTokens(ts)
  {
    ParsePrefix(ts, 0, u);
  }
}
