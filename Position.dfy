/** The line/column position of the parser, advanced one character at a time. */
module Position {

  datatype ParsingPosition = ParsingPosition(line: nat, column: nat)

  /** A newline is a carriage return (the `\r\n` cluster is not a single
      character here, and a lone `\n` is not a newline). */
  predicate IsNewline(c: char)
  {
    c == '\r'
  }

  /** The position after one character: a newline moves to column 0 of the
      next line, anything else one column to the right. */
  function Advance(p: ParsingPosition, c: char): ParsingPosition
  {
    if IsNewline(c) then ParsingPosition(p.line + 1, 0)
    else ParsingPosition(p.line, p.column + 1)
  }

  /** The in-place update of a position for one character, on a copy of the
      value. */
  method Update(position: ParsingPosition, token: char) returns (updated: ParsingPosition)
    ensures updated == Advance(position, token)
    ensures IsNewline(token) ==> updated.line == position.line + 1 && updated.column == 0
    ensures !IsNewline(token) ==> updated.line == position.line && updated.column == position.column + 1
  {
    updated := position;
    if IsNewline(token) {
      updated := updated.(line := updated.line + 1);
      updated := updated.(column := 0);
    } else {
      updated := updated.(column := updated.column + 1);
    }
  }

  /** The position after reading `s` from `p`, one `Advance` per character. */
  function Track(p: ParsingPosition, s: seq<char>): ParsingPosition
    decreases |s|
  {
    if s == [] then p else Advance(Track(p, s[..|s| - 1]), s[|s| - 1])
  }

  /** The line advances by the number of newlines read; the column counts the
      characters since the last newline, or since `p` when there was none. */
  lemma {:induction false} TrackCounts(p: ParsingPosition, s: seq<char>)
    ensures Track(p, s).line == p.line + multiset(s)['\r']
    ensures '\r' !in s ==> Track(p, s).column == p.column + |s|
    ensures '\r' in s ==>
              var col := Track(p, s).column;
              col < |s| && s[|s| - 1 - col] == '\r'
              && forall k :: |s| - col <= k < |s| ==> s[k] != '\r'
    decreases |s|
  {
    if s != [] {
      var init, c := s[..|s| - 1], s[|s| - 1];
      assert s == init + [c];
      TrackCounts(p, init);
      var q := Track(p, init);
      assert multiset(s) == multiset(init) + multiset{c};
      if c == '\r' {
        assert s[|s| - 1 - 0] == '\r';
      } else {
        assert '\r' in s <==> '\r' in init;
        if '\r' in init {
          assert s[|s| - 1 - (q.column + 1)] == init[|init| - 1 - q.column];
          forall k | |s| - (q.column + 1) <= k < |s|
            ensures s[k] != '\r'
          {
            if k < |s| - 1 {
              assert s[k] == init[k];
            }
          }
        }
      }
    }
  }
}
