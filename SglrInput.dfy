/// How the JSGLR parser reads its input: the character codes it hands to
/// the automaton, the line and column bookkeeping done per character, and
/// the one-character-per-class lookahead check of a lookahead reduction.
module SglrInput {

  /// Columns advance to the next multiple of this at a tab.
  const TAB_SIZE: int := 4

  /// The token code of end of input: the number of character codes of the
  /// parse table (ParseTable.NUM_CHARS, 256).
  const EOF: int := 256

  const NEWLINE: int := '\n' as int
  const TAB: int := '\t' as int

  /// Integer division as Java performs it: rounding toward zero.
  function JavaDiv(a: int, b: int): int
    requires b > 0
  {
    if a >= 0 then a / b else -((-a) / b)
  }

  /// The position counters of the parser: characters read so far, the
  /// current line (from 1) and column (from 0).
  datatype TextPosition = TextPosition(tokensSeen: int, line: int, column: int)

  /// The counters after reading `ch` (-1 when the input is exhausted).
  function NextPosition(p: TextPosition, ch: int): TextPosition {
    var q := p.(tokensSeen := p.tokensSeen + 1);
    if ch == NEWLINE then q.(line := p.line + 1, column := 0)
    else if ch == TAB then q.(column := (JavaDiv(p.column, TAB_SIZE) + 1) * TAB_SIZE)
    else if ch == -1 then q
    else q.(column := p.column + 1)
  }

  /// Every read counts as a token; a newline starts the next line at
  /// column 0; a tab moves to the next tab stop, strictly to the right and
  /// at most TAB_SIZE columns on; end of input moves nothing; any other
  /// character moves one column.
  lemma NextPositionSpec(p: TextPosition, ch: int)
    ensures var r := NextPosition(p, ch);
            r.tokensSeen == p.tokensSeen + 1
            && (ch == NEWLINE ==> r.line == p.line + 1 && r.column == 0)
            && (ch == TAB && p.column >= 0 ==>
                  r.line == p.line && r.column % TAB_SIZE == 0 && p.column < r.column <= p.column + TAB_SIZE)
            && (ch == -1 ==> r.line == p.line && r.column == p.column)
            && (ch != NEWLINE && ch != TAB && ch != -1 ==> r.line == p.line && r.column == p.column + 1)
  {
    if ch == TAB && p.column >= 0 {
      var c := p.column;
      var k := c / TAB_SIZE;
      assert c == TAB_SIZE * k + c % TAB_SIZE;
      assert NextPosition(p, ch).column == TAB_SIZE * k + TAB_SIZE;
    }
  }

  /// The counters after reading a sequence of characters.
  function PositionAfter(p: TextPosition, chars: seq<int>): TextPosition
    decreases |chars|
  {
    if chars == [] then p else NextPosition(PositionAfter(p, chars[..|chars| - 1]), chars[|chars| - 1])
  }

  function Newlines(chars: seq<int>): nat
    decreases |chars|
  {
    if chars == [] then 0
    else Newlines(chars[..|chars| - 1]) + (if chars[|chars| - 1] == NEWLINE then 1 else 0)
  }

  /// After any sequence of reads the token count has grown by the number of
  /// reads, the line number by the number of newlines, and a column that
  /// started non-negative has stayed non-negative.
  lemma {:induction false} PositionAfterSpec(p: TextPosition, chars: seq<int>)
    ensures var r := PositionAfter(p, chars);
            r.tokensSeen == p.tokensSeen + |chars|
            && r.line == p.line + Newlines(chars)
            && (p.column >= 0 ==> r.column >= 0)
    decreases |chars|
  {
    if chars != [] {
      var init := chars[..|chars| - 1];
      PositionAfterSpec(p, init);
      NextPositionSpec(PositionAfter(p, init), chars[|chars| - 1]);
    }
  }

  /// Whether a lookahead reduction may go ahead, given the characters
  /// after the current token and one character class per lookahead
  /// position, from position `pos` on: end of input permits it; a
  /// character inside the class of its position forbids it; a character
  /// read beyond the last class permits it.
  function LookaheadPermits(rest: string, classes: seq<set<int>>, pos: nat): bool
    decreases |rest|
  {
    if rest == [] then true
    else if pos < |classes| then
      if rest[0] as int in classes[pos] then false else LookaheadPermits(rest[1..], classes, pos + 1)
    else true
  }

  /// The reduction is forbidden exactly when some character of the
  /// lookahead lies in the class of its own position.
  lemma {:induction false} LookaheadPermitsSpec(rest: string, classes: seq<set<int>>, pos: nat)
    ensures !LookaheadPermits(rest, classes, pos)
            <==> exists j :: 0 <= j < |rest| && pos + j < |classes| && rest[j] as int in classes[pos + j]
    decreases |rest|
  {
    if rest != [] && pos < |classes| && rest[0] as int !in classes[pos] {
      LookaheadPermitsSpec(rest[1..], classes, pos + 1);
      if exists j :: 0 <= j < |rest| && pos + j < |classes| && rest[j] as int in classes[pos + j] {
        var j :| 0 <= j < |rest| && pos + j < |classes| && rest[j] as int in classes[pos + j];
        assert j > 0;
        assert rest[1..][j - 1] == rest[j];
      }
      if exists j :: 0 <= j < |rest[1..]| && pos + 1 + j < |classes| && rest[1..][j] as int in classes[pos + 1 + j] {
        var j :| 0 <= j < |rest[1..]| && pos + 1 + j < |classes| && rest[1..][j] as int in classes[pos + 1 + j];
        assert rest[j + 1] == rest[1..][j];
      }
    } else if rest != [] && pos < |classes| {
      assert rest[0] == rest[0];
    }
  }
}
