/** The scanner for editors and interactive sessions: it classifies every
    character of the source, comments and white space included, and reports a
    string or comment left open. */
module Classifier {
  import opened Wrappers
  import opened Chars
  import opened SourceText

  datatype Kind =
    | Keyword | Identifier | Number | String | Comment | Symbol | Operator | Special | Newline | Whitespace | Other

  datatype Token = Token(kind: Kind, text: string, offset: nat, length: nat, line: nat, column: nat)

  datatype Reason = OpenComment | OpenString

  datatype Scan = Scan(tokens: seq<Token>, reason: Option<Reason>)

  /** Where a scan stands, by the code's own line and column counters. */
  type Cursor = Position

  /** The end of a token, and whether its closing mark was found. */
  datatype Closing = Closing(closed: bool, cursor: Cursor)

  const SPECIAL_WORDS: set<string> := {"NULL", "NA", "EOF", "TRUE", "FALSE"}

  // ----- one token -------------------------------------------------------------------------------

  /** Inside a block comment: to just past the first close. */
  function CommentClose(src: string, c: Cursor): (r: Closing)
    requires c.offset <= |src| + 1
    ensures r.closed ==> c.offset + 2 <= r.cursor.offset <= |src|
    decreases |src| + 1 - c.offset
  {
    if c.offset + 1 >= |src| then Closing(false, c)
    else if src[c.offset] == '*' && src[c.offset + 1] == '/' then
      Closing(true, Position(c.offset + 2, c.line, c.column + 2))
    else if src[c.offset] == '\n' then CommentClose(src, Position(c.offset + 1, c.line + 1, 1))
    else CommentClose(src, Position(c.offset + 1, c.line, c.column + 1))
  }

  /** Inside a string: to just past the closing quote.  An escape skips two
      characters whatever the second is, a line feed included. */
  function StringClose(src: string, c: Cursor): (r: Closing)
    requires c.offset <= |src|
    ensures r.closed ==> c.offset < r.cursor.offset <= |src|
    decreases |src| - c.offset
  {
    if c.offset == |src| then Closing(false, c)
    else if src[c.offset] == '"' then Closing(true, Position(c.offset + 1, c.line, c.column + 1))
    else if src[c.offset] == '\\' && c.offset + 1 < |src| then
      StringClose(src, Position(c.offset + 2, c.line, c.column + 2))
    else if src[c.offset] == '\n' then StringClose(src, Position(c.offset + 1, c.line + 1, 1))
    else StringClose(src, Position(c.offset + 1, c.line, c.column + 1))
  }

  function WordKind(reserved: set<string>, text: string): Kind {
    if text in reserved then Keyword else if text in SPECIAL_WORDS then Special else Identifier
  }

  function SymbolKind(c: char): Kind {
    if c in {'+', '-', '*', '/', '%', '^', '=', '<', '>'} then Operator
    else if c in {'(', ')', '[', ']', ',', '.', ':', ';'} then Symbol
    else Other
  }

  /** A token over `src[c.offset..end]` and the cursor after it. */
  datatype Step = Step(kind: Kind, cursor: Cursor, open: Option<Reason>)

  function RunStep(kind: Kind, c: Cursor, end: nat): Step
    requires c.offset <= end
  {
    Step(kind, Position(end, c.line, c.column + (end - c.offset)), None)
  }

  function ClosedStep(src: string, kind: Kind, reason: Reason, closing: Closing): Step {
    if closing.closed then Step(kind, closing.cursor, None)
    else Step(kind, closing.cursor.(offset := |src|), Some(reason))
  }

  function ScanStep(reserved: set<string>, src: string, c: Cursor): (r: Step)
    requires c.offset < |src|
    ensures c.offset < r.cursor.offset <= |src|
  {
    var i := c.offset;
    if src[i] == '\n' then Step(Newline, Position(i + 1, c.line + 1, 1), None)
    else if IsWhitespace(src[i]) then RunStep(Whitespace, c, RunEnd(src, i, InSpace))
    else if i + 1 < |src| && src[i] == '/' && src[i + 1] == '/' then RunStep(Comment, c, RunEnd(src, i, InLineComment))
    else if i + 1 < |src| && src[i] == '/' && src[i + 1] == '*' then
      ClosedStep(src, Comment, OpenComment, CommentClose(src, Position(i + 2, c.line, c.column + 2)))
    else if src[i] == '"' then
      ClosedStep(src, String, OpenString, StringClose(src, Position(i + 1, c.line, c.column + 1)))
    else if IsDigit(src[i]) then RunStep(Number, c, RunEnd(src, i, InNumber))
    else if IsWordStart(src[i]) then
      var end := RunEnd(src, i, InWord);
      RunStep(WordKind(reserved, src[i..end]), c, end)
    else RunStep(SymbolKind(src[i]), c, i + 1)
  }

  function TokenOf(src: string, c: Cursor, step: Step): Token
    requires c.offset < step.cursor.offset <= |src|
  {
    var end := step.cursor.offset;
    Token(step.kind, src[c.offset..end], c.offset, end - c.offset, c.line, c.column)
  }

  /** The classified tokens from a cursor on.  An open token is the last. */
  function ScanFrom(reserved: set<string>, src: string, c: Cursor): Scan
    requires c.offset <= |src|
    decreases |src| - c.offset
  {
    if c.offset == |src| then Scan([], None)
    else
      var step := ScanStep(reserved, src, c);
      var token := TokenOf(src, c, step);
      if step.open.Some? then Scan([token], step.open)
      else
        var rest := ScanFrom(reserved, src, step.cursor);
        Scan([token] + rest.tokens, rest.reason)
  }

  // ----- the loops ------------------------------------------------------------------------------------

  /** The classifying loop, with its inner loops below. */
  method ScanClassifiedTokens(reserved: set<string>, src: string) returns (r: Scan)
    ensures r == ScanFrom(reserved, src, Position(0, 1, 1))
  {
    hide ScanStep;
    var tokens: seq<Token> := [];
    var c := Position(0, 1, 1);
    while c.offset < |src|
      invariant c.offset <= |src|
      invariant ScanFrom(reserved, src, Position(0, 1, 1)) ==
                var rest := ScanFrom(reserved, src, c); Scan(tokens + rest.tokens, rest.reason)
      decreases |src| - c.offset
    {
      var step := NextStep(reserved, src, c);
      var token := TokenOf(src, c, step);
      tokens := tokens + [token];
      if step.open.Some? {
        return Scan(tokens, step.open);
      }
      c := step.cursor;
    }
    return Scan(tokens, None);
  }

  method NextStep(reserved: set<string>, src: string, c: Cursor) returns (r: Step)
    requires c.offset < |src|
    ensures r == ScanStep(reserved, src, c)
  {
    var i := c.offset;
    if src[i] == '\n' {
      r := Step(Newline, Position(i + 1, c.line + 1, 1), None);
    } else if IsWhitespace(src[i]) {
      var end := SkipRun(src, c, InSpace);
      r := Step(Whitespace, end, None);
    } else if i + 1 < |src| && src[i] == '/' && src[i + 1] == '/' {
      var end := SkipRun(src, c, InLineComment);
      r := Step(Comment, end, None);
    } else if i + 1 < |src| && src[i] == '/' && src[i + 1] == '*' {
      var closing := SkipComment(src, Position(i + 2, c.line, c.column + 2));
      r := ClosedStep(src, Comment, OpenComment, closing);
    } else if src[i] == '"' {
      var closing := SkipString(src, Position(i + 1, c.line, c.column + 1));
      r := ClosedStep(src, String, OpenString, closing);
    } else if IsDigit(src[i]) {
      var end := SkipRun(src, c, InNumber);
      r := Step(Number, end, None);
    } else if IsWordStart(src[i]) {
      var end := SkipRun(src, c, InWord);
      r := Step(WordKind(reserved, src[i..end.offset]), end, None);
    } else {
      r := Step(SymbolKind(src[i]), Position(i + 1, c.line, c.column + 1), None);
    }
  }

  method SkipRun(src: string, start: Cursor, p: char -> bool) returns (c: Cursor)
    requires start.offset <= |src|
    ensures c == RunStep(Other, start, RunEnd(src, start.offset, p)).cursor
  {
    c := start;
    while c.offset < |src| && p(src[c.offset])
      invariant start.offset <= c.offset <= |src|
      invariant c == Position(c.offset, start.line, start.column + (c.offset - start.offset))
      invariant forall k | start.offset <= k < c.offset :: p(src[k])
      decreases |src| - c.offset
    {
      c := Position(c.offset + 1, c.line, c.column + 1);
    }
    RunEndIs(src, start.offset, c.offset, p);
  }

  method SkipComment(src: string, start: Cursor) returns (r: Closing)
    requires start.offset <= |src|
    ensures r == CommentClose(src, start)
  {
    var c := start;
    while c.offset + 1 < |src|
      invariant c.offset <= |src|
      invariant CommentClose(src, c) == CommentClose(src, start)
      decreases |src| - c.offset
    {
      if src[c.offset] == '*' && src[c.offset + 1] == '/' {
        return Closing(true, Position(c.offset + 2, c.line, c.column + 2));
      }
      if src[c.offset] == '\n' {
        c := Position(c.offset + 1, c.line + 1, 1);
      } else {
        c := Position(c.offset + 1, c.line, c.column + 1);
      }
    }
    return Closing(false, c);
  }

  method SkipString(src: string, start: Cursor) returns (r: Closing)
    requires start.offset <= |src|
    ensures r == StringClose(src, start)
  {
    var c := start;
    while c.offset < |src|
      invariant c.offset <= |src|
      invariant StringClose(src, c) == StringClose(src, start)
      decreases |src| - c.offset
    {
      if src[c.offset] == '"' {
        return Closing(true, Position(c.offset + 1, c.line, c.column + 1));
      }
      if src[c.offset] == '\\' && c.offset + 1 < |src| {
        c := Position(c.offset + 2, c.line, c.column + 2);
      } else if src[c.offset] == '\n' {
        c := Position(c.offset + 1, c.line + 1, 1);
      } else {
        c := Position(c.offset + 1, c.line, c.column + 1);
      }
    }
    return Closing(false, c);
  }

  // ----- nothing is lost --------------------------------------------------------------------------------

  function Concatenated(tokens: seq<Token>): string {
    if tokens == [] then [] else tokens[0].text + Concatenated(tokens[1..])
  }

  /** Tokens are contiguous from an offset on and none is empty. */
  predicate Contiguous(tokens: seq<Token>, offset: nat)
    decreases |tokens|
  {
    tokens != [] ==>
      && tokens[0].offset == offset && tokens[0].length == |tokens[0].text| > 0
      && Contiguous(tokens[1..], offset + tokens[0].length)
  }

  /** The classified tokens tile the source: laid end to end they are its text,
      whatever the source and even when a string or comment is left open. */
  lemma {:induction false} TokensTile(reserved: set<string>, src: string, c: Cursor)
    requires c.offset <= |src|
    ensures Concatenated(ScanFrom(reserved, src, c).tokens) == src[c.offset..]
    ensures Contiguous(ScanFrom(reserved, src, c).tokens, c.offset)
    decreases |src| - c.offset
  {
    if c.offset < |src| {
      hide ScanStep;
      var step := ScanStep(reserved, src, c);
      var end := step.cursor.offset;
      if step.open.Some? {
        OpenTokenIsLast(reserved, src, c);
        TileTail([], src, c, step, |src|);
      } else {
        TokensTile(reserved, src, step.cursor);
        TileTail(ScanFrom(reserved, src, step.cursor).tokens, src, c, step, end);
      }
    }
  }

  lemma TileTail(rest: seq<Token>, src: string, c: Cursor, step: Step, end: nat)
    requires c.offset < step.cursor.offset == end <= |src|
    requires Concatenated(rest) == src[end..] && Contiguous(rest, end)
    ensures var tokens := [TokenOf(src, c, step)] + rest;
            Concatenated(tokens) == src[c.offset..] && Contiguous(tokens, c.offset)
  {
    var tokens := [TokenOf(src, c, step)] + rest;
    assert tokens[1..] == rest;
    assert src[c.offset..] == src[c.offset..end] + src[end..];
  }

  lemma OpenTokenIsLast(reserved: set<string>, src: string, c: Cursor)
    requires c.offset < |src| && ScanStep(reserved, src, c).open.Some?
    ensures ScanStep(reserved, src, c).cursor.offset == |src|
  {
  }

  // ----- what the kinds mean -------------------------------------------------------------------

  predicate IsLetter(c: char) {
    'a' <= c <= 'z' || 'A' <= c <= 'Z' || c == '_'
  }

  /** The kind of a token says how its text starts, and for symbols and operators
      what it is; a word is a keyword if reserved and a special word if not. */
  lemma KindsAre(reserved: set<string>, src: string, c: Cursor)
    requires c.offset < |src|
    ensures var step := ScanStep(reserved, src, c);
            var text := src[c.offset..step.cursor.offset];
            && (step.kind == Newline <==> text == "\n")
            && (step.kind == Whitespace <==> IsWhitespace(text[0]) && text[0] != '\n')
            && (step.kind == Whitespace ==> forall x <- text :: IsWhitespace(x) && x != '\n')
            && (step.kind == Comment <==> |text| >= 2 && text[0] == '/' && text[1] in {'/', '*'})
            && (step.kind == String <==> text[0] == '"')
            && (step.kind == Number <==> '0' <= text[0] <= '9')
            && (step.kind in {Keyword, Special, Identifier} <==> IsLetter(text[0]))
            && (step.kind == Keyword ==> text in reserved)
            && (step.kind == Special ==> text !in reserved && text in {"NULL", "NA", "EOF", "TRUE", "FALSE"})
            && (step.kind == Identifier ==> text !in reserved && text !in {"NULL", "NA", "EOF", "TRUE", "FALSE"})
            && (step.kind == Operator <==> |text| == 1 && text[0] in {'+', '-', '*', '/', '%', '^', '=', '<', '>'})
            && (step.kind == Symbol <==> text[0] in {'(', ')', '[', ']', ',', '.', ':', ';'})
  {
    var i, step := c.offset, ScanStep(reserved, src, c);
    var text := src[i..step.cursor.offset];
    assert text[0] == src[i];
    hide CommentClose;
    hide StringClose;
    if src[i] == '\n' {
      assert text == "\n";
    } else if IsWhitespace(src[i]) {
      forall x <- text ensures IsWhitespace(x) && x != '\n' {
        var k :| 0 <= k < |text| && text[k] == x;
        assert src[i + k] == x;
      }
    } else if i + 1 < |src| && src[i] == '/' && src[i + 1] in {'/', '*'} {
      CommentIsTwo(reserved, src, c);
      assert text[1] == src[i + 1];
    }
  }

  lemma CommentIsTwo(reserved: set<string>, src: string, c: Cursor)
    requires c.offset + 1 < |src| && src[c.offset] == '/' && src[c.offset + 1] in {'/', '*'}
    ensures ScanStep(reserved, src, c).kind == Comment && ScanStep(reserved, src, c).cursor.offset >= c.offset + 2
  {
    hide StringClose;
  }
}
