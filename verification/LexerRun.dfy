/** The lexer object: it advances an offset, a line and a column over the
    source and pushes tokens with their spans. */
module LexerRun {
  import opened Wrappers
  import opened Chars
  import opened SourceText
  import opened Lexer

  /** A token with the span the lexer gives it. */
  datatype Placed = Placed(kind: Kind, start: Position, end: Position)

  /** The span of a token.  A line break ends on its own line, one column on. */
  function Place(src: string, t: Token): Placed
    requires t.start <= t.end <= |src|
  {
    var start := At(src, t.start);
    Placed(t.kind, start,
           if t.kind == Newline && t.start < t.end then Position(t.end, start.line, start.column + 1)
           else At(src, t.end))
  }

  function PlaceAll(src: string, tokens: seq<Token>): seq<Placed>
    requires InText(src, tokens)
  {
    seq(|tokens|, i requires 0 <= i < |tokens| => assert tokens[i] in tokens; Place(src, tokens[i]))
  }

  lemma PlaceSnoc(src: string, tokens: seq<Token>, t: Token)
    requires InText(src, tokens) && t.start <= t.end <= |src|
    ensures InText(src, tokens + [t]) && PlaceAll(src, tokens + [t]) == PlaceAll(src, tokens) + [Place(src, t)]
  {
  }

  /** The tokens of a source in their places. */
  function PlacedLex(words: Words, src: string): Result<seq<Placed>, LexError> {
    var r := Lex(words, src);
    if r.Success? then Success(PlaceAll(src, r.value)) else Failure(r.error)
  }

  // ----- how the object follows the step function ----------------------------------------

  /** What a method found is what the step function says. */
  predicate Follows(e: Option<LexError>, step: Step, offset: nat, before: seq<Token>, after: seq<Token>) {
    && (e.None? <==> step.Go?)
    && (e.None? ==> offset == step.next && after == before + step.tokens)
    && (e.Some? ==> step == Fail(e.value))
  }

  function Prefixed(tokens: seq<Token>, r: Step): Step {
    if r.Go? then Go(r.next, tokens + r.tokens) else r
  }

  lemma PrefixedNothing(r: Step)
    ensures Prefixed([], r) == r
  {
    if r.Go? {
      assert [] + r.tokens == r.tokens;
    }
  }

  lemma PrefixedEnd(tokens: seq<Token>, next: nat)
    ensures Prefixed(tokens, Go(next, [])) == Go(next, tokens)
    ensures forall e :: Prefixed(tokens, Fail(e)) == Fail(e)
  {
    assert tokens + [] == tokens;
  }

  lemma ConsToken(tokens: seq<Token>, t: Token, r: Step)
    ensures Prefixed(tokens, Cons(t, r)) == Prefixed(tokens + [t], r)
  {
    if r.Go? {
      assert tokens + ([t] + r.tokens) == tokens + [t] + r.tokens;
    }
  }

  lemma CommentUnfolds(src: string, i: nat)
    requires i <= |src|
    ensures CommentStep(src, i) ==
            if StartsAt(src, i, "*/") then Go(i + 2, [])
            else if i == |src| then Fail(UnterminatedComment)
            else if StartsAt(src, i, "/*") then Fail(NestedComment)
            else if src[i] == '\n' then Cons(Token(Newline, i, i + 1), CommentStep(src, i + 1))
            else if src[i] != '\r' then CommentStep(src, i + 1)
            else if i + 1 < |src| && src[i + 1] == '\n' then
              Cons(Token(Newline, i + 1, i + 2), CommentStep(src, i + 2))
            else Fail(BareReturn)
  {
  }

  lemma PushNothing(words: Words, src: string)
    ensures LexFrom(words, src, 0) == Push([], LexFrom(words, src, 0))
  {
    var r := LexFrom(words, src, 0);
    if r.Success? {
      assert [] + r.value == r.value;
    }
  }

  /** One step of the run, by what the step function says. */
  lemma RunStep(words: Words, src: string, i: nat, found: seq<Token>)
    requires i < |src|
    ensures var step, r := LexStep(words, src, i), Push(found, LexFrom(words, src, i));
            && (step.Fail? ==> r == Failure(step.error))
            && (step.Go? ==> r == Push(found + step.tokens, LexFrom(words, src, step.next)))
  {
    hide LexStep;
    var step := LexStep(words, src, i);
    if step.Go? {
      var rest := LexFrom(words, src, step.next);
      if rest.Success? {
        assert found + (step.tokens + rest.value) == found + step.tokens + rest.value;
      }
    }
  }

  /** The end of the run: what was found is placed, then the closing tokens. */
  lemma RunEnds(words: Words, src: string, found: seq<Token>)
    requires LexFrom(words, src, 0) == Push(found, LexFrom(words, src, |src|)) && InText(src, found)
    ensures var open := found != [] && found[|found| - 1].kind != Newline;
            var end := At(src, |src|);
            PlacedLex(words, src) ==
              if open then Success(PlaceAll(src, found) + [Placed(Newline, end, end)] + [Placed(Eof, end, end)])
              else Success(PlaceAll(src, found) + [Placed(Eof, end, end)])
    ensures |PlaceAll(src, found)| == |found|
    ensures found != [] ==> PlaceAll(src, found)[|found| - 1].kind == found[|found| - 1].kind
  {
    assert found + [] == found;
    var end := At(src, |src|);
    PlaceJoin(src, found, ClosingTokens(src, found));
    PlaceClosing(src, found);
    hide PlaceAll;
    hide ClosingTokens;
    if found != [] && found[|found| - 1].kind != Newline {
      assert PlaceAll(src, found) + ([Placed(Newline, end, end)] + [Placed(Eof, end, end)]) ==
             PlaceAll(src, found) + [Placed(Newline, end, end)] + [Placed(Eof, end, end)];
    }
  }

  lemma PlaceJoin(src: string, a: seq<Token>, b: seq<Token>)
    requires InText(src, a) && InText(src, b)
    ensures InText(src, a + b) && PlaceAll(src, a + b) == PlaceAll(src, a) + PlaceAll(src, b)
    ensures |PlaceAll(src, a)| == |a|
    ensures a != [] ==> PlaceAll(src, a)[|a| - 1].kind == a[|a| - 1].kind
  {
  }

  lemma PlaceClosing(src: string, found: seq<Token>)
    ensures var end := At(src, |src|);
            PlaceAll(src, ClosingTokens(src, found)) ==
              if found != [] && found[|found| - 1].kind != Newline
              then [Placed(Newline, end, end)] + [Placed(Eof, end, end)] else [Placed(Eof, end, end)]
  {
  }

  lemma FailedRun(words: Words, src: string, e: LexError)
    requires LexFrom(words, src, 0) == Failure(e)
    ensures PlacedLex(words, src) == Failure(e)
  {
  }

  class LexerObject {
    const words: Words
    const src: string
    var offset: nat
    var line: nat
    var column: nat
    var tokens: seq<Placed>
    ghost var found: seq<Token>

    constructor (words: Words, src: string)
      ensures this.words == words && this.src == src
      ensures Valid() && offset == 0 && found == []
    {
      this.words, this.src := words, src;
      offset, line, column, tokens, found := 0, 1, 1, [], [];
    }

    /** The counters are the true position of the offset, and the tokens are
        the ones found, in their true places. */
    ghost predicate Valid()
      reads this
    {
      && offset <= |src| && line == LineAt(src, offset) && column == ColumnAt(src, offset)
      && InText(src, found) && tokens == PlaceAll(src, found)
    }

    /** The character at the offset, moving one column past it; none at the end.
        The line is the caller's to count when that character ends it. */
    method Advance() returns (c: Option<char>)
      requires offset <= |src|
      modifies this`offset, this`column
      ensures old(offset) == |src| ==> c == None && offset == old(offset) && column == old(column)
      ensures old(offset) < |src| ==> c == Some(src[old(offset)])
      ensures old(offset) < |src| ==> offset == old(offset) + 1 && column == old(column) + 1
      ensures old(Valid()) && c != Some('\n') ==> Valid()
    {
      if offset == |src| {
        return None;
      }
      c := Some(src[offset]);
      offset, column := offset + 1, column + 1;
    }

    /** Pushes a token that starts at `start` and ends here.  A line break that has
        been passed is in place once its line is counted. */
    method PushToken(kind: Kind, start: Position)
      requires start.offset <= offset <= |src|
      modifies this`tokens, this`found
      ensures tokens == old(tokens) + [Placed(kind, start, Position(offset, line, column))]
      ensures found == old(found) + [Token(kind, start.offset, offset)]
      ensures old(Valid()) && start == At(src, start.offset) && (kind == Newline ==> start.offset == offset) ==> Valid()
    {
      tokens := tokens + [Placed(kind, start, Position(offset, line, column))];
      ghost var t := Token(kind, start.offset, offset);
      if InText(src, found) {
        PlaceSnoc(src, found, t);
      }
      found := found + [t];
    }

    method NewlineToken()
      requires Valid() && offset < |src| && src[offset] == '\n'
      modifies this
      ensures Valid() && offset == old(offset) + 1
      ensures found == old(found) + [Token(Newline, old(offset), old(offset) + 1)]
    {
      var start := Position(offset, line, column);
      var _ := Advance();
      PushToken(Newline, start);
      line, column := line + 1, 1;
      PlaceSnoc(src, old(found), Token(Newline, start.offset, offset));
    }

    method SkipWhile(p: char -> bool)
      requires Valid() && !p('\n')
      modifies this`offset, this`column
      ensures Valid() && offset == RunEnd(src, old(offset), p)
    {
      while offset < |src| && p(src[offset])
        invariant Valid() && old(offset) <= offset
        invariant forall k | old(offset) <= k < offset :: p(src[k])
        decreases |src| - offset
      {
        var _ := Advance();
      }
      RunEndIs(src, old(offset), offset, p);
    }

    method BlockComment() returns (e: Option<LexError>)
      requires Valid() && StartsAt(src, offset, "/*")
      modifies this
      ensures Valid()
      ensures var step := CommentStep(src, old(offset) + 2);
              && (e.None? <==> step.Go?)
              && (e.None? ==> offset == step.next && found == old(found) + step.tokens)
              && (e.Some? ==> step == Fail(e.value))
    {
      hide PlaceAll;
      hide InText;
      hide At;
      hide Prefixed;
      hide LineAt;
      hide ColumnAt;
      hide StartsAt;
      hide CommentStep;
      hide Cons;
      StartsWithTwo(src, offset, "/*");
      var _ := Advance();
      var _ := Advance();
      ghost var step := CommentStep(src, offset);
      ghost var breaks: seq<Token> := [];
      PrefixedNothing(step);
      assert found == old(found) + breaks;
      while !StartsAt(src, offset, "*/")
        invariant Valid()
        invariant found == old(found) + breaks
        invariant step == Prefixed(breaks, CommentStep(src, offset))
        decreases |src| - offset
      {
        CommentUnfolds(src, offset);
        PrefixedEnd(breaks, offset);
        if offset == |src| {
          return Some(UnterminatedComment);
        }
        if StartsAt(src, offset, "/*") {
          return Some(NestedComment);
        }
        if src[offset] == '\n' {
          ConsToken(breaks, Token(Newline, offset, offset + 1), CommentStep(src, offset + 1));
          breaks := breaks + [Token(Newline, offset, offset + 1)];
          NewlineToken();
        } else if src[offset] == '\r' {
          if !(offset + 1 < |src| && src[offset + 1] == '\n') {
            return Some(BareReturn);
          }
          var _ := Advance();
          ConsToken(breaks, Token(Newline, offset, offset + 1), CommentStep(src, offset + 1));
          breaks := breaks + [Token(Newline, offset, offset + 1)];
          NewlineToken();
        } else {
          var _ := Advance();
        }
      }
      StartsWithTwo(src, offset, "*/");
      CommentUnfolds(src, offset);
      PrefixedEnd(breaks, offset + 2);
      var _ := Advance();
      var _ := Advance();
      return None;
    }

    method StringToken() returns (e: Option<LexError>)
      requires Valid() && offset < |src| && src[offset] == '"'
      modifies this`offset, this`column, this`tokens, this`found
      ensures e.None? ==> Valid()
      ensures Follows(e, StringStep(src, old(offset)), offset, old(found), found)
    {
      hide PlaceAll;
      hide LineAt;
      hide ColumnAt;
      hide StringEnd;
      hide StringValue;
      var start := Position(offset, line, column);
      var _ := Advance();
      var value: string := [];
      assert [] + StringValue(src, offset) == StringValue(src, offset);
      while true
        invariant Valid() && start.offset < offset && found == old(found) && start == At(src, start.offset)
        invariant StringEnd(src, start.offset + 1) == StringEnd(src, offset)
        invariant StringValue(src, start.offset + 1) == value + StringValue(src, offset)
        decreases |src| - offset
      {
        StringUnfolds(src, offset, value);
        if offset == |src| {
          return Some(UnterminatedString);
        }
        if src[offset] == '\n' || src[offset] == '\r' {
          return Some(BreakInString);
        }
        if src[offset] == '"' {
          assert value + [] == value;
          var _ := Advance();
          PushToken(StringLiteral(value), start);
          return None;
        }
        if src[offset] == '\\' {
          var _ := Advance();
          var escaped := Advance();
          if escaped !in {Some('"'), Some('\\')} {
            return Some(BadEscape);
          }
          value := value + [escaped.value];
        } else if IsControl(src[offset]) {
          return Some(ControlInString);
        } else {
          value := value + [src[offset]];
          var _ := Advance();
        }
      }
    }

    method NumberToken() returns (e: Option<LexError>)
      requires Valid() && offset < |src| && IsDigit(src[offset])
      modifies this`offset, this`column, this`tokens, this`found
      ensures Valid()
      ensures Follows(e, NumberStep(src, old(offset)), offset, old(found), found)
    {
      hide ValidNumber;
      var start := Position(offset, line, column);
      SkipWhile(InLexedNumber);
      var text := src[start.offset..offset];
      if !ValidNumber(text) {
        return Some(MalformedNumber);
      }
      PushToken(if '.' in text then Float else Integer, start);
      return None;
    }

    method WordToken()
      requires Valid() && offset < |src| && IsWordStart(src[offset])
      modifies this`offset, this`column, this`tokens, this`found
      ensures Valid()
      ensures Follows(None, WordStep(words, src, old(offset)), offset, old(found), found)
    {
      var start := Position(offset, line, column);
      SkipWhile(InWord);
      PushToken(WordKind(words, src[start.offset..offset]), start);
    }

    method SymbolToken() returns (e: Option<LexError>)
      requires Valid() && offset < |src|
      modifies this`offset, this`column, this`tokens, this`found
      ensures Valid()
      ensures e.Some? <==> SymbolAt(src, old(offset)).None?
      ensures e.Some? ==> e.value == UnknownCharacter
      ensures e.None? ==>
                var (symbol, width) := SymbolAt(src, old(offset)).value;
                && offset == old(offset) + width
                && found == old(found) + [Token(Operator(symbol), old(offset), old(offset) + width)]
    {
      hide SymbolAt;
      var start := Position(offset, line, column);
      var longest := SymbolAt(src, offset);
      if longest.None? {
        return Some(UnknownCharacter);
      }
      SymbolChars(src, offset);
      var (symbol, width) := longest.value;
      for k := 0 to width
        invariant Valid() && offset == start.offset + k && found == old(found) && start == At(src, start.offset)
      {
        var _ := Advance();
      }
      PushToken(Operator(symbol), start);
      return None;
    }

    method Step() returns (e: Option<LexError>)
      requires Valid() && offset < |src|
      modifies this
      ensures e.None? ==> Valid()
      ensures Follows(e, LexStep(words, src, old(offset)), offset, old(found), found)
    {
      hide SymbolAt;
      hide CommentStep;
      hide StringEnd;
      hide NumberStep;
      var c := src[offset];
      if c == ' ' || c == '\t' {
        var _ := Advance();
        return None;
      } else if c == '\n' {
        NewlineToken();
        return None;
      } else if c == '\r' {
        if !(offset + 1 < |src| && src[offset + 1] == '\n') {
          return Some(BareReturn);
        }
        var _ := Advance();
        NewlineToken();
        return None;
      } else if StartsAt(src, offset, "//") {
        SkipWhile(InLineComment);
        return None;
      } else if StartsAt(src, offset, "/*") {
        e := BlockComment();
      } else if c == '"' {
        e := StringToken();
      } else if IsDigit(c) {
        e := NumberToken();
      } else if c == '.' && offset + 1 < |src| && IsDigit(src[offset + 1]) {
        return Some(LeadingDot);
      } else if IsWordStart(c) {
        WordToken();
        return None;
      } else {
        e := SymbolToken();
      }
    }

    method Run() returns (r: Result<seq<Placed>, LexError>)
      requires Valid() && offset == 0 && found == []
      modifies this
      ensures r == PlacedLex(words, src)
    {
      hide LexStep;
      hide LexFrom;
      hide Push;
      hide PlaceAll;
      hide PlacedLex;
      PushNothing(words, src);
      while offset < |src|
        invariant Valid()
        invariant LexFrom(words, src, 0) == Push(found, LexFrom(words, src, offset))
        decreases |src| - offset
      {
        RunStep(words, src, offset, found);
        var e := Step();
        if e.Some? {
          FailedRun(words, src, e.value);
          return Failure(e.value);
        }
      }
      RunEnds(words, src, found);
      if tokens != [] && tokens[|tokens| - 1].kind != Newline {
        PushToken(Newline, Position(offset, line, column));
      }
      PushToken(Eof, Position(offset, line, column));
      return Success(tokens);
    }
  }
}
