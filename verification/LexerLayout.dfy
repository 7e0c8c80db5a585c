/** What the tokens of a source leave out and stand for: between them lie only
    blanks and comments, and a string token is the reading of its literal. */
module LexerLayout {
  import opened Wrappers
  import opened Chars
  import opened SourceText
  import opened Lexer

  // ----- string literals ----------------------------------------------------------------------

  function SpelledChar(c: char): string {
    if c in {'"', '\\'} then ['\\', c] else [c]
  }

  /** A value as it is written between quotes. */
  function Spelled(value: string): string {
    if value == [] then [] else SpelledChar(value[0]) + Spelled(value[1..])
  }

  predicate Writable(value: string) {
    forall c <- value :: !IsControl(c)
  }

  /** The text of an accepted literal is the spelling of its value. */
  lemma {:induction false} LiteralIsSpelled(src: string, i: nat)
    requires i <= |src| && StringEnd(src, i).Success?
    ensures Writable(StringValue(src, i))
    ensures src[i..StringEnd(src, i).value] == Spelled(StringValue(src, i)) + "\""
    decreases |src| - i
  {
    var end := StringEnd(src, i).value;
    if src[i] == '"' {
      assert [] + "\"" == "\"";
    } else {
      var next := FirstSpelled(src, i);
      LiteralIsSpelled(src, next);
      hide StringEnd;
      hide StringValue;
      var c, rest := StringValue(src, i)[0], StringValue(src, next);
      SpelledCons(c, rest);
      assert src[i..end] == src[i..next] + src[next..end];
    }
  }

  /** The first character of a literal's value, with its escape if it has one. */
  lemma FirstSpelled(src: string, i: nat) returns (next: nat)
    requires i <= |src| && StringEnd(src, i).Success? && src[i] != '"'
    ensures i < next <= |src| && StringEnd(src, next) == StringEnd(src, i)
    ensures var value := StringValue(src, i);
            && value != [] && value == [value[0]] + StringValue(src, next)
            && src[i..next] == SpelledChar(value[0]) && !IsControl(value[0])
  {
    hide StringEnd;
    hide StringValue;
    StringUnfolds(src, i, []);
    next := if src[i] == '\\' then i + 2 else i + 1;
    var c := src[next - 1];
    assert [] + StringValue(src, i) == StringValue(src, i) && [] + [c] == [c];
    SpelledInText(src, i, next);
  }

  lemma SpelledInText(src: string, i: nat, next: nat)
    requires i < next <= |src| && next == (if src[i] == '\\' then i + 2 else i + 1)
    requires src[next - 1] in {'"', '\\'} <==> src[i] == '\\'
    ensures src[i..next] == SpelledChar(src[next - 1])
  {
  }

  lemma SpelledCons(c: char, rest: string)
    ensures Spelled([c] + rest) + "\"" == SpelledChar(c) + (Spelled(rest) + "\"")
  {
    assert ([c] + rest)[1..] == rest;
  }

  lemma ReadsSpelledChar(src: string, i: nat, c: char)
    requires !IsControl(c) && StartsAt(src, i, SpelledChar(c))
    ensures var next := i + |SpelledChar(c)|;
            && next <= |src| && StringEnd(src, i) == StringEnd(src, next)
            && StringValue(src, i) == [c] + StringValue(src, next)
  {
    if c in {'"', '\\'} {
      StartsWithTwo(src, i, SpelledChar(c));
    } else {
      StartsWithOne(src, i, SpelledChar(c));
    }
  }

  /** The spelling of a value without control characters lexes to that value,
      wherever it stands. */
  lemma {:induction false} SpelledLexes(src: string, i: nat, value: string)
    requires Writable(value) && StartsAt(src, i, Spelled(value) + "\"")
    ensures i <= |src| && StringEnd(src, i) == Success(i + |Spelled(value)| + 1)
    ensures StringValue(src, i) == value
    decreases |value|
  {
    hide StartsAt;
    hide SpelledChar;
    if value == [] {
      assert [] + "\"" == "\"";
      StartsWithOne(src, i, "\"");
    } else {
      var c, rest := value[0], value[1..];
      assert value == [c] + rest && c in value;
      SpelledCons(c, rest);
      StartsInTwo(src, i, SpelledChar(c), Spelled(rest) + "\"");
      hide StringEnd;
      hide StringValue;
      ReadsSpelledChar(src, i, c);
      SpelledLexes(src, i + |SpelledChar(c)|, rest);
    }
  }

  lemma StartsInTwo(src: string, i: nat, head: string, tail: string)
    requires StartsAt(src, i, head + tail)
    ensures StartsAt(src, i, head) && StartsAt(src, i + |head|, tail)
  {
    var text := head + tail;
    assert text[..|head|] == head && text[|head|..] == tail;
  }

  // ----- comments -----------------------------------------------------------------------------

  /** The first `*` `/` from `i` on is at `e`. */
  predicate EndsFirst(src: string, i: nat, e: nat) {
    i <= e && e + 2 <= |src| && StartsAt(src, e, "*/") && forall k | i <= k < e :: !StartsAt(src, k, "*/")
  }

  function LineBreaks(src: string, i: nat, j: nat): seq<Token>
    requires i <= j <= |src|
    decreases j - i
  {
    if i == j then []
    else (if src[i] == '\n' then [Token(Newline, i, i + 1)] else []) + LineBreaks(src, i + 1, j)
  }

  predicate Unnested(src: string, i: nat, e: nat) {
    forall k | i <= k < e :: !StartsAt(src, k, "/*")
  }

  lemma LineBreaksStep(src: string, i: nat, j: nat)
    requires i < j <= |src|
    ensures LineBreaks(src, i, j) ==
            if src[i] == '\n' then [Token(Newline, i, i + 1)] + LineBreaks(src, i + 1, j) else LineBreaks(src, i + 1, j)
  {
    assert [] + LineBreaks(src, i + 1, j) == LineBreaks(src, i + 1, j);
  }

  /** A block comment ends at its first end mark, is not nested, and gives one
      token for each of its line breaks. */
  lemma {:induction false} CommentIs(src: string, i: nat)
    requires i <= |src| && CommentStep(src, i).Go?
    ensures var step := CommentStep(src, i);
            && i + 2 <= step.next <= |src|
            && EndsFirst(src, i, step.next - 2) && Unnested(src, i, step.next - 2)
            && step.tokens == LineBreaks(src, i, step.next - 2)
    decreases |src| - i
  {
    hide StartsAt;
    hide LineBreaks;
    hide EndsFirst;
    hide Unnested;
    StartsWithTwo(src, i, "*/");
    StartsWithTwo(src, i, "/*");
    var e := CommentStep(src, i).next - 2;
    if StartsAt(src, i, "*/") {
      EndsHere(src, i);
    } else if src[i] == '\r' {
      StartsWithTwo(src, i + 1, "*/");
      StartsWithTwo(src, i + 1, "/*");
      CommentIs(src, i + 2);
      EndsLater(src, i + 1, e);
      EndsLater(src, i, e);
      LineBreaksStep(src, i, e);
      LineBreaksStep(src, i + 1, e);
    } else {
      CommentIs(src, i + 1);
      EndsLater(src, i, e);
      LineBreaksStep(src, i, e);
    }
  }

  lemma EndsHere(src: string, i: nat)
    requires i + 2 <= |src| && StartsAt(src, i, "*/")
    ensures EndsFirst(src, i, i) && Unnested(src, i, i) && LineBreaks(src, i, i) == []
  {
  }

  lemma EndsLater(src: string, i: nat, e: nat)
    requires EndsFirst(src, i + 1, e) && Unnested(src, i + 1, e)
    requires !StartsAt(src, i, "*/") && !StartsAt(src, i, "/*")
    ensures EndsFirst(src, i, e) && Unnested(src, i, e)
  {
    hide StartsAt;
  }

  // ----- the whole text -------------------------------------------------------------------------

  /** From `i` on, the text is the tokens in order and, between them, blanks, the
      first half of line breaks, and comments; a block comment gives its line breaks. */
  ghost predicate Laid(src: string, tokens: seq<Token>, i: nat)
    decreases |src| - i
  {
    if i >= |src| then i == |src| && tokens == []
    else if src[i] in {' ', '\t'} then Laid(src, tokens, i + 1)
    else if src[i] == '\r' then i + 1 < |src| && src[i + 1] == '\n' && Laid(src, tokens, i + 1)
    else if StartsAt(src, i, "//") then
      var e := RunEnd(src, i, InLineComment);
      i < e && Laid(src, tokens, e)
    else if StartsAt(src, i, "/*") then
      exists e :: EndsFirst(src, i + 2, e) && LaidPast(src, tokens, i, e)
    else
      && tokens != [] && i == tokens[0].start < tokens[0].end
      && Laid(src, tokens[1..], tokens[0].end)
  }

  ghost predicate LaidPast(src: string, tokens: seq<Token>, i: nat, e: nat)
    requires i < e && e + 2 <= |src|
    decreases |src| - i, 0
  {
    var breaks := LineBreaks(src, i, e);
    breaks <= tokens && Laid(src, tokens[|breaks|..], e + 2)
  }

  lemma {:induction false} FromIsLaid(words: Words, src: string, i: nat)
    requires i <= |src| && LexFrom(words, src, i).Success?
    ensures Laid(src, LexFrom(words, src, i).value, i)
    decreases |src| - i
  {
    if i < |src| {
      var step := LexStep(words, src, i);
      FromIsLaid(words, src, step.next);
      var rest := LexFrom(words, src, step.next).value;
      assert LexFrom(words, src, i).value == step.tokens + rest;
      hide LexFrom;
      StepIsLaid(words, src, i, rest);
    }
  }

  lemma StepIsLaid(words: Words, src: string, i: nat, rest: seq<Token>)
    requires i < |src| && LexStep(words, src, i).Go? && Laid(src, rest, LexStep(words, src, i).next)
    ensures Laid(src, LexStep(words, src, i).tokens + rest, i)
  {
    var step := LexStep(words, src, i);
    if StartsAt(src, i, "/*") && !StartsAt(src, i, "//") {
      CommentLexes(words, src, i);
      CommentIsLaid(src, i, rest);
    } else if step.tokens == [] {
      assert [] + rest == rest;
      NothingIsLaid(words, src, i, rest);
    } else {
      TokenIsLaid(words, src, i, rest);
    }
  }

  lemma CommentIsLaid(src: string, i: nat, rest: seq<Token>)
    requires i + 1 < |src| && src[i] == '/' && src[i + 1] == '*' && StartsAt(src, i, "/*") && !StartsAt(src, i, "//")
    requires CommentStep(src, i + 2).Go? && Laid(src, rest, CommentStep(src, i + 2).next)
    ensures Laid(src, CommentStep(src, i + 2).tokens + rest, i)
  {
    hide Laid;
    hide CommentStep;
    hide StartsAt;
    hide EndsFirst;
    hide Unnested;
    CommentIs(src, i + 2);
    var step := CommentStep(src, i + 2);
    var e := step.next - 2;
    LineBreaksStep(src, i, e);
    LineBreaksStep(src, i + 1, e);
    hide LineBreaks;
    assert (step.tokens + rest)[|step.tokens|..] == rest;
    LaidComment(src, step.tokens + rest, i, e);
  }

  lemma CommentLexes(words: Words, src: string, i: nat)
    requires i < |src| && StartsAt(src, i, "/*") && !StartsAt(src, i, "//")
    ensures i + 1 < |src| && src[i] == '/' && src[i + 1] == '*'
    ensures LexStep(words, src, i) == CommentStep(src, i + 2)
  {
    hide CommentStep;
    StartsWithTwo(src, i, "/*");
  }

  lemma LaidComment(src: string, tokens: seq<Token>, i: nat, e: nat)
    requires i < |src| && src[i] == '/' && StartsAt(src, i, "/*") && !StartsAt(src, i, "//")
    requires i <= e && e + 2 <= |src| && EndsFirst(src, i + 2, e) && LaidPast(src, tokens, i, e)
    ensures Laid(src, tokens, i)
  {
    hide StartsAt;
    hide LineBreaks;
    hide LaidPast;
  }

  lemma NothingIsLaid(words: Words, src: string, i: nat, rest: seq<Token>)
    requires i < |src| && LexStep(words, src, i).Go? && LexStep(words, src, i).tokens == []
    requires !StartsAt(src, i, "/*") || StartsAt(src, i, "//")
    requires Laid(src, rest, LexStep(words, src, i).next)
    ensures Laid(src, rest, i)
  {
    hide SymbolAt;
    hide CommentStep;
    hide StringEnd;
    hide ValidNumber;
    StartsWithTwo(src, i, "//");
  }

  lemma TokenIsLaid(words: Words, src: string, i: nat, rest: seq<Token>)
    requires i < |src| && LexStep(words, src, i).Go? && LexStep(words, src, i).tokens != []
    requires !StartsAt(src, i, "/*") || StartsAt(src, i, "//")
    requires Laid(src, rest, LexStep(words, src, i).next)
    ensures Laid(src, LexStep(words, src, i).tokens + rest, i)
  {
    hide CommentStep;
    hide StringEnd;
    hide ValidNumber;
    hide SymbolAt;
    OneTokenInOrder(words, src, i);
    StartsWithTwo(src, i, "//");
    StartsWithTwo(src, i, "/*");
    StartsWithTwo(src, i + 1, "//");
    StartsWithTwo(src, i + 1, "/*");
    var step := LexStep(words, src, i);
    var t := step.tokens[0];
    assert step.tokens + rest == [t] + rest && ([t] + rest)[1..] == rest;
  }

  /** An accepted source is its tokens, in order, and nothing else but blanks and
      comments, before the line break and end of file that close it. */
  lemma TextIsTokens(words: Words, src: string) returns (body: seq<Token>)
    requires Lex(words, src).Success?
    ensures Laid(src, body, 0) && Lex(words, src).value == body + ClosingTokens(src, body)
  {
    body := LexFrom(words, src, 0).value;
    FromIsLaid(words, src, 0);
  }

  // ----- what a string literal may not hold ------------------------------------------------------

  lemma {:induction false} SpelledIsRead(src: string, i: nat, value: string)
    requires Writable(value) && StartsAt(src, i, Spelled(value))
    ensures i + |Spelled(value)| <= |src| && StringEnd(src, i) == StringEnd(src, i + |Spelled(value)|)
    decreases |value|
  {
    hide StartsAt;
    hide StringEnd;
    hide StringValue;
    hide SpelledChar;
    if value == [] {
      StartsInside(src, i, Spelled(value));
    } else {
      var c, rest := value[0], value[1..];
      assert value == [c] + rest && c in value && Spelled(value) == SpelledChar(c) + Spelled(rest);
      StartsInTwo(src, i, SpelledChar(c), Spelled(rest));
      ReadsSpelledChar(src, i, c);
      SpelledIsRead(src, i + |SpelledChar(c)|, rest);
    }
  }

  lemma StartsInside(src: string, i: nat, text: string)
    requires StartsAt(src, i, text)
    ensures i + |text| <= |src|
  {
  }

  /** After any spelled characters a string fails at a line break, at another control
      character, at a backslash that escapes neither itself nor a quote, and at the
      end of the text. */
  lemma StringsFail(src: string, i: nat, value: string)
    requires Writable(value) && StartsAt(src, i, Spelled(value))
    ensures var at := i + |Spelled(value)|;
            && at <= |src|
            && (at == |src| ==> StringEnd(src, i) == Failure(UnterminatedString))
            && (at < |src| && src[at] in {'\n', '\r'} ==> StringEnd(src, i) == Failure(BreakInString))
            && (at < |src| && IsControl(src[at]) && src[at] !in {'\n', '\r'} ==>
                  StringEnd(src, i) == Failure(ControlInString))
            && (at < |src| && src[at] == '\\' && (at + 1 == |src| || src[at + 1] !in {'"', '\\'}) ==>
                  StringEnd(src, i) == Failure(BadEscape))
  {
    SpelledIsRead(src, i, value);
  }

  // ----- numbers and words -------------------------------------------------------------------------

  predicate Digits(s: string) {
    s != [] && forall c <- s :: IsDigit(c)
  }

  /** `0b` or `0x` and digits of that base, or decimal digits. */
  predicate WholeNumber(text: string) {
    || (|text| > 2 && text[..2] == "0b" && forall c <- text[2..] :: c in {'0', '1'})
    || (|text| > 2 && text[..2] == "0x" &&
        forall c <- text[2..] :: '0' <= c <= '9' || 'a' <= c <= 'f' || 'A' <= c <= 'F')
    || Digits(text)
  }

  ghost predicate DecimalFraction(text: string) {
    exists k | 0 < k < |text| - 1 :: text[k] == '.' && Digits(text[..k]) && Digits(text[k + 1..])
  }

  lemma {:induction false} DotsOf(text: string)
    ensures Dots(text) == 0 <==> '.' !in text
    ensures Dots(text) == 1 ==>
              exists k | 0 <= k < |text| :: text[k] == '.' && '.' !in text[..k] && '.' !in text[k + 1..]
    decreases |text|
  {
    if text != [] {
      var rest := text[1..];
      DotsOf(rest);
      assert text == [text[0]] + rest;
      if text[0] == '.' {
        assert '.' !in text[..0];
      } else if Dots(rest) == 1 {
        var k :| 0 <= k < |rest| && rest[k] == '.' && '.' !in rest[..k] && '.' !in rest[k + 1..];
        assert text[k + 1] == '.' && text[..k + 1] == [text[0]] + rest[..k] && text[k + 2..] == rest[k + 1..];
      }
    }
  }

  lemma {:induction false} DotsJoin(a: string, b: string)
    ensures Dots(a + b) == Dots(a) + Dots(b)
    decreases |a|
  {
    if a == [] {
      assert a + b == b;
    } else {
      DotsJoin(a[1..], b);
      assert (a + b)[1..] == a[1..] + b;
    }
  }

  /** A number is whole, or decimal digits, a point and decimal digits. */
  lemma NumbersAre(text: string)
    requires text != [] && IsDigit(text[0])
    ensures ValidNumber(text) <==> WholeNumber(text) || DecimalFraction(text)
    ensures WholeNumber(text) ==> '.' !in text
    ensures DecimalFraction(text) ==> '.' in text
  {
    DotsOf(text);
    if IsDecimal(text) && text[|text| - 1] != '.' {
      DecimalIs(text);
    }
    if DecimalFraction(text) {
      FractionIsDecimal(text);
    }
    if Digits(text) {
      assert text[0] in text;
    }
    if |text| > 2 && (text[..2] == "0b" || text[..2] == "0x") {
      assert text == text[..2] + text[2..];
    }
  }

  lemma DecimalIs(text: string)
    requires text != [] && IsDigit(text[0]) && IsDecimal(text) && text[|text| - 1] != '.'
    ensures Digits(text) || DecimalFraction(text)
  {
    DotsOf(text);
    if Dots(text) == 1 {
      var k :| 0 <= k < |text| && text[k] == '.' && '.' !in text[..k] && '.' !in text[k + 1..];
      assert text == text[..k] + [text[k]] + text[k + 1..];
      assert Digits(text[..k]) && Digits(text[k + 1..]);
    }
  }

  lemma FractionIsDecimal(text: string)
    requires DecimalFraction(text)
    ensures IsDecimal(text) && text[|text| - 1] != '.' && '.' in text
  {
    var k :| 0 < k < |text| - 1 && text[k] == '.' && Digits(text[..k]) && Digits(text[k + 1..]);
    var whole, fraction := text[..k], text[k + 1..];
    assert text == whole + "." + fraction;
    DotsOf(whole);
    DotsOf(fraction);
    DotsJoin(whole + ".", fraction);
    DotsJoin(whole, ".");
    assert Dots(".") == 1 by {
      assert "."[1..] == "";
    }
    assert whole[0] in whole && fraction[|fraction| - 1] in fraction;
    assert whole[0] in text;
  }

  /** The token of a run of number characters, whole or with a point, or an error;
      and the token of a word, by the two word lists. */
  lemma LiteralKinds(words: Words, src: string, i: nat)
    requires i < |src|
    ensures IsDigit(src[i]) ==>
              var end := RunEnd(src, i, InLexedNumber);
              var text := src[i..end];
              LexStep(words, src, i) ==
                if WholeNumber(text) then Go(end, [Token(Integer, i, end)])
                else if DecimalFraction(text) then Go(end, [Token(Float, i, end)])
                else Fail(MalformedNumber)
    ensures IsWordStart(src[i]) ==>
              var end := RunEnd(src, i, InWord);
              var text := src[i..end];
              && (text in words.special ==> LexStep(words, src, i) == Go(end, [Token(Special, i, end)]))
              && (text in words.reserved - words.special ==>
                    LexStep(words, src, i) == Go(end, [Token(Keyword, i, end)]))
              && (text !in words.special && text !in words.reserved ==>
                    LexStep(words, src, i) == Go(end, [Token(Identifier, i, end)]))
  {
    StartsWithTwo(src, i, "//");
    StartsWithTwo(src, i, "/*");
    hide CommentStep;
    hide StringEnd;
    hide SymbolAt;
    if IsDigit(src[i]) {
      var end := RunEnd(src, i, InLexedNumber);
      assert end > i && src[i..end][0] == src[i];
      NumbersAre(src[i..end]);
      hide ValidNumber;
      hide WholeNumber;
      hide DecimalFraction;
    }
  }

  /** What no token starts with: a carriage return without a line feed, a point before
      a digit, and any character that is neither blank, quote, digit, letter nor
      underscore and spells no symbol. */
  lemma StepsFail(words: Words, src: string, i: nat)
    requires i < |src|
    ensures src[i] == '\r' && !(i + 1 < |src| && src[i + 1] == '\n') ==> LexStep(words, src, i) == Fail(BareReturn)
    ensures src[i] == '.' && i + 1 < |src| && '0' <= src[i + 1] <= '9' ==> LexStep(words, src, i) == Fail(LeadingDot)
    ensures src[i] !in {' ', '\t', '\n', '\r', '"', '_'} && !('0' <= src[i] <= '9')
              && !('a' <= src[i] <= 'z') && !('A' <= src[i] <= 'Z')
              && (forall s: Symbol :: !StartsAt(src, i, Spelling(s))) ==>
              LexStep(words, src, i) == Fail(UnknownCharacter)
  {
    StartsWithTwo(src, i, "//");
    StartsWithTwo(src, i, "/*");
    if forall s: Symbol :: !StartsAt(src, i, Spelling(s)) {
      NoSymbolThere(src, i);
    }
    hide StartsAt;
    hide CommentStep;
    hide SymbolAt;
    hide Spelling;
  }

  lemma NoSymbolThere(src: string, i: nat)
    requires i < |src| && forall s: Symbol :: !StartsAt(src, i, Spelling(s))
    ensures SymbolAt(src, i).None? && src[i] != '/'
  {
    if SymbolAt(src, i).Some? {
      SymbolIsSpelled(src, i);
    }
    hide SymbolAt;
    StartsWithOne(src, i, "/");
    assert Spelling(Slash) == "/";
    hide StartsAt;
  }
}
