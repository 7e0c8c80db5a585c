/** The lexer of the compiler: an object that walks the source, keeping its
    offset, line and column, and pushing tokens. */
module Lexer {
  import opened Wrappers
  import opened Chars
  import opened SourceText

  datatype Symbol =
    | Assign | NotEqual | Less | LessEqual | Greater | GreaterEqual
    | Plus | Minus | Star | Power | Slash | Percent
    | PlusAssign | MinusAssign | Increment | Decrement | StarAssign | PowerAssign | SlashAssign | PercentAssign
    | LeftParen | RightParen | LeftBracket | RightBracket | Comma | Colon | Dot

  datatype Kind =
    | Identifier | Integer | Float | StringLiteral(value: string) | Keyword | Special
    | Operator(symbol: Symbol) | Newline | Eof

  datatype LexError =
    | BareReturn | LeadingDot | UnterminatedComment | NestedComment | UnterminatedString | BreakInString
    | BadEscape | ControlInString | MalformedNumber | UnknownCharacter

  /** A token by its offsets. */
  datatype Token = Token(kind: Kind, start: nat, end: nat)

  datatype Step = Fail(error: LexError) | Go(next: nat, tokens: seq<Token>)

  predicate InText(src: string, tokens: seq<Token>) {
    forall t <- tokens :: t.start <= t.end <= |src|
  }

  /** The words that are keywords, and those that are special float literals. */
  datatype Words = Words(reserved: set<string>, special: set<string>)

  // ----- comments and strings -----------------------------------------------------------------

  /** From inside a block comment to just past its end, with the line breaks in it. */
  function CommentStep(src: string, i: nat): (r: Step)
    requires i <= |src|
    ensures r.Go? ==> i < r.next <= |src| && InText(src, r.tokens)
    ensures r.Fail? ==> r.error in {UnterminatedComment, NestedComment, BareReturn}
    decreases |src| - i
  {
    if StartsAt(src, i, "*/") then Go(i + 2, [])
    else if i == |src| then Fail(UnterminatedComment)
    else if StartsAt(src, i, "/*") then Fail(NestedComment)
    else if src[i] == '\n' then Cons(Token(Newline, i, i + 1), CommentStep(src, i + 1))
    else if src[i] == '\r' then
      if i + 1 < |src| && src[i + 1] == '\n'
      then Cons(Token(Newline, i + 1, i + 2), CommentStep(src, i + 2))
      else Fail(BareReturn)
    else CommentStep(src, i + 1)
  }

  function Cons(token: Token, r: Step): Step {
    if r.Go? then Go(r.next, [token] + r.tokens) else r
  }

  /** From inside a string literal to just past its closing quote. */
  function StringEnd(src: string, i: nat): (r: Result<nat, LexError>)
    requires i <= |src|
    ensures r.Success? ==> i < r.value <= |src|
    ensures r.Failure? ==> r.error in {UnterminatedString, BreakInString, BadEscape, ControlInString}
    decreases |src| - i
  {
    if i == |src| then Failure(UnterminatedString)
    else if src[i] == '\n' || src[i] == '\r' then Failure(BreakInString)
    else if src[i] == '"' then Success(i + 1)
    else if src[i] == '\\' then
      if i + 1 < |src| && src[i + 1] in {'"', '\\'} then StringEnd(src, i + 2) else Failure(BadEscape)
    else if IsControl(src[i]) then Failure(ControlInString)
    else StringEnd(src, i + 1)
  }

  /** The characters of a string literal from inside it to its closing quote, read
      through their escapes; up to the first defect if it has one. */
  function StringValue(src: string, i: nat): string
    decreases |src| - i
  {
    if i >= |src| || src[i] == '"' then []
    else if src[i] == '\\' then
      if i + 1 < |src| && src[i + 1] in {'"', '\\'} then [src[i + 1]] + StringValue(src, i + 2) else []
    else [src[i]] + StringValue(src, i + 1)
  }

  /** One turn inside a string, with what `value` has collected. */
  lemma StringUnfolds(src: string, i: nat, value: string)
    requires i <= |src|
    ensures StringEnd(src, i) ==
            if i == |src| then Failure(UnterminatedString)
            else if src[i] == '\n' || src[i] == '\r' then Failure(BreakInString)
            else if src[i] == '"' then Success(i + 1)
            else if src[i] == '\\' then
              if i + 1 < |src| && src[i + 1] in {'"', '\\'} then StringEnd(src, i + 2) else Failure(BadEscape)
            else if IsControl(src[i]) then Failure(ControlInString)
            else StringEnd(src, i + 1)
    ensures i < |src| && src[i] == '"' ==> value + StringValue(src, i) == value
    ensures i + 1 < |src| && src[i] == '\\' && src[i + 1] in {'"', '\\'} ==>
              value + StringValue(src, i) == value + [src[i + 1]] + StringValue(src, i + 2)
    ensures i < |src| && src[i] !in {'"', '\\'} ==>
              value + StringValue(src, i) == value + [src[i]] + StringValue(src, i + 1)
  {
  }

  /** The literal whose opening quote is at `i`. */
  function StringStep(src: string, i: nat): (r: Step)
    requires i < |src|
    ensures r.Go? ==> i < r.next <= |src| && InText(src, r.tokens)
  {
    var end := StringEnd(src, i + 1);
    if end.Failure? then Fail(end.error)
    else Go(end.value, [Token(StringLiteral(StringValue(src, i + 1)), i, end.value)])
  }

  // ----- numbers ------------------------------------------------------------------------------

  predicate IsHexDigit(c: char) { IsDigit(c) || 'a' <= c <= 'f' || 'A' <= c <= 'F' }

  function Dots(text: string): nat {
    if text == [] then 0 else Dots(text[1..]) + if text[0] == '.' then 1 else 0
  }

  predicate IsDecimal(text: string) {
    && (forall c <- text :: IsDigit(c) || c == '.')
    && (exists c <- text :: IsDigit(c))
    && Dots(text) <= 1
  }

  predicate ValidNumber(text: string) {
    || (|text| > 2 && text[..2] == "0b" && forall c <- text[2..] :: c == '0' || c == '1')
    || (|text| > 2 && text[..2] == "0x" && forall c <- text[2..] :: IsHexDigit(c))
    || (text != [] && IsDecimal(text) && text[|text| - 1] != '.')
  }

  // ----- one step ---------------------------------------------------------------------------------

  /** The longest symbol at an offset, with its width. */
  function SymbolAt(src: string, i: nat): Option<(Symbol, nat)>
    requires i < |src|
  {
    if StartsAt(src, i, "**=") then Some((PowerAssign, 3))
    else if StartsAt(src, i, "**") then Some((Power, 2))
    else if StartsAt(src, i, "+=") then Some((PlusAssign, 2))
    else if StartsAt(src, i, "-=") then Some((MinusAssign, 2))
    else if StartsAt(src, i, "++") then Some((Increment, 2))
    else if StartsAt(src, i, "--") then Some((Decrement, 2))
    else if StartsAt(src, i, "*=") then Some((StarAssign, 2))
    else if StartsAt(src, i, "/=") then Some((SlashAssign, 2))
    else if StartsAt(src, i, "%=") then Some((PercentAssign, 2))
    else if StartsAt(src, i, "<=") then Some((LessEqual, 2))
    else if StartsAt(src, i, ">=") then Some((GreaterEqual, 2))
    else if StartsAt(src, i, "<>") then Some((NotEqual, 2))
    else match src[i]
      case '=' => Some((Assign, 1))
      case '+' => Some((Plus, 1))
      case '-' => Some((Minus, 1))
      case '*' => Some((Star, 1))
      case '/' => Some((Slash, 1))
      case '%' => Some((Percent, 1))
      case '<' => Some((Less, 1))
      case '>' => Some((Greater, 1))
      case '(' => Some((LeftParen, 1))
      case ')' => Some((RightParen, 1))
      case '[' => Some((LeftBracket, 1))
      case ']' => Some((RightBracket, 1))
      case ',' => Some((Comma, 1))
      case ':' => Some((Colon, 1))
      case '.' => Some((Dot, 1))
      case _ => None
  }

  function Spelling(symbol: Symbol): (r: string)
    ensures 1 <= |r| <= 3
  {
    match symbol
    case PowerAssign => "**=" case Power => "**" case StarAssign => "*=" case Star => "*"
    case PlusAssign => "+=" case Increment => "++" case Plus => "+"
    case MinusAssign => "-=" case Decrement => "--" case Minus => "-"
    case SlashAssign => "/=" case Slash => "/"
    case PercentAssign => "%=" case Percent => "%"
    case LessEqual => "<=" case NotEqual => "<>" case Less => "<"
    case GreaterEqual => ">=" case Greater => ">" case Assign => "="
    case LeftParen => "(" case RightParen => ")" case LeftBracket => "[" case RightBracket => "]"
    case Comma => "," case Colon => ":" case Dot => "."
  }

  lemma ShortTexts(src: string, i: nat)
    requires i < |src|
    ensures StartsAt(src, i, "**=") <==> i + 2 < |src| && src[i] == src[i + 1] == '*' && src[i + 2] == '='
    ensures forall t: string | |t| == 2 ::
              StartsAt(src, i, t) <==> i + 1 < |src| && src[i] == t[0] && src[i + 1] == t[1]
    ensures forall t: string | |t| == 1 :: StartsAt(src, i, t) <==> src[i] == t[0]
  {
    hide StartsAt;
    StartsWithThree(src, i, "**=");
    forall t: string | |t| == 2
      ensures StartsAt(src, i, t) <==> i + 1 < |src| && src[i] == t[0] && src[i + 1] == t[1]
    {
      StartsWithTwo(src, i, t);
    }
    forall t: string | |t| == 1 ensures StartsAt(src, i, t) <==> src[i] == t[0] {
      StartsWithOne(src, i, t);
    }
  }

  /** The symbol found is spelled in the text, with its own width. */
  lemma SymbolIsSpelled(src: string, i: nat)
    requires i < |src| && SymbolAt(src, i).Some?
    ensures var (symbol, width) := SymbolAt(src, i).value;
            width == |Spelling(symbol)| && StartsAt(src, i, Spelling(symbol))
  {
    hide StartsAt;
    ShortTexts(src, i);
  }

  /** Whatever symbol is spelled in the text, one is found, and it is that one or
      a longer one. */
  lemma SymbolIsLongest(src: string, i: nat, other: Symbol)
    requires i < |src| && StartsAt(src, i, Spelling(other))
    ensures SymbolAt(src, i).Some?
    ensures var (symbol, width) := SymbolAt(src, i).value;
            other == symbol || |Spelling(other)| < width
  {
    hide StartsAt;
    ShortTexts(src, i);
  }

  /** Every character of a symbol is an operator or punctuation character, and
      none but the first is a slash, quote or word character. */
  predicate IsSymbolChar(c: char) {
    c in {'=', '+', '-', '*', '/', '%', '<', '>', '(', ')', '[', ']', ',', ':', '.'}
  }

  lemma SymbolChars(src: string, i: nat)
    requires i < |src| && SymbolAt(src, i).Some?
    ensures var width := SymbolAt(src, i).value.1;
            && 1 <= width <= 3 && i + width <= |src|
            && (forall k | i <= k < i + width :: IsSymbolChar(src[k]))
            && (forall k | i < k < i + width :: src[k] in {'*', '=', '+', '-', '>'})
            && (width > 1 ==> src[i] != '.')
            && (width > 1 && src[i] == '/' ==> src[i + 1] == '=')
  {
    hide StartsAt;
    forall t: string | |t| == 2 && StartsAt(src, i, t)
      ensures i + 1 < |src| && src[i] == t[0] && src[i + 1] == t[1]
    {
      StartsWithTwo(src, i, t);
    }
    if StartsAt(src, i, "**=") {
      StartsWithThree(src, i, "**=");
    }
  }

  function NumberStep(src: string, i: nat): (r: Step)
    requires i < |src| && IsDigit(src[i])
    ensures r.Go? ==> i < r.next <= |src| && InText(src, r.tokens)
  {
    var end := RunEnd(src, i, InLexedNumber);
    var text := src[i..end];
    if ValidNumber(text) then Go(end, [Token(if '.' in text then Float else Integer, i, end)])
    else Fail(MalformedNumber)
  }

  function WordKind(words: Words, text: string): Kind {
    if text in words.special then Special else if text in words.reserved then Keyword else Identifier
  }

  function WordStep(words: Words, src: string, i: nat): (r: Step)
    requires i < |src| && IsWordStart(src[i])
    ensures r.Go? && i < r.next <= |src| && InText(src, r.tokens)
  {
    var end := RunEnd(src, i, InWord);
    Go(end, [Token(WordKind(words, src[i..end]), i, end)])
  }

  function LexStep(words: Words, src: string, i: nat): (r: Step)
    requires i < |src|
    ensures r.Go? ==> i < r.next <= |src| && InText(src, r.tokens)
  {
    var c := src[i];
    if c == ' ' || c == '\t' then Go(i + 1, [])
    else if c == '\n' then Go(i + 1, [Token(Newline, i, i + 1)])
    else if c == '\r' then
      if i + 1 < |src| && src[i + 1] == '\n' then Go(i + 2, [Token(Newline, i + 1, i + 2)]) else Fail(BareReturn)
    else if StartsAt(src, i, "//") then
      Go(RunEnd(src, i, InLineComment), [])
    else if StartsAt(src, i, "/*") then CommentStep(src, i + 2)
    else if c == '"' then StringStep(src, i)
    else if IsDigit(c) then NumberStep(src, i)
    else if c == '.' && i + 1 < |src| && IsDigit(src[i + 1]) then Fail(LeadingDot)
    else if IsWordStart(c) then WordStep(words, src, i)
    else
      var symbol := SymbolAt(src, i);
      if symbol.None? then Fail(UnknownCharacter)
      else
        SymbolChars(src, i);
        Go(i + symbol.value.1, [Token(Operator(symbol.value.0), i, i + symbol.value.1)])
  }

  type Lexed = Result<seq<Token>, LexError>

  function Push(tokens: seq<Token>, r: Lexed): Lexed {
    if r.Success? then Success(tokens + r.value) else r
  }

  /** The tokens from an offset on, before the closing `Newline` and `Eof`. */
  function LexFrom(words: Words, src: string, i: nat): (r: Lexed)
    requires i <= |src|
    ensures r.Success? ==> InText(src, r.value)
    decreases |src| - i
  {
    if i == |src| then Success([])
    else match LexStep(words, src, i)
      case Fail(e) => Failure(e)
      case Go(next, tokens) => Push(tokens, LexFrom(words, src, next))
  }

  /** The tokens added at the end: a line break unless the tokens end in one
      already or there are none, and the end of the file. */
  function ClosingTokens(src: string, body: seq<Token>): (r: seq<Token>)
    ensures InText(src, r) && forall t <- r :: t.kind in {Newline, Eof}
  {
    (if body != [] && body[|body| - 1].kind != Newline then [Token(Newline, |src|, |src|)] else []) +
    [Token(Eof, |src|, |src|)]
  }

  function Lex(words: Words, src: string): (r: Lexed)
    ensures r.Success? ==> InText(src, r.value)
  {
    var body := LexFrom(words, src, 0);
    if body.Failure? then body else Success(body.value + ClosingTokens(src, body.value))
  }

  // ----- order ------------------------------------------------------------------------------------

  /** The tokens lie between two offsets, in order and without overlap. */
  predicate InOrder(tokens: seq<Token>, from: nat, to: nat) {
    if tokens == [] then from <= to
    else from <= tokens[0].start <= tokens[0].end && InOrder(tokens[1..], tokens[0].end, to)
  }

  lemma {:induction false} InOrderJoin(a: seq<Token>, b: seq<Token>, from: nat, middle: nat, to: nat)
    requires InOrder(a, from, middle) && InOrder(b, middle, to)
    ensures InOrder(a + b, from, to)
    decreases |a|
  {
    if a == [] {
      assert a + b == b;
      InOrderFrom(b, from, middle, to);
    } else {
      assert (a + b)[1..] == a[1..] + b;
      InOrderJoin(a[1..], b, a[0].end, middle, to);
    }
  }

  lemma InOrderFrom(tokens: seq<Token>, earlier: nat, from: nat, to: nat)
    requires earlier <= from && InOrder(tokens, from, to)
    ensures InOrder(tokens, earlier, to)
  {
  }

  lemma {:induction false} CommentInOrder(src: string, i: nat)
    requires i <= |src| && CommentStep(src, i).Go?
    ensures InOrder(CommentStep(src, i).tokens, i, CommentStep(src, i).next)
    decreases |src| - i
  {
    if !StartsAt(src, i, "*/") {
      var next := if src[i] == '\r' then i + 2 else i + 1;
      CommentInOrder(src, next);
      var rest := CommentStep(src, next);
      InOrderFrom(rest.tokens, i, next, rest.next);
      if src[i] == '\n' || src[i] == '\r' {
        var t := Token(Newline, next - 1, next);
        assert CommentStep(src, i).tokens == [t] + rest.tokens;
        assert ([t] + rest.tokens)[1..] == rest.tokens;
      }
    }
  }

  lemma StepInOrder(words: Words, src: string, i: nat)
    requires i < |src| && LexStep(words, src, i).Go?
    ensures InOrder(LexStep(words, src, i).tokens, i, LexStep(words, src, i).next)
  {
    var step := LexStep(words, src, i);
    if StartsAt(src, i, "/*") && !StartsAt(src, i, "//") {
      StartsWithTwo(src, i, "/*");
      CommentInOrder(src, i + 2);
      InOrderFrom(step.tokens, i, i + 2, step.next);
    } else {
      OneTokenInOrder(words, src, i);
    }
  }

  lemma OneTokenInOrder(words: Words, src: string, i: nat)
    requires i < |src| && LexStep(words, src, i).Go?
    requires !StartsAt(src, i, "/*") || StartsAt(src, i, "//")
    ensures var step := LexStep(words, src, i);
            |step.tokens| <= 1 && InOrder(step.tokens, i, step.next)
  {
    hide StartsAt;
    hide SymbolAt;
    hide CommentStep;
    hide StringEnd;
    hide RunEnd;
    hide ValidNumber;
  }

  lemma {:induction false} FromInOrder(words: Words, src: string, i: nat)
    requires i <= |src| && LexFrom(words, src, i).Success?
    ensures InOrder(LexFrom(words, src, i).value, i, |src|)
    decreases |src| - i
  {
    if i < |src| {
      var step := LexStep(words, src, i);
      StepInOrder(words, src, i);
      hide LexStep;
      FromInOrder(words, src, step.next);
      InOrderJoin(step.tokens, LexFrom(words, src, step.next).value, i, step.next, |src|);
    }
  }

  /** Lexed tokens follow the text in order and do not overlap; the last one is
      the end of file, at the end of the text, and a line break stands before it unless
      it is alone. */
  lemma TokensInOrder(words: Words, src: string)
    requires Lex(words, src).Success?
    ensures var tokens := Lex(words, src).value;
            var last := |tokens| - 1;
            && InOrder(tokens, 0, |src|)
            && last >= 0 && tokens[last] == Token(Eof, |src|, |src|)
            && (last > 0 ==> tokens[last - 1].kind == Newline)
  {
    FromInOrder(words, src, 0);
    var body := LexFrom(words, src, 0).value;
    hide LexFrom;
    InOrderJoin(body, ClosingTokens(src, body), 0, |src|, |src|);
  }
}
