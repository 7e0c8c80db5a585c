/** The lexer and the classifying scanner are written separately; on every
    source the lexer accepts they mark the same words, numbers and strings at
    the same offsets, lines and columns. */
module ScannerAgreement {
  import opened Wrappers
  import opened Chars
  import opened SourceText
  import L = Lexer
  import C = Classifier

  datatype Class = Word | Number | String

  datatype Mark = Mark(class_: Class, offset: nat, length: nat, line: nat, column: nat)

  // ----- the marks of each scanner -------------------------------------------------------------

  function LexClass(kind: L.Kind): Option<Class> {
    match kind
    case Identifier => Some(Word)
    case Keyword => Some(Word)
    case Special => Some(Word)
    case Integer => Some(Number)
    case Float => Some(Number)
    case StringLiteral(_) => Some(String)
    case _ => None
  }

  function LexMark(src: string, t: L.Token): seq<Mark>
    requires t.start <= t.end <= |src|
  {
    match LexClass(t.kind)
    case None => []
    case Some(class_) => [Mark(class_, t.start, t.end - t.start, LineAt(src, t.start), ColumnAt(src, t.start))]
  }

  function LexMarks(src: string, tokens: seq<L.Token>): seq<Mark>
    requires L.InText(src, tokens)
  {
    if tokens == [] then [] else LexMark(src, tokens[0]) + LexMarks(src, tokens[1..])
  }

  function ScanClass(kind: C.Kind): Option<Class> {
    match kind
    case Keyword => Some(Word)
    case Identifier => Some(Word)
    case Special => Some(Word)
    case Number => Some(Class.Number)
    case String => Some(Class.String)
    case _ => None
  }

  function ScanMark(t: C.Token): seq<Mark> {
    match ScanClass(t.kind)
    case None => []
    case Some(class_) => [Mark(class_, t.offset, t.length, t.line, t.column)]
  }

  function ScanMarks(tokens: seq<C.Token>): seq<Mark> {
    if tokens == [] then [] else ScanMark(tokens[0]) + ScanMarks(tokens[1..])
  }

  lemma {:induction false} LexMarksJoin(src: string, a: seq<L.Token>, b: seq<L.Token>)
    requires L.InText(src, a) && L.InText(src, b)
    ensures L.InText(src, a + b) && LexMarks(src, a + b) == LexMarks(src, a) + LexMarks(src, b)
  {
    if a == [] {
      assert a + b == b;
    } else {
      LexMarksJoin(src, a[1..], b);
      assert (a + b)[1..] == a[1..] + b;
    }
  }

  // ----- single steps of the classifier ----------------------------------------------------------

  /** What the classifier finds from an offset on, at its true position. */
  function Found(reserved: set<string>, src: string, i: nat): (seq<Mark>, Option<C.Reason>)
    requires i <= |src|
  {
    var scan := C.ScanFrom(reserved, src, At(src, i));
    (ScanMarks(scan.tokens), scan.reason)
  }

  /** A closed step that lands on the true position of its end contributes its
      own mark, if any, and nothing else. */
  lemma FoundStep(reserved: set<string>, src: string, i: nat, next: nat, kind: C.Kind)
    requires i < next <= |src|
    requires C.ScanStep(reserved, src, At(src, i)) == C.Step(kind, At(src, next), None)
    ensures ScanClass(kind).None? ==> Found(reserved, src, i) == Found(reserved, src, next)
    ensures ScanClass(kind).Some? ==>
              var own := Mark(ScanClass(kind).value, i, next - i, LineAt(src, i), ColumnAt(src, i));
              Found(reserved, src, i) == ([own] + Found(reserved, src, next).0, Found(reserved, src, next).1)
  {
    hide C.ScanStep;
    hide At;
    var rest := C.ScanFrom(reserved, src, At(src, next)).tokens;
    var token := C.TokenOf(src, At(src, i), C.Step(kind, At(src, next), None));
    StepTokens(reserved, src, At(src, i), kind, At(src, next));
    hide C.ScanFrom;
    assert [] + ScanMarks(rest) == ScanMarks(rest);
    ScanMarksStep(token, rest);
    AtIs(src, i);
    AtIs(src, next);
  }

  lemma StepTokens(reserved: set<string>, src: string, c: C.Cursor, kind: C.Kind, next: C.Cursor)
    requires c.offset < |src|
    requires C.ScanStep(reserved, src, c) == C.Step(kind, next, None)
    ensures var rest := C.ScanFrom(reserved, src, next);
            C.ScanFrom(reserved, src, c) ==
              C.Scan([C.TokenOf(src, c, C.Step(kind, next, None))] + rest.tokens, rest.reason)
  {
    hide C.ScanStep;
  }

  lemma ScanMarksStep(token: C.Token, rest: seq<C.Token>)
    ensures ScanMarks([token] + rest) == ScanMark(token) + ScanMarks(rest)
  {
    assert ([token] + rest)[1..] == rest;
  }

  lemma AtIs(src: string, i: nat)
    requires i <= |src|
    ensures var c := At(src, i); c.offset == i && c.line == LineAt(src, i) && c.column == ColumnAt(src, i)
  {
  }

  lemma RunLands(src: string, i: nat, end: nat, kind: C.Kind)
    requires i < end <= |src| && forall k | i <= k < end :: src[k] != '\n'
    ensures C.RunStep(kind, At(src, i), end) == C.Step(kind, At(src, end), None)
  {
    SameLine(src, i, end);
  }

  lemma SpaceStep(reserved: set<string>, src: string, i: nat)
    requires i < |src| && IsWhitespace(src[i]) && src[i] != '\n'
    ensures Found(reserved, src, i) == Found(reserved, src, i + 1)
  {
    var end := RunEnd(src, i, InSpace);
    hide Found;
    SpaceRun(reserved, src, i, end);
    if end > i + 1 {
      SpaceRun(reserved, src, i + 1, end);
    }
  }

  lemma SpaceRun(reserved: set<string>, src: string, i: nat, end: nat)
    requires i < |src| && IsWhitespace(src[i]) && src[i] != '\n'
    requires RunEnd(src, i, InSpace) == end
    ensures end > i && Found(reserved, src, i) == Found(reserved, src, end)
  {
    RunLands(src, i, end, C.Whitespace);
    FoundStep(reserved, src, i, end, C.Whitespace);
  }

  lemma BreakStep(reserved: set<string>, src: string, i: nat)
    requires i < |src| && src[i] == '\n'
    ensures Found(reserved, src, i) == Found(reserved, src, i + 1)
  {
    FoundStep(reserved, src, i, i + 1, C.Newline);
  }

  lemma LineCommentStep(reserved: set<string>, src: string, i: nat)
    requires i + 1 < |src| && src[i] == '/' && src[i + 1] == '/'
    ensures var end := RunEnd(src, i, InLineComment);
            end > i && Found(reserved, src, i) == Found(reserved, src, end)
  {
    var end := RunEnd(src, i, InLineComment);
    RunLands(src, i, end, C.Comment);
    FoundStep(reserved, src, i, end, C.Comment);
  }

  lemma SymbolScan(reserved: set<string>, src: string, i: nat)
    requires i < |src| && L.IsSymbolChar(src[i])
    requires src[i] == '/' && i + 1 < |src| ==> src[i + 1] != '/' && src[i + 1] != '*'
    ensures C.ScanStep(reserved, src, At(src, i)) == C.RunStep(C.SymbolKind(src[i]), At(src, i), i + 1)
    ensures ScanClass(C.SymbolKind(src[i])).None?
  {
  }

  lemma SymbolStep(reserved: set<string>, src: string, i: nat)
    requires i < |src| && L.IsSymbolChar(src[i])
    requires src[i] == '/' && i + 1 < |src| ==> src[i + 1] != '/' && src[i + 1] != '*'
    ensures Found(reserved, src, i) == Found(reserved, src, i + 1)
  {
    hide Found;
    hide At;
    RunLands(src, i, i + 1, C.SymbolKind(src[i]));
    SymbolScan(reserved, src, i);
    hide C.ScanStep;
    FoundStep(reserved, src, i, i + 1, C.SymbolKind(src[i]));
  }

  // ----- comments and strings ---------------------------------------------------------------------

  /** The line breaks inside a comment carry no mark. */
  lemma {:induction false} CommentTokens(src: string, i: nat)
    requires i <= |src| && L.CommentStep(src, i).Go?
    ensures forall t <- L.CommentStep(src, i).tokens :: t.kind == L.Newline
    decreases |src| - i
  {
    if StartsAt(src, i, "*/") {
    } else if src[i] == '\r' {
      CommentTokens(src, i + 2);
    } else {
      CommentTokens(src, i + 1);
    }
  }

  lemma CommentCloseStep(src: string, i: nat)
    requires i + 1 < |src| && !(src[i] == '*' && src[i + 1] == '/')
    ensures C.CommentClose(src, At(src, i)) == C.CommentClose(src, At(src, i + 1))
  {
  }

  /** Where the lexer ends a block comment the classifier closes it. */
  lemma {:induction false} CommentsAgree(src: string, i: nat)
    requires i <= |src| && L.CommentStep(src, i).Go?
    ensures C.CommentClose(src, At(src, i)) == C.Closing(true, At(src, L.CommentStep(src, i).next))
    decreases |src| - i
  {
    StartsWithTwo(src, i, "*/");
    if i + 1 < |src| && src[i] == '*' && src[i + 1] == '/' {
      SameLine(src, i, i + 2);
    } else if src[i] == '\r' {
      hide C.CommentClose;
      CommentCloseStep(src, i);
      CommentCloseStep(src, i + 1);
      CommentsAgree(src, i + 2);
    } else {
      hide C.CommentClose;
      CommentCloseStep(src, i);
      CommentsAgree(src, i + 1);
    }
  }

  /** Where the lexer ends a string the classifier closes it. */
  lemma {:induction false} StringsAgree(src: string, i: nat)
    requires i <= |src| && L.StringEnd(src, i).Success?
    ensures C.StringClose(src, At(src, i)) == C.Closing(true, At(src, L.StringEnd(src, i).value))
    decreases |src| - i
  {
    if src[i] == '"' {
    } else if src[i] == '\\' {
      SameLine(src, i, i + 2);
      StringsAgree(src, i + 2);
    } else {
      StringsAgree(src, i + 1);
    }
  }

  lemma CommentScan(reserved: set<string>, src: string, i: nat, end: nat)
    requires i + 2 <= end <= |src| && src[i] == '/' && src[i + 1] == '*'
    requires C.CommentClose(src, At(src, i + 2)) == C.Closing(true, At(src, end))
    ensures C.ScanStep(reserved, src, At(src, i)) == C.Step(C.Comment, At(src, end), None)
  {
    SameLine(src, i, i + 2);
    hide C.CommentClose;
  }

  lemma BlockCommentStep(reserved: set<string>, src: string, i: nat)
    requires StartsAt(src, i, "/*") && L.CommentStep(src, i + 2).Go?
    ensures Found(reserved, src, i) == Found(reserved, src, L.CommentStep(src, i + 2).next)
  {
    StartsWithTwo(src, i, "/*");
    hide L.CommentStep;
    CommentsAgree(src, i + 2);
    hide C.CommentClose;
    CommentScan(reserved, src, i, L.CommentStep(src, i + 2).next);
    hide C.ScanStep;
    FoundStep(reserved, src, i, L.CommentStep(src, i + 2).next, C.Comment);
  }

  lemma StringStep(reserved: set<string>, src: string, i: nat)
    requires i < |src| && src[i] == '"' && L.StringEnd(src, i + 1).Success?
    ensures var end := L.StringEnd(src, i + 1).value;
            && i < end <= |src|
            && Found(reserved, src, i) ==
               ([Mark(String, i, end - i, LineAt(src, i), ColumnAt(src, i))] + Found(reserved, src, end).0,
                Found(reserved, src, end).1)
  {
    SameLine(src, i, i + 1);
    StringsAgree(src, i + 1);
    hide L.StringEnd;
    hide C.StringClose;
    FoundStep(reserved, src, i, L.StringEnd(src, i + 1).value, C.String);
  }

  // ----- numbers and words --------------------------------------------------------------------------

  lemma ValidNumberChars(text: string)
    requires L.ValidNumber(text)
    ensures forall c <- text :: InNumber(c)
  {
    if |text| > 2 {
      assert text == text[..2] + text[2..];
    }
  }

  lemma NumberRun(src: string, i: nat)
    requires i < |src| && IsDigit(src[i]) && L.NumberStep(src, i).Go?
    ensures RunEnd(src, i, InNumber) == L.NumberStep(src, i).next
    ensures forall k | i <= k < L.NumberStep(src, i).next :: src[k] != '\n'
  {
    var end := RunEnd(src, i, InLexedNumber);
    var text := src[i..end];
    ValidNumberChars(text);
    hide L.ValidNumber;
    forall k | i <= k < end ensures InNumber(src[k]) {
      assert text[k - i] in text;
    }
    RunEndIs(src, i, end, InNumber);
  }

  lemma NumberScan(reserved: set<string>, src: string, i: nat, end: nat)
    requires i < end <= |src| && IsDigit(src[i]) && RunEnd(src, i, InNumber) == end
    requires forall k | i <= k < end :: src[k] != '\n'
    ensures C.ScanStep(reserved, src, At(src, i)) == C.Step(C.Number, At(src, end), None)
  {
    RunLands(src, i, end, C.Number);
  }

  lemma NumberMarks()
    ensures ScanClass(C.Number) == Some(Number)
  {
  }

  lemma NumberStep(reserved: set<string>, src: string, i: nat)
    requires i < |src| && IsDigit(src[i]) && L.NumberStep(src, i).Go?
    ensures var end := L.NumberStep(src, i).next;
            Found(reserved, src, i) ==
              ([Mark(Number, i, end - i, LineAt(src, i), ColumnAt(src, i))] + Found(reserved, src, end).0,
               Found(reserved, src, end).1)
  {
    NumberMarks();
    hide *;
    var end := L.NumberStep(src, i).next;
    NumberRun(src, i);
    NumberScan(reserved, src, i, end);
    FoundStep(reserved, src, i, end, C.Number);
  }

  lemma WordScan(reserved: set<string>, src: string, i: nat, end: nat)
    requires i < |src| && IsWordStart(src[i]) && RunEnd(src, i, InWord) == end
    ensures i < end
    ensures var kind := C.WordKind(reserved, src[i..end]);
            ScanClass(kind) == Some(Word) && C.ScanStep(reserved, src, At(src, i)) == C.Step(kind, At(src, end), None)
  {
    RunLands(src, i, end, C.WordKind(reserved, src[i..end]));
  }

  lemma WordStep(words: L.Words, src: string, i: nat)
    requires i < |src| && IsWordStart(src[i])
    ensures var end := L.WordStep(words, src, i).next;
            Found(words.reserved, src, i) ==
              ([Mark(Word, i, end - i, LineAt(src, i), ColumnAt(src, i))] + Found(words.reserved, src, end).0,
               Found(words.reserved, src, end).1)
  {
    var end := RunEnd(src, i, InWord);
    var kind := C.WordKind(words.reserved, src[i..end]);
    WordScan(words.reserved, src, i, end);
    hide C.ScanStep;
    hide Found;
    hide At;
    FoundStep(words.reserved, src, i, end, kind);
  }

  lemma OperatorStep(reserved: set<string>, src: string, i: nat)
    requires i < |src| && L.SymbolAt(src, i).Some?
    requires !StartsAt(src, i, "//") && !StartsAt(src, i, "/*")
    ensures var next := i + L.SymbolAt(src, i).value.1;
            next <= |src| && Found(reserved, src, i) == Found(reserved, src, next)
  {
    hide *;
    L.SymbolChars(src, i);
    StartsWithTwo(src, i, "//");
    StartsWithTwo(src, i, "/*");
    var width := L.SymbolAt(src, i).value.1;
    SymbolStep(reserved, src, i);
    if width > 1 {
      SymbolStep(reserved, src, i + 1);
    }
    if width > 2 {
      SymbolStep(reserved, src, i + 2);
    }
  }

  // ----- agreement -------------------------------------------------------------------------------------

  /** The classifier finds the marks of a lexer step's tokens, then what it
      finds from where the lexer goes on. */
  predicate Agrees(reserved: set<string>, src: string, i: nat, step: L.Step)
    requires i <= |src| && step.Go? && step.next <= |src|
  {
    && L.InText(src, step.tokens)
    && Found(reserved, src, i) ==
       (LexMarks(src, step.tokens) + Found(reserved, src, step.next).0, Found(reserved, src, step.next).1)
  }

  lemma AgreesUnmarked(reserved: set<string>, src: string, i: nat, step: L.Step)
    requires i <= |src| && step.Go? && step.next <= |src| && L.InText(src, step.tokens)
    requires LexMarks(src, step.tokens) == [] && Found(reserved, src, i) == Found(reserved, src, step.next)
    ensures Agrees(reserved, src, i, step)
  {
    hide Found;
    hide LexMarks;
    assert [] + Found(reserved, src, step.next).0 == Found(reserved, src, step.next).0;
  }

  lemma AgreesMarked(reserved: set<string>, src: string, i: nat, t: L.Token)
    requires i <= t.start <= t.end <= |src| && LexClass(t.kind).Some?
    requires Found(reserved, src, i) ==
             (LexMark(src, t) + Found(reserved, src, t.end).0, Found(reserved, src, t.end).1)
    ensures Agrees(reserved, src, i, L.Go(t.end, [t]))
  {
    OneLexMark(src, t);
    hide Found;
    hide LexMarks;
  }

  lemma OneLexMark(src: string, t: L.Token)
    requires t.start <= t.end <= |src|
    ensures L.InText(src, [t]) && LexMarks(src, [t]) == LexMark(src, t)
  {
    assert [t][1..] == [] && LexMark(src, t) + [] == LexMark(src, t);
  }

  lemma SpaceAgrees(words: L.Words, src: string, i: nat)
    requires i < |src| && src[i] in {' ', '\t', '\n', '\r'} && L.LexStep(words, src, i).Go?
    ensures Agrees(words.reserved, src, i, L.LexStep(words, src, i))
  {
    hide Found;
    hide Agrees;
    hide L.SymbolAt;
    hide L.CommentStep;
    hide L.StringEnd;
    hide L.NumberStep;
    var step := L.LexStep(words, src, i);
    if src[i] == '\n' {
      BreakStep(words.reserved, src, i);
      OneLexMark(src, step.tokens[0]);
    } else {
      SpaceStep(words.reserved, src, i);
      if src[i] == '\r' {
        BreakStep(words.reserved, src, i + 1);
        OneLexMark(src, step.tokens[0]);
      }
    }
    AgreesUnmarked(words.reserved, src, i, step);
  }

  lemma CommentAgrees(words: L.Words, src: string, i: nat)
    requires i < |src| && (StartsAt(src, i, "//") || StartsAt(src, i, "/*")) && L.LexStep(words, src, i).Go?
    ensures Agrees(words.reserved, src, i, L.LexStep(words, src, i))
  {
    hide Found;
    hide Agrees;
    hide L.CommentStep;
    StartsWithTwo(src, i, "//");
    StartsWithTwo(src, i, "/*");
    if StartsAt(src, i, "//") {
      LineCommentStep(words.reserved, src, i);
    } else {
      CommentTokens(src, i + 2);
      NoMarks(src, L.CommentStep(src, i + 2).tokens);
      BlockCommentStep(words.reserved, src, i);
    }
    AgreesUnmarked(words.reserved, src, i, L.LexStep(words, src, i));
  }

  lemma LiteralAgrees(words: L.Words, src: string, i: nat)
    requires i < |src| && (src[i] == '"' || IsDigit(src[i]) || IsWordStart(src[i])) && L.LexStep(words, src, i).Go?
    ensures Agrees(words.reserved, src, i, L.LexStep(words, src, i))
  {
    hide Found;
    hide Agrees;
    hide L.StringEnd;
    hide L.ValidNumber;
    StartsWithTwo(src, i, "//");
    StartsWithTwo(src, i, "/*");
    if src[i] == '"' {
      StringStep(words.reserved, src, i);
    } else if IsDigit(src[i]) {
      NumberStep(words.reserved, src, i);
    } else {
      WordStep(words, src, i);
    }
    AgreesMarked(words.reserved, src, i, L.LexStep(words, src, i).tokens[0]);
  }

  lemma OperatorAgrees(words: L.Words, src: string, i: nat)
    requires i < |src| && L.SymbolAt(src, i).Some?
    requires !StartsAt(src, i, "//") && !StartsAt(src, i, "/*")
    ensures var (symbol, width) := L.SymbolAt(src, i).value;
            && i + width <= |src|
            && Agrees(words.reserved, src, i, L.Go(i + width, [L.Token(L.Operator(symbol), i, i + width)]))
  {
    hide Found;
    hide L.SymbolAt;
    hide StartsAt;
    hide LexMarks;
    hide Agrees;
    OperatorStep(words.reserved, src, i);
    var (symbol, width) := L.SymbolAt(src, i).value;
    OneLexMark(src, L.Token(L.Operator(symbol), i, i + width));
    AgreesUnmarked(words.reserved, src, i, L.Go(i + width, [L.Token(L.Operator(symbol), i, i + width)]));
  }

  lemma StepsAgree(words: L.Words, src: string, i: nat)
    requires i < |src| && L.LexStep(words, src, i).Go?
    ensures Agrees(words.reserved, src, i, L.LexStep(words, src, i))
  {
    hide Agrees;
    hide L.SymbolAt;
    hide L.CommentStep;
    hide L.StringEnd;
    hide L.ValidNumber;
    if src[i] in {' ', '\t', '\n', '\r'} {
      SpaceAgrees(words, src, i);
    } else if StartsAt(src, i, "//") || StartsAt(src, i, "/*") {
      CommentAgrees(words, src, i);
    } else if src[i] == '"' || IsDigit(src[i]) || IsWordStart(src[i]) {
      LiteralAgrees(words, src, i);
    } else {
      OperatorAgrees(words, src, i);
    }
  }

  lemma {:induction false} AgreeFrom(words: L.Words, src: string, i: nat)
    requires i <= |src| && L.LexFrom(words, src, i).Success?
    ensures L.InText(src, L.LexFrom(words, src, i).value)
    ensures Found(words.reserved, src, i) == (LexMarks(src, L.LexFrom(words, src, i).value), None)
    decreases |src| - i
  {
    if i < |src| {
      hide L.LexStep;
      hide Found;
      hide LexMarks;
      var step := L.LexStep(words, src, i);
      StepsAgree(words, src, i);
      AgreeFrom(words, src, step.next);
      LexMarksJoin(src, step.tokens, L.LexFrom(words, src, step.next).value);
    }
  }

  /** On every source the lexer accepts, the classifying scanner leaves nothing
      open and the two mark exactly the same words, numbers and strings. */
  lemma ScannersAgree(words: L.Words, src: string)
    requires L.Lex(words, src).Success?
    ensures var scan := C.ScanFrom(words.reserved, src, Position(0, 1, 1));
            && L.InText(src, L.Lex(words, src).value)
            && ScanMarks(scan.tokens) == LexMarks(src, L.Lex(words, src).value)
            && scan.reason == None
  {
    hide LexMarks;
    hide ScanMarks;
    hide L.LexFrom;
    hide C.ScanFrom;
    AgreeFrom(words, src, 0);
    var body := L.LexFrom(words, src, 0).value;
    var tokens := L.Lex(words, src).value;
    var close := L.ClosingTokens(src, body);
    NoMarks(src, close);
    LexMarksJoin(src, body, close);
    assert LexMarks(src, body) + [] == LexMarks(src, body);
  }

  lemma {:induction false} NoMarks(src: string, tokens: seq<L.Token>)
    requires L.InText(src, tokens) && forall t <- tokens :: LexClass(t.kind).None?
    ensures LexMarks(src, tokens) == []
  {
    if tokens != [] {
      NoMarks(src, tokens[1..]);
    }
  }

  // ----- what both leave open ----------------------------------------------------------------------

  /** What an error of the lexer leaves open: a string or comment that runs to
      the end of the text. */
  function LeftOpen(e: L.LexError): Option<C.Reason> {
    match e
    case UnterminatedString => Some(C.OpenString)
    case UnterminatedComment => Some(C.OpenComment)
    case _ => None
  }

  /** Where the lexer finds no end of a string, neither does the classifier. */
  lemma {:induction false} StringsStayOpen(src: string, i: nat)
    requires i <= |src| && L.StringEnd(src, i) == Failure(L.UnterminatedString)
    ensures !C.StringClose(src, At(src, i)).closed
    decreases |src| - i
  {
    if i < |src| {
      if src[i] == '\\' {
        SameLine(src, i, i + 2);
        StringsStayOpen(src, i + 2);
      } else {
        StringsStayOpen(src, i + 1);
      }
    }
  }

  /** Where the lexer finds no end of a comment, neither does the classifier. */
  lemma {:induction false} CommentsStayOpen(src: string, i: nat)
    requires i <= |src| && L.CommentStep(src, i) == L.Fail(L.UnterminatedComment)
    ensures !C.CommentClose(src, At(src, i)).closed
    decreases |src| - i
  {
    if i + 1 < |src| {
      StartsWithTwo(src, i, "*/");
      CommentCloseStep(src, i);
      if src[i] == '\r' {
        if i + 2 < |src| {
          CommentCloseStep(src, i + 1);
        }
        hide C.CommentClose;
        CommentsStayOpen(src, i + 2);
      } else {
        hide C.CommentClose;
        CommentsStayOpen(src, i + 1);
      }
    }
  }

  lemma OpenStep(words: L.Words, src: string, i: nat)
    requires i < |src| && L.LexStep(words, src, i).Fail? && LeftOpen(L.LexStep(words, src, i).error).Some?
    ensures Found(words.reserved, src, i).1 == LeftOpen(L.LexStep(words, src, i).error)
  {
    hide L.SymbolAt;
    hide L.ValidNumber;
    hide ScanMarks;
    StartsWithTwo(src, i, "//");
    StartsWithTwo(src, i, "/*");
    if src[i] == '"' {
      SameLine(src, i, i + 1);
      StringsStayOpen(src, i + 1);
      hide L.StringEnd;
      hide C.StringClose;
    } else {
      SameLine(src, i, i + 2);
      CommentsStayOpen(src, i + 2);
      hide L.CommentStep;
      hide C.CommentClose;
    }
  }

  lemma {:induction false} OpenFrom(words: L.Words, src: string, i: nat)
    requires i <= |src| && L.LexFrom(words, src, i).Failure? && LeftOpen(L.LexFrom(words, src, i).error).Some?
    ensures Found(words.reserved, src, i).1 == LeftOpen(L.LexFrom(words, src, i).error)
    decreases |src| - i
  {
    hide L.LexStep;
    hide Found;
    if L.LexStep(words, src, i).Fail? {
      OpenStep(words, src, i);
    } else {
      StepsAgree(words, src, i);
      OpenFrom(words, src, L.LexStep(words, src, i).next);
    }
  }

  /** Where the lexer fails because a string or comment runs to the end of the
      text, the classifier has already reported that it is open. */
  lemma ScannersAgreeOnOpen(words: L.Words, src: string)
    requires L.Lex(words, src).Failure? && LeftOpen(L.Lex(words, src).error).Some?
    ensures C.ScanFrom(words.reserved, src, Position(0, 1, 1)).reason == LeftOpen(L.Lex(words, src).error)
  {
    OpenFrom(words, src, 0);
  }
}
