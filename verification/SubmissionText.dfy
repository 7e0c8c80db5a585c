/** The verdict on the text of a submission: both scanners, then the passes. */
module SubmissionText {
  import opened Wrappers
  import opened SourceText
  import L = Lexer
  import R = LexerRun
  import C = Classifier
  import ScannerAgreement
  import opened Submission

  /** What the passes see of a token. */
  function TokenOf(src: string, kind: L.Kind, start: nat, end: nat): Token
    requires start <= end <= |src|
  {
    match kind
    case Keyword => Keyword(src[start..end])
    case Operator(symbol) => Symbol(symbol)
    case Newline => Newline
    case Eof => Eof
    case _ => Word
  }

  function TokensOf(src: string, tokens: seq<L.Token>): seq<Token>
    requires L.InText(src, tokens)
  {
    seq(|tokens|, i requires 0 <= i < |tokens| =>
      assert tokens[i] in tokens; TokenOf(src, tokens[i].kind, tokens[i].start, tokens[i].end))
  }

  function ReasonOf(r: C.Reason): Reason {
    match r
    case OpenComment => OpenComment
    case OpenString => OpenString
  }

  /** The verdict on a text.  Only an open string or comment, or text that does
      not lex, decides it before the tokens do; and when lexing fails on an open
      string or comment the classifier has always answered first. */
  method ClassifySubmission(words: L.Words, src: string, parser: seq<Token> -> bool) returns (v: Verdict)
    ensures var lexed := L.Lex(words, src);
            var open := C.ScanFrom(words.reserved, src, Position(0, 1, 1)).reason;
            && (lexed.Success? ==>
                  var tokens := TokensOf(src, lexed.value);
                  Justified(tokens, parser(tokens), v))
            && (lexed.Failure? ==>
                  v == if open.Some? then Incomplete([ReasonOf(open.value)]) else Invalid(LexicalError))
            && (lexed == Failure(L.UnterminatedString) ==> v == Incomplete([OpenString]))
            && (lexed == Failure(L.UnterminatedComment) ==> v == Incomplete([OpenComment]))
  {
    hide Justified;
    hide C.ScanFrom;
    hide L.Lex;
    var scan := C.ScanClassifiedTokens(words.reserved, src);
    ghost var lexed := L.Lex(words, src);
    if lexed.Success? {
      ScannerAgreement.ScannersAgree(words, src);
    } else if ScannerAgreement.LeftOpen(lexed.error).Some? {
      ScannerAgreement.ScannersAgreeOnOpen(words, src);
    }
    if scan.reason.Some? {
      return Incomplete([ReasonOf(scan.reason.value)]);
    }
    var lexer := new R.LexerObject(words, src);
    var result := lexer.Run();
    match result
    case Failure(e) =>
      v := Classify(None, LexedAs(e), false);
    case Success(placed) =>
      PlacedTokens(words, src);
      var tokens := seq(|placed|, i requires 0 <= i < |placed| =>
        TokenOf(src, placed[i].kind, placed[i].start.offset, placed[i].end.offset));
      assert tokens == TokensOf(src, lexed.value);
      v := Classify(None, Tokens(tokens), parser(tokens));
  }

  function LexedAs(e: L.LexError): Lexed {
    match e
    case UnterminatedString => Submission.LeftOpen(OpenString)
    case UnterminatedComment => Submission.LeftOpen(OpenComment)
    case _ => LexicalFailure
  }

  lemma PlacedTokens(words: L.Words, src: string)
    requires L.Lex(words, src).Success?
    ensures var placed, tokens := R.PlacedLex(words, src).value, L.Lex(words, src).value;
            && R.PlacedLex(words, src).Success? && |placed| == |tokens|
            && forall i | 0 <= i < |placed| ::
                 && placed[i].kind == tokens[i].kind
                 && placed[i].start.offset == tokens[i].start <= placed[i].end.offset == tokens[i].end <= |src|
  {
    hide L.Lex;
    var tokens := L.Lex(words, src).value;
    forall i | 0 <= i < |tokens| ensures tokens[i].start <= tokens[i].end <= |src| {
      assert tokens[i] in tokens;
    }
  }

  /** The passes see keywords by their text, symbols by what they are, the ends of
      lines and of the file, and any other token as a word. */
  lemma TokensAre(src: string, tokens: seq<L.Token>, i: nat)
    requires L.InText(src, tokens) && i < |tokens|
    ensures |TokensOf(src, tokens)| == |tokens| && tokens[i].start <= tokens[i].end <= |src|
    ensures var t, seen := tokens[i], TokensOf(src, tokens)[i];
            && (t.kind == L.Keyword ==> seen == Keyword(src[t.start..t.end]))
            && (t.kind.Operator? ==> seen == Symbol(t.kind.symbol))
            && (seen == Newline <==> t.kind == L.Newline)
            && (seen == Eof <==> t.kind == L.Eof)
            && (seen == Word <==>
                  || t.kind.Identifier? || t.kind.Special?
                  || t.kind.Integer? || t.kind.Float? || t.kind.StringLiteral?)
  {
    assert tokens[i] in tokens;
  }
}
