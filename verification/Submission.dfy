/** Deciding whether a submission to an interactive session is complete: the
    delimiter pass, the block pass, and the verdict. */
module Submission {
  import opened Wrappers
  import opened Brackets
  import Lexer

  datatype Token = Keyword(word: string) | Symbol(symbol: Lexer.Symbol) | Newline | Eof | Word

  datatype Delimiter = Paren | Bracket

  datatype Block = Function | Class | Struct | Interface | If | While | For | Repeat

  // ----- delimiters ---------------------------------------------------------------------------

  function DelimiterMark(t: Token): Option<Mark<Delimiter>> {
    match t
    case Symbol(LeftParen) => Some(Open(Paren))
    case Symbol(LeftBracket) => Some(Open(Bracket))
    case Symbol(RightParen) => Some(Close(Paren))
    case Symbol(RightBracket) => Some(Close(Bracket))
    case _ => None
  }

  function Listed<T>(o: Option<T>): seq<T> {
    if o.Some? then [o.value] else []
  }

  /** The delimiters of a token sequence, in order. */
  function Delimiters(tokens: seq<Token>): seq<Mark<Delimiter>> {
    if tokens == [] then []
    else Delimiters(tokens[..|tokens| - 1]) + Listed(DelimiterMark(tokens[|tokens| - 1]))
  }

  /** Adding at most one mark is at most one step of the stack. */
  lemma MatchSnoc<K>(marks: seq<Mark<K>>, m: Option<Mark<K>>)
    ensures Match(marks + Listed(m)) == if m.Some? then Step(Match(marks), m.value) else Match(marks)
  {
    if m.Some? {
      assert (marks + [m.value])[..|marks|] == marks;
    } else {
      assert marks + [] == marks;
    }
  }

  lemma {:induction false} MatchPrefix<K>(marks: seq<Mark<K>>, more: seq<Mark<K>>)
    requires Match(marks).None?
    ensures Match(marks + more).None?
  {
    FoldJoin(Some([]), marks, more);
    FoldNone(more);
  }

  lemma DelimitersGrow(tokens: seq<Token>, k: nat) returns (more: seq<Mark<Delimiter>>)
    requires k <= |tokens|
    ensures Delimiters(tokens) == Delimiters(tokens[..k]) + more
    decreases |tokens| - k
  {
    if k == |tokens| {
      assert tokens[..k] == tokens;
      more := [];
    } else {
      more := DelimitersGrow(tokens, k + 1);
      assert tokens[..k + 1][..k] == tokens[..k];
      more := Listed(DelimiterMark(tokens[k])) + more;
    }
  }

  /** The delimiter pass: the open delimiters left, or none at a mismatch. */
  method DelimiterPass(tokens: seq<Token>) returns (r: Option<seq<Delimiter>>)
    ensures r == Match(Delimiters(tokens))
  {
    hide Match;
    hide Delimiters;
    var stack: seq<Delimiter> := [];
    DelimitersStart(tokens);
    for i := 0 to |tokens|
      invariant Match(Delimiters(tokens[..i])) == Some(stack)
    {
      var m := DelimiterMark(tokens[i]);
      DelimitersStep(tokens, i);
      if m.Some? {
        match m.value
        case Open(k) =>
          stack := stack + [k];
        case Close(k) =>
          if stack == [] || stack[|stack| - 1] != k {
            ghost var more := DelimitersGrow(tokens, i + 1);
            MatchPrefix(Delimiters(tokens[..i + 1]), more);
            return None;
          }
          stack := stack[..|stack| - 1];
      }
    }
    assert tokens[..|tokens|] == tokens;
    return Some(stack);
  }

  lemma DelimitersStart(tokens: seq<Token>)
    ensures Match(Delimiters(tokens[..0])) == Some([])
  {
  }

  lemma DelimitersStep(tokens: seq<Token>, i: nat)
    requires i < |tokens|
    ensures var m, before := DelimiterMark(tokens[i]), Match(Delimiters(tokens[..i]));
            Match(Delimiters(tokens[..i + 1])) == if m.Some? then Step(before, m.value) else before
  {
    assert tokens[..i + 1][..i] == tokens[..i];
    MatchSnoc(Delimiters(tokens[..i]), DelimiterMark(tokens[i]));
  }

  // ----- blocks -----------------------------------------------------------------------------------

  function BlockOf(word: string): Option<Block> {
    match word
    case "FUNCTION" => Some(Function)
    case "CLASS" => Some(Class)
    case "STRUCT" => Some(Struct)
    case "INTERFACE" => Some(Interface)
    case "IF" => Some(If)
    case "WHILE" => Some(While)
    case "FOR" => Some(For)
    case "REPEAT" => Some(Repeat)
    case _ => None
  }

  /** The keywords before which a block keyword does not open its block. */
  function NotAfter(block: Block): set<string> {
    match block
    case Function => {"END", "EXIT"}
    case Class => {"END"}
    case Struct => {"END"}
    case Interface => {"END"}
    case If => {"END", "ELSE"}
    case While => {"END", "EXIT", "CONTINUE"}
    case For => {"END", "EXIT", "CONTINUE"}
    case Repeat => {"END", "EXIT", "CONTINUE"}
  }

  predicate Suppressed(block: Block, previous: string) {
    previous in NotAfter(block)
  }

  predicate EndsLine(tokens: seq<Token>, i: nat) {
    i >= |tokens| || tokens[i] == Newline || tokens[i] == Eof
  }

  /** Whether the first `THEN` on the line that `from` is on ends the line. */
  function ThenEndsLine(tokens: seq<Token>, from: nat): (r: bool)
    ensures r <==> exists t :: from <= t < |tokens| && tokens[t] == Keyword("THEN") && EndsLine(tokens, t + 1)
                               && forall k | from <= k < t :: tokens[k] != Keyword("THEN") && !EndsLine(tokens, k)
    decreases |tokens| - from
  {
    if EndsLine(tokens, from) then false
    else if tokens[from] == Keyword("THEN") then EndsLine(tokens, from + 1)
    else ThenEndsLine(tokens, from + 1)
  }

  /** What a token opens or closes, in its context. */
  function BlockMark(tokens: seq<Token>, i: nat): Option<Mark<Block>>
    requires i < |tokens|
  {
    if !tokens[i].Keyword? then None
    else if tokens[i].word == "END" then
      if i + 1 < |tokens| && tokens[i + 1].Keyword? && BlockOf(tokens[i + 1].word).Some?
      then Some(Close(BlockOf(tokens[i + 1].word).value)) else None
    else match BlockOf(tokens[i].word)
      case None => None
      case Some(block) =>
        if Suppressed(block, if i > 0 && tokens[i - 1].Keyword? then tokens[i - 1].word else "") then None
        else if block == If && !ThenEndsLine(tokens, i + 1) then None
        else Some(Open(block))
  }

  /** The block marks of the first `n` tokens, in order. */
  function Blocks(tokens: seq<Token>, n: nat): seq<Mark<Block>>
    requires n <= |tokens|
  {
    if n == 0 then [] else Blocks(tokens, n - 1) + Listed(BlockMark(tokens, n - 1))
  }

  lemma BlocksGrow(tokens: seq<Token>, k: nat) returns (more: seq<Mark<Block>>)
    requires k <= |tokens|
    ensures Blocks(tokens, |tokens|) == Blocks(tokens, k) + more
    decreases |tokens| - k
  {
    if k == |tokens| {
      more := [];
    } else {
      more := BlocksGrow(tokens, k + 1);
      more := Listed(BlockMark(tokens, k)) + more;
    }
  }

  /** The look-ahead loop of the `IF` case. */
  method IsBlockIf(tokens: seq<Token>, index: nat) returns (r: bool)
    requires index < |tokens|
    ensures r == ThenEndsLine(tokens, index + 1)
  {
    var cursor := index + 1;
    while cursor < |tokens|
      invariant ThenEndsLine(tokens, index + 1) == ThenEndsLine(tokens, cursor)
      decreases |tokens| - cursor
    {
      if tokens[cursor] == Keyword("THEN") {
        return EndsLine(tokens, cursor + 1);
      }
      if EndsLine(tokens, cursor) {
        return false;
      }
      cursor := cursor + 1;
    }
    return false;
  }

  /** The block pass: the open blocks left, or none at a mismatched or
      unexpected terminator.  A terminator is two tokens, skipped together. */
  method BlockPass(tokens: seq<Token>) returns (r: Option<seq<Block>>)
    ensures r == Match(Blocks(tokens, |tokens|))
  {
    hide ThenEndsLine;
    hide Match;
    hide Blocks;
    hide BlockOf;
    hide NotAfter;
    var stack: seq<Block> := [];
    var index := 0;
    BlocksStart(tokens);
    while index < |tokens|
      invariant index <= |tokens|
      invariant Match(Blocks(tokens, index)) == Some(stack)
      decreases |tokens| - index
    {
      BlocksStep(tokens, index);
      var width := 1;
      if tokens[index].Keyword? {
        var word := tokens[index].word;
        var block := BlockOf(word);
        var previous := if index > 0 && tokens[index - 1].Keyword? then tokens[index - 1].word else "";
        if word == "END" {
          if index + 1 < |tokens| && tokens[index + 1].Keyword? && BlockOf(tokens[index + 1].word).Some? {
            var expected := BlockOf(tokens[index + 1].word).value;
            if stack == [] || stack[|stack| - 1] != expected {
              ghost var more := BlocksGrow(tokens, index + 1);
              MatchPrefix(Blocks(tokens, index + 1), more);
              return None;
            }
            stack := stack[..|stack| - 1];
            TerminatorOpensNothing(tokens, index);
            BlocksStep(tokens, index + 1);
            width := 2;
          }
        } else if block.Some? && !Suppressed(block.value, previous) {
          var opens := true;
          if block.value == If {
            opens := IsBlockIf(tokens, index);
          }
          if opens {
            stack := stack + [block.value];
          }
        }
      }
      index := index + width;
    }
    return Some(stack);
  }

  lemma BlocksStart(tokens: seq<Token>)
    ensures Match(Blocks(tokens, 0)) == Some([])
  {
  }

  lemma BlocksStep(tokens: seq<Token>, i: nat)
    requires i < |tokens|
    ensures var m, before := BlockMark(tokens, i), Match(Blocks(tokens, i));
            Match(Blocks(tokens, i + 1)) == if m.Some? then Step(before, m.value) else before
  {
    MatchSnoc(Blocks(tokens, i), BlockMark(tokens, i));
  }

  /** The block keyword of a terminator opens no block, so skipping it loses
      nothing. */
  lemma TerminatorOpensNothing(tokens: seq<Token>, i: nat)
    requires i + 1 < |tokens| && tokens[i] == Keyword("END")
    requires tokens[i + 1].Keyword? && BlockOf(tokens[i + 1].word).Some?
    ensures BlockMark(tokens, i + 1).None?
  {
  }

  // ----- the verdict -----------------------------------------------------------------------------

  datatype Reason =
    | OpenString
    | OpenComment
    | OpenDelimiter(delimiter: Delimiter)
    | OpenBlock(block: Block)
    | Continuation

  datatype Cause = LexicalError | UnmatchedDelimiter | MismatchedBlock | SyntaxError

  datatype Verdict = Complete | Incomplete(reasons: seq<Reason>) | Invalid(cause: Cause)

  /** What lexing yields: tokens, or an error that is or is not an open literal. */
  datatype Lexed = Tokens(tokens: seq<Token>) | LeftOpen(reason: Reason) | LexicalFailure

  /** The last token that is not a line or file end. */
  function LastMeaningful(tokens: seq<Token>): (r: Option<Token>)
    ensures r.None? <==> forall i | 0 <= i < |tokens| :: tokens[i] == Newline || tokens[i] == Eof
  {
    if tokens == [] then None
    else
      var last := tokens[|tokens| - 1];
      if last == Newline || last == Eof then LastMeaningful(tokens[..|tokens| - 1]) else Some(last)
  }

  /** A last token after which the statement must go on. */
  predicate Continues(t: Token) {
    match t
    case Symbol(s) =>
      s in {Lexer.Plus, Lexer.Minus, Lexer.Star, Lexer.Slash, Lexer.Percent, Lexer.Power, Lexer.Assign,
            Lexer.PlusAssign, Lexer.MinusAssign, Lexer.StarAssign, Lexer.SlashAssign, Lexer.PercentAssign,
            Lexer.PowerAssign, Lexer.NotEqual, Lexer.Less, Lexer.LessEqual, Lexer.Greater,
            Lexer.GreaterEqual, Lexer.Comma}
    case Keyword(word) => word in {"AND", "OR", "XOR", "AS", "TO", "STEP", "THEN", "ELSE"}
    case _ => false
  }

  predicate Trailing(tokens: seq<Token>) {
    LastMeaningful(tokens).Some? && Continues(LastMeaningful(tokens).value)
  }

  function OpenReasons(delimiters: seq<Delimiter>, blocks: seq<Block>, trailing: bool): seq<Reason> {
    seq(|delimiters|, i requires 0 <= i < |delimiters| => OpenDelimiter(delimiters[i])) +
    seq(|blocks|, i requires 0 <= i < |blocks| => OpenBlock(blocks[i])) +
    if trailing then [Continuation] else []
  }

  /** What a verdict on tokens means, by the grammars alone. */
  ghost predicate Justified(tokens: seq<Token>, parses: bool, v: Verdict) {
    var delimiters, blocks := Delimiters(tokens), Blocks(tokens, |tokens|);
    match v
    case Complete =>
      || LastMeaningful(tokens).None?
      || (Balanced(delimiters) && Balanced(blocks) && !Trailing(tokens) && parses)
    case Incomplete(reasons) =>
      exists ds: seq<Delimiter>, bs: seq<Block> ::
        && Unclosed(delimiters, ds) && Unclosed(blocks, bs)
        && reasons == OpenReasons(ds, bs, Trailing(tokens)) && reasons != []
    case Invalid(UnmatchedDelimiter) => !Completable(delimiters)
    case Invalid(MismatchedBlock) => Completable(delimiters) && !Completable(blocks)
    case Invalid(SyntaxError) => Balanced(delimiters) && Balanced(blocks) && !Trailing(tokens) && !parses
    case Invalid(LexicalError) => false
  }

  /** The verdict on a submission, from what the classifying scan left open,
      what lexing gave, and whether the tokens parse. */
  method Classify(open: Option<Reason>, lexed: Lexed, parses: bool) returns (v: Verdict)
    ensures open.Some? ==> v == Incomplete([open.value])
    ensures open.None? && lexed.LeftOpen? ==> v == Incomplete([lexed.reason])
    ensures open.None? && lexed.LexicalFailure? ==> v == Invalid(LexicalError)
    ensures open.None? && lexed.Tokens? ==> Justified(lexed.tokens, parses, v)
  {
    hide Match;
    hide Delimiters;
    hide Blocks;
    hide Balanced;
    hide Completable;
    hide Unclosed;
    hide OpenReasons;
    if open.Some? {
      return Incomplete([open.value]);
    }
    match lexed
    case LeftOpen(reason) => return Incomplete([reason]);
    case LexicalFailure => return Invalid(LexicalError);
    case Tokens(tokens) =>
      if LastMeaningful(tokens).None? {
        return Complete;
      }
      MatchIffCompletable(Delimiters(tokens));
      MatchIffCompletable(Blocks(tokens, |tokens|));
      var delimiters := DelimiterPass(tokens);
      if delimiters.None? {
        return Invalid(UnmatchedDelimiter);
      }
      var blocks := BlockPass(tokens);
      if blocks.None? {
        return Invalid(MismatchedBlock);
      }
      MatchIsUnclosed(Delimiters(tokens), delimiters.value);
      MatchIsUnclosed(Blocks(tokens, |tokens|), blocks.value);
      NothingOpen(Delimiters(tokens));
      NothingOpen(Blocks(tokens, |tokens|));
      var reasons := OpenReasons(delimiters.value, blocks.value, Trailing(tokens));
      NoReasons(delimiters.value, blocks.value, Trailing(tokens));
      if reasons != [] {
        return Incomplete(reasons);
      }
      return if parses then Complete else Invalid(SyntaxError);
  }

  lemma NothingOpen<K>(marks: seq<Mark<K>>)
    ensures Unclosed(marks, []) <==> Balanced(marks)
  {
  }

  lemma NoReasons(delimiters: seq<Delimiter>, blocks: seq<Block>, trailing: bool)
    ensures OpenReasons(delimiters, blocks, trailing) == [] <==> delimiters == [] && blocks == [] && !trailing
  {
    assert |OpenReasons(delimiters, blocks, trailing)| == |delimiters| + |blocks| + if trailing then 1 else 0;
  }

  /** A justification determines the verdict: no two verdicts are justified on
      the same tokens, unless one is that there is nothing to run. */
  lemma VerdictIsUnique(tokens: seq<Token>, parses: bool, v: Verdict, w: Verdict)
    requires Justified(tokens, parses, v) && Justified(tokens, parses, w) && LastMeaningful(tokens).Some?
    ensures v == w
  {
    hide Match;
    hide Delimiters;
    hide Blocks;
    hide Balanced;
    hide Completable;
    hide Unclosed;
    hide OpenReasons;
    OneStack(Delimiters(tokens));
    OneStack(Blocks(tokens, |tokens|));
    forall ds: seq<Delimiter>, bs: seq<Block> {
      NoReasons(ds, bs, Trailing(tokens));
    }
  }

  lemma OneStack<K(!new)>(marks: seq<Mark<K>>)
    ensures forall a, b | Unclosed(marks, a) && Unclosed(marks, b) :: a == b
    ensures forall a | Unclosed(marks, a) :: Completable(marks)
    ensures Balanced(marks) <==> Unclosed(marks, [])
    ensures Balanced(marks) ==> Completable(marks)
  {
    forall a | Unclosed(marks, a) ensures Match(marks) == Some(a) {
      MatchIsUnclosed(marks, a);
    }
    MatchIffCompletable(marks);
    NothingOpen(marks);
  }

  // ----- trimming -----------------------------------------------------------------------------------

  /** Drops line ends in front, and line and file ends behind. */
  method TrimNewlines(tokens: seq<Token>) returns (r: seq<Token>)
    ensures exists a, b :: 0 <= a <= b <= |tokens| && r == tokens[a..b]
              && (forall k | 0 <= k < a :: tokens[k] == Newline)
              && (forall k | b <= k < |tokens| :: tokens[k] == Newline || tokens[k] == Eof)
    ensures r != [] ==> r[0] != Newline && r[|r| - 1] != Newline && r[|r| - 1] != Eof
  {
    var start := 0;
    while start < |tokens| && tokens[start] == Newline
      invariant 0 <= start <= |tokens| && forall k | 0 <= k < start :: tokens[k] == Newline
    {
      start := start + 1;
    }
    var end := |tokens|;
    while end > start && (tokens[end - 1] == Newline || tokens[end - 1] == Eof)
      invariant start <= end <= |tokens|
      invariant forall k | end <= k < |tokens| :: tokens[k] == Newline || tokens[k] == Eof
    {
      end := end - 1;
    }
    return tokens[start..end];
  }

  // ----- what opens, closes and continues -------------------------------------------------------

  /** Parentheses and brackets are the delimiters, and nothing else is. */
  lemma DelimitersAre(t: Token)
    ensures DelimiterMark(t) == Some(Open(Paren)) <==> t == Symbol(Lexer.LeftParen)
    ensures DelimiterMark(t) == Some(Close(Paren)) <==> t == Symbol(Lexer.RightParen)
    ensures DelimiterMark(t) == Some(Open(Bracket)) <==> t == Symbol(Lexer.LeftBracket)
    ensures DelimiterMark(t) == Some(Close(Bracket)) <==> t == Symbol(Lexer.RightBracket)
  {
  }

  predicate KeywordAt(tokens: seq<Token>, i: int, words: set<string>) {
    0 <= i < |tokens| && tokens[i].Keyword? && tokens[i].word in words
  }

  /** Which keyword opens which block: none after `END`, no function after `EXIT`, no
      loop after `EXIT` or `CONTINUE`, and `IF` neither after `ELSE` nor when its
      line's first `THEN` is followed by more. */
  lemma OpenersAre(tokens: seq<Token>, i: nat)
    requires i < |tokens|
    ensures BlockMark(tokens, i) == Some(Open(Function)) <==>
              KeywordAt(tokens, i, {"FUNCTION"}) && !KeywordAt(tokens, i - 1, {"END", "EXIT"})
    ensures BlockMark(tokens, i) == Some(Open(Class)) <==>
              KeywordAt(tokens, i, {"CLASS"}) && !KeywordAt(tokens, i - 1, {"END"})
    ensures BlockMark(tokens, i) == Some(Open(Struct)) <==>
              KeywordAt(tokens, i, {"STRUCT"}) && !KeywordAt(tokens, i - 1, {"END"})
    ensures BlockMark(tokens, i) == Some(Open(Interface)) <==>
              KeywordAt(tokens, i, {"INTERFACE"}) && !KeywordAt(tokens, i - 1, {"END"})
    ensures BlockMark(tokens, i) == Some(Open(While)) <==>
              KeywordAt(tokens, i, {"WHILE"}) && !KeywordAt(tokens, i - 1, {"END", "EXIT", "CONTINUE"})
    ensures BlockMark(tokens, i) == Some(Open(For)) <==>
              KeywordAt(tokens, i, {"FOR"}) && !KeywordAt(tokens, i - 1, {"END", "EXIT", "CONTINUE"})
    ensures BlockMark(tokens, i) == Some(Open(Repeat)) <==>
              KeywordAt(tokens, i, {"REPEAT"}) && !KeywordAt(tokens, i - 1, {"END", "EXIT", "CONTINUE"})
    ensures BlockMark(tokens, i) == Some(Open(If)) <==>
              && KeywordAt(tokens, i, {"IF"}) && !KeywordAt(tokens, i - 1, {"END", "ELSE"})
              && exists t :: i < t < |tokens| && tokens[t] == Keyword("THEN") && EndsLine(tokens, t + 1)
                   && forall k | i < k < t :: tokens[k] !in {Keyword("THEN"), Newline, Eof}
  {
    var then_ := ThenEndsLine(tokens, i + 1);
    assert forall k | i < k < |tokens| :: EndsLine(tokens, k) <==> tokens[k] in {Newline, Eof};
    hide ThenEndsLine;
  }

  /** A block is closed by `END` and its own keyword. */
  lemma ClosersAre(tokens: seq<Token>, i: nat, block: Block)
    requires i < |tokens|
    ensures BlockMark(tokens, i) == Some(Close(block)) <==>
              KeywordAt(tokens, i, {"END"}) && KeywordAt(tokens, i + 1, {NameOf(block)})
  {
    hide ThenEndsLine;
  }

  function NameOf(block: Block): string {
    match block
    case Function => "FUNCTION"
    case Class => "CLASS"
    case Struct => "STRUCT"
    case Interface => "INTERFACE"
    case If => "IF"
    case While => "WHILE"
    case For => "FOR"
    case Repeat => "REPEAT"
  }

  /** A submission goes on after every symbol but a delimiter, a point, a colon and an
      increment or decrement, and after a keyword that joins two parts. */
  lemma ContinuationsAre(t: Token)
    ensures Continues(t) <==>
              || (t.Symbol? && t.symbol !in {Lexer.LeftParen, Lexer.RightParen, Lexer.LeftBracket, Lexer.RightBracket,
                                             Lexer.Dot, Lexer.Colon, Lexer.Increment, Lexer.Decrement})
              || (t.Keyword? && t.word in {"AND", "OR", "XOR", "AS", "TO", "STEP", "THEN", "ELSE"})
  {
    if t.Symbol? {
      var s := t.symbol;
      assert s.Plus? || s.Minus? || s.Star? || s.Slash? || s.Percent? || s.Power? || s.Assign? || s.PlusAssign?
          || s.MinusAssign? || s.StarAssign? || s.SlashAssign? || s.PercentAssign? || s.PowerAssign? || s.NotEqual?
          || s.Less? || s.LessEqual? || s.Greater? || s.GreaterEqual? || s.Comma? || s.LeftParen? || s.RightParen?
          || s.LeftBracket? || s.RightBracket? || s.Dot? || s.Colon? || s.Increment? || s.Decrement?;
    }
  }

  /** The reasons of an incomplete submission: its open delimiters, then its open
      blocks, each outermost first, then the continuation. */
  lemma ReasonsAre(delimiters: seq<Delimiter>, blocks: seq<Block>, trailing: bool, k: nat)
    ensures var reasons := OpenReasons(delimiters, blocks, trailing);
            && |reasons| == |delimiters| + |blocks| + (if trailing then 1 else 0)
            && (k < |delimiters| ==> reasons[k] == OpenDelimiter(delimiters[k]))
            && (|delimiters| <= k < |delimiters| + |blocks| ==> reasons[k] == OpenBlock(blocks[k - |delimiters|]))
            && (trailing ==> reasons[|reasons| - 1] == Continuation)
  {
  }
}
