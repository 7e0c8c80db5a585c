/** The diagnostic template engine: `{$name}` patterns, their substitution,
    and the validation that makes rendering safe. */
module Templates {
  import opened Wrappers
  import opened Text

  datatype ArgumentKind = TextKind | SignedKind | UnsignedKind | BooleanKind

  datatype Value =
    | TextValue(text: string)
    | SignedValue(signed: int)
    | UnsignedValue(unsigned: nat)
    | BooleanValue(truth: bool)
  {
    function Kind(): ArgumentKind {
      match this
      case TextValue(_) => TextKind
      case SignedValue(_) => SignedKind
      case UnsignedValue(_) => UnsignedKind
      case BooleanValue(_) => BooleanKind
    }

    function Show(): string {
      match this
      case TextValue(t) => t
      case SignedValue(n) => if n < 0 then "-" + Decimal(-n) else Decimal(n)
      case UnsignedValue(n) => Decimal(n)
      case BooleanValue(b) => if b then "true" else "false"
    }
  }

  datatype TemplateError = Unterminated | MissingArgument(name: string)

  type Arguments = seq<(string, Value)>

  /** The first value given under a name. */
  function Lookup(args: Arguments, name: string): (r: Option<Value>)
    ensures r.Some? <==> exists a <- args :: a.0 == name
  {
    if args == [] then None
    else if args[0].0 == name then Some(args[0].1)
    else Lookup(args[1..], name)
  }

  // ----- what a pattern is ------------------------------------------------------------------

  datatype Piece = Literal(text: string) | Argument(name: string)

  /** The first argument of a pattern, with what is before and after it. */
  datatype Slot = NoSlot | Unclosed | Slot(before: string, name: string, after: string)

  function FirstSlot(pattern: string): (r: Slot)
    ensures r.Slot? ==> |r.after| < |pattern|
  {
    match Find(pattern, "{$")
    case None => NoSlot
    case Some(i) =>
      var rest := pattern[i + 2..];
      match Find(rest, "}")
      case None => Unclosed
      case Some(j) => Slot(pattern[..i], rest[..j], rest[j + 1..])
  }

  /** The pieces of a pattern, in order; none when an argument is not closed. */
  function Pieces(pattern: string): Option<seq<Piece>>
    decreases |pattern|
  {
    match FirstSlot(pattern)
    case NoSlot => Some([Literal(pattern)])
    case Unclosed => None
    case Slot(before, name, after) =>
      var more :- Pieces(after);
      Some([Literal(before), Argument(name)] + more)
  }

  /** Literals and arguments in turn; no literal opens an argument and no name
      closes one. */
  predicate Formed(pieces: seq<Piece>)
    decreases |pieces|
  {
    && pieces != [] && pieces[0].Literal? && Find(pieces[0].text, "{$").None?
    && (|pieces| > 1 ==> pieces[1].Argument? && '}' !in pieces[1].name && Formed(pieces[2..]))
  }

  /** The pattern that pieces spell. */
  function Spell(pieces: seq<Piece>): string {
    if pieces == [] then []
    else (match pieces[0] case Literal(text) => text case Argument(name) => "{$" + name + "}") + Spell(pieces[1..])
  }

  /** Every argument replaced at once by its value. */
  function Filled(pieces: seq<Piece>, args: Arguments): string {
    if pieces == [] then []
    else
      (match pieces[0]
       case Literal(text) => text
       case Argument(name) => if Lookup(args, name).Some? then Lookup(args, name).value.Show() else []) +
      Filled(pieces[1..], args)
  }

  function Names(pieces: seq<Piece>): seq<string> {
    if pieces == [] then []
    else (if pieces[0].Argument? then [pieces[0].name] else []) + Names(pieces[1..])
  }

  /** The names a pattern mentions, in order; none when it is malformed. */
  function NamesOf(pattern: string): seq<string> {
    if Pieces(pattern).Some? then Names(Pieces(pattern).value) else []
  }

  lemma FindShifted(s: string, sub: string, k: nat)
    requires k <= |s| && forall i: nat | i < k :: !OccursAt(s, sub, i)
    ensures Find(s, sub) == if Find(s[k..], sub).Some? then Some(k + Find(s[k..], sub).value) else None
  {
    forall i: nat ensures OccursAt(s[k..], sub, i) <==> OccursAt(s, sub, k + i) {
      if k + i + |sub| <= |s| {
        assert s[k..][i..i + |sub|] == s[k + i..k + i + |sub|];
      }
    }
    var r := Find(s[k..], sub);
    if r.Some? {
      forall i: nat | i < k + r.value ensures !OccursAt(s, sub, i) {
        if i >= k {
          assert !OccursAt(s[k..], sub, i - k);
        }
      }
      FindIs(s, sub, k + r.value);
    } else {
      forall i: nat ensures !OccursAt(s, sub, i) {
        if i >= k {
          assert !OccursAt(s[k..], sub, i - k);
        }
      }
    }
  }

  /** A literal, then an opening: the opening is the first one. */
  lemma FindOpening(literal: string, rest: string)
    requires Find(literal, "{$").None?
    ensures Find(literal + "{$" + rest, "{$") == Some(|literal|)
  {
    var s := literal + "{$" + rest;
    forall i: nat | i < |literal| ensures !OccursAt(s, "{$", i) {
      if i + 2 <= |literal| {
        assert s[i..i + 2] == literal[i..i + 2];
        assert !OccursAt(literal, "{$", i);
      } else {
        assert s[i..i + 2][1] == s[i + 1] == '{';
      }
    }
    assert s[|literal|..|literal| + 2] == "{$";
    FindIs(s, "{$", |literal|);
  }

  lemma LiteralBefore(s: string, sub: string, i: nat)
    requires Find(s, sub) == Some(i) && sub != []
    ensures Find(s[..i], sub).None?
  {
    forall k: nat ensures !OccursAt(s[..i], sub, k) {
      if k + |sub| <= i {
        assert s[..i][k..k + |sub|] == s[k..k + |sub|];
        assert !OccursAt(s, sub, k);
      }
    }
  }

  lemma NameBefore(s: string, j: nat)
    requires Find(s, "}") == Some(j)
    ensures '}' !in s[..j] && s[j] == '}'
  {
    assert s[j..j + 1] == "}";
    forall i | 0 <= i < j ensures s[i] != '}' {
      assert !OccursAt(s, "}", i);
      assert s[i..i + 1] == [s[i]];
    }
  }

  lemma Cut(s: string, sub: string, i: nat)
    requires OccursAt(s, sub, i)
    ensures s == s[..i] + sub + s[i + |sub|..]
  {
  }

  lemma SlotCuts(pattern: string) returns (rest: string)
    requires FirstSlot(pattern).Slot?
    ensures var slot := FirstSlot(pattern);
            && pattern == slot.before + "{$" + rest
            && rest == slot.name + "}" + slot.after
            && Find(slot.before, "{$").None? && '}' !in slot.name
  {
    var i := Find(pattern, "{$").value;
    rest := pattern[i + 2..];
    var j := Find(rest, "}").value;
    LiteralBefore(pattern, "{$", i);
    NameBefore(rest, j);
    Cut(pattern, "{$", i);
    Cut(rest, "}", j);
  }

  lemma SlotParts(pattern: string)
    requires FirstSlot(pattern).Slot?
    ensures var slot := FirstSlot(pattern);
            && pattern == slot.before + "{$" + slot.name + "}" + slot.after
            && Find(slot.before, "{$").None? && '}' !in slot.name
  {
    hide *;
    var rest := SlotCuts(pattern);
    var slot := FirstSlot(pattern);
    assert slot.before + "{$" + (slot.name + "}" + slot.after) == slot.before + "{$" + slot.name + "}" + slot.after;
  }

  lemma SlotOf(before: string, name: string, after: string)
    requires Find(before, "{$").None? && '}' !in name
    ensures FirstSlot(before + "{$" + name + "}" + after) == Slot(before, name, after)
  {
    var rest := name + "}" + after;
    var pattern := before + "{$" + name + "}" + after;
    assert pattern == before + "{$" + rest;
    FindOpening(before, rest);
    assert pattern[|before| + 2..] == rest && pattern[..|before|] == before;
    FindChar(name, '}', after);
    assert rest[..|name|] == name && rest[|name| + 1..] == after;
  }

  lemma FirstTwo(before: string, name: string, more: seq<Piece>)
    ensures var pieces := [Literal(before), Argument(name)] + more;
            && Names(pieces) == [name] + Names(more)
            && Spell(pieces) == before + "{$" + name + "}" + Spell(more)
            && (Formed(pieces) <==> Find(before, "{$").None? && '}' !in name && Formed(more))
  {
    var pieces := [Literal(before), Argument(name)] + more;
    assert pieces[1..] == [Argument(name)] + more && pieces[1..][1..] == more && pieces[2..] == more;
    assert Names(pieces) == [] + Names(pieces[1..]);
    assert Spell(pieces) == before + ("{$" + name + "}" + Spell(more));
  }

  lemma FirstTwoFilled(before: string, name: string, more: seq<Piece>, args: Arguments)
    requires Lookup(args, name).Some?
    ensures Filled([Literal(before), Argument(name)] + more, args) ==
            before + Lookup(args, name).value.Show() + Filled(more, args)
  {
    var pieces := [Literal(before), Argument(name)] + more;
    assert pieces[1..] == [Argument(name)] + more && pieces[1..][1..] == more;
  }

  lemma OnePiece(text: string, args: Arguments)
    ensures Names([Literal(text)]) == [] && Spell([Literal(text)]) == text && Filled([Literal(text)], args) == text
  {
    var pieces := [Literal(text)];
    assert pieces[1..] == [] && text + [] == text;
    assert Names(pieces) == [] + Names(pieces[1..]);
  }

  /** Reading a pattern into pieces and spelling pieces are inverse. */
  lemma {:induction false} PiecesSpell(pattern: string)
    requires Pieces(pattern).Some?
    ensures Formed(Pieces(pattern).value) && Spell(Pieces(pattern).value) == pattern
    decreases |pattern|
  {
    hide Spell;
    hide FirstSlot;
    hide Find;
    var slot := FirstSlot(pattern);
    if slot.Slot? {
      PiecesSpell(slot.after);
      SlotParts(pattern);
      FirstTwo(slot.before, slot.name, Pieces(slot.after).value);
    } else {
      OnePiece(pattern, []);
      NoSlotPlain(pattern);
    }
  }

  lemma NoSlotPlain(pattern: string)
    requires FirstSlot(pattern).NoSlot?
    ensures Find(pattern, "{$").None?
  {
  }

  lemma {:induction false} SpellPieces(pieces: seq<Piece>)
    requires Formed(pieces)
    ensures Pieces(Spell(pieces)) == Some(pieces)
    decreases |pieces|
  {
    if |pieces| == 1 {
      OnePiece(pieces[0].text, []);
      assert pieces == [Literal(pieces[0].text)];
    } else {
      hide Spell;
      var more := pieces[2..];
      SpellPieces(more);
      FirstTwo(pieces[0].text, pieces[1].name, more);
      assert pieces == [Literal(pieces[0].text), Argument(pieces[1].name)] + more;
      SlotOf(pieces[0].text, pieces[1].name, Spell(more));
      hide FirstSlot;
    }
  }

  // ----- substitution --------------------------------------------------------------------------

  function Prepend(done: string, r: Result<string, TemplateError>): Result<string, TemplateError> {
    if r.Success? then Success(done + r.value) else r
  }

  /** Substitution from left to right, with its errors in order. */
  function Expand(pattern: string, args: Arguments): Result<string, TemplateError>
    decreases |pattern|
  {
    match FirstSlot(pattern)
    case NoSlot => Success(pattern)
    case Unclosed => Failure(Unterminated)
    case Slot(before, name, after) =>
      match Lookup(args, name)
      case None => Failure(MissingArgument(name))
      case Some(value) => Prepend(before + value.Show(), Expand(after, args))
  }

  lemma PrependTwice(a: string, b: string, r: Result<string, TemplateError>)
    ensures Prepend(a, Prepend(b, r)) == Prepend(a + b, r)
    ensures Prepend([], r) == r
  {
    if r.Success? {
      assert a + (b + r.value) == a + b + r.value;
      assert [] + r.value == r.value;
    }
  }

  /** The loop of `substitute`, which edits its output in place and goes on
      after what it inserted. */
  method Substitute(pattern: string, args: Arguments) returns (r: Result<string, TemplateError>)
    ensures r == Expand(pattern, args)
  {
    hide *;
    var output := pattern;
    var cursor := 0;
    assert output[..0] == [] && output[0..] == pattern;
    PrependTwice([], [], Expand(pattern, args));
    while true
      invariant 0 <= cursor <= |output|
      invariant Expand(pattern, args) == Prepend(output[..cursor], Expand(output[cursor..], args))
      decreases |output| - cursor
    {
      SlotByFind(output, cursor);
      ExpandStep(output[cursor..], args);
      var relative := Find(output[cursor..], "{$");
      if relative.None? {
        PrependAll(output, cursor);
        return Success(output);
      }
      var start := cursor + relative.value;
      var offset := Find(output[start..], "}");
      if offset.None? {
        PrependFailure(output[..cursor], Unterminated);
        return Failure(Unterminated);
      }
      var end := start + offset.value;
      var name := output[start + 2..end];
      var value := Lookup(args, name);
      if value.None? {
        PrependFailure(output[..cursor], MissingArgument(name));
        return Failure(MissingArgument(name));
      }
      var text := value.value.Show();
      Edited(output, cursor, start, end, text, Expand(output[end + 1..], args));
      output := output[..start] + text + output[end + 1..];
      cursor := start + |text|;
    }
  }

  lemma ExpandStep(pattern: string, args: Arguments)
    ensures var slot := FirstSlot(pattern);
            && (slot.NoSlot? ==> Expand(pattern, args) == Success(pattern))
            && (slot.Unclosed? ==> Expand(pattern, args) == Failure(Unterminated))
            && (slot.Slot? ==>
                  var value := Lookup(args, slot.name);
                  Expand(pattern, args) ==
                    if value.None? then Failure(MissingArgument(slot.name))
                    else Prepend(slot.before + value.value.Show(), Expand(slot.after, args)))
  {
  }

  lemma PrependFailure(done: string, e: TemplateError)
    ensures Prepend(done, Failure(e)) == Failure(e)
  {
  }

  lemma PrependAll(output: string, cursor: nat)
    requires cursor <= |output|
    ensures Prepend(output[..cursor], Success(output[cursor..])) == Success(output)
  {
    assert output[..cursor] + output[cursor..] == output;
  }

  /** The two searches of the loops find the first slot of the unread text. */
  lemma SlotByFind(output: string, cursor: nat)
    requires cursor <= |output|
    ensures var slot, opening := FirstSlot(output[cursor..]), Find(output[cursor..], "{$");
            && (opening.None? <==> slot.NoSlot?)
            && (opening.Some? ==>
                  var start := cursor + opening.value;
                  var close := Find(output[start..], "}");
                  && start + 2 <= |output|
                  && (close.None? <==> slot.Unclosed?)
                  && (Find(output[start + 2..], "}").None? <==> close.None?)
                  && (close.Some? ==>
                        var end := start + close.value;
                        && Find(output[start + 2..], "}") == Some(close.value - 2)
                        && start + 2 <= end < |output|
                        && slot == Slot(output[cursor..start], output[start + 2..end], output[end + 1..])))
  {
    hide *;
    var tail := output[cursor..];
    var opening := Find(tail, "{$");
    TailSlot(tail);
    if opening.Some? {
      var start := cursor + opening.value;
      CloseAfterOpening(tail, opening.value);
      assert output[start..] == tail[opening.value..];
      assert output[start + 2..] == tail[opening.value + 2..];
      var close := Find(tail[opening.value + 2..], "}");
      if close.Some? {
        SlotSlices(output, cursor, start, start + 2 + close.value);
      }
    }
  }

  /** `FirstSlot` in terms of its two searches. */
  lemma TailSlot(tail: string)
    ensures var slot, opening := FirstSlot(tail), Find(tail, "{$");
            && (opening.None? <==> slot.NoSlot?)
            && (opening.Some? ==>
                  && opening.value + 2 <= |tail|
                  && var rest := tail[opening.value + 2..];
                  var close := Find(rest, "}");
                  && (close.None? <==> slot.Unclosed?)
                  && (close.Some? ==>
                        && close.value + 1 <= |rest|
                        && slot == Slot(tail[..opening.value], rest[..close.value], rest[close.value + 1..])))
  {
  }

  lemma CloseAfterOpening(tail: string, at: nat)
    requires Find(tail, "{$") == Some(at)
    ensures at + 2 <= |tail|
    ensures Find(tail[at..], "}") ==
            if Find(tail[at + 2..], "}").Some? then Some(2 + Find(tail[at + 2..], "}").value) else None
    ensures Find(tail[at + 2..], "}").Some? ==> at + 2 + Find(tail[at + 2..], "}").value < |tail|
  {
    var s := tail[at..];
    Cut(tail, "{$", at);
    assert s == "{$" + tail[at + 2..];
    assert s[0] == '{' && s[1] == '$' && s[2..] == tail[at + 2..];
    forall i: nat | i < 2 ensures !OccursAt(s, "}", i) {
      assert s[i..i + 1] == [s[i]];
    }
    FindShifted(s, "}", 2);
  }

  lemma SlotSlices(output: string, cursor: nat, start: nat, end: nat)
    requires cursor <= start && start + 2 <= end < |output|
    ensures var tail := output[cursor..];
            var rest := tail[start - cursor + 2..];
            && tail[..start - cursor] == output[cursor..start]
            && rest[..end - start - 2] == output[start + 2..end]
            && rest[end - start - 1..] == output[end + 1..]
  {
  }

  /** One edit: what is done grows by the text before the argument and the
      argument's value, and what is left is what follows the argument. */
  lemma Edited(output: string, cursor: nat, start: nat, end: nat, text: string, r: Result<string, TemplateError>)
    requires cursor <= start <= end < |output|
    ensures var edited := output[..start] + text + output[end + 1..];
            && edited[start + |text|..] == output[end + 1..]
            && Prepend(output[..cursor], Prepend(output[cursor..start] + text, r)) ==
               Prepend(edited[..start + |text|], r)
  {
    var edited := output[..start] + text + output[end + 1..];
    assert edited[..start + |text|] == output[..start] + text == output[..cursor] + (output[cursor..start] + text);
    PrependTwice(output[..cursor], output[cursor..start] + text, r);
  }

  predicate Covered(names: seq<string>, args: Arguments) {
    forall name <- names :: Lookup(args, name).Some?
  }

  lemma CoveredCons(name: string, names: seq<string>, args: Arguments)
    ensures Covered([name] + names, args) <==> Lookup(args, name).Some? && Covered(names, args)
  {
    assert forall n :: n in [name] + names <==> n == name || n in names;
  }

  /** Substitution is simultaneous replacement of the pattern's own arguments:
      what is inserted is never read again.  It succeeds exactly when every
      argument is closed and has a value. */
  lemma {:induction false} ExpandIsSimultaneous(pattern: string, args: Arguments)
    ensures Expand(pattern, args).Success? <==>
              Pieces(pattern).Some? && Covered(Names(Pieces(pattern).value), args)
    ensures Expand(pattern, args).Success? ==> Expand(pattern, args).value == Filled(Pieces(pattern).value, args)
    decreases |pattern|
  {
    hide Names;
    hide Filled;
    hide FirstSlot;
    hide Lookup;
    hide Covered;
    var slot := FirstSlot(pattern);
    if slot.Slot? {
      ExpandIsSimultaneous(slot.after, args);
      if Pieces(slot.after).Some? {
        var more := Pieces(slot.after).value;
        FirstTwo(slot.before, slot.name, more);
        CoveredCons(slot.name, Names(more), args);
        if Lookup(args, slot.name).Some? {
          FirstTwoFilled(slot.before, slot.name, more, args);
        }
      }
    } else {
      OnePiece(pattern, args);
      NothingToCover(args);
    }
  }

  lemma NothingToCover(args: Arguments)
    ensures Covered([], args)
  {
  }

  /** The loop of `pattern_arguments`. */
  method PatternArguments(pattern: string) returns (r: Result<seq<string>, TemplateError>)
    ensures r.Success? <==> Pieces(pattern).Some?
    ensures r.Success? ==> r.value == NamesOf(pattern)
    ensures r.Failure? ==> r.error == Unterminated
  {
    hide *;
    var arguments: seq<string> := [];
    var cursor := 0;
    assert pattern[0..] == pattern;
    while true
      invariant 0 <= cursor <= |pattern|
      invariant Pieces(pattern).Some? <==> Pieces(pattern[cursor..]).Some?
      invariant Pieces(pattern).Some? ==> NamesOf(pattern) == arguments + NamesOf(pattern[cursor..])
      decreases |pattern| - cursor
    {
      var relative := Find(pattern[cursor..], "{$");
      ArgumentStep(pattern, cursor, arguments, relative);
      if relative.None? {
        return Success(arguments);
      }
      var start := cursor + relative.value + 2;
      var offset := Find(pattern[start..], "}");
      if offset.None? {
        return Failure(Unterminated);
      }
      var end := start + offset.value;
      arguments := arguments + [pattern[start..end]];
      cursor := end + 1;
    }
  }

  lemma ArgumentStep(pattern: string, cursor: nat, arguments: seq<string>, opening: Option<nat>)
    requires cursor <= |pattern| && opening == Find(pattern[cursor..], "{$")
    ensures opening.None? ==>
              Pieces(pattern[cursor..]).Some? && arguments + NamesOf(pattern[cursor..]) == arguments
    ensures opening.Some? ==>
              var start := cursor + opening.value + 2;
              && start <= |pattern|
              && var close := Find(pattern[start..], "}");
              && (close.None? ==> Pieces(pattern[cursor..]).None?)
              && (close.Some? ==>
                    var end := start + close.value;
                    && start <= end < |pattern|
                    && (Pieces(pattern[cursor..]).Some? <==> Pieces(pattern[end + 1..]).Some?)
                    && (Pieces(pattern[cursor..]).Some? ==>
                          arguments + NamesOf(pattern[cursor..]) ==
                          (arguments + [pattern[start..end]]) + NamesOf(pattern[end + 1..])))
  {
    hide *;
    SlotByFind(pattern, cursor);
    NamesStep(pattern[cursor..], arguments);
  }

  lemma NamesStep(pattern: string, arguments: seq<string>)
    ensures var slot := FirstSlot(pattern);
            && (slot.NoSlot? ==> Pieces(pattern).Some? && arguments + NamesOf(pattern) == arguments)
            && (slot.Unclosed? ==> Pieces(pattern).None?)
            && (slot.Slot? ==>
                  && (Pieces(pattern).Some? <==> Pieces(slot.after).Some?)
                  && (Pieces(pattern).Some? ==>
                        arguments + NamesOf(pattern) == (arguments + [slot.name]) + NamesOf(slot.after)))
  {
    hide FirstSlot;
    hide Names;
    var slot := FirstSlot(pattern);
    if slot.NoSlot? {
      OnePiece(pattern, []);
    } else if slot.Slot? && Pieces(slot.after).Some? {
      FirstTwo(slot.before, slot.name, Pieces(slot.after).value);
      assert arguments + ([slot.name] + NamesOf(slot.after)) == (arguments + [slot.name]) + NamesOf(slot.after);
    }
  }

  // ----- values ------------------------------------------------------------------------------

  /** Texts show themselves, Booleans their names, and numbers their digits without
      leading zeros, behind a minus sign when negative. */
  lemma ShownValues(text: string, n: nat)
    ensures TextValue(text).Show() == text
    ensures BooleanValue(true).Show() == "true" && BooleanValue(false).Show() == "false"
    ensures SignedValue(n).Show() == UnsignedValue(n).Show()
    ensures n > 0 ==> SignedValue(0 - n).Show() == "-" + UnsignedValue(n).Show()
    ensures var digits := UnsignedValue(n).Show();
            && AllDigits(digits) && DigitsValue(digits) == n
            && (digits == "0" || digits[0] != '0')
  {
    DecimalValue(n);
    DecimalStart(n);
  }

  /** The value under a name is that of the first argument with it. */
  lemma {:induction false} LookupIsFirst(args: Arguments, name: string, at: nat)
    requires at < |args| && args[at].0 == name && forall i | 0 <= i < at :: args[i].0 != name
    ensures Lookup(args, name) == Some(args[at].1)
  {
    if at > 0 {
      assert args[0].0 != name;
      LookupIsFirst(args[1..], name, at - 1);
    }
  }
}
