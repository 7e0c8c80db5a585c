/** Reading a catalog file that nobody wrote by program: comments, blank and
    indented lines, either line end, and values that do not unescape. */
module CatalogLines {
  import opened Wrappers
  import opened Text
  import opened CatalogFile

  // ----- lines ----------------------------------------------------------------------------

  /** A line ends at a line feed, with or without a carriage return before it, or at
      the end of the file. */
  lemma LinesAre(line: string, rest: string)
    requires '\n' !in line && (line != [] ==> line[|line| - 1] != '\r')
    ensures Lines(line + "\n" + rest) == [line] + Lines(rest)
    ensures Lines(line + "\r\n" + rest) == [line] + Lines(rest)
    ensures Lines(line) == if line == [] then [] else [line]
  {
    hide Lines;
    assert StripReturn(line) == line;
    assert StripReturn(line + "\r") == line by {
      assert (line + "\r")[..|line|] == line;
    }
    hide StripReturn;
    LineFeedEnds(line, rest);
    LineFeedEnds(line + "\r", rest);
    assert line + "\r" + "\n" + rest == line + "\r\n" + rest;
    NoLineFeed(line);
  }

  lemma LineFeedEnds(line: string, rest: string)
    requires '\n' !in line
    ensures Lines(line + "\n" + rest) == [StripReturn(line)] + Lines(rest)
  {
    var s := line + "\n" + rest;
    FindChar(line, '\n', rest);
    hide Find;
    assert s[..|line|] == line && s[|line| + 1..] == rest;
  }

  lemma NoLineFeed(line: string)
    requires '\n' !in line
    ensures Lines(line) == if line == [] then [] else [line]
  {
    forall i: nat ensures !OccursAt(line, "\n", i) {
      if i < |line| {
        assert line[i..i + 1] == [line[i]];
      }
    }
  }

  // ----- what a line is -----------------------------------------------------------------------

  predicate Blank(s: string) {
    forall c <- s :: IsWhitespace(c)
  }

  /** The pieces of a line that gives an entry or a bad escape. */
  datatype Parts = Parts(indent: string, key: string, gap: string, text: string, tail: string) {
    predicate Legal() {
      && Blank(indent) && Blank(gap) && Blank(tail)
      && key != [] && key[0] != '#' && !IsWhitespace(key[0]) && !IsWhitespace(key[|key| - 1])
      && text != [] && !IsWhitespace(text[|text| - 1])
      && forall i: nat | i < |key| + |gap| :: !OccursAt(key + gap + " = " + text, " = ", i)
    }

    function Body(): string {
      key + gap + " = " + text
    }

    function Line(): string {
      indent + Body() + tail
    }
  }

  lemma {:induction false} TrimStartOf(indent: string, body: string)
    requires Blank(indent) && body != [] && !IsWhitespace(body[0])
    ensures TrimStart(indent + body) == body
    decreases |indent|
  {
    if indent == [] {
      assert indent + body == body;
    } else {
      assert indent[0] in indent;
      assert (indent + body)[1..] == indent[1..] + body;
      TrimStartOf(indent[1..], body);
    }
  }

  lemma TrimmedLine(p: Parts)
    requires p.Legal()
    ensures TrimEnd(p.Line()) == p.indent + p.Body() && TrimStart(p.indent + p.Body()) == p.Body()
  {
    var body := p.Body();
    assert body[0] == p.key[0] && body[|body| - 1] == p.text[|p.text| - 1];
    TrimStartOf(p.indent, body);
    hide TrimEnd;
    TrimEndOf(p.indent + body, p.tail);
  }

  /** A line of these pieces gives its key and its text unescaped, or the error of
      its first bad escape. */
  lemma PartsParse(p: Parts)
    requires p.Legal()
    ensures ParseLine(p.Line()) ==
              match Unescape(p.text)
              case Failure(e) => Failure(BadEscape(p.indent + p.Body(), e))
              case Success(value) => Success(Some((p.key, value)))
  {
    hide Unescape;
    hide TrimStart;
    hide TrimEnd;
    hide IsWhitespace;
    hide OccursAt;
    TrimmedLine(p);
    SeparatorIs(p);
    KeyIsTrimmed(p);
    hide Find;
  }

  lemma SeparatorIs(p: Parts)
    requires p.Legal()
    ensures var at := |p.key| + |p.gap|;
            && Find(p.Body(), " = ") == Some(at)
            && p.Body()[..at] == p.key + p.gap && p.Body()[at + 3..] == p.text
  {
    var body, at := p.Body(), |p.key| + |p.gap|;
    assert body[at..at + 3] == " = ";
    FindIs(body, " = ", at);
  }

  lemma KeyIsTrimmed(p: Parts)
    requires p.Legal()
    ensures TrimStart(TrimEnd(p.key + p.gap)) == p.key
  {
    TrimEndOf(p.key, p.gap);
  }

  /** A line is skipped exactly when it is blank or its first character past the
      indent is `#`. */
  lemma SkippedExactly(raw: string)
    ensures ParseLine(raw) == Success(None) <==>
              Blank(raw) || exists i | 0 <= i < |raw| :: raw[i] == '#' && Blank(raw[..i])
  {
    hide Find;
    hide Unescape;
    hide Blank;
    hide IsWhitespace;
    var line, tail := SplitTail(raw);
    var indent, body := SplitIndent(line);
    SkippedIf(raw);
    hide ParseLine;
    hide TrimEnd;
    hide TrimStart;
    BlankPieces(indent, tail);
    if body == [] {
      assert raw == indent + tail;
    } else {
      assert raw == indent + body + tail && raw[|indent|] == body[0] && raw[..|indent|] == indent;
      FirstMark(raw, |indent|);
    }
  }

  lemma BlankPieces(indent: string, tail: string)
    requires Blank(indent) && forall c <- tail :: IsWhitespace(c)
    ensures Blank(indent + tail)
  {
  }

  lemma SkippedIf(raw: string)
    ensures var body := TrimStart(TrimEnd(raw));
            ParseLine(raw) == Success(None) <==> body == [] || body[0] == '#'
  {
    hide Find;
    hide Unescape;
  }

  lemma BlankUpTo(raw: string, i: nat)
    requires i <= |raw|
    ensures Blank(raw[..i]) <==> forall k | 0 <= k < i :: IsWhitespace(raw[k])
  {
    forall k | 0 <= k < i ensures raw[k] in raw[..i] {
      assert raw[..i][k] == raw[k];
    }
  }

  lemma FirstMark(raw: string, at: nat)
    requires at < |raw| && Blank(raw[..at]) && !IsWhitespace(raw[at])
    ensures !Blank(raw)
    ensures raw[at] == '#' <==> exists i | 0 <= i < |raw| :: raw[i] == '#' && Blank(raw[..i])
  {
    assert raw[at] in raw;
    BlankUpTo(raw, at);
    forall i | 0 <= i < |raw| && raw[i] == '#' && Blank(raw[..i]) ensures i == at {
      BlankUpTo(raw, i);
    }
  }

  lemma {:induction false} SplitIndent(s: string) returns (indent: string, body: string)
    ensures s == indent + body && Blank(indent) && body == TrimStart(s)
    ensures body != [] ==> !IsWhitespace(body[0])
    decreases |s|
  {
    if s != [] && IsWhitespace(s[0]) {
      indent, body := SplitIndent(s[1..]);
      indent := [s[0]] + indent;
      assert s == [s[0]] + s[1..];
    } else {
      indent, body := [], s;
    }
  }

  /** Every other line without a separator is refused as it stands, and every line
      with one is made of such pieces. */
  lemma LineIsParts(raw: string) returns (p: Parts)
    requires ParseLine(raw) != Success(None) && ParseLine(raw) != Failure(NotKeyValue(TrimEnd(raw)))
    ensures p.Legal() && p.Line() == raw
  {
    hide *;
    var line, tail := SplitTail(raw);
    var indent, body := SplitIndent(line);
    var at := SeparatorOf(raw);
    var key, gap := SplitTail(body[..at]);
    EndsBare(line, body);
    BlankIs(gap);
    BlankIs(tail);
    KeyStartsLine(body, at, key, gap);
    TextEndsLine(body, at);
    p := Parts(indent, key, gap, body[at + 3..], tail);
    Assembled(p, raw, line, body, at);
  }

  lemma BlankIs(s: string)
    ensures Blank(s) <==> forall c <- s :: IsWhitespace(c)
  {
  }

  lemma Assembled(p: Parts, raw: string, line: string, body: string, at: nat)
    requires raw == line + p.tail && line == p.indent + body
    requires at + 3 <= |body| && body[at..at + 3] == " = " && body[..at] == p.key + p.gap && p.text == body[at + 3..]
    requires Blank(p.indent) && Blank(p.gap) && Blank(p.tail)
    requires p.key != [] && p.key[0] != '#' && !IsWhitespace(p.key[0]) && !IsWhitespace(p.key[|p.key| - 1])
    requires p.text != [] && !IsWhitespace(p.text[|p.text| - 1])
    requires forall i: nat | i < at :: !OccursAt(body, " = ", i)
    ensures p.Legal() && p.Line() == raw
  {
    hide Blank;
    hide IsWhitespace;
    hide OccursAt;
    assert |p.key| + |p.gap| == |body[..at]| == at;
    assert body == body[..at] + " = " + p.text;
  }

  lemma SeparatorOf(raw: string) returns (at: nat)
    requires ParseLine(raw) != Success(None) && ParseLine(raw) != Failure(NotKeyValue(TrimEnd(raw)))
    ensures var body := TrimStart(TrimEnd(raw));
            && body != [] && body[0] != '#' && at + 3 <= |body| && body[at..at + 3] == " = " && body[at] == ' '
            && forall i: nat | i < at :: !OccursAt(body, " = ", i)
  {
    hide Unescape;
    var body := TrimStart(TrimEnd(raw));
    at := Find(body, " = ").value;
    assert body[at] == body[at..at + 3][0];
  }

  lemma EndsBare(line: string, body: string)
    requires line == [] || !IsWhitespace(line[|line| - 1])
    requires body == TrimStart(line) && body != []
    ensures !IsWhitespace(body[|body| - 1])
  {
    hide TrimStart;
    hide IsWhitespace;
    var indent, rest := SplitIndent(line);
    assert line[|line| - 1] == body[|body| - 1];
  }

  lemma KeyStartsLine(body: string, at: nat, key: string, gap: string)
    requires at <= |body| && body != [] && !IsWhitespace(body[0]) && body[at..] != [] && body[at] == ' '
    requires body[..at] == key + gap && key == TrimEnd(body[..at]) && Blank(gap)
    ensures key != [] && key[0] == body[0] && !IsWhitespace(key[|key| - 1])
  {
    assert at > 0 && body[..at][0] == body[0];
    assert key != [];
  }

  lemma TextEndsLine(body: string, at: nat)
    requires at + 3 <= |body| && body[at..at + 3] == " = " && !IsWhitespace(body[|body| - 1])
    ensures body[at + 3..] != [] && body[at + 3..][|body| - at - 4] == body[|body| - 1]
  {
    assert body[at + 2] == body[at..at + 3][2] == ' ';
  }

  // ----- a whole file ----------------------------------------------------------------------------

  /** The entries of the lines that have one, in order. */
  function EntriesOf(lines: seq<string>): seq<Entry> {
    if lines == [] then []
    else
      var r := ParseLine(lines[|lines| - 1]);
      EntriesOf(lines[..|lines| - 1]) + if r.Success? && r.value.Some? then [r.value.value] else []
  }

  /** A file parses exactly when every line does, to the entries of its lines in
      order; otherwise it fails with the error of its first bad line. */
  lemma {:induction false} FileIsItsLines(lines: seq<string>)
    ensures ParseLines(lines).Success? <==> forall line <- lines :: ParseLine(line).Success?
    ensures ParseLines(lines).Success? ==> ParseLines(lines).value == EntriesOf(lines)
    ensures ParseLines(lines).Failure? ==>
              exists k | 0 <= k < |lines| ::
                && ParseLine(lines[k]) == Failure(ParseLines(lines).error)
                && forall j | 0 <= j < k :: ParseLine(lines[j]).Success?
    decreases |lines|
  {
    hide ParseLine;
    if lines != [] {
      var init, last := lines[..|lines| - 1], lines[|lines| - 1];
      FileIsItsLines(init);
      ParseLinesSnoc(init, last);
      assert lines == init + [last];
      if ParseLines(lines).Failure? {
        if ParseLines(init).Failure? {
          var k :| 0 <= k < |init| && ParseLine(init[k]) == Failure(ParseLines(init).error)
            && forall j | 0 <= j < k :: ParseLine(init[j]).Success?;
          assert lines[k] == init[k];
        } else {
          assert ParseLine(lines[|init|]) == Failure(ParseLines(lines).error);
          forall j | 0 <= j < |init| ensures ParseLine(lines[j]).Success? {
            assert init[j] in init;
          }
        }
      }
    }
  }

  lemma {:induction false} ParseLinesSnoc(init: seq<string>, last: string)
    ensures ParseLines(init + [last]) ==
              if ParseLines(init).Failure? then ParseLines(init)
              else if ParseLine(last).Failure? then Failure(ParseLine(last).error)
              else if ParseLine(last).value.None? then ParseLines(init)
              else Success(ParseLines(init).value + [ParseLine(last).value.value])
    decreases |init|
  {
    hide ParseLine;
    if init == [] {
      assert [] + [last] == [last] && [last][1..] == [];
      assert ParseLines([last][1..]) == Success([]);
      if ParseLine(last).Success? && ParseLine(last).value.Some? {
        assert [ParseLine(last).value.value] + [] == [] + [ParseLine(last).value.value];
      }
    } else {
      ParseLinesSnoc(init[1..], last);
      assert (init + [last])[1..] == init[1..] + [last];
      var first := ParseLine(init[0]);
      if first.Success? && first.value.Some? && ParseLines(init[1..]).Success? {
        var rest := ParseLines(init[1..]).value;
        if ParseLine(last).Success? && ParseLine(last).value.Some? {
          assert [first.value.value] + (rest + [ParseLine(last).value.value]) ==
                 [first.value.value] + rest + [ParseLine(last).value.value];
        }
      }
    }
  }

  // ----- escapes -------------------------------------------------------------------------------------

  /** The escapes, letter by letter. */
  lemma EscapesAre(c: char)
    ensures EscapeChar('\\') == "\\\\" && EscapeChar('\n') == "\\n"
    ensures EscapeChar('\t') == "\\t" && EscapeChar('\r') == "\\r"
    ensures c !in {'\\', '\n', '\t', '\r'} ==> EscapeChar(c) == [c]
    ensures Unescape("\\s") == Success(" ")
  {
    assert "\\s"[2..] == "" && [' '] + "" == " ";
  }

  /** After text that unescapes, a backslash before any other character is an
      unknown escape, and one before nothing is a stray backslash. */
  lemma BadEscapesFail(good: string, c: char, rest: string)
    requires Unescape(good).Success? && c !in {'\\', 'n', 't', 'r', 's'}
    ensures Unescape(good + "\\" + [c] + rest) == Failure(UnknownEscape(c))
    ensures Unescape(good + "\\") == Failure(TrailingBackslash)
  {
    var bad := "\\" + [c] + rest;
    assert good + "\\" + [c] + rest == good + bad;
    UnescapeJoins(good, bad);
    UnescapeJoins(good, "\\");
  }
}
