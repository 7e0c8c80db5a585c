/** The catalog file format: `key = value` lines with escaped values. */
module CatalogFile {
  import opened Wrappers
  import opened Text

  datatype EscapeError = UnknownEscape(other: char) | TrailingBackslash

  datatype ParseError = NotKeyValue(line: string) | BadEscape(badLine: string, error: EscapeError)

  type Unescaped = Result<string, EscapeError>

  // ----- white space and lines -------------------------------------------------------------

  /** The characters with the Unicode property White_Space. */
  predicate IsWhitespace(c: char) {
    || '\t' <= c <= '\r' || c == ' ' || c == '\U{85}' || c == '\U{A0}' || c == '\U{1680}'
    || '\U{2000}' <= c <= '\U{200A}' || c == '\U{2028}' || c == '\U{2029}' || c == '\U{202F}'
    || c == '\U{205F}' || c == '\U{3000}'
  }

  /** White space that `Escape` writes as it is. */
  predicate IsBareWhitespace(c: char) {
    IsWhitespace(c) && c !in {' ', '\t', '\n', '\r'}
  }

  function TrimEnd(s: string): (r: string)
    ensures r <= s && forall i | |r| <= i < |s| :: IsWhitespace(s[i])
    ensures r != [] ==> !IsWhitespace(r[|r| - 1])
  {
    if s != [] && IsWhitespace(s[|s| - 1]) then TrimEnd(s[..|s| - 1]) else s
  }

  function TrimStart(s: string): string {
    if s != [] && IsWhitespace(s[0]) then TrimStart(s[1..]) else s
  }

  function StripReturn(s: string): string {
    if s != [] && s[|s| - 1] == '\r' then s[..|s| - 1] else s
  }

  /** `str::lines`: a carriage return is dropped only before a line feed. */
  function Lines(s: string): seq<string>
    decreases |s|
  {
    if s == [] then []
    else match Find(s, "\n")
      case None => [s]
      case Some(i) => [StripReturn(s[..i])] + Lines(s[i + 1..])
  }

  // ----- escapes ------------------------------------------------------------------------------

  function EscapeChar(c: char): string {
    match c
    case '\\' => "\\\\"
    case '\n' => "\\n"
    case '\t' => "\\t"
    case '\r' => "\\r"
    case _ => [c]
  }

  function EscapeChars(value: string): string {
    if value == [] then [] else EscapeChars(value[..|value| - 1]) + EscapeChar(value[|value| - 1])
  }

  function LeadingSpaces(s: string): (n: nat)
    ensures n <= |s| && (forall i | 0 <= i < n :: s[i] == ' ') && (n < |s| ==> s[n] != ' ')
  {
    if s != [] && s[0] == ' ' then 1 + LeadingSpaces(s[1..]) else 0
  }

  function TrailingSpaces(s: string): (n: nat)
    ensures n <= |s| && (forall i | |s| - n <= i < |s| :: s[i] == ' ') && (n < |s| ==> s[|s| - n - 1] != ' ')
  {
    if s != [] && s[|s| - 1] == ' ' then 1 + TrailingSpaces(s[..|s| - 1]) else 0
  }

  /** `"\\s".repeat(n)`. */
  function EscapedSpaces(n: nat): string {
    if n == 0 then [] else "\\s" + EscapedSpaces(n - 1)
  }

  function Escape(value: string): string {
    var out := EscapeChars(value);
    var leading, trailing := LeadingSpaces(out), TrailingSpaces(out);
    if leading == |out| then EscapedSpaces(leading)
    else if leading <= |out| - trailing then
      EscapedSpaces(leading) + out[leading..|out| - trailing] + EscapedSpaces(trailing)
    else out
  }

  /** What `\c` denotes. */
  function EscapeMeaning(c: char): Option<char> {
    match c
    case '\\' => Some('\\')
    case 'n' => Some('\n')
    case 't' => Some('\t')
    case 'r' => Some('\r')
    case 's' => Some(' ')
    case _ => None
  }

  function Prepend(out: string, r: Unescaped): Unescaped {
    if r.Success? then Success(out + r.value) else r
  }

  lemma PrependNothing(r: Unescaped)
    ensures Prepend([], r) == r
  {
    if r.Success? {
      assert [] + r.value == r.value;
    }
  }

  lemma PrependTwice(a: string, b: string, r: Unescaped)
    ensures Prepend(a, Prepend(b, r)) == Prepend(a + b, r)
  {
    if r.Success? {
      assert a + (b + r.value) == a + b + r.value;
    }
  }

  function Unescape(value: string): Unescaped {
    if value == [] then Success([])
    else if value[0] != '\\' then Prepend([value[0]], Unescape(value[1..]))
    else if |value| == 1 then Failure(TrailingBackslash)
    else match EscapeMeaning(value[1])
      case None => Failure(UnknownEscape(value[1]))
      case Some(c) => Prepend([c], Unescape(value[2..]))
  }

  /** The loop of `unescape`, one character or escape at a time. */
  method UnescapeText(value: string) returns (r: Unescaped)
    ensures r == Unescape(value)
  {
    var out: string := [];
    var i := 0;
    assert value[0..] == value;
    PrependNothing(Unescape(value));
    while i < |value|
      invariant 0 <= i <= |value|
      invariant Unescape(value) == Prepend(out, Unescape(value[i..]))
    {
      if value[i] != '\\' {
        assert value[i..][1..] == value[i + 1..];
        PrependTwice(out, [value[i]], Unescape(value[i + 1..]));
        out, i := out + [value[i]], i + 1;
      } else if i + 1 == |value| {
        return Failure(TrailingBackslash);
      } else {
        var meaning := EscapeMeaning(value[i + 1]);
        if meaning.None? {
          return Failure(UnknownEscape(value[i + 1]));
        }
        assert value[i..][2..] == value[i + 2..];
        PrependTwice(out, [meaning.value], Unescape(value[i + 2..]));
        out, i := out + [meaning.value], i + 2;
      }
    }
    assert value[i..] == [] && out + [] == out;
    return Success(out);
  }

  method EscapeText(value: string) returns (r: string)
    ensures r == Escape(value)
  {
    var out: string := [];
    for i := 0 to |value|
      invariant out == EscapeChars(value[..i])
    {
      assert value[..i + 1][..i] == value[..i];
      out := out + EscapeChar(value[i]);
    }
    assert value[..|value|] == value;
    var leading, trailing := LeadingSpaces(out), TrailingSpaces(out);
    if leading == |out| {
      return EscapedSpaces(leading);
    }
    EdgesApart(out);
    return EscapedSpaces(leading) + out[leading..|out| - trailing] + EscapedSpaces(trailing);
  }

  lemma EdgesApart(s: string)
    requires LeadingSpaces(s) < |s|
    ensures LeadingSpaces(s) + TrailingSpaces(s) < |s|
  {
    assert s[LeadingSpaces(s)] != ' ';
  }

  // ----- the inverse ---------------------------------------------------------------------------

  lemma {:induction false} UnescapeJoins(a: string, b: string)
    requires Unescape(a).Success?
    ensures Unescape(a + b) == Prepend(Unescape(a).value, Unescape(b))
    decreases |a|
  {
    if a == [] {
      assert a + b == b;
      PrependNothing(Unescape(b));
    } else {
      var n := if a[0] != '\\' then 1 else 2;
      assert (a + b)[n..] == a[n..] + b;
      UnescapeJoins(a[n..], b);
      var c := if n == 1 then a[0] else EscapeMeaning(a[1]).value;
      PrependTwice([c], Unescape(a[n..]).value, Unescape(b));
    }
  }

  lemma UnescapeOfChar(c: char)
    ensures Unescape(EscapeChar(c)) == Success([c])
  {
    var e := EscapeChar(c);
    assert Prepend([c], Success([])) == Success([c]) by {
      assert [c] + [] == [c];
    }
    if |e| == 2 {
      assert e[2..] == [];
    } else {
      assert e[1..] == [];
    }
  }

  lemma {:induction false} UnescapeOfChars(value: string)
    ensures Unescape(EscapeChars(value)) == Success(value)
  {
    if value != [] {
      var init, last := value[..|value| - 1], value[|value| - 1];
      UnescapeOfChars(init);
      UnescapeJoins(EscapeChars(init), EscapeChar(last));
      UnescapeOfChar(last);
      assert init + [last] == value;
    }
  }

  function Spaces(n: nat): string {
    seq(n, _ => ' ')
  }

  lemma {:induction false} UnescapeOfSpaces(n: nat)
    ensures Unescape(EscapedSpaces(n)) == Success(Spaces(n))
  {
    if n == 0 {
      assert Spaces(0) == [];
    } else {
      UnescapeOfSpaces(n - 1);
      var e := EscapedSpaces(n);
      assert e[0] == '\\' && e[1] == 's' && e[2..] == EscapedSpaces(n - 1);
      assert Spaces(n) == [' '] + Spaces(n - 1);
    }
  }

  lemma Associate(a: string, b: string, c: string)
    ensures a + b + c == a + (b + c)
  {
  }

  lemma EscapeCharsSnoc(a: string, c: char)
    ensures EscapeChars(a + [c]) == EscapeChars(a) + EscapeChar(c)
  {
    assert (a + [c])[..|a|] == a;
  }

  lemma {:induction false} EscapeCharsJoins(a: string, b: string)
    ensures EscapeChars(a + b) == EscapeChars(a) + EscapeChars(b)
    decreases |b|
  {
    if b == [] {
      assert a + b == a;
      assert EscapeChars(a) + [] == EscapeChars(a);
    } else {
      hide *;
      var init, last := b[..|b| - 1], b[|b| - 1];
      EscapeCharsJoins(a, init);
      SnocOfLast(a, b);
      EscapeCharsSnoc(a + init, last);
      EscapeCharsSnoc(init, last);
      Associate(EscapeChars(a), EscapeChars(init), EscapeChar(last));
    }
  }

  lemma SnocOfLast(a: string, b: string)
    requires b != []
    ensures b[..|b| - 1] + [b[|b| - 1]] == b
    ensures a + b[..|b| - 1] + [b[|b| - 1]] == a + b
  {
  }

  lemma {:induction false} EscapeCharsOfSpaces(n: nat)
    ensures EscapeChars(Spaces(n)) == Spaces(n)
  {
    if n > 0 {
      EscapeCharsOfSpaces(n - 1);
      assert Spaces(n)[..n - 1] == Spaces(n - 1);
    }
  }

  lemma EscapeCharsEdges(value: string)
    requires value != []
    ensures EscapeChars(value) != []
    ensures EscapeChars(value)[0] == ' ' <==> value[0] == ' '
    ensures var out := EscapeChars(value); out[|out| - 1] == ' ' <==> value[|value| - 1] == ' '
  {
    EscapeCharsJoins([value[0]], value[1..]);
    assert [value[0]] + value[1..] == value;
    assert EscapeChars([value[0]]) == [] + EscapeChar(value[0]) by {
      assert [value[0]][..0] == [];
    }
  }

  /** A value that is not all spaces is a core between two runs of spaces, and
      escaping it writes the runs as `\s` and the core character by character. */
  lemma EscapeShape(value: string) returns (core: string)
    requires exists c <- value :: c != ' '
    ensures core != [] && core[0] != ' ' && core[|core| - 1] != ' '
    ensures value == Spaces(LeadingSpaces(value)) + core + Spaces(TrailingSpaces(value))
    ensures Escape(value) ==
            EscapedSpaces(LeadingSpaces(value)) + EscapeChars(core) + EscapedSpaces(TrailingSpaces(value))
  {
    var l, t := LeadingSpaces(value), TrailingSpaces(value);
    EdgesApart(value);
    core := value[l..|value| - t];
    assert value[..l] == Spaces(l) && value[|value| - t..] == Spaces(t);
    assert value == Spaces(l) + core + Spaces(t);
    EscapeCharsEdges(core);
    EscapeOfParts(l, core, t);
  }

  lemma EscapeOfParts(l: nat, core: string, t: nat)
    requires core != [] && core[0] != ' ' && core[|core| - 1] != ' '
    ensures Escape(Spaces(l) + core + Spaces(t)) == EscapedSpaces(l) + EscapeChars(core) + EscapedSpaces(t)
  {
    hide *;
    CharsOfParts(l, core, t);
    EscapeCharsEdges(core);
    EscapeOfChars(Spaces(l) + core + Spaces(t), l, EscapeChars(core), t);
  }

  lemma EscapeOfChars(value: string, l: nat, inner: string, t: nat)
    requires EscapeChars(value) == Spaces(l) + inner + Spaces(t)
    requires inner != [] && inner[0] != ' ' && inner[|inner| - 1] != ' '
    ensures Escape(value) == EscapedSpaces(l) + inner + EscapedSpaces(t)
  {
    hide EscapeChars;
    hide LeadingSpaces;
    hide TrailingSpaces;
    hide EscapedSpaces;
    hide Spaces;
    SpaceEdges(l, inner, t);
    Middle(l, inner, t);
  }

  lemma CharsOfParts(l: nat, core: string, t: nat)
    ensures EscapeChars(Spaces(l) + core + Spaces(t)) == Spaces(l) + EscapeChars(core) + Spaces(t)
  {
    hide *;
    EscapeCharsOfSpaces(l);
    EscapeCharsOfSpaces(t);
    EscapeCharsJoins(Spaces(l), core);
    EscapeCharsJoins(Spaces(l) + core, Spaces(t));
  }

  lemma Middle(l: nat, inner: string, t: nat)
    ensures var out := Spaces(l) + inner + Spaces(t);
            |out| == l + |inner| + t && out[l..|out| - t] == inner
  {
  }

  lemma SpaceEdges(l: nat, inner: string, t: nat)
    requires inner != [] && inner[0] != ' ' && inner[|inner| - 1] != ' '
    ensures LeadingSpaces(Spaces(l) + inner + Spaces(t)) == l
    ensures TrailingSpaces(Spaces(l) + inner + Spaces(t)) == t
  {
    var s := Spaces(l) + inner + Spaces(t);
    assert s[l] == inner[0] && s[|s| - t - 1] == inner[|inner| - 1];
  }

  /** Reading an escaped value gives the value back, for every string. */
  lemma EscapeRoundTrip(value: string)
    ensures Unescape(Escape(value)) == Success(value)
  {
    if exists c <- value :: c != ' ' {
      var core := EscapeShape(value);
      var l, t := LeadingSpaces(value), TrailingSpaces(value);
      UnescapeOfSpaces(l);
      UnescapeOfChars(core);
      UnescapeOfSpaces(t);
      UnescapeJoins(EscapedSpaces(l), EscapeChars(core));
      UnescapeJoins(EscapedSpaces(l) + EscapeChars(core), EscapedSpaces(t));
    } else {
      assert forall i | 0 <= i < |value| :: value[i] == ' ' by {
        forall i | 0 <= i < |value| ensures value[i] == ' ' {
          assert value[i] in value;
        }
      }
      assert value == Spaces(|value|);
      EscapeCharsOfSpaces(|value|);
      UnescapeOfSpaces(|value|);
    }
  }

  // ----- parsing a file ------------------------------------------------------------------------

  type Entry = (string, string)

  type Parsed = Result<seq<Entry>, ParseError>

  /** The entry of one line; none for an empty or comment line. */
  function ParseLine(raw: string): Result<Option<Entry>, ParseError> {
    var line := TrimEnd(raw);
    var trimmed := TrimStart(line);
    if trimmed == [] || trimmed[0] == '#' then Success(None)
    else match Find(trimmed, " = ")
      case None => Failure(NotKeyValue(line))
      case Some(i) =>
        match Unescape(trimmed[i + 3..])
        case Failure(e) => Failure(BadEscape(line, e))
        case Success(value) => Success(Some((TrimStart(TrimEnd(trimmed[..i])), value)))
  }

  function Push(entries: seq<Entry>, r: Parsed): Parsed {
    if r.Success? then Success(entries + r.value) else r
  }

  function ParseLines(lines: seq<string>): Parsed {
    if lines == [] then Success([])
    else match ParseLine(lines[0])
      case Failure(e) => Failure(e)
      case Success(None) => ParseLines(lines[1..])
      case Success(Some(entry)) => Push([entry], ParseLines(lines[1..]))
  }

  lemma PushTwice(a: seq<Entry>, b: seq<Entry>, r: Parsed)
    ensures Push(a, Push(b, r)) == Push(a + b, r)
    ensures Push([], r) == r
  {
    if r.Success? {
      assert a + (b + r.value) == a + b + r.value;
      assert [] + r.value == r.value;
    }
  }

  method Parse(contents: string) returns (r: Parsed)
    ensures r == ParseLines(Lines(contents))
  {
    var lines := Lines(contents);
    var entries: seq<Entry> := [];
    assert lines[0..] == lines;
    PushTwice([], [], ParseLines(lines));
    for i := 0 to |lines|
      invariant ParseLines(lines) == Push(entries, ParseLines(lines[i..]))
    {
      var parsed := ParseLine(lines[i]);
      assert lines[i..][1..] == lines[i + 1..];
      if parsed.Failure? {
        return Failure(parsed.error);
      }
      if parsed.value.Some? {
        PushTwice(entries, [parsed.value.value], ParseLines(lines[i + 1..]));
        entries := entries + [parsed.value.value];
      }
    }
    assert lines[|lines|..] == [] && entries + [] == entries;
    return Success(entries);
  }

  // ----- writing and reading a file -----------------------------------------------------------------

  /** A key with no white space that does not start a comment. */
  predicate KeyOk(key: string) {
    key != [] && key[0] != '#' && forall c <- key :: !IsWhitespace(c)
  }

  /** A value the format can hold on a line: not empty, and not ending in
      white space that the escapes do not cover. */
  predicate ValueOk(value: string) {
    value != [] && !IsBareWhitespace(value[|value| - 1])
  }

  function LineOf(key: string, value: string): string {
    key + " = " + Escape(value)
  }

  function Written(entries: seq<Entry>): string {
    if entries == [] then []
    else LineOf(entries[0].0, entries[0].1) + "\n" + Written(entries[1..])
  }

  lemma {:induction false} TrimEndKeeps(s: string)
    requires s == [] || !IsWhitespace(s[|s| - 1])
    ensures TrimEnd(s) == s
  {
  }

  lemma {:induction false} EscapeCharsPlain(value: string)
    ensures forall c <- EscapeChars(value) :: c != '\n' && c != '\r' && c != '\t'
  {
    if value != [] {
      EscapeCharsPlain(value[..|value| - 1]);
    }
  }

  lemma {:induction false} EscapedSpacesPlain(n: nat)
    ensures forall c <- EscapedSpaces(n) :: c == '\\' || c == 's'
    ensures |EscapedSpaces(n)| == 2 * n
  {
    if n > 0 {
      EscapedSpacesPlain(n - 1);
    }
  }

  /** Escaped text has no line break, and ends in white space only where the
      value ends in white space that the escapes do not cover. */
  lemma EscapeFits(value: string)
    ensures forall c <- Escape(value) :: c != '\n' && c != '\r'
    ensures Escape(value) == [] <==> value == []
    ensures value != [] ==>
              var e := Escape(value);
              IsWhitespace(e[|e| - 1]) <==> IsBareWhitespace(value[|value| - 1])
    ensures value != [] && IsBareWhitespace(value[|value| - 1]) ==>
              var e := Escape(value); e[|e| - 1] == value[|value| - 1]
  {
    if !exists c <- value :: c != ' ' {
      FitsSpaces(value);
    } else {
      hide *;
      var core := EscapeShape(value);
      var l, t := LeadingSpaces(value), TrailingSpaces(value);
      EscapeCharsPlain(core);
      EscapedSpacesPlain(l);
      EscapedSpacesPlain(t);
      EscapeCharsEdges(core);
      EscapeCharsLast(core);
      FitsByParts(value, l, core, t);
      SpaceIsCovered();
    }
  }

  lemma SpaceIsCovered()
    ensures IsWhitespace(' ') && !IsBareWhitespace(' ')
  {
  }

  lemma FitsSpaces(value: string)
    requires !exists c <- value :: c != ' '
    ensures Escape(value) == EscapedSpaces(|value|)
    ensures forall c <- Escape(value) :: c == '\\' || c == 's'
    ensures |Escape(value)| == 2 * |value|
    ensures value != [] ==> value[|value| - 1] == ' ' && !IsWhitespace(Escape(value)[2 * |value| - 1])
  {
    hide EscapeChars;
    hide EscapedSpaces;
    hide TrailingSpaces;
    AllSpaces(value);
    EscapeCharsOfSpaces(|value|);
    assert LeadingSpaces(value) == |value|;
    hide LeadingSpaces;
    EscapedSpacesPlain(|value|);
    var e := EscapedSpaces(|value|);
    assert Escape(value) == e;
    hide Escape;
    assert value != [] ==> e[|e| - 1] in e;
  }

  lemma AllSpaces(value: string)
    requires !exists c <- value :: c != ' '
    ensures value == Spaces(|value|)
  {
    forall i | 0 <= i < |value| ensures value[i] == ' ' {
      assert value[i] in value;
    }
  }

  lemma EscapeCharsLast(core: string)
    requires core != [] && core[|core| - 1] != ' '
    ensures var out := EscapeChars(core);
            && out != []
            && (IsWhitespace(out[|out| - 1]) <==> IsBareWhitespace(core[|core| - 1]))
            && (IsBareWhitespace(core[|core| - 1]) ==> out[|out| - 1] == core[|core| - 1])
  {
  }

  lemma FitsByParts(value: string, l: nat, core: string, t: nat)
    requires value == Spaces(l) + core + Spaces(t) && core != [] && core[|core| - 1] != ' '
    requires forall c <- EscapeChars(core) :: c != '\n' && c != '\r'
    requires forall c <- EscapedSpaces(l) :: c == '\\' || c == 's'
    requires forall c <- EscapedSpaces(t) :: c == '\\' || c == 's'
    requires |EscapedSpaces(t)| == 2 * t && EscapeChars(core) != []
    ensures var e := EscapedSpaces(l) + EscapeChars(core) + EscapedSpaces(t);
            && (forall c <- e :: c != '\n' && c != '\r')
            && e != []
            && (t > 0 ==> !IsWhitespace(e[|e| - 1]) && value[|value| - 1] == ' ')
            && (t == 0 ==>
                  && e[|e| - 1] == EscapeChars(core)[|EscapeChars(core)| - 1]
                  && value[|value| - 1] == core[|core| - 1])
  {
    hide EscapeChars;
    hide EscapedSpaces;
    var e := EscapedSpaces(l) + EscapeChars(core) + EscapedSpaces(t);
    if t > 0 {
      assert e[|e| - 1] == EscapedSpaces(t)[2 * t - 1];
      assert e[|e| - 1] in EscapedSpaces(t);
    }
  }

  lemma {:induction false} TrimEndOf(body: string, tail: string)
    requires body != [] && !IsWhitespace(body[|body| - 1]) && forall c <- tail :: IsWhitespace(c)
    ensures TrimEnd(body + tail) == body
  {
    if tail == [] {
      assert body + tail == body;
      TrimEndKeeps(body);
    } else {
      var s, init := body + tail, tail[..|tail| - 1];
      assert s[..|s| - 1] == body + init && s[|s| - 1] == tail[|tail| - 1];
      assert tail[|tail| - 1] in tail;
      TrimEndOf(body, init);
    }
  }

  lemma KeyKeeps(key: string)
    requires KeyOk(key)
    ensures TrimStart(TrimEnd(key)) == key
  {
    assert key[|key| - 1] in key && key[0] in key;
    TrimEndKeeps(key);
  }

  lemma FindSeparator(key: string, text: string)
    requires KeyOk(key)
    ensures Find(key + " = " + text, " = ") == Some(|key|)
  {
    var s := key + " = " + text;
    forall i: nat | i < |key| ensures !OccursAt(s, " = ", i) {
      assert key[i] in key;
      if i + 3 <= |s| {
        assert s[i..i + 3][0] == key[i];
      }
    }
    assert s[|key|..|key| + 3] == " = ";
    FindIs(s, " = ", |key|);
  }

  /** A line `key = text` that ends in no white space parses to the key and
      the text unescaped. */
  lemma KeyValueLine(key: string, text: string, tail: string)
    requires KeyOk(key) && text != [] && !IsWhitespace(text[|text| - 1])
    requires forall c <- tail :: IsWhitespace(c)
    ensures var line := key + " = " + text;
            ParseLine(line + tail) ==
              match Unescape(text)
              case Failure(e) => Failure(BadEscape(line, e))
              case Success(value) => Success(Some((key, value)))
  {
    hide Unescape;
    hide TrimEnd;
    hide Find;
    var line := key + " = " + text;
    assert line[|line| - 1] == text[|text| - 1];
    TrimEndOf(line, tail);
    KeyStarts(key, line);
    hide TrimStart;
    hide IsWhitespace;
    SplitLine(key, text);
    KeyKeeps(key);
  }

  lemma SplitLine(key: string, text: string)
    requires KeyOk(key)
    ensures var line := key + " = " + text;
            Find(line, " = ") == Some(|key|) && line[..|key|] == key && line[|key| + 3..] == text
  {
    FindSeparator(key, text);
    hide *;
    SliceRight(key + " = ", text);
    SliceLeft(key, " = " + text, 0, |key|);
    assert key + " = " + text == key + (" = " + text);
  }

  lemma KeyStarts(key: string, line: string)
    requires KeyOk(key) && key <= line
    ensures TrimStart(line) == line && line[0] != '#'
  {
    assert key[0] in key && line[0] == key[0];
  }

  /** A line `key =` with nothing but white space after it does not parse. */
  lemma EmptyValueLine(key: string, tail: string)
    requires KeyOk(key) && forall c <- tail :: IsWhitespace(c)
    ensures ParseLine(key + " = " + tail) == Failure(NotKeyValue(key + " ="))
  {
    var line := key + " =";
    assert key + " = " + tail == line + (" " + tail);
    TrimEndOf(line, " " + tail);
    assert key[0] in key && line[0] == key[0];
    assert TrimStart(line) == line;
    forall i: nat ensures !OccursAt(line, " = ", i) {
      if i + 3 <= |line| {
        assert line[i..i + 3][0] == line[i] == key[i];
        assert key[i] in key;
      }
    }
  }

  lemma SplitTail(s: string) returns (body: string, tail: string)
    ensures s == body + tail && body == TrimEnd(s)
    ensures forall c <- tail :: IsWhitespace(c)
  {
    body := TrimEnd(s);
    tail := s[|body|..];
  }

  lemma {:induction false} UnescapeOfWhitespace(s: string)
    requires forall c <- s :: IsWhitespace(c)
    ensures Unescape(s) == Success(s)
  {
    if s != [] {
      assert s[0] in s;
      UnescapeOfWhitespace(s[1..]);
      assert [s[0]] + s[1..] == s;
    }
  }

  /** A written line reads back as its entry exactly when the format can hold
      the value: an empty value, and one that ends in white space no escape
      covers, do not. */
  lemma LineRoundTrip(key: string, value: string)
    requires KeyOk(key)
    ensures ParseLine(LineOf(key, value)) == Success(Some((key, value))) <==> ValueOk(value)
  {
    var e := Escape(value);
    EscapeFits(value);
    EscapeRoundTrip(value);
    var body, tail := SplitTail(e);
    assert LineOf(key, value) == key + " = " + body + tail;
    assert key + " = " + tail == key + " = " + [] + tail;
    hide *;
    if body == [] {
      EmptyValueLine(key, tail);
      LastOfTail(value, e, body, tail);
    } else {
      KeyValueLine(key, body, tail);
      LastOfTail(value, e, body, tail);
      if tail != [] && Unescape(body).Success? {
        UnescapeJoins(body, tail);
        UnescapeOfWhitespace(tail);
        PrependLength(Unescape(body).value, tail);
      }
    }
  }

  lemma PrependLength(a: string, b: string)
    requires b != []
    ensures Prepend(a, Success(b)) != Success(a)
  {
    assert |a + b| > |a|;
  }

  lemma LastOfTail(value: string, e: string, body: string, tail: string)
    requires e == body + tail && body == TrimEnd(e)
    requires e == [] <==> value == []
    requires value != [] ==> (IsWhitespace(e[|e| - 1]) <==> IsBareWhitespace(value[|value| - 1]))
    ensures ValueOk(value) <==> body != [] && tail == []
    ensures body != [] ==> !IsWhitespace(body[|body| - 1])
    ensures body + [] == body && tail == [] ==> e == body
  {
  }

  lemma LinesOf(line: string, rest: string)
    requires '\n' !in line && '\r' !in line
    ensures Lines(line + "\n" + rest) == [line] + Lines(rest)
  {
    FindChar(line, '\n', rest);
    var s := line + "\n" + rest;
    assert s[..|line|] == line && s[|line| + 1..] == rest;
    assert line != [] ==> line[|line| - 1] in line;
  }

  /** A written line always gives an entry or an error, never nothing. */
  lemma LineGivesEntry(key: string, value: string)
    requires KeyOk(key)
    ensures ParseLine(LineOf(key, value)) != Success(None)
  {
    var body, tail := SplitTail(Escape(value));
    assert LineOf(key, value) == key + " = " + body + tail;
    assert key + " = " + tail == key + " = " + [] + tail;
    hide *;
    if body == [] {
      EmptyValueLine(key, tail);
    } else {
      LastOfBody(Escape(value), body);
      KeyValueLine(key, body, tail);
    }
  }

  lemma LastOfBody(e: string, body: string)
    requires body == TrimEnd(e) && body != []
    ensures !IsWhitespace(body[|body| - 1])
  {
  }

  /** Writing entries and parsing the file gives the entries back, in order,
      exactly when the format can hold every value. */
  lemma {:induction false} FileRoundTrip(entries: seq<Entry>)
    requires forall entry <- entries :: KeyOk(entry.0)
    ensures ParseLines(Lines(Written(entries))) == Success(entries) <==> forall entry <- entries :: ValueOk(entry.1)
    decreases |entries|
  {
    if entries != [] {
      var key, value := entries[0].0, entries[0].1;
      var rest := entries[1..];
      assert entries[0] in entries && [(key, value)] + rest == entries;
      var line := LineOf(key, value);
      LineRoundTrip(key, value);
      LineGivesEntry(key, value);
      OneLine(key, value);
      LinesOf(line, Written(rest));
      FileRoundTrip(rest);
      var lines := Lines(Written(entries));
      assert lines[0] == line && lines[1..] == Lines(Written(rest));
      FirstAndRest(ParseLine(line), ParseLines(lines[1..]), (key, value), rest);
    }
  }

  /** Two results make a list exactly when the first is its head and the other
      its tail. */
  lemma FirstAndRest(first: Result<Option<Entry>, ParseError>, rest: Parsed, head: Entry, tail: seq<Entry>)
    requires first.Success? ==> first.value.Some?
    ensures var whole := if first.Failure? then Failure(first.error) else Push([first.value.value], rest);
            whole == Success([head] + tail) <==> first == Success(Some(head)) && rest == Success(tail)
  {
    if first.Success? && rest.Success? && [first.value.value] + rest.value == [head] + tail {
      assert ([first.value.value] + rest.value)[0] == first.value.value;
      assert ([first.value.value] + rest.value)[1..] == rest.value && ([head] + tail)[1..] == tail;
    }
  }

  lemma OneLine(key: string, value: string)
    requires KeyOk(key)
    ensures '\n' !in LineOf(key, value) && '\r' !in LineOf(key, value)
  {
    EscapeFits(value);
    hide Escape;
  }
}
