/** Positions in an ASCII source text, and runs of characters. */
module SourceText {
  import opened Chars

  datatype Position = Position(offset: nat, line: nat, column: nat)

  /** Line of an offset: one more than the line feeds before it. */
  function LineAt(src: string, i: nat): nat
    requires i <= |src|
  {
    if i == 0 then 1 else LineAt(src, i - 1) + if src[i - 1] == '\n' then 1 else 0
  }

  /** Column of an offset: one more than the characters since the last line feed. */
  function ColumnAt(src: string, i: nat): nat
    requires i <= |src|
  {
    if i == 0 then 1 else if src[i - 1] == '\n' then 1 else ColumnAt(src, i - 1) + 1
  }

  function At(src: string, i: nat): Position
    requires i <= |src|
  {
    Position(i, LineAt(src, i), ColumnAt(src, i))
  }

  lemma {:induction false} SameLine(src: string, i: nat, j: nat)
    requires i <= j <= |src| && forall k | i <= k < j :: src[k] != '\n'
    ensures LineAt(src, j) == LineAt(src, i) && ColumnAt(src, j) == ColumnAt(src, i) + (j - i)
    decreases j
  {
    if i < j {
      SameLine(src, i, j - 1);
    }
  }

  // ----- characters --------------------------------------------------------------------------

  predicate IsAlpha(c: char) { 'a' <= c <= 'z' || 'A' <= c <= 'Z' }

  predicate IsAlphanumeric(c: char) { IsAlpha(c) || IsDigit(c) }

  predicate IsWordStart(c: char) { IsAlpha(c) || c == '_' }

  predicate IsWordChar(c: char) { IsAlphanumeric(c) || c == '_' }

  /** `char::is_whitespace` on ASCII. */
  predicate IsWhitespace(c: char) { '\t' <= c <= '\r' || c == ' ' }

  /** `char::is_control` on ASCII. */
  predicate IsControl(c: char) { c < ' ' || c == '\U{7F}' }

  predicate StartsAt(src: string, i: nat, text: string) {
    i + |text| <= |src| && forall k | 0 <= k < |text| :: src[i + k] == text[k]
  }

  lemma StartsWithOne(src: string, i: nat, text: string)
    requires |text| == 1
    ensures StartsAt(src, i, text) <==> i < |src| && src[i] == text[0]
  {
    assert i < |src| ==> src[i + 0] == src[i];
    assert StartsAt(src, i, text) ==> src[i + 0] == text[0];
  }

  lemma StartsWithTwo(src: string, i: nat, text: string)
    requires |text| == 2
    ensures StartsAt(src, i, text) <==> i + 1 < |src| && src[i] == text[0] && src[i + 1] == text[1]
  {
    assert i + 1 < |src| ==> src[i + 0] == src[i];
    assert StartsAt(src, i, text) ==> src[i + 0] == text[0] && src[i + 1] == text[1];
  }

  lemma StartsWithThree(src: string, i: nat, text: string)
    requires |text| == 3
    ensures StartsAt(src, i, text) <==>
              i + 2 < |src| && src[i] == text[0] && src[i + 1] == text[1] && src[i + 2] == text[2]
  {
    assert i + 2 < |src| ==> src[i + 0] == src[i];
    assert StartsAt(src, i, text) ==> src[i + 0] == text[0] && src[i + 1] == text[1] && src[i + 2] == text[2];
  }

  /** The end of the longest run of `p` that starts at `i`. */
  function RunEnd(src: string, i: nat, p: char -> bool): (r: nat)
    requires i <= |src|
    ensures i <= r <= |src|
    ensures forall k | i <= k < r :: p(src[k])
    ensures r < |src| ==> !p(src[r])
    decreases |src| - i
  {
    if i < |src| && p(src[i]) then RunEnd(src, i + 1, p) else i
  }

  /** A run is determined by its two ends. */
  lemma RunEndIs(src: string, i: nat, e: nat, p: char -> bool)
    requires i <= e <= |src| && (forall k | i <= k < e :: p(src[k])) && (e < |src| ==> !p(src[e]))
    ensures RunEnd(src, i, p) == e
  {
  }

  const InSpace: char -> bool := c => IsWhitespace(c) && c != '\n'
  const InLineComment: char -> bool := c => c != '\n' && c != '\r'
  const InNumber: char -> bool := c => IsAlphanumeric(c) || c == '.'
  const InLexedNumber: char -> bool := c => IsAlphanumeric(c) || c == '_' || c == '.'
  const InWord: char -> bool := c => IsWordChar(c)

  /** The characters each run holds, of ASCII. */
  lemma RunsAre(c: char)
    requires c < '\U{80}'
    ensures InSpace(c) <==> c in {' ', '\t', '\r', '\U{B}', '\U{C}'}
    ensures InWord(c) <==> 'a' <= c <= 'z' || 'A' <= c <= 'Z' || '0' <= c <= '9' || c == '_'
    ensures InNumber(c) <==> 'a' <= c <= 'z' || 'A' <= c <= 'Z' || '0' <= c <= '9' || c == '.'
    ensures InLexedNumber(c) <==> InNumber(c) || c == '_'
    ensures InLineComment(c) <==> c !in {'\n', '\r'}
    ensures IsControl(c) <==> c as int < 32 || c as int == 127
  {
  }
}
