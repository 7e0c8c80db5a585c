/** Strings: searching, splitting and decimal digits. */
module Text {
  import opened Wrappers
  import opened Arithmetic
  import opened Chars

  // ----- searching -----------------------------------------------------------------

  /** Whether `sub` occurs in `s` at position `i`. */
  predicate OccursAt(s: string, sub: string, i: nat) {
    i + |sub| <= |s| && s[i..i + |sub|] == sub
  }

  /** The first occurrence of `sub` in `s`. */
  function Find(s: string, sub: string): (r: Option<nat>)
    ensures r.Some? ==> OccursAt(s, sub, r.value)
    ensures forall i: nat :: (r.None? || i < r.value) ==> !OccursAt(s, sub, i)
  {
    FindFrom(s, sub, 0)
  }

  function FindFrom(s: string, sub: string, from: nat): (r: Option<nat>)
    requires from <= |s|
    ensures r.Some? ==> from <= r.value && OccursAt(s, sub, r.value)
    ensures forall i: nat :: from <= i && (r.None? || i < r.value) ==> !OccursAt(s, sub, i)
    decreases |s| - from
  {
    if OccursAt(s, sub, from) then Some(from)
    else if from == |s| then None
    else FindFrom(s, sub, from + 1)
  }

  /** A position is where `Find` looks when `sub` occurs there and not before. */
  lemma FindIs(s: string, sub: string, at: nat)
    requires OccursAt(s, sub, at) && forall i: nat | i < at :: !OccursAt(s, sub, i)
    ensures Find(s, sub) == Some(at)
  {
  }

  lemma FindChar(before: string, c: char, after: string)
    requires c !in before
    ensures Find(before + [c] + after, [c]) == Some(|before|)
  {
    var s := before + [c] + after;
    assert OccursAt(s, [c], |before|);
    forall i: nat | i < |before| ensures !OccursAt(s, [c], i) {
      assert s[i..i + 1][0] == before[i];
    }
    FindIs(s, [c], |before|);
  }

  lemma SliceLeft(a: string, b: string, i: nat, j: nat)
    requires i <= j <= |a|
    ensures (a + b)[i..j] == a[i..j]
  {
  }

  lemma SliceRight(a: string, b: string)
    ensures (a + b)[|a|..] == b
    ensures (a + b)[|a|..|a| + |b|] == b
  {
  }

  // ----- decimal text --------------------------------------------------------------

  predicate AllDigits(s: string) {
    forall c <- s :: IsDigit(c)
  }

  function Digit(n: nat): (c: char)
    requires n < 10
    ensures IsDigit(c) && DigitValue(c) == n
  {
    '0' + n as char
  }

  function DigitValue(c: char): nat
    requires IsDigit(c)
  {
    (c - '0') as nat
  }

  function Pow10(n: nat): (p: nat)
    ensures p >= 1
  {
    if n == 0 then 1 else 10 * Pow10(n - 1)
  }

  /** `{n}` of a natural number. */
  function Decimal(n: nat): (s: string)
    ensures s != [] && AllDigits(s)
  {
    if n < 10 then [Digit(n)] else Decimal(n / 10) + [Digit(n % 10)]
  }

  function Zeros(k: nat): string {
    seq(k, _ => '0')
  }

  /** `{n:0width}` of a natural number. */
  function ZeroPad(n: nat, width: nat): (s: string)
    ensures s != [] && AllDigits(s)
  {
    var digits := Decimal(n);
    Zeros(if |digits| < width then width - |digits| else 0) + digits
  }

  /** The number a digit string denotes. */
  function DigitsValue(s: string): nat
    requires AllDigits(s)
  {
    if s == [] then 0 else 10 * DigitsValue(s[..|s| - 1]) + DigitValue(s[|s| - 1])
  }

  lemma {:induction false} DecimalValue(n: nat)
    ensures DigitsValue(Decimal(n)) == n
  {
    if n >= 10 {
      DecimalValue(n / 10);
      assert Decimal(n)[..|Decimal(n)| - 1] == Decimal(n / 10);
    }
  }

  lemma {:induction false} LeadingZeros(k: nat, s: string)
    requires AllDigits(s)
    ensures DigitsValue(Zeros(k) + s) == DigitsValue(s)
    decreases k + |s|
  {
    var t := Zeros(k) + s;
    if s != [] {
      LeadingZeros(k, s[..|s| - 1]);
      assert t[..|t| - 1] == Zeros(k) + s[..|s| - 1];
    } else if k > 0 {
      LeadingZeros(k - 1, []);
      assert t[..|t| - 1] == Zeros(k - 1) + [];
    }
  }

  lemma {:induction false} DecimalLength(n: nat, width: nat)
    requires n < Pow10(width) && width > 0
    ensures |Decimal(n)| <= width
  {
    if n >= 10 {
      DecimalLength(n / 10, width - 1);
    }
  }

  /** Zero-padded text has the asked width and denotes its number. */
  lemma ZeroPadRoundTrip(n: nat, width: nat)
    requires n < Pow10(width) && width > 0
    ensures |ZeroPad(n, width)| == width && DigitsValue(ZeroPad(n, width)) == n
  {
    DecimalLength(n, width);
    LeadingZeros(width - |Decimal(n)|, Decimal(n));
    DecimalValue(n);
  }

  lemma DigitOfValue(c: char)
    requires IsDigit(c)
    ensures DigitValue(c) < 10 && Digit(DigitValue(c)) == c
  {
    assert DigitValue(c) == c as int - '0' as int;
    assert Digit(DigitValue(c)) as int == '0' as int + DigitValue(c);
  }

  lemma PaddedValue(n: nat, width: nat)
    ensures DigitsValue(ZeroPad(n, width)) == n
  {
    var digits := Decimal(n);
    LeadingZeros(if |digits| < width then width - |digits| else 0, digits);
    DecimalValue(n);
  }

  lemma {:induction false} DecimalStart(n: nat)
    ensures Decimal(n)[0] == '0' <==> n == 0
    ensures n == 0 ==> Decimal(n) == "0"
  {
    if n >= 10 {
      DecimalStart(n / 10);
    }
  }

  lemma DecimalSnoc(front: nat, last: nat)
    requires last < 10
    ensures Decimal(10 * front + last) == if front == 0 then [Digit(last)] else Decimal(front) + [Digit(last)]
  {
    Quotient(10 * front + last, 10, front, last);
  }

  /** `s` is the decimal text of `n` behind the zeros that fill its width. */
  predicate IsPadded(s: string, n: nat) {
    |Decimal(n)| <= |s| && s == Zeros(|s| - |Decimal(n)|) + Decimal(n)
  }

  lemma PaddedOne(c: char)
    requires IsDigit(c)
    ensures IsPadded([c], DigitValue(c))
  {
    DigitOfValue(c);
    assert Zeros(0) + [c] == [c];
  }

  lemma PaddedSnoc(front: string, v: nat, c: char)
    requires front != [] && IsPadded(front, v) && IsDigit(c)
    ensures IsPadded(front + [c], 10 * v + DigitValue(c))
  {
    DigitOfValue(c);
    DecimalSnoc(v, DigitValue(c));
    assert Decimal(0) == "0";
    hide Decimal;
    hide Zeros;
    if v == 0 {
      ZerosSnoc(|front|);
    } else {
      Regrouped(Zeros(|front| - |Decimal(v)|), Decimal(v), [c]);
    }
  }

  lemma {:induction false} DigitsArePadded(s: string)
    requires s != [] && AllDigits(s)
    ensures IsPadded(s, DigitsValue(s))
  {
    hide IsPadded;
    var front, last := s[..|s| - 1], s[|s| - 1];
    assert s == front + [last];
    if front == [] {
      assert DigitsValue(front) == 0;
      PaddedOne(last);
    } else {
      DigitsArePadded(front);
      PaddedSnoc(front, DigitsValue(front), last);
    }
  }

  lemma Regrouped(a: string, b: string, c: string)
    ensures a + b + c == a + (b + c)
  {
  }

  lemma ZerosSnoc(k: nat)
    ensures k > 0 ==> Zeros(k) == Zeros(k - 1) + "0"
    ensures Zeros(0) == []
    ensures |Zeros(k)| == k
  {
  }

  // ----- digits, joined ------------------------------------------------------------------

  lemma {:induction false} Pow10Adds(m: nat, n: nat)
    ensures Pow10(m + n) == Pow10(m) * Pow10(n)
    decreases m
  {
    if m > 0 {
      Pow10Adds(m - 1, n);
      Associates(10, Pow10(m - 1), Pow10(n));
    }
  }

  lemma DigitsSnoc(s: string, c: char)
    requires AllDigits(s) && IsDigit(c)
    ensures AllDigits(s + [c]) && DigitsValue(s + [c]) == 10 * DigitsValue(s) + DigitValue(c)
  {
    assert (s + [c])[..|s|] == s;
  }

  lemma {:induction false} DigitsJoin(a: string, b: string)
    requires AllDigits(a) && AllDigits(b)
    ensures AllDigits(a + b) && DigitsValue(a + b) == DigitsValue(a) * Pow10(|b|) + DigitsValue(b)
    decreases |b|
  {
    if b == [] {
      assert a + b == a;
    } else {
      var init, last := b[..|b| - 1], b[|b| - 1];
      assert b == init + [last] && a + b == a + init + [last];
      assert Pow10(|b|) == 10 * Pow10(|b| - 1);
      hide DigitsValue;
      hide DigitValue;
      hide Pow10;
      DigitsJoin(a, init);
      DigitsSnoc(a + init, last);
      DigitsSnoc(init, last);
      Associates(10, DigitsValue(a), Pow10(|b| - 1));
      Associates(DigitsValue(a), 10, Pow10(|b| - 1));
    }
  }

  lemma {:induction false} DigitsBound(s: string)
    requires AllDigits(s)
    ensures DigitsValue(s) < Pow10(|s|)
    decreases |s|
  {
    if s != [] {
      DigitsBound(s[..|s| - 1]);
      DigitOfValue(s[|s| - 1]);
    }
  }

  lemma {:induction false} ZeroIsZeros(s: string)
    requires AllDigits(s)
    ensures DigitsValue(s) == 0 <==> forall c <- s :: c == '0'
    decreases |s|
  {
    if s != [] {
      var init, last := s[..|s| - 1], s[|s| - 1];
      ZeroIsZeros(init);
      DigitOfValue(last);
      assert s == init + [last] && Digit(0) == '0';
      assert forall c :: c in s <==> c in init || c == last;
      assert DigitValue('0') == 0;
      assert DigitsValue(s) == 10 * DigitsValue(init) + DigitValue(last);
    }
  }
}
