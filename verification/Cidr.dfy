/** Address prefixes: the mask, the strict text form, and containment
    (section 3.1 of RFC 4632). */
module Cidr {
  import opened Wrappers
  import opened Arithmetic
  import opened Chars
  import opened Text
  import opened Bits

  datatype Address = V4(bits: nat) | V6(bits: nat) {
    function Width(): nat {
      if V4? then 32 else 128
    }

    predicate Valid() {
      bits < Pow2(Width())
    }

    function With(value: nat): (r: Address)
      ensures r.bits == value && (r.V4? <==> V4?) && r.Width() == Width()
    {
      if V4? then V4(value) else V6(value)
    }
  }

  datatype Cidr = Cidr(network: Address, prefix: nat)

  datatype CidrError = NoSlash | InvalidAddress | InvalidPrefix | PrefixTooWide | HostBits

  /** All ones shifted left by `width - prefix`, on `width` bits. */
  function MaskBits(width: nat, prefix: nat): int
    requires prefix <= width
  {
    if prefix == 0 then 0 else Pow2(width) - Pow2(width - prefix)
  }

  function Mask(a: Address, prefix: nat): (r: Address)
    requires a.Valid() && prefix <= a.Width()
    ensures r.Width() == a.Width() && (r.V4? <==> a.V4?)
    ensures r.bits == a.bits - a.bits % Pow2(a.Width() - prefix)
  {
    MaskClears(a, prefix);
    a.With(Bitwise(AndOp, a.bits, MaskBits(a.Width(), prefix)))
  }

  /** The mask clears the bits past the prefix and keeps the rest. */
  lemma MaskClears(a: Address, prefix: nat)
    requires a.Valid() && prefix <= a.Width()
    ensures Bitwise(AndOp, a.bits, MaskBits(a.Width(), prefix)) == a.bits - a.bits % Pow2(a.Width() - prefix)
    ensures a.bits - a.bits % Pow2(a.Width() - prefix) >= 0
  {
    hide Bitwise;
    hide Pow2;
    if prefix == 0 {
      AndZero(a.bits);
      Quotient(a.bits, Pow2(a.Width()), 0, a.bits);
    } else {
      HighMask(a.bits, a.Width(), a.Width() - prefix);
    }
    QuotientBound(a.bits, Pow2(a.Width() - prefix));
  }

  function Parse(text: string, parseAddress: string -> Option<Address>): Result<Cidr, CidrError>
    requires forall t :: parseAddress(t).Some? ==> parseAddress(t).value.Valid()
  {
    match Find(text, "/")
    case None => Failure(NoSlash)
    case Some(slash) =>
      match parseAddress(text[..slash])
      case None => Failure(InvalidAddress)
      case Some(address) =>
        var prefix := text[slash + 1..];
        if !(prefix != [] && AllDigits(prefix) && (prefix == "0" || prefix[0] != '0')) || DigitsValue(prefix) > 255
        then Failure(InvalidPrefix)
        else if DigitsValue(prefix) > address.Width() then Failure(PrefixTooWide)
        else if Mask(address, DigitsValue(prefix)) != address then Failure(HostBits)
        else Success(Cidr(address, DigitsValue(prefix)))
  }

  /** `contains`. The shift amount is the address's own width minus the prefix:
      for an IPv4 address and an IPv6 prefix past 32 that subtraction has no
      unsigned result, and neither has the test. */
  function Contains(c: Cidr, a: Address): Option<bool>
    requires a.Valid() && Accepted(c)
  {
    if c.prefix > a.Width() then None else Some(c.network == Mask(a, c.prefix))
  }

  /** What parsing accepts: a prefix within the width and no host bits. */
  predicate Accepted(c: Cidr) {
    c.network.Valid() && c.prefix <= c.network.Width() && Mask(c.network, c.prefix) == c.network
  }

  function Size(c: Cidr): int
    requires c.prefix <= c.network.Width()
  {
    Pow2(c.network.Width() - c.prefix)
  }

  // ----- blocks of addresses ----------------------------------------------------------------

  /** Rounding down to a multiple of `p` is the one multiple within `p` below. */
  lemma RoundsTo(n: nat, p: int, m: nat)
    requires p > 0 && m % p == 0
    ensures n - n % p == m <==> m <= n < m + p
  {
    assert m == m / p * p;
    if m <= n < m + p {
      Quotient(n, p, m / p, n - m);
    }
  }

  /** Containment is undefined exactly for an IPv4 address against an IPv6
      prefix past 32; otherwise it says that the address is of the family and
      lies in the `2^(width - prefix)` addresses from the network on. */
  lemma ContainsIsInterval(c: Cidr, a: Address)
    requires Accepted(c) && a.Valid()
    ensures Contains(c, a).None? <==> a.V4? && c.network.V6? && c.prefix > 32
    ensures Contains(c, a).Some? ==>
              (Contains(c, a).value <==>
                 (a.V4? <==> c.network.V4?) && c.network.bits <= a.bits < c.network.bits + Size(c))
  {
    hide Pow2;
    if a.V4? <==> c.network.V4? {
      RoundsTo(a.bits, Size(c), c.network.bits);
    }
  }

  /** The block fits in the family. */
  lemma BlockFits(c: Cidr)
    requires Accepted(c)
    ensures c.network.bits + Size(c) <= Pow2(c.network.Width())
  {
    var w, k := c.network.Width(), c.network.Width() - c.prefix;
    hide Pow2;
    Pow2Adds(k, c.prefix);
    MultipleBelow(c.network.bits, Pow2(k), Pow2(c.prefix));
  }

  lemma MultipleBelow(m: nat, p: int, turns: int)
    requires p > 0 && m % p == 0 && m < p * turns
    ensures m + p <= p * turns
  {
    var q := m / p;
    assert m == p * q;
    Cancel(q, turns, p);
    assert p * (turns - q) >= p by {
      Product(p, turns - q - 1);
      assert p * (turns - q) == p * (turns - q - 1) + p;
    }
    assert p * (turns - q) == p * turns - p * q;
  }

  lemma Cancel(a: int, b: int, p: int)
    requires p > 0 && p * a < p * b
    ensures a < b
  {
    assert (b - a) * p == p * b - p * a;
    PositiveFactor(b - a, p);
  }

  /** The `size` numbers from `low` on. */
  ghost function Block(low: nat, size: nat): (r: set<nat>)
    ensures |r| == size && forall n: nat :: n in r <==> low <= n < low + size
  {
    if size == 0 then {} else Block(low, size - 1) + {low + size - 1}
  }

  lemma MemberIsInBlock(c: Cidr, bits: nat)
    requires Accepted(c) && c.network.bits + Size(c) <= Pow2(c.network.Width())
    ensures c.network.With(bits).Valid() && Contains(c, c.network.With(bits)) == Some(true)
        <==> c.network.bits <= bits < c.network.bits + Size(c)
  {
    hide Pow2;
    hide Mask;
    if c.network.With(bits).Valid() {
      ContainsIsInterval(c, c.network.With(bits));
    }
  }

  /** As many addresses are members as the length leaves free bits for. */
  lemma MembersCount(c: Cidr, members: set<nat>)
    requires Accepted(c)
    requires forall bits: nat ::
               bits in members <==>
                 c.network.With(bits).Valid() && Contains(c, c.network.With(bits)) == Some(true)
    ensures |members| == Pow2(c.network.Width() - c.prefix)
  {
    hide Pow2;
    hide Mask;
    hide Contains;
    BlockFits(c);
    forall bits: nat ensures bits in members <==> bits in Block(c.network.bits, Size(c)) {
      MemberIsInBlock(c, bits);
    }
    assert members == Block(c.network.bits, Size(c));
  }

  // ----- the mask ------------------------------------------------------------------------------

  lemma MultipleOfMultiple(n: int, p: int, k: int)
    requires p > 0 && k > 0
    ensures n % (p * k) % p == n % p
    ensures n % (p * k) == 0 ==> n % p == 0
  {
    PositiveProduct(p, k);
    var q, r := n / (p * k), n % (p * k);
    assert n == q * (p * k) + r;
    assert n == (q * k + r / p) * p + r % p by {
      assert r == r / p * p + r % p;
      assert q * (p * k) == q * k * p;
      assert (q * k + r / p) * p == q * k * p + r / p * p;
    }
    Quotient(n, p, q * k + r / p, r % p);
  }

  /** Masking twice is masking once with the shorter prefix. */
  lemma MaskMonotone(a: Address, shorter: nat, longer: nat)
    requires a.Valid() && shorter <= longer <= a.Width()
    ensures Mask(a, longer).Valid()
    ensures Mask(Mask(a, longer), shorter) == Mask(a, shorter)
    ensures Mask(Mask(a, longer), longer) == Mask(a, longer)
  {
    hide Pow2;
    var p, k := Pow2(a.Width() - longer), Pow2(longer - shorter);
    Pow2Adds(a.Width() - longer, longer - shorter);
    RoundingTwice(a.bits, p, k);
  }

  /** Masking any address gives the network of an accepted prefix, and that
      prefix contains the address. */
  lemma MaskedIsAccepted(a: Address, prefix: nat)
    requires a.Valid() && prefix <= a.Width()
    ensures var c := Cidr(Mask(a, prefix), prefix);
            Accepted(c) && Contains(c, a) == Some(true)
  {
    MaskMonotone(a, prefix, prefix);
  }

  lemma RoundingTwice(n: nat, p: int, k: int)
    requires p > 0 && k > 0
    ensures p * k > 0
    ensures var m := n - n % p;
            m % p == 0 && m - m % (p * k) == n - n % (p * k)
  {
    PositiveProduct(p, k);
    var m := n - n % p;
    Quotient(m, p, n / p, 0);
    MultipleOfMultiple(n, p, k);
    var low := n - n % (p * k);
    assert n % (p * k) - n % p >= 0 by {
      QuotientBound(n % (p * k), p);
    }
    Quotient(m, p * k, n / (p * k), m - low);
  }

  /** Two accepted prefixes of one family are nested or disjoint: the one with
      the longer prefix lies inside the other, or they share no address. */
  lemma NestedOrDisjoint(outer: Cidr, inner: Cidr)
    requires Accepted(outer) && Accepted(inner) && outer.prefix <= inner.prefix
    requires outer.network.V4? <==> inner.network.V4?
    ensures (forall a: Address | a.Valid() && Contains(inner, a) == Some(true) :: Contains(outer, a) == Some(true))
         || (forall a: Address | a.Valid() && Contains(inner, a) == Some(true) :: Contains(outer, a) == Some(false))
  {
    hide Mask;
    hide Pow2;
    forall a: Address | a.Valid() && Contains(inner, a) == Some(true)
      ensures Contains(outer, a) == Some(outer.network == Mask(inner.network, outer.prefix))
    {
      MaskMonotone(a, outer.prefix, inner.prefix);
    }
  }

  // ----- text -------------------------------------------------------------------------------------

  /** The accepted digits are the ones a number is printed with. */
  lemma {:induction false} CanonicalDigits(s: string)
    requires s != [] && AllDigits(s) && (s == "0" || s[0] != '0')
    ensures Decimal(DigitsValue(s)) == s
  {
    var front, last := s[..|s| - 1], s[|s| - 1];
    assert s == front + [last];
    if front == [] {
      DigitOfValue(last);
    } else {
      CanonicalDigits(front);
      DigitOfValue(last);
      Quotient(DigitsValue(s), 10, DigitsValue(front), DigitValue(last));
      DecimalStart(DigitsValue(front));
      assert DigitsValue(front) > 0;
    }
  }

  /** The text of a prefix: an address without a slash, and its length in digits. */
  ghost predicate Spells(text: string, at: nat, c: Cidr, parseAddress: string -> Option<Address>) {
    at <= |text| && '/' !in text[..at] && parseAddress(text[..at]) == Some(c.network)
    && text == text[..at] + "/" + Decimal(c.prefix)
  }

  /** A text parses exactly when it spells an accepted prefix, and then to it:
      no sign, no leading zero, no length past the width, no host bit. */
  lemma ParseIsExact(text: string, c: Cidr, parseAddress: string -> Option<Address>)
    requires forall t :: parseAddress(t).Some? ==> parseAddress(t).value.Valid()
    ensures Parse(text, parseAddress) == Success(c) <==>
              Accepted(c) && exists at: nat :: Spells(text, at, c, parseAddress)
  {
    hide Mask;
    hide Pow2;
    if Parse(text, parseAddress) == Success(c) {
      var slash := Find(text, "/").value;
      NoEarlierSlash(text, slash);
      CanonicalDigits(text[slash + 1..]);
      assert text == text[..slash] + text[slash..slash + 1] + text[slash + 1..];
      assert Spells(text, slash, c, parseAddress);
    } else if Accepted(c) && exists at: nat :: Spells(text, at, c, parseAddress) {
      var at: nat :| Spells(text, at, c, parseAddress);
      SpelledParses(text, at, c, parseAddress);
    }
  }

  lemma NoEarlierSlash(text: string, slash: nat)
    requires Find(text, "/") == Some(slash)
    ensures slash < |text| && text[slash..slash + 1] == "/" && '/' !in text[..slash]
  {
    forall i: nat | i < slash ensures text[i] != '/' {
      assert !OccursAt(text, "/", i) && text[i..i + 1] == [text[i]];
    }
  }

  lemma SpelledParses(text: string, at: nat, c: Cidr, parseAddress: string -> Option<Address>)
    requires forall t :: parseAddress(t).Some? ==> parseAddress(t).value.Valid()
    requires Accepted(c) && Spells(text, at, c, parseAddress)
    ensures Parse(text, parseAddress) == Success(c)
  {
    hide Mask;
    hide Pow2;
    var network, prefix := text[..at], Decimal(c.prefix);
    FindChar(network, '/', prefix);
    hide Find;
    SliceRight(network + "/", prefix);
    DecimalValue(c.prefix);
    DecimalStart(c.prefix);
  }

  /** What a program holds of an accepted prefix is its network, printed, and
      its length: printed together they always parse back to it. */
  lemma ReparseSucceeds(c: Cidr, show: Address -> string, parseAddress: string -> Option<Address>)
    requires Accepted(c)
    requires forall t :: parseAddress(t).Some? ==> parseAddress(t).value.Valid()
    requires parseAddress(show(c.network)) == Some(c.network) && '/' !in show(c.network)
    ensures Parse(show(c.network) + "/" + Decimal(c.prefix), parseAddress) == Success(c)
  {
    hide Mask;
    var network := show(c.network);
    var text := network + "/" + Decimal(c.prefix);
    assert text[..|network|] == network;
    SpelledParses(text, |network|, c, parseAddress);
  }

  /** Every address is its own network for exactly the lengths that leave its
      set bits alone; parsing says so of any other. */
  lemma HostBitsAreReported(a: Address, prefix: nat, text: string, parseAddress: string -> Option<Address>)
    requires forall t :: parseAddress(t).Some? ==> parseAddress(t).value.Valid()
    requires a.Valid() && prefix <= a.Width() && '/' !in text && parseAddress(text) == Some(a)
    ensures Parse(text + "/" + Decimal(prefix), parseAddress) ==
              if a.bits % Pow2(a.Width() - prefix) == 0 then Success(Cidr(a, prefix)) else Failure(HostBits)
  {
    hide Pow2;
    FindChar(text, '/', Decimal(prefix));
    hide Find;
    SliceRight(text + "/", Decimal(prefix));
    assert (text + "/" + Decimal(prefix))[..|text|] == text;
    DecimalValue(prefix);
    DecimalStart(prefix);
  }

  /** Why a text does not parse: no slash at all, before the first slash no address,
      after it no plain decimal of at most 255, one past the family's width, or, for
      what is otherwise a prefix, a host bit. */
  lemma ParseErrorsAre(text: string, at: nat, parseAddress: string -> Option<Address>)
    requires forall t :: parseAddress(t).Some? ==> parseAddress(t).value.Valid()
    ensures Parse(text, parseAddress) == Failure(NoSlash) <==> '/' !in text
    ensures at < |text| && text[at] == '/' && '/' !in text[..at] ==>
              var address, length := parseAddress(text[..at]), text[at + 1..];
              var plain := length != [] && AllDigits(length) && (length == "0" || length[0] != '0');
              && (address.None? <==> Parse(text, parseAddress) == Failure(InvalidAddress))
              && (address.Some? ==>
                    (Parse(text, parseAddress) == Failure(InvalidPrefix) <==> !plain || DigitsValue(length) > 255))
              && (address.Some? && plain && DigitsValue(length) <= 255 ==>
                    (Parse(text, parseAddress) == Failure(PrefixTooWide) <==>
                       DigitsValue(length) > (if address.value.V4? then 32 else 128)))
  {
    hide Mask;
    hide Pow2;
    if Find(text, "/").None? {
      SlashIsFound(text);
    } else {
      SlashIsThere(text);
    }
    if at < |text| && text[at] == '/' && '/' !in text[..at] {
      assert text == text[..at] + ['/'] + text[at + 1..];
      FindChar(text[..at], '/', text[at + 1..]);
      assert Find(text, "/") == Some(at);
    }
    hide Find;
  }

  lemma SlashIsThere(text: string)
    requires Find(text, "/").Some?
    ensures '/' in text
  {
    var at := Find(text, "/").value;
    assert text[at] == text[at..at + 1][0];
  }

  lemma SlashIsFound(text: string)
    requires Find(text, "/").None?
    ensures '/' !in text
  {
    forall i: nat | i < |text| ensures text[i] != '/' {
      assert !OccursAt(text, "/", i) && text[i..i + 1] == [text[i]];
    }
  }
}
