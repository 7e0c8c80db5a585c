/** The Internet checksum of an ICMP packet (section 1 of RFC 1071). */
module Checksum {
  type Byte = n: nat | n < 256

  type Packet = seq<Byte>

  const U32: nat := 0x1_0000_0000

  function Word(high: nat, low: nat): nat {
    high * 256 + low
  }

  /** The sum of the big-endian 16-bit words, an odd last byte in front of zero. */
  function WordSum(packet: Packet): nat {
    if packet == [] then 0
    else if |packet| == 1 then Word(packet[0], 0)
    else Word(packet[0], packet[1]) + WordSum(packet[2..])
  }

  /** One end-around carry. */
  function Carry(sum: nat): nat {
    sum % 0x1_0000 + sum / 0x1_0000
  }

  /** Carries until the sum fits 16 bits; each keeps it modulo 65535. */
  function Folded(sum: nat): (r: nat)
    ensures r < 0x1_0000 && r % 65_535 == sum % 65_535
    ensures r == 0 <==> sum == 0
    decreases sum
  {
    CarryKeeps(sum);
    if sum < 0x1_0000 then sum else Folded(Carry(sum))
  }

  lemma CarryKeeps(sum: nat)
    ensures Carry(sum) % 65_535 == sum % 65_535
    ensures sum >= 0x1_0000 ==> Carry(sum) < sum
    ensures Carry(sum) == 0 <==> sum == 0
  {
    var high := sum / 0x1_0000;
    assert sum == Carry(sum) + 65_535 * high;
    AddMultiple(Carry(sum), high);
  }

  lemma AddMultiple(a: nat, k: nat)
    ensures (a + 65_535 * k) % 65_535 == a % 65_535
  {
  }

  /** `icmp_checksum`, with its 32-bit sum and its folding loop. */
  method IcmpChecksum(packet: Packet) returns (r: nat)
    ensures r == ChecksumOf(packet)
  {
    hide Folded;
    hide WordSum;
    hide Word;
    var sum: nat := 0;
    var i := 0;
    assert packet[0..] == packet;
    while i + 1 < |packet|
      invariant 0 <= i <= |packet| && sum < U32
      invariant (sum + WordSum(packet[i..])) % U32 == WordSum(packet) % U32
      decreases |packet| - i
    {
      AddWord(packet, i, sum);
      sum, i := (sum + Word(packet[i], packet[i + 1])) % U32, i + 2;
    }
    AddLast(packet, i, sum);
    if i < |packet| {
      sum := (sum + Word(packet[i], 0)) % U32;
    }
    while sum / 0x1_0000 != 0
      invariant Folded(sum) == Folded(WordSum(packet) % U32)
      decreases sum
    {
      CarryKeeps(sum);
      FoldedStep(sum);
      sum := sum % 0x1_0000 + sum / 0x1_0000;
    }
    FoldedStep(sum);
    return 0xFFFF - sum;
  }

  lemma AddWord(packet: Packet, i: nat, sum: nat)
    requires i + 1 < |packet|
    ensures ((sum + Word(packet[i], packet[i + 1])) % U32 + WordSum(packet[i + 2..])) % U32 ==
            (sum + WordSum(packet[i..])) % U32
  {
    assert packet[i..][2..] == packet[i + 2..];
    WrapAdd(sum + Word(packet[i], packet[i + 1]), WordSum(packet[i + 2..]));
  }

  lemma AddLast(packet: Packet, i: nat, sum: nat)
    requires i <= |packet| <= i + 1 && sum < U32
    ensures (sum + WordSum(packet[i..])) % U32 == if i < |packet| then (sum + Word(packet[i], 0)) % U32 else sum
  {
    if i == |packet| {
      assert packet[i..] == [];
    }
  }

  lemma FoldedStep(sum: nat)
    ensures Folded(sum) == if sum < 0x1_0000 then sum else Folded(Carry(sum))
  {
  }

  lemma WrapAdd(a: nat, b: nat)
    ensures (a % U32 + b) % U32 == (a + b) % U32
  {
    assert a + b == a % U32 + b + U32 * (a / U32);
    WrapMultiple(a % U32 + b, a / U32);
  }

  lemma WrapMultiple(a: nat, k: nat)
    ensures (a + U32 * k) % U32 == a % U32
  {
  }

  function ChecksumOf(packet: Packet): nat {
    0xFFFF - Folded(WordSum(packet) % U32)
  }

  lemma {:induction false} WordSumBound(packet: Packet)
    ensures WordSum(packet) <= (|packet| + 1) / 2 * 65_535
    decreases |packet|
  {
    if |packet| >= 2 {
      WordSumBound(packet[2..]);
    }
  }

  /** No packet of up to 131072 bytes overflows the 32-bit sum. */
  lemma NoOverflow(packet: Packet)
    requires |packet| <= 131_072
    ensures WordSum(packet) < U32
  {
    WordSumBound(packet);
    assert (|packet| + 1) / 2 <= 65_536;
  }

  /** A packet checks as correct exactly when its words add up to a positive
      multiple of 65535. */
  lemma ZeroChecksum(packet: Packet)
    requires |packet| <= 131_072
    ensures ChecksumOf(packet) == 0 <==> WordSum(packet) > 0 && WordSum(packet) % 65_535 == 0
  {
    hide Folded;
    hide WordSum;
    NoOverflow(packet);
    FoldedIsAllOnes(WordSum(packet));
  }

  lemma FoldedIsAllOnes(sum: nat)
    ensures Folded(sum) == 0xFFFF <==> sum > 0 && sum % 65_535 == 0
  {
    var r := Folded(sum);
    hide Folded;
    assert r % 65_535 == if r == 65_535 then 0 else r;
  }

  /** The packet with its `i`-th word replaced. */
  function WithWord(packet: Packet, i: nat, word: nat): Packet
    requires 2 * i + 1 < |packet| && word < 0x1_0000
  {
    packet[2 * i := word / 256][2 * i + 1 := word % 256]
  }

  lemma {:induction false} WithWordSum(packet: Packet, i: nat, word: nat)
    requires 2 * i + 1 < |packet| && word < 0x1_0000
    ensures WordSum(WithWord(packet, i, word)) + Word(packet[2 * i], packet[2 * i + 1]) == WordSum(packet) + word
    decreases i
  {
    var changed := WithWord(packet, i, word);
    if i == 0 {
      assert changed[2..] == packet[2..];
    } else {
      WithWordSum(packet[2..], i - 1, word);
      assert changed[2..] == WithWord(packet[2..], i - 1, word);
    }
  }

  /** Storing the checksum of a packet with a zero checksum field makes the
      checksum of the whole packet zero. */
  lemma ChecksumVerifies(packet: Packet)
    requires 4 <= |packet| <= 131_072 && packet[2] == 0 && packet[3] == 0
    ensures ChecksumOf(packet) < 0x1_0000
    ensures ChecksumOf(WithWord(packet, 1, ChecksumOf(packet))) == 0
  {
    hide Folded;
    hide WordSum;
    var c := ChecksumOf(packet);
    NoOverflow(packet);
    WithWordSum(packet, 1, c);
    var sum := WordSum(packet);
    SumsToMultiple(sum, Folded(sum));
    ZeroChecksum(WithWord(packet, 1, c));
  }

  lemma SumsToMultiple(sum: nat, folded: nat)
    requires folded < 0x1_0000 && folded % 65_535 == sum % 65_535 && (folded == 0 <==> sum == 0)
    ensures sum + (0xFFFF - folded) > 0 && (sum + (0xFFFF - folded)) % 65_535 == 0
  {
    var q, p := sum / 65_535, folded / 65_535;
    assert sum - folded == 65_535 * (q - p);
    assert sum + (0xFFFF - folded) == 65_535 * (q - p + 1);
  }

  /** A correct packet changed in one word still checks as correct exactly when
      the word changed between the two representations of zero, and not into a
      packet of zeros. */
  lemma ChangeIsDetected(packet: Packet, i: nat, word: nat)
    requires |packet| <= 131_072 && 2 * i + 1 < |packet| && word < 0x1_0000
    requires ChecksumOf(packet) == 0 && word != Word(packet[2 * i], packet[2 * i + 1])
    ensures var changed, was := WithWord(packet, i, word), Word(packet[2 * i], packet[2 * i + 1]);
            ChecksumOf(changed) == 0 <==> WordSum(changed) > 0 && {was, word} == {0, 0xFFFF}
  {
    var changed, was := WithWord(packet, i, word), Word(packet[2 * i], packet[2 * i + 1]);
    ZeroChecksum(packet);
    ZeroChecksum(changed);
    WithWordSum(packet, i, word);
    WholeTurns(WordSum(packet), WordSum(changed), was, word);
  }

  lemma WholeTurns(s: nat, t: nat, was: nat, word: nat)
    requires s % 65_535 == 0 && t + was == s + word && was < 0x1_0000 && word < 0x1_0000 && was != word
    ensures t % 65_535 == 0 <==> {was, word} == {0, 0xFFFF}
  {
    assert s == 65_535 * (s / 65_535);
    if t % 65_535 == 0 {
      assert t == 65_535 * (t / 65_535);
      var k: int := t / 65_535 - s / 65_535;
      assert word - was == 65_535 * k;
    } else {
      assert {was, word} == {0, 0xFFFF} ==> t == s + 65_535 || t == s - 65_535;
    }
  }

  /** Words are big-endian, each pair of bytes is one, and an odd last byte counts as
      if a zero byte followed it. */
  lemma {:induction false} WordSumIs(packet: Packet, high: Byte, low: Byte)
    requires |packet| % 2 == 0
    ensures WordSum(packet + [high, low]) == WordSum(packet) + 256 * high + low
    ensures WordSum(packet + [high]) == WordSum(packet + [high, 0])
    decreases |packet|
  {
    if packet == [] {
      assert packet + [high, low] == [high, low] && packet + [high] == [high] && packet + [high, 0] == [high, 0];
      assert [high, low][2..] == [] && [high, 0][2..] == [];
    } else {
      WordSumIs(packet[2..], high, low);
      assert (packet + [high, low])[2..] == packet[2..] + [high, low];
      assert (packet + [high])[2..] == packet[2..] + [high];
      assert (packet + [high, 0])[2..] == packet[2..] + [high, 0];
    }
  }
}
