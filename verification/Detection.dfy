/** Exactly which corruptions of a message `parse_message` (tools/gxfp.py) notices. */
module Detection {
  import opened Bits
  import opened Bytes
  import opened Codec

  /** The receiver takes the body for a message with a good checksum. Otherwise the body is flagged. */
  predicate Accepted(b: seq<byte>) {
    ParseMessage(b).Some? && ParseMessage(b).value.ok
  }

  lemma LowByteOfSum(c: nat, a: nat)
    ensures LowByte(c + a) == LowByte(c + LowByte(a))
  {
    var r := c + a % 256;
    assert a == 256 * (a / 256) + a % 256;
    assert r == 256 * (r / 256) + r % 256;
    DivModUnique(c + a, 256, a / 256 + r / 256, r % 256);
  }

  lemma LowByteCancels(c: nat, a: nat, b: nat)
    ensures LowByte(c + a) == LowByte(c + b) <==> LowByte(a) == LowByte(b)
  {
    hide LowByte;
    LowByteOfSum(c, a);
    LowByteOfSum(c, b);
    if LowByte(a) != LowByte(b) {
      LowByteDiffers(c + LowByte(a), c + LowByte(b));
    }
  }

  /** Command byte and payload add up to the same modulo 256. */
  predicate SameSums(c: byte, p: seq<byte>, d: byte, q: seq<byte>) {
    LowByte(c + Sum(p)) == LowByte(d + Sum(q))
  }

  /** Two bodies that share length bytes have the same checksum if and only if their command byte
      plus payload sums agree modulo 256. */
  lemma SameChecksum(c: byte, d: byte, lo: byte, hi: byte, p: seq<byte>, q: seq<byte>)
    ensures Checksum(c, lo, hi, p) == Checksum(d, lo, hi, q) <==> SameSums(c, p, d, q)
  {
    hide LowByte, Complement;
    ComplementInjective(LowByte(c as nat + lo + hi + Sum(p)), LowByte(d as nat + lo + hi + Sum(q)));
    LowByteCancels(lo as nat + hi, c + Sum(p), d + Sum(q));
    assert c as nat + lo + hi + Sum(p) == lo as nat + hi + (c + Sum(p));
    assert d as nat + lo + hi + Sum(q) == lo as nat + hi + (d + Sum(q));
  }

  lemma ContentParse(c: byte, lo: byte, hi: byte, q: seq<byte>, ck: byte)
    requires Le16(lo, hi) == |q| + 1
    ensures var bad := [c, lo, hi] + q + [ck];
            && ParseMessage(bad).Some? && ParseMessage(bad).value.payload == q
            && (Accepted(bad) <==> ck == NO_CHECKSUM || ck == Checksum(c, lo, hi, q))
  {
    hide Checksum, Cmd0, Cmd1, Le16, ParseMessage;
    var bad := [c, lo, hi] + q + [ck];
    assert bad == [bad[0], bad[1], bad[2]] + q + [ck] + [];
    ParseFramed(bad, q, ck, []);
  }

  /** Length field and checksum of a message. */
  lemma MessageEnds(cmd0: int, cmd1: int, p: seq<byte>, checksum: bool)
    requires |p| <= MAX_PAYLOAD
    ensures var m := Message(cmd0, cmd1, p, checksum);
            && Le16(m[1], m[2]) == |p| + 1
            && (m[3 + |p|] == NO_CHECKSUM || m[3 + |p|] == Checksum(m[0], m[1], m[2], p))
  {
    hide Checksum, CmdByte, Le16, Message;
    MessageFits(cmd0, cmd1, p, checksum);
  }

  /** The general law: put any command byte and any payload of the same length in place of the
      message's own. It passes if and only if the stored checksum byte is the sentinel 0x88, or the
      two byte sums agree modulo 256. */
  lemma ContentCorruption(cmd0: int, cmd1: int, p: seq<byte>, checksum: bool, c: byte, q: seq<byte>)
    requires |p| == |q| <= MAX_PAYLOAD
    ensures var m := Message(cmd0, cmd1, p, checksum);
            var ck := m[3 + |p|];
            var bad := [c, m[1], m[2]] + q + [ck];
            && ParseMessage(bad).Some? && ParseMessage(bad).value.payload == q
            && (Accepted(bad) <==> ck == NO_CHECKSUM || SameSums(m[0], p, c, q))
  {
    hide Checksum, Le16, Message, ParseMessage, Accepted, CmdByte, SameSums;
    var m := Message(cmd0, cmd1, p, checksum);
    MessageEnds(cmd0, cmd1, p, checksum);
    ContentParse(c, m[1], m[2], q, m[3 + |p|]);
    SameChecksum(m[0], c, m[1], m[2], p, q);
  }

  /** One corrupted payload byte is noticed if and only if the message's own checksum is not 0x88. */
  lemma PayloadByteCorruption(cmd0: int, cmd1: int, p: seq<byte>, checksum: bool, i: nat, v: byte)
    requires i < |p| <= MAX_PAYLOAD && v != p[i]
    ensures var m := Message(cmd0, cmd1, p, checksum);
            Accepted(m[3 + i := v]) <==> m[3 + |p|] == NO_CHECKSUM
  {
    hide LowByte, CmdByte, Message, ParseMessage;
    var m := Message(cmd0, cmd1, p, checksum);
    MessageFits(cmd0, cmd1, p, checksum);
    ContentCorruption(cmd0, cmd1, p, checksum, m[0], p[i := v]);
    assert m[3 + i := v] == [m[0], m[1], m[2]] + p[i := v] + [m[3 + |p|]];
    SumUpdate(p, i, v);
    LowByteDiffers(m[0] + Sum(p), m[0] + Sum(p[i := v]));
  }

  /** A corrupted command byte is noticed if and only if the message's own checksum is not 0x88. */
  lemma CommandByteCorruption(cmd0: int, cmd1: int, p: seq<byte>, checksum: bool, v: byte)
    requires |p| <= MAX_PAYLOAD && v != CmdByte(cmd0, cmd1)
    ensures var m := Message(cmd0, cmd1, p, checksum);
            Accepted(m[0 := v]) <==> m[3 + |p|] == NO_CHECKSUM
  {
    hide LowByte, CmdByte, Message, ParseMessage;
    var m := Message(cmd0, cmd1, p, checksum);
    MessageFits(cmd0, cmd1, p, checksum);
    ContentCorruption(cmd0, cmd1, p, checksum, v, p);
    assert m[0 := v] == [v, m[1], m[2]] + p + [m[3 + |p|]];
    LowByteDiffers(m[0] + Sum(p), v + Sum(p));
  }

  /** A corrupted checksum byte passes only as the sentinel, or as the checksum the message omitted. */
  lemma ChecksumByteCorruption(cmd0: int, cmd1: int, p: seq<byte>, checksum: bool, v: byte)
    requires |p| <= MAX_PAYLOAD
    requires v != Message(cmd0, cmd1, p, checksum)[3 + |p|]
    ensures var m := Message(cmd0, cmd1, p, checksum);
            Accepted(m[3 + |p| := v]) <==>
            v == NO_CHECKSUM || (!checksum && v == Checksum(m[0], m[1], m[2], p))
  {
    hide LowByte, Checksum, CmdByte, Cmd0, Cmd1, Le16, Message, ParseMessage;
    var m := Message(cmd0, cmd1, p, checksum);
    MessageFits(cmd0, cmd1, p, checksum);
    var bad := m[3 + |p| := v];
    assert bad == [bad[0], bad[1], bad[2]] + p + [v] + [];
    ParseFramed(bad, p, v, []);
  }

  /** A corrupted length field that asks for more bytes than there are is always noticed. One that asks
      for fewer passes if and only if the payload byte it lands on serves as the checksum of what
      precedes it; a zero field passes if and only if the command byte is 0xAA. */
  lemma LengthCorruption(cmd0: int, cmd1: int, p: seq<byte>, checksum: bool, lo: byte, hi: byte)
    requires |p| <= MAX_PAYLOAD && Le16(lo, hi) != |p| + 1
    ensures var m := Message(cmd0, cmd1, p, checksum);
            var n := Le16(lo, hi) - 1;
            Accepted(m[1 := lo][2 := hi]) <==>
            if n > |p| then false
            else if n == -1 then m[0] == 0xAA
            else p[n] == NO_CHECKSUM || p[n] == Checksum(m[0], lo, hi, p[..n])
  {
    hide LowByte, HighByte, Checksum, CmdByte, Cmd0, Cmd1, Message;
    var m := Message(cmd0, cmd1, p, checksum);
    MessageFits(cmd0, cmd1, p, checksum);
    var bad := m[1 := lo][2 := hi];
    var n := Le16(lo, hi) - 1;
    if n == -1 {
      ZeroLengthField(bad);
    } else if n < |p| {
      var tail := p[n + 1..] + [m[3 + |p|]];
      assert bad == [bad[0], bad[1], bad[2]] + p[..n] + [p[n]] + tail;
      ParseFramed(bad, p[..n], p[n], tail);
    }
  }

  /** Reordering the payload keeps the checksum, so it goes unnoticed. */
  lemma PermutationUnnoticed(cmd0: int, cmd1: int, p: seq<byte>, q: seq<byte>, checksum: bool)
    requires multiset(p) == multiset(q)
    ensures Message(cmd0, cmd1, q, checksum) ==
            Message(cmd0, cmd1, p, checksum)[..3] + q + Message(cmd0, cmd1, p, checksum)[3 + |p|..]
  {
    hide LowByte, HighByte, CmdByte, Complement;
    assert |multiset(p)| == |p| && |multiset(q)| == |q|;
    SumPermutation(p, q);
  }
}
