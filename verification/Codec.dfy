/** The Milan-SPI codec of tools/gxfp.py: the 4-byte transport header and the inner message. */
module Codec {
  import opened Bits
  import opened Bytes

  const PKT_MSG := 0xA
  const PKT_TLS := 0xB
  const NO_CHECKSUM: byte := 0x88
  /** The largest payload whose length-plus-one still fits the 16-bit field. */
  const MAX_PAYLOAD := 65534

  //////////////////////////////////////////////////////////////////////////////
  // Transport header
  //////////////////////////////////////////////////////////////////////////////

  /** ((ptype << 4) & 0xF0) | (flags & 0x0F) */
  function TypeByte(ptype: int, flags: int): byte {
    16 * (ptype % 16) + flags % 16
  }

  function HeaderSum(h0: byte, h1: byte, h2: byte): nat {
    h0 + h2 + h1
  }

  function SpiHeader(bodyLen: nat, ptype: int, flags: int): (h: seq<byte>)
    ensures |h| == 4
  {
    var h0 := TypeByte(ptype, flags);
    var lo, hi := LowByte(bodyLen), HighByte(bodyLen);
    [h0, lo, hi, LowByte(HeaderSum(h0, lo, hi))]
  }

  function CheckHeader(h: seq<byte>): (r: Option<nat>) {
    if |h| < 4 then None
    else if HighNibble(h[0]) != PKT_MSG && HighNibble(h[0]) != PKT_TLS then None
    else if h[3] != LowByte(HeaderSum(h[0], h[1], h[2])) then None
    else Some(Le16(h[1], h[2]))
  }

  lemma TypeByteFields(ptype: int, flags: int, b: byte)
    ensures HighNibble(TypeByte(ptype, flags)) == ptype % 16
    ensures LowNibble(TypeByte(ptype, flags)) == flags % 16
    ensures TypeByte(HighNibble(b), LowNibble(b)) == b
  {
  }

  /** `check_header` accepts exactly the headers `spi_header` builds for the two packet types
      (with any flag nibble), and recovers their length. */
  lemma CheckHeaderExact(h: seq<byte>, n: nat)
    requires |h| == 4
    ensures CheckHeader(h) == Some(n) <==>
            && n < 0x1_0000
            && HighNibble(h[0]) in {PKT_MSG, PKT_TLS}
            && h == SpiHeader(n, HighNibble(h[0]), LowNibble(h[0]))
  {
    hide HighNibble, LowNibble, TypeByte, LowByte, HighByte, Le16, HeaderSum;
    TypeByteFields(0, 0, h[0]);
    JoinThenSplit(h[1], h[2]);
    SplitThenJoin(n);
    Le16Bound(h[1], h[2]);
    var g := SpiHeader(n, HighNibble(h[0]), LowNibble(h[0]));
    assert h == [h[0], h[1], h[2], h[3]];
  }

  lemma Le16Bound(lo: byte, hi: byte)
    ensures Le16(lo, hi) < 0x1_0000
  {
  }

  /** Reading back a built header gives the length modulo 2^16, for the two known packet types only. */
  lemma CheckOfSpiHeader(bodyLen: nat, ptype: int, flags: int)
    ensures CheckHeader(SpiHeader(bodyLen, ptype, flags)) ==
            if ptype % 16 in {PKT_MSG, PKT_TLS} then Some(bodyLen % 0x1_0000) else None
  {
    hide HighNibble, LowNibble, TypeByte, LowByte, HighByte, Le16, HeaderSum;
    TypeByteFields(ptype, flags, 0);
    SplitThenJoin(bodyLen);
  }

  /** Every single-byte corruption of an accepted header is rejected. */
  lemma HeaderDetectsAnyByte(h: seq<byte>, i: nat, v: byte)
    requires |h| == 4 && CheckHeader(h).Some? && i < 4 && v != h[i]
    ensures CheckHeader(h[i := v]).None?
  {
    hide HighNibble, LowByte, Le16;
    var g := h[i := v];
    if i < 3 {
      LowByteDiffers(HeaderSum(h[0], h[1], h[2]), HeaderSum(g[0], g[1], g[2]));
    }
  }

  /** The sum is blind to order: exchanging the two length bytes of an accepted header goes
      unnoticed and yields the byte-swapped length. */
  lemma HeaderMissesSwap(h: seq<byte>)
    requires |h| == 4 && CheckHeader(h).Some?
    ensures CheckHeader([h[0], h[2], h[1], h[3]]) == Some(Le16(h[2], h[1]))
  {
    hide HighNibble, LowByte, Le16;
  }

  /** A bus idling at one repeated byte never looks like a header. */
  lemma FillerIsNoHeader(f: byte)
    ensures CheckHeader([f, f, f, f]).None?
  {
    if f == LowByte(3 * f) {
      assert 2 * f == 256 * (3 * f / 256);
      assert f == 0 || f == 128;
    }
  }

  //////////////////////////////////////////////////////////////////////////////
  // Inner message
  //////////////////////////////////////////////////////////////////////////////

  /** The fields of a command byte: a 4-bit group number and a 3-bit command within it. */
  type group = n: nat | n < 16
  type index = n: nat | n < 8

  /** What `parse_message` reports. The display name of the command is left out. */
  datatype Parsed = Parsed(cmd: byte, cmd0: group, cmd1: index, len: int, payload: seq<byte>,
                           cksum: Option<byte>, ok: bool)

  /** ((cmd0 << 4) | (cmd1 << 1)) & 0xFF: the high nibble also takes what overflows from cmd1. */
  function CmdByte(cmd0: int, cmd1: int): byte {
    NibbleOr(cmd0, cmd1 / 8);
    16 * Or(cmd0 % 16, cmd1 / 8 % 16) + 2 * (cmd1 % 8)
  }

  lemma NibbleOr(a: int, b: int)
    ensures Or(a % 16, b % 16) == Or(a, b) % 16
  {
    hide Or;
    Pow2Values();
    OrBelow(a, b, 4);
  }

  /** cmd >> 4 */
  function Cmd0(cmd: byte): group {
    cmd / 16
  }

  /** (cmd >> 1) & 7 */
  function Cmd1(cmd: byte): index {
    cmd / 2 % 8
  }

  lemma CmdValue(cmd0: group, cmd1: index)
    ensures CmdByte(cmd0, cmd1) == 16 * cmd0 + 2 * cmd1
  {
    SmallMod(cmd0, cmd1);
    assert Or(cmd0, 0) == cmd0 by {
      OrCommutes(cmd0, 0);
    }
    hide Or;
  }

  lemma SmallMod(cmd0: group, cmd1: index)
    ensures cmd0 % 16 == cmd0 && cmd1 % 8 == cmd1 && cmd1 / 8 % 16 == 0
  {
  }

  lemma CmdFields(cmd0: group, cmd1: index)
    ensures Cmd0(CmdByte(cmd0, cmd1)) == cmd0 && Cmd1(CmdByte(cmd0, cmd1)) == cmd1
  {
    hide CmdByte;
    CmdValue(cmd0, cmd1);
    var cmd := CmdByte(cmd0, cmd1);
    DivModUnique(cmd, 16, cmd0, 2 * cmd1);
    DivModUnique(cmd, 2, 8 * cmd0 + cmd1, 0);
    DivModUnique(8 * cmd0 + cmd1, 8, cmd0, cmd1);
  }

  /** The two fields come back out of the command byte exactly when they fit it; bit 0 is never set. */
  lemma CmdFieldsExact(cmd0: int, cmd1: int)
    ensures Cmd0(CmdByte(cmd0, cmd1)) == cmd0 && Cmd1(CmdByte(cmd0, cmd1)) == cmd1 <==> 0 <= cmd0 < 16 && 0 <= cmd1 < 8
    ensures CmdByte(cmd0, cmd1) % 2 == 0
  {
    if 0 <= cmd0 < 16 && 0 <= cmd1 < 8 {
      CmdFields(cmd0, cmd1);
    }
    DoubledIsEven(8 * Or(cmd0 % 16, cmd1 / 8 % 16) + cmd1 % 8);
  }

  lemma DoubledIsEven(n: int)
    ensures (2 * n) % 2 == 0
  {
  }

  lemma CmdPacks(cmd: byte)
    ensures CmdByte(Cmd0(cmd), Cmd1(cmd)) == cmd - cmd % 2
  {
    hide CmdByte;
    CmdValue(Cmd0(cmd), Cmd1(cmd));
    assert cmd / 2 == 8 * (cmd / 16) + cmd / 2 % 8;
  }

  /** (0xAA - s) & 0xFF */
  function Complement(s: byte): byte {
    (0xAA - s) % 256
  }

  lemma ComplementInjective(s: byte, t: byte)
    ensures Complement(s) == Complement(t) <==> s == t
  {
  }

  /** The checksum over the three leading bytes and the payload. */
  function Checksum(cmd: byte, lo: byte, hi: byte, payload: seq<byte>): byte {
    Complement(LowByte(cmd as nat + lo + hi + Sum(payload)))
  }

  function Message(cmd0: int, cmd1: int, payload: seq<byte>, checksum: bool): (m: seq<byte>)
    ensures |m| == |payload| + 4
  {
    var cmd := CmdByte(cmd0, cmd1);
    var lo, hi := LowByte(|payload| + 1), HighByte(|payload| + 1);
    [cmd, lo, hi] + payload + [if checksum then Checksum(cmd, lo, hi, payload) else NO_CHECKSUM]
  }

  /** Python's b[i:j]: an end beyond the string is clamped and an inverted range is empty. */
  function Slice(b: seq<byte>, i: nat, j: int): seq<byte> {
    if i <= j <= |b| then b[i..j]
    else if i <= |b| < j then b[i..]
    else []
  }

  function ParseMessage(b: seq<byte>): (r: Option<Parsed>) {
    if |b| < 4 then None
    else
      var n := Le16(b[1], b[2]) - 1;
      var payload := Slice(b, 3, 3 + n);
      var ck := if |b| > 3 + n then Some(b[3 + n]) else None;
      var ok := ck == Some(NO_CHECKSUM) || ck == Some(Checksum(b[0], b[1], b[2], payload));
      Some(Parsed(b[0], Cmd0(b[0]), Cmd1(b[0]), n, payload, ck, ok))
  }

  /** What the receiver sees when the length field says |payload| + 1 and the body is complete. */
  lemma ParseFramed(b: seq<byte>, payload: seq<byte>, ck: byte, tail: seq<byte>)
    requires |b| >= 4 && Le16(b[1], b[2]) == |payload| + 1
    requires b == [b[0], b[1], b[2]] + payload + [ck] + tail
    ensures ParseMessage(b) == Some(Parsed(b[0], Cmd0(b[0]), Cmd1(b[0]), |payload|, payload, Some(ck),
                                           ck == NO_CHECKSUM || ck == Checksum(b[0], b[1], b[2], payload)))
  {
    hide Le16, Checksum, Cmd0, Cmd1;
    assert b[3..3 + |payload|] == payload;
    assert b[3 + |payload|] == ck;
  }

  lemma MessageShape(cmd0: int, cmd1: int, payload: seq<byte>, checksum: bool)
    ensures var m := Message(cmd0, cmd1, payload, checksum);
            && m == [m[0], m[1], m[2]] + payload + [m[3 + |payload|]]
            && m[0] == CmdByte(cmd0, cmd1)
            && Le16(m[1], m[2]) == (|payload| + 1) % 0x1_0000
            && m[3 + |payload|] == if checksum then Checksum(m[0], m[1], m[2], payload) else NO_CHECKSUM
  {
    hide Le16, LowByte, HighByte, Checksum, CmdByte;
    SplitThenJoin(|payload| + 1);
  }

  lemma MessageFits(cmd0: int, cmd1: int, payload: seq<byte>, checksum: bool)
    requires |payload| <= MAX_PAYLOAD
    ensures var m := Message(cmd0, cmd1, payload, checksum);
            && m == [m[0], m[1], m[2]] + payload + [m[3 + |payload|]]
            && m[0] == CmdByte(cmd0, cmd1)
            && Le16(m[1], m[2]) == |payload| + 1
            && m[3 + |payload|] == if checksum then Checksum(m[0], m[1], m[2], payload) else NO_CHECKSUM
  {
    hide Le16, Checksum, CmdByte, Message;
    MessageShape(cmd0, cmd1, payload, checksum);
  }

  /** A message parses back to its inputs, whatever bytes follow it on the wire. */
  lemma ParseOfMessage(cmd0: int, cmd1: int, payload: seq<byte>, checksum: bool, tail: seq<byte>)
    requires |payload| <= MAX_PAYLOAD
    ensures var m := Message(cmd0, cmd1, payload, checksum);
            ParseMessage(m + tail) ==
            var cmd := CmdByte(cmd0, cmd1);
            Some(Parsed(cmd, Cmd0(cmd), Cmd1(cmd), |payload|, payload, Some(m[3 + |payload|]), true))
  {
    hide Le16, Checksum, Cmd0, Cmd1, CmdByte, ParseMessage, Message;
    var m := Message(cmd0, cmd1, payload, checksum);
    MessageFits(cmd0, cmd1, payload, checksum);
    var b := m + tail;
    assert b[..3] == m[..3];
    assert b == [b[0], b[1], b[2]] + payload + [m[3 + |payload|]] + tail;
    ParseFramed(b, payload, m[3 + |payload|], tail);
  }

  /** The 16-bit length field is the only limit: the payload survives the round trip if and only
      if it has at most 65534 bytes. */
  lemma RoundTripLimit(cmd0: int, cmd1: int, payload: seq<byte>, checksum: bool)
    ensures ParseMessage(Message(cmd0, cmd1, payload, checksum)).value.payload == payload
            <==> |payload| <= MAX_PAYLOAD
  {
    hide Le16, Checksum, Cmd0, Cmd1, CmdByte, Message;
    var m := Message(cmd0, cmd1, payload, checksum);
    MessageShape(cmd0, cmd1, payload, checksum);
    if |payload| <= MAX_PAYLOAD {
      ParseOfMessage(cmd0, cmd1, payload, checksum, []);
      assert m + [] == m;
    } else {
      assert Le16(m[1], m[2]) - 1 < MAX_PAYLOAD + 1;
    }
  }

  /** No proper prefix of a message is taken for a whole one. */
  lemma PrefixRejected(cmd0: int, cmd1: int, payload: seq<byte>, checksum: bool, k: nat)
    requires |payload| <= MAX_PAYLOAD && k < |payload| + 4
    ensures var r := ParseMessage(Message(cmd0, cmd1, payload, checksum)[..k]);
            r.Some? ==> !r.value.ok && r.value.cksum.None?
  {
    hide Le16, Checksum, Cmd0, Cmd1, CmdByte, Message;
    MessageFits(cmd0, cmd1, payload, checksum);
  }

  /** What is reported of a message that was cut off: its command and length fields, the payload as far as it came,
      and no checksum. */
  lemma PrefixReport(cmd0: int, cmd1: int, payload: seq<byte>, checksum: bool, k: nat)
    requires |payload| <= MAX_PAYLOAD && k < |payload| + 4
    ensures var cmd := CmdByte(cmd0, cmd1);
            ParseMessage(Message(cmd0, cmd1, payload, checksum)[..k]) ==
            if k < 4 then None
            else Some(Parsed(cmd, Cmd0(cmd), Cmd1(cmd), |payload|, payload[..k - 3], None, false))
  {
    hide Le16, Checksum, Cmd0, Cmd1, CmdByte, Message;
    MessageFits(cmd0, cmd1, payload, checksum);
    var m := Message(cmd0, cmd1, payload, checksum);
    var b := m[..k];
    if k >= 4 {
      assert b[0] == m[0] && b[1] == m[1] && b[2] == m[2];
      assert b[3..] == payload[..k - 3] && b[3..k] == b[3..];
      assert Slice(b, 3, 3 + |payload|) == payload[..k - 3];
    }
  }

  /** Exactly which byte strings are messages: those that parse with a good checksum, have bit 0 of
      the command byte clear, and end with the checksum byte. */
  lemma MessageImage(b: seq<byte>)
    requires |b| >= 4
    ensures var r := ParseMessage(b).value;
            r.ok && b[0] % 2 == 0 && |b| == r.len + 4
            <==> |r.payload| <= MAX_PAYLOAD && exists flag :: b == Message(r.cmd0, r.cmd1, r.payload, flag)
  {
    hide Le16, LowByte, HighByte, Checksum, CmdByte, Cmd0, Cmd1;
    var r := ParseMessage(b).value;
    CmdPacks(b[0]);
    JoinThenSplit(b[1], b[2]);
    Le16Bound(b[1], b[2]);
    if r.ok && b[0] % 2 == 0 && |b| == r.len + 4 {
      var flag := b[3 + r.len] != NO_CHECKSUM;
      assert b == [b[0], b[1], b[2]] + r.payload + [b[3 + r.len]];
      assert b == Message(r.cmd0, r.cmd1, r.payload, flag);
    }
    forall flag | |r.payload| <= MAX_PAYLOAD && b == Message(r.cmd0, r.cmd1, r.payload, flag)
      ensures r.ok && b[0] % 2 == 0 && |b| == r.len + 4
    {
      ParseOfMessage(r.cmd0, r.cmd1, r.payload, flag, []);
      assert b + [] == b;
      CmdFieldsExact(r.cmd0, r.cmd1);
    }
  }

  /** A length field of zero is read as length -1: the third byte doubles as the checksum, and the
      string passes exactly when the command byte is 0xAA, though no message has such a field. */
  lemma ZeroLengthField(b: seq<byte>)
    requires |b| >= 4 && b[1] == 0 && b[2] == 0
    ensures var r := ParseMessage(b).value;
            r.len == -1 && r.payload == [] && (r.ok <==> b[0] == 0xAA)
  {
    hide Complement, LowByte;
    assert Checksum(b[0], 0, 0, []) == Complement(b[0]) by {
      assert LowByte(b[0] as nat + 0 + 0 + Sum([])) == b[0] by { LowByteOfByte(b[0]); }
    }
    ComplementInjective(b[0], 0xAA);
    ComplementOfBase();
  }

  lemma ComplementOfBase()
    ensures Complement(0xAA) == 0
  {
  }
}
