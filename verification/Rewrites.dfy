/** The independent rewrites of the codec: tools/framing.py, tools/refseq.py, tools/dialects.py,
    tools/sweep_low.py and tools/cshigh_repro.py, compared with tools/gxfp.py. */
module Rewrites {
  import opened Bits
  import opened Bytes
  import opened Codec
  import opened Wire
  import D = Detection

  /** (0xAA - s) & 0xFF for a sum that was not reduced first */
  function ComplementOfSum(s: nat): byte {
    (0xAA - s) % 256
  }

  lemma ReductionFirst(s: nat)
    ensures ComplementOfSum(s) == Complement(LowByte(s))
  {
    var r := s % 256;
    assert s == 256 * (s / 256) + r;
    var c := (0xAA - r) % 256;
    assert 0xAA - r == 256 * ((0xAA - r) / 256) + c;
    DivModUnique(0xAA - s, 256, (0xAA - r) / 256 - s / 256, c);
  }

  lemma ComplementStep(s: nat)
    ensures (0xAA - s) % 256 == ((0xAA - (s + 1) % 256) % 256 + 1) % 256
  {
    var t := s + 1;
    var r := t % 256;
    assert t == 256 * (t / 256) + r;
    var c := (0xAA - r) % 256;
    assert 0xAA - r == 256 * ((0xAA - r) / 256) + c;
    var d := (c + 1) % 256;
    assert c + 1 == 256 * ((c + 1) / 256) + d;
    DivModUnique(0xAA - s, 256, (0xAA - r) / 256 - t / 256 + (c + 1) / 256, d);
  }

  //////////////////////////////////////////////////////////////////////////////
  // Builders
  //////////////////////////////////////////////////////////////////////////////

  /** `header` (framing.py), `make_header` (refseq.py) and `hdr` (dialects.py): the type is a whole byte. */
  function SummedHeader(ptype: byte, bodyLen: nat): (h: seq<byte>)
    ensures |h| == 4
  {
    var h := [ptype, LowByte(bodyLen), HighByte(bodyLen)];
    h + [LowByte(Sum(h))]
  }

  /** `header` (cshigh_repro.py) and the header inside `milan` (sweep_low.py): the high length byte is
      not masked, so building the byte string fails when it does not fit. */
  function StrictHeader(bodyLen: nat): Option<seq<byte>> {
    if bodyLen / 256 > 255 then None
    else Some(SummedHeader(0xA0, bodyLen))
  }

  lemma Sum3(a: byte, b: byte, c: byte)
    ensures Sum([a, b, c]) == a + b + c
  {
    assert [a, b, c][1..] == [b, c] && [b, c][1..] == [c] && [c][1..] == [];
    assert Sum([c]) == c + Sum([]);
    assert Sum([b, c]) == b + Sum([c]);
  }

  /** All the header builders agree with `spi_header`, for every type byte and length. */
  lemma HeadersAgree(ptype: byte, bodyLen: nat)
    ensures SummedHeader(ptype, bodyLen) == SpiHeader(bodyLen, HighNibble(ptype), LowNibble(ptype))
    ensures SummedHeader(0xA0, bodyLen) == SpiHeader(bodyLen, PKT_MSG, 0)
    ensures StrictHeader(bodyLen) == if bodyLen < 0x1_0000 then Some(SpiHeader(bodyLen, PKT_MSG, 0)) else None
  {
    hide LowByte, HighByte, HighNibble, LowNibble, TypeByte, Sum;
    TypeByteFields(0, 0, ptype);
    assert TypeByte(PKT_MSG, 0) == 0xA0 by { TypeByteOfMessage(); }
    Sum3(ptype, LowByte(bodyLen), HighByte(bodyLen));
    Sum3(0xA0, LowByte(bodyLen), HighByte(bodyLen));
  }

  lemma TypeByteOfMessage()
    ensures TypeByte(PKT_MSG, 0) == 0xA0
  {
  }

  /** `milan` of dialects.py, and the body inside `milan` of sweep_low.py. */
  function Milan(cmd0: int, cmd1: int, payload: seq<byte>): seq<byte> {
    var n := |payload| + 1;
    var body := [CmdByte(cmd0, cmd1), LowByte(n), HighByte(n)] + payload;
    body + [ComplementOfSum(Sum(body))]
  }

  /** `milan` of sweep_low.py: header and body in one byte string. */
  function MilanFrame(cmd0: int, cmd1: int, payload: seq<byte>): Option<seq<byte>> {
    var body := Milan(cmd0, cmd1, payload);
    var hdr := StrictHeader(|body|);
    if hdr.None? then None else Some(hdr.value + body)
  }

  lemma MilanAgrees(cmd0: int, cmd1: int, payload: seq<byte>)
    ensures Milan(cmd0, cmd1, payload) == Message(cmd0, cmd1, payload, true)
  {
    hide LowByte, HighByte, CmdByte, Sum, Complement, ComplementOfSum;
    var lead := [CmdByte(cmd0, cmd1), LowByte(|payload| + 1), HighByte(|payload| + 1)];
    SumAppend(lead, payload);
    Sum3(lead[0], lead[1], lead[2]);
    ReductionFirst(Sum(lead + payload));
  }

  /** The one-string builder yields the wire bytes of `send` and fails exactly when the body length
      does not fit 16 bits. */
  lemma MilanFrameAgrees(cmd0: int, cmd1: int, payload: seq<byte>)
    ensures MilanFrame(cmd0, cmd1, payload) ==
            if |payload| + 4 < 0x1_0000 then Some(Flatten(Frame(Message(cmd0, cmd1, payload, true)))) else None
  {
    hide StrictHeader, Milan, Message, SpiHeader, Flatten;
    var body := Message(cmd0, cmd1, payload, true);
    MilanAgrees(cmd0, cmd1, payload);
    HeadersAgree(0xA0, |body|);
    FlattenPair(SpiHeader(|body|, PKT_MSG, 0), body);
  }

  //////////////////////////////////////////////////////////////////////////////
  // Acceptance of a header read from the wire
  //////////////////////////////////////////////////////////////////////////////

  /** `Link.read` (framing.py): the body length it goes on to read. */
  function LinkBodyLength(h: seq<byte>): Option<nat> {
    var ok := |h| == 4 && h[3] == LowByte(Sum(h[..3])) && HighNibble(h[0]) in {0xA, 0xB};
    if !ok || Le16(h[1], h[2]) == 0 || Le16(h[1], h[2]) > MAX_BODY then None
    else Some(Le16(h[1], h[2]))
  }

  /** `Ref.read` (refseq.py): the same without a test of the packet type. */
  function RefBodyLength(h: seq<byte>): Option<nat> {
    var ok := |h| == 4 && h[3] == LowByte(Sum(h[..3]));
    if !ok || Le16(h[1], h[2]) == 0 || Le16(h[1], h[2]) > MAX_BODY then None
    else Some(Le16(h[1], h[2]))
  }

  /** `Link.read` accepts what `read_packet` accepts. `Ref.read` accepts that and more: the two readers
      agree on a header if and only if its type nibble is known, or one of the other tests fails: the sum,
      or the bounds of the length. */
  lemma ReadersCompared(h: seq<byte>)
    requires |h| == 4
    ensures LinkBodyLength(h) == BodyLength(h)
    ensures BodyLength(h).Some? ==> RefBodyLength(h) == BodyLength(h)
    ensures RefBodyLength(h) == BodyLength(h) <==>
            || HighNibble(h[0]) in {PKT_MSG, PKT_TLS}
            || h[3] != LowByte(HeaderSum(h[0], h[1], h[2]))
            || Le16(h[1], h[2]) == 0 || Le16(h[1], h[2]) > MAX_BODY
  {
    hide LowByte, HighNibble, Le16, Sum;
    Sum3(h[0], h[1], h[2]);
    assert h[..3] == [h[0], h[1], h[2]];
  }

  /** An unknown packet type that only `Ref.read` accepts. */
  lemma RefAcceptsUnknownType()
    ensures RefBodyLength([0x10, 1, 0, 0x11]) == Some(1) && BodyLength([0x10, 1, 0, 0x11]).None?
  {
    var h: seq<byte> := [0x10, 1, 0, 0x11];
    assert h[..3] == [h[0], h[1], h[2]];
    Sum3(h[0], h[1], h[2]);
  }

  /** An idle bus is refused by all three readers, whatever byte it idles at. The all-zero header passes
      the additive sum; the type test or the zero length is what refuses it. */
  lemma IdleRefusedByAll(f: byte)
    ensures BodyLength([f, f, f, f]).None? && LinkBodyLength([f, f, f, f]).None? && RefBodyLength([f, f, f, f]).None?
    ensures LowByte(Sum([0, 0, 0])) == 0
  {
    FillerIsNoHeader(f);
    var h := [f, f, f, f];
    ReadersCompared(h);
    assert h[..3] == [f, f, f];
    Sum3(f, f, f);
    Sum3(0, 0, 0);
    if f == LowByte(3 * f) {
      assert 2 * f == 256 * (3 * f / 256);
    }
  }

  //////////////////////////////////////////////////////////////////////////////
  // Link: one or two transfers per frame, with or without the NOP preamble
  //////////////////////////////////////////////////////////////////////////////

  /** The NOP preamble of framing.py. */
  const NOP: seq<byte> := [0x00, 0x05, 0x00, 0x00, 0x00, 0x00, 0x00, 0x88]
  const NOP_COMMAND := Command(0, 0, [0, 0, 0, 0], false)

  lemma NopIsCommand()
    ensures Body(NOP_COMMAND) == NOP
  {
    hide LowByte, HighByte, CmdByte, Checksum;
    SmallFields(0, 0, 5);
  }

  lemma SmallFields(cmd0: group, cmd1: index, n: nat)
    requires n < 256
    ensures CmdByte(cmd0, cmd1) == 16 * cmd0 + 2 * cmd1 && LowByte(n) == n && HighByte(n) == 0
  {
    hide CmdByte;
    CmdValue(cmd0, cmd1);
  }

  /** The transactions of `Link.frame`. */
  function LinkFrame(oneTransfer: bool, body: seq<byte>): seq<seq<byte>> {
    if oneTransfer then [Flatten(Frame(body))] else Frame(body)
  }

  /** The transactions of `Link.command`. */
  function LinkCommand(oneTransfer: bool, preamble: bool, body: seq<byte>): seq<seq<byte>> {
    (if preamble then LinkFrame(oneTransfer, NOP) else []) + LinkFrame(oneTransfer, body)
  }

  /** One entry of the command list: a body, and whether a reply is looked for. */
  datatype Entry = Entry(body: seq<byte>, expectReply: bool)

  /** What the loop of `run` does to a bus whose part will answer `line`: the transactions, what the part
      has left to say, and whether any reply was read. */
  function LinkRun(oneTransfer: bool, preamble: bool, cmds: seq<Entry>, line: Line): (seq<seq<byte>>, Line, bool)
    decreases |cmds|
  {
    if cmds == [] then ([], line, false)
    else
      var out := LinkCommand(oneTransfer, preamble, cmds[0].body);
      var l1 := Clock(line, |Flatten(out)|).1;
      var (p, l2) := if cmds[0].expectReply then NextPacket(l1) else (None, l1);
      var (rest, end, hit) := LinkRun(oneTransfer, preamble, cmds[1..], l2);
      (out + (if cmds[0].expectReply then Reads(ReadLengths(p)) else []) + rest, end, p.Some? || hit)
  }

  class Link {
    const spi: Spi
    const oneTransfer: bool
    const preamble: bool

    constructor (spi: Spi, oneTransfer: bool, preamble: bool)
      ensures this.spi == spi && this.oneTransfer == oneTransfer && this.preamble == preamble
    {
      this.spi, this.oneTransfer, this.preamble := spi, oneTransfer, preamble;
    }

    /** Either style clocks the same bytes. */
    method FrameOut(body: seq<byte>)
      modifies spi
      ensures spi.sent == old(spi.sent) + LinkFrame(oneTransfer, body)
      ensures spi.line == Clock(old(spi.line), |Flatten(Frame(body))|).1
    {
      hide SummedHeader, SpiHeader, Clock, Flatten;
      var h := SummedHeader(0xA0, |body|);
      HeadersAgree(0xA0, |body|);
      FlattenPair(h, body);
      ClockTwice(spi.line, 4, |body|);
      if oneTransfer {
        var _ := spi.Duplex(h + body);
      } else {
        var _ := spi.Duplex(h);
        var _ := spi.Duplex(body);
      }
    }

    method CommandOut(body: seq<byte>)
      modifies spi
      ensures spi.sent == old(spi.sent) + LinkCommand(oneTransfer, preamble, body)
      ensures spi.line == Clock(old(spi.line), |Flatten(LinkCommand(oneTransfer, preamble, body))|).1
      ensures Flatten(LinkCommand(oneTransfer, preamble, body)) ==
              (if preamble then Flatten(Frame(NOP)) else []) + Flatten(Frame(body))
    {
      hide Flatten, Frame, Clock;
      ghost var l := spi.line;
      CommandBytes(oneTransfer, preamble, body);
      ClockTwice(l, |Flatten(Frame(NOP))|, |Flatten(Frame(body))|);
      if preamble {
        FrameOut(NOP);
      }
      FrameOut(body);
    }

    /** `Link.read`: the header, then the announced body if the header is accepted. */
    method Read() returns (r: Option<seq<byte>>)
      modifies spi
      ensures var (p, l) := NextPacket(old(spi.line));
              && spi.line == l && r == (if p.Some? then Some(p.value.1) else None)
              && spi.sent == old(spi.sent) + Reads(ReadLengths(p))
    {
      hide Clock, BodyLength, LinkBodyLength;
      var hdr := spi.Duplex(Repeat(0, 4));
      OneRead(4);
      ReadersCompared(hdr);
      var n := LinkBodyLength(hdr);
      if n.None? {
        return None;
      }
      var body := spi.Duplex(Repeat(0, n.value));
      TwoReads(4, n.value);
      r := Some(body);
    }
  }

  /** Clocking in two goes is clocking in one. */
  lemma ClockTwice(l: Line, m: nat, n: nat)
    ensures Clock(Clock(l, m).1, n).1 == Clock(l, m + n).1
  {
  }

  lemma CommandBytes(oneTransfer: bool, preamble: bool, body: seq<byte>)
    ensures Flatten(LinkCommand(oneTransfer, preamble, body)) ==
            (if preamble then Flatten(Frame(NOP)) else []) + Flatten(Frame(body))
  {
    hide Flatten, Frame;
    FlattenAppend(if preamble then LinkFrame(oneTransfer, NOP) else [], LinkFrame(oneTransfer, body));
    FlattenPair(Flatten(Frame(NOP)), []);
    FlattenPair(Flatten(Frame(body)), []);
    FlattenEmpty();
  }

  /** The loop of `run`, over any list of bodies. */
  method RunLink(l: Link, cmds: seq<Entry>) returns (hit: bool)
    modifies l.spi
    ensures var (ts, end, any) := LinkRun(l.oneTransfer, l.preamble, cmds, old(l.spi.line));
            l.spi.sent == old(l.spi.sent) + ts && l.spi.line == end && hit == any
  {
    hide Flatten, LinkCommand, Clock, Reads, NextPacket, LinkRun, ReadLengths;
    ghost var all := LinkRun(l.oneTransfer, l.preamble, cmds, l.spi.line);
    ghost var start := l.spi.sent;
    hit := false;
    assert cmds[0..] == cmds;
    for i := 0 to |cmds|
      invariant start <= l.spi.sent
      invariant all.0 == l.spi.sent[|start|..] + LinkRun(l.oneTransfer, l.preamble, cmds[i..], l.spi.line).0
      invariant all.1 == LinkRun(l.oneTransfer, l.preamble, cmds[i..], l.spi.line).1
      invariant all.2 == (hit || LinkRun(l.oneTransfer, l.preamble, cmds[i..], l.spi.line).2)
    {
      assert cmds[i..][0] == cmds[i] && cmds[i..][1..] == cmds[i + 1..];
      LinkRunStep(l.oneTransfer, l.preamble, cmds[i..], l.spi.line);
      ghost var before := l.spi.sent;
      ghost var out := LinkCommand(l.oneTransfer, l.preamble, cmds[i].body);
      l.CommandOut(cmds[i].body);
      ghost var got := [];
      if cmds[i].expectReply {
        got := Reads(ReadLengths(NextPacket(l.spi.line).0));
        var r := l.Read();
        hit := hit || r.Some?;
      }
      assert before + out + [] == before + out;
      ghost var rest := LinkRun(l.oneTransfer, l.preamble, cmds[i + 1..], l.spi.line).0;
      SentSoFar(start, before, out, got, rest);
    }
    LinkRunEnd(l.oneTransfer, l.preamble, l.spi.line);
    assert cmds[|cmds|..] == [];
    assert l.spi.sent == start + l.spi.sent[|start|..];
    assert l.spi.sent[|start|..] + [] == l.spi.sent[|start|..];
  }

  lemma SentSoFar(start: seq<seq<byte>>, before: seq<seq<byte>>, out: seq<seq<byte>>, got: seq<seq<byte>>,
                  rest: seq<seq<byte>>)
    requires start <= before
    ensures start <= before + out + got
    ensures (before + out + got)[|start|..] + rest == before[|start|..] + (out + got + rest)
  {
  }

  lemma LinkRunEnd(oneTransfer: bool, preamble: bool, line: Line)
    ensures LinkRun(oneTransfer, preamble, [], line) == ([], line, false)
  {
  }

  lemma LinkRunStep(oneTransfer: bool, preamble: bool, cmds: seq<Entry>, line: Line)
    requires cmds != []
    ensures var out := LinkCommand(oneTransfer, preamble, cmds[0].body);
            var l1 := Clock(line, |Flatten(out)|).1;
            var (p, l2) := if cmds[0].expectReply then NextPacket(l1) else (None, l1);
            var (rest, end, hit) := LinkRun(oneTransfer, preamble, cmds[1..], l2);
            LinkRun(oneTransfer, preamble, cmds, line) ==
            (out + (if cmds[0].expectReply then Reads(ReadLengths(p)) else []) + rest, end, p.Some? || hit)
  {
    hide Flatten, LinkCommand, Clock, Reads, NextPacket;
  }

  /** The bodies of a list, each behind a NOP when the preamble is on. */
  function WithPreamble(preamble: bool, cmds: seq<Entry>): seq<seq<byte>> {
    if cmds == [] then []
    else (if preamble then [NOP] else []) + [cmds[0].body] + WithPreamble(preamble, cmds[1..])
  }

  lemma ListenToLinkFrame(oneTransfer: bool, body: seq<byte>, rest: seq<seq<byte>>)
    requires Readable(body)
    ensures Listen(LinkFrame(oneTransfer, body) + rest) == [body] + Listen(rest)
  {
    hide Frame, Flatten, Listen;
    ListenToFrame(body, rest);
    ListenToOneTransfer(body, rest);
  }

  lemma ListenToCommand(oneTransfer: bool, preamble: bool, body: seq<byte>, rest: seq<seq<byte>>)
    requires Readable(body)
    ensures Listen(LinkCommand(oneTransfer, preamble, body) + rest) ==
            (if preamble then [NOP] else []) + [body] + Listen(rest)
  {
    hide LinkFrame, Listen;
    var f, more := LinkFrame(oneTransfer, body), Listen(rest);
    ListenToLinkFrame(oneTransfer, body, rest);
    if preamble {
      var nop := LinkFrame(oneTransfer, NOP);
      ListenToLinkFrame(oneTransfer, NOP, f + rest);
      assert nop + f + rest == nop + (f + rest);
      assert [NOP] + ([body] + more) == [NOP] + [body] + more;
    } else {
      assert [] + f == f && [] + [body] == [body];
    }
  }

  /** In any of the four link styles, and whatever the part answers, the bus carries every body of the
      list in order, each one behind a NOP when the preamble is on, and nothing that could be taken for
      another; the reads between the commands are not heard. */
  lemma {:induction false} LinkDelivers(oneTransfer: bool, preamble: bool, cmds: seq<Entry>, line: Line)
    requires forall i :: 0 <= i < |cmds| ==> 0 < |cmds[i].body| <= 4096
    ensures Listen(LinkRun(oneTransfer, preamble, cmds, line).0) == WithPreamble(preamble, cmds)
    decreases |cmds|
  {
    hide Listen, LinkCommand, Reads, NextPacket, Clock, Flatten;
    if cmds == [] {
      assert Listen([]) == [] by { ListenToNothing(); }
    } else {
      var out := LinkCommand(oneTransfer, preamble, cmds[0].body);
      var l1 := Clock(line, |Flatten(out)|).1;
      var (p, l2) := if cmds[0].expectReply then NextPacket(l1) else (None, l1);
      var rest := LinkRun(oneTransfer, preamble, cmds[1..], l2).0;
      var got := if cmds[0].expectReply then Reads(ReadLengths(p)) else [];
      assert out + got + rest == out + (got + rest);
      ListenToCommand(oneTransfer, preamble, cmds[0].body, got + rest);
      ListenToReads(ReadLengths(p), rest);
      assert [] + rest == rest;
      LinkDelivers(oneTransfer, preamble, cmds[1..], l2);
    }
  }

  /** If the part keeps silent, every command is followed by one look for a header and nothing else, and no reply is
      counted. */
  lemma {:induction false} SilentRun(oneTransfer: bool, preamble: bool, cmds: seq<Entry>, idle: byte)
    requires forall i :: 0 <= i < |cmds| ==> cmds[i].expectReply
    ensures var (ts, end, hit) := LinkRun(oneTransfer, preamble, cmds, Line([], idle));
            && |ts| == |cmds| * ((if oneTransfer then 1 else 2) * (if preamble then 2 else 1) + 1)
            && end == Line([], idle) && !hit
    decreases |cmds|
  {
    hide Reads, NextPacket, Clock, Flatten, LinkRun;
    if cmds == [] {
      LinkRunEnd(oneTransfer, preamble, Line([], idle));
    } else {
      LinkRunStep(oneTransfer, preamble, cmds, Line([], idle));
      var out := LinkCommand(oneTransfer, preamble, cmds[0].body);
      StillIdle(idle, |Flatten(out)|);
      OneRead(4);
      SilentRun(oneTransfer, preamble, cmds[1..], idle);
      var each := (if oneTransfer then 1 else 2) * (if preamble then 2 else 1) + 1;
      assert |out| == each - 1;
      MulDistributes(|cmds|, 1, each);
    }
  }

  lemma StillIdle(idle: byte, n: nat)
    ensures Clock(Line([], idle), n).1 == Line([], idle)
    ensures NextPacket(Line([], idle)) == (None, Line([], idle))
  {
    hide BodyLength;
    IdleAcceptsNothing(Line([], idle));
  }

  /** Where each body of the list stands among the bodies heard. */
  lemma {:induction false} PreamblePositions(preamble: bool, cmds: seq<Entry>)
    ensures var all := WithPreamble(preamble, cmds);
            && |all| == (if preamble then 2 * |cmds| else |cmds|)
            && (forall i :: 0 <= i < |cmds| ==> all[if preamble then 2 * i + 1 else i] == cmds[i].body)
            && (preamble ==> forall i :: 0 <= i < |cmds| ==> all[2 * i] == NOP)
  {
    if cmds != [] {
      PreamblePositions(preamble, cmds[1..]);
      var rest := WithPreamble(preamble, cmds[1..]);
      var all := WithPreamble(preamble, cmds);
      if preamble {
        assert all == [NOP, cmds[0].body] + rest;
        forall i | 0 <= i < |cmds|
          ensures all[2 * i + 1] == cmds[i].body && all[2 * i] == NOP
        {
          if i > 0 {
            assert all[2 * i + 1] == rest[2 * (i - 1) + 1] && all[2 * i] == rest[2 * (i - 1)];
          }
        }
      } else {
        assert all == [cmds[0].body] + rest;
      }
    }
  }

  //////////////////////////////////////////////////////////////////////////////
  // GetMcuState: a live timestamp, and a checksum one too large
  //////////////////////////////////////////////////////////////////////////////

  /** The millisecond field for a non-negative time in seconds. */
  function McuMillis(now: real): nat
    requires now >= 0.0
  {
    now.Floor % 60 * 1000 + ((now - now.Floor as real) * 1000.0).Floor
  }

  /** The packet carries the time within the minute, in milliseconds, and fits its 16 bits. */
  lemma McuMillisMeaning(now: real)
    requires now >= 0.0
    ensures McuMillis(now) == (now * 1000.0).Floor % 60000
    ensures Le16(LowByte(McuMillis(now)), HighByte(McuMillis(now))) == McuMillis(now) < 60000
  {
    hide LowByte, HighByte, Le16;
    var s := now.Floor;
    var ms := ((now - s as real) * 1000.0).Floor;
    assert 0 <= ms < 1000;
    assert (now * 1000.0).Floor == s * 1000 + ms;
    assert s == 60 * (s / 60) + s % 60;
    DivModUnique(s * 1000 + ms, 60000, s / 60, s % 60 * 1000 + ms);
    SplitThenJoin(McuMillis(now));
  }

  function McuStatePacket(ms: nat): seq<byte> {
    var p := [0xAF, 0x06, 0x00, 0x55, LowByte(ms), HighByte(ms), 0x00, 0x00];
    p + [LowByte(ComplementOfSum(Sum(p)) + 1)]
  }

  /** The "checksum plus one" packet is the ordinary message for command 0xAE with bit 0 of its first
      byte set: the checksum simply does not cover that bit. */
  lemma McuPacketIsMessage(ms: nat)
    ensures McuStatePacket(ms) == Message(0xA, 7, [0x55, LowByte(ms), HighByte(ms), 0, 0], true)[0 := 0xAF]
  {
    hide LowByte, HighByte, Sum, ComplementOfSum, Complement;
    var payload := [0x55, LowByte(ms), HighByte(ms), 0, 0];
    var p := [0xAF, 0x06, 0x00] + payload;
    assert p == [0xAF, 0x06, 0x00, 0x55, LowByte(ms), HighByte(ms), 0x00, 0x00];
    SumAppend([0xAF, 0x06, 0x00], payload);
    Sum3(0xAF, 0x06, 0x00);
    SmallFields(0xA, 7, 6);
    McuChecksum(0xAE + 6 + 0 + Sum(payload));
    assert McuStatePacket(ms) == p + [Checksum(0xAE, 6, 0, payload)];
  }

  lemma McuChecksum(s: nat)
    ensures LowByte(ComplementOfSum(s + 1) + 1) == Complement(LowByte(s))
  {
    ReductionFirst(s);
    ReductionFirst(s + 1);
    ComplementStep(s);
  }

  /** The last byte of the packet, from the time. */
  lemma McuSum(ms: nat)
    ensures McuStatePacket(ms)[8] == Complement(LowByte(0x109 + LowByte(ms) + HighByte(ms)))
  {
    hide LowByte, HighByte, ComplementOfSum, Complement, Sum;
    var p := [0xAF, 0x06, 0x00, 0x55, LowByte(ms), HighByte(ms), 0x00, 0x00];
    assert p == [0xAF, 0x06, 0x00] + ([0x55, LowByte(ms), HighByte(ms)] + [0, 0]);
    SumAppend([0xAF, 0x06, 0x00], [0x55, LowByte(ms), HighByte(ms)] + [0, 0]);
    SumAppend([0x55, LowByte(ms), HighByte(ms)], [0, 0]);
    Sum3(0xAF, 0x06, 0x00);
    Sum3(0x55, LowByte(ms), HighByte(ms));
    LiteralSums();
    McuChecksum(0x109 + LowByte(ms) + HighByte(ms));
  }

  lemma OmittedChecksum(x: nat)
    ensures Complement(LowByte(0x109 + x)) == NO_CHECKSUM <==> x % 256 == 0x19
  {
    D.LowByteOfSum(x, 0x109);
    D.LowByteOfSum(0x109, x % 256);
    assert x == 256 * (x / 256) + x % 256;
    D.LowByteCancels(0x109, x % 256, x);
  }

  /** `parse_message` itself flags the packet, unless the two bytes of the time add up to 0x19: then its
      checksum byte happens to be 0x88. */
  lemma McuPacketFlagged(ms: nat)
    ensures ParseMessage(McuStatePacket(ms)).Some?
    ensures ParseMessage(McuStatePacket(ms)).value.payload == [0x55, LowByte(ms), HighByte(ms), 0, 0]
    ensures ParseMessage(McuStatePacket(ms)).value.ok <==> (LowByte(ms) + HighByte(ms)) % 256 == 0x19
  {
    hide LowByte, HighByte, Sum, Message, McuStatePacket, ParseMessage, CmdByte, Checksum;
    var payload := [0x55, LowByte(ms), HighByte(ms), 0, 0];
    var m := Message(0xA, 7, payload, true);
    McuPacketIsMessage(ms);
    SmallFields(0xA, 7, 6);
    MessageFits(0xA, 7, payload, true);
    D.CommandByteCorruption(0xA, 7, payload, true, 0xAF);
    D.ContentCorruption(0xA, 7, payload, true, 0xAF, payload);
    assert m[0 := 0xAF] == [0xAF, m[1], m[2]] + payload + [m[8]];
    McuSum(ms);
    OmittedChecksum(LowByte(ms) + HighByte(ms));
  }

  /** The packet the source quotes, sent 48 and 253/256 seconds into a minute, is flagged; one sent 13/512
      seconds into a minute passes. Both times are binary floats. */
  lemma McuExamples()
    ensures McuStatePacket(McuMillis(48.98828125)) == [0xAF, 0x06, 0x00, 0x55, 0x5C, 0xBF, 0x00, 0x00, 0x86]
    ensures !ParseMessage(McuStatePacket(McuMillis(48.98828125))).value.ok
    ensures ParseMessage(McuStatePacket(McuMillis(0.025390625))).value.ok
  {
    hide McuStatePacket, ParseMessage, McuMillis, LowByte, HighByte, Complement;
    McuTimes();
    McuBytes();
    McuPacketFlagged(0xBF5C);
    McuPacketFlagged(25);
    McuSum(0xBF5C);
    McuShape(0xBF5C);
  }

  lemma McuTimes()
    ensures McuMillis(48.98828125) == 0xBF5C && McuMillis(0.025390625) == 25
  {
  }

  lemma McuBytes()
    ensures LowByte(0xBF5C) == 0x5C && HighByte(0xBF5C) == 0xBF && LowByte(25) == 25 && HighByte(25) == 0
    ensures Complement(LowByte(0x109 + 0x5C + 0xBF)) == 0x86
  {
  }

  lemma McuShape(ms: nat)
    ensures var p := McuStatePacket(ms);
            p == [0xAF, 0x06, 0x00, 0x55, LowByte(ms), HighByte(ms), 0x00, 0x00, p[8]]
  {
    hide LowByte, HighByte, ComplementOfSum, Sum;
  }

  //////////////////////////////////////////////////////////////////////////////
  // The literal command bodies scattered through the tools
  //////////////////////////////////////////////////////////////////////////////

  lemma LiteralBody(cmd0: group, cmd1: index, payload: seq<byte>, cmd: byte, ck: byte)
    requires |payload| < 255 && cmd == 16 * cmd0 + 2 * cmd1
    requires cmd as nat + (|payload| + 1) + Sum(payload) < 256
    requires cmd as nat + (|payload| + 1) + Sum(payload) + ck in {0xAA, 0x1AA}
    ensures Message(cmd0, cmd1, payload, true) == [cmd, |payload| + 1, 0] + payload + [ck]
  {
    hide LowByte, HighByte, CmdByte, Checksum, Sum;
    var n := |payload| + 1;
    SmallFields(cmd0, cmd1, n);
    SmallChecksum(cmd, n, payload, ck);
    assert CmdByte(cmd0, cmd1) == cmd;
    assert LowByte(n) == n;
    assert HighByte(n) == 0;
  }

  lemma SmallChecksum(cmd: byte, lo: byte, payload: seq<byte>, ck: byte)
    requires cmd as nat + lo + Sum(payload) < 256
    requires cmd as nat + lo + Sum(payload) + ck in {0xAA, 0x1AA}
    ensures Checksum(cmd, lo, 0, payload) == ck
  {
    hide LowByte, Complement, Sum;
    SmallSum(cmd as nat + lo + Sum(payload), ck);
  }

  lemma SmallSum(s: byte, ck: byte)
    requires ck + s in {0xAA, 0x1AA}
    ensures LowByte(s) == s && Complement(s) == ck
  {
  }

  lemma LiteralSums()
    ensures Sum([0x01, 0x00]) == 1 && Sum([0x00, 0x00]) == 0 && Sum([0x00, 0x00, 0x00, 0x04, 0x00]) == 4
  {
    assert Sum([0x01, 0x00]) == 1;
    assert Sum([0x00, 0x00]) == 0;
    assert Sum([0x00, 0x00, 0x00, 0x04, 0x00]) == 4;
  }

  /** The commands whose bodies framing.py writes out by hand: DriverState, GetEvkVersion, a chip register read
      and an OTP read. */
  const FRAMING_COMMANDS := [
    Command(9, 3, [0x01, 0x00], true),
    Command(0xA, 4, [0x00, 0x00], true),
    Command(8, 1, [0x00, 0x00, 0x00, 0x04, 0x00], true),
    Command(0xA, 3, [0x00, 0x00], true)]

  /** CMDS of framing.py, with the GetMcuState packet of the given time. */
  function FramingList(ms: nat): seq<Entry> {
    [Entry([0x96, 0x03, 0x00, 0x01, 0x00, 0x10], true),
     Entry([0xA8, 0x03, 0x00, 0x00, 0x00, 0xFF], true),
     Entry([0x82, 0x06, 0x00, 0x00, 0x00, 0x00, 0x04, 0x00, 0x1E], true),
     Entry([0xA6, 0x03, 0x00, 0x00, 0x00, 0x01], true),
     Entry(McuStatePacket(ms), true)]
  }

  /** The hand-written bodies are what `message` builds. */
  lemma LiteralBodies()
    ensures Message(9, 3, [0x01, 0x00], true) == [0x96, 0x03, 0x00, 0x01, 0x00, 0x10]
    ensures Message(0xA, 4, [0x00, 0x00], true) == [0xA8, 0x03, 0x00, 0x00, 0x00, 0xFF]
    ensures Message(8, 1, [0x00, 0x00, 0x00, 0x04, 0x00], true) ==
            [0x82, 0x06, 0x00, 0x00, 0x00, 0x00, 0x04, 0x00, 0x1E]
    ensures Message(0xA, 3, [0x00, 0x00], true) == [0xA6, 0x03, 0x00, 0x00, 0x00, 0x01]
  {
    hide Message;
    LiteralSums();
    LiteralBody(9, 3, [0x01, 0x00], 0x96, 0x10);
    LiteralBody(0xA, 4, [0x00, 0x00], 0xA8, 0xFF);
    LiteralBody(8, 1, [0x00, 0x00, 0x00, 0x04, 0x00], 0x82, 0x1E);
    LiteralBody(0xA, 3, [0x00, 0x00], 0xA6, 0x01);
  }

  lemma FramingBodies(ms: nat, i: nat)
    requires i < 4
    ensures FramingList(ms)[i].body == Body(FRAMING_COMMANDS[i])
  {
    hide Message, McuStatePacket;
    LiteralBodies();
  }

  /** The sweep of framing.py, in each of its four styles and whatever the part answers: the part hears five
      bodies, each behind a NOP when the preamble is on; the first four parse, with good checksums, to the four
      commands, and the fifth is the GetMcuState packet. */
  lemma FramingSweepHeard(oneTransfer: bool, preamble: bool, ms: nat, line: Line)
    ensures var heard := Listen(LinkRun(oneTransfer, preamble, FramingList(ms), line).0);
            && |heard| == (if preamble then 10 else 5)
            && (forall i :: 0 <= i < 4 ==> Reports(heard[if preamble then 2 * i + 1 else i], FRAMING_COMMANDS[i]))
            && heard[if preamble then 9 else 4] == McuStatePacket(ms)
            && (preamble ==> forall i :: 0 <= i < 5 ==> heard[2 * i] == NOP)
    ensures line.pending == [] ==>
              var (ts, end, hit) := LinkRun(oneTransfer, preamble, FramingList(ms), line);
              !hit && |ts| == 5 * ((if oneTransfer then 1 else 2) * (if preamble then 2 else 1) + 1)
  {
    hide Listen, LinkRun, Reports, McuStatePacket, Body, WithPreamble;
    var list := FramingList(ms);
    McuShape(ms);
    forall i | 0 <= i < |list|
      ensures 0 < |list[i].body| <= 4096
    {
    }
    if line.pending == [] {
      SilentRun(oneTransfer, preamble, list, line.idle);
    }
    LinkDelivers(oneTransfer, preamble, list, line);
    PreamblePositions(preamble, list);
    var heard := WithPreamble(preamble, list);
    forall i | 0 <= i < 4
      ensures Reports(heard[if preamble then 2 * i + 1 else i], FRAMING_COMMANDS[i])
    {
      FramingBodies(ms, i);
      BodyReports(FRAMING_COMMANDS[i]);
    }
    assert heard[if preamble then 2 * 4 + 1 else 4] == list[4].body;
  }
}
