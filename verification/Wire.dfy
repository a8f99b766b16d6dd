/** `Sensor.send` and `Sensor.read_packet` of tools/gxfp.py: frames on the SPI bus, one transaction
    for the header and one for the body, and the reader that takes them apart again. */
module Wire {
  import opened Bytes
  import opened Codec

  const MAX_BODY := 4096

  datatype Command = Command(cmd0: group, cmd1: index, payload: seq<byte>, checksum: bool)

  /** What the part will clock out: the pending bytes, then one idle byte for ever. */
  datatype Line = Line(pending: seq<byte>, idle: byte)

  /** A duplex transfer of n bytes always returns n bytes. */
  function Clock(l: Line, n: nat): (r: (seq<byte>, Line))
    ensures |r.0| == n
  {
    if n <= |l.pending| then (l.pending[..n], Line(l.pending[n..], l.idle))
    else (l.pending + Repeat(l.idle, n - |l.pending|), Line([], l.idle))
  }

  function Body(c: Command): seq<byte> {
    Message(c.cmd0, c.cmd1, c.payload, c.checksum)
  }

  function Bodies(cmds: seq<Command>): (r: seq<seq<byte>>)
    ensures |r| == |cmds| && forall i :: 0 <= i < |cmds| ==> r[i] == Body(cmds[i])
  {
    seq(|cmds|, i requires 0 <= i < |cmds| => Body(cmds[i]))
  }

  /** The two bus transactions of one frame of a given packet type. */
  function FrameAs(ptype: int, body: seq<byte>): seq<seq<byte>> {
    [SpiHeader(|body|, ptype, 0), body]
  }

  function Frame(body: seq<byte>): seq<seq<byte>> {
    FrameAs(PKT_MSG, body)
  }

  function Frames(bodies: seq<seq<byte>>): seq<seq<byte>> {
    if bodies == [] then [] else Frame(bodies[0]) + Frames(bodies[1..])
  }

  /** The bodies that fit the reader's buffer. */
  predicate Readable(body: seq<byte>) {
    0 < |body| <= MAX_BODY
  }

  /** The body length the reader goes on to fetch, if it accepts the header. */
  function BodyLength(h: seq<byte>): (r: Option<nat>)
    ensures r.Some? ==> 0 < r.value <= MAX_BODY
  {
    var n := CheckHeader(h);
    if n.None? || n.value == 0 || n.value > MAX_BODY then None else n
  }

  function NextPacket(l: Line): (Option<(seq<byte>, seq<byte>)>, Line) {
    var (h, l1) := Clock(l, 4);
    var n := BodyLength(h);
    if n.None? then (None, l1)
    else
      var (body, l2) := Clock(l1, n.value);
      (Some((h, body)), l2)
  }

  /** Once only idle bytes are left, the reader accepts nothing. */
  lemma IdleAcceptsNothing(l: Line)
    ensures l.pending == Repeat(l.idle, |l.pending|) ==> NextPacket(l).0.None?
    ensures NextPacket(l).0.Some? ==> |NextPacket(l).1.pending| < |l.pending|
  {
    hide CheckHeader;
    var h := Clock(l, 4).0;
    if l.pending == Repeat(l.idle, |l.pending|) {
      FillerIsNoHeader(l.idle);
      assert h == [l.idle, l.idle, l.idle, l.idle];
    }
    if l.pending == [] {
      assert l.pending == Repeat(l.idle, |l.pending|);
    }
  }

  /** Read packets until one is refused: the bodies, and the line as it stood before the refusal. */
  function ReadAll(l: Line): (seq<seq<byte>>, Line)
    decreases |l.pending|
  {
    var (p, l') := NextPacket(l);
    if p.None? then ([], l)
    else
      IdleAcceptsNothing(l);
      var (rest, end) := ReadAll(l');
      ([p.value.1] + rest, end)
  }

  //////////////////////////////////////////////////////////////////////////////
  // Round trip over whole streams
  //////////////////////////////////////////////////////////////////////////////

  lemma HeaderRead(n: nat)
    ensures CheckHeader(SpiHeader(n, PKT_MSG, 0)) == Some(n % 0x1_0000)
    ensures n < 0x1_0000 ==> CheckHeader(SpiHeader(n, PKT_MSG, 0)) == Some(n)
  {
    hide CheckHeader, SpiHeader;
    CheckOfSpiHeader(n, PKT_MSG, 0);
    assert PKT_MSG % 16 == PKT_MSG;
  }

  lemma ReadTypedFrame(ptype: int, body: seq<byte>, rest: seq<byte>, idle: byte)
    requires Readable(body)
    ensures var (p, l) := NextPacket(Line(Flatten(FrameAs(ptype, body)) + rest, idle));
            if ptype % 16 in {PKT_MSG, PKT_TLS} then
              p == Some((SpiHeader(|body|, ptype, 0), body)) && l == Line(rest, idle)
            else p.None?
  {
    hide CheckHeader, SpiHeader, Flatten;
    var h := SpiHeader(|body|, ptype, 0);
    CheckOfSpiHeader(|body|, ptype, 0);
    FlattenPair(h, body);
    var w := h + body + rest;
    assert w[..4] == h && w[4..] == body + rest;
    assert (body + rest)[..|body|] == body && (body + rest)[|body|..] == rest;
  }

  lemma ReadFrame(body: seq<byte>, rest: seq<byte>, idle: byte)
    requires Readable(body)
    ensures NextPacket(Line(Flatten(Frame(body)) + rest, idle))
            == (Some((SpiHeader(|body|, PKT_MSG, 0), body)), Line(rest, idle))
  {
    hide NextPacket, SpiHeader, Flatten;
    ReadTypedFrame(PKT_MSG, body, rest, idle);
  }

  /** Any list of bodies, framed and followed by any amount of one filler byte, reads back as exactly
      that list: no phantom frame out of the filler, no byte of a frame lost, no filler byte consumed. */
  lemma {:induction false} FramesRoundTrip(bodies: seq<seq<byte>>, filler: byte, k: nat)
    requires forall i :: 0 <= i < |bodies| ==> 0 < |bodies[i]| <= 4096
    ensures ReadAll(Line(Flatten(Frames(bodies)) + Repeat(filler, k), filler))
            == (bodies, Line(Repeat(filler, k), filler))
  {
    hide NextPacket, Flatten, Frame, ReadAll, Repeat;
    var tail := Repeat(filler, k);
    if bodies == [] {
      assert Flatten([]) + tail == tail by { FlattenEmpty(); }
      IdleAcceptsNothing(Line(tail, filler));
      assert tail == Repeat(filler, |tail|) by { RepeatLength(filler, k); }
      ReadAllStep(Line(tail, filler));
    } else {
      var rest := Flatten(Frames(bodies[1..])) + tail;
      FlattenAppend(Frame(bodies[0]), Frames(bodies[1..]));
      assert Flatten(Frames(bodies)) + tail == Flatten(Frame(bodies[0])) + rest;
      ReadFrame(bodies[0], rest, filler);
      ReadAllStep(Line(Flatten(Frames(bodies)) + tail, filler));
      FramesRoundTrip(bodies[1..], filler, k);
      assert bodies == [bodies[0]] + bodies[1..];
    }
  }

  lemma ReadAllStep(l: Line)
    ensures var (p, l') := NextPacket(l);
            if p.None? then ReadAll(l) == ([], l)
            else |l'.pending| < |l.pending| && ReadAll(l) == ([p.value.1] + ReadAll(l').0, ReadAll(l').1)
  {
    hide NextPacket;
    IdleAcceptsNothing(l);
  }

  lemma RepeatLength(b: byte, n: nat)
    ensures |Repeat(b, n)| == n
  {
  }

  lemma FlattenEmpty()
    ensures Flatten([]) == []
  {
  }

  /** What the reader must report for a command that was sent. */
  predicate Reports(body: seq<byte>, c: Command) {
    body == Body(c) &&
    ParseMessage(body) == Some(Parsed(CmdByte(c.cmd0, c.cmd1), c.cmd0, c.cmd1, |c.payload|, c.payload,
                                      Some(body[|body| - 1]), true))
  }

  lemma BodyReports(c: Command)
    requires |c.payload| <= MAX_PAYLOAD
    ensures Reports(Body(c), c)
  {
    hide ParseMessage, Message;
    CmdFields(c.cmd0, c.cmd1);
    ParseOfMessage(c.cmd0, c.cmd1, c.payload, c.checksum, []);
    assert Body(c) + [] == Body(c);
  }

  /** So any list of commands comes back as the reports of exactly those commands. */
  lemma StreamRoundTrip(cmds: seq<Command>, filler: byte, k: nat)
    requires forall i :: 0 <= i < |cmds| ==> |cmds[i].payload| <= MAX_BODY - 4
    ensures var (bodies, end) := ReadAll(Line(Flatten(Frames(Bodies(cmds))) + Repeat(filler, k), filler));
            && |bodies| == |cmds|
            && (forall i :: 0 <= i < |cmds| ==> Reports(bodies[i], cmds[i]))
            && end == Line(Repeat(filler, k), filler)
  {
    hide ReadAll, Reports, Flatten, Message, Frames;
    FramesRoundTrip(Bodies(cmds), filler, k);
    forall i | 0 <= i < |cmds|
      ensures Reports(Bodies(cmds)[i], cmds[i])
    {
      BodyReports(cmds[i]);
    }
  }

  /** A frame is read back whole exactly when its type is one of the two known ones and its payload has
      at most 4092 bytes. */
  lemma FrameLimit(c: Command, ptype: int, rest: seq<byte>, idle: byte)
    ensures var r := NextPacket(Line(Flatten(FrameAs(ptype, Body(c))) + rest, idle)).0;
            (r.Some? && r.value.1 == Body(c)) <==> ptype % 16 in {PKT_MSG, PKT_TLS} && |c.payload| <= MAX_BODY - 4
  {
    hide CheckHeader, SpiHeader, Flatten, Message;
    var body := Body(c);
    if |body| <= MAX_BODY {
      ReadTypedFrame(ptype, body, rest, idle);
    }
  }

  /** The code is uniquely decodable: equal wire bytes come from equal commands, except that a message
      whose computed checksum happens to be 0x88 hides whether it was computed. */
  lemma UniquelyDecodable(a: seq<Command>, b: seq<Command>)
    requires forall i :: 0 <= i < |a| ==> |a[i].payload| <= MAX_BODY - 4
    requires forall i :: 0 <= i < |b| ==> |b[i].payload| <= MAX_BODY - 4
    requires Flatten(Frames(Bodies(a))) == Flatten(Frames(Bodies(b)))
    ensures |a| == |b|
    ensures forall i :: 0 <= i < |a| ==> a[i] == b[i].(checksum := a[i].checksum) && Body(a[i]) == Body(b[i])
  {
    hide ReadAll, Flatten, Frames, Bodies, Message, ParseMessage;
    StreamRoundTrip(a, 0, 0);
    StreamRoundTrip(b, 0, 0);
    var bodies := ReadAll(Line(Flatten(Frames(Bodies(a))) + Repeat(0, 0), 0)).0;
    forall i | 0 <= i < |a|
      ensures a[i] == b[i].(checksum := a[i].checksum) && Body(a[i]) == Body(b[i])
    {
      assert Reports(bodies[i], a[i]) && Reports(bodies[i], b[i]);
    }
  }

  //////////////////////////////////////////////////////////////////////////////
  // The bus as a whole: frames with reads between them
  //////////////////////////////////////////////////////////////////////////////

  /** Reads of the given lengths: a read is a transaction too, and clocks zeros out. */
  function Reads(ns: seq<nat>): seq<seq<byte>> {
    if ns == [] then [] else [Repeat(0, ns[0])] + Reads(ns[1..])
  }

  lemma OneRead(a: nat)
    ensures Reads([a]) == [Repeat(0, a)]
  {
    assert [a][1..] == [];
  }

  lemma TwoReads(a: nat, b: nat)
    ensures Reads([a, b]) == [Repeat(0, a)] + [Repeat(0, b)]
  {
    OneRead(b);
    assert [a, b][1..] == [b];
  }

  /** What a part takes for command bodies when it sees the transactions of a bus: a header and the
      transaction after it if that has the announced length, or one transaction that holds both. */
  function Listen(ts: seq<seq<byte>>): seq<seq<byte>>
    decreases |ts|
  {
    if ts == [] then []
    else
      var n := BodyLength(ts[0]);
      if n.None? then Listen(ts[1..])
      else if |ts[0]| == 4 then
        if |ts| > 1 && |ts[1]| == n.value then [ts[1]] + Listen(ts[2..]) else Listen(ts[1..])
      else if |ts[0]| == 4 + n.value then [ts[0][4..]] + Listen(ts[1..])
      else Listen(ts[1..])
  }

  lemma ListenToNothing()
    ensures Listen([]) == []
  {
  }

  lemma ListenToFrame(body: seq<byte>, rest: seq<seq<byte>>)
    requires Readable(body)
    ensures Listen(Frame(body) + rest) == [body] + Listen(rest)
  {
    hide CheckHeader, SpiHeader;
    HeaderRead(|body|);
    var ts := Frame(body) + rest;
    assert ts[2..] == rest;
  }

  lemma ListenToOneTransfer(body: seq<byte>, rest: seq<seq<byte>>)
    requires Readable(body)
    ensures Listen([Flatten(Frame(body))] + rest) == [body] + Listen(rest)
  {
    hide SpiHeader, Flatten;
    var h := SpiHeader(|body|, PKT_MSG, 0);
    HeaderRead(|body|);
    FlattenPair(h, body);
    HeaderInFront(h, body);
    assert (h + body)[4..] == body;
    assert ([h + body] + rest)[1..] == rest;
  }

  lemma HeaderInFront(h: seq<byte>, more: seq<byte>)
    requires |h| == 4
    ensures CheckHeader(h + more) == CheckHeader(h)
  {
    hide HighNibble, LowByte, HeaderSum, Le16;
  }

  /** The body length of a header that is the last transaction and so still waits for its body. */
  function Awaited(ts: seq<seq<byte>>): Option<nat>
    decreases |ts|
  {
    if ts == [] then None
    else
      var n := BodyLength(ts[0]);
      if n.Some? && |ts[0]| == 4 && |ts| == 1 then n
      else if n.Some? && |ts[0]| == 4 && |ts[1]| == n.value then Awaited(ts[2..])
      else Awaited(ts[1..])
  }

  /** The zeros that a read clocks out are no header, whatever its length. So reads in front of a bus are not
      heard. */
  lemma {:induction false} ListenToReads(ns: seq<nat>, rest: seq<seq<byte>>)
    ensures Listen(Reads(ns) + rest) == Listen(rest)
  {
    hide Repeat, CheckHeader, BodyLength, Listen;
    if ns == [] {
      assert [] + rest == rest;
    } else {
      ListenToReads(ns[1..], rest);
      ZerosAreNoHeader(ns[0]);
      var ts := Reads(ns) + rest;
      assert ts == [Repeat(0, ns[0])] + (Reads(ns[1..]) + rest);
      ListenSkips(Repeat(0, ns[0]), Reads(ns[1..]) + rest);
    }
  }

  /** What is heard of the transactions that follow when a header may be waiting for its body. */
  function Continued(awaited: Option<nat>, more: seq<seq<byte>>): seq<seq<byte>> {
    if more != [] && awaited == Some(|more[0]|) then [more[0]] + Listen(more[1..]) else Listen(more)
  }

  /** A header with its body in front of a bus. */
  lemma FrameInFront(h: seq<byte>, body: seq<byte>, rest: seq<seq<byte>>)
    requires |h| == 4 && BodyLength(h) == Some(|body|)
    ensures Listen([h, body] + rest) == [body] + Listen(rest) && Awaited([h, body] + rest) == Awaited(rest)
  {
    hide BodyLength, Listen, Awaited;
    ListenStep([h, body] + rest);
    assert ([h, body] + rest)[2..] == rest;
  }

  /** Anything else in front of a bus. */
  lemma OtherInFront(x: seq<byte>, rest: seq<seq<byte>>)
    requires |x| == 4 && BodyLength(x).Some? ==> rest != [] && BodyLength(x) != Some(|rest[0]|)
    ensures Listen([x] + rest) == Listen([x]) + Listen(rest) && Awaited([x] + rest) == Awaited(rest)
  {
    hide BodyLength, Listen, Awaited;
    ListenStep([x] + rest);
    ListenStep([x]);
    ListenStep([]);
    assert ([x] + rest)[1..] == rest && [x][1..] == [];
    assert [] + Listen(rest) == Listen(rest);
  }

  /** A bus in two parts: each is heard as if by itself, unless the first ends with a header that announces the
      length of the next transaction, which is then taken for the body. */
  lemma {:induction false} ListenSplit(ts: seq<seq<byte>>, more: seq<seq<byte>>)
    ensures Listen(ts + more) == Listen(ts) + Continued(Awaited(ts), more)
    decreases |ts|
  {
    hide BodyLength, Listen, Awaited, Continued;
    var later := Continued(Awaited(ts), more);
    if ts == [] {
      NothingAwaited(more);
      assert ts + more == more && [] + later == later;
    } else {
      var h, n := ts[0], BodyLength(ts[0]);
      if n.Some? && |h| == 4 && |ts| == 1 {
        assert ts == [h];
        ListenToHeader(h, more);
        assert [] + later == later;
      } else if n.Some? && |h| == 4 && |ts[1]| == n.value {
        FrameInFront(h, ts[1], ts[2..]);
        FrameInFront(h, ts[1], ts[2..] + more);
        assert ts == [h, ts[1]] + ts[2..] && ts + more == [h, ts[1]] + (ts[2..] + more);
        ListenSplit(ts[2..], more);
        assert [ts[1]] + (Listen(ts[2..]) + later) == [ts[1]] + Listen(ts[2..]) + later;
      } else {
        OtherInFront(h, ts[1..]);
        OtherInFront(h, ts[1..] + more);
        assert ts == [h] + ts[1..] && ts + more == [h] + (ts[1..] + more);
        ListenSplit(ts[1..], more);
        assert Listen([h]) + (Listen(ts[1..]) + later) == Listen([h]) + Listen(ts[1..]) + later;
      }
    }
  }

  lemma NothingAwaited(more: seq<seq<byte>>)
    ensures Listen([]) == [] && Awaited([]).None? && Continued(None, more) == Listen(more)
  {
    hide BodyLength;
  }

  lemma ListenToHeader(h: seq<byte>, more: seq<seq<byte>>)
    requires BodyLength(h).Some? && |h| == 4
    ensures Listen([h]) == [] && Awaited([h]) == BodyLength(h)
    ensures Listen([h] + more) == Continued(BodyLength(h), more)
  {
    hide BodyLength, Listen, Awaited;
    var all := [h] + more;
    ListenStep([h]);
    ListenStep([]);
    ListenStep(all);
    assert [h][1..] == [] && all[1..] == more && all[0] == h;
    assert more != [] ==> all[1] == more[0] && all[2..] == more[1..];
  }

  /** Reads anywhere on a bus: what comes before them and after them is heard as if by itself, and the reads are
      not, except that the first is taken for a body if a header just before them announces its length. */
  lemma ReadsExact(ts: seq<seq<byte>>, ns: seq<nat>, rest: seq<seq<byte>>)
    requires ns != []
    ensures Listen(ts + (Reads(ns) + rest)) ==
            Listen(ts) + (if Awaited(ts) == Some(ns[0]) then [Repeat(0, ns[0])] else []) + Listen(rest)
  {
    hide Repeat, Listen, Awaited, Reads;
    var more := Reads(ns) + rest;
    ReadsStep(ns);
    ListenSplit(ts, more);
    ListenToReads(ns, rest);
    ListenToReads(ns[1..], rest);
    assert more[0] == Repeat(0, ns[0]) && more[1..] == Reads(ns[1..]) + rest;
    assert |Repeat(0, ns[0])| == ns[0] by { RepeatLength(0, ns[0]); }
    assert Listen(ts) + [] + Listen(rest) == Listen(ts) + Listen(rest);
    assert Listen(ts) + ([more[0]] + Listen(rest)) == Listen(ts) + [more[0]] + Listen(rest);
  }

  lemma ReadsStep(ns: seq<nat>)
    requires ns != []
    ensures Reads(ns) == [Repeat(0, ns[0])] + Reads(ns[1..])
  {
  }

  /** One transaction, or one frame, taken off the front. */
  lemma ListenStep(ts: seq<seq<byte>>)
    ensures ts == [] ==> Listen(ts) == [] && Awaited(ts).None?
    ensures ts != [] ==>
              var n := BodyLength(ts[0]);
              && Listen(ts) == (if n.Some? && |ts[0]| == 4 && |ts| > 1 && |ts[1]| == n.value then
                                  [ts[1]] + Listen(ts[2..])
                                else if n.Some? && |ts[0]| == 4 + n.value then [ts[0][4..]] + Listen(ts[1..])
                                else Listen(ts[1..]))
              && Awaited(ts) == (if n.Some? && |ts[0]| == 4 && |ts| == 1 then n
                                 else if n.Some? && |ts[0]| == 4 && |ts[1]| == n.value then Awaited(ts[2..])
                                 else Awaited(ts[1..]))
  {
    hide BodyLength;
  }

  lemma ListenSkips(t: seq<byte>, rest: seq<seq<byte>>)
    requires BodyLength(t).None?
    ensures Listen([t] + rest) == Listen(rest)
  {
    hide CheckHeader;
    assert ([t] + rest)[1..] == rest;
  }

  lemma ZerosAreNoHeader(n: nat)
    ensures BodyLength(Repeat(0, n)).None?
  {
    hide CheckHeader;
    var z := Repeat(0, n);
    if n < 4 {
      ShortIsNoHeader(z);
    } else {
      FillerIsNoHeader(0);
      assert z == [0, 0, 0, 0] + z[4..];
      HeaderInFront([0, 0, 0, 0], z[4..]);
    }
  }

  lemma ShortIsNoHeader(h: seq<byte>)
    requires |h| < 4
    ensures CheckHeader(h).None?
  {
  }

  //////////////////////////////////////////////////////////////////////////////
  // The bus and the device object
  //////////////////////////////////////////////////////////////////////////////

  /** The host end of the bus: the transactions it has clocked out, and what the part will answer. */
  class Spi {
    var sent: seq<seq<byte>>
    var line: Line

    constructor (line: Line)
      ensures sent == [] && this.line == line
    {
      sent, this.line := [], line;
    }

    /** One chip-select: tx goes out while as many bytes come in. */
    method Duplex(tx: seq<byte>) returns (rx: seq<byte>)
      modifies this
      ensures sent == old(sent) + [tx]
      ensures (rx, line) == Clock(old(line), |tx|)
    {
      sent := sent + [tx];
      var (r, l) := Clock(line, |tx|);
      rx, line := r, l;
    }
  }

  /** The lengths of the reads that fetch a packet, or fail to. */
  function ReadLengths(p: Option<(seq<byte>, seq<byte>)>): seq<nat> {
    if p.Some? then [4, |p.value.1|] else [4]
  }

  class Sensor {
    const spi: Spi

    constructor (spi: Spi)
      ensures this.spi == spi
    {
      this.spi := spi;
    }

    method Send(cmd0: int, cmd1: int, payload: seq<byte>, checksum: bool, ptype: int)
      modifies spi
      ensures spi.sent == old(spi.sent) + FrameAs(ptype, Message(cmd0, cmd1, payload, checksum))
      ensures spi.line == Clock(Clock(old(spi.line), 4).1, |payload| + 4).1
    {
      hide Message, SpiHeader;
      var body := Message(cmd0, cmd1, payload, checksum);
      var hdr := SpiHeader(|body|, ptype, 0);
      var r1 := spi.Duplex(hdr);
      var r2 := spi.Duplex(body);
    }

    /** `irq` says whether the interrupt was seen before the timeout. */
    method ReadPacket(irq: bool) returns (r: Option<(seq<byte>, seq<byte>)>)
      modifies spi
      ensures !irq ==> r.None? && spi.sent == old(spi.sent) && spi.line == old(spi.line)
      ensures irq ==> (r, spi.line) == NextPacket(old(spi.line))
      ensures irq ==> spi.sent == old(spi.sent) + Reads(ReadLengths(r))
    {
      if !irq {
        return None;
      }
      var hdr := spi.Duplex(Repeat(0, 4));
      OneRead(4);
      var n := CheckHeader(hdr);
      if n.None? || n.value == 0 || n.value > MAX_BODY {
        return None;
      }
      var body := spi.Duplex(Repeat(0, n.value));
      TwoReads(4, n.value);
      r := Some((hdr, body));
    }
  }
}
