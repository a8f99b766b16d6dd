/** The protocol, debugfs and interrupt code of kernel/gxfp.c, one call at a time. Outcomes the driver
    does not control (bus return codes, bytes that arrive, allocation) are parameters. */
module Driver {
  import opened Bytes
  import opened Codec
  import opened Wire
  import opened HexText
  import D = Detection

  const BUF_MAX := 4096
  const IRQ_STORM := 200
  const PAYLOAD_MAX := 256
  /** The most bytes a text for the `raw` file can denote. */
  const RAW_MAX := 2048

  const EINVAL := -22
  const ENOMEM := -12
  const EPROTO := -71
  const EBADMSG := -74
  const EMSGSIZE := -90

  //////////////////////////////////////////////////////////////////////////////
  // Protocol helpers
  //////////////////////////////////////////////////////////////////////////////

  /** `gxfp_make_spi_hdr` fills the caller's buffer with the Python header. */
  method MakeSpiHdr(h: array<byte>, bodyLen: nat, ptype: byte)
    requires h.Length == 4 && bodyLen < 0x1_0000
    modifies h
    ensures h[..] == SpiHeader(bodyLen, ptype, 0)
  {
    h[0] := TypeByte(ptype, 0);
    h[1] := LowByte(bodyLen);
    h[2] := HighByte(bodyLen);
    h[3] := LowByte(HeaderSum(h[0], h[1], h[2]));
  }

  /** The body part of `gxfp_send`: it is filled in place, and the checksum is an 8-bit running sum. */
  method FillBody(body: array<byte>, cmd0: group, cmd1: index, payload: array<byte>, n: nat, checksum: bool)
    requires n <= payload.Length && body.Length == n + 4 && body != payload
    modifies body
    ensures body[..] == Message(cmd0, cmd1, payload[..n], checksum)
  {
    hide CmdByte, LowByte, HighByte, Sum, Complement;
    var cmd := CmdByte(cmd0, cmd1);
    var lo, hi := LowByte(n + 1), HighByte(n + 1);
    body[0], body[1], body[2] := cmd, lo, hi;
    forall k | 0 <= k < n {
      body[3 + k] := payload[k];
    }
    assert body[..3 + n] == [cmd, lo, hi] + payload[..n];
    if checksum {
      var s := LowByte(cmd as nat + lo + hi);
      assert Sum(payload[..0]) == 0 by { SumEmpty(); }
      var i := 0;
      while i < n
        invariant 0 <= i <= n
        invariant s == LowByte(cmd as nat + lo + hi + Sum(payload[..i]))
        invariant body[..3 + n] == [cmd, lo, hi] + payload[..n]
      {
        RunningSum(cmd as nat + lo + hi, payload[..i], payload[i]);
        assert payload[..i + 1] == payload[..i] + [payload[i]];
        s := LowByte(s as nat + payload[i]);
        i := i + 1;
      }
      body[3 + n] := Complement(s);
    } else {
      body[3 + n] := NO_CHECKSUM;
    }
    assert body[..] == body[..3 + n] + [body[3 + n]];
  }

  /** `gxfp_check_spi_hdr` */
  function CheckSpiHdr(h: seq<byte>): int
    requires |h| == 4
  {
    var ptype := HighNibble(h[0]);
    if ptype != PKT_MSG && ptype != PKT_TLS then EPROTO
    else if h[3] != LowByte(HeaderSum(h[0], h[1], h[2])) then EBADMSG
    else Le16(h[1], h[2])
  }

  /** The C check accepts what `check_header` accepts, with the same length, and its error code says
      which of the two tests failed first. */
  lemma CheckSpiHdrAgrees(h: seq<byte>)
    requires |h| == 4
    ensures CheckHeader(h) == if CheckSpiHdr(h) >= 0 then Some(CheckSpiHdr(h)) else None
    ensures CheckSpiHdr(h) == EPROTO <==> HighNibble(h[0]) !in {PKT_MSG, PKT_TLS}
    ensures CheckSpiHdr(h) < 0 ==> CheckSpiHdr(h) in {EPROTO, EBADMSG}
  {
    hide HighNibble, LowByte, HeaderSum;
  }

  /** The transfers `gxfp_send` gets onto the bus, and its return value: what the Python `send` puts
      there, cut short at the first failure. */
  function SendOutcome(c: Command, allocOk: bool, hdrRet: int, bodyRet: int): (int, seq<seq<byte>>) {
    if |c.payload| > BUF_MAX - 4 then (EINVAL, [])
    else if !allocOk then (ENOMEM, [])
    else if hdrRet != 0 then (hdrRet, [])
    else if bodyRet != 0 then (bodyRet, Frame(Body(c))[..1])
    else (0, Frame(Body(c)))
  }

  /** With memory and a working bus, the C builder fails its size check exactly when the payload exceeds
      4092 bytes, and otherwise puts the very transactions of the Python `send` on the bus. */
  lemma SendRefinesPython(c: Command)
    ensures SendOutcome(c, true, 0, 0).0 == -22 <==> |c.payload| > 4092
    ensures forall a, h, b :: |c.payload| > 4092 ==> SendOutcome(c, a, h, b) == (-22, [])
    ensures forall h, b :: |c.payload| <= 4092 ==> SendOutcome(c, false, h, b) == (-12, [])
    ensures |c.payload| <= 4092 ==> SendOutcome(c, true, 0, 0) == (0, Frame(Body(c)))
    ensures forall h, b :: SendOutcome(c, true, h, b).0 == 0 <==> |c.payload| <= 4092 && h == 0 && b == 0
    ensures forall a, h, b :: SendOutcome(c, a, h, b).1 <= Frame(Body(c))
  {
    hide Body;
  }

  /** What `gxfp_recv` returns for the header it reads; a positive value is a body length to fetch. */
  function RecvHeader(hdrRet: int, hdr: seq<byte>): int
    requires |hdr| == 4
  {
    if hdrRet != 0 then hdrRet
    else if CheckSpiHdr(hdr) < 0 then CheckSpiHdr(hdr)
    else if CheckSpiHdr(hdr) == 0 || CheckSpiHdr(hdr) > BUF_MAX then EMSGSIZE
    else CheckSpiHdr(hdr)
  }

  /** The lengths of the transfers of a receive that the bus completes. */
  function RecvReads(hdrRet: int, hdr: seq<byte>, bodyRet: int): seq<nat>
    requires |hdr| == 4
  {
    if hdrRet != 0 then []
    else if RecvHeader(hdrRet, hdr) <= 0 || bodyRet != 0 then [4]
    else [4, RecvHeader(hdrRet, hdr)]
  }

  /** How many bytes of the body have reached the buffer by the end of a receive. */
  function Arrived(hdrRet: int, hdr: seq<byte>, bodyRet: int, stored: nat): (m: nat)
    requires |hdr| == 4
    ensures RecvHeader(hdrRet, hdr) <= BUF_MAX ==> m <= BUF_MAX
  {
    var n := RecvHeader(hdrRet, hdr);
    if n <= 0 then 0 else if bodyRet == 0 || n <= stored then n else stored
  }

  /** A buffer whose first m bytes have been overwritten. */
  function Overwritten(buf: seq<byte>, reply: seq<byte>, m: nat): (r: seq<byte>)
    requires m <= |buf| && m <= |reply|
    ensures |r| == |buf|
  {
    reply[..m] + buf[m..]
  }

  lemma HeaderBound(hdrRet: int, hdr: seq<byte>)
    requires |hdr| == 4 && hdrRet <= 0
    ensures RecvHeader(hdrRet, hdr) <= BUF_MAX
  {
    hide CheckSpiHdr;
  }

  /** What the device remembers from one call to the next, as far as the files show it: the transfers the bus
      has completed, by what they clocked out, and the receive buffer. */
  datatype Memory = Memory(sent: seq<seq<byte>>, rxlen: nat, rxbuf: seq<byte>)

  /** How a receive turns out: the return codes of its two transfers, the header read, what the part clocks out
      for the body, and how many bytes of it reach the buffer if the transfer fails. */
  datatype Answer = Answer(hdrRet: int, hdr: seq<byte>, bodyRet: int, reply: seq<byte>, stored: nat)

  predicate Possible(a: Answer) {
    |a.hdr| == 4 && |a.reply| >= BUF_MAX && a.stored <= BUF_MAX && a.hdrRet <= 0 && a.bodyRet <= 0
  }

  /** The receive fetched a body, whole. */
  predicate Fetched(a: Answer)
    requires |a.hdr| == 4
  {
    RecvHeader(a.hdrRet, a.hdr) > 0 && a.bodyRet == 0
  }

  function Received(d: Memory, a: Answer): (r: Memory)
    requires Possible(a) && |d.rxbuf| == BUF_MAX
    ensures |r.rxbuf| == BUF_MAX
  {
    HeaderBound(a.hdrRet, a.hdr);
    Memory(d.sent + Reads(RecvReads(a.hdrRet, a.hdr, a.bodyRet)),
           if Fetched(a) then RecvHeader(a.hdrRet, a.hdr) else d.rxlen,
           Overwritten(d.rxbuf, a.reply, Arrived(a.hdrRet, a.hdr, a.bodyRet, a.stored)))
  }

  /** A command has been sent and its answer looked for. A command that fails is not followed by a read. */
  function Exchanged(d: Memory, c: Command, allocOk: bool, hdrRet: int, bodyRet: int, a: Answer): (r: Memory)
    requires Possible(a) && |d.rxbuf| == BUF_MAX
    ensures |r.rxbuf| == BUF_MAX
  {
    var (ret, out) := SendOutcome(c, allocOk, hdrRet, bodyRet);
    var d1 := d.(sent := d.sent + out);
    if ret != 0 then d1 else Received(d1, a)
  }

  /** A `raw` transfer is over. `reply` is what arrives during it; when it fails, `stored` bytes of that have
      reached the buffer. */
  function Transferred(d: Memory, bytes: seq<byte>, ret: int, reply: seq<byte>, stored: nat): (r: Memory)
    requires |bytes| <= BUF_MAX == |d.rxbuf| && |reply| >= BUF_MAX
    ensures |r.rxbuf| == BUF_MAX
  {
    Memory(if ret == 0 then d.sent + [bytes] else d.sent,
           if ret == 0 then |bytes| else 0,
           Overwritten(d.rxbuf, reply, if ret == 0 || |bytes| <= stored then |bytes| else stored))
  }

  /** The driver fetches a body exactly when the Python reader would, and of the same length. */
  lemma RecvAgrees(hdr: seq<byte>)
    requires |hdr| == 4
    ensures BodyLength(hdr) == if RecvHeader(0, hdr) > 0 then Some(RecvHeader(0, hdr)) else None
  {
    hide CheckSpiHdr, CheckHeader;
    CheckSpiHdrAgrees(hdr);
  }

  /** The error codes of a receive: which test of the header failed first. A bus that idles at one byte gives
      EPROTO or, for the sixteen bytes that look like a packet type twice over, EBADMSG. */
  lemma RecvErrors(hdr: seq<byte>, f: byte)
    requires |hdr| == 4
    ensures RecvHeader(0, hdr) == -71 <==> HighNibble(hdr[0]) !in {0xA, 0xB}
    ensures RecvHeader(0, hdr) == -74 <==>
            HighNibble(hdr[0]) in {0xA, 0xB} && hdr[3] != LowByte(HeaderSum(hdr[0], hdr[1], hdr[2]))
    ensures RecvHeader(0, hdr) == -90 <==>
            CheckHeader(hdr).Some? && (CheckHeader(hdr).value == 0 || CheckHeader(hdr).value > 4096)
    ensures RecvHeader(0, [f, f, f, f]) == if HighNibble(f) in {0xA, 0xB} then -74 else -71
    ensures forall e: int :: e != 0 ==> RecvHeader(e, hdr) == e
  {
    hide HighNibble, LowByte, HeaderSum, Le16;
    FillerIsNoHeader(f);
    CheckSpiHdrAgrees([f, f, f, f]);
  }

  //////////////////////////////////////////////////////////////////////////////
  // Text input
  //////////////////////////////////////////////////////////////////////////////

  /** The first tokens of a list, at most `cap` of them. */
  function Capped(ts: seq<seq<byte>>, cap: nat): (r: seq<seq<byte>>)
    ensures |r| <= cap
  {
    if |ts| <= cap then ts else ts[..cap]
  }

  /** What `gxfp_cmd_write` sends for its input text, or None if it answers -EINVAL. */
  function ParseCmd(text: seq<byte>): Option<Command> {
    if |text| > 1024 then None
    else
      var (t0, p0) := Strsep(Strim(CString(text)));
      if Kstrtouint(t0).None? || p0.None? then None
      else
        var (t1, p1) := Strsep(p0.value);
        var payload := ParseTokens(Capped(Tokens(p1), PAYLOAD_MAX));
        if Kstrtouint(t1).None? || payload.None? then None
        else Some(Command(Kstrtouint(t0).value % 16, Kstrtouint(t1).value % 8, payload.value, true))
  }

  /** What `gxfp_raw_write` transfers for its input text, or None if it answers -EINVAL. */
  function ParseRaw(text: seq<byte>): Option<seq<byte>> {
    if |text| > 4096 then None
    else
      var bytes := ParseHex(text);
      if bytes.None? || bytes.value == [] then None else bytes
  }

  lemma {:induction false} TrimShortens(s: seq<byte>)
    ensures |CString(s)| <= |s| && |TrimRight(s)| <= |s| && |TrimLeft(s)| <= |s|
  {
    if s != [] {
      TrimShortens(s[1..]);
      if IsSpace(s[|s| - 1]) {
        TrimShortens(s[..|s| - 1]);
      }
    }
  }

  /** Accepted raw input never holds more tokens than the buffer has bytes, so the parser's cap of 4096
      never cuts anything off. */
  lemma RawCapUnreachable(text: seq<byte>)
    requires |text| <= 4096
    ensures |Tokens(Some(Strim(CString(text))))| <= 2048
  {
    hide Tokens, CString, TrimLeft, TrimRight;
    TrimShortens(text);
    TrimShortens(CString(text));
    TrimShortens(TrimRight(CString(text)));
    TokenCount(Some(Strim(CString(text))));
  }

  //////////////////////////////////////////////////////////////////////////////
  // The device
  //////////////////////////////////////////////////////////////////////////////

  /** The part of the text at `off` that one read of at most `len` bytes returns. */
  function ReadWindow(text: seq<byte>, off: nat, len: nat): seq<byte> {
    if off >= |text| then []
    else if off + len <= |text| then text[off..off + len]
    else text[off..]
  }

  class Gxfp {
    const txbuf: array<byte>
    const rxbuf: array<byte>
    var rxlen: nat
    var irqCount: nat
    var dataReady: bool
    var irqMasked: bool
    /** The interrupt core's view: `disable_irq_nosync` has been called on the line. */
    var lineDisabled: bool
    var sent: seq<seq<byte>>

    ghost predicate Valid()
      reads this
    {
      && txbuf.Length == BUF_MAX && rxbuf.Length == BUF_MAX && txbuf != rxbuf
      && rxlen <= BUF_MAX
      && irqCount <= IRQ_STORM
      && (irqMasked <==> irqCount == IRQ_STORM)
      && (lineDisabled <==> irqMasked)
    }

    ghost function State(): (d: Memory)
      reads this, rxbuf
    {
      Memory(sent, rxlen, rxbuf[..])
    }

    constructor ()
      ensures Valid() && fresh(txbuf) && fresh(rxbuf)
      ensures rxlen == 0 && irqCount == 0 && !dataReady && sent == []
    {
      txbuf := new byte[BUF_MAX](_ => 0);
      rxbuf := new byte[BUF_MAX](_ => 0);
      rxlen, irqCount, dataReady, irqMasked, lineDisabled, sent := 0, 0, false, false, false, [];
    }

    /** `gxfp_isr`: the interrupt core delivers nothing on a disabled line. */
    method Isr()
      requires Valid() && !lineDisabled
      modifies `irqCount, `dataReady, `irqMasked, `lineDisabled
      ensures Valid()
      ensures irqCount == old(irqCount) + 1 && dataReady
      ensures lineDisabled <==> irqCount == 200
    {
      irqCount := irqCount + 1;
      var n := irqCount;
      dataReady := true;
      if n == IRQ_STORM && !irqMasked {
        irqMasked := true;
        lineDisabled := true;
      }
    }

    /** `gxfp_send`: the body is built in place, then header and body go out in two transfers. */
    method Send(cmd0: group, cmd1: index, payload: array<byte>, n: nat, checksum: bool,
                allocOk: bool, hdrRet: int, bodyRet: int) returns (ret: int)
      requires n <= payload.Length && n <= 65531
      modifies `sent
      ensures var (r, out) := SendOutcome(Command(cmd0, cmd1, payload[..n], checksum), allocOk, hdrRet, bodyRet);
              ret == r && sent == old(sent) + out
    {
      hide SpiHeader, Message;
      ghost var c := Command(cmd0, cmd1, payload[..n], checksum);
      var blen := n + 4;
      assert sent + [] == sent;
      if blen > BUF_MAX {
        return EINVAL;
      }
      if !allocOk {
        return ENOMEM;
      }
      var body := new byte[blen](_ => 0);
      FillBody(body, cmd0, cmd1, payload, n, checksum);
      var hdr := new byte[4](_ => 0);
      MakeSpiHdr(hdr, blen, PKT_MSG);
      assert payload[..n] == c.payload;
      if hdrRet != 0 {
        return hdrRet;
      }
      sent := sent + [hdr[..]];
      if bodyRet != 0 {
        assert sent == old(sent) + Frame(Body(c))[..1];
        return bodyRet;
      }
      sent := sent + [body[..]];
      assert sent == old(sent) + Frame(Body(c));
      ret := 0;
    }

    /** `gxfp_recv` */
    method Recv(a: Answer) returns (ret: int)
      requires Valid() && Possible(a)
      modifies `sent, `rxlen, rxbuf
      ensures Valid() && State() == Received(old(State()), a)
      ensures var n := RecvHeader(a.hdrRet, a.hdr);
              ret == if n > 0 && a.bodyRet != 0 then a.bodyRet else n
    {
      hide CheckSpiHdr, Reads;
      NoReads();
      HeaderBound(a.hdrRet, a.hdr);
      assert sent + [] == sent;
      if a.hdrRet != 0 {
        return a.hdrRet;
      }
      sent := sent + [Repeat(0, 4)];
      OneRead(4);
      var n := CheckSpiHdr(a.hdr);
      if n < 0 {
        return n;
      }
      if n == 0 || n > BUF_MAX {
        return EMSGSIZE;
      }
      var got := if a.bodyRet == 0 || n <= a.stored then n else a.stored;
      forall i | 0 <= i < got {
        rxbuf[i] := a.reply[i];
      }
      if a.bodyRet != 0 {
        return a.bodyRet;
      }
      ghost var before := old(sent);
      TwoReads(4, n);
      assert before + [Repeat(0, 4)] + [Repeat(0, n)] == before + ([Repeat(0, 4)] + [Repeat(0, n)]);
      sent := sent + [Repeat(0, n)];
      rxlen := n;
      ret := n;
    }

    /** What `gxfp_cmd_write` does under the mutex. */
    method Exchange(cmd0: group, cmd1: index, payload: array<byte>, n: nat,
                    allocOk: bool, hdrRet: int, bodyRet: int, a: Answer) returns (ret: int)
      requires Valid() && n <= payload.Length && n <= PAYLOAD_MAX && Possible(a)
      modifies `sent, `dataReady, `rxlen, rxbuf
      ensures Valid() && !dataReady
      ensures var c := Command(cmd0, cmd1, old(payload[..n]), true);
              && State() == Exchanged(old(State()), c, allocOk, hdrRet, bodyRet, a)
              && ret == SendOutcome(c, allocOk, hdrRet, bodyRet).0
    {
      hide SendOutcome, Received;
      dataReady := false;
      ret := Send(cmd0, cmd1, payload, n, true, allocOk, hdrRet, bodyRet);
      if ret == 0 {
        var _ := Recv(a);
      }
    }

    /** `gxfp_cmd_write`. The interrupts that may arrive while it waits are left to
        module Interleaving; the outcome of the receive never reaches the caller. */
    method CmdWrite(text: seq<byte>, dupErr: int, allocOk: bool, hdrRet: int, bodyRet: int, a: Answer)
      returns (ret: int)
      requires Valid() && Possible(a)
      modifies `sent, `dataReady, `rxlen, rxbuf
      ensures Valid()
      ensures var c := ParseCmd(text);
              if |text| > 1024 then ret == -22 && State() == old(State())
              else if dupErr != 0 then ret == dupErr && State() == old(State())
              else if c.None? then ret == -22 && State() == old(State())
              else
                var r := SendOutcome(c.value, allocOk, hdrRet, bodyRet).0;
                && ret == (if r != 0 then r else |text|) && !dataReady
                && State() == Exchanged(old(State()), c.value, allocOk, hdrRet, bodyRet, a)
    {
      hide Strim, CString, Strsep, Tokens, ParseTokens, Kstrtouint, LowByte, SendOutcome, Exchanged;
      if |text| > 1024 {
        return EINVAL;
      }
      if dupErr != 0 {
        return dupErr;
      }
      var payload := new byte[PAYLOAD_MAX](_ => 0);
      var n := 0;
      var (t0, p0) := Strsep(Strim(CString(text)));
      if Kstrtouint(t0).None? || p0.None? {
        return EINVAL;
      }
      var (t1, p1) := Strsep(p0.value);
      if Kstrtouint(t1).None? {
        return EINVAL;
      }
      ghost var all := Tokens(p1);
      var p := p1;
      assert ParseTokens([]) == Some([]) by { ParseNothing(); }
      assert ParseTokens(all[..0]) == Some([]);
      while p.Some? && n < PAYLOAD_MAX
        invariant 0 <= n <= PAYLOAD_MAX && n <= |all|
        invariant Tokens(p) == all[n..]
        invariant ParseTokens(all[..n]) == Some(payload[..n])
        invariant State() == old(State())
        decreases if p.None? then 0 else 1 + |p.value|
      {
        var here := p.value;
        StrsepShortens(here);
        TokensStep(here);
        var (tok, rest) := Strsep(here);
        p := rest;
        if tok == [] {
          continue;
        }
        assert Tokens(Some(here))[0] == tok && Tokens(Some(here))[1..] == Tokens(rest);
        assert all[n] == tok && all[n + 1..] == all[n..][1..];
        assert all[..n + 1] == all[..n] + [tok];
        ParseTokensSnoc(all[..n], tok);
        var v := Kstrtouint(tok);
        if v.None? {
          ParseTokensPrefix(all, n + 1);
          assert Capped(all, PAYLOAD_MAX)[..n + 1] == all[..n + 1];
          ParseTokensPrefix(Capped(all, PAYLOAD_MAX), n + 1);
          return EINVAL;
        }
        payload[n] := LowByte(v.value);
        n := n + 1;
        assert payload[..n] == payload[..n - 1] + [payload[n - 1]];
      }
      TokenCount(p);
      assert all[..n] == Capped(all, PAYLOAD_MAX);
      var c := Command(Kstrtouint(t0).value % 16, Kstrtouint(t1).value % 8, payload[..n], true);
      ret := Exchange(c.cmd0, c.cmd1, payload, n, allocOk, hdrRet, bodyRet, a);
      ret := if ret != 0 then ret else |text|;
    }

    /** What `gxfp_raw_write` does under the mutex. */
    method Transfer(n: nat, spiRet: int, reply: seq<byte>, stored: nat)
      requires Valid() && n <= BUF_MAX <= |reply| && stored <= BUF_MAX
      modifies `sent, `rxlen, rxbuf
      ensures Valid() && State() == Transferred(old(State()), txbuf[..n], spiRet, reply, stored)
    {
      var got := if spiRet == 0 || n <= stored then n else stored;
      forall i | 0 <= i < got {
        rxbuf[i] := reply[i];
      }
      if spiRet == 0 {
        sent := sent + [txbuf[..n]];
      }
      rxlen := if spiRet != 0 then 0 else n;
    }

    /** `gxfp_raw_write` */
    method RawWrite(text: seq<byte>, dupErr: int, spiRet: int, reply: seq<byte>, stored: nat) returns (ret: int)
      requires Valid() && |reply| >= BUF_MAX && stored <= BUF_MAX
      modifies `sent, `rxlen, txbuf, rxbuf
      ensures Valid()
      ensures var bytes := ParseRaw(text);
              if |text| > 4096 then ret == -22 && State() == old(State())
              else if dupErr != 0 then ret == dupErr && State() == old(State())
              else if bytes.None? then ret == -22 && State() == old(State())
              else
                && 0 < |bytes.value| <= 2048 && txbuf[..] == bytes.value + old(txbuf[|bytes.value|..])
                && ret == (if spiRet == 0 then |text| else spiRet)
                && State() == Transferred(old(State()), bytes.value, spiRet, reply, stored)
    {
      hide Strim, CString, Strsep, Tokens, ParseTokens, Kstrtouint, LowByte, Transferred;
      if |text| > 4096 {
        return EINVAL;
      }
      if dupErr != 0 {
        return dupErr;
      }
      var n := 0;
      var p := Some(Strim(CString(text)));
      ghost var all := Tokens(p);
      RawCapUnreachable(text);
      ParseTokensLength(all);
      assert ParseTokens([]) == Some([]) by { ParseNothing(); }
      assert ParseTokens(all[..0]) == Some([]);
      while p.Some? && n < BUF_MAX
        invariant 0 <= n <= |all| <= 2048
        invariant Tokens(p) == all[n..]
        invariant ParseTokens(all[..n]) == Some(txbuf[..n]) && txbuf[n..] == old(txbuf[..])[n..]
        invariant State() == old(State())
        decreases if p.None? then 0 else 1 + |p.value|
      {
        var here := p.value;
        StrsepShortens(here);
        TokensStep(here);
        var (tok, rest) := Strsep(here);
        p := rest;
        if tok == [] {
          continue;
        }
        assert Tokens(Some(here))[0] == tok && Tokens(Some(here))[1..] == Tokens(rest);
        assert all[n] == tok && all[n + 1..] == all[n..][1..];
        assert all[..n + 1] == all[..n] + [tok];
        ParseTokensSnoc(all[..n], tok);
        var v := Kstrtouint(tok);
        if v.None? {
          ParseTokensPrefix(all, n + 1);
          return EINVAL;
        }
        ghost var tail := txbuf[n..];
        txbuf[n] := LowByte(v.value);
        n := n + 1;
        assert txbuf[..n] == txbuf[..n - 1] + [txbuf[n - 1]];
        assert txbuf[n..] == tail[1..] && old(txbuf[..])[n - 1..][1..] == old(txbuf[..])[n..];
      }
      TokenCount(p);
      assert all[..n] == all;
      if n == 0 {
        return EINVAL;
      }
      Transfer(n, spiRet, reply, stored);
      ret := if spiRet != 0 then spiRet else |text|;
    }

    /** `gxfp_raw_read`. Each "%02x " also writes a terminating NUL, which the next one (or the final
        newline) overwrites; the array bounds of `out` are the 3n + 2 bytes allocated. */
    method RawRead(off: nat, len: nat, allocOk: bool) returns (ret: int, text: seq<byte>)
      requires Valid()
      ensures !allocOk ==> ret == -12 && text == []
      ensures allocOk ==> text == ReadWindow(RawText(rxbuf[..rxlen]), off, len) && ret == |text|
    {
      hide HexDigit, HexDump, ReadWindow;
      EmptyDump();
      var n := rxlen;
      if !allocOk {
        return ENOMEM, [];
      }
      var out := new byte[n * 3 + 2](_ => 0);
      var i := 0;
      assert rxbuf[..0] == [];
      while i < n
        invariant 0 <= i <= n
        invariant out[..i * 3] == HexDump(rxbuf[..i])
      {
        var x := Hex2(rxbuf[i]);
        out[i * 3], out[i * 3 + 1], out[i * 3 + 2], out[i * 3 + 3] := x[0], x[1], 32, 0;
        HexDumpSnoc(rxbuf[..i], rxbuf[i]);
        assert rxbuf[..i + 1] == rxbuf[..i] + [rxbuf[i]];
        assert out[..(i + 1) * 3] == out[..i * 3] + x + [32];
        i := i + 1;
      }
      out[n * 3] := 10;
      assert out[..n * 3 + 1] == out[..n * 3] + [10];
      text := ReadWindow(out[..n * 3 + 1], off, len);
      ret := |text|;
    }
  }

  lemma NoReads()
    ensures Reads([]) == []
  {
  }

  lemma SumEmpty()
    ensures Sum([]) == 0
  {
  }

  lemma ParseNothing()
    ensures ParseTokens([]) == Some([])
  {
  }

  lemma StrsepShortens(s: seq<byte>)
    ensures Strsep(s).1.Some? ==> |Strsep(s).1.value| < |s|
  {
  }

  /** One step of the 8-bit running sum. */
  lemma RunningSum(c: nat, done: seq<byte>, b: byte)
    ensures LowByte(LowByte(c + Sum(done)) as nat + b) == LowByte(c + Sum(done + [b]))
  {
    hide LowByte, Sum;
    SumAppend(done, [b]);
    assert Sum([b]) == b by { SumOne(b); }
    D.LowByteOfSum(b, c + Sum(done));
  }

  /** If a prefix of the tokens does not parse, neither does the list. */
  lemma {:induction false} ParseTokensPrefix(ts: seq<seq<byte>>, k: nat)
    requires k <= |ts| && ParseTokens(ts[..k]).None?
    ensures ParseTokens(ts).None?
  {
    hide Kstrtouint, LowByte;
    if k > 0 {
      assert ts[..k][1..] == ts[1..][..k - 1];
      if ParseTokens(ts[1..][..k - 1]).None? {
        ParseTokensPrefix(ts[1..], k - 1);
      }
    }
  }

  //////////////////////////////////////////////////////////////////////////////
  // What the files are for
  //////////////////////////////////////////////////////////////////////////////

  /** Writing back the text a read serves transfers the same bytes if and only if there are between 1
      and 1365 of them; otherwise the write is refused. */
  lemma RawFileRoundTrip(s: seq<byte>)
    ensures ParseRaw(RawText(s)) == Some(s) <==> 1 <= |s| <= 1365
    ensures ParseRaw(RawText(s)).None? <==> !(1 <= |s| <= 1365)
  {
    hide ParseHex;
    PrintThenParse(s);
  }

  /** Some text makes the `raw` file transfer these bytes. */
  ghost predicate Writable(bytes: seq<byte>) {
    exists text :: ParseRaw(text) == Some(bytes)
  }

  /** Any 1 to 1365 bytes can be written, and never more than 2048. */
  lemma WritableLengths(bytes: seq<byte>)
    ensures 1 <= |bytes| <= 1365 ==> Writable(bytes)
    ensures Writable(bytes) ==> 1 <= |bytes| <= 2048
  {
    hide Tokens, ParseTokens, Strim, CString;
    if 1 <= |bytes| <= 1365 {
      RawFileRoundTrip(bytes);
      assert ParseRaw(RawText(bytes)) == Some(bytes);
    }
    if text :| ParseRaw(text) == Some(bytes) {
      RawCapUnreachable(text);
      ParseTokensLength(Tokens(Some(Strim(CString(text)))));
    }
  }

  /** The text of a command: two hex digits and the payload dump. */
  function CmdText(cmd0: group, cmd1: index, payload: seq<byte>): seq<byte> {
    [HexDigit(cmd0), 32, HexDigit(cmd1)] + if payload == [] then [] else [32] + Core(payload)
  }

  lemma DigitToken(v: nat, rest: seq<byte>)
    requires v < 16
    ensures Kstrtouint([HexDigit(v)]) == Some(v)
    ensures IsDigitChar(HexDigit(v))
    ensures FirstDelim([HexDigit(v)]) == 1
    ensures FirstDelim([HexDigit(v)] + [32] + rest) == 1
  {
    var t: seq<byte> := [HexDigit(v)];
    assert HexValue(t[0]) == Some(v) && t[1..] == [];
    assert DigitRun(t) == 1 + DigitRun([]);
    assert Accumulate(t, 0) == Accumulate([], v);
    var w := t + [32] + rest;
    assert w[1..][0] == 32;
  }

  lemma NothingToTrim(s: seq<byte>)
    requires s != [] && IsDigitChar(s[0]) && IsDigitChar(s[|s| - 1])
    requires forall i :: 0 <= i < |s| ==> s[i] != 0
    ensures Strim(CString(s)) == s
  {
    CStringWhole(s);
    assert TrimRight(s) == s;
  }

  lemma CmdTextIsTrim(cmd0: group, cmd1: index, payload: seq<byte>)
    ensures Strim(CString(CmdText(cmd0, cmd1, payload))) == CmdText(cmd0, cmd1, payload)
  {
    hide Core, Strim, CString, HexDigit;
    DigitToken(cmd0, []);
    DigitToken(cmd1, []);
    if payload != [] {
      CoreShape(payload);
    }
    NothingToTrim(CmdText(cmd0, cmd1, payload));
  }

  lemma CoreTokensCapped(s: seq<byte>, cap: nat)
    requires s != []
    ensures ParseTokens(Capped(Tokens(Some(Core(s))), cap)) == Some(if |s| <= cap then s else s[..cap])
  {
    hide Core, Tokens, ParseTokens;
    var ts := Tokens(Some(Core(s)));
    CoreTokens(s);
    ParseTokensLength(ts);
    if cap < |s| {
      ParseTokensTake(ts, cap);
    }
  }

  lemma {:induction false} ParseTokensTake(ts: seq<seq<byte>>, k: nat)
    requires k <= |ts| && ParseTokens(ts).Some?
    ensures |ParseTokens(ts).value| == |ts|
    ensures ParseTokens(ts[..k]) == Some(ParseTokens(ts).value[..k])
  {
    hide Kstrtouint, LowByte;
    ParseTokensLength(ts);
    if k == 0 {
      assert ts[..0] == [];
    } else {
      ParseTokensTake(ts[1..], k - 1);
      assert ts[..k][1..] == ts[1..][..k - 1] && ts[..k][0] == ts[0];
      var rest := ParseTokens(ts[1..]).value;
      var b := LowByte(Kstrtouint(ts[0]).value);
      assert ([b] + rest)[..k] == [b] + rest[..k - 1];
    }
  }

  /** One hex digit is split off a text. */
  lemma SplitDigit(v: nat, rest: Option<seq<byte>>)
    requires v < 16
    ensures Strsep([HexDigit(v)] + if rest.None? then [] else [32] + rest.value) == ([HexDigit(v)], rest)
  {
    hide HexDigit, FirstDelim;
    var d := [HexDigit(v)];
    if rest.None? {
      DigitToken(v, []);
      assert d + [] == d;
    } else {
      DigitToken(v, rest.value);
      var w := d + [32] + rest.value;
      assert d + ([32] + rest.value) == w && w[..1] == d && w[2..] == rest.value;
    }
  }

  /** A command written as text is the command sent, except that payload bytes after the 256th are
      silently dropped; from 341 bytes on the text is too long and the write is refused. */
  lemma CmdFileRoundTrip(cmd0: group, cmd1: index, payload: seq<byte>)
    ensures ParseCmd(CmdText(cmd0, cmd1, payload)) ==
            if |payload| > 340 then None
            else Some(Command(cmd0, cmd1, if |payload| <= PAYLOAD_MAX then payload else payload[..PAYLOAD_MAX], true))
  {
    hide Strim, CString, Strsep, Tokens, ParseTokens, Core, HexDigit, Kstrtouint, Capped;
    var text := CmdText(cmd0, cmd1, payload);
    var core := if payload == [] then None else Some(Core(payload));
    var after := [HexDigit(cmd1)] + if core.None? then [] else [32] + core.value;
    CmdTextIsTrim(cmd0, cmd1, payload);
    SplitDigit(cmd0, Some(after));
    SplitDigit(cmd1, core);
    DigitToken(cmd0, []);
    DigitToken(cmd1, []);
    assert text == [HexDigit(cmd0)] + ([32] + after);
    SmallMod(cmd0, cmd1);
    PayloadTokens(payload);
    CmdTextLength(cmd0, cmd1, payload);
  }

  /** The commands the `cmd` file can send: all with a checksum and at most 256 payload bytes. */
  lemma CmdWritableExact(c: Command)
    ensures (exists text :: ParseCmd(text) == Some(c)) <==> c.checksum && |c.payload| <= PAYLOAD_MAX
  {
    hide Strim, CString, Strsep, Tokens, ParseTokens, Kstrtouint;
    if c.checksum && |c.payload| <= PAYLOAD_MAX {
      CmdFileRoundTrip(c.cmd0, c.cmd1, c.payload);
      assert ParseCmd(CmdText(c.cmd0, c.cmd1, c.payload)) == Some(c);
    }
    if text :| ParseCmd(text) == Some(c) {
      ParseTokensLength(Capped(Tokens(Strsep(Strsep(Strim(CString(text))).1.value).1), PAYLOAD_MAX));
    }
  }

  lemma PayloadTokens(payload: seq<byte>)
    ensures ParseTokens(Capped(Tokens(if payload == [] then None else Some(Core(payload))), PAYLOAD_MAX)) ==
            Some(if |payload| <= PAYLOAD_MAX then payload else payload[..PAYLOAD_MAX])
  {
    hide Core, Tokens, ParseTokens;
    if payload == [] {
      TokenCount(None);
      ParseNothing();
    } else {
      CoreTokensCapped(payload, PAYLOAD_MAX);
    }
  }

  lemma CmdTextLength(cmd0: group, cmd1: index, payload: seq<byte>)
    ensures |CmdText(cmd0, cmd1, payload)| == 3 + 3 * |payload|
  {
    hide Core;
    if payload != [] {
      CoreShape(payload);
    }
  }

  /** For any text the driver accepts, the payload sent has one byte for each payload token if and only if
      there are at most 256 of them; later tokens are dropped even if they are no numbers. When all of
      them are, the payload sent is a prefix of the payload given. */
  lemma CmdCapExact(text: seq<byte>)
    requires ParseCmd(text).Some?
    ensures var ts := Tokens(Strsep(Strsep(Strim(CString(text))).1.value).1);
            var sent, given := ParseCmd(text).value.payload, ParseTokens(ts);
            && (|sent| == |ts| <==> |ts| <= PAYLOAD_MAX)
            && |sent| <= PAYLOAD_MAX
            && (given.Some? ==> sent <= given.value && (sent == given.value <==> |ts| <= PAYLOAD_MAX))
  {
    hide Strim, CString, Strsep, Tokens, ParseTokens, Kstrtouint;
    var ts := Tokens(Strsep(Strsep(Strim(CString(text))).1.value).1);
    ParseTokensLength(ts);
    ParseTokensLength(Capped(ts, PAYLOAD_MAX));
    if PAYLOAD_MAX < |ts| && ParseTokens(ts).Some? {
      ParseTokensTake(ts, PAYLOAD_MAX);
    }
  }

  /** From the text written to the `cmd` file to the command the part hears, however the receive that
      follows turns out. */
  lemma CmdEndToEnd(cmd0: group, cmd1: index, payload: seq<byte>, d: Memory, a: Answer)
    requires |payload| <= PAYLOAD_MAX && Possible(a) && |d.rxbuf| == BUF_MAX
    ensures var c := ParseCmd(CmdText(cmd0, cmd1, payload));
            && c.Some?
            && d.sent <= Exchanged(d, c.value, true, 0, 0, a).sent
            && var bodies := Listen(Exchanged(d, c.value, true, 0, 0, a).sent[|d.sent|..]);
               |bodies| == 1 && Reports(bodies[0], Command(cmd0, cmd1, payload, true))
  {
    hide ParseCmd, CmdText, Body, Listen, Reports, Frame, Reads, RecvReads, Overwritten, Arrived;
    CmdFileRoundTrip(cmd0, cmd1, payload);
    var c := Command(cmd0, cmd1, payload, true);
    var ns := RecvReads(a.hdrRet, a.hdr, a.bodyRet);
    BodyLengthOf(c);
    BodyReports(c);
    ListenToFrame(Body(c), Reads(ns));
    ListenToReads(ns, []);
    assert Reads(ns) + [] == Reads(ns);
    assert (d.sent + Frame(Body(c)) + Reads(ns))[|d.sent|..] == Frame(Body(c)) + Reads(ns);
    assert Listen([]) == [] by { ListenToNothing(); }
  }

  lemma BodyLengthOf(c: Command)
    ensures |Body(c)| == |c.payload| + 4
  {
  }

  //////////////////////////////////////////////////////////////////////////////
  // Reads that see more than one buffer
  //////////////////////////////////////////////////////////////////////////////

  /** A failed transfer that stored m bytes leaves the text of the buffer as it was if and only if it
      brought the bytes that were there already, as far as the text reaches. */
  lemma StaleTextExact(buf: seq<byte>, reply: seq<byte>, m: nat, len: nat)
    requires m <= |buf| && m <= |reply| && len <= |buf|
    ensures RawText(Overwritten(buf, reply, m)[..len]) == RawText(buf[..len]) <==>
            forall i :: 0 <= i < m && i < len ==> reply[i] == buf[i]
  {
    hide RawText;
    var now := Overwritten(buf, reply, m);
    RawTextInjective(now[..len], buf[..len]);
    forall i | 0 <= i < m && i < len
      ensures now[..len][i] == reply[i] && buf[..len][i] == buf[i]
    {
    }
    if forall i :: 0 <= i < m && i < len ==> reply[i] == buf[i] {
      assert now[..len] == buf[..len];
    }
  }

  /** So, on any device, a receive that fails in its body leaves the old length over new bytes: the next
      read prints what the one before it would have printed if and only if every byte stored within the
      old length equals the one it replaced. */
  method ReadAfterFailure(g: Gxfp, a: Answer) returns (before: seq<byte>, after: seq<byte>)
    requires g.Valid() && Possible(a) && RecvHeader(a.hdrRet, a.hdr) > 0 && a.bodyRet < 0
    modifies g`sent, g`rxlen, g.rxbuf
    ensures g.Valid() && g.rxlen == old(g.rxlen)
    ensures before == RawText(old(g.rxbuf[..g.rxlen])) && after == RawText(g.rxbuf[..g.rxlen])
    ensures after == before <==>
            forall i :: 0 <= i < RecvHeader(0, a.hdr) && i < a.stored && i < old(g.rxlen) ==>
                          a.reply[i] == old(g.rxbuf[..])[i]
  {
    hide RawText, CheckSpiHdr;
    ghost var buf := g.rxbuf[..];
    var whole := 3 * BUF_MAX + 1;
    var r: int;
    r, before := g.RawRead(0, whole, true);
    WholeWindow(g.rxbuf[..g.rxlen], whole);
    r := g.Recv(a);
    r, after := g.RawRead(0, whole, true);
    WholeWindow(g.rxbuf[..g.rxlen], whole);
    StaleTextExact(buf, a.reply, Arrived(a.hdrRet, a.hdr, a.bodyRet, a.stored), g.rxlen);
    assert buf[..g.rxlen] == old(g.rxbuf[..g.rxlen]);
    assert g.rxbuf[..][..g.rxlen] == g.rxbuf[..g.rxlen];
  }

  lemma WholeWindow(s: seq<byte>, len: nat)
    requires 3 * |s| + 1 <= len
    ensures ReadWindow(RawText(s), 0, len) == RawText(s)
  {
    hide HexDump;
  }

  /** What a reader collects that asks for the given lengths one after another, while the text changes
      under it: the file position moves on by what each read returned. */
  function Collected(texts: seq<seq<byte>>, off: nat, lens: seq<nat>): seq<byte>
    requires |texts| == |lens|
  {
    if texts == [] then []
    else
      var got := ReadWindow(texts[0], off, lens[0]);
      got + Collected(texts[1..], off + |got|, lens[1..])
  }

  function Total(lens: seq<nat>): nat {
    if lens == [] then 0 else lens[0] + Total(lens[1..])
  }

  /** As long as the text stays the same, windows of any lengths reassemble it. */
  lemma {:induction false} WindowsReassemble(text: seq<byte>, off: nat, lens: seq<nat>)
    ensures Collected(seq(|lens|, _ => text), off, lens) == ReadWindow(text, off, Total(lens))
    decreases |lens|
  {
    hide ReadWindow;
    var texts := seq(|lens|, _ => text);
    if lens == [] {
      NoWindow(text, off);
    } else {
      var got := ReadWindow(text, off, lens[0]);
      assert texts[1..] == seq(|lens[1..]|, _ => text) && texts[0] == text;
      WindowsReassemble(text, off + |got|, lens[1..]);
      WindowSplits(text, off, lens[0], Total(lens[1..]));
    }
  }

  lemma NoWindow(text: seq<byte>, off: nat)
    ensures ReadWindow(text, off, 0) == []
  {
  }

  lemma WindowSplits(text: seq<byte>, off: nat, m: nat, n: nat)
    ensures var got := ReadWindow(text, off, m);
            ReadWindow(text, off, m + n) == got + ReadWindow(text, off + |got|, n)
  {
  }

  /** How many characters a read of m from the start of the text of a returns. */
  function FirstRead(a: seq<byte>, m: nat): (k: nat)
    ensures k <= m && k <= 3 * |a| + 1
  {
    if m <= 3 * |a| + 1 then m else 3 * |a| + 1
  }

  /** The mutex covers one read call only. If the buffer turns from a into b after the first of two reads,
      the second of which reaches the end, the reader collects the beginning of one text and the rest of
      the other. That is the text of b if and only if the buffers agree on what the first read covered, and
      the text of a if and only if they agree on what it left, or it left nothing and b is shorter;
      otherwise it is a mixture, the text of neither. */
  lemma TransferBetweenReads(a: seq<byte>, b: seq<byte>, m: nat, n: nat)
    requires 3 * |b| + 1 <= FirstRead(a, m) + n
    ensures var k := FirstRead(a, m);
            var got := Collected([RawText(a), RawText(b)], 0, [m, n]);
            && got == RawText(a)[..k] + (if k <= 3 * |b| + 1 then RawText(b)[k..] else [])
            && (got == RawText(b) <==> SamePrefix(a, b, k))
            && (got == RawText(a) <==> if k <= 3 * |b| + 1 then SameSuffix(a, b, k) else k == 3 * |a| + 1)
  {
    hide RawText, SamePrefix, SameSuffix;
    var ta, tb, k := RawText(a), RawText(b), FirstRead(a, m);
    TwoReadsCollect(ta, tb, m, n);
    PrefixExact(a, b, k);
    if k <= |tb| {
      SuffixExact(a, b, k);
    }
    JoinedTexts(ta, tb, k);
  }

  lemma TwoReadsCollect(ta: seq<byte>, tb: seq<byte>, m: nat, n: nat)
    ensures var first := ReadWindow(ta, 0, m);
            Collected([ta, tb], 0, [m, n]) == first + ReadWindow(tb, |first|, n)
  {
    hide ReadWindow;
    var texts: seq<seq<byte>>, lens: seq<nat> := [tb], [n];
    assert [ta, tb][1..] == texts && [m, n][1..] == lens;
    var first := ReadWindow(ta, 0, m);
    assert Collected(texts, |first|, lens) == ReadWindow(tb, |first|, n) by {
      assert texts[1..] == [] && lens[1..] == [];
    }
  }

  /** The first k characters of one text with the rest of another. */
  lemma JoinedTexts(ta: seq<byte>, tb: seq<byte>, k: nat)
    requires k <= |ta|
    ensures var got := ta[..k] + (if k <= |tb| then tb[k..] else []);
            && (got == tb <==> ta[..k] <= tb)
            && (got == ta <==> if k <= |tb| then ta[k..] == tb[k..] else k == |ta|)
  {
    var got := ta[..k] + (if k <= |tb| then tb[k..] else []);
    assert got[..k] == ta[..k] && ta == ta[..k] + ta[k..];
    if k <= |tb| {
      assert got[k..] == tb[k..] && tb == tb[..k] + tb[k..];
    }
  }

  /** Cut between two bytes, and with buffers of one length, what is collected is a text: that of a buffer
      that never was. */
  lemma MixtureIsText(a: seq<byte>, b: seq<byte>, j: nat, n: nat)
    requires |a| == |b| && j <= |a| && 3 * |a| + 1 <= 3 * j + n
    ensures Collected([RawText(a), RawText(b)], 0, [3 * j, n]) == RawText(a[..j] + b[j..])
  {
    hide HexDump, SamePrefix, SameSuffix, RawText, Collected;
    TransferBetweenReads(a, b, 3 * j, n);
    CutBetweenBytes(a, j);
    CutBetweenBytes(b, j);
    CutBetweenBytes(a[..j] + b[j..], j);
    var mix := a[..j] + b[j..];
    assert mix[..j] == a[..j] && mix[j..] == b[j..];
    assert RawText(mix) == RawText(mix)[..3 * j] + RawText(mix)[3 * j..];
  }

  lemma CutBetweenBytes(s: seq<byte>, j: nat)
    requires j <= |s|
    ensures RawText(s)[..3 * j] == HexDump(s[..j]) && RawText(s)[3 * j..] == RawText(s[j..])
  {
    hide HexDump;
    HexDumpAppend(s[..j], s[j..]);
    assert s[..j] + s[j..] == s;
    assert RawText(s) == HexDump(s[..j]) + RawText(s[j..]);
  }

  /** A failed body transfer leaves the old length over new bytes: after a two-byte transfer that
      brought 01 02, a receive that fails one byte into its body makes the next read print 07 02. */
  method StaleRead() returns (text: seq<byte>)
    ensures text == RawText([7, 2])
  {
    hide ParseRaw, RecvHeader, RawText;
    var g := new Gxfp();
    var header := [0xA0, 2, 0, 0xA2];
    OneTwoParses();
    TwoByteHeader();
    var r := g.RawWrite([49, 32, 50], 0, 0, [1, 2] + Repeat(0, BUF_MAX), 0);
    assert g.rxlen == 2 && g.rxbuf[..][0] == g.rxbuf[0] == 1 && g.rxbuf[..][1] == g.rxbuf[1] == 2;
    r := g.Recv(Answer(0, header, -5, [7, 8] + Repeat(0, BUF_MAX), 1));
    assert g.rxbuf[..][0] == g.rxbuf[0] == 7 && g.rxbuf[..][1] == g.rxbuf[1] == 2;
    assert g.rxbuf[..2] == [7, 2];
    r, text := g.RawRead(0, 100, true);
  }

  lemma TwoByteHeader()
    ensures RecvHeader(0, [0xA0, 2, 0, 0xA2]) == 2
  {
  }

  lemma OneTwoParses()
    ensures ParseRaw([49, 32, 50]) == Some([1, 2])
  {
    hide Kstrtouint, FirstDelim, Strim, CString, Tokens;
    var w: seq<byte> := [49, 32, 50];
    assert HexDigit(1) == 49 && HexDigit(2) == 50;
    NothingToTrim(w);
    DigitToken(1, [50]);
    DigitToken(2, []);
    assert w == [49] + [32] + [50];
    assert w[..1] == [49] && w[2..] == [50];
    TokensStep(w);
    TokensStep([50]);
    TokenCount(None);
    var t1: seq<byte>, t2: seq<byte> := [49], [50];
    var both: seq<seq<byte>>, last: seq<seq<byte>> := [t1, t2], [t2];
    assert Tokens(Some(t2)) == last;
    assert Tokens(Some(w)) == both;
    assert both[1..] == last && last[1..] == [];
    assert ParseTokens(last) == Some([2] + []);
    assert ParseTokens(both) == Some([1] + ([2] + []));
    assert [1] + ([2] + []) == [1, 2];
  }
}
