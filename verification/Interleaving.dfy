/** Every interleaving of the interrupt handler of kernel/gxfp.c with any number of threads inside the
    `cmd` and `raw` files. One step is one shared-memory access: the handler's three actions, one byte
    of a transfer, one token stored by the `raw` parser, one byte formatted by a `raw` read. */
module Interleaving {
  import opened Bytes
  import opened Codec
  import opened Wire
  import opened HexText
  import opened Driver

  /** The threaded, one-shot handler: it does not overlap itself. */
  datatype Isr = IsrIdle | IsrCounted(n: nat) | IsrWoken(n: nat)

  /** Where a thread stands. From CmdClear to Unlock, and only there, it holds the mutex. */
  datatype Pc =
    | Idle
    | WantCmd(c: Command)
    | CmdClear(c: Command)
    | CmdSend(c: Command)
    | CmdSendBody(c: Command)
    | CmdWait(c: Command)
    | CmdHeader(c: Command)
    | CmdBody(c: Command, n: nat, i: nat)
    | RawParse(bytes: seq<byte>, i: nat)
    | WantRaw(bytes: seq<byte>)
    | RawTransfer(bytes: seq<byte>, wire: seq<byte>)
    | WantRead
    | ReadFormat(snap: seq<byte>, i: nat, out: seq<byte>)
    | Unlock

  /** A finished `raw` read: the text, the buffer contents when the mutex was taken, the bytes of the
      last completed transfer, and whether an unfinished one has scribbled over them since. */
  datatype Read = Read(text: seq<byte>, snap: seq<byte>, good: seq<byte>, torn: bool)

  /** A finished `raw` transfer: the bytes written to the file and the bytes put on the bus. */
  datatype Transfer = Transfer(given: seq<byte>, wire: seq<byte>)

  /** What a thread has put on the bus by the time it leaves the mutex: a command's frame and the reads
      that looked for its answer, the header of a frame whose body transfer failed, or a `raw` transfer. */
  datatype Unit = Exchange(c: Command, got: seq<nat>) | Half(c: Command) | Raw(wire: seq<byte>)

  datatype State = State(
    irqCount: nat, isr: Isr, dataReady: bool, irqMasked: bool, disables: nat,
    owner: Option<nat>, pcs: seq<Pc>,
    txbuf: seq<byte>, rxbuf: seq<byte>, rxlen: nat,
    good: seq<byte>, torn: bool, served: seq<Read>, transfers: seq<Transfer>,
    bus: seq<seq<byte>>, units: seq<Unit>)

  /** What the environment decides in a step: success of a bus operation, a byte that arrives, a length
      announced by a header. */
  datatype Env = Env(ok: bool, b: byte, n: nat)

  datatype Step =
    | Interrupt
    | StartCmd(t: nat, c: Command)
    | StartRaw(t: nat, bytes: seq<byte>)
    | StartRead(t: nat)
    | Lock(t: nat)
    | Go(t: nat, env: Env)

  predicate Holds(pc: Pc) {
    !(pc.Idle? || pc.WantCmd? || pc.RawParse? || pc.WantRaw? || pc.WantRead?)
  }

  predicate Init(s: State) {
    && s.irqCount == 0 && s.isr.IsrIdle? && !s.dataReady && !s.irqMasked && s.disables == 0
    && s.owner.None? && (forall t :: 0 <= t < |s.pcs| ==> s.pcs[t].Idle?)
    && |s.txbuf| == BUF_MAX && |s.rxbuf| == BUF_MAX && s.rxlen == 0
    && s.good == [] && !s.torn && s.served == [] && s.transfers == [] && s.bus == [] && s.units == []
  }

  //////////////////////////////////////////////////////////////////////////////
  // Steps
  //////////////////////////////////////////////////////////////////////////////

  /** A command or a `raw` write starts only with what some text written to its file denotes. */
  ghost predicate Enabled(s: State, step: Step) {
    match step
    case Interrupt => s.isr.IsrIdle? ==> s.disables == 0
    case StartCmd(t, c) => t < |s.pcs| && s.pcs[t].Idle? && c.checksum && |c.payload| <= PAYLOAD_MAX
    case StartRaw(t, bytes) => t < |s.pcs| && s.pcs[t].Idle? && Writable(bytes)
    case StartRead(t) => t < |s.pcs| && s.pcs[t].Idle?
    case Lock(t) => t < |s.pcs| && s.owner.None? && (s.pcs[t].WantCmd? || s.pcs[t].WantRaw? || s.pcs[t].WantRead?)
    case Go(t, env) => t < |s.pcs| && (Holds(s.pcs[t]) || s.pcs[t].RawParse?)
  }

  /** `gxfp_isr`: count, wake, and mask the line when this was interrupt number 200. */
  function Interrupted(s: State): State {
    match s.isr
    case IsrIdle => s.(irqCount := s.irqCount + 1, isr := IsrCounted(s.irqCount + 1))
    case IsrCounted(n) => s.(dataReady := true, isr := IsrWoken(n))
    case IsrWoken(n) =>
      if n == IRQ_STORM && !s.irqMasked then s.(irqMasked := true, disables := s.disables + 1, isr := IsrIdle)
      else s.(isr := IsrIdle)
  }

  function At(s: State, t: nat, pc: Pc): State
    requires t < |s.pcs|
  {
    s.(pcs := s.pcs[t := pc])
  }

  function Locked(s: State, t: nat): State
    requires t < |s.pcs|
  {
    var s' := s.(owner := Some(t));
    match s.pcs[t]
    case WantCmd(c) => At(s', t, CmdClear(c))
    case WantRaw(bytes) => At(s', t, RawTransfer(bytes, []))
    case _ =>
      if s.rxlen <= |s.rxbuf| then At(s', t, ReadFormat(s.rxbuf[..s.rxlen], 0, Repeat(0, 3 * s.rxlen + 2)))
      else s'
  }

  /** A byte of a transfer reaches the receive buffer. */
  function Receive(s: State, i: nat, b: byte): State {
    if i < |s.rxbuf| then s.(rxbuf := s.rxbuf[i := b], torn := true) else s
  }

  /** A transfer of n bytes has completed. */
  function Complete(s: State, n: nat): State {
    if n <= |s.rxbuf| then s.(rxlen := n, good := s.rxbuf[..n], torn := false) else s
  }

  /** sprintf(out + 3 * i, "%02x ", b), terminating NUL included */
  function Format(out: seq<byte>, i: nat, b: byte): (r: seq<byte>)
    requires 3 * i + 3 < |out|
    ensures |r| == |out|
  {
    out[3 * i := Hex2(b)[0]][3 * i + 1 := Hex2(b)[1]][3 * i + 2 := 32][3 * i + 3 := 0]
  }

  /** The first of the two transactions of a command's frame. */
  function HeaderOf(c: Command): seq<byte> {
    SpiHeader(|Body(c)|, PKT_MSG, 0)
  }

  /** A command is over, after reads of the given lengths. */
  function Answered(s: State, c: Command, got: seq<nat>): State {
    s.(units := s.units + [Exchange(c, got)])
  }

  /** The body of `gxfp_cmd_write` under the mutex: the shared state it leaves and where it stands next. */
  function CmdNext(s: State, pc: Pc, env: Env): (State, Pc) {
    match pc
    case CmdClear(c) => (s.(dataReady := false), CmdSend(c))
    case CmdSend(c) =>
      if !env.ok then (s, Unlock) else (s.(bus := s.bus + [HeaderOf(c)]), CmdSendBody(c))
    case CmdSendBody(c) =>
      if !env.ok then (s.(units := s.units + [Half(c)]), Unlock)
      else (s.(bus := s.bus + [Body(c)]), CmdWait(c))
    case CmdWait(c) => (s, CmdHeader(c))
    case CmdHeader(c) =>
      if !env.ok then (Answered(s, c, []), Unlock)
      else
        var s' := s.(bus := s.bus + [Repeat(0, 4)]);
        if 0 < env.n <= BUF_MAX then (s', CmdBody(c, env.n, 0)) else (Answered(s', c, [4]), Unlock)
    case CmdBody(c, n, i) =>
      if !env.ok then (Answered(s, c, [4]), Unlock)
      else if i < n then (Receive(s, i, env.b), CmdBody(c, n, i + 1))
      else (Answered(Complete(s, n).(bus := s.bus + [Repeat(0, n)]), c, [4, n]), Unlock)
    case _ => (s, pc)
  }

  /** `gxfp_raw_write`: tokens go straight into the shared transmit buffer, then the mutex is taken. */
  function RawNext(s: State, pc: Pc, env: Env): (State, Pc) {
    match pc
    case RawParse(bytes, i) =>
      if !env.ok then (s, Idle)
      else if i < |bytes| && i < |s.txbuf| then (s.(txbuf := s.txbuf[i := bytes[i]]), RawParse(bytes, i + 1))
      else (s, WantRaw(bytes))
    case RawTransfer(bytes, wire) =>
      var i := |wire|;
      if !env.ok then (s.(rxlen := 0, good := [], torn := false), Unlock)
      else if i < |bytes| && i < |s.txbuf| then (Receive(s, i, env.b), RawTransfer(bytes, wire + [s.txbuf[i]]))
      else
        var done := Complete(s, |bytes|);
        var t := Transfer(bytes, wire);
        (done.(transfers := s.transfers + [t], bus := s.bus + [wire], units := s.units + [Raw(wire)]), Unlock)
    case _ => (s, pc)
  }

  function CmdStep(s: State, t: nat, env: Env): State
    requires t < |s.pcs|
  {
    var (s', pc) := CmdNext(s, s.pcs[t], env);
    s'.(pcs := s.pcs[t := pc])
  }

  function RawStep(s: State, t: nat, env: Env): State
    requires t < |s.pcs|
  {
    var (s', pc) := RawNext(s, s.pcs[t], env);
    s'.(pcs := s.pcs[t := pc])
  }

  /** `gxfp_raw_read` formats one byte, or ends the text. */
  function ReadStep(s: State, t: nat): State
    requires t < |s.pcs| && s.pcs[t].ReadFormat?
  {
    var ReadFormat(snap, i, out) := s.pcs[t];
    if i < |snap| && i < |s.rxbuf| && 3 * i + 3 < |out| then
      At(s, t, ReadFormat(snap, i + 1, Format(out, i, s.rxbuf[i])))
    else if 3 * |snap| < |out| then
      At(s.(served := s.served + [Read(out[3 * |snap| := 10][..3 * |snap| + 1], snap, s.good, s.torn)]), t, Unlock)
    else s
  }

  function Advanced(s: State, t: nat, env: Env): State
    requires t < |s.pcs|
  {
    if s.pcs[t].Unlock? then At(s.(owner := None), t, Idle)
    else if s.pcs[t].ReadFormat? then ReadStep(s, t)
    else if Writing(s.pcs[t]) then RawStep(s, t, env)
    else CmdStep(s, t, env)
  }

  /** The thread is between its first stored token and the end of its transfer. */
  predicate Writing(pc: Pc) {
    pc.RawParse? || pc.WantRaw? || pc.RawTransfer?
  }

  function Apply(s: State, step: Step): State
    requires Enabled(s, step)
  {
    match step
    case Interrupt => Interrupted(s)
    case StartCmd(t, c) => At(s, t, WantCmd(c))
    case StartRaw(t, bytes) => At(s, t, RawParse(bytes, 0))
    case StartRead(t) => At(s, t, WantRead)
    case Lock(t) => Locked(s, t)
    case Go(t, env) => Advanced(s, t, env)
  }

  //////////////////////////////////////////////////////////////////////////////
  // What every step keeps
  //////////////////////////////////////////////////////////////////////////////

  predicate IrqInv(s: State) {
    && s.irqCount <= IRQ_STORM
    && s.disables == (if s.irqMasked then 1 else 0)
    && (s.irqMasked <==> s.irqCount == IRQ_STORM && s.isr.IsrIdle?)
    && (!s.isr.IsrIdle? ==> s.isr.n == s.irqCount)
  }

  predicate BufInv(s: State) {
    && |s.txbuf| == BUF_MAX && |s.rxbuf| == BUF_MAX && s.rxlen <= BUF_MAX
    && (!s.torn ==> s.rxbuf[..s.rxlen] == s.good)
  }

  /** A thread's own data; only a reader, which holds the mutex, depends on the shared buffer. */
  predicate PcInv(pc: Pc, rxbuf: seq<byte>, rxlen: nat) {
    match pc
    case CmdBody(c, n, i) => i <= n <= BUF_MAX
    case RawParse(bytes, i) => i <= |bytes| <= BUF_MAX && bytes != []
    case WantRaw(bytes) => 0 < |bytes| <= BUF_MAX
    case RawTransfer(bytes, wire) => |wire| <= |bytes| <= BUF_MAX && bytes != []
    case ReadFormat(snap, i, out) =>
      && rxlen == |snap| <= |rxbuf| && rxbuf[..rxlen] == snap
      && i <= |snap| && |out| == 3 * |snap| + 2
      && out[..3 * i] == HexDump(snap[..i])
    case _ => true
  }

  predicate ThreadInv(s: State) {
    forall t :: 0 <= t < |s.pcs| ==>
      (Holds(s.pcs[t]) <==> s.owner == Some(t)) && PcInv(s.pcs[t], s.rxbuf, s.rxlen)
  }

  predicate ReadExact(r: Read) {
    r.text == RawText(r.snap) && (!r.torn ==> r.snap == r.good)
  }

  predicate Inv(s: State) {
    IrqInv(s) && BufInv(s) && ThreadInv(s) && ServedInv(s)
  }

  lemma InitInv(s: State)
    requires Init(s)
    ensures Inv(s)
  {
  }

  /** A step of thread t that leaves the mutex and the reader's view alone. */
  lemma ThreadStep(s: State, s': State, t: nat, pc: Pc)
    requires ThreadInv(s) && t < |s.pcs| && s'.pcs == s.pcs[t := pc] && s'.owner == s.owner
    requires Holds(pc) == Holds(s.pcs[t]) && PcInv(pc, s'.rxbuf, s'.rxlen)
    requires Holds(s.pcs[t]) || (s'.rxbuf == s.rxbuf && s'.rxlen == s.rxlen)
    ensures ThreadInv(s')
  {
    hide HexDump;
    forall u | 0 <= u < |s'.pcs|
      ensures (Holds(s'.pcs[u]) <==> s'.owner == Some(u)) && PcInv(s'.pcs[u], s'.rxbuf, s'.rxlen)
    {
      if u != t {
        assert s'.pcs[u] == s.pcs[u];
        assert Holds(s.pcs[u]) <==> s.owner == Some(u);
        if Holds(s.pcs[t]) {
          assert s.owner == Some(t);
          assert !s.pcs[u].ReadFormat?;
        }
      }
    }
  }

  lemma FormatStep(snap: seq<byte>, i: nat, out: seq<byte>)
    requires i < |snap| && |out| == 3 * |snap| + 2 && out[..3 * i] == HexDump(snap[..i])
    ensures Format(out, i, snap[i])[..3 * (i + 1)] == HexDump(snap[..i + 1])
  {
    hide Hex2;
    var r := Format(out, i, snap[i]);
    HexDumpSnoc(snap[..i], snap[i]);
    assert snap[..i + 1] == snap[..i] + [snap[i]];
    assert r[..3 * (i + 1)] == r[..3 * i] + [r[3 * i], r[3 * i + 1], r[3 * i + 2]];
    assert r[..3 * i] == out[..3 * i];
    assert Hex2(snap[i]) == [Hex2(snap[i])[0], Hex2(snap[i])[1]];
  }

  predicate ServedInv(s: State) {
    forall k :: 0 <= k < |s.served| ==> ReadExact(s.served[k])
  }

  /** What a step of one thread leaves alone. */
  predicate SameElsewhere(s: State, s': State, t: nat)
    requires t < |s.pcs|
  {
    && |s'.pcs| == |s.pcs| && s'.pcs == s.pcs[t := s'.pcs[t]]
    && s'.irqCount == s.irqCount && s'.isr == s.isr && s'.irqMasked == s.irqMasked && s'.disables == s.disables
    && (s'.dataReady ==> s.dataReady)
  }

  /** The fields that a byte of a transfer, or its end, can touch. */
  lemma ReceiveFrame(s: State, b: byte)
    ensures forall i: nat :: var r := Receive(s, i, b); r == s.(rxbuf := r.rxbuf, torn := r.torn)
    ensures forall n: nat :: var r := Complete(s, n); r == s.(rxlen := r.rxlen, good := r.good, torn := r.torn)
  {
  }

  lemma CmdNextFrame(s: State, pc: Pc, env: Env)
    ensures var s' := CmdNext(s, pc, env).0;
            s' == s.(dataReady := s'.dataReady, rxbuf := s'.rxbuf, rxlen := s'.rxlen, good := s'.good,
                     torn := s'.torn, bus := s'.bus, units := s'.units)
    ensures CmdNext(s, pc, env).0.dataReady ==> s.dataReady
    ensures CmdNext(s, pc, env).1 == pc || !Writing(CmdNext(s, pc, env).1)
  {
    hide Body, HeaderOf, Repeat, Receive, Complete;
    ReceiveFrame(s, env.b);
  }

  lemma CmdStepFrame(s: State, t: nat, env: Env)
    requires t < |s.pcs|
    ensures var s' := CmdStep(s, t, env);
            && SameElsewhere(s, s', t) && s'.owner == s.owner && s'.served == s.served
            && s'.txbuf == s.txbuf && s'.transfers == s.transfers
            && (s'.pcs[t] == s.pcs[t] || !Writing(s'.pcs[t]))
  {
    hide CmdNext, Writing;
    CmdNextFrame(s, s.pcs[t], env);
    var s' := CmdStep(s, t, env);
    assert s'.pcs == s.pcs[t := s'.pcs[t]];
  }

  lemma RawStepFrame(s: State, t: nat, env: Env)
    requires t < |s.pcs|
    ensures var s' := RawStep(s, t, env);
            SameElsewhere(s, s', t) && s'.owner == s.owner && s'.served == s.served
  {
    var s' := RawStep(s, t, env);
    assert s'.pcs == s.pcs[t := s'.pcs[t]];
  }

  lemma ReadStepFrame(s: State, t: nat)
    requires t < |s.pcs| && s.pcs[t].ReadFormat?
    ensures var s' := ReadStep(s, t);
            && SameElsewhere(s, s', t) && s'.owner == s.owner
            && s'.txbuf == s.txbuf && s'.transfers == s.transfers && !Writing(s'.pcs[t])
  {
    hide Format;
    var s' := ReadStep(s, t);
    assert s'.pcs == s.pcs[t := s'.pcs[t]];
  }

  /** Two invariants that survive any step of this shape. */
  lemma QuietInvariants(s: State, s': State, t: nat)
    requires Inv(s) && t < |s.pcs| && SameElsewhere(s, s', t) && s'.served == s.served
    ensures IrqInv(s') && ServedInv(s')
  {
    hide ThreadInv, BufInv, ReadExact;
    QuietIrq(s, s', t);
  }

  lemma QuietIrq(s: State, s': State, t: nat)
    requires IrqInv(s) && t < |s.pcs| && SameElsewhere(s, s', t)
    ensures IrqInv(s')
  {
  }

  lemma ServedUnchanged(s: State, s': State)
    requires ServedInv(s) && s'.served == s.served
    ensures ServedInv(s')
  {
  }

  lemma TransferKeepsBuf(s: State, b: byte)
    requires BufInv(s)
    ensures forall i: nat :: BufInv(Receive(s, i, b))
    ensures forall n: nat :: n <= BUF_MAX ==> BufInv(Complete(s, n))
  {
  }

  lemma SameBuf(s: State, s': State)
    requires BufInv(s) && s'.txbuf == s.txbuf && s'.rxbuf == s.rxbuf && s'.rxlen == s.rxlen
    requires s'.good == s.good && s'.torn == s.torn
    ensures BufInv(s')
  {
  }

  lemma CmdBufInv(s: State, t: nat, env: Env)
    requires BufInv(s) && t < |s.pcs| && PcInv(s.pcs[t], s.rxbuf, s.rxlen)
    ensures BufInv(CmdStep(s, t, env))
    ensures var s' := CmdStep(s, t, env); !s.pcs[t].ReadFormat? ==> PcInv(s'.pcs[t], s'.rxbuf, s'.rxlen)
  {
    hide Body, HeaderOf, Repeat, BufInv, Receive, Complete, HexDump;
    TransferKeepsBuf(s, env.b);
    var pc, s' := s.pcs[t], CmdStep(s, t, env);
    if pc.CmdBody? && env.ok && pc.i < pc.n {
      SameBuf(Receive(s, pc.i, env.b), s');
    } else if pc.CmdBody? && env.ok {
      SameBuf(Complete(s, pc.n), s');
    } else {
      SameBuf(s, s');
    }
  }

  lemma RawBufInv(s: State, t: nat, env: Env)
    requires BufInv(s) && t < |s.pcs| && PcInv(s.pcs[t], s.rxbuf, s.rxlen)
    ensures BufInv(RawStep(s, t, env))
    ensures var s' := RawStep(s, t, env); !s.pcs[t].ReadFormat? ==> PcInv(s'.pcs[t], s'.rxbuf, s'.rxlen)
  {
  }

  lemma CmdStepKeepsInv(s: State, t: nat, env: Env)
    requires Inv(s) && t < |s.pcs| && Holds(s.pcs[t])
    requires !s.pcs[t].Unlock? && !s.pcs[t].ReadFormat? && !Writing(s.pcs[t])
    ensures Inv(CmdStep(s, t, env))
  {
    hide ThreadInv, ServedInv, IrqInv, BufInv, PcInv;
    var s' := CmdStep(s, t, env);
    ThreadAt(s, t);
    CmdBufInv(s, t, env);
    CmdStepFrame(s, t, env);
    ThreadStep(s, s', t, s'.pcs[t]);
    QuietInvariants(s, s', t);
  }

  lemma RawStepKeepsInv(s: State, t: nat, env: Env)
    requires Inv(s) && t < |s.pcs| && (s.pcs[t].RawParse? || s.pcs[t].RawTransfer?)
    ensures Inv(RawStep(s, t, env))
  {
    hide ThreadInv, ServedInv, IrqInv, BufInv, PcInv;
    var s' := RawStep(s, t, env);
    ThreadAt(s, t);
    RawBufInv(s, t, env);
    RawStepFrame(s, t, env);
    ThreadStep(s, s', t, s'.pcs[t]);
    QuietInvariants(s, s', t);
  }

  lemma ReadStepKeepsInv(s: State, t: nat)
    requires Inv(s) && t < |s.pcs| && s.pcs[t].ReadFormat?
    ensures Inv(ReadStep(s, t))
  {
    hide ThreadInv, IrqInv, HexDump, Format;
    var s' := ReadStep(s, t);
    var ReadFormat(snap, i, out) := s.pcs[t];
    ThreadAt(s, t);
    if i < |snap| {
      assert s.rxbuf[i] == s.rxbuf[..s.rxlen][i] == snap[i];
      FormatStep(snap, i, out);
      assert 3 * i + 3 < |out|;
    } else {
      assert snap[..i] == snap;
      assert out[3 * i := 10][..3 * i + 1] == out[..3 * i] + [10];
    }
    ThreadStep(s, s', t, s'.pcs[t]);
    ReadStepFrame(s, t);
    QuietIrq(s, s', t);
  }

  lemma UnlockKeepsInv(s: State, t: nat)
    requires Inv(s) && t < |s.pcs| && s.pcs[t].Unlock?
    ensures Inv(At(s.(owner := None), t, Idle))
  {
    hide HexDump;
    var s' := At(s.(owner := None), t, Idle);
    ThreadAt(s, t);
    forall u | 0 <= u < |s'.pcs|
      ensures (Holds(s'.pcs[u]) <==> s'.owner == Some(u)) && PcInv(s'.pcs[u], s'.rxbuf, s'.rxlen)
    {
      assert Holds(s.pcs[u]) <==> s.owner == Some(u);
    }
  }

  lemma ThreadAt(s: State, t: nat)
    requires ThreadInv(s) && t < |s.pcs|
    ensures (Holds(s.pcs[t]) <==> s.owner == Some(t)) && PcInv(s.pcs[t], s.rxbuf, s.rxlen)
  {
  }

  lemma LockedKeepsInv(s: State, t: nat)
    requires Inv(s) && t < |s.pcs| && s.owner.None?
    requires s.pcs[t].WantCmd? || s.pcs[t].WantRaw? || s.pcs[t].WantRead?
    ensures Inv(Locked(s, t))
  {
    hide Repeat, HexDump, ServedInv, ThreadInv;
    var s' := Locked(s, t);
    ThreadAt(s, t);
    assert HexDump([]) == [] by { EmptyDump(); }
    assert s'.pcs == s.pcs[t := s'.pcs[t]] && Holds(s'.pcs[t]);
    ServedUnchanged(s, s');
    LockStep(s, s', t);
  }

  /** Taking the free mutex. */
  lemma LockStep(s: State, s': State, t: nat)
    requires ThreadInv(s) && s.owner.None? && t < |s.pcs| && |s'.pcs| == |s.pcs| && s'.pcs == s.pcs[t := s'.pcs[t]]
    requires s'.owner == Some(t) && Holds(s'.pcs[t]) && s'.rxbuf == s.rxbuf && s'.rxlen == s.rxlen
    requires PcInv(s'.pcs[t], s.rxbuf, s.rxlen)
    ensures ThreadInv(s')
  {
    hide PcInv;
    forall u | 0 <= u < |s'.pcs|
      ensures (Holds(s'.pcs[u]) <==> s'.owner == Some(u)) && PcInv(s'.pcs[u], s'.rxbuf, s'.rxlen)
    {
      assert Holds(s.pcs[u]) <==> s.owner == Some(u);
    }
  }

  lemma InterruptKeepsInv(s: State)
    requires Inv(s) && Enabled(s, Interrupt)
    ensures Inv(Interrupted(s))
  {
    hide PcInv, ReadExact, Holds;
  }

  /** Starting an operation changes only the thread's own position. */
  lemma StartKeepsInv(s: State, t: nat, pc: Pc)
    requires Inv(s) && t < |s.pcs| && s.pcs[t].Idle? && !Holds(pc) && PcInv(pc, s.rxbuf, s.rxlen)
    ensures Inv(At(s, t, pc))
  {
    hide PcInv, ReadExact, IrqInv, ThreadInv;
    var s' := At(s, t, pc);
    ThreadStep(s, s', t, pc);
    assert IrqInv(s') by { QuietIrq(s, s', t); }
  }

  lemma StepKeepsInv(s: State, step: Step)
    requires Inv(s) && Enabled(s, step)
    ensures Inv(Apply(s, step))
  {
    hide HexDump, BufInv, ServedInv, ThreadInv;
    match step
    case Interrupt => InterruptKeepsInv(s);
    case StartCmd(t, c) => StartKeepsInv(s, t, WantCmd(c));
    case StartRaw(t, bytes) =>
      WritableLengths(bytes);
      StartKeepsInv(s, t, RawParse(bytes, 0));
    case StartRead(t) => StartKeepsInv(s, t, WantRead);
    case Lock(t) => LockedKeepsInv(s, t);
    case Go(t, env) =>
      hide CmdStep, RawStep, ReadStep;
      if s.pcs[t].Unlock? {
        UnlockKeepsInv(s, t);
      } else if s.pcs[t].ReadFormat? {
        ReadStepKeepsInv(s, t);
      } else if Writing(s.pcs[t]) {
        RawStepKeepsInv(s, t, env);
      } else {
        CmdStepKeepsInv(s, t, env);
      }
  }

  //////////////////////////////////////////////////////////////////////////////
  // Whole runs
  //////////////////////////////////////////////////////////////////////////////

  ghost predicate IsRun(states: seq<State>, steps: seq<Step>) {
    && |states| == |steps| + 1
    && Init(states[0])
    && forall k :: 0 <= k < |steps| ==> Enabled(states[k], steps[k]) && states[k + 1] == Apply(states[k], steps[k])
  }

  lemma {:induction false} RunInv(states: seq<State>, steps: seq<Step>, k: nat)
    requires IsRun(states, steps) && k < |states|
    ensures Inv(states[k])
  {
    hide Init, Inv, Enabled, Apply;
    if k == 0 {
      InitInv(states[0]);
    } else {
      RunInv(states, steps, k - 1);
      StepKeepsInv(states[k - 1], steps[k - 1]);
    }
  }

  /** In every state of every run: at most 200 interrupts are counted, the line has been disabled at most
      once and has been exactly when the 200th handler is through, the receive length stays within the
      buffer, at most one thread is inside the mutex, and every read served the text of the buffer as it stood
      when the mutex was taken. That is the text of the last completed transfer if and only if the buffer
      still held its bytes, as it does unless an unfinished transfer has been at it. */
  lemma RunsAreSafe(states: seq<State>, steps: seq<Step>, k: nat)
    requires IsRun(states, steps) && k < |states|
    ensures var s := states[k];
            && s.irqCount <= 200 && s.disables <= 1
            && (s.disables == 1 <==> s.irqCount == 200 && s.isr.IsrIdle?)
            && s.rxlen <= 4096
            && (forall t, u :: 0 <= t < u < |s.pcs| ==> !(Holds(s.pcs[t]) && Holds(s.pcs[u])))
            && (forall r :: r in s.served ==>
                  && r.text == RawText(r.snap)
                  && (r.text == RawText(r.good) <==> r.snap == r.good)
                  && (!r.torn ==> r.snap == r.good))
  {
    hide RawText, Init, Enabled, Apply, PcInv;
    RunInv(states, steps, k);
    var s := states[k];
    forall t, u | 0 <= t < u < |s.pcs|
      ensures !(Holds(s.pcs[t]) && Holds(s.pcs[u]))
    {
      assert Holds(s.pcs[t]) <==> s.owner == Some(t);
      assert Holds(s.pcs[u]) <==> s.owner == Some(u);
    }
    forall r | r in s.served
      ensures r.text == RawText(r.snap)
      ensures r.text == RawText(r.good) <==> r.snap == r.good
      ensures !r.torn ==> r.snap == r.good
    {
      RawTextInjective(r.snap, r.good);
      var j :| 0 <= j < |s.served| && s.served[j] == r;
      assert ReadExact(s.served[j]);
    }
  }

  /** Once the line is disabled nothing re-arms it: the count stands still and `data_ready` can only be
      cleared, so every command that starts afterwards waits out its timeout. */
  lemma {:induction false} DisabledForGood(states: seq<State>, steps: seq<Step>, i: nat, j: nat)
    requires IsRun(states, steps) && i <= j < |states| && states[i].disables == 1
    ensures states[j].disables == 1 && states[j].irqCount == 200 && states[j].isr.IsrIdle?
    ensures states[j].dataReady ==> states[i].dataReady
    decreases j
  {
    hide Init, ThreadInv, BufInv, ServedInv, Apply;
    RunInv(states, steps, j);
    if i < j {
      DisabledForGood(states, steps, i, j - 1);
      DisabledStep(states[j - 1], steps[j - 1]);
    }
  }

  lemma DisabledStep(s: State, step: Step)
    requires Enabled(s, step) && s.disables == 1 && s.isr.IsrIdle?
    ensures var s' := Apply(s, step);
            s'.disables == 1 && s'.isr.IsrIdle? && s'.irqCount == s.irqCount && (s'.dataReady ==> s.dataReady)
  {
    hide Holds, CmdStep, RawStep, ReadStep, Repeat;
    if step.Go? {
      CmdStepFrame(s, step.t, step.env);
      RawStepFrame(s, step.t, step.env);
      if s.pcs[step.t].ReadFormat? {
        ReadStepFrame(s, step.t);
      }
    }
  }

  /** After the storm, a command that has cleared `data_ready` never sees it set. */
  lemma CommandsTimeOutAfterStorm(states: seq<State>, steps: seq<Step>, i: nat, t: nat, env: Env, j: nat)
    requires IsRun(states, steps) && i < |steps| && states[i].disables == 1
    requires steps[i] == Go(t, env) && states[i].pcs[t].CmdClear?
    requires i < j < |states|
    ensures !states[j].dataReady
  {
    hide Init, Inv;
    assert Enabled(states[i], steps[i]) && states[i + 1] == Apply(states[i], steps[i]);
    DisabledForGood(states, steps, i, i + 1);
    DisabledForGood(states, steps, i + 1, j);
  }

  //////////////////////////////////////////////////////////////////////////////
  // Frames are never torn on the bus
  //////////////////////////////////////////////////////////////////////////////

  function Transactions(u: Unit): (ts: seq<seq<byte>>)
    ensures ts != []
  {
    match u
    case Exchange(c, got) => Frame(Body(c)) + Reads(got)
    case Half(c) => [HeaderOf(c)]
    case Raw(wire) => [wire]
  }

  function Render(us: seq<Unit>): seq<seq<byte>> {
    if us == [] then [] else Transactions(us[0]) + Render(us[1..])
  }

  lemma {:induction false} RenderSnoc(us: seq<Unit>, u: Unit)
    ensures Render(us + [u]) == Render(us) + Transactions(u)
  {
    hide Transactions;
    if us == [] {
      assert [] + [u] == [u] && [u][1..] == [];
      assert Transactions(u) + [] == [] + Transactions(u);
    } else {
      RenderSnoc(us[1..], u);
      assert (us + [u])[1..] == us[1..] + [u] && (us + [u])[0] == us[0];
      var a, b, c := Transactions(us[0]), Render(us[1..]), Transactions(u);
      assert a + (b + c) == a + b + c;
    }
  }

  /** What a thread has put on the bus since it took the mutex, until that is recorded as a unit. */
  function BusTail(pc: Pc): seq<seq<byte>> {
    match pc
    case CmdSendBody(c) => [HeaderOf(c)]
    case CmdWait(c) => Frame(Body(c))
    case CmdHeader(c) => Frame(Body(c))
    case CmdBody(c, n, i) => Frame(Body(c)) + [Repeat(0, 4)]
    case _ => []
  }

  /** Seen from inside the mutex, the bus carries the finished units and the unit under way. */
  predicate BusAt(pc: Pc, bus: seq<seq<byte>>, units: seq<Unit>) {
    bus == Render(units) + BusTail(pc)
  }

  predicate BusInv(s: State) {
    && (s.owner.None? ==> s.bus == Render(s.units))
    && (forall t :: 0 <= t < |s.pcs| && Holds(s.pcs[t]) ==> BusAt(s.pcs[t], s.bus, s.units))
  }

  predicate SmallPayload(pc: Pc) {
    match pc
    case WantCmd(c) => |c.payload| <= PAYLOAD_MAX
    case CmdClear(c) => |c.payload| <= PAYLOAD_MAX
    case CmdSend(c) => |c.payload| <= PAYLOAD_MAX
    case CmdSendBody(c) => |c.payload| <= PAYLOAD_MAX
    case CmdWait(c) => |c.payload| <= PAYLOAD_MAX
    case CmdHeader(c) => |c.payload| <= PAYLOAD_MAX
    case CmdBody(c, n, i) => |c.payload| <= PAYLOAD_MAX
    case _ => true
  }

  predicate SmallUnit(u: Unit) {
    !u.Raw? ==> |u.c.payload| <= PAYLOAD_MAX
  }

  predicate SmallInv(s: State) {
    && (forall t :: 0 <= t < |s.pcs| ==> SmallPayload(s.pcs[t]))
    && (forall k :: 0 <= k < |s.units| ==> SmallUnit(s.units[k]))
  }

  /** At most one unit is added, with a payload that `cmd` can produce. */
  predicate Appends(us: seq<Unit>, us': seq<Unit>) {
    us' == us || (|us'| == |us| + 1 && us'[..|us|] == us && SmallUnit(us'[|us|]))
  }

  lemma UnitDone(bus: seq<seq<byte>>, units: seq<Unit>, u: Unit)
    requires bus == Render(units) + Transactions(u)
    ensures BusAt(Unlock, bus, units + [u])
  {
    hide Render, Transactions;
    RenderSnoc(units, u);
    assert bus + [] == bus;
  }

  lemma CmdNextBus(s: State, pc: Pc, env: Env)
    requires Holds(pc) && !pc.Unlock? && !pc.ReadFormat? && !pc.RawTransfer? && BusAt(pc, s.bus, s.units)
    ensures var (s', pc') := CmdNext(s, pc, env); BusAt(pc', s'.bus, s'.units)
  {
    hide Receive, Complete, Body, Frame, HeaderOf, Render, Repeat, Reads;
    var r := Render(s.units);
    match pc
    case CmdClear(c) =>
    case CmdSend(c) =>
      assert r + [] + [HeaderOf(c)] == r + [HeaderOf(c)];
      assert s.bus + [] == s.bus;
    case CmdSendBody(c) =>
      FrameParts(c);
      assert r + [HeaderOf(c)] + [Body(c)] == r + ([HeaderOf(c)] + [Body(c)]);
      UnitDone(s.bus, s.units, Half(c));
    case CmdWait(c) =>
    case CmdHeader(c) => HeaderBus(s, c, env);
    case CmdBody(c, n, i) => BodyBus(s, c, n, i, env);
  }

  lemma HeaderBus(s: State, c: Command, env: Env)
    requires BusAt(CmdHeader(c), s.bus, s.units)
    ensures var (s', pc') := CmdNext(s, CmdHeader(c), env); BusAt(pc', s'.bus, s'.units)
  {
    hide Body, Frame, HeaderOf, Render, Repeat, Reads;
    var f, r := Frame(Body(c)), Render(s.units);
    ReadParts(f, 0);
    assert r + f + [Repeat(0, 4)] == r + (f + [Repeat(0, 4)]);
    if !env.ok {
      UnitDone(s.bus, s.units, Exchange(c, []));
    } else if !(0 < env.n <= BUF_MAX) {
      UnitDone(s.bus + [Repeat(0, 4)], s.units, Exchange(c, [4]));
    }
  }

  lemma BodyBus(s: State, c: Command, n: nat, i: nat, env: Env)
    requires BusAt(CmdBody(c, n, i), s.bus, s.units)
    ensures var (s', pc') := CmdNext(s, CmdBody(c, n, i), env); BusAt(pc', s'.bus, s'.units)
  {
    hide Receive, Complete, Body, Frame, HeaderOf, Render, Repeat, Reads;
    ReceiveFrame(s, env.b);
    var f, r := Frame(Body(c)), Render(s.units);
    ReadParts(f, n);
    var g := f + [Repeat(0, 4)];
    assert r + g + [Repeat(0, n)] == r + (g + [Repeat(0, n)]);
    if !env.ok {
      UnitDone(s.bus, s.units, Exchange(c, [4]));
    } else if i >= n {
      UnitDone(s.bus + [Repeat(0, n)], s.units, Exchange(c, [4, n]));
    }
  }

  lemma FrameParts(c: Command)
    ensures Frame(Body(c)) == [HeaderOf(c)] + [Body(c)]
  {
    hide Body;
  }

  lemma ReadParts(f: seq<seq<byte>>, n: nat)
    ensures f + Reads([]) == f
    ensures f + Reads([4]) == f + [Repeat(0, 4)]
    ensures f + Reads([4, n]) == f + [Repeat(0, 4)] + [Repeat(0, n)]
  {
    hide Reads;
    NoReads();
    OneRead(4);
    TwoReads(4, n);
  }

  lemma CmdNextSmall(s: State, pc: Pc, env: Env)
    requires SmallPayload(pc)
    ensures var (s', pc') := CmdNext(s, pc, env); SmallPayload(pc') && Appends(s.units, s'.units)
  {
    hide Receive, Complete, Body, HeaderOf, Repeat;
    ReceiveFrame(s, env.b);
  }

  lemma RawNextBus(s: State, pc: Pc, env: Env)
    requires Writing(pc)
    ensures var (s', pc') := RawNext(s, pc, env);
            && (!Holds(pc) ==> s'.bus == s.bus && s'.units == s.units)
            && (BusAt(pc, s.bus, s.units) ==> BusAt(pc', s'.bus, s'.units))
            && SmallPayload(pc')
            && Appends(s.units, s'.units)
  {
    hide Receive, Complete, Body, HeaderOf, Frame, Render;
    ReceiveFrame(s, env.b);
    if pc.RawTransfer? {
      RenderSnoc(s.units, Raw(pc.wire));
      assert Render(s.units) + [] + [pc.wire] == Render(s.units) + [pc.wire] + [];
    }
  }

  /** How one step of thread t changes the bus. */
  lemma ThreadBus(s: State, t: nat, env: Env)
    requires t < |s.pcs| && (Holds(s.pcs[t]) || s.pcs[t].RawParse?)
    requires SmallPayload(s.pcs[t]) && (Holds(s.pcs[t]) ==> BusAt(s.pcs[t], s.bus, s.units))
    ensures var s' := Advanced(s, t, env);
            && t < |s'.pcs| && SmallPayload(s'.pcs[t])
            && (Holds(s.pcs[t]) ==> BusAt(s'.pcs[t], s'.bus, s'.units))
            && (!Holds(s.pcs[t]) ==> s'.bus == s.bus && s'.units == s.units && !Holds(s'.pcs[t]))
            && Appends(s.units, s'.units)
  {
    hide BusAt, Render, CmdNext, RawNext, ReadStep, SmallUnit;
    var pc := s.pcs[t];
    if pc.ReadFormat? {
      ReadBus(s, t);
    } else if pc.Unlock? {
      UnlockBus(s.bus, s.units);
    } else if Writing(pc) {
      RawNextBus(s, pc, env);
      RawLeavesParse(s, pc, env);
    } else {
      CmdNextBus(s, pc, env);
      CmdNextSmall(s, pc, env);
    }
  }

  lemma UnlockBus(bus: seq<seq<byte>>, units: seq<Unit>)
    ensures BusAt(Unlock, bus, units) <==> BusAt(Idle, bus, units)
  {
  }

  lemma ReadBus(s: State, t: nat)
    requires t < |s.pcs| && s.pcs[t].ReadFormat? && BusAt(s.pcs[t], s.bus, s.units)
    ensures var s' := ReadStep(s, t);
            && |s'.pcs| == |s.pcs| && s'.bus == s.bus && s'.units == s.units
            && SmallPayload(s'.pcs[t]) && BusAt(s'.pcs[t], s'.bus, s'.units)
  {
    hide Format, Render;
  }

  lemma RawLeavesParse(s: State, pc: Pc, env: Env)
    ensures pc.RawParse? ==> !Holds(RawNext(s, pc, env).1)
  {
  }

  lemma GoKeepsBus(s: State, t: nat, env: Env)
    requires ThreadInv(s) && BusInv(s) && SmallInv(s)
    requires t < |s.pcs| && (Holds(s.pcs[t]) || s.pcs[t].RawParse?)
    ensures BusInv(Advanced(s, t, env)) && SmallInv(Advanced(s, t, env))
  {
    hide BusAt, Render, IrqInv, BufInv, ServedInv, SmallPayload, PcInv, CmdStep, RawStep, ReadStep;
    var s' := Advanced(s, t, env);
    ThreadAt(s, t);
    ThreadBus(s, t, env);
    CmdStepFrame(s, t, env);
    RawStepFrame(s, t, env);
    if s.pcs[t].ReadFormat? {
      ReadStepFrame(s, t);
    }
    assert |s'.pcs| == |s.pcs| && s'.pcs == s.pcs[t := s'.pcs[t]];
    forall u | 0 <= u < |s'.pcs| && Holds(s'.pcs[u])
      ensures BusAt(s'.pcs[u], s'.bus, s'.units)
    {
      if u != t {
        assert s'.pcs[u] == s.pcs[u];
        ThreadAt(s, u);
      }
    }
    if s.pcs[t].Unlock? {
      assert s'.bus == s.bus && s'.units == s.units;
      UnlockedBus(s, t);
    }
    forall k | 0 <= k < |s'.units|
      ensures SmallUnit(s'.units[k])
    {
    }
  }

  lemma UnlockedBus(s: State, t: nat)
    requires t < |s.pcs| && s.pcs[t].Unlock? && BusInv(s)
    ensures s.bus == Render(s.units)
  {
    hide Render;
    assert BusAt(s.pcs[t], s.bus, s.units);
    assert Render(s.units) + [] == Render(s.units);
  }

  lemma JustLocked(pc: Pc, bus: seq<seq<byte>>, units: seq<Unit>)
    requires bus == Render(units) && BusTail(pc) == []
    ensures BusAt(pc, bus, units)
  {
    hide Render;
    assert bus + [] == bus;
  }

  lemma StepKeepsBus(s: State, step: Step)
    requires Inv(s) && BusInv(s) && SmallInv(s) && Enabled(s, step)
    ensures BusInv(Apply(s, step)) && SmallInv(Apply(s, step))
  {
    hide Writable, Render, IrqInv, BufInv, ServedInv, PcInv, Advanced, Repeat, BusAt;
    if step.Go? {
      GoKeepsBus(s, step.t, step.env);
    } else {
      hide Locked;
      if step.Lock? {
        LockKeepsBus(s, step.t);
      }
    }
  }

  lemma LockKeepsBus(s: State, t: nat)
    requires ThreadInv(s) && BusInv(s) && SmallInv(s)
    requires t < |s.pcs| && s.owner.None? && (s.pcs[t].WantCmd? || s.pcs[t].WantRaw? || s.pcs[t].WantRead?)
    ensures BusInv(Locked(s, t)) && SmallInv(Locked(s, t))
  {
    hide Writable, Render, PcInv, Repeat, BusAt, SmallUnit;
    var s' := Locked(s, t);
    ThreadAt(s, t);
    forall u | 0 <= u < |s'.pcs| && Holds(s'.pcs[u])
      ensures BusAt(s'.pcs[u], s'.bus, s'.units)
    {
      ThreadAt(s, u);
      JustLocked(s'.pcs[u], s.bus, s.units);
    }
  }

  lemma {:induction false} RunBus(states: seq<State>, steps: seq<Step>, k: nat)
    requires IsRun(states, steps) && k < |states|
    ensures BusInv(states[k]) && SmallInv(states[k])
  {
    hide Inv, BusInv, SmallInv, Enabled, Apply;
    if k == 0 {
      StartBus(states[0]);
    } else {
      RunBus(states, steps, k - 1);
      RunInv(states, steps, k - 1);
      StepKeepsBus(states[k - 1], steps[k - 1]);
    }
  }

  lemma StartBus(s: State)
    requires Init(s)
    ensures BusInv(s) && SmallInv(s)
  {
  }

  /** In every run, whenever the mutex is free the bus has carried a sequence of units, each in one piece:
      no header is parted from its body, and no frame from the reads of its answer, by another thread. */
  lemma FramesStayWhole(states: seq<State>, steps: seq<Step>, k: nat)
    requires IsRun(states, steps) && k < |states| && states[k].owner.None?
    ensures states[k].bus == Render(states[k].units)
  {
    hide Inv, SmallInv, Enabled, Apply, Render;
    RunBus(states, steps, k);
  }

  //////////////////////////////////////////////////////////////////////////////
  // What a part hears of a bus many threads have used
  //////////////////////////////////////////////////////////////////////////////

  /** The bodies of one unit, taken by itself. */
  function HeardAlone(u: Unit): seq<seq<byte>> {
    match u
    case Exchange(c, got) => [Body(c)]
    case Half(c) => []
    case Raw(wire) => Listen([wire])
  }

  function Heard(us: seq<Unit>): seq<seq<byte>> {
    if us == [] then [] else HeardAlone(us[0]) + Heard(us[1..])
  }

  /** The body length of a header that is the last the unit put on the bus. */
  function Dangling(u: Unit): Option<nat> {
    match u
    case Exchange(c, got) => None
    case Half(c) => Some(|c.payload| + 4)
    case Raw(wire) => if |wire| == 4 then BodyLength(wire) else None
  }

  function FirstLength(u: Unit): nat {
    if u.Raw? then |u.wire| else 4
  }

  /** The second unit starts with what looks like the body the first one left out. */
  predicate Spliced(u: Unit, v: Unit) {
    Dangling(u) == Some(FirstLength(v))
  }

  lemma RenderFirst(us: seq<Unit>)
    requires us != []
    ensures Render(us) != [] && |Render(us)[0]| == FirstLength(us[0])
    ensures !us[0].Raw? ==> Render(us)[0] == SpiHeader(|us[0].c.payload| + 4, PKT_MSG, 0)
  {
    hide Reads, SpiHeader, Message;
    if !us[0].Raw? {
      BodyLengthOf(us[0].c);
    }
  }

  lemma ListenToHalf(c: Command, rest: seq<seq<byte>>)
    requires |c.payload| <= PAYLOAD_MAX
    ensures Listen([HeaderOf(c)] + rest) ==
            if rest != [] && |rest[0]| == |c.payload| + 4 then [rest[0]] + Listen(rest[1..]) else Listen(rest)
  {
    hide SpiHeader, CheckHeader, Message, Listen;
    BodyLengthOf(c);
    HeaderRead(|Body(c)|);
    ListenToHeader(HeaderOf(c), rest);
  }

  lemma ListenToRaw(wire: seq<byte>, rest: seq<seq<byte>>)
    requires rest != [] && |wire| == 4 ==> BodyLength(wire) != Some(|rest[0]|)
    ensures Listen([wire] + rest) == Listen([wire]) + Listen(rest)
  {
    hide BodyLength;
    var ts, more := [wire] + rest, Listen(rest);
    assert ts[1..] == rest && ts[0] == wire && [wire][1..] == [];
    assert [] + more == more;
    if BodyLength(wire).Some? && |wire| != 4 && |wire| == 4 + BodyLength(wire).value {
      assert Listen([wire]) == [wire[4..]];
    } else {
      assert Listen([wire]) == [];
      assert Listen(ts) == more;
    }
  }

  lemma ListenToExchange(c: Command, got: seq<nat>, rest: seq<seq<byte>>)
    requires |c.payload| <= PAYLOAD_MAX
    ensures Listen(Frame(Body(c)) + Reads(got) + rest) == [Body(c)] + Listen(rest)
  {
    hide Listen, Frame, Body, Reads;
    BodyLengthOf(c);
    assert Frame(Body(c)) + Reads(got) + rest == Frame(Body(c)) + (Reads(got) + rest);
    ListenToFrame(Body(c), Reads(got) + rest);
    ListenToReads(got, rest);
  }

  /** A unit that is not spliced to what follows is heard as it would be alone. */
  lemma ListenToUnit(u: Unit, us: seq<Unit>)
    requires SmallUnit(u) && (us != [] ==> !Spliced(u, us[0]))
    ensures Listen(Transactions(u) + Render(us)) == HeardAlone(u) + Listen(Render(us))
  {
    hide Listen, Render, Frame, Body, HeaderOf, Reads, BodyLength;
    var rest := Render(us);
    assert us == [] ==> rest == [] by { RenderNothing(); }
    if us != [] {
      RenderFirst(us);
    }
    match u
    case Exchange(c, got) => ListenToExchange(c, got, rest);
    case Half(c) =>
      ListenToHalf(c, rest);
      assert [] + Listen(rest) == Listen(rest);
    case Raw(wire) => ListenToRaw(wire, rest);
  }

  lemma RenderNothing()
    ensures Render([]) == []
  {
  }

  predicate Unspliced(us: seq<Unit>) {
    forall i :: 0 <= i < |us| - 1 ==> !Spliced(us[i], us[i + 1])
  }

  /** One more transaction in front adds at most one body, and never costs one. */
  lemma {:induction false} ListenCount(ts: seq<seq<byte>>)
    requires ts != []
    ensures |Listen(ts[1..])| <= |Listen(ts)| <= |Listen(ts[1..])| + 1
    decreases |ts|
  {
    hide BodyLength;
    if |ts| > 1 {
      ListenCount(ts[1..]);
      assert ts[1..][1..] == ts[2..];
    }
  }

  lemma {:induction false} ListenNotFewer(a: seq<seq<byte>>, ts: seq<seq<byte>>)
    ensures |Listen(a + ts)| >= |Listen(ts)|
  {
    hide Listen;
    if a == [] {
      assert a + ts == ts;
    } else {
      ListenNotFewer(a[1..], ts);
      ListenCount(a + ts);
      assert (a + ts)[1..] == a[1..] + ts;
    }
  }

  lemma HeardStep(us: seq<Unit>)
    requires us != []
    ensures Heard(us) == HeardAlone(us[0]) + Heard(us[1..])
    ensures Render(us) == Transactions(us[0]) + Render(us[1..])
    ensures |HeardAlone(us[0])| <= 1
  {
    hide Transactions, BodyLength;
    if us[0].Raw? {
      assert [us[0].wire][1..] == [];
      assert |Listen([])| == 0;
    }
  }

  /** A splice costs the second unit its first transaction, which is taken for a body. */
  lemma ListenToSplice(us: seq<Unit>)
    requires |us| > 1 && Spliced(us[0], us[1]) && SmallUnit(us[0])
    ensures HeardAlone(us[0]) == []
    ensures Listen(Render(us)) == [Transactions(us[1])[0]] + Listen(Transactions(us[1])[1..] + Render(us[2..]))
  {
    hide Listen, Render, Transactions, HeardAlone, BodyLength;
    var u, t, rest := us[0], Transactions(us[1]), Render(us[1..]);
    HeardStep(us);
    HeardStep(us[1..]);
    RenderFirst(us[1..]);
    assert us[1..][1..] == us[2..];
    assert rest[0] == t[0] && rest[1..] == t[1..] + Render(us[2..]);
    FirstOf(u);
    AloneInCase(u);
    if u.Half? {
      ListenToHalf(u.c, rest);
    } else {
      ListenToHeader(u.wire, rest);
    }
  }

  lemma AloneInCase(u: Unit)
    ensures u.Half? ==> HeardAlone(u) == []
    ensures u.Raw? ==> HeardAlone(u) == Listen([u.wire])
  {
    hide Listen;
  }

  lemma FirstOf(v: Unit)
    ensures v.Exchange? ==> Transactions(v)[0] == HeaderOf(v.c)
    ensures v.Raw? ==> Transactions(v) == [v.wire]
    ensures v.Half? ==> Transactions(v) == [HeaderOf(v.c)]
  {
    hide Reads, Body;
  }

  lemma {:induction false} NoneLost(us: seq<Unit>)
    requires forall i :: 0 <= i < |us| ==> SmallUnit(us[i])
    ensures |Listen(Render(us))| >= |Heard(us)|
    decreases |us|
  {
    hide Listen, Transactions, HeardAlone, Spliced, SmallUnit, Render, Heard;
    if us == [] {
      HeardNothing();
    } else {
      HeardStep(us);
      if |us| > 1 && Spliced(us[0], us[1]) {
        ListenToSplice(us);
        HeardStep(us[1..]);
        assert us[1..][1..] == us[2..];
        ListenNotFewer(Transactions(us[1])[1..], Render(us[2..]));
        NoneLost(us[2..]);
      } else {
        ListenToUnit(us[0], us[1..]);
        NoneLost(us[1..]);
      }
    }
  }

  lemma HeardNothing()
    ensures Heard([]) == [] && Render([]) == [] && Listen([]) == []
  {
  }

  /** What a spliced unit would have been heard as is not what is heard in its place. */
  lemma SpliceDiffers(v: Unit)
    requires SmallUnit(v) && HeardAlone(v) != []
    ensures HeardAlone(v)[0] != Transactions(v)[0]
  {
    hide BodyLength, Reads, Body;
    FirstOf(v);
    match v
    case Exchange(c, got) =>
      BodyLengthOf(c);
      HeaderIsNoBody(|Body(c)|, c);
    case Raw(wire) =>
      assert [wire][1..] == [] && |Listen([])| == 0;
  }

  lemma SpliceShows(us: seq<Unit>)
    requires |us| > 1 && Spliced(us[0], us[1]) && forall i :: 0 <= i < |us| ==> SmallUnit(us[i])
    ensures Listen(Render(us)) != Heard(us)
  {
    hide Listen, Transactions, HeardAlone, SmallUnit, Render, Heard;
    hide Spliced;
    var v := us[1];
    ListenToSplice(us);
    HeardStep(us);
    HeardStep(us[1..]);
    assert us[1..][1..] == us[2..];
    assert Heard(us) == HeardAlone(v) + Heard(us[2..]);
    if HeardAlone(v) != [] {
      SpliceDiffers(v);
      assert Heard(us)[0] == HeardAlone(v)[0];
      assert Listen(Render(us))[0] == Transactions(v)[0];
    } else {
      ListenNotFewer(Transactions(v)[1..], Render(us[2..]));
      NoneLost(us[2..]);
    }
  }

  /** A part that follows the bus hears the units one by one if and only if none is spliced to the next. */
  lemma {:induction false} UnitsHeard(us: seq<Unit>)
    requires forall i :: 0 <= i < |us| ==> SmallUnit(us[i])
    ensures Listen(Render(us)) == Heard(us) <==> Unspliced(us)
  {
    hide Listen, Transactions, HeardAlone, Spliced, SmallUnit, Render, Heard, Unspliced;
    if us == [] {
      HeardNothing();
      NoneSpliced(us);
    } else {
      HeardStep(us);
      SplicedStep(us);
      UnitsHeard(us[1..]);
      if |us| > 1 && Spliced(us[0], us[1]) {
        SpliceShows(us);
      } else {
        ListenToUnit(us[0], us[1..]);
        var h, a, b := HeardAlone(us[0]), Listen(Render(us[1..])), Heard(us[1..]);
        assert (h + a)[|h|..] == a && (h + b)[|h|..] == b;
      }
    }
  }

  lemma NoneSpliced(us: seq<Unit>)
    requires |us| <= 1
    ensures Unspliced(us)
  {
  }

  lemma SplicedStep(us: seq<Unit>)
    requires us != []
    ensures Unspliced(us) <==> Unspliced(us[1..]) && !(|us| > 1 && Spliced(us[0], us[1]))
  {
    hide Spliced;
    if Unspliced(us[1..]) {
      forall i | 0 < i < |us| - 1
        ensures !Spliced(us[i], us[i + 1])
      {
        assert us[1..][i - 1] == us[i] && us[1..][i] == us[i + 1];
      }
    }
    if Unspliced(us) {
      forall i | 0 <= i < |us[1..]| - 1
        ensures !Spliced(us[1..][i], us[1..][i + 1])
      {
        assert us[1..][i] == us[i + 1] && us[1..][i + 1] == us[i + 2];
      }
    }
  }

  /** The commands that went through. */
  function Commands(us: seq<Unit>): (cs: seq<Command>)
    ensures |cs| <= |us|
  {
    if us == [] then []
    else (if us[0].Exchange? then [us[0].c] else []) + Commands(us[1..])
  }

  lemma {:induction false} HeardCommands(us: seq<Unit>)
    requires forall i :: 0 <= i < |us| ==> !us[i].Raw? && SmallUnit(us[i])
    ensures Heard(us) == Bodies(Commands(us))
    ensures forall j :: 0 <= j < |Commands(us)| ==> |Commands(us)[j].payload| <= PAYLOAD_MAX
  {
    hide Body, Bodies;
    if us == [] {
      NoBodies();
    } else {
      HeardCommands(us[1..]);
      BodiesStep(if us[0].Exchange? then [us[0].c] else [], Commands(us[1..]));
    }
  }

  lemma NoBodies()
    ensures Bodies([]) == []
  {
  }

  lemma BodiesStep(a: seq<Command>, b: seq<Command>)
    ensures Bodies(a + b) == Bodies(a) + Bodies(b)
    ensures |a| == 1 ==> Bodies(a) == [Body(a[0])]
    ensures a == [] ==> Bodies(a) == []
  {
    hide Body;
  }

  /** A transport header is never the body of a command. */
  lemma HeaderIsNoBody(n: nat, c: Command)
    requires 4 <= n < 0x1_0000
    ensures SpiHeader(n, PKT_MSG, 0) != Body(c)
  {
    hide LowByte, HighByte, Le16, TypeByte, CmdByte, Checksum, HeaderSum;
    hide Message;
    SplitThenJoin(n);
    if c.payload == [] {
      MessageFits(c.cmd0, c.cmd1, c.payload, c.checksum);
      assert Le16(Body(c)[1], Body(c)[2]) == 1;
      assert Le16(SpiHeader(n, PKT_MSG, 0)[1], SpiHeader(n, PKT_MSG, 0)[2]) == n;
    } else {
      BodyLengthOf(c);
    }
  }

  /** In every run, whenever the mutex is free: a part that follows the bus hears what each unit, taken by
      itself, has to say, in the order in which the threads held the mutex and whatever was read in
      between, if and only if no header without its body is followed by a unit whose first transaction
      has the announced length. */
  lemma ConcurrentUnitsDecode(states: seq<State>, steps: seq<Step>, k: nat)
    requires IsRun(states, steps) && k < |states| && states[k].owner.None?
    ensures Listen(states[k].bus) == Heard(states[k].units) <==> Unspliced(states[k].units)
  {
    hide Listen, Render, Init, Enabled, Apply, Inv, BusInv, SmallUnit, Heard, Unspliced;
    RunBus(states, steps, k);
    FramesStayWhole(states, steps, k);
    UnitsHeard(states[k].units);
  }

  /** Some command without payload broke off after its header, and another transfer followed. */
  predicate Swallows(us: seq<Unit>) {
    exists i :: 0 <= i < |us| - 1 && us[i].Half? && us[i].c.payload == []
  }

  lemma CommandSplices(us: seq<Unit>)
    requires forall i :: 0 <= i < |us| ==> !us[i].Raw?
    ensures Unspliced(us) <==> !Swallows(us)
  {
    if i :| 0 <= i < |us| - 1 && us[i].Half? && us[i].c.payload == [] {
      assert Spliced(us[i], us[i + 1]);
    }
  }

  /** Concurrent writers of the `cmd` file are serialised. In any run in which nothing but commands used
      the bus, the part hears exactly the commands that went through, in the order in which they held the
      mutex, if and only if no command without payload broke off after its header with another transfer
      to follow: that header announces four bytes, the length of the next header. */
  lemma ConcurrentCommandsDecode(states: seq<State>, steps: seq<Step>, k: nat)
    requires IsRun(states, steps) && k < |states| && states[k].owner.None?
    requires forall j :: 0 <= j < |states[k].units| ==> !states[k].units[j].Raw?
    ensures var s := states[k];
            Listen(s.bus) == Bodies(Commands(s.units)) <==> !Swallows(s.units)
    ensures var cs := Commands(states[k].units);
            forall j :: 0 <= j < |cs| ==> Reports(Bodies(cs)[j], cs[j])
  {
    hide Listen, Reports, Commands, Init, Enabled, Apply, Inv, BusInv, SmallUnit, Swallows, Unspliced, Body, Heard;
    var s := states[k];
    RunBus(states, steps, k);
    ConcurrentUnitsDecode(states, steps, k);
    HeardCommands(s.units);
    CommandSplices(s.units);
    var cs := Commands(s.units);
    forall j | 0 <= j < |cs|
      ensures Reports(Bodies(cs)[j], cs[j])
    {
      BodyReports(cs[j]);
    }
  }
}
