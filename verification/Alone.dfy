/** One thread of the interleaving model by itself: its steps, with no other thread's between them, do what the
    calls of module Driver do; and a command that breaks off, with another after it, shows what is misheard. */
module Alone {
  import opened Bytes
  import opened Wire
  import opened HexText
  import opened Driver
  import opened Interleaving
  import opened Schedules
  import opened Races

  /** The part of the state that the calls of the driver are specified on. */
  function MemoryOf(s: State): Memory {
    Memory(s.bus, s.rxlen, s.rxbuf)
  }

  //////////////////////////////////////////////////////////////////////////////
  // A command
  //////////////////////////////////////////////////////////////////////////////

  predicate AtCommand(pc: Pc) {
    Holds(pc) && !pc.Unlock? && !pc.ReadFormat? && !Writing(pc)
  }

  lemma GoCommand(s: State, t: nat, env: Env)
    requires t < |s.pcs| && AtCommand(s.pcs[t])
    ensures Leads(t, s, CmdStep(s, t, env))
  {
    hide CmdStep, Leads;
    LeadsOne(t, s, Go(t, env));
  }

  lemma GoUnlock(s: State, t: nat)
    requires t < |s.pcs| && s.pcs[t].Unlock?
    ensures Leads(t, s, s.(owner := None, pcs := s.pcs[t := Idle]))
  {
    hide Leads;
    LeadsOne(t, s, Go(t, GO_AHEAD));
  }

  /** The state in which thread t is about to send. */
  function Sending(s: State, t: nat, c: Command): State
    requires t < |s.pcs|
  {
    s.(owner := Some(t), dataReady := false, pcs := s.pcs[t := CmdSend(c)])
  }

  lemma StartSending(s: State, t: nat, c: Command)
    requires t < |s.pcs| && s.pcs[t].Idle? && s.owner.None? && c.checksum && |c.payload| <= PAYLOAD_MAX
    ensures Leads(t, s, Sending(s, t, c))
  {
    hide Leads;
    var s1 := At(s, t, WantCmd(c));
    LeadsOne(t, s, StartCmd(t, c));
    var s2 := Locked(s1, t);
    LeadsOne(t, s1, Lock(t));
    GoCommand(s2, t, GO_AHEAD);
    assert CmdStep(s2, t, GO_AHEAD) == Sending(s, t, c);
    LeadsOn(t, s, s1, s2);
    LeadsOn(t, s, s2, Sending(s, t, c));
  }

  const FAILS := Env(false, 0, 0)

  /** Sending, up to the wait or to the failure. */
  lemma SendPhase(s: State, t: nat, c: Command, allocOk: bool, hdrRet: int, bodyRet: int) returns (s': State)
    requires t < |s.pcs| && s.pcs[t] == CmdSend(c) && |c.payload| <= PAYLOAD_MAX
    ensures Leads(t, s, s')
    ensures var (ret, out) := SendOutcome(c, allocOk, hdrRet, bodyRet);
            && s'.bus == s.bus + out
            && s'.units == s.units + (if out == [] || ret == 0 then [] else [Half(c)])
            && s' == s.(bus := s'.bus, units := s'.units, pcs := s.pcs[t := if ret == 0 then CmdWait(c) else Unlock])
  {
    hide Leads, Body, HeaderOf, Frame;
    FrameParts(c);
    assert s.bus + [] == s.bus && s.units + [] == s.units;
    if !allocOk || hdrRet != 0 {
      GoCommand(s, t, FAILS);
      s' := CmdStep(s, t, FAILS);
    } else {
      GoCommand(s, t, GO_AHEAD);
      var s1 := CmdStep(s, t, GO_AHEAD);
      var env := if bodyRet != 0 then FAILS else GO_AHEAD;
      GoCommand(s1, t, env);
      s' := CmdStep(s1, t, env);
      LeadsOn(t, s, s1, s');
      assert s.bus + [HeaderOf(c)] + [Body(c)] == s.bus + ([HeaderOf(c)] + [Body(c)]);
      assert s1.pcs[t := s'.pcs[t]] == s.pcs[t := s'.pcs[t]];
    }
  }

  /** Bytes i to m of a body arrive. */
  lemma {:induction false} BytesArrive(s: State, t: nat, c: Command, n: nat, i: nat, reply: seq<byte>, m: nat)
    returns (s': State)
    requires t < |s.pcs| && s.pcs[t] == CmdBody(c, n, i) && i <= m <= n <= |s.rxbuf| && m <= |reply|
    ensures Leads(t, s, s')
    ensures s' == s.(rxbuf := s.rxbuf[..i] + reply[i..m] + s.rxbuf[m..], torn := s.torn || i < m,
                     pcs := s.pcs[t := CmdBody(c, n, m)])
    decreases m - i
  {
    hide Leads;
    if i == m {
      s' := s;
      LeadsNowhere(t, s);
      assert s.rxbuf == s.rxbuf[..i] + reply[i..i] + s.rxbuf[i..];
      assert s.pcs == s.pcs[t := s.pcs[t]];
    } else {
      var env := Env(true, reply[i], 0);
      GoCommand(s, t, env);
      var s1 := CmdStep(s, t, env);
      s' := BytesArrive(s1, t, c, n, i + 1, reply, m);
      LeadsOn(t, s, s1, s');
      OneArrives(s.rxbuf, reply, i, m);
      assert s1.pcs[t := CmdBody(c, n, m)] == s.pcs[t := CmdBody(c, n, m)];
    }
  }

  lemma OneArrives(buf: seq<byte>, reply: seq<byte>, i: nat, m: nat)
    requires i < m <= |buf| && m <= |reply|
    ensures var buf1 := buf[i := reply[i]];
            buf1[..i + 1] + reply[i + 1..m] + buf1[m..] == buf[..i] + reply[i..m] + buf[m..]
  {
  }

  lemma AllArrive(buf: seq<byte>, reply: seq<byte>, m: nat)
    requires m <= |buf| && m <= |reply|
    ensures buf[..0] + reply[0..m] + buf[m..] == Overwritten(buf, reply, m)
  {
  }

  /** Receiving, from the header on. */
  lemma ReceivePhase(s: State, t: nat, c: Command, a: Answer) returns (s': State)
    requires t < |s.pcs| && s.pcs[t] == CmdHeader(c) && |s.rxbuf| == BUF_MAX && Possible(a)
    ensures Leads(t, s, s')
    ensures MemoryOf(s') == Received(MemoryOf(s), a)
    ensures s'.good == (if Fetched(a) then s'.rxbuf[..s'.rxlen] else s.good)
    ensures s'.torn == if Fetched(a) then false
                       else s.torn || Arrived(a.hdrRet, a.hdr, a.bodyRet, a.stored) > 0
    ensures s' == s.(bus := s'.bus, rxlen := s'.rxlen, rxbuf := s'.rxbuf, good := s'.good, torn := s'.torn,
                     units := s.units + [Exchange(c, RecvReads(a.hdrRet, a.hdr, a.bodyRet))], pcs := s.pcs[t := Unlock])
  {
    hide Leads, Reads, RecvHeader, Repeat, Overwritten;
    HeaderBound(a.hdrRet, a.hdr);
    var n := RecvHeader(a.hdrRet, a.hdr);
    HeaderFails(a);
    ReadParts(s.bus, if n > 0 then n else 0);
    AllArrive(s.rxbuf, a.reply, Arrived(a.hdrRet, a.hdr, a.bodyRet, a.stored));
    NothingArrives(s.rxbuf, a.reply);
    if n <= 0 {
      var env := if a.hdrRet != 0 then FAILS else GO_AHEAD;
      GoCommand(s, t, env);
      s' := CmdStep(s, t, env);
    } else {
      var env := Env(true, 0, n);
      GoCommand(s, t, env);
      var s1 := CmdStep(s, t, env);
      var s2 := BytesArrive(s1, t, c, n, 0, a.reply, Arrived(a.hdrRet, a.hdr, a.bodyRet, a.stored));
      LeadsOn(t, s, s1, s2);
      var env2 := if a.bodyRet != 0 then FAILS else GO_AHEAD;
      GoCommand(s2, t, env2);
      s' := CmdStep(s2, t, env2);
      LeadsOn(t, s, s2, s');
      assert s2.pcs[t := Unlock] == s.pcs[t := Unlock];
    }
  }

  lemma HeaderFails(a: Answer)
    requires Possible(a)
    ensures a.hdrRet != 0 ==> RecvHeader(a.hdrRet, a.hdr) <= 0
  {
  }

  lemma NothingArrives(buf: seq<byte>, reply: seq<byte>)
    ensures Overwritten(buf, reply, 0) == buf
  {
  }

  /** A command that no other thread interrupts leaves what `gxfp_cmd_write` leaves, and is recorded as the unit
      it put on the bus. */
  lemma CommandAlone(s: State, t: nat, c: Command, allocOk: bool, hdrRet: int, bodyRet: int, a: Answer)
    returns (s': State)
    requires t < |s.pcs| && s.pcs[t].Idle? && s.owner.None? && |s.rxbuf| == BUF_MAX
    requires c.checksum && |c.payload| <= PAYLOAD_MAX && Possible(a)
    ensures Leads(t, s, s')
    ensures MemoryOf(s') == Exchanged(MemoryOf(s), c, allocOk, hdrRet, bodyRet, a)
    ensures SendOutcome(c, allocOk, hdrRet, bodyRet).0 == 0 ==>
              && s'.good == (if Fetched(a) then s'.rxbuf[..s'.rxlen] else s.good)
              && s'.torn == if Fetched(a) then false
                            else s.torn || Arrived(a.hdrRet, a.hdr, a.bodyRet, a.stored) > 0
    ensures var (ret, out) := SendOutcome(c, allocOk, hdrRet, bodyRet);
            s'.units == s.units + if ret == 0 then [Exchange(c, RecvReads(a.hdrRet, a.hdr, a.bodyRet))]
                                  else if out == [] then [] else [Half(c)]
    ensures s' == s.(bus := s'.bus, rxlen := s'.rxlen, rxbuf := s'.rxbuf, good := s'.good, torn := s'.torn,
                     units := s'.units, dataReady := false)
  {
    hide Leads, SendOutcome, Received, RecvReads;
    StartSending(s, t, c);
    var s1 := Sending(s, t, c);
    var s2 := SendPhase(s1, t, c, allocOk, hdrRet, bodyRet);
    LeadsOn(t, s, s1, s2);
    var s3 := s2;
    if SendOutcome(c, allocOk, hdrRet, bodyRet).0 == 0 {
      GoCommand(s2, t, GO_AHEAD);
      var w := CmdStep(s2, t, GO_AHEAD);
      LeadsOn(t, s, s2, w);
      s3 := ReceivePhase(w, t, c, a);
      LeadsOn(t, s, w, s3);
      assert s.units + [] == s.units;
    }
    assert s3.pcs == s.pcs[t := Unlock];
    GoUnlock(s3, t);
    s' := s3.(owner := None, pcs := s3.pcs[t := Idle]);
    LeadsOn(t, s, s3, s');
    assert s'.pcs == s.pcs;
  }

  //////////////////////////////////////////////////////////////////////////////
  // A `raw` write
  //////////////////////////////////////////////////////////////////////////////

  lemma GoRaw(s: State, t: nat, env: Env)
    requires t < |s.pcs| && s.pcs[t].RawTransfer?
    ensures Leads(t, s, RawStep(s, t, env))
  {
    hide RawStep, Leads;
    LeadsOne(t, s, Go(t, env));
  }

  /** Bytes up to m go out of the transmit buffer while as many arrive. */
  lemma {:induction false} BytesCross(s: State, t: nat, bytes: seq<byte>, wire: seq<byte>, reply: seq<byte>, m: nat)
    returns (s': State)
    requires t < |s.pcs| && s.pcs[t] == RawTransfer(bytes, wire) && |wire| <= m <= |bytes| && m <= |reply|
    requires |bytes| <= |s.txbuf| && |bytes| <= |s.rxbuf|
    ensures Leads(t, s, s')
    ensures var i := |wire|;
            s' == s.(rxbuf := s.rxbuf[..i] + reply[i..m] + s.rxbuf[m..], torn := s.torn || i < m,
                     pcs := s.pcs[t := RawTransfer(bytes, wire + s.txbuf[i..m])])
    decreases m - |wire|
  {
    hide Leads;
    var i := |wire|;
    if i == m {
      s' := s;
      LeadsNowhere(t, s);
      assert s.rxbuf == s.rxbuf[..i] + reply[i..i] + s.rxbuf[i..];
      assert wire + s.txbuf[i..i] == wire;
      assert s.pcs == s.pcs[t := s.pcs[t]];
    } else {
      hide RawStep;
      var env := Env(true, reply[i], 0);
      GoRaw(s, t, env);
      CrossStep(s, t, bytes, wire, env);
      var s1 := RawStep(s, t, env);
      s' := BytesCross(s1, t, bytes, wire + [s.txbuf[i]], reply, m);
      LeadsOn(t, s, s1, s');
      OneArrives(s.rxbuf, reply, i, m);
      OneLeaves(s.txbuf, wire, i, m);
      assert s1.pcs[t := s'.pcs[t]] == s.pcs[t := s'.pcs[t]];
    }
  }

  lemma CrossStep(s: State, t: nat, bytes: seq<byte>, wire: seq<byte>, env: Env)
    requires t < |s.pcs| && s.pcs[t] == RawTransfer(bytes, wire) && |wire| < |bytes|
    requires |bytes| <= |s.txbuf| && |bytes| <= |s.rxbuf| && env.ok
    ensures RawStep(s, t, env) == s.(rxbuf := s.rxbuf[|wire| := env.b], torn := true,
                                     pcs := s.pcs[t := RawTransfer(bytes, wire + [s.txbuf[|wire|]])])
  {
  }

  lemma OneLeaves(tx: seq<byte>, wire: seq<byte>, i: nat, m: nat)
    requires i < m <= |tx|
    ensures wire + [tx[i]] + tx[i + 1..m] == wire + tx[i..m]
  {
    assert tx[i..m] == [tx[i]] + tx[i + 1..m];
    assert wire + ([tx[i]] + tx[i + 1..m]) == wire + [tx[i]] + tx[i + 1..m];
  }

  lemma GosLead(s: State, t: nat, steps: seq<Step>)
    requires Runs(s, steps) && forall k :: 0 <= k < |steps| ==> By(t, steps[k])
    ensures Leads(t, s, After(s, steps))
  {
  }

  /** From the file to the mutex. */
  lemma ReachTransfer(s: State, t: nat, bytes: seq<byte>)
    requires t < |s.pcs| && s.pcs[t].Idle? && s.owner.None? && Writable(bytes) && |bytes| <= |s.txbuf|
    ensures Leads(t, s, s.(owner := Some(t), txbuf := bytes + s.txbuf[|bytes|..],
                           pcs := s.pcs[t := RawTransfer(bytes, [])]))
  {
    hide Leads, Runs, After, Writable;
    StartWriting(s, t, bytes, |bytes|);
    var a, b := [StartRaw(t, bytes)] + Gos(t, |bytes|), [Go(t, GO_AHEAD), Lock(t)];
    assert bytes[..|bytes|] == bytes;
    GosLead(s, t, a);
    var s1 := After(s, a);
    EnterMutex(s1, t, bytes);
    GosLead(s1, t, b);
    LeadsOn(t, s, s1, After(s1, b));
    assert s1.pcs[t := RawTransfer(bytes, [])] == s.pcs[t := RawTransfer(bytes, [])];
  }

  /** A `raw` write that no other thread interrupts leaves what `gxfp_raw_write` leaves. */
  lemma WriteAlone(s: State, t: nat, bytes: seq<byte>, ret: int, reply: seq<byte>, stored: nat) returns (s': State)
    requires t < |s.pcs| && s.pcs[t].Idle? && s.owner.None? && |s.txbuf| == |s.rxbuf| == BUF_MAX
    requires Writable(bytes) && |bytes| <= BUF_MAX <= |reply|
    ensures Leads(t, s, s')
    ensures MemoryOf(s') == Transferred(MemoryOf(s), bytes, ret, reply, stored)
    ensures !s'.torn && s'.good == s'.rxbuf[..s'.rxlen]
    ensures s'.txbuf == bytes + s.txbuf[|bytes|..]
    ensures s'.transfers == s.transfers + (if ret == 0 then [Transfer(bytes, bytes)] else [])
    ensures s' == s.(bus := s'.bus, rxlen := s'.rxlen, rxbuf := s'.rxbuf, good := s'.good, torn := s'.torn,
                     units := s'.units, txbuf := s'.txbuf, transfers := s'.transfers)
  {
    hide Leads, Writable, Overwritten;
    ReachTransfer(s, t, bytes);
    var s1 := s.(owner := Some(t), txbuf := bytes + s.txbuf[|bytes|..], pcs := s.pcs[t := RawTransfer(bytes, [])]);
    var m := if ret == 0 || |bytes| <= stored then |bytes| else stored;
    var s2 := BytesCross(s1, t, bytes, [], reply, m);
    LeadsOn(t, s, s1, s2);
    AllArrive(s.rxbuf, reply, m);
    assert m == |bytes| ==> [] + s1.txbuf[0..m] == bytes;
    var env := if ret == 0 then GO_AHEAD else FAILS;
    GoRaw(s2, t, env);
    var s3 := RawStep(s2, t, env);
    LeadsOn(t, s, s2, s3);
    assert s3.pcs == s.pcs[t := Unlock];
    assert s.transfers + [] == s.transfers;
    GoUnlock(s3, t);
    s' := s3.(owner := None, pcs := s3.pcs[t := Idle]);
    LeadsOn(t, s, s3, s');
    assert s'.pcs == s.pcs;
  }

  //////////////////////////////////////////////////////////////////////////////
  // A `raw` read
  //////////////////////////////////////////////////////////////////////////////

  lemma GoFormat(s: State, t: nat)
    requires t < |s.pcs| && s.pcs[t].ReadFormat?
    ensures Leads(t, s, ReadStep(s, t))
  {
    hide ReadStep, Leads;
    LeadsOne(t, s, Go(t, GO_AHEAD));
  }

  lemma {:induction false} FormatToEnd(s: State, t: nat)
    requires Inv(s) && t < |s.pcs| && s.pcs[t].ReadFormat?
    ensures var snap := s.pcs[t].snap;
            Leads(t, s, s.(served := s.served + [Read(RawText(snap), snap, s.good, s.torn)], pcs := s.pcs[t := Unlock]))
    decreases |s.pcs[t].snap| - s.pcs[t].i
  {
    hide Leads, Format, HexDump, IrqInv, BufInv, ThreadInv, ReadExact;
    var snap, i := s.pcs[t].snap, s.pcs[t].i;
    ThreadAt(s, t);
    GoFormat(s, t);
    ReadStepKeepsInv(s, t);
    var s1 := ReadStep(s, t);
    if i < |snap| {
      assert s1.pcs[t].ReadFormat? && s1.pcs[t].snap == snap && s1.pcs[t].i == i + 1;
      FormatToEnd(s1, t);
      assert s1.pcs[t := Unlock] == s.pcs[t := Unlock];
      var r := Read(RawText(snap), snap, s.good, s.torn);
      LeadsOn(t, s, s1, s.(served := s.served + [r], pcs := s.pcs[t := Unlock]));
    } else {
      var k := |s.served|;
      assert ReadExact(s1.served[k]);
      LastRead(s1.served[k]);
    }
  }

  lemma LastRead(r: Read)
    requires ReadExact(r)
    ensures r.text == RawText(r.snap)
  {
    hide RawText;
  }

  /** A `raw` read that no other thread interrupts serves the text of the buffer, as `gxfp_raw_read` does, and
      changes nothing else. */
  lemma ReadAlone(s: State, t: nat)
    requires Inv(s) && t < |s.pcs| && s.pcs[t].Idle? && s.owner.None?
    ensures var snap := s.rxbuf[..s.rxlen];
            Leads(t, s, s.(served := s.served + [Read(RawText(snap), snap, s.good, s.torn)]))
  {
    hide Leads, RawText, IrqInv, ThreadInv, ServedInv, Repeat;
    var snap := s.rxbuf[..s.rxlen];
    var s1 := At(s, t, WantRead);
    LeadsOne(t, s, StartRead(t));
    StepKeepsInv(s, StartRead(t));
    var s2 := Locked(s1, t);
    LeadsOne(t, s1, Lock(t));
    StepKeepsInv(s1, Lock(t));
    LeadsOn(t, s, s1, s2);
    assert s2.pcs[t].snap == snap;
    FormatToEnd(s2, t);
    var s3 := s2.(served := s.served + [Read(RawText(snap), snap, s.good, s.torn)], pcs := s2.pcs[t := Unlock]);
    LeadsOn(t, s, s2, s3);
    GoUnlock(s3, t);
    var s' := s3.(owner := None, pcs := s3.pcs[t := Idle]);
    LeadsOn(t, s, s3, s');
    assert s'.pcs == s.pcs;
  }

  //////////////////////////////////////////////////////////////////////////////
  // A header without its body
  //////////////////////////////////////////////////////////////////////////////

  /** A command without payload that breaks off after its header, and any other after it: a run in which the
      part takes the second header for the body of the first, and so does not hear just the command that went
      through. */
  lemma SwallowingRun(s0: State, c: Command, d: Command) returns (states: seq<State>, steps: seq<Step>)
    requires Init(s0) && |s0.pcs| >= 1
    requires c.checksum && c.payload == [] && d.checksum && |d.payload| <= PAYLOAD_MAX
    ensures IsRun(states, steps) && states[0] == s0
    ensures var s := states[|steps|];
            && s.owner.None? && s.units == [Half(c), Exchange(d, [])] && Swallows(s.units)
            && Listen(s.bus) != Bodies([d])
  {
    hide Init, Inv, Enabled, Apply, Runs, After, Listen, Bodies, Commands;
    var s2 := BreaksOff(s0, c, d);
    steps :| Runs(s0, steps) && After(s0, steps) == s2;
    states := RunFrom(s0, steps);
    assert s2.units[0] == Half(c);
    ConcurrentCommandsDecode(states, steps, |steps|);
    TheOne(c, d);
  }

  lemma BreaksOff(s0: State, c: Command, d: Command) returns (s': State)
    requires Init(s0) && |s0.pcs| >= 1
    requires c.checksum && c.payload == [] && d.checksum && |d.payload| <= PAYLOAD_MAX
    ensures Leads(0, s0, s') && s'.owner.None? && s'.units == [Half(c), Exchange(d, [])]
  {
    hide Init, Leads, Exchanged, SendOutcome, RecvReads;
    StartsIdle(s0);
    var a := Answer(-5, [0, 0, 0, 0], 0, Repeat(0, BUF_MAX), 0);
    NoAnswer(c, a);
    NoAnswer(d, a);
    var s1 := CommandAlone(s0, 0, c, true, 0, -5, a);
    s' := CommandAlone(s1, 0, d, true, 0, 0, a);
    assert s'.units == [Half(c)] + [Exchange(d, [])];
    LeadsOn(0, s0, s1, s');
  }

  lemma StartsIdle(s: State)
    requires Init(s)
    ensures s.owner.None? && (forall t :: 0 <= t < |s.pcs| ==> s.pcs[t].Idle?)
    ensures |s.rxbuf| == |s.txbuf| == BUF_MAX && s.units == []
  {
  }

  lemma NoAnswer(c: Command, a: Answer)
    requires |c.payload| <= PAYLOAD_MAX && a.hdrRet == -5 && |a.hdr| == 4
    ensures SendOutcome(c, true, 0, 0).0 == 0
    ensures SendOutcome(c, true, 0, -5).0 != 0 && SendOutcome(c, true, 0, -5).1 != []
    ensures RecvReads(a.hdrRet, a.hdr, a.bodyRet) == []
  {
    hide Body;
  }

  lemma TheOne(c: Command, d: Command)
    ensures Commands([Half(c), Exchange(d, [])]) == [d]
  {
    var us := [Half(c), Exchange(d, [])];
    assert us[1..] == [Exchange(d, [])] && us[1..][1..] == [];
  }
}
