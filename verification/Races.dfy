/** The `raw` file of kernel/gxfp.c fills the shared transmit buffer before it takes the mutex: exactly when
    that goes well. */
module Races {
  import opened Bytes
  import opened Driver
  import opened Interleaving
  import opened Schedules

  //////////////////////////////////////////////////////////////////////////////
  // The transmit buffer is filled before the mutex is taken
  //////////////////////////////////////////////////////////////////////////////

  /** The two strings are equal as far as both go. */
  predicate AgreeOn(p: seq<byte>, q: seq<byte>) {
    forall i :: 0 <= i < |p| && i < |q| ==> p[i] == q[i]
  }

  /** `raw` writes that overlap agree on what they store where. */
  predicate Agree(s: State) {
    forall t, u :: 0 <= t < |s.pcs| && 0 <= u < |s.pcs| && t != u && Writing(s.pcs[t]) && Writing(s.pcs[u]) ==>
                     AgreeOn(s.pcs[t].bytes, s.pcs[u].bytes)
  }

  predicate TxInv(pc: Pc, txbuf: seq<byte>) {
    match pc
    case RawParse(bytes, i) => i <= |bytes| <= |txbuf| && txbuf[..i] == bytes[..i]
    case WantRaw(bytes) => |bytes| <= |txbuf| && txbuf[..|bytes|] == bytes
    case RawTransfer(bytes, wire) =>
      |wire| <= |bytes| <= |txbuf| && txbuf[..|bytes|] == bytes && wire == bytes[..|wire|]
    case _ => true
  }

  predicate TransfersExact(s: State) {
    && (forall t :: 0 <= t < |s.pcs| ==> TxInv(s.pcs[t], s.txbuf))
    && (forall r :: r in s.transfers ==> r.wire == r.given)
  }

  lemma AgreeStep(s: State, step: Step)
    requires Inv(s) && Enabled(s, step) && Agree(s) && TransfersExact(s)
    ensures TransfersExact(Apply(s, step))
  {
    hide RawStep, CmdStep, ReadStep, TransfersExact, ThreadInv, ServedInv, IrqInv, QuietChange;
    var s' := Apply(s, step);
    if step.Go? && Writing(s.pcs[step.t]) && !s.pcs[step.t].Unlock? && !s.pcs[step.t].ReadFormat? {
      RawStepExact(s, step.t, step.env);
    } else {
      QuietStep(s, step);
      QuietKeepsExact(s, s');
    }
  }

  lemma RawStepExact(s: State, t: nat, env: Env)
    requires Inv(s) && t < |s.pcs| && Writing(s.pcs[t]) && Agree(s) && TransfersExact(s)
    ensures TransfersExact(RawStep(s, t, env))
  {
    hide IrqInv, ThreadInv, ServedInv, RawStep, TxInv;
    var s' := RawStep(s, t, env);
    RawStepFrame(s, t, env);
    assert TxInv(s.pcs[t], s.txbuf);
    OwnTransferExact(s, t, env);
    forall u | 0 <= u < |s'.pcs|
      ensures TxInv(s'.pcs[u], s'.txbuf)
    {
      if u != t {
        assert TxInv(s.pcs[u], s.txbuf) && s'.pcs[u] == s.pcs[u];
        if Writing(s.pcs[u]) {
          assert AgreeOn(s.pcs[t].bytes, s.pcs[u].bytes);
          OthersUndisturbed(s, t, env, s.pcs[u]);
        } else {
          NotWriting(s.pcs[u], s'.txbuf);
        }
      }
    }
  }

  /** A token stored by one writer does not change what an agreeing one has stored. */
  lemma OthersUndisturbed(s: State, t: nat, env: Env, pc: Pc)
    requires t < |s.pcs| && Writing(s.pcs[t]) && Writing(pc) && TxInv(pc, s.txbuf)
    requires AgreeOn(s.pcs[t].bytes, pc.bytes)
    ensures TxInv(pc, RawStep(s, t, env).txbuf)
  {
    var tx := s.txbuf;
    if s.pcs[t].RawParse? && env.ok && s.pcs[t].i < |s.pcs[t].bytes| && s.pcs[t].i < |tx| {
      var k, b := s.pcs[t].i, s.pcs[t].bytes;
      var n := if pc.RawParse? then pc.i else |pc.bytes|;
      assert tx[..n] == pc.bytes[..n];
      if k < n {
        assert tx[k] == tx[..n][k] == pc.bytes[k] == b[k];
      }
      assert tx[k := b[k]][..n] == tx[..n];
      assert pc.bytes[..|pc.bytes|] == pc.bytes;
    }
  }

  lemma NotWriting(pc: Pc, txbuf: seq<byte>)
    requires !Writing(pc)
    ensures TxInv(pc, txbuf)
  {
  }

  lemma OwnTransferExact(s: State, t: nat, env: Env)
    requires t < |s.pcs| && Writing(s.pcs[t]) && BufInv(s) && TxInv(s.pcs[t], s.txbuf)
    requires forall r :: r in s.transfers ==> r.wire == r.given
    ensures var s' := RawStep(s, t, env);
            t < |s'.pcs| && TxInv(s'.pcs[t], s'.txbuf) && forall r :: r in s'.transfers ==> r.wire == r.given
  {
    var s' := RawStep(s, t, env);
    if s.pcs[t].RawParse? {
      var bytes, i := s.pcs[t].bytes, s.pcs[t].i;
      if i < |bytes| {
        assert bytes[..i + 1] == bytes[..i] + [bytes[i]];
        assert s.txbuf[i := bytes[i]][..i + 1] == s.txbuf[..i] + [bytes[i]];
      }
    } else if s.pcs[t].RawTransfer? {
      var bytes, wire := s.pcs[t].bytes, s.pcs[t].wire;
      if |wire| < |bytes| {
        assert s.txbuf[|wire|] == s.txbuf[..|bytes|][|wire|] == bytes[|wire|];
        assert bytes[..|wire| + 1] == wire + [bytes[|wire|]];
      } else {
        assert bytes[..|wire|] == bytes;
      }
    }
  }

  /** Every other step leaves the transmit buffer and the finished transfers alone, and lets no thread
      into a writing state except at its start. */
  lemma QuietStep(s: State, step: Step)
    requires Enabled(s, step)
    requires !(step.Go? && Writing(s.pcs[step.t]) && !s.pcs[step.t].Unlock? && !s.pcs[step.t].ReadFormat?)
    ensures var s' := Apply(s, step);
            && s'.txbuf == s.txbuf && s'.transfers == s.transfers && |s'.pcs| == |s.pcs|
            && forall u :: 0 <= u < |s.pcs| ==> QuietChange(s.pcs[u], s'.pcs[u])
  {
    hide Advanced, Locked, Holds, Writable;
    if step.StartRaw? {
      WritableLengths(step.bytes);
    }
    if step.Go? {
      QuietGo(s, step.t, step.env);
    } else if step.Lock? {
      QuietLock(s, step.t);
    }
  }

  lemma QuietLock(s: State, t: nat)
    requires t < |s.pcs| && (s.pcs[t].WantCmd? || s.pcs[t].WantRaw? || s.pcs[t].WantRead?)
    ensures var s' := Locked(s, t);
            && s'.txbuf == s.txbuf && s'.transfers == s.transfers && |s'.pcs| == |s.pcs|
            && forall u :: 0 <= u < |s.pcs| ==> QuietChange(s.pcs[u], s'.pcs[u])
  {
    hide Repeat;
  }

  lemma QuietGo(s: State, t: nat, env: Env)
    requires t < |s.pcs| && !(Writing(s.pcs[t]) && !s.pcs[t].Unlock? && !s.pcs[t].ReadFormat?)
    ensures var s' := Advanced(s, t, env);
            && s'.txbuf == s.txbuf && s'.transfers == s.transfers && |s'.pcs| == |s.pcs|
            && forall u :: 0 <= u < |s.pcs| ==> QuietChange(s.pcs[u], s'.pcs[u])
  {
    hide CmdStep, RawStep, ReadStep;
    if s.pcs[t].ReadFormat? {
      ReadStepFrame(s, t);
    } else if !s.pcs[t].Unlock? {
      CmdStepFrame(s, t, env);
    }
  }

  predicate QuietChange(pc: Pc, pc': Pc) {
    || pc' == pc
    || !Writing(pc')
    || (pc'.RawParse? && pc'.i == 0 && |pc'.bytes| <= BUF_MAX)
    || (pc.WantRaw? && pc' == RawTransfer(pc.bytes, []))
  }

  lemma QuietKeepsExact(s: State, s': State)
    requires TransfersExact(s) && |s.txbuf| == BUF_MAX
    requires s'.txbuf == s.txbuf && s'.transfers == s.transfers && |s'.pcs| == |s.pcs|
    requires forall u :: 0 <= u < |s.pcs| ==> QuietChange(s.pcs[u], s'.pcs[u])
    ensures TransfersExact(s')
  {
    forall u | 0 <= u < |s'.pcs|
      ensures TxInv(s'.pcs[u], s'.txbuf)
    {
      assert TxInv(s.pcs[u], s.txbuf) && QuietChange(s.pcs[u], s'.pcs[u]);
    }
  }

  /** If overlapping `raw` writes always agree, every transfer carries exactly the bytes written to the file.
      In particular it does if no two of them overlap. */
  lemma {:induction false} AgreeingWritesAreExact(states: seq<State>, steps: seq<Step>, k: nat)
    requires IsRun(states, steps) && k < |states|
    requires forall j :: 0 <= j < k ==> Agree(states[j])
    ensures TransfersExact(states[k])
  {
    hide Inv, Agree, Apply, TransfersExact;
    if k == 0 {
      hide *;
      InitTransfers(states, steps);
    } else {
      AgreeingWritesAreExact(states, steps, k - 1);
      RunInv(states, steps, k - 1);
      AgreeStep(states[k - 1], steps[k - 1]);
    }
  }

  lemma InitTransfers(states: seq<State>, steps: seq<Step>)
    requires IsRun(states, steps)
    ensures TransfersExact(states[0])
  {
  }

  //////////////////////////////////////////////////////////////////////////////
  // Agreement is exactly what the writes of the file need
  //////////////////////////////////////////////////////////////////////////////

  lemma StoreStep(s: State, t: nat, bytes: seq<byte>, i: nat)
    requires t < |s.pcs| && s.pcs[t] == RawParse(bytes, i) && i < |bytes| <= |s.txbuf|
    ensures Enabled(s, Go(t, GO_AHEAD))
    ensures Apply(s, Go(t, GO_AHEAD)) ==
            s.(txbuf := s.txbuf[i := bytes[i]], pcs := s.pcs[t := RawParse(bytes, i + 1)])
  {
  }

  lemma {:induction false} StoreTokens(s: State, t: nat, bytes: seq<byte>, i: nat, n: nat)
    requires t < |s.pcs| && s.pcs[t] == RawParse(bytes, i) && i + n <= |bytes| <= |s.txbuf|
    ensures Runs(s, Gos(t, n))
    ensures After(s, Gos(t, n)) ==
            s.(txbuf := s.txbuf[..i] + bytes[i..i + n] + s.txbuf[i + n..], pcs := s.pcs[t := RawParse(bytes, i + n)])
    decreases n
  {
    hide Enabled, Apply;
    if n == 0 {
      assert s.txbuf == s.txbuf[..i] + bytes[i..i] + s.txbuf[i..];
      assert s.pcs == s.pcs[t := s.pcs[t]];
    } else {
      StoreStep(s, t, bytes, i);
      var s' := Apply(s, Go(t, GO_AHEAD));
      StoreTokens(s', t, bytes, i + 1, n - 1);
      assert Gos(t, n)[0] == Go(t, GO_AHEAD) && Gos(t, n)[1..] == Gos(t, n - 1);
      assert s'.txbuf[..i + 1] + bytes[i + 1..i + n] + s'.txbuf[i + n..]
          == s.txbuf[..i] + bytes[i..i + n] + s.txbuf[i + n..];
      assert s'.pcs[t := RawParse(bytes, i + n)] == s.pcs[t := RawParse(bytes, i + n)];
    }
  }

  lemma TransferStep(s: State, t: nat, bytes: seq<byte>, wire: seq<byte>)
    requires t < |s.pcs| && s.pcs[t] == RawTransfer(bytes, wire) && |wire| < |bytes| <= |s.txbuf|
    ensures Enabled(s, Go(t, GO_AHEAD))
    ensures var s' := Apply(s, Go(t, GO_AHEAD));
            && s'.pcs == s.pcs[t := RawTransfer(bytes, wire + [s.txbuf[|wire|]])]
            && s'.txbuf == s.txbuf && s'.transfers == s.transfers
  {
  }

  /** A whole transfer clocks out what the buffer holds at the time. */
  lemma {:induction false} TransferAll(s: State, t: nat, bytes: seq<byte>, wire: seq<byte>)
    requires t < |s.pcs| && s.pcs[t] == RawTransfer(bytes, wire) && |wire| <= |bytes| <= |s.txbuf|
    ensures var n := |bytes| - |wire| + 1;
            && Runs(s, Gos(t, n))
            && After(s, Gos(t, n)).transfers == s.transfers + [Transfer(bytes, wire + s.txbuf[|wire|..|bytes|])]
    decreases |bytes| - |wire|
  {
    hide Enabled, Apply;
    var n := |bytes| - |wire| + 1;
    assert Gos(t, n)[0] == Go(t, GO_AHEAD) && Gos(t, n)[1..] == Gos(t, n - 1);
    if |wire| == |bytes| {
      TransferEnd(s, t, bytes, wire);
      assert wire + s.txbuf[|wire|..|bytes|] == wire;
    } else {
      TransferStep(s, t, bytes, wire);
      var s' := Apply(s, Go(t, GO_AHEAD));
      TransferAll(s', t, bytes, wire + [s.txbuf[|wire|]]);
      assert wire + [s.txbuf[|wire|]] + s.txbuf[|wire| + 1..|bytes|] == wire + s.txbuf[|wire|..|bytes|];
    }
  }

  lemma TransferEnd(s: State, t: nat, bytes: seq<byte>, wire: seq<byte>)
    requires t < |s.pcs| && s.pcs[t] == RawTransfer(bytes, wire) && |wire| == |bytes|
    ensures Enabled(s, Go(t, GO_AHEAD))
    ensures Apply(s, Go(t, GO_AHEAD)).transfers == s.transfers + [Transfer(bytes, wire)]
  {
  }

  /** From the last stored token into the mutex. */
  lemma EnterMutex(s: State, t: nat, bytes: seq<byte>)
    requires t < |s.pcs| && s.pcs[t] == RawParse(bytes, |bytes|) && s.owner.None?
    ensures var steps := [Go(t, GO_AHEAD), Lock(t)];
            && Runs(s, steps)
            && After(s, steps) == s.(owner := Some(t), pcs := s.pcs[t := RawTransfer(bytes, [])])
  {
    var s1 := At(s, t, WantRaw(bytes));
    assert Apply(s, Go(t, GO_AHEAD)) == s1;
    RunsOne(s, Go(t, GO_AHEAD));
    RunsOne(s1, Lock(t));
    assert Apply(s1, Lock(t)).pcs == s.pcs[t := RawTransfer(bytes, [])];
    RunsAppend(s, [Go(t, GO_AHEAD)], [Lock(t)]);
    assert [Go(t, GO_AHEAD)] + [Lock(t)] == [Go(t, GO_AHEAD), Lock(t)];
  }

  lemma StartStep(s: State, t: nat, bytes: seq<byte>)
    requires t < |s.pcs| && s.pcs[t].Idle? && Writable(bytes)
    ensures Enabled(s, StartRaw(t, bytes))
    ensures Apply(s, StartRaw(t, bytes)) == s.(pcs := s.pcs[t := RawParse(bytes, 0)])
  {
  }

  lemma FirstTokens(tx: seq<byte>, bytes: seq<byte>, n: nat)
    requires n <= |bytes| <= |tx|
    ensures tx[..0] + bytes[0..0 + n] + tx[0 + n..] == bytes[..n] + tx[n..]
  {
  }

  /** A write up to its n-th token. */
  lemma StartWriting(s: State, t: nat, bytes: seq<byte>, n: nat)
    requires t < |s.pcs| && s.pcs[t].Idle? && Writable(bytes) && n <= |bytes| <= |s.txbuf|
    ensures var steps := [StartRaw(t, bytes)] + Gos(t, n);
            && Runs(s, steps)
            && After(s, steps) == s.(txbuf := bytes[..n] + s.txbuf[n..], pcs := s.pcs[t := RawParse(bytes, n)])
  {
    hide Apply, Enabled, Runs, After, Writable;
    StartStep(s, t, bytes);
    var s1 := Apply(s, StartRaw(t, bytes));
    RunsOne(s, StartRaw(t, bytes));
    StoreTokens(s1, t, bytes, 0, n);
    FirstTokens(s.txbuf, bytes, n);
    assert s1.pcs[t := RawParse(bytes, n)] == s.pcs[t := RawParse(bytes, n)];
    hide Gos;
    RunsAppend(s, [StartRaw(t, bytes)], Gos(t, n));
  }

  predicate OnlyWrites(steps: seq<Step>, allowed: set<seq<byte>>) {
    forall k :: 0 <= k < |steps| && steps[k].StartRaw? ==> steps[k].bytes in allowed
  }

  /** For any two strings, thread 0 may store all of p, thread 1 the first n bytes of q over it, and thread 0
      then take the mutex and clock out the mixture. */
  lemma RacingWriters(s0: State, p: seq<byte>, q: seq<byte>, n: nat) returns (steps: seq<Step>)
    requires Init(s0) && |s0.pcs| >= 2 && Writable(p) && Writable(q) && n <= |p| && n <= |q|
    ensures Runs(s0, steps) && OnlyWrites(steps, {p, q})
    ensures Transfer(p, q[..n] + p[n..]) in After(s0, steps).transfers
  {
    hide Apply, Enabled, Runs, After, Writable;
    WritableLengths(p);
    WritableLengths(q);
    assert s0.owner.None? && s0.pcs[0].Idle? && s0.pcs[1].Idle? && |s0.txbuf| == BUF_MAX;
    hide Init;
    var a, b := [StartRaw(0, p)] + Gos(0, |p|), [StartRaw(1, q)] + Gos(1, n);
    var c, d := [Go(0, GO_AHEAD), Lock(0)], Gos(0, |p| + 1);
    StartWriting(s0, 0, p, |p|);
    var s1 := After(s0, a);
    StartWriting(s1, 1, q, n);
    var s2 := After(s1, b);
    EnterMutex(s2, 0, p);
    var s3 := After(s2, c);
    TransferAll(s3, 0, p, []);
    var tx := s0.txbuf[|p|..];
    assert p[..|p|] == p;
    assert s3.txbuf == q[..n] + (p + tx)[n..];
    assert [] + s3.txbuf[0..|p|] == q[..n] + p[n..];
    RunsAppend(s2, c, d);
    RunsAppend(s1, b, c + d);
    RunsAppend(s0, a, b + (c + d));
    steps := a + (b + (c + d));
    var all := s3.transfers + [Transfer(p, q[..n] + p[n..])];
    assert all[|s3.transfers|] == Transfer(p, q[..n] + p[n..]);
  }

  /** In a run of this kind every thread that writes has an allowed string. */
  lemma {:induction false} WritersAllowed(states: seq<State>, steps: seq<Step>, allowed: set<seq<byte>>, k: nat)
    requires IsRun(states, steps) && OnlyWrites(steps, allowed) && k < |states|
    ensures forall t :: 0 <= t < |states[k].pcs| && Writing(states[k].pcs[t]) ==> states[k].pcs[t].bytes in allowed
  {
    hide Enabled, Apply;
    if k == 0 {
      NobodyWrites(states[0]);
    } else {
      WritersAllowed(states, steps, allowed, k - 1);
      forall t | 0 <= t < |states[k].pcs| && Writing(states[k].pcs[t])
        ensures states[k].pcs[t].bytes in allowed
      {
        StringsKept(states[k - 1], steps[k - 1], t);
      }
    }
  }

  lemma NobodyWrites(s: State)
    requires Init(s)
    ensures forall t :: 0 <= t < |s.pcs| ==> !Writing(s.pcs[t])
  {
  }

  /** A thread that writes has been writing the same string before the step, or starts with it. */
  lemma StringsKept(s: State, step: Step, t: nat)
    requires Enabled(s, step) && t < |Apply(s, step).pcs| && Writing(Apply(s, step).pcs[t])
    ensures || (t < |s.pcs| && Writing(s.pcs[t]) && s.pcs[t].bytes == Apply(s, step).pcs[t].bytes)
            || step == StartRaw(t, Apply(s, step).pcs[t].bytes)
  {
    hide Advanced, Locked, Holds;
    match step
    case Go(u, env) => GoStrings(s, u, env);
    case Lock(u) => LockStrings(s, u);
    case _ =>
  }

  lemma LockStrings(s: State, t: nat)
    requires t < |s.pcs| && (s.pcs[t].WantCmd? || s.pcs[t].WantRaw? || s.pcs[t].WantRead?)
    ensures var s' := Locked(s, t);
            && |s'.pcs| == |s.pcs| && s'.pcs == s.pcs[t := s'.pcs[t]]
            && (Writing(s'.pcs[t]) ==> Writing(s.pcs[t]) && s'.pcs[t].bytes == s.pcs[t].bytes)
  {
    hide Repeat;
    var s' := Locked(s, t);
    assert s.pcs[t := s.pcs[t]] == s.pcs;
  }

  lemma GoStrings(s: State, t: nat, env: Env)
    requires t < |s.pcs|
    ensures var s' := Advanced(s, t, env);
            && |s'.pcs| == |s.pcs| && s'.pcs == s.pcs[t := s'.pcs[t]]
            && (Writing(s'.pcs[t]) ==> Writing(s.pcs[t]) && s'.pcs[t].bytes == s.pcs[t].bytes)
  {
    hide CmdStep, RawStep, ReadStep;
    CmdStepFrame(s, t, env);
    RawStepString(s, t, env);
    if s.pcs[t].ReadFormat? {
      ReadStepFrame(s, t);
    }
  }

  lemma RawStepString(s: State, t: nat, env: Env)
    requires t < |s.pcs|
    ensures var s' := RawStep(s, t, env);
            && |s'.pcs| == |s.pcs| && s'.pcs == s.pcs[t := s'.pcs[t]]
            && (Writing(s.pcs[t]) && Writing(s'.pcs[t]) ==> s'.pcs[t].bytes == s.pcs[t].bytes)
  {
    hide Receive, Complete;
    ReceiveFrame(s, env.b);
  }

  /** The runs from s0 in which only strings of the set are written to the `raw` file. */
  ghost predicate RunOf(s0: State, states: seq<State>, steps: seq<Step>, allowed: set<seq<byte>>) {
    IsRun(states, steps) && states[0] == s0 && OnlyWrites(steps, allowed)
  }

  predicate AllExact(states: seq<State>) {
    forall k, r :: 0 <= k < |states| && r in states[k].transfers ==> r.wire == r.given
  }

  /** Given two threads or more and a set of strings to write to the `raw` file: every transfer of every run
      carries the string it was given, if and only if any two strings of the set agree as far as both go. */
  lemma ExactIffAgreed(s0: State, allowed: set<seq<byte>>)
    requires Init(s0) && |s0.pcs| >= 2
    requires forall p :: p in allowed ==> Writable(p)
    ensures (forall states, steps :: RunOf(s0, states, steps, allowed) ==> AllExact(states)) <==>
            (forall p, q :: p in allowed && q in allowed ==> AgreeOn(p, q))
  {
    hide AllExact, AgreeOn, RunOf, Writable;
    if forall p, q :: p in allowed && q in allowed ==> AgreeOn(p, q) {
      forall states, steps | RunOf(s0, states, steps, allowed)
        ensures AllExact(states)
      {
        AgreedRunsExact(s0, states, steps, allowed);
      }
    } else {
      var p, q :| p in allowed && q in allowed && !AgreeOn(p, q);
      var states, steps := DisagreementRun(s0, p, q);
      MoreAllowed(s0, states, steps, {p, q}, allowed);
    }
  }

  lemma MoreAllowed(s0: State, states: seq<State>, steps: seq<Step>, few: set<seq<byte>>, many: set<seq<byte>>)
    requires RunOf(s0, states, steps, few) && few <= many
    ensures RunOf(s0, states, steps, many)
  {
    hide IsRun;
  }

  lemma AgreedRunsExact(s0: State, states: seq<State>, steps: seq<Step>, allowed: set<seq<byte>>)
    requires RunOf(s0, states, steps, allowed)
    requires forall p, q :: p in allowed && q in allowed ==> AgreeOn(p, q)
    ensures AllExact(states)
  {
    hide Enabled, Apply, Init, TxInv, AgreeOn, Writing;
    forall j | 0 <= j < |states|
      ensures Agree(states[j])
    {
      WritersAllowed(states, steps, allowed, j);
    }
    forall k, r | 0 <= k < |states| && r in states[k].transfers
      ensures r.wire == r.given
    {
      AgreeingWritesAreExact(states, steps, k);
    }
  }

  lemma DisagreementRun(s0: State, p: seq<byte>, q: seq<byte>) returns (states: seq<State>, steps: seq<Step>)
    requires Init(s0) && |s0.pcs| >= 2 && Writable(p) && Writable(q) && !AgreeOn(p, q)
    ensures RunOf(s0, states, steps, {p, q}) && !AllExact(states)
  {
    hide Enabled, Apply, Runs, After, Writable;
    var i: nat :| i < |p| && i < |q| && p[i] != q[i];
    steps := RacingWriters(s0, p, q, i + 1);
    states := RunFrom(s0, steps);
    var wire := q[..i + 1] + p[i + 1..];
    assert wire[i] == q[i];
    assert Transfer(p, wire) in states[|steps|].transfers;
  }
}
