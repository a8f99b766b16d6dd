/** Schedules of the interleaving model of kernel/gxfp.c: runs built step by step, for what can happen rather
    than for what cannot. */
module Schedules {
  import opened Bytes
  import opened Driver
  import opened Interleaving

  /** The steps can be taken one after another from s on. */
  ghost predicate Runs(s: State, steps: seq<Step>)
    decreases |steps|
  {
    steps == [] || (Enabled(s, steps[0]) && Runs(Apply(s, steps[0]), steps[1..]))
  }

  ghost function After(s: State, steps: seq<Step>): State
    requires Runs(s, steps)
    decreases |steps|
  {
    if steps == [] then s else After(Apply(s, steps[0]), steps[1..])
  }

  lemma {:induction false} RunsAppend(s: State, a: seq<Step>, b: seq<Step>)
    requires Runs(s, a) && Runs(After(s, a), b)
    ensures Runs(s, a + b) && After(s, a + b) == After(After(s, a), b)
    decreases |a|
  {
    hide Enabled, Apply;
    if a == [] {
      assert a + b == b;
    } else {
      RunsAppend(Apply(s, a[0]), a[1..], b);
      assert (a + b)[0] == a[0] && (a + b)[1..] == a[1..] + b;
    }
  }

  lemma RunsOne(s: State, step: Step)
    requires Enabled(s, step)
    ensures Runs(s, [step]) && After(s, [step]) == Apply(s, step)
  {
    hide Enabled, Apply;
    assert [step][1..] == [];
    assert Runs(Apply(s, step), []);
  }

  /** From an initial state, such steps are those of a run. */
  lemma {:induction false} RunFrom(s: State, steps: seq<Step>) returns (states: seq<State>)
    requires Runs(s, steps)
    ensures |states| == |steps| + 1 && states[0] == s && states[|steps|] == After(s, steps)
    ensures forall k :: 0 <= k < |steps| ==> Enabled(states[k], steps[k]) && states[k + 1] == Apply(states[k], steps[k])
    decreases |steps|
  {
    hide Enabled, Apply;
    if steps == [] {
      states := [s];
    } else {
      var rest := RunFrom(Apply(s, steps[0]), steps[1..]);
      states := [s] + rest;
      forall k | 0 <= k < |steps|
        ensures Enabled(states[k], steps[k]) && states[k + 1] == Apply(states[k], steps[k])
      {
        if k > 0 {
          assert steps[k] == steps[1..][k - 1] && states[k] == rest[k - 1] && states[k + 1] == rest[k];
        }
      }
    }
  }

  const GO_AHEAD := Env(true, 0, 0)

  /** Thread t advances n times. */
  function Gos(t: nat, n: nat): (steps: seq<Step>)
    ensures |steps| == n && forall k :: 0 <= k < n ==> steps[k] == Go(t, GO_AHEAD)
  {
    if n == 0 then [] else [Go(t, GO_AHEAD)] + Gos(t, n - 1)
  }

  //////////////////////////////////////////////////////////////////////////////
  // Interrupts
  //////////////////////////////////////////////////////////////////////////////

  /** Nothing but an interrupt that has not got to its wake-up, or one still to come, sets `data_ready`. */
  predicate CanWake(s: State) {
    s.dataReady || s.isr.IsrCounted? || s.irqCount < IRQ_STORM
  }

  lemma CannotWakeStep(s: State, step: Step)
    requires IrqInv(s) && Enabled(s, step) && !CanWake(s)
    ensures !CanWake(Apply(s, step))
  {
    hide Holds, CmdStep, RawStep, ReadStep, Repeat, Writable;
    if step.Go? {
      CmdStepFrame(s, step.t, step.env);
      RawStepFrame(s, step.t, step.env);
      if s.pcs[step.t].ReadFormat? {
        ReadStepFrame(s, step.t);
      }
    }
  }

  lemma {:induction false} CannotWake(s: State, steps: seq<Step>)
    requires Inv(s) && Runs(s, steps) && !CanWake(s)
    ensures !After(s, steps).dataReady
    decreases |steps|
  {
    hide Inv, Enabled, Apply;
    if steps != [] {
      assert IrqInv(s) by { InvIrq(s); }
      hide CanWake;
      CannotWakeStep(s, steps[0]);
      StepKeepsInv(s, steps[0]);
      CannotWake(Apply(s, steps[0]), steps[1..]);
    }
  }

  lemma InvIrq(s: State)
    requires Inv(s)
    ensures IrqInv(s)
  {
    hide IrqInv, BufInv, ThreadInv, ServedInv;
  }

  lemma InterruptRuns(s: State)
    requires Enabled(s, Interrupt)
    ensures Runs(s, [Interrupt]) && After(s, [Interrupt]) == Interrupted(s)
  {
    RunsOne(s, Interrupt);
  }

  predicate OnlyInterrupts(steps: seq<Step>) {
    forall k :: 0 <= k < |steps| ==> steps[k] == Interrupt
  }

  /** In any state that a run can reach: some continuation sets `data_ready` if and only if it is set, or a
      handler has still to set it, or fewer than 200 interrupts have come. If there is such a continuation, there
      is one of interrupts alone, through which every waiting command still waits. */
  lemma WakesExact(s: State)
    requires Inv(s)
    ensures (exists steps :: Runs(s, steps) && After(s, steps).dataReady) <==> CanWake(s)
    ensures CanWake(s) ==> exists steps :: OnlyInterrupts(steps) && Runs(s, steps) && After(s, steps).dataReady
  {
    hide BufInv, ThreadInv, ServedInv, Runs, After;
    if CanWake(s) {
      var steps := WakeUp(s);
    } else {
      forall steps | Runs(s, steps)
        ensures !After(s, steps).dataReady
      {
        CannotWake(s, steps);
      }
    }
  }

  lemma WakeUp(s: State) returns (steps: seq<Step>)
    requires IrqInv(s) && CanWake(s)
    ensures OnlyInterrupts(steps) && Runs(s, steps) && After(s, steps).dataReady
  {
    if s.dataReady {
      steps := [];
    } else if s.isr.IsrCounted? {
      InterruptRuns(s);
      steps := [Interrupt];
    } else if s.isr.IsrIdle? {
      steps := HandlerWakes(s);
    } else {
      InterruptRuns(s);
      var more := HandlerWakes(Interrupted(s));
      RunsAppend(s, [Interrupt], more);
      steps := [Interrupt] + more;
    }
  }

  lemma HandlerWakes(s: State) returns (steps: seq<Step>)
    requires s.isr.IsrIdle? && s.disables == 0
    ensures OnlyInterrupts(steps) && Runs(s, steps) && After(s, steps).dataReady
  {
    InterruptRuns(s);
    InterruptRuns(Interrupted(s));
    RunsAppend(s, [Interrupt], [Interrupt]);
    steps := [Interrupt] + [Interrupt];
  }

  /** One whole handler. */
  function Handled(s: State): State
    requires s.isr.IsrIdle?
  {
    Interrupted(Interrupted(Interrupted(s)))
  }

  lemma HandlerRuns(s: State)
    requires s.isr.IsrIdle? && s.disables == 0
    ensures Runs(s, [Interrupt, Interrupt, Interrupt]) && After(s, [Interrupt, Interrupt, Interrupt]) == Handled(s)
  {
    InterruptRuns(s);
    InterruptRuns(Interrupted(s));
    InterruptRuns(Interrupted(Interrupted(s)));
    RunsAppend(s, [Interrupt], [Interrupt]);
    RunsAppend(s, [Interrupt] + [Interrupt], [Interrupt]);
    assert [Interrupt] + [Interrupt] + [Interrupt] == [Interrupt, Interrupt, Interrupt];
  }

  /** The storm: from any state between two handlers, interrupts alone disable the line. */
  lemma {:induction false} Storm(s: State) returns (steps: seq<Step>)
    requires IrqInv(s) && s.isr.IsrIdle? && s.disables == 0
    ensures OnlyInterrupts(steps) && Runs(s, steps) && After(s, steps).disables == 1
    ensures |steps| == 3 * (200 - s.irqCount)
    decreases IRQ_STORM - s.irqCount
  {
    hide Runs, After;
    var once := [Interrupt, Interrupt, Interrupt];
    HandlerRuns(s);
    if s.irqCount + 1 == IRQ_STORM {
      steps := once;
    } else {
      var more := Storm(Handled(s));
      RunsAppend(s, once, more);
      steps := once + more;
    }
  }

  /** From the start it takes exactly 200 handlers, of three steps each. */
  lemma StormFromStart(s0: State) returns (steps: seq<Step>)
    requires Init(s0)
    ensures OnlyInterrupts(steps) && Runs(s0, steps) && After(s0, steps).disables == 1 && |steps| == 600
  {
    hide Runs, After;
    InitInv(s0);
    steps := Storm(s0);
  }

  //////////////////////////////////////////////////////////////////////////////
  // One thread by itself
  //////////////////////////////////////////////////////////////////////////////

  /** The step is one of thread t. */
  predicate By(t: nat, step: Step) {
    !step.Interrupt? && step.t == t
  }

  /** Steps of thread t alone lead from s to s'. */
  ghost predicate Leads(t: nat, s: State, s': State) {
    exists steps :: (forall k :: 0 <= k < |steps| ==> By(t, steps[k])) && Runs(s, steps) && After(s, steps) == s'
  }

  lemma LeadsOne(t: nat, s: State, step: Step)
    requires By(t, step) && Enabled(s, step)
    ensures Leads(t, s, Apply(s, step))
  {
    hide Enabled, Apply, Runs, After;
    RunsOne(s, step);
  }

  lemma LeadsNowhere(t: nat, s: State)
    ensures Leads(t, s, s)
  {
    assert Runs(s, []) && After(s, []) == s;
  }

  lemma LeadsOn(t: nat, a: State, b: State, c: State)
    requires Leads(t, a, b) && Leads(t, b, c)
    ensures Leads(t, a, c)
  {
    hide Runs, After, By;
    var x: seq<Step> :| (forall k :: 0 <= k < |x| ==> By(t, x[k])) && Runs(a, x) && After(a, x) == b;
    var y: seq<Step> :| (forall k :: 0 <= k < |y| ==> By(t, y[k])) && Runs(b, y) && After(b, y) == c;
    RunsAppend(a, x, y);
    assert forall k :: 0 <= k < |x + y| ==> By(t, (x + y)[k]);
  }
}
