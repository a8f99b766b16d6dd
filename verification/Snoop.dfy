/** spisnoop/spisnoop.c: the sampling loop of `snap_show`, its bounded event log, and the verdict. */
module Snoop {
  import Bits

  const MAX_EVENTS := 64
  const U64: nat := 0x1_0000_0000_0000_0000

  /** One pass of the loop: the clock, CS_CONTROL, and the controller-enabled and busy bits. */
  datatype Reading = Reading(now: nat, cs: bv32, sscr0: bv32, sssr: bv32)

  datatype Event = Event(t: nat, cs: bv32, sscr0: bv32, sssr: bv32)

  datatype Verdict = NoTraffic | NeverAsserted | HeldAsserted | Toggling

  /** SSCR0_SSE, SSSR_BSY and CS_STATE */
  predicate Enabled(r: Reading) {
    r.sscr0 & 0x80 != 0
  }

  predicate Busy(r: Reading) {
    r.sssr & 0x10 != 0
  }

  /** CS_CONTROL bit 1: chip select is high, that is, deasserted. */
  predicate High(cs: bv32) {
    cs & 0x2 != 0
  }

  /** Each test reads one bit of its register and nothing else, and says whether that bit is set. */
  lemma BitsTested(r: Reading, m: bv32)
    ensures High(r.cs ^ 0x2) != High(r.cs) && (m & 0x2 == 0 ==> High(r.cs ^ m) == High(r.cs))
    ensures Enabled(r.(sscr0 := r.sscr0 ^ 0x80)) != Enabled(r)
    ensures m & 0x80 == 0 ==> Enabled(r.(sscr0 := r.sscr0 ^ m)) == Enabled(r)
    ensures Busy(r.(sssr := r.sssr ^ 0x10)) != Busy(r)
    ensures m & 0x10 == 0 ==> Busy(r.(sssr := r.sssr ^ m)) == Busy(r)
    ensures High(0x2) && !High(0) && Enabled(r.(sscr0 := 0x80)) && !Enabled(r.(sscr0 := 0))
    ensures Busy(r.(sssr := 0x10)) && !Busy(r.(sssr := 0))
  {
    BitTested(r.cs, m, 0x2);
    BitTested(r.sscr0, m, 0x80);
    BitTested(r.sssr, m, 0x10);
  }

  lemma BitTested(x: bv32, m: bv32, b: bv32)
    requires b in {0x2, 0x10, 0x80}
    ensures (x ^ b) & b != 0 <==> x & b == 0
    ensures m & b == 0 ==> (x ^ m) & b == x & b
  {
  }

  predicate Traffic(rs: seq<Reading>) {
    exists i :: 0 <= i < |rs| && (Enabled(rs[i]) || Busy(rs[i]))
  }

  function CountEnabled(rs: seq<Reading>): (n: nat)
    ensures n <= |rs|
    ensures n == 0 <==> forall i :: 0 <= i < |rs| ==> !Enabled(rs[i])
  {
    if rs == [] then 0
    else CountEnabled(rs[..|rs| - 1]) + if Enabled(rs[|rs| - 1]) then 1 else 0
  }

  function CountBusy(rs: seq<Reading>): (n: nat)
    ensures n <= |rs|
    ensures n == 0 <==> forall i :: 0 <= i < |rs| ==> !Busy(rs[i])
  {
    if rs == [] then 0
    else CountBusy(rs[..|rs| - 1]) + if Busy(rs[|rs| - 1]) then 1 else 0
  }

  /** How many samples saw chip select asserted. */
  function CountLow(rs: seq<Reading>): (n: nat)
    ensures n <= |rs|
    ensures n == 0 <==> forall i :: 0 <= i < |rs| ==> High(rs[i].cs)
    ensures n == |rs| <==> forall i :: 0 <= i < |rs| ==> !High(rs[i].cs)
  {
    if rs == [] then 0
    else CountLow(rs[..|rs| - 1]) + if High(rs[|rs| - 1].cs) then 0 else 1
  }

  /** The CS_CONTROL value before reading i: the previous reading's, or the baseline. */
  function Before(base: bv32, rs: seq<Reading>, i: nat): bv32
    requires i < |rs|
  {
    if i == 0 then base else rs[i - 1].cs
  }

  /** The positions where CS_CONTROL differs from the value before it, in order. */
  function Changes(base: bv32, rs: seq<Reading>): (ps: seq<nat>)
    ensures |ps| <= |rs|
    ensures forall k :: 0 <= k < |ps| ==> ps[k] < |rs|
  {
    if rs == [] then []
    else
      var last := |rs| - 1;
      var ps := Changes(base, rs[..last]);
      if rs[last].cs != Before(base, rs, last) then ps + [last] else ps
  }

  predicate Ascending(ps: seq<nat>) {
    forall j, k :: 0 <= j < k < |ps| ==> ps[j] < ps[k]
  }

  lemma {:induction false} ChangesAscend(base: bv32, rs: seq<Reading>)
    ensures Ascending(Changes(base, rs))
  {
    if rs != [] {
      var last := |rs| - 1;
      ChangesAscend(base, rs[..last]);
      var ps := Changes(base, rs[..last]);
      assert forall k :: 0 <= k < |ps| ==> ps[k] < last;
      assert Ascending(ps + [last]);
    }
  }

  lemma {:induction false} ChangesMember(base: bv32, rs: seq<Reading>, i: nat)
    requires i < |rs|
    ensures i in Changes(base, rs) <==> rs[i].cs != Before(base, rs, i)
  {
    var last := |rs| - 1;
    var init := rs[..last];
    if i < last {
      ChangesMember(base, init, i);
      assert init[i] == rs[i] && Before(base, init, i) == Before(base, rs, i);
    }
  }

  /** The list is in order and holds each position that differs from the one before it, and no other. */
  lemma ChangesExact(base: bv32, rs: seq<Reading>)
    ensures var ps := Changes(base, rs);
            && (forall j, k :: 0 <= j < k < |ps| ==> ps[j] < ps[k])
            && (forall i :: 0 <= i < |rs| ==> (i in ps <==> rs[i].cs != Before(base, rs, i)))
  {
    hide Changes, Before;
    ChangesAscend(base, rs);
    forall i | 0 <= i < |rs|
      ensures i in Changes(base, rs) <==> rs[i].cs != Before(base, rs, i)
    {
      ChangesMember(base, rs, i);
    }
  }

  function EventAt(t0: nat, r: Reading): Event {
    Event((r.now - t0) % U64, r.cs, r.sscr0, r.sssr)
  }

  /** The loop stops at the first reading whose time is up; everything before it is a sample. */
  function Window(t0: nat, ms: nat, rs: seq<Reading>): (n: nat)
    ensures n <= |rs|
    ensures forall i :: 0 <= i < n ==> (rs[i].now - t0) % U64 < ms * 1000000
    ensures n < |rs| ==> (rs[n].now - t0) % U64 >= ms * 1000000
  {
    if rs == [] || (rs[0].now - t0) % U64 >= ms * 1000000 then 0 else 1 + Window(t0, ms, rs[1..])
  }

  function Min(a: nat, b: nat): nat {
    if a <= b then a else b
  }

  /** What the counters and the log say about the samples taken. */
  function VerdictOf(sseOn: nat, bsyOn: nat, nev: nat, csLow: nat, samples: nat): Verdict {
    if sseOn == 0 && bsyOn == 0 then NoTraffic
    else if nev == 0 && csLow == 0 then NeverAsserted
    else if nev == 0 && csLow == samples then HeldAsserted
    else Toggling
  }

  /** The log holds exactly the first 64 changes (all of them, if there are fewer). */
  predicate Logged(log: seq<Event>, t0: nat, base: bv32, seen: seq<Reading>) {
    && |log| == Min(MAX_EVENTS, |Changes(base, seen)|)
    && forall k :: 0 <= k < |log| ==> log[k] == EventAt(t0, seen[Changes(base, seen)[k]])
  }

  lemma ChangesStep(base: bv32, rs: seq<Reading>, n: nat)
    requires n < |rs|
    ensures Changes(base, rs[..n + 1]) == Changes(base, rs[..n]) + if rs[n].cs != Before(base, rs, n) then [n] else []
  {
    var more := rs[..n + 1];
    assert more[..n] == rs[..n];
    assert more[n] == rs[n] && Before(base, more, n) == Before(base, rs, n);
  }

  lemma LogStep(log: seq<Event>, t0: nat, base: bv32, rs: seq<Reading>, n: nat)
    requires n < |rs| && Logged(log, t0, base, rs[..n])
    ensures Logged(if rs[n].cs != Before(base, rs, n) && |log| < MAX_EVENTS then log + [EventAt(t0, rs[n])] else log,
                   t0, base, rs[..n + 1])
  {
    hide EventAt, Changes, Before;
    ChangesStep(base, rs, n);
    var ps := Changes(base, rs[..n]);
    assert forall k :: 0 <= k < |ps| ==> rs[..n][ps[k]] == rs[..n + 1][ps[k]];
  }

  predicate Counted(sseOn: nat, bsyOn: nat, csLow: nat, seen: seq<Reading>) {
    sseOn == CountEnabled(seen) && bsyOn == CountBusy(seen) && csLow == CountLow(seen)
  }

  lemma CountStep(sseOn: nat, bsyOn: nat, csLow: nat, rs: seq<Reading>, n: nat)
    requires n < |rs| && Counted(sseOn, bsyOn, csLow, rs[..n])
    ensures Counted(sseOn + (if Enabled(rs[n]) then 1 else 0), bsyOn + (if Busy(rs[n]) then 1 else 0),
                    csLow + (if High(rs[n].cs) then 0 else 1), rs[..n + 1])
  {
    hide Enabled, Busy, High;
    assert rs[..n + 1][..n] == rs[..n];
  }

  /** `snap_show`. `rs` is the stream of readings the clock and the registers would give; the clock
      advances, so some reading lies past the window. */
  method SnapShow(base: bv32, t0: nat, ms: nat, rs: seq<Reading>)
      returns (samples: nat, sseOn: nat, bsyOn: nat, csLow: nat, nev: nat, ev: array<Event>, verdict: Verdict)
    requires Window(t0, ms, rs) < |rs|
    ensures samples == Window(t0, ms, rs)
    ensures Counted(sseOn, bsyOn, csLow, rs[..samples])
    ensures ev.Length == MAX_EVENTS && nev <= MAX_EVENTS && Logged(ev[..nev], t0, base, rs[..samples])
    ensures verdict == Judge(base, rs[..samples])
  {
    hide EventAt, Enabled, Busy, High, Window, Logged, Counted;
    ev := new Event[MAX_EVENTS](_ => Event(0, 0, 0, 0));
    samples, sseOn, bsyOn, csLow, nev := 0, 0, 0, 0, 0;
    var lastCs := base;
    ghost var n := Window(t0, ms, rs);
    NothingYet(t0, base, rs);
    assert ev[..0] == [];
    while true
      invariant samples <= n && nev <= MAX_EVENTS
      invariant Counted(sseOn, bsyOn, csLow, rs[..samples])
      invariant Logged(ev[..nev], t0, base, rs[..samples])
      invariant nev < MAX_EVENTS ==> lastCs == if samples == 0 then base else rs[samples - 1].cs
      decreases n - samples
    {
      var r := rs[samples];
      if (r.now - t0) % U64 >= ms * 1000000 {
        break;
      }
      LogStep(ev[..nev], t0, base, rs, samples);
      CountStep(sseOn, bsyOn, csLow, rs, samples);
      samples := samples + 1;
      if Enabled(r) {
        sseOn := sseOn + 1;
      }
      if Busy(r) {
        bsyOn := bsyOn + 1;
      }
      if !High(r.cs) {
        csLow := csLow + 1;
      }
      if r.cs != lastCs && nev < MAX_EVENTS {
        ev[nev] := EventAt(t0, r);
        nev := nev + 1;
        assert ev[..nev] == ev[..nev - 1] + [ev[nev - 1]];
        lastCs := r.cs;
      }
    }
    assert samples == n;
    if sseOn == 0 && bsyOn == 0 {
      verdict := NoTraffic;
    } else if nev == 0 && csLow == 0 {
      verdict := NeverAsserted;
    } else if nev == 0 && csLow == samples {
      verdict := HeldAsserted;
    } else {
      verdict := Toggling;
    }
    CountersJudge(sseOn, bsyOn, csLow, ev[..nev], t0, base, rs[..samples]);
  }

  lemma NothingYet(t0: nat, base: bv32, rs: seq<Reading>)
    ensures Counted(0, 0, 0, rs[..0]) && Logged([], t0, base, rs[..0])
  {
  }

  lemma CountersJudge(sseOn: nat, bsyOn: nat, csLow: nat, log: seq<Event>, t0: nat, base: bv32, seen: seq<Reading>)
    requires Counted(sseOn, bsyOn, csLow, seen) && Logged(log, t0, base, seen)
    ensures VerdictOf(sseOn, bsyOn, |log|, csLow, |seen|) == Judge(base, seen)
  {
    hide Changes, EventAt, CountEnabled, CountBusy, CountLow;
  }

  //////////////////////////////////////////////////////////////////////////////
  // What the verdict means
  //////////////////////////////////////////////////////////////////////////////

  function Judge(base: bv32, seen: seq<Reading>): Verdict {
    VerdictOf(CountEnabled(seen), CountBusy(seen), Min(MAX_EVENTS, |Changes(base, seen)|), CountLow(seen), |seen|)
  }

  /** Nothing was logged exactly when every sample equals the baseline. */
  lemma NoChanges(base: bv32, seen: seq<Reading>)
    ensures Changes(base, seen) == [] <==> forall i :: 0 <= i < |seen| ==> seen[i].cs == base
  {
    hide Changes;
    var ps := Changes(base, seen);
    ChangesExact(base, seen);
    if ps == [] {
      AllBaseline(base, seen, |seen|);
    } else {
      assert ps[0] in ps && seen[ps[0]].cs != Before(base, seen, ps[0]);
    }
  }

  lemma {:induction false} AllBaseline(base: bv32, seen: seq<Reading>, n: nat)
    requires Changes(base, seen) == [] && n <= |seen|
    ensures forall i :: 0 <= i < n ==> seen[i].cs == base
  {
    hide Changes;
    if n > 0 {
      AllBaseline(base, seen, n - 1);
      ChangesExact(base, seen);
      assert n - 1 !in Changes(base, seen);
    }
  }

  /** Whenever traffic was seen the verdict is exact: "toggling" if and only if some sample differs from
      the baseline; otherwise "never asserted" or "held", as the baseline's bit 1 says. */
  lemma VerdictExact(base: bv32, seen: seq<Reading>)
    ensures Judge(base, seen) == NoTraffic <==> !Traffic(seen)
    ensures Traffic(seen) ==>
              && (Judge(base, seen) == Toggling <==> exists i :: 0 <= i < |seen| && seen[i].cs != base)
              && (Judge(base, seen) == NeverAsserted <==>
                    High(base) && forall i :: 0 <= i < |seen| ==> seen[i].cs == base)
              && (Judge(base, seen) == HeldAsserted <==>
                    !High(base) && forall i :: 0 <= i < |seen| ==> seen[i].cs == base)
  {
    hide Enabled, Busy, High, Changes, CountEnabled, CountBusy, CountLow;
    NoChanges(base, seen);
    if Traffic(seen) && (forall i :: 0 <= i < |seen| ==> seen[i].cs == base) {
      assert High(seen[0].cs) == High(base);
    }
  }

  /** The words on the screen speak of chip select alone, that is, of bit 1. The first two are always
      right about it; the printed "toggling" is right if and only if bit 1 itself took both values, or
      put differently, it is wrong exactly when CS_CONTROL changed only in its other bits. */
  lemma VerdictAboutChipSelect(base: bv32, seen: seq<Reading>)
    requires Traffic(seen)
    ensures var someChange := exists i :: 0 <= i < |seen| && seen[i].cs != base;
            var toggled := exists i :: 0 <= i < |seen| && High(seen[i].cs) != High(base);
            && (Judge(base, seen) == NeverAsserted ==> High(base) && forall i :: 0 <= i < |seen| ==> High(seen[i].cs))
            && (Judge(base, seen) == HeldAsserted ==> !High(base) && forall i :: 0 <= i < |seen| ==> !High(seen[i].cs))
            && (toggled ==> Judge(base, seen) == Toggling)
            && ((Judge(base, seen) == Toggling <==> toggled) <==> (someChange ==> toggled))
  {
    hide Judge, Traffic, High;
    VerdictExact(base, seen);
  }

  /** An unchanging register, whatever the samples of the other two, as long as there is traffic: bit 1 decides. */
  lemma UnchangingVerdict(base: bv32, seen: seq<Reading>)
    requires Traffic(seen) && forall i :: 0 <= i < |seen| ==> seen[i].cs == base
    ensures Judge(base, seen) == if base & 0x2 == 0 then HeldAsserted else NeverAsserted
    ensures base == 0xe001 ==> Judge(base, seen) == HeldAsserted
    ensures base == 0xe003 ==> Judge(base, seen) == NeverAsserted
  {
    hide Judge, Traffic;
    VerdictExact(base, seen);
  }

  /** The counters are numbers of samples. */
  lemma CountsExact(rs: seq<Reading>)
    ensures CountEnabled(rs) == |set i | 0 <= i < |rs| && Enabled(rs[i])|
    ensures CountBusy(rs) == |set i | 0 <= i < |rs| && Busy(rs[i])|
    ensures CountLow(rs) == |set i | 0 <= i < |rs| && Asserted(rs[i])|
  {
    hide *;
    EnabledExact(rs);
    BusyExact(rs);
    LowExact(rs);
  }

  lemma {:induction false} EnabledExact(rs: seq<Reading>)
    ensures CountEnabled(rs) == |set i | 0 <= i < |rs| && Enabled(rs[i])|
  {
    hide Enabled, Busy, High;
    var now := set i | 0 <= i < |rs| && Enabled(rs[i]);
    if rs == [] {
      assert now == {};
    } else {
      var last := |rs| - 1;
      var init := rs[..last];
      EnabledExact(init);
      OneMore((set i | 0 <= i < |init| && Enabled(init[i])), now, last, Enabled(rs[last]));
    }
  }

  lemma {:induction false} BusyExact(rs: seq<Reading>)
    ensures CountBusy(rs) == |set i | 0 <= i < |rs| && Busy(rs[i])|
  {
    hide Enabled, Busy, High;
    var now := set i | 0 <= i < |rs| && Busy(rs[i]);
    if rs == [] {
      assert now == {};
    } else {
      var last := |rs| - 1;
      var init := rs[..last];
      BusyExact(init);
      OneMore((set i | 0 <= i < |init| && Busy(init[i])), now, last, Busy(rs[last]));
    }
  }

  /** Chip select is asserted. */
  predicate Asserted(r: Reading) {
    !High(r.cs)
  }

  lemma {:induction false} LowExact(rs: seq<Reading>)
    ensures CountLow(rs) == |set i | 0 <= i < |rs| && Asserted(rs[i])|
  {
    hide High, CountLow, Asserted;
    var now := set i | 0 <= i < |rs| && Asserted(rs[i]);
    LowStep(rs);
    if rs == [] {
      assert now == {};
    } else {
      var last := |rs| - 1;
      var init := rs[..last];
      LowExact(init);
      OneMore((set i | 0 <= i < |init| && Asserted(init[i])), now, last, Asserted(rs[last]));
    }
  }

  lemma LowStep(rs: seq<Reading>)
    ensures CountLow(rs) == if rs == [] then 0
                            else CountLow(rs[..|rs| - 1]) + if Asserted(rs[|rs| - 1]) then 1 else 0
  {
    hide High;
  }

  lemma OneMore(a: set<int>, b: set<int>, x: int, more: bool)
    requires x !in a && b == if more then a + {x} else a
    ensures |b| == |a| + if more then 1 else 0
  {
  }

  /** What the log says of the change it holds at place k: the registers as they were read, and the time since
      the start, on a clock of 64 bits. */
  lemma LogShows(log: seq<Event>, t0: nat, base: bv32, seen: seq<Reading>, k: nat)
    requires Logged(log, t0, base, seen) && k < |log|
    ensures var r := seen[Changes(base, seen)[k]];
            && log[k].cs == r.cs && log[k].sscr0 == r.sscr0 && log[k].sssr == r.sssr
            && log[k].t < 0x1_0000_0000_0000_0000
            && (t0 + log[k].t) % 0x1_0000_0000_0000_0000 == r.now % 0x1_0000_0000_0000_0000
            && |log| == (if |Changes(base, seen)| <= 64 then |Changes(base, seen)| else 64)
  {
    hide Changes;
    var r := seen[Changes(base, seen)[k]];
    ClockReads(t0, r.now);
  }

  lemma ClockReads(t0: nat, now: nat)
    ensures (t0 + (now - t0) % U64) % U64 == now % U64
  {
    var t := (now - t0) % U64;
    var q := (now - t0) / U64;
    assert now - t0 == U64 * q + t;
    Bits.DivModUnique(t0 + t, U64, (t0 + t) / U64, (t0 + t) % U64);
    Bits.DivModUnique(now, U64, q + (t0 + t) / U64, (t0 + t) % U64);
  }

  /** One busy sample whose select field (bit 8) alone differs is enough to print "toggling", with
      chip select deasserted throughout. */
  lemma TogglingWithoutToggle()
    ensures var seen := [Reading(0, 0xe103, 0x80, 0)];
            Judge(0xe003, seen) == Toggling && High(0xe003) && High(seen[0].cs)
  {
    var seen := [Reading(0, 0xe103, 0x80, 0)];
    assert Enabled(seen[0]);
    assert seen[0].cs != 0xe003;
    VerdictExact(0xe003, seen);
  }
}
