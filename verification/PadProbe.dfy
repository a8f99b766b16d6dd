/** `gxfp_padprobe_show` of kernel/gxfp.c: sampling four pad registers, and the attempt to unlock their
    receivers that is undone afterwards. A 32-bit register is the set of its set bits, so `|`, `&` and
    `~` are union, intersection and complement. */
module PadProbe {
  import Bits

  const PADS := 4
  const BITS := set b | 0 <= b < 32
  /** GPIORXSTATE follows the pin; it is not part of the configuration. */
  const RXSTATE := 1
  const RXDIS := 9

  /** 0x44000702 for MISO, 0x44000700 for the other three */
  function Expected(i: nat): set<int> {
    {30, 26, 10, 9, 8} + if i == 2 then {RXSTATE} else {}
  }

  /** The number whose bits from position b on are these. */
  function WordFrom(bits: set<int>, b: nat): nat
    decreases 32 - b
  {
    if b >= 32 then 0 else (if b in bits then 1 else 0) + 2 * WordFrom(bits, b + 1)
  }

  /** The expected values are the words the source compares with. */
  lemma ExpectedWords(i: nat)
    ensures WordFrom(Expected(i), 0) == if i == 2 then 0x44000702 else 0x44000700
  {
    hide WordFrom, BITS, Bits.Pow2;
    var e := Expected(i);
    Bits.Pow2Values();
    assert Bits.Pow2(15) == 8 * Bits.Pow2(12) by { TwoToFifteen(); }
    WordStep(e, 32);
    WordStep(e, 31);
    WordStep(e, 30);
    NoBits(e, 27, 30);
    WordStep(e, 26);
    NoBits(e, 11, 26);
    WordStep(e, 10);
    WordStep(e, 9);
    WordStep(e, 8);
    NoBits(e, 2, 8);
    WordStep(e, 1);
    WordStep(e, 0);
  }

  lemma TwoToFifteen()
    ensures Bits.Pow2(15) == 8 * Bits.Pow2(12)
  {
  }

  lemma BitsOfWord(i: nat, b: int)
    ensures b in BITS <==> 0 <= b < 32
    ensures b in Expected(i) ==> b in BITS
  {
  }

  lemma WordStep(bits: set<int>, b: nat)
    ensures WordFrom(bits, b) == if b >= 32 then 0 else (if b in bits then 1 else 0) + 2 * WordFrom(bits, b + 1)
  {
  }

  lemma {:induction false} NoBits(bits: set<int>, b: nat, c: nat)
    requires b <= c <= 32 && forall k :: b <= k < c ==> k !in bits
    ensures WordFrom(bits, b) == Bits.Pow2(c - b) * WordFrom(bits, c)
    decreases c - b
  {
    if b < c {
      NoBits(bits, b + 1, c);
      WordStep(bits, b);
      hide WordFrom;
      var p, w := Bits.Pow2(c - b - 1), WordFrom(bits, c);
      assert Bits.Pow2(c - b) == 2 * p;
      hide Bits.Pow2;
      Doubled(p, w);
    }
  }

  lemma Doubled(p: nat, w: nat)
    ensures 2 * (p * w) == (2 * p) * w
  {
  }

  //////////////////////////////////////////////////////////////////////////////
  // Bits that changed
  //////////////////////////////////////////////////////////////////////////////

  /** `seen_set |= v` over a column of samples */
  function OrAll(vs: seq<set<int>>): set<int> {
    if vs == [] then {} else OrAll(vs[..|vs| - 1]) + vs[|vs| - 1]
  }

  /** `seen_clr |= ~v` over a column of samples */
  function OrNot(vs: seq<set<int>>): set<int> {
    if vs == [] then {} else OrNot(vs[..|vs| - 1]) + (BITS - vs[|vs| - 1])
  }

  lemma {:induction false} SeenBits(vs: seq<set<int>>, b: int)
    ensures b in OrAll(vs) <==> exists k :: 0 <= k < |vs| && b in vs[k]
    ensures b in OrNot(vs) <==> b in BITS && exists k :: 0 <= k < |vs| && b !in vs[k]
  {
    hide BITS;
    if vs != [] {
      var init, last := vs[..|vs| - 1], |vs| - 1;
      SeenBits(init, b);
      if k :| 0 <= k < |vs| && b in vs[k] {
        assert k < last ==> b in init[k];
      }
      if k :| 0 <= k < |vs| && b !in vs[k] {
        assert k < last ==> b !in init[k];
      }
      if k :| 0 <= k < |init| && b in init[k] {
        assert b in vs[k];
      }
      if k :| 0 <= k < |init| && b !in init[k] {
        assert b !in vs[k];
      }
    }
  }

  /** A bit is reported as changed if and only if two of the samples differ in it. */
  lemma ChangedBits(vs: seq<set<int>>, b: int)
    requires b in BITS
    ensures b in OrAll(vs) * OrNot(vs) <==>
            exists j, k :: 0 <= j < |vs| && 0 <= k < |vs| && b in vs[j] && b !in vs[k]
  {
    hide BITS, OrAll, OrNot;
    SeenBits(vs, b);
  }

  //////////////////////////////////////////////////////////////////////////////
  // The registers
  //////////////////////////////////////////////////////////////////////////////

  /** What a read returns: the configuration, with the pin's level in RXSTATE. */
  function Value(cfg: set<int>, pin: bool): set<int> {
    cfg + if pin then {RXSTATE} else {}
  }

  /** Bit 1 is the pin, every other bit is the configuration's. */
  lemma ValueBits(cfg: set<int>, pin: bool, b: int)
    requires 1 !in cfg
    ensures b in Value(cfg, pin) <==> if b == 1 then pin else b in cfg
  {
  }

  /** The first n values read from one pad by sweeps that begin at read number `start`. */
  function Column(cfg: set<int>, i: nat, start: nat, n: nat, pin: nat -> bool): (vs: seq<set<int>>)
    ensures |vs| == n
  {
    if n == 0 then [] else Column(cfg, i, start, n - 1, pin) + [Value(cfg, pin(start + PADS * (n - 1) + i))]
  }

  predicate Tallied(seenSet: set<int>, seenClr: set<int>, vs: seq<set<int>>) {
    seenSet == OrAll(vs) && seenClr == OrNot(vs)
  }

  lemma TallyNothing(cfg: set<int>, i: nat, start: nat, pin: nat -> bool)
    ensures Tallied({}, {}, Column(cfg, i, start, 0, pin))
  {
  }

  lemma TallyStep(seenSet: set<int>, seenClr: set<int>, cfg: set<int>, i: nat, start: nat, n: nat, pin: nat -> bool)
    requires Tallied(seenSet, seenClr, Column(cfg, i, start, n, pin))
    ensures var v := Value(cfg, pin(start + PADS * n + i));
            Tallied(seenSet + v, seenClr + (BITS - v), Column(cfg, i, start, n + 1, pin))
  {
    var vs, v := Column(cfg, i, start, n, pin), Value(cfg, pin(start + PADS * n + i));
    assert (vs + [v])[..|vs|] == vs;
  }

  /** The four pads. Every read of a pad sees some pin level, chosen by the world outside. */
  class PadBank {
    const locked: seq<bool>
    var cfg: seq<set<int>>
    /** Number of register reads so far; it selects the pin level the next read sees. */
    var clock: nat

    ghost predicate Valid()
      reads this
    {
      |locked| == PADS && |cfg| == PADS && forall i :: 0 <= i < PADS ==> RXSTATE !in cfg[i]
    }

    constructor (locked: seq<bool>, config: seq<set<int>>)
      requires |locked| == PADS && |config| == PADS
      requires forall i :: 0 <= i < PADS ==> RXSTATE !in config[i]
      ensures Valid() && this.locked == locked && cfg == config
    {
      this.locked, cfg, clock := locked, config, 0;
    }

    method Readl(i: nat, pin: nat -> bool) returns (v: set<int>)
      requires Valid() && i < PADS
      modifies `clock
      ensures v == Value(cfg[i], pin(old(clock))) && clock == old(clock) + 1
    {
      v := Value(cfg[i], pin(clock));
      clock := clock + 1;
    }

    /** Locked pads ignore writes; RXSTATE is read-only. */
    method Writel(i: nat, v: set<int>)
      requires Valid() && i < PADS
      modifies `cfg
      ensures Valid()
      ensures cfg == old(cfg)[i := if locked[i] then old(cfg)[i] else v - {RXSTATE}]
    {
      if !locked[i] {
        cfg := cfg[i := v - {RXSTATE}];
      }
    }

    /** One sweep over the four pads, the n-th since `start`. */
    method Sweep(seenSet: array<set<int>>, seenClr: array<set<int>>, pin: nat -> bool, ghost start: nat, ghost n: nat)
      requires Valid() && seenSet.Length == PADS && seenClr.Length == PADS && seenSet != seenClr
      requires clock == start + PADS * n
      requires forall i :: 0 <= i < PADS ==> Tallied(seenSet[i], seenClr[i], Column(cfg[i], i, start, n, pin))
      modifies `clock, seenSet, seenClr
      ensures clock == start + PADS * (n + 1)
      ensures forall i :: 0 <= i < PADS ==> Tallied(seenSet[i], seenClr[i], Column(cfg[i], i, start, n + 1, pin))
    {
      hide Value, BITS, Tallied, Column;
      for i := 0 to PADS
        invariant clock == start + PADS * n + i
        invariant forall p :: 0 <= p < i ==> Tallied(seenSet[p], seenClr[p], Column(cfg[p], p, start, n + 1, pin))
        invariant forall p :: i <= p < PADS ==> Tallied(seenSet[p], seenClr[p], Column(cfg[p], p, start, n, pin))
      {
        var v := Readl(i, pin);
        TallyStep(seenSet[i], seenClr[i], cfg[i], i, start, n, pin);
        seenSet[i] := seenSet[i] + v;
        seenClr[i] := seenClr[i] + (BITS - v);
      }
    }

    /** `rounds` sweeps, accumulating the bits seen set and seen clear in each pad's column of reads. */
    method Sample(rounds: nat, pin: nat -> bool) returns (seenSet: array<set<int>>, seenClr: array<set<int>>)
      requires Valid()
      modifies `clock
      ensures fresh(seenSet) && fresh(seenClr) && seenSet.Length == PADS && seenClr.Length == PADS
      ensures forall i :: 0 <= i < PADS ==>
                Tallied(seenSet[i], seenClr[i], Column(cfg[i], i, old(clock), rounds, pin))
    {
      seenSet := new set<int>[PADS](_ => {});
      seenClr := new set<int>[PADS](_ => {});
      ghost var start := clock;
      hide Tallied, Column;
      forall i | 0 <= i < PADS
        ensures Tallied(seenSet[i], seenClr[i], Column(cfg[i], i, start, 0, pin))
      {
        TallyNothing(cfg[i], i, start, pin);
      }
      for k := 0 to rounds
        invariant clock == start + PADS * k
        invariant forall i :: 0 <= i < PADS ==> Tallied(seenSet[i], seenClr[i], Column(cfg[i], i, start, k, pin))
      {
        Sweep(seenSet, seenClr, pin, start, k);
      }
    }

    /** The first loop of the attempt: for each pad, read it, write it back with RXDIS clear, and read again. */
    method ClearReceivers(pin: nat -> bool) returns (orig: array<set<int>>, took: bool, after: seq<set<int>>)
      requires Valid() && forall i :: 0 <= i < PADS ==> RXDIS in cfg[i]
      modifies `clock, `cfg
      ensures Valid() && fresh(orig) && orig.Length == PADS
      ensures forall p :: 0 <= p < PADS ==> orig[p] - {RXSTATE} == old(cfg)[p] && (locked[p] ==> cfg[p] == old(cfg)[p])
      ensures took <==> exists p :: 0 <= p < PADS && !locked[p]
      ensures ReadBack(after, old(cfg), old(clock), PADS, pin)
    {
      took, after := false, [];
      orig := new set<int>[PADS](_ => {});
      hide ReadBack;
      NothingBack(cfg, clock, pin);
      for i := 0 to PADS
        invariant Valid()
        invariant clock == old(clock) + 2 * i
        invariant forall p :: i <= p < PADS ==> cfg[p] == old(cfg)[p]
        invariant forall p :: 0 <= p < i ==> orig[p] - {RXSTATE} == old(cfg)[p] && (locked[p] ==> cfg[p] == old(cfg)[p])
        invariant took <==> exists p :: 0 <= p < i && !locked[p]
        invariant ReadBack(after, old(cfg), old(clock), i, pin)
      {
        var v := Readl(i, pin);
        Writel(i, v - {RXDIS});
        var back := Readl(i, pin);
        OneBack(after, old(cfg), old(clock), i, pin, back);
        after := after + [back];
        orig[i] := v;
        if RXDIS !in back {
          took := true;
        }
      }
    }

    /** What the first n pads read as after the write: bit 9 is clear unless the pad is locked, bit 1 is the pin,
        the rest is as it was. */
    predicate ReadBack(after: seq<set<int>>, was: seq<set<int>>, start: nat, n: nat, pin: nat -> bool) {
      && |after| == n <= |was| && n <= |locked|
      && forall p :: 0 <= p < n ==>
                       && after[p] - {1} == (if locked[p] then was[p] else was[p] - {9})
                       && (1 in after[p] <==> pin(start + 2 * p + 1))
    }

    lemma NothingBack(was: seq<set<int>>, start: nat, pin: nat -> bool)
      ensures ReadBack([], was, start, 0, pin)
    {
    }

    lemma OneBack(after: seq<set<int>>, was: seq<set<int>>, start: nat, i: nat, pin: nat -> bool, back: set<int>)
      requires ReadBack(after, was, start, i, pin) && i < |was| && i < |locked| && RXSTATE !in was[i]
      requires back == Value(if locked[i] then was[i] else was[i] - {RXDIS}, pin(start + 2 * i + 1))
      ensures ReadBack(after + [back], was, start, i + 1, pin)
    {
    }

    /** The attempt to unlock the receivers: clear RXDIS, read back, sample again if any write took, and
        restore. */
    method TryUnlock(rounds: nat, pin: nat -> bool) returns (took: bool, after: seq<set<int>>)
      requires Valid() && forall i :: 0 <= i < PADS ==> RXDIS in cfg[i]
      modifies `clock, `cfg
      ensures Valid() && cfg == old(cfg)
      ensures took <==> exists i :: 0 <= i < 4 && !locked[i]
      ensures |after| == 4
      ensures forall i :: 0 <= i < 4 ==> after[i] - {1} == if locked[i] then cfg[i] else cfg[i] - {9}
      ensures forall i :: 0 <= i < 4 ==> (1 in after[i] <==> pin(old(clock) + 2 * i + 1))
    {
      ghost var was := cfg;
      var orig: array<set<int>>;
      orig, took, after := ClearReceivers(pin);
      if took {
        var set2, clr2 := Sample(rounds, pin);
      }
      for i := 0 to PADS
        invariant Valid() && orig.Length == PADS
        invariant forall p :: 0 <= p < PADS ==> orig[p] - {RXSTATE} == was[p]
        invariant forall p :: 0 <= p < PADS && (p < i || locked[p]) ==> cfg[p] == was[p]
      {
        Writel(i, orig[i]);
      }
      assert cfg == was;
    }

    /** The whole probe, for any pattern of locked pads and any pin levels: the configuration ends as it
        began, whether the probe aborts on an unexpected value, finds every pad locked, or unlocks some
        of them, samples again and restores. The return values tell which of the three it was.
        `mapped` says whether the registers could be mapped. */
    method Probe(mapped: bool, rounds: nat, pin: nat -> bool) returns (full: bool, took: bool)
      requires Valid()
      modifies `clock, `cfg
      ensures Valid() && cfg == old(cfg)
      ensures full <==> mapped && forall i :: 0 <= i < 4 ==> Value(cfg[i], pin(old(clock) + i)) == Expected(i)
      ensures took <==> full && exists i :: 0 <= i < 4 && !locked[i]
    {
      full, took := false, false;
      if !mapped {
        return;
      }
      hide Value, Expected;
      var ok := true;
      for i := 0 to PADS
        invariant cfg == old(cfg) && clock == old(clock) + i
        invariant ok <==> forall p :: 0 <= p < i ==> Value(cfg[p], pin(old(clock) + p)) == Expected(p)
      {
        var v := Readl(i, pin);
        if v != Expected(i) {
          ok := false;
        }
      }
      if !ok {
        return;
      }
      full := true;
      var seenSet, seenClr := Sample(rounds, pin);
      forall p | 0 <= p < PADS
        ensures RXDIS in cfg[p]
      {
        ReceiverOff(cfg[p], pin(old(clock) + p), p);
      }
      var after: seq<set<int>>;
      took, after := TryUnlock(rounds, pin);
    }
  }

  lemma ReceiverOff(cfg: set<int>, pin: bool, i: nat)
    requires Value(cfg, pin) == Expected(i)
    ensures RXDIS in cfg
  {
    assert RXDIS in Value(cfg, pin);
  }

  /** The probe's report for one bit of one pad: exactly whether two of its reads differed in it. */
  method ReportChange(bank: PadBank, rounds: nat, pin: nat -> bool, i: nat, b: int) returns (live: bool)
    requires bank.Valid() && i < PADS && b in BITS
    modifies bank`clock
    ensures var vs := Column(bank.cfg[i], i, old(bank.clock), rounds, pin);
            live <==> exists j, k :: 0 <= j < rounds && 0 <= k < rounds && b in vs[j] && b !in vs[k]
  {
    hide Value, BITS, OrAll, OrNot;
    ghost var start := bank.clock;
    var seenSet, seenClr := bank.Sample(rounds, pin);
    ghost var vs := Column(bank.cfg[i], i, start, rounds, pin);
    ChangedBits(vs, b);
    assert Tallied(seenSet[i], seenClr[i], vs);
    assert |vs| == rounds && seenSet[i] * seenClr[i] == OrAll(vs) * OrNot(vs);
    live := b in seenSet[i] * seenClr[i];
    assert live <==> exists j, k :: 0 <= j < rounds && 0 <= k < rounds && b in vs[j] && b !in vs[k];
    assert vs == Column(bank.cfg[i], i, old(bank.clock), rounds, pin);
  }
}
