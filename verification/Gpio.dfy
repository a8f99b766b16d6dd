/** tools/gpio_raw.py and, on top of it, tools/lowstate.py: the wrapper that runs a script with one line
    inverted. */
module Gpio {
  import opened Bits
  import opened Bytes

  /** LINE_EN */
  const INVERTED := 264

  /** v & 1, for any Python integer */
  function LowBit(v: int): bit {
    v % 2
  }

  /** 0 if v else 1 */
  function Not(v: int): bit {
    if v != 0 then 0 else 1
  }

  /** Driving a line to a value. */
  function Driven(levels: seq<bit>, offset: nat, v: int): (r: seq<bit>)
    requires offset < |levels|
    ensures |r| == |levels|
  {
    levels[offset := LowBit(v)]
  }

  /** The value the wrapper passes down for a line. */
  function Passed(offset: nat, v: int): int {
    if offset == INVERTED then Not(v) else v
  }

  /** The level the wrapper hands up for a line. */
  function Shown(offset: nat, level: bit): bit {
    if offset == INVERTED then Not(level) else level
  }

  //////////////////////////////////////////////////////////////////////////////
  // The objects
  //////////////////////////////////////////////////////////////////////////////

  /** The GPIO chip: the level of every line, the lines that are held, and those held as outputs. */
  class Chip {
    var levels: seq<bit>
    var held: set<nat>
    var driven: set<nat>

    constructor (levels: seq<bit>)
      ensures this.levels == levels && held == {} && driven == {}
    {
      this.levels, held, driven := levels, {}, {};
    }

    /** Something outside pulls a line to a level; a line that is driven from here stays as it is. */
    method Pull(offset: nat, v: bit)
      modifies `levels
      ensures levels == if offset < |old(levels)| && offset !in driven then old(levels)[offset := v] else old(levels)
    {
      if offset < |levels| && offset !in driven {
        levels := levels[offset := v];
      }
    }
  }

  class GpioLine {
    const chip: Chip
    const offset: nat
    const output: bool
    var open: bool

    ghost predicate Valid()
      reads this, chip
    {
      offset < |chip.levels|
    }

    constructor Granted(chip: Chip, offset: nat, output: bool)
      ensures this.chip == chip && this.offset == offset && this.output == output && open
    {
      this.chip, this.offset, this.output, open := chip, offset, output, true;
    }

    /** Request a line. The kernel refuses one that does not exist or is held; an output is driven to
        its initial value. */
    static method Request(chip: Chip, offset: nat, output: bool, value: int) returns (g: GpioLine?)
      modifies chip
      ensures g == null <==> offset >= |old(chip.levels)| || offset in old(chip.held)
      ensures g == null ==>
                chip.levels == old(chip.levels) && chip.held == old(chip.held) && chip.driven == old(chip.driven)
      ensures g != null ==>
                && fresh(g) && g.open && g.chip == chip && g.offset == offset && g.output == output && g.Valid()
                && chip.held == old(chip.held) + {offset}
                && chip.driven == old(chip.driven) + (if output then {offset} else {})
                && chip.levels == (if output then Driven(old(chip.levels), offset, value) else old(chip.levels))
                && (output ==> chip.levels[offset] == if value % 2 == 1 then 1 else 0)
    {
      if offset >= |chip.levels| || offset in chip.held {
        return null;
      }
      chip.held := chip.held + {offset};
      if output {
        chip.driven := chip.driven + {offset};
        chip.levels := chip.levels[offset := LowBit(value)];
      }
      g := new GpioLine.Granted(chip, offset, output);
    }

    /** False stands for the error of an input line or a closed descriptor. */
    method Set(v: int) returns (ok: bool)
      requires Valid()
      modifies chip`levels
      ensures Valid() && ok == (open && output)
      ensures chip.levels == if ok then Driven(old(chip.levels), offset, v) else old(chip.levels)
      ensures ok ==> chip.levels[offset] == if v % 2 == 1 then 1 else 0
    {
      ok := open && output;
      if ok {
        chip.levels := chip.levels[offset := LowBit(v)];
      }
    }

    method Get() returns (v: Option<bit>)
      requires Valid()
      ensures v == if open then Some(chip.levels[offset]) else None
    {
      v := if open then Some(chip.levels[offset]) else None;
    }

    method Close() returns (ok: bool)
      requires Valid()
      modifies this`open, chip`held, chip`driven
      ensures ok == old(open) && !open
      ensures chip.held == if ok then old(chip.held) - {offset} else old(chip.held)
      ensures chip.driven == if ok then old(chip.driven) - {offset} else old(chip.driven)
    {
      ok := open;
      if open {
        open := false;
        chip.held, chip.driven := chip.held - {offset}, chip.driven - {offset};
      }
    }
  }

  /** The subclass that the wrapper puts in the place of GpioLine. */
  class InvertedEnable {
    const inv: bool
    const base: GpioLine

    ghost predicate Valid()
      reads base, base.chip
    {
      base.Valid() && inv == (base.offset == INVERTED)
    }

    constructor Wrap(inv: bool, base: GpioLine)
      ensures this.inv == inv && this.base == base
    {
      this.inv, this.base := inv, base;
    }

    static method Request(chip: Chip, offset: nat, output: bool, value: int) returns (g: InvertedEnable?)
      modifies chip
      ensures g == null <==> offset >= |old(chip.levels)| || offset in old(chip.held)
      ensures g == null ==>
                chip.levels == old(chip.levels) && chip.held == old(chip.held) && chip.driven == old(chip.driven)
      ensures g != null ==>
                && g.Valid() && fresh(g.base) && g.base.open
                && g.base.chip == chip && g.base.offset == offset && g.base.output == output
                && chip.held == old(chip.held) + {offset}
                && chip.driven == old(chip.driven) + (if output then {offset} else {})
                && chip.levels == if output then Driven(old(chip.levels), offset, Passed(offset, value))
                                  else old(chip.levels)
    {
      var inv := offset == INVERTED;
      var b := GpioLine.Request(chip, offset, output, if inv && output then Not(value) else value);
      g := null;
      if b != null {
        g := new InvertedEnable.Wrap(inv, b);
      }
    }

    method Set(v: int) returns (ok: bool)
      requires Valid()
      modifies base.chip`levels
      ensures Valid() && ok == (base.open && base.output)
      ensures base.chip.levels == if ok then Driven(old(base.chip.levels), base.offset, Passed(base.offset, v))
                                  else old(base.chip.levels)
    {
      ok := base.Set(if inv then Not(v) else v);
    }

    method Get() returns (v: Option<bit>)
      requires Valid()
      ensures v == if base.open then Some(Shown(base.offset, base.chip.levels[base.offset])) else None
    {
      v := base.Get();
      if v.Some? && inv {
        v := Some(Not(v.value));
      }
    }
  }

  //////////////////////////////////////////////////////////////////////////////
  // Whole scripts, on values
  //////////////////////////////////////////////////////////////////////////////

  /** What a script does with its line objects, which it knows by name, and what happens to the lines
      meanwhile. */
  datatype Op =
    | Open(name: nat, offset: nat, output: bool, value: int)
    | SetTo(name: nat, v: int)
    | GetOf(name: nat)
    | CloseOf(name: nat)
    | Outside(offset: nat, level: bit)

  datatype Handle = Handle(offset: nat, output: bool)

  datatype World = World(levels: seq<bit>, handles: map<nat, Handle>)

  datatype Outcome = Done | Level(v: bit) | Raised

  function Held(w: World): set<nat> {
    set n | n in w.handles :: w.handles[n].offset
  }

  function Outputs(w: World): set<nat> {
    set n | n in w.handles && w.handles[n].output :: w.handles[n].offset
  }

  predicate Opens(w: World, op: Op) {
    op.Open? && op.name !in w.handles && op.offset < |w.levels| && op.offset !in Held(w)
  }

  predicate Drives(w: World, op: Op) {
    op.SetTo? && op.name in w.handles && w.handles[op.name].output && w.handles[op.name].offset < |w.levels|
  }

  predicate Gets(w: World, op: Op) {
    op.GetOf? && op.name in w.handles && w.handles[op.name].offset < |w.levels|
  }

  predicate Pulls(w: World, op: Op) {
    op.Outside? && op.offset < |w.levels| && op.offset !in Outputs(w)
  }

  /** One operation of a script run without the wrapper. */
  function Plain(w: World, op: Op): (World, Outcome) {
    match op
    case Open(n, offset, output, value) =>
      if !Opens(w, op) then (w, Raised)
      else
        var levels := if output then Driven(w.levels, offset, value) else w.levels;
        (World(levels, w.handles[n := Handle(offset, output)]), Done)
    case SetTo(n, v) =>
      if !Drives(w, op) then (w, Raised)
      else (World(Driven(w.levels, w.handles[n].offset, v), w.handles), Done)
    case GetOf(n) =>
      if !Gets(w, op) then (w, Raised) else (w, Level(w.levels[w.handles[n].offset]))
    case CloseOf(n) =>
      if n in w.handles then (World(w.levels, w.handles - {n}), Done) else (w, Raised)
    case Outside(offset, level) =>
      (if Pulls(w, op) then World(w.levels[offset := level], w.handles) else w, Done)
  }

  /** The same operation through the wrapper: arguments and results of line 264 are inverted. */
  function Wrapped(w: World, op: Op): (World, Outcome) {
    match op
    case Open(n, offset, output, value) =>
      Plain(w, Open(n, offset, output, if output then Passed(offset, value) else value))
    case SetTo(n, v) =>
      Plain(w, SetTo(n, if n in w.handles then Passed(w.handles[n].offset, v) else v))
    case GetOf(n) =>
      var (w', r) := Plain(w, op);
      (w', if r.Level? && n in w.handles then Level(Shown(w.handles[n].offset, r.v)) else r)
    case _ => Plain(w, op)
  }

  function RunPlain(w: World, ops: seq<Op>): (World, seq<Outcome>)
    decreases |ops|
  {
    if ops == [] then (w, [])
    else
      var (w1, r) := Plain(w, ops[0]);
      var (w2, rs) := RunPlain(w1, ops[1..]);
      (w2, [r] + rs)
  }

  function RunWrapped(w: World, ops: seq<Op>): (World, seq<Outcome>)
    decreases |ops|
  {
    if ops == [] then (w, [])
    else
      var (w1, r) := Wrapped(w, ops[0]);
      var (w2, rs) := RunWrapped(w1, ops[1..]);
      (w2, [r] + rs)
  }

  /** With or without the wrapper. */
  function OneOf(wrapper: bool, w: World, op: Op): (World, Outcome) {
    if wrapper then Wrapped(w, op) else Plain(w, op)
  }

  function RunOf(wrapper: bool, w: World, ops: seq<Op>): (World, seq<Outcome>) {
    if wrapper then RunWrapped(w, ops) else RunPlain(w, ops)
  }

  /** The levels after a granted request. */
  function Granted(wrapper: bool, levels: seq<bit>, offset: nat, output: bool, value: int): (r: seq<bit>)
    requires offset < |levels|
    ensures |r| == |levels|
  {
    if !output then levels
    else Driven(levels, offset, if wrapper then Passed(offset, value) else value)
  }

  lemma OpenStep(wrapper: bool, w: World, n: nat, offset: nat, output: bool, value: int)
    ensures var op := Open(n, offset, output, value);
            OneOf(wrapper, w, op) ==
            if !Opens(w, op) then (w, Raised)
            else
              var levels := Granted(wrapper, w.levels, offset, output, value);
              (World(levels, w.handles[n := Handle(offset, output)]), Done)
  {
  }

  lemma CloseStep(wrapper: bool, w: World, n: nat)
    ensures OneOf(wrapper, w, CloseOf(n)) ==
            if n in w.handles then (World(w.levels, w.handles - {n}), Done) else (w, Raised)
  {
  }

  //////////////////////////////////////////////////////////////////////////////
  // Whole scripts, on the objects
  //////////////////////////////////////////////////////////////////////////////

  /** A line object, made by whichever class stands under the name GpioLine. */
  datatype LineObject = Bare(g: GpioLine) | Inverting(i: InvertedEnable)

  function BaseOf(l: LineObject): GpioLine {
    match l
    case Bare(g) => g
    case Inverting(i) => i.base
  }

  function Handles(lines: map<nat, LineObject>): (h: map<nat, Handle>)
    ensures h.Keys == lines.Keys
    ensures forall n :: n in lines ==> h[n] == Handle(BaseOf(lines[n]).offset, BaseOf(lines[n]).output)
  {
    map n | n in lines :: Handle(BaseOf(lines[n]).offset, BaseOf(lines[n]).output)
  }

  /** No line is held under two names. */
  predicate Distinct(w: World) {
    forall m, n :: m in w.handles && n in w.handles && w.handles[m].offset == w.handles[n].offset ==> m == n
  }

  /** A running script: the chip, whether the wrapper is in place, and the line objects it has open. */
  class Script {
    const chip: Chip
    const wrapper: bool
    var lines: map<nat, LineObject>
    ghost var repr: set<GpioLine>

    ghost predicate Valid()
      reads this, chip, repr
    {
      && (forall n :: n in lines ==> BaseOf(lines[n]) in repr && Owns(lines[n]))
      && Distinct(State()) && chip.held == Held(State()) && chip.driven == Outputs(State())
    }

    ghost predicate Owns(l: LineObject)
      reads chip, BaseOf(l)
    {
      var b := BaseOf(l);
      && b.chip == chip && b.open && b.offset < |chip.levels|
      && (if wrapper then l.Inverting? && l.i.inv == (b.offset == INVERTED) else l.Bare?)
    }

    ghost function State(): World
      reads this, chip
    {
      World(chip.levels, Handles(lines))
    }

    constructor (chip: Chip, wrapper: bool)
      requires chip.held == {} && chip.driven == {}
      ensures Valid() && this.chip == chip && this.wrapper == wrapper
      ensures State() == World(chip.levels, map[]) && repr == {}
    {
      this.chip, this.wrapper, lines, repr := chip, wrapper, map[], {};
    }

    method Request(offset: nat, output: bool, value: int) returns (l: Option<LineObject>)
      modifies chip
      ensures l.None? <==> offset >= |old(chip.levels)| || offset in old(chip.held)
      ensures l.None? ==>
                chip.levels == old(chip.levels) && chip.held == old(chip.held) && chip.driven == old(chip.driven)
      ensures l.Some? ==>
                && fresh(BaseOf(l.value)) && Owns(l.value)
                && BaseOf(l.value).offset == offset && BaseOf(l.value).output == output
                && chip.held == old(chip.held) + {offset}
                && chip.driven == old(chip.driven) + (if output then {offset} else {})
                && chip.levels == Granted(wrapper, old(chip.levels), offset, output, value)
    {
      if wrapper {
        var i := InvertedEnable.Request(chip, offset, output, value);
        l := if i == null then None else Some(Inverting(i));
      } else {
        var g := GpioLine.Request(chip, offset, output, value);
        l := if g == null then None else Some(Bare(g));
      }
    }

    /** The object gets its name. */
    method Bind(n: nat, l: LineObject)
      requires forall k :: k in lines ==> BaseOf(lines[k]) in repr && Owns(lines[k])
      requires Owns(l)
      requires var w := World(chip.levels, Handles(lines)[n := Handle(BaseOf(l).offset, BaseOf(l).output)]);
               Distinct(w) && chip.held == Held(w) && chip.driven == Outputs(w)
      modifies `lines, `repr
      ensures Valid() && repr == old(repr) + {BaseOf(l)}
      ensures State() == World(chip.levels, old(Handles(lines))[n := Handle(BaseOf(l).offset, BaseOf(l).output)])
    {
      hide Distinct, Held, Outputs, Handles;
      ghost var h := Handles(lines)[n := Handle(BaseOf(l).offset, BaseOf(l).output)];
      lines := lines[n := l];
      repr := repr + {BaseOf(l)};
      assert Handles(lines) == h;
    }

    method DoOpen(n: nat, offset: nat, output: bool, value: int) returns (r: Outcome)
      requires Valid()
      modifies this, chip
      ensures Valid() && fresh(repr - old(repr)) && old(repr) <= repr
      ensures (State(), r) == OneOf(wrapper, old(State()), Open(n, offset, output, value))
    {
      hide Granted, Distinct, Held, Outputs, Handles, OneOf;
      ghost var w := State();
      OpenStep(wrapper, w, n, offset, output, value);
      if n in lines {
        return Raised;
      }
      var l := Request(offset, output, value);
      if l.None? {
        return Raised;
      }
      ghost var h := Handle(offset, output);
      ghost var w' := World(chip.levels, w.handles[n := h]);
      assert OneOf(wrapper, w, Open(n, offset, output, value)) == (w', Done);
      OpenedSets(w, n, h, chip.levels);
      assert forall k :: k in lines ==> BaseOf(lines[k]) in repr && Owns(lines[k]);
      Bind(n, l.value);
      r := Done;
    }

    method DoSet(n: nat, v: int) returns (r: Outcome)
      requires Valid()
      modifies chip
      ensures Valid()
      ensures (State(), r) == OneOf(wrapper, old(State()), SetTo(n, v))
    {
      ghost var w := State();
      if n !in lines {
        return Raised;
      }
      var ok: bool;
      match lines[n] {
        case Bare(g) => ok := g.Set(v);
        case Inverting(i) => ok := i.Set(v);
      }
      assert State().handles == w.handles;
      r := if ok then Done else Raised;
    }

    method DoGet(n: nat) returns (r: Outcome)
      requires Valid()
      ensures (State(), r) == OneOf(wrapper, State(), GetOf(n))
    {
      if n !in lines {
        return Raised;
      }
      var v: Option<bit>;
      match lines[n] {
        case Bare(g) => v := g.Get();
        case Inverting(i) => v := i.Get();
      }
      r := if v.Some? then Level(v.value) else Raised;
    }

    method DoClose(n: nat) returns (r: Outcome)
      requires Valid()
      modifies `lines, chip`held, chip`driven, repr`open
      ensures Valid()
      ensures (State(), r) == OneOf(wrapper, old(State()), CloseOf(n))
    {
      hide Distinct, Held, Outputs, Handles, OneOf;
      ghost var w := State();
      CloseStep(wrapper, w, n);
      if n !in lines {
        return Raised;
      }
      var b := BaseOf(lines[n]);
      forall k | k in lines && k != n
        ensures BaseOf(lines[k]) != b
      {
        NotTwice(w, k, n);
      }
      var ok := b.Close();
      lines := lines - {n};
      assert Handles(lines) == w.handles - {n};
      ClosedSets(w, n);
      assert State() == World(w.levels, w.handles - {n});
      r := Done;
    }

    method DoPull(offset: nat, level: bit)
      requires Valid()
      modifies chip
      ensures Valid()
      ensures (State(), Done) == OneOf(wrapper, old(State()), Outside(offset, level))
    {
      ghost var w := State();
      chip.Pull(offset, level);
      assert State().handles == w.handles;
    }

    method Do(op: Op) returns (r: Outcome)
      requires Valid()
      modifies this, chip, repr
      ensures Valid() && fresh(repr - old(repr)) && old(repr) <= repr
      ensures (State(), r) == OneOf(wrapper, old(State()), op)
    {
      match op {
        case Open(n, offset, output, value) => r := DoOpen(n, offset, output, value);
        case SetTo(n, v) => r := DoSet(n, v);
        case GetOf(n) => r := DoGet(n);
        case CloseOf(n) => r := DoClose(n);
        case Outside(offset, level) =>
          DoPull(offset, level);
          r := Done;
      }
    }

    /** A whole script on the objects does what it does on values. */
    method Run(ops: seq<Op>) returns (rs: seq<Outcome>)
      requires Valid()
      modifies this, chip, repr
      ensures Valid()
      ensures (State(), rs) == if wrapper then RunWrapped(old(State()), ops) else RunPlain(old(State()), ops)
    {
      hide Plain, Wrapped, Valid;
      rs := [];
      ghost var all := RunOf(wrapper, State(), ops);
      assert ops[0..] == ops && [] + all.1 == all.1;
      for i := 0 to |ops|
        invariant Valid() && fresh(repr - old(repr))
        invariant all.0 == RunOf(wrapper, State(), ops[i..]).0
        invariant all.1 == rs + RunOf(wrapper, State(), ops[i..]).1
      {
        assert ops[i..][0] == ops[i] && ops[i..][1..] == ops[i + 1..];
        var r := Do(ops[i]);
        ghost var rest := RunOf(wrapper, State(), ops[i + 1..]).1;
        assert rs + ([r] + rest) == rs + [r] + rest;
        rs := rs + [r];
      }
      assert rs + [] == rs;
    }
  }

  lemma NotTwice(w: World, m: nat, n: nat)
    requires Distinct(w) && m in w.handles && n in w.handles && m != n
    ensures w.handles[m].offset != w.handles[n].offset
  {
  }

  lemma OpenedSets(w: World, n: nat, h: Handle, levels: seq<bit>)
    requires n !in w.handles && h.offset !in Held(w) && Distinct(w)
    ensures var w' := World(levels, w.handles[n := h]);
            && Held(w') == Held(w) + {h.offset}
            && Outputs(w') == Outputs(w) + (if h.output then {h.offset} else {})
            && Distinct(w')
  {
    var w' := World(levels, w.handles[n := h]);
    assert n in w'.handles && w'.handles[n] == h;
    forall k | k in w.handles
      ensures k in w'.handles && w'.handles[k] == w.handles[k] && w.handles[k].offset in Held(w)
    {
    }
  }

  lemma ClosedSets(w: World, n: nat)
    requires n in w.handles && Distinct(w)
    ensures var w' := World(w.levels, w.handles - {n});
            && Held(w') == Held(w) - {w.handles[n].offset}
            && Outputs(w') == Outputs(w) - {w.handles[n].offset}
            && Distinct(w')
  {
    var w' := World(w.levels, w.handles - {n});
    forall k | k in w.handles && k != n
      ensures k in w'.handles && w'.handles[k] == w.handles[k]
    {
    }
  }

  //////////////////////////////////////////////////////////////////////////////
  // What is driven is what is read
  //////////////////////////////////////////////////////////////////////////////

  lemma LowBitIsMask(v: int)
    ensures LowBit(v) == And(v, 1)
  {
    assert And(v, 1) == v % 2 + 2 * And(v / 2, 0);
  }

  /** A line requested as an output reads as the low bit of its initial value, and so does an open output of
      the value it is set to; no other line changes. */
  lemma DrivenIsRead(w: World, n: nat, k: nat, v: int)
    ensures Opens(w, Open(n, k, true, v)) ==>
              && RunPlain(w, [Open(n, k, true, v), GetOf(n)]).1 == [Done, Level(if v % 2 == 1 then 1 else 0)]
              && forall i :: 0 <= i < |w.levels| && i != k ==> Plain(w, Open(n, k, true, v)).0.levels[i] == w.levels[i]
    ensures Drives(w, SetTo(n, v)) ==>
              && RunPlain(w, [SetTo(n, v), GetOf(n)]).1 == [Done, Level(if v % 2 == 1 then 1 else 0)]
              && forall i :: 0 <= i < |w.levels| && i != w.handles[n].offset ==>
                               Plain(w, SetTo(n, v)).0.levels[i] == w.levels[i]
  {
    TwoPlain(w, Open(n, k, true, v), GetOf(n));
    TwoPlain(w, SetTo(n, v), GetOf(n));
  }

  lemma TwoPlain(w: World, a: Op, b: Op)
    ensures RunPlain(w, [a, b]).1 == [Plain(w, a).1, Plain(Plain(w, a).0, b).1]
  {
    hide Plain;
    var ops, last := [a, b], [b];
    assert ops[1..] == last && last[1..] == [];
    var w1 := Plain(w, a).0;
    assert RunPlain(w1, last).1 == [Plain(w1, b).1] + [];
  }

  lemma TwoWrapped(w: World, a: Op, b: Op)
    ensures RunWrapped(w, [a, b]).1 == [Wrapped(w, a).1, Wrapped(Wrapped(w, a).0, b).1]
  {
    hide Wrapped;
    var ops, last := [a, b], [b];
    assert ops[1..] == last && last[1..] == [];
    var w1 := Wrapped(w, a).0;
    assert RunWrapped(w1, last).1 == [Wrapped(w1, b).1] + [];
  }

  /** Through the wrapper, line 264 reads as the truth of the value it is driven with, and is physically the
      opposite; every other line is as without the wrapper. */
  lemma DrivenIsReadInverted(w: World, n: nat, k: nat, v: int)
    requires Opens(w, Open(n, k, true, v))
    ensures k == 264 ==>
              && RunWrapped(w, [Open(n, k, true, v), GetOf(n)]).1 == [Done, Level(if v != 0 then 1 else 0)]
              && Wrapped(w, Open(n, k, true, v)).0.levels[k] == if v != 0 then 0 else 1
    ensures k != 264 ==>
              && RunWrapped(w, [Open(n, k, true, v), GetOf(n)]).1 == [Done, Level(if v % 2 == 1 then 1 else 0)]
              && Wrapped(w, Open(n, k, true, v)).0 == Plain(w, Open(n, k, true, v)).0
  {
    TwoWrapped(w, Open(n, k, true, v), GetOf(n));
  }

  //////////////////////////////////////////////////////////////////////////////
  // The two runs compared
  //////////////////////////////////////////////////////////////////////////////

  /** The two runs hold the same lines and see the same levels, except that line 264 is complemented when
      `mirrored` is set. */
  predicate Related(p: World, w: World, mirrored: bool) {
    && w.handles == p.handles && |w.levels| == |p.levels|
    && forall i :: 0 <= i < |p.levels| ==>
                     w.levels[i] == if i == INVERTED && mirrored then 1 - p.levels[i] else p.levels[i]
  }

  /** The value the operation drives line 264 with, if it does. */
  function DrivenWith(w: World, op: Op): Option<int> {
    if Opens(w, op) && op.output && op.offset == INVERTED then Some(op.value)
    else if Drives(w, op) && w.handles[op.name].offset == INVERTED then Some(op.v)
    else None
  }

  /** Whether line 264 is complemented after the operation: driving it complements it exactly when "v & 1"
      and Python's truth of v agree, and a pull from outside makes it the same in both runs. */
  predicate Mirrored(p: World, op: Op, mirrored: bool) {
    var v := DrivenWith(p, op);
    if v.Some? then v.value == 0 || v.value % 2 == 1
    else if Pulls(p, op) && op.offset == INVERTED then false
    else mirrored
  }

  /** The operation reads line 264. */
  predicate ReadsInverted(p: World, op: Op) {
    Gets(p, op) && p.handles[op.name].offset == INVERTED
  }

  /** One step of both runs: the relation is kept, and the script sees the same result unless it reads line
      264 while that is not complemented; then it sees the opposite level. */
  lemma StepMirrors(p: World, w: World, mirrored: bool, op: Op)
    requires Related(p, w, mirrored)
    ensures Related(Plain(p, op).0, Wrapped(w, op).0, Mirrored(p, op, mirrored))
    ensures Wrapped(w, op).1 ==
            if ReadsInverted(p, op) && !mirrored then Level(1 - p.levels[INVERTED]) else Plain(p, op).1
  {
    match op
    case Open(_, _, _, _) => OpenMirrors(p, w, mirrored, op);
    case SetTo(_, _) => SetMirrors(p, w, mirrored, op);
    case GetOf(_) =>
    case CloseOf(_) =>
    case Outside(_, _) =>
  }

  lemma OpenMirrors(p: World, w: World, mirrored: bool, op: Op)
    requires Related(p, w, mirrored) && op.Open?
    ensures Related(Plain(p, op).0, Wrapped(w, op).0, Mirrored(p, op, mirrored))
    ensures Wrapped(w, op).1 == Plain(p, op).1
  {
    assert Held(p) == Held(w);
    if Opens(p, op) && op.output {
      assert Plain(p, op).0.levels[op.offset] == LowBit(op.value);
      assert Wrapped(w, op).0.levels[op.offset] == LowBit(Passed(op.offset, op.value));
    }
  }

  lemma SetMirrors(p: World, w: World, mirrored: bool, op: Op)
    requires Related(p, w, mirrored) && op.SetTo?
    ensures Related(Plain(p, op).0, Wrapped(w, op).0, Mirrored(p, op, mirrored))
    ensures Wrapped(w, op).1 == Plain(p, op).1
  {
    if Drives(p, op) {
      var k := p.handles[op.name].offset;
      assert Plain(p, op).0.levels[k] == LowBit(op.v);
      assert Wrapped(w, op).0.levels[k] == LowBit(Passed(k, op.v));
    }
  }

  /** Whether line 264 is complemented after a whole script. */
  predicate MirroredAfter(p: World, ops: seq<Op>, mirrored: bool)
    decreases |ops|
  {
    if ops == [] then mirrored
    else MirroredAfter(Plain(p, ops[0]).0, ops[1..], Mirrored(p, ops[0], mirrored))
  }

  /** The script never reads line 264 while that is not complemented. */
  predicate ReadsOnlyMirrored(p: World, ops: seq<Op>, mirrored: bool)
    decreases |ops|
  {
    ops == [] ||
    (!(ReadsInverted(p, ops[0]) && !mirrored) &&
     ReadsOnlyMirrored(Plain(p, ops[0]).0, ops[1..], Mirrored(p, ops[0], mirrored)))
  }

  lemma {:induction false} RunRelated(p: World, w: World, mirrored: bool, ops: seq<Op>)
    requires Related(p, w, mirrored)
    ensures Related(RunPlain(p, ops).0, RunWrapped(w, ops).0, MirroredAfter(p, ops, mirrored))
    ensures RunWrapped(w, ops).1 == RunPlain(p, ops).1 <==> ReadsOnlyMirrored(p, ops, mirrored)
    decreases |ops|
  {
    hide Related, Plain, Wrapped, Mirrored;
    if ops != [] {
      StepMirrors(p, w, mirrored, ops[0]);
      RunRelated(Plain(p, ops[0]).0, Wrapped(w, ops[0]).0, Mirrored(p, ops[0], mirrored), ops[1..]);
      if ReadsInverted(p, ops[0]) {
        ReadSeesLevel(p, ops[0]);
      }
      var r, r' := Plain(p, ops[0]).1, Wrapped(w, ops[0]).1;
      var rs := RunPlain(Plain(p, ops[0]).0, ops[1..]).1;
      var rs' := RunWrapped(Wrapped(w, ops[0]).0, ops[1..]).1;
      assert ([r] + rs)[0] == r && ([r] + rs)[1..] == rs && ([r'] + rs')[0] == r' && ([r'] + rs')[1..] == rs';
    }
  }

  lemma ReadSeesLevel(p: World, op: Op)
    requires ReadsInverted(p, op)
    ensures Plain(p, op).1 == Level(p.levels[INVERTED]) && Level(1 - p.levels[INVERTED]) != Level(p.levels[INVERTED])
  {
  }

  /** The same script on the same hardware, without and with the wrapper: every line but 264 ends at the same
      level, 264 at the opposite one exactly when it was last driven with 0 or an odd value and not pulled
      since; and the script sees the same results if and only if it reads 264 only in such a state. */
  lemma WrapperMirrors(w: World, ops: seq<Op>)
    ensures Related(RunPlain(w, ops).0, RunWrapped(w, ops).0, MirroredAfter(w, ops, false))
    ensures RunWrapped(w, ops).1 == RunPlain(w, ops).1 <==> ReadsOnlyMirrored(w, ops, false)
  {
    hide RunPlain, RunWrapped, MirroredAfter, ReadsOnlyMirrored;
    RunRelated(w, w, false, ops);
  }

  /** Every value the script drives a line with is 0 or 1, and nothing outside pulls line 264. */
  predicate UsesBits(ops: seq<Op>) {
    forall k :: 0 <= k < |ops| ==>
                  && (ops[k].Open? ==> ops[k].value in {0, 1})
                  && (ops[k].SetTo? ==> ops[k].v in {0, 1})
                  && (ops[k].Outside? ==> ops[k].offset != INVERTED)
  }

  lemma {:induction false} BitsStayMirrored(p: World, ops: seq<Op>)
    requires UsesBits(ops)
    ensures MirroredAfter(p, ops, true) && ReadsOnlyMirrored(p, ops, true)
    decreases |ops|
  {
    hide Plain;
    if ops != [] {
      BitsStayMirrored(Plain(p, ops[0]).0, ops[1..]);
    }
  }

  /** The scripts the wrapper is meant for: one that takes line 264 as an output first and drives with 0
      and 1 sees the same results on the same hardware, and leaves exactly line 264 complemented. */
  lemma ScriptUnaware(w: World, ops: seq<Op>)
    requires ops != [] && Opens(w, ops[0]) && ops[0].output && ops[0].offset == 264
    requires forall k :: 0 <= k < |ops| ==>
               && (ops[k].Open? ==> ops[k].value == 0 || ops[k].value == 1)
               && (ops[k].SetTo? ==> ops[k].v == 0 || ops[k].v == 1)
               && (ops[k].Outside? ==> ops[k].offset != 264)
    ensures RunWrapped(w, ops).1 == RunPlain(w, ops).1
    ensures Related(RunPlain(w, ops).0, RunWrapped(w, ops).0, true)
  {
    hide RunPlain, RunWrapped, Plain, Related;
    WrapperMirrors(w, ops);
    BitsStayMirrored(Plain(w, ops[0]).0, ops[1..]);
    assert Mirrored(w, ops[0], false);
  }

  /** A script that reads line 264 before it drives it sees the wrong level; so does one that has driven
      it with 2, which leaves the line low in both runs. */
  lemma WrapperShows(levels: seq<bit>)
    requires |levels| > INVERTED
    ensures var w := World(levels, map[]);
            && !ReadsOnlyMirrored(w, [Open(0, INVERTED, false, 0), GetOf(0)], false)
            && !ReadsOnlyMirrored(w, [Open(0, INVERTED, true, 2), GetOf(0)], false)
  {
    var w := World(levels, map[]);
    ReadAfterOpen(w, false, 0);
    ReadAfterOpen(w, true, 2);
  }

  lemma ReadAfterOpen(w: World, output: bool, value: int)
    requires |w.levels| > INVERTED && w.handles == map[] && (output ==> value == 2)
    ensures !ReadsOnlyMirrored(w, [Open(0, INVERTED, output, value), GetOf(0)], false)
  {
    var ops := [Open(0, INVERTED, output, value), GetOf(0)];
    assert Opens(w, ops[0]);
    var w1 := Plain(w, ops[0]).0;
    assert w1.handles[0] == Handle(INVERTED, output);
    assert ops[1..][0] == GetOf(0) && ReadsInverted(w1, ops[1..][0]);
    assert !ReadsOnlyMirrored(w1, ops[1..], false);
  }
}
