/** tools/pexref.py: address translation between PE file offsets and RVAs, and the scan for RIP-relative
    LEA instructions. */
module Pe {
  import opened Bits
  import opened Bytes

  datatype Section = Section(name: string, va: nat, vs: nat, ra: nat, rs: nat)

  function Max(a: nat, b: nat): nat {
    if a >= b then a else b
  }

  predicate InRaw(s: Section, f: int) {
    s.ra <= f < s.ra + s.rs
  }

  predicate InVirtual(s: Section, r: int) {
    s.va <= r < s.va + Max(s.vs, s.rs)
  }

  /** r lies in the part of the section that the file backs; the rest is zero-filled. */
  predicate Backed(s: Section, r: int) {
    s.va <= r < s.va + s.rs
  }

  /** `f2rva`: the first section whose raw range holds f decides. */
  function FileToRva(secs: seq<Section>, f: int): Option<int> {
    if secs == [] then None
    else if InRaw(secs[0], f) then Some(secs[0].va + (f - secs[0].ra))
    else FileToRva(secs[1..], f)
  }

  /** `rva2f`: the first section whose virtual range holds r decides, and may answer None. */
  function RvaToFile(secs: seq<Section>, r: int): Option<int> {
    if secs == [] then None
    else if InVirtual(secs[0], r) then
      if r - secs[0].va < secs[0].rs then Some(secs[0].ra + (r - secs[0].va)) else None
    else RvaToFile(secs[1..], r)
  }

  ghost predicate RawDisjoint(secs: seq<Section>) {
    forall i, j, f: int :: 0 <= i < j < |secs| && InRaw(secs[i], f) ==> !InRaw(secs[j], f)
  }

  ghost predicate VirtualDisjoint(secs: seq<Section>) {
    forall i, j, r: int :: 0 <= i < j < |secs| && InVirtual(secs[i], r) ==> !InVirtual(secs[j], r)
  }

  lemma {:induction false} FileToRvaIn(secs: seq<Section>, f: int, k: nat)
    requires RawDisjoint(secs) && k < |secs| && InRaw(secs[k], f)
    ensures FileToRva(secs, f) == Some(secs[k].va + (f - secs[k].ra))
  {
    if k > 0 {
      assert !InRaw(secs[0], f);
      FileToRvaIn(secs[1..], f, k - 1);
    }
  }

  lemma {:induction false} RvaToFileIn(secs: seq<Section>, r: int, k: nat)
    requires VirtualDisjoint(secs) && k < |secs| && InVirtual(secs[k], r)
    ensures RvaToFile(secs, r) == if Backed(secs[k], r) then Some(secs[k].ra + (r - secs[k].va)) else None
  {
    if k > 0 {
      assert !InVirtual(secs[0], r);
      RvaToFileIn(secs[1..], r, k - 1);
    }
  }

  /** A defined answer comes from the first section that holds the argument. */
  lemma {:induction false} FileToRvaFrom(secs: seq<Section>, f: int) returns (k: nat)
    requires FileToRva(secs, f).Some?
    ensures k < |secs| && InRaw(secs[k], f) && FileToRva(secs, f) == Some(secs[k].va + (f - secs[k].ra))
    ensures forall j :: 0 <= j < k ==> !InRaw(secs[j], f)
  {
    if InRaw(secs[0], f) {
      k := 0;
    } else {
      k := FileToRvaFrom(secs[1..], f);
      k := k + 1;
    }
  }

  lemma {:induction false} RvaToFileFrom(secs: seq<Section>, r: int) returns (k: nat)
    requires RvaToFile(secs, r).Some?
    ensures k < |secs| && Backed(secs[k], r) && RvaToFile(secs, r) == Some(secs[k].ra + (r - secs[k].va))
    ensures forall j :: 0 <= j < k ==> !InVirtual(secs[j], r)
  {
    if InVirtual(secs[0], r) {
      k := 0;
    } else {
      k := RvaToFileFrom(secs[1..], r);
      k := k + 1;
    }
  }

  lemma {:induction false} FirstVirtual(secs: seq<Section>, r: int, k: nat)
    requires k < |secs| && Backed(secs[k], r)
    requires forall j :: 0 <= j < k ==> !InVirtual(secs[j], r)
    ensures RvaToFile(secs, r) == Some(secs[k].ra + (r - secs[k].va))
  {
    if k > 0 {
      FirstVirtual(secs[1..], r, k - 1);
    }
  }

  /** `rva2f` undoes `f2rva` on every mapped file offset when virtual ranges are disjoint. */
  lemma FileRoundTrip(secs: seq<Section>, f: int)
    requires VirtualDisjoint(secs) && FileToRva(secs, f).Some?
    ensures RvaToFile(secs, FileToRva(secs, f).value) == Some(f)
  {
    var k := FileToRvaFrom(secs, f);
    RvaToFileIn(secs, FileToRva(secs, f).value, k);
  }

  /** `f2rva` undoes `rva2f` wherever the latter is defined when raw ranges are disjoint. */
  lemma RvaRoundTrip(secs: seq<Section>, r: int)
    requires RawDisjoint(secs) && RvaToFile(secs, r).Some?
    ensures FileToRva(secs, RvaToFile(secs, r).value) == Some(r)
  {
    var k := RvaToFileFrom(secs, r);
    FileToRvaIn(secs, RvaToFile(secs, r).value, k);
  }

  /** For any table: `f2rva` answers None exactly for offsets outside every raw range, and `rva2f` exactly if
      every section whose backed part holds the address comes after another that holds it too. So None means that no
      section backs the address exactly if a section that does, should there be one, is the first to
      hold it. */
  lemma NoneExact(secs: seq<Section>, x: int)
    ensures FileToRva(secs, x).None? <==> forall k :: 0 <= k < |secs| ==> !InRaw(secs[k], x)
    ensures RvaToFile(secs, x).None? <==>
            forall k :: 0 <= k < |secs| && Backed(secs[k], x) ==> exists j :: 0 <= j < k && InVirtual(secs[j], x)
    ensures (RvaToFile(secs, x).None? <==> forall k :: 0 <= k < |secs| ==> !Backed(secs[k], x)) <==>
            ((exists k :: 0 <= k < |secs| && Backed(secs[k], x)) ==>
             exists k :: 0 <= k < |secs| && Backed(secs[k], x) && forall j :: 0 <= j < k ==> !InVirtual(secs[j], x))
  {
    if FileToRva(secs, x).Some? {
      var k := FileToRvaFrom(secs, x);
    } else {
      FileToRvaNowhere(secs, x);
    }
    if RvaToFile(secs, x).Some? {
      var k := RvaToFileFrom(secs, x);
    }
    if k :| 0 <= k < |secs| && Backed(secs[k], x) && forall j :: 0 <= j < k ==> !InVirtual(secs[j], x) {
      FirstVirtual(secs, x, k);
    }
  }

  lemma {:induction false} FileToRvaNowhere(secs: seq<Section>, f: int)
    requires FileToRva(secs, f).None?
    ensures forall k :: 0 <= k < |secs| ==> !InRaw(secs[k], f)
  {
    if secs != [] {
      FileToRvaNowhere(secs[1..], f);
      forall k | 0 < k < |secs|
        ensures !InRaw(secs[k], f)
      {
        assert secs[k] == secs[1..][k - 1];
      }
    }
  }

  /** When virtual ranges are disjoint, `rva2f` answers None exactly for addresses that no section backs. */
  lemma NoneWhenDisjoint(secs: seq<Section>, x: int)
    requires VirtualDisjoint(secs)
    ensures RvaToFile(secs, x).None? <==> forall k :: 0 <= k < |secs| ==> !Backed(secs[k], x)
  {
    NoneExact(secs, x);
  }

  /** What the file backs of a section is not in the virtual range of an earlier one. */
  ghost predicate NoneShadowed(secs: seq<Section>) {
    forall j, k, r: int :: 0 <= j < k < |secs| && Backed(secs[k], r) ==> !InVirtual(secs[j], r)
  }

  /** With disjoint raw ranges, every mapped file offset survives the round trip if and only if no section
      is shadowed by an earlier one. */
  lemma FileRoundTripExact(secs: seq<Section>)
    requires RawDisjoint(secs)
    ensures (forall f: int :: FileToRva(secs, f).Some? ==> RvaToFile(secs, FileToRva(secs, f).value) == Some(f))
            <==> NoneShadowed(secs)
  {
    if NoneShadowed(secs) {
      forall f: int | FileToRva(secs, f).Some?
        ensures RvaToFile(secs, FileToRva(secs, f).value) == Some(f)
      {
        var k := FileToRvaFrom(secs, f);
        FirstVirtual(secs, FileToRva(secs, f).value, k);
      }
    } else {
      var j, k, r: int :| 0 <= j < k < |secs| && Backed(secs[k], r) && InVirtual(secs[j], r);
      var f := secs[k].ra + (r - secs[k].va);
      FileToRvaIn(secs, f, k);
      if RvaToFile(secs, r) == Some(f) {
        var i := RvaToFileFrom(secs, r);
        assert i <= j && InRaw(secs[i], f) && InRaw(secs[k], f);
      }
    }
  }

  /** With disjoint virtual ranges, every address that is backed by the file survives the round trip if and
      only if the raw ranges are disjoint too. */
  lemma RvaRoundTripExact(secs: seq<Section>)
    requires VirtualDisjoint(secs)
    ensures (forall r: int :: RvaToFile(secs, r).Some? ==> FileToRva(secs, RvaToFile(secs, r).value) == Some(r))
            <==> RawDisjoint(secs)
  {
    if RawDisjoint(secs) {
      forall r: int | RvaToFile(secs, r).Some?
        ensures FileToRva(secs, RvaToFile(secs, r).value) == Some(r)
      {
        RvaRoundTrip(secs, r);
      }
    } else {
      var j, k, f: int :| 0 <= j < k < |secs| && InRaw(secs[j], f) && InRaw(secs[k], f);
      var r := secs[k].va + (f - secs[k].ra);
      RvaToFileIn(secs, r, k);
      if FileToRva(secs, f) == Some(r) {
        var i := FileToRvaFrom(secs, f);
        assert i <= j && InVirtual(secs[i], r) && InVirtual(secs[k], r);
      }
    }
  }

  /** With two sections at one address, the offset of the second comes back as an offset of the first. */
  lemma OverlapBreaksRoundTrip()
    ensures var secs := [Section("a", 0x1000, 0x200, 0x400, 0x200), Section("b", 0x1000, 0x200, 0x600, 0x200)];
            FileToRva(secs, 0x600) == Some(0x1000) && RvaToFile(secs, 0x1000) == Some(0x400) && !NoneShadowed(secs)
  {
    var secs := [Section("a", 0x1000, 0x200, 0x400, 0x200), Section("b", 0x1000, 0x200, 0x600, 0x200)];
    assert secs[1..][0] == secs[1];
    assert Backed(secs[1], 0x1000) && InVirtual(secs[0], 0x1000);
  }

  /** With two sections on one piece of the file, the address of the second comes back as one of the first. */
  lemma OverlapBreaksRvaRoundTrip()
    ensures var secs := [Section("a", 0x1000, 0x200, 0x400, 0x200), Section("b", 0x2000, 0x200, 0x400, 0x200)];
            && VirtualDisjoint(secs) && !RawDisjoint(secs)
            && RvaToFile(secs, 0x2000) == Some(0x400) && FileToRva(secs, 0x400) == Some(0x1000)
  {
    var secs := [Section("a", 0x1000, 0x200, 0x400, 0x200), Section("b", 0x2000, 0x200, 0x400, 0x200)];
    assert secs[1..][0] == secs[1];
    assert InRaw(secs[0], 0x400) && InRaw(secs[1], 0x400);
  }

  //////////////////////////////////////////////////////////////////////////////
  // LEA reg, [rip + disp32]
  //////////////////////////////////////////////////////////////////////////////

  const LEA_LENGTH := 7
  const LEA_REGS: set<nat> := {0x05, 0x0d, 0x15, 0x1d, 0x2d, 0x35, 0x3d}

  /** The two stacked tests on the ModRM byte, as the source writes them. */
  predicate Filtered(modrm: byte) {
    || (And(modrm, 0xc7) !in LEA_REGS && And(modrm, 0x07) != 0x05)
    || (And(modrm, 0xc0) != 0x00 || And(modrm, 0x07) != 0x05)
  }

  /** They let through exactly mod = 00 and rm = 101. */
  lemma FiltersAreOneTest(modrm: byte)
    ensures !Filtered(modrm) <==> modrm / 64 == 0 && modrm % 8 == 5
  {
    hide And, LEA_REGS;
    Pow2Values();
    AndMask(modrm, 3);
    assert Shl(3, 6) == 0xc0 by { ShlIsProduct(3, 6); }
    AndHigh(modrm, 3, 6);
    ShrIsQuotient(modrm, 6);
    AndMask(modrm / 64, 2);
    ShlIsProduct(modrm / 64, 6);
  }

  /** struct.unpack_from("<i", d, at) */
  function Int32(d: seq<byte>, at: nat): int
    requires at + 4 <= |d|
  {
    var u := UInt32(d, at);
    if u < 0x8000_0000 then u else u - 0x1_0000_0000
  }

  /** The three bytes at i are REX.W, 8D and a RIP-relative ModRM. */
  predicate LeaPrefix(d: seq<byte>, i: nat) {
    i + 2 < |d| && 0x48 <= d[i] <= 0x4f && d[i + 1] == 0x8d && d[i + 2] / 64 == 0 && d[i + 2] % 8 == 5
  }

  predicate LeaAt(d: seq<byte>, i: nat) {
    LeaPrefix(d, i) && i + LEA_LENGTH <= |d|
  }

  function Target(d: seq<byte>, va: nat, ra: nat, i: nat): int
    requires i + LEA_LENGTH <= |d|
  {
    va + (i - ra) + LEA_LENGTH + Int32(d, i + 3)
  }

  /** What the generator yields from offset i on, and whether it ends without an out-of-range read. */
  function LeaScan(d: seq<byte>, va: nat, ra: nat, i: nat, stop: int): (seq<(nat, int)>, bool)
    decreases stop - i
  {
    if i >= stop then ([], true)
    else if i + 2 >= |d| then ([], false)
    else if !LeaPrefix(d, i) then LeaScan(d, va, ra, i + 1, stop)
    else if i + LEA_LENGTH > |d| then ([], false)
    else
      var (rest, ok) := LeaScan(d, va, ra, i + 1, stop);
      ([(i, Target(d, va, ra, i))] + rest, ok)
  }

  /** The first section of a name. */
  function FindSec(secs: seq<Section>, name: string): Option<Section> {
    if secs == [] then None
    else if secs[0].name == name then Some(secs[0])
    else FindSec(secs[1..], name)
  }

  /** The scan of a whole file; without a text section it fails at once. */
  function LeasOf(d: seq<byte>, secs: seq<Section>): (seq<(nat, int)>, bool) {
    var text := FindSec(secs, ".text");
    if text.None? then ([], false)
    else
      var s := text.value;
      LeaScan(d, s.va, s.ra, s.ra, s.ra + s.rs - LEA_LENGTH)
  }

  class PE {
    const d: seq<byte>
    const secs: seq<Section>

    constructor (d: seq<byte>, secs: seq<Section>)
      ensures this.d == d && this.secs == secs
    {
      this.d, this.secs := d, secs;
    }

    method F2Rva(f: int) returns (r: Option<int>)
      ensures r == FileToRva(secs, f)
    {
      var k := 0;
      while k < |secs|
        invariant 0 <= k <= |secs|
        invariant FileToRva(secs, f) == FileToRva(secs[k..], f)
      {
        var s := secs[k];
        assert secs[k..][0] == s && secs[k..][1..] == secs[k + 1..];
        if InRaw(s, f) {
          return Some(s.va + (f - s.ra));
        }
        k := k + 1;
      }
      r := None;
    }

    method Rva2F(r: int) returns (f: Option<int>)
      ensures f == RvaToFile(secs, r)
    {
      var k := 0;
      while k < |secs|
        invariant 0 <= k <= |secs|
        invariant RvaToFile(secs, r) == RvaToFile(secs[k..], r)
      {
        var s := secs[k];
        assert secs[k..][0] == s && secs[k..][1..] == secs[k + 1..];
        if InVirtual(s, r) {
          var off := r - s.va;
          return if off < s.rs then Some(s.ra + off) else None;
        }
        k := k + 1;
      }
      f := None;
    }

    method Sec(name: string) returns (s: Option<Section>)
      ensures s == FindSec(secs, name)
    {
      for k := 0 to |secs|
        invariant FindSec(secs, name) == FindSec(secs[k..], name)
      {
        assert secs[k..][0] == secs[k] && secs[k..][1..] == secs[k + 1..];
        if secs[k].name == name {
          return Some(secs[k]);
        }
      }
      s := None;
    }

    /** `ok` is false when the generator ended in an exception: no text section, or a read past the end of
        the file. */
    method ScanLea() returns (out: seq<(nat, int)>, ok: bool)
      ensures (out, ok) == LeasOf(d, secs)
    {
      hide Filtered, LEA_REGS, Int32, LeaPrefix, FindSec;
      var sec := Sec(".text");
      if sec.None? {
        return [], false;
      }
      var text := sec.value;
      out, ok := [], true;
      var i := text.ra;
      var stop := text.ra + text.rs - LEA_LENGTH;
      ghost var all := LeaScan(d, text.va, text.ra, i, stop);
      while i < stop
        invariant text.ra <= i && ok
        invariant all.0 == out + LeaScan(d, text.va, text.ra, i, stop).0
        invariant all.1 == LeaScan(d, text.va, text.ra, i, stop).1
        decreases stop - i
      {
        ghost var rest := LeaScan(d, text.va, text.ra, i + 1, stop);
        if i + 2 >= |d| {
          assert out + [] == out;
          return out, false;
        }
        var b0, b1, modrm := d[i], d[i + 1], d[i + 2];
        FiltersAreOneTest(modrm);
        LeaPrefixIs(d, i);
        if !(0x48 <= b0 <= 0x4f && b1 == 0x8d) {
          i := i + 1;
          continue;
        }
        if Filtered(modrm) {
          i := i + 1;
          continue;
        }
        if i + LEA_LENGTH > |d| {
          assert out + [] == out;
          return out, false;
        }
        var next := text.va + (i - text.ra) + LEA_LENGTH;
        var e := (i, next + Int32(d, i + 3));
        assert e == (i, Target(d, text.va, text.ra, i));
        assert out + ([e] + rest.0) == out + [e] + rest.0;
        out := out + [e];
        i := i + 1;
      }
      assert out + [] == out;
    }
  }

  lemma {:induction false} FindSecAt(secs: seq<Section>, name: string, k: nat)
    requires k < |secs| && secs[k].name == name && forall j :: 0 <= j < k ==> secs[j].name != name
    ensures FindSec(secs, name) == Some(secs[k])
  {
    if k > 0 {
      assert secs[0].name != name;
      FindSecAt(secs[1..], name, k - 1);
    }
  }

  lemma {:induction false} FindSecExact(secs: seq<Section>, name: string)
    ensures FindSec(secs, name).None? <==> forall k :: 0 <= k < |secs| ==> secs[k].name != name
    ensures FindSec(secs, name).Some? ==>
              exists k :: 0 <= k < |secs| && secs[k] == FindSec(secs, name).value && secs[k].name == name
                            && forall j :: 0 <= j < k ==> secs[j].name != name
  {
    if secs != [] && secs[0].name != name {
      FindSecExact(secs[1..], name);
      if FindSec(secs, name).Some? {
        var k :| 0 <= k < |secs[1..]| && secs[1..][k] == FindSec(secs, name).value && secs[1..][k].name == name
                 && forall j :: 0 <= j < k ==> secs[1..][j].name != name;
        forall j | 0 <= j < k + 1
          ensures secs[j].name != name
        {
          assert j > 0 ==> secs[j] == secs[1..][j - 1];
        }
        assert secs[k + 1] == secs[1..][k];
      }
    }
  }

  lemma LeaPrefixIs(d: seq<byte>, i: nat)
    requires i + 2 < |d|
    ensures LeaPrefix(d, i) <==> 0x48 <= d[i] <= 0x4f && d[i + 1] == 0x8d && d[i + 2] / 64 == 0 && d[i + 2] % 8 == 5
  {
  }

  /** Within a file that holds the whole section, the scan never reads out of range and yields exactly
      the offsets before stop that hold such an instruction, each with the next instruction's RVA plus
      the signed displacement. */
  lemma {:induction false} LeaScanExact(d: seq<byte>, va: nat, ra: nat, i: nat, stop: int, e: (nat, int))
    requires stop + LEA_LENGTH <= |d|
    ensures LeaScan(d, va, ra, i, stop).1
    ensures e in LeaScan(d, va, ra, i, stop).0 <==> i <= e.0 < stop && LeaAt(d, e.0) && e.1 == Target(d, va, ra, e.0)
    decreases stop - i
  {
    hide LeaPrefix, Target;
    if i < stop {
      LeaScanExact(d, va, ra, i + 1, stop, e);
    }
  }

  /** The bytes of `lea reg, [rip + disp]`. */
  function LeaBytes(rex: byte, reg: nat, disp: int): seq<byte>
    requires 0x48 <= rex <= 0x4f && reg < 8 && -0x8000_0000 <= disp < 0x8000_0000
  {
    [rex, 0x8d, 8 * reg + 5] + Bytes32(if disp < 0 then disp + 0x1_0000_0000 else disp)
  }

  /** An LEA of any register and displacement, placed in a section anywhere but in its last seven bytes,
      is reported with the address it forms. */
  lemma LeaFound(before: seq<byte>, rex: byte, reg: nat, disp: int, after: seq<byte>, text: Section)
    requires 0x48 <= rex <= 0x4f && reg < 8 && -0x8000_0000 <= disp < 0x8000_0000
    requires text.ra <= |before| < text.ra + text.rs - LEA_LENGTH
    requires text.ra + text.rs <= |before| + LEA_LENGTH + |after|
    ensures var d := before + LeaBytes(rex, reg, disp) + after;
            var i := |before|;
            (i, text.va + (i - text.ra) + LEA_LENGTH + disp) in
              LeaScan(d, text.va, text.ra, text.ra, text.ra + text.rs - LEA_LENGTH).0
  {
    hide UInt32, Bytes32, LeaScan;
    var u: nat := if disp < 0 then disp + 0x1_0000_0000 else disp;
    var i, lead: seq<byte> := |before|, [rex, 0x8d, 8 * reg + 5];
    var d := before + LeaBytes(rex, reg, disp) + after;
    assert d == (before + lead) + Bytes32(u) + after;
    UInt32OfBytes(before + lead, u, after);
    assert d[i] == rex && d[i + 1] == 0x8d && d[i + 2] == 8 * reg + 5;
    ModRmFields(reg);
    assert LeaAt(d, i) && Int32(d, i + 3) == disp;
    LeaScanExact(d, text.va, text.ra, text.ra, text.ra + text.rs - LEA_LENGTH, (i, Target(d, text.va, text.ra, i)));
  }

  lemma ModRmFields(reg: nat)
    requires reg < 8
    ensures (8 * reg + 5) / 64 == 0 && (8 * reg + 5) % 8 == 5
  {
    DivModUnique(8 * reg + 5, 8, reg, 5);
  }

  /** The last possible place is not looked at: the scan finds every LEA that lies wholly inside the
      section if and only if none occupies the section's last seven bytes. */
  lemma LastInstructionMissed(d: seq<byte>, text: Section)
    requires text.ra + text.rs <= |d|
    ensures var out := LeaScan(d, text.va, text.ra, text.ra, text.ra + text.rs - LEA_LENGTH).0;
            (forall i: nat :: text.ra <= i && i + LEA_LENGTH <= text.ra + text.rs && LeaAt(d, i) ==>
                (i, Target(d, text.va, text.ra, i)) in out)
            <==> !(text.rs >= LEA_LENGTH && LeaAt(d, text.ra + text.rs - LEA_LENGTH))
  {
    hide LeaPrefix, Target, LeaScan;
    var stop := text.ra + text.rs - LEA_LENGTH;
    var out := LeaScan(d, text.va, text.ra, text.ra, stop).0;
    forall i: nat | text.ra <= i && i + LEA_LENGTH <= text.ra + text.rs && LeaAt(d, i)
      ensures (i, Target(d, text.va, text.ra, i)) in out <==> i != stop
    {
      LeaScanExact(d, text.va, text.ra, text.ra, stop, (i, Target(d, text.va, text.ra, i)));
    }
  }

  //////////////////////////////////////////////////////////////////////////////
  // The scan of a whole file
  //////////////////////////////////////////////////////////////////////////////

  /** Section k is the one the scan looks at. */
  predicate IsText(secs: seq<Section>, k: nat) {
    k < |secs| && secs[k].name == ".text" && forall j :: 0 <= j < k ==> secs[j].name != ".text"
  }

  lemma TextFound(d: seq<byte>, secs: seq<Section>, k: nat)
    requires IsText(secs, k)
    ensures var s := secs[k];
            LeasOf(d, secs) == LeaScan(d, s.va, s.ra, s.ra, s.ra + s.rs - LEA_LENGTH)
  {
    hide LeaScan;
    FindSecAt(secs, ".text", k);
  }

  /** An LEA placed anywhere in the text section but in its last seven bytes is reported, with the address it
      forms counted from where the section is mapped. */
  lemma LeaFoundInFile(before: seq<byte>, rex: byte, reg: nat, disp: int, after: seq<byte>, secs: seq<Section>, k: nat)
    requires 0x48 <= rex <= 0x4f && reg < 8 && -0x8000_0000 <= disp < 0x8000_0000
    requires IsText(secs, k)
    requires secs[k].ra <= |before| < secs[k].ra + secs[k].rs - 7
    requires secs[k].ra + secs[k].rs <= |before| + 7 + |after|
    ensures var d := before + LeaBytes(rex, reg, disp) + after;
            var i := |before|;
            (i, secs[k].va + (i - secs[k].ra) + 7 + disp) in LeasOf(d, secs).0 && LeasOf(d, secs).1
  {
    hide LeaScan, LeasOf, LeaBytes;
    var d := before + LeaBytes(rex, reg, disp) + after;
    assert |LeaBytes(rex, reg, disp)| == 7 by { SevenBytes(rex, reg, disp); }
    TextFound(d, secs, k);
    LeaFound(before, rex, reg, disp, after, secs[k]);
    var s := secs[k];
    LeaScanExact(d, s.va, s.ra, s.ra, s.ra + s.rs - LEA_LENGTH, (0, 0));
  }

  lemma SevenBytes(rex: byte, reg: nat, disp: int)
    requires 0x48 <= rex <= 0x4f && reg < 8 && -0x8000_0000 <= disp < 0x8000_0000
    ensures |LeaBytes(rex, reg, disp)| == 7
  {
  }

  /** What the scan looks for is such an instruction, byte for byte, and nothing else. */
  lemma LeaAtExact(d: seq<byte>, i: nat)
    ensures LeaAt(d, i) <==>
            i + 7 <= |d| && exists rex, reg, disp :: && 0x48 <= rex <= 0x4f && reg < 8
                                                     && -0x8000_0000 <= disp < 0x8000_0000
                                                     && d[i..i + 7] == LeaBytes(rex, reg, disp)
    ensures LeaAt(d, i) ==> d[i..i + 7] == LeaBytes(d[i], d[i + 2] / 8, Int32(d, i + 3))
    ensures LeaAt(d, i) ==> d[i + 2] / 8 < 8 && -0x8000_0000 <= Int32(d, i + 3) < 0x8000_0000
  {
    hide UInt32, Bytes32;
    if LeaAt(d, i) {
      BytesOfUInt32(d, i + 3);
      ModRmOf(d[i + 2]);
      assert d[i..i + 7] == [d[i], d[i + 1], d[i + 2]] + d[i + 3..i + 7];
      assert d[i..i + 7] == LeaBytes(d[i], d[i + 2] / 8, Int32(d, i + 3));
    }
    if i + 7 <= |d| {
      forall rex, reg, disp | && 0x48 <= rex <= 0x4f && reg < 8 && -0x8000_0000 <= disp < 0x8000_0000
                              && d[i..i + 7] == LeaBytes(rex, reg, disp)
        ensures LeaAt(d, i)
      {
        var s := d[i..i + 7];
        assert s[0] == d[i] && s[1] == d[i + 1] && s[2] == d[i + 2];
        ModRmFields(reg);
      }
    }
  }

  /** With disjoint raw ranges and the text section inside the file: every entry reported is such an instruction, byte
      for byte, at the offset reported, and the target is the RVA of that offset plus the length of the
      instruction plus the displacement its bytes spell. */
  lemma EntriesAreLeas(d: seq<byte>, secs: seq<Section>, k: nat, e: (nat, int))
    requires IsText(secs, k) && RawDisjoint(secs) && secs[k].ra + secs[k].rs <= |d| && e in LeasOf(d, secs).0
    ensures FileToRva(secs, e.0).Some? && e.0 + 7 <= |d|
    ensures exists rex, reg, disp :: && 0x48 <= rex <= 0x4f && reg < 8 && -0x8000_0000 <= disp < 0x8000_0000
                                     && d[e.0..e.0 + 7] == LeaBytes(rex, reg, disp)
                                     && e.1 == FileToRva(secs, e.0).value + 7 + disp
  {
    hide LeaScan, LeasOf, UInt32, Bytes32;
    var s, i := secs[k], e.0;
    TextFound(d, secs, k);
    LeaScanExact(d, s.va, s.ra, s.ra, s.ra + s.rs - LEA_LENGTH, e);
    FileToRvaIn(secs, i, k);
    LeaAtExact(d, i);
    var rex, reg, disp := d[i], d[i + 2] / 8, Int32(d, i + 3);
    assert d[i..i + 7] == LeaBytes(rex, reg, disp);
  }

  lemma ModRmOf(m: byte)
    requires m / 64 == 0 && m % 8 == 5
    ensures m / 8 < 8 && m == 8 * (m / 8) + 5
  {
  }

  /** The scan that stops short of the end finds every LEA of the text section if and only if none fills its last
      seven bytes. */
  lemma LastInstructionMissedInFile(d: seq<byte>, secs: seq<Section>, k: nat)
    requires IsText(secs, k) && secs[k].ra + secs[k].rs <= |d|
    ensures var s, out := secs[k], LeasOf(d, secs).0;
            (forall i: nat :: s.ra <= i && i + 7 <= s.ra + s.rs && LeaAt(d, i) ==>
                (i, s.va + (i - s.ra) + 7 + Int32(d, i + 3)) in out)
            <==> !(s.rs >= 7 && LeaAt(d, s.ra + s.rs - 7))
  {
    hide LeaScan, LeasOf, LeaPrefix, Int32;
    TextFound(d, secs, k);
    LastInstructionMissed(d, secs[k]);
    var s := secs[k];
    forall i: nat | s.ra <= i && i + 7 <= s.ra + s.rs && LeaAt(d, i)
      ensures Target(d, s.va, s.ra, i) == s.va + (i - s.ra) + 7 + Int32(d, i + 3)
    {
    }
  }

  /** A scan raises exactly when it looks at an offset whose three first bytes, or whose displacement behind a
      matching prefix, are not all in the file. */
  lemma {:induction false} ScanRaises(d: seq<byte>, va: nat, ra: nat, i: nat, stop: int)
    ensures LeaScan(d, va, ra, i, stop).1 <==>
            i >= stop || (stop + 1 < |d| && forall j: nat :: i <= j < stop && LeaPrefix(d, j) ==> j + 7 <= |d|)
    decreases stop - i
  {
    hide LeaPrefix, Target;
    if i < stop {
      ScanRaises(d, va, ra, i + 1, stop);
      PrefixFits(d, i);
    }
  }

  lemma PrefixFits(d: seq<byte>, i: nat)
    ensures LeaPrefix(d, i) ==> i + 2 < |d|
  {
  }

  /** So the scan of a file ends without an exception if and only if it has a text section that is either too short to
      be looked at or is, as far as it is looked at, inside the file. */
  lemma LeasRaise(d: seq<byte>, secs: seq<Section>)
    ensures LeasOf(d, secs).1 <==>
            exists k: nat :: IsText(secs, k) && ScanStays(d, secs[k])
  {
    hide LeaScan, LeaPrefix, FindSec;
    FindSecExact(secs, ".text");
    forall k: nat | IsText(secs, k)
      ensures LeasOf(d, secs).1 <==> ScanStays(d, secs[k])
    {
      var s := secs[k];
      TextFound(d, secs, k);
      ScanRaises(d, s.va, s.ra, s.ra, s.ra + s.rs - LEA_LENGTH);
    }
    if FindSec(secs, ".text").Some? {
      var k: nat :| k < |secs| && secs[k] == FindSec(secs, ".text").value && secs[k].name == ".text"
               && forall j :: 0 <= j < k ==> secs[j].name != ".text";
      assert IsText(secs, k);
    }
  }

  predicate ScanStays(d: seq<byte>, s: Section) {
    var stop := s.ra + s.rs - 7;
    s.rs <= 7 || (stop + 1 < |d| && forall j: nat :: s.ra <= j < stop && LeaPrefix(d, j) ==> j + 7 <= |d|)
  }
}
