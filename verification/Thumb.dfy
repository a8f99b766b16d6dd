/** tools/thumbcalls.py: the Thumb-2 BL field decoder and the halfword scanner. Encoding T1 of BL is
    section A7.7.18 of the ARMv7-M Architecture Reference Manual. */
module Thumb {
  import opened Bits
  import opened Bytes

  const MIN_OFFSET := -16777216
  const MAX_OFFSET := 16777214

  type half = n: nat | n < 0x1_0000

  //////////////////////////////////////////////////////////////////////////////
  // Fields
  //////////////////////////////////////////////////////////////////////////////

  function S(hw1: half): bit { hw1 / 1024 % 2 }
  function Imm10(hw1: half): nat { hw1 % 1024 }
  function J1(hw2: half): bit { hw2 / 8192 % 2 }
  function J2(hw2: half): bit { hw2 / 2048 % 2 }
  function Imm11(hw2: half): nat { hw2 % 2048 }

  /** (hw1 & 0xF800) == 0xF000 */
  predicate IsPrefix(hw1: half) {
    hw1 / 2048 == 30
  }

  /** (hw2 & 0xD000) is 0xD000 (BL) or 0xC000 (BLX) */
  predicate IsBranch(hw2: half) {
    hw2 / 16384 == 3
  }

  /** (hw2 & 0xD000) == 0xD000 */
  predicate IsBL(hw2: half) {
    IsBranch(hw2) && hw2 / 4096 % 2 == 1
  }

  /** ~(j ^ s) & 1 */
  function Inverted(j: bit, s: bit): bit {
    if j == s then 1 else 0
  }

  function Assemble(s: bit, i1: bit, i2: bit, imm10: nat, imm11: nat): nat {
    16777216 * s + 8388608 * i1 + 4194304 * i2 + 4096 * imm10 + 2 * imm11
  }

  function Offset(hw1: half, hw2: half): int {
    var s := S(hw1);
    var u := Assemble(s, Inverted(J1(hw2), s), Inverted(J2(hw2), s), Imm10(hw1), Imm11(hw2));
    if s == 1 then u - 33554432 else u
  }

  lemma PrefixIsMask(hw1: half)
    ensures IsPrefix(hw1) <==> And(hw1, 0xF800) == 0xF000
  {
    hide And;
    Pow2Values();
    assert Shl(31, 11) == 0xF800 by { ShlIsProduct(31, 11); }
    AndHigh(hw1, 31, 11);
    ShrIsQuotient(hw1, 11);
    assert Pow2(5) == 32;
    AndMask(hw1 / 2048, 5);
    ShlIsProduct(And(hw1 / 2048, 31), 11);
  }

  lemma TopNibbleAnd13(x: nat)
    requires x < 16
    ensures And(x, 13) == 13 <==> x in {13, 15}
    ensures And(x, 13) in {12, 13} <==> x in {12, 13, 14, 15}
  {
    hide And;
    AndOdd(x, 6);
    AndEven(x / 2, 3);
    AndMask(x / 4, 2);
    assert Pow2(2) == 4;
    Quarters(x);
  }

  lemma Quarters(x: nat)
    requires x < 16
    ensures x / 2 / 2 == x / 4 && x / 4 % 4 == x / 4
    ensures x % 2 + 4 * (x / 4) == 13 <==> x in {13, 15}
    ensures x % 2 + 4 * (x / 4) in {12, 13} <==> x in {12, 13, 14, 15}
  {
  }

  lemma BranchIsMask(hw2: half)
    ensures IsBL(hw2) <==> And(hw2, 0xD000) == 0xD000
    ensures IsBranch(hw2) <==> And(hw2, 0xD000) in {0xD000, 0xC000}
  {
    hide And;
    Pow2Values();
    var x := hw2 / 4096;
    assert Shl(13, 12) == 0xD000 by { ShlIsProduct(13, 12); }
    AndHigh(hw2, 13, 12);
    ShrIsQuotient(hw2, 12);
    ShlIsProduct(And(x, 13), 12);
    TopNibbleAnd13(x);
    assert hw2 / 16384 == x / 4;
  }

  /** The fields, and the inverted bits made from them. */
  lemma FieldsAreMasks(hw1: half, hw2: half)
    ensures S(hw1) == And(Shr(hw1, 10), 1) && Imm10(hw1) == And(hw1, 0x3FF)
    ensures J1(hw2) == And(Shr(hw2, 13), 1) && J2(hw2) == And(Shr(hw2, 11), 1) && Imm11(hw2) == And(hw2, 0x7FF)
  {
    hide And, Shr;
    Pow2Values();
    ShrIsQuotient(hw1, 10);
    ShrIsQuotient(hw2, 13);
    ShrIsQuotient(hw2, 11);
    AndMask(hw1 / 1024, 1);
    AndMask(hw2 / 8192, 1);
    AndMask(hw2 / 2048, 1);
    AndMask(hw1, 10);
    AndMask(hw2, 11);
  }

  lemma InvertedIsMask(j: bit, s: bit)
    ensures Inverted(j, s) == And(Flip(Xor(j, s)), 1)
  {
    assert Xor(1, s) == (if s == 0 then 1 else 0) + 2 * Xor(0, 0);
    assert And(Flip(Xor(j, s)), 1) == Flip(Xor(j, s)) % 2 + 2 * And(Flip(Xor(j, s)) / 2, 0);
  }

  lemma AssembleIsMask(s: bit, i1: bit, i2: bit, imm10: nat, imm11: nat)
    requires imm10 < 1024 && imm11 < 2048
    ensures Assemble(s, i1, i2, imm10, imm11) ==
            Or(Or(Or(Or(Shl(s, 24), Shl(i1, 23)), Shl(i2, 22)), Shl(imm10, 12)), Shl(imm11, 1))
  {
    hide Or, Shl;
    Pow2Values();
    var a1 := s * 2 + i1;
    var a2 := a1 * 2 + i2;
    var a3 := a2 * 1024 + imm10;
    OrNext(s, i1, 23, 1);
    OrNext(a1, i2, 22, 1);
    OrNext(a2, imm10, 12, 10);
    OrNext(a3, imm11, 1, 11);
    ShlIsProduct(a3 * 2048 + imm11, 1);
  }

  /** Or-ing in a w-bit field at bit k, below a value that starts at bit k + w. */
  lemma OrNext(h: nat, l: nat, k: nat, w: nat)
    requires l < Pow2(w)
    ensures Or(Shl(h, k + w), Shl(l, k)) == Shl(h * Pow2(w) + l, k)
  {
    hide Or, Shl;
    ShlTwice(h, w, k);
    ShlIsProduct(h, w);
    OrShifted(Shl(h, w), l, k);
    OrLow(h, l, w);
  }

  lemma {:induction false} ShlTwice(a: nat, j: nat, k: nat)
    ensures Shl(Shl(a, j), k) == Shl(a, k + j)
  {
    if k > 0 {
      ShlTwice(a, j, k - 1);
    }
  }

  lemma {:induction false} OrShifted(a: nat, b: nat, k: nat)
    ensures Or(Shl(a, k), Shl(b, k)) == Shl(Or(a, b), k)
  {
    if k > 0 {
      OrShifted(a, b, k - 1);
    }
  }

  //////////////////////////////////////////////////////////////////////////////
  // A bijection
  //////////////////////////////////////////////////////////////////////////////

  predicate InRange(off: int) {
    MIN_OFFSET <= off <= MAX_OFFSET && off % 2 == 0
  }

  function Join1(s: bit, imm10: nat): half
    requires imm10 < 1024
  {
    0xF000 + 1024 * s + imm10
  }

  function Join2(j1: bit, j2: bit, imm11: nat): half
    requires imm11 < 2048
  {
    0xD000 + 8192 * j1 + 2048 * j2 + imm11
  }

  /** The halfword pair of a BL with the given offset. */
  function Encode(off: int): (half, half)
    requires InRange(off)
  {
    var u: nat := if off < 0 then off + 33554432 else off;
    var s: bit := u / 16777216;
    var i1, i2 := u / 8388608 % 2, u / 4194304 % 2;
    (Join1(s, u / 4096 % 1024), Join2(Inverted(i1, s), Inverted(i2, s), u / 2 % 2048))
  }

  lemma InvertedTwice(j: bit, s: bit)
    ensures Inverted(Inverted(j, s), s) == j
  {
  }

  lemma Halfword1(s: bit, imm10: nat, hw1: half)
    requires imm10 < 1024
    ensures IsPrefix(Join1(s, imm10)) && S(Join1(s, imm10)) == s && Imm10(Join1(s, imm10)) == imm10
    ensures IsPrefix(hw1) ==> Join1(S(hw1), Imm10(hw1)) == hw1
  {
  }

  lemma Halfword2(j1: bit, j2: bit, imm11: nat)
    requires imm11 < 2048
    ensures var hw2 := Join2(j1, j2, imm11);
            IsBL(hw2) && J1(hw2) == j1 && J2(hw2) == j2 && Imm11(hw2) == imm11
  {
    var hw2 := Join2(j1, j2, imm11);
    DivModUnique(hw2, 16384, 3, 4096 + 8192 * j1 + 2048 * j2 + imm11);
    DivModUnique(hw2, 8192, 6 + j1, 4096 + 2048 * j2 + imm11);
    DivModUnique(hw2, 4096, 13 + 2 * j1, 2048 * j2 + imm11);
    DivModUnique(hw2, 2048, 26 + 4 * j1 + j2, imm11);
  }

  lemma Halfword2Back(hw2: half)
    requires IsBL(hw2)
    ensures Join2(J1(hw2), J2(hw2), Imm11(hw2)) == hw2
  {
    var a := hw2 / 2048;
    assert hw2 == 2048 * a + Imm11(hw2);
    assert hw2 / 4096 == a / 2 && hw2 / 8192 == a / 4 && hw2 / 16384 == a / 8;
    assert a == 8 * (a / 8) + 4 * (a / 4 % 2) + 2 * (a / 2 % 2) + a % 2;
  }

  lemma AssembleFields(s: bit, i1: bit, i2: bit, imm10: nat, imm11: nat)
    requires imm10 < 1024 && imm11 < 2048
    ensures var u := Assemble(s, i1, i2, imm10, imm11);
            && u / 16777216 == s && u / 8388608 % 2 == i1 && u / 4194304 % 2 == i2
            && u / 4096 % 1024 == imm10 && u / 2 % 2048 == imm11 && u % 2 == 0
  {
    var u := Assemble(s, i1, i2, imm10, imm11);
    var t2 := 2 * s + i1;
    var t3 := 2 * t2 + i2;
    var t4 := 1024 * t3 + imm10;
    DivModUnique(u, 16777216, s, u - 16777216 * s);
    DivModUnique(u, 8388608, t2, u - 8388608 * t2);
    DivModUnique(u, 4194304, t3, u - 4194304 * t3);
    DivModUnique(u, 4096, t4, 2 * imm11);
    DivModUnique(u, 2, 2048 * t4 + imm11, 0);
    DivModUnique(t2, 2, s, i1);
    DivModUnique(t3, 2, t2, i2);
    DivModUnique(t4, 1024, t3, imm10);
    DivModUnique(2048 * t4 + imm11, 2048, t4, imm11);
  }

  lemma FieldsAssemble(u: nat)
    requires u < 33554432 && u % 2 == 0
    ensures Assemble(u / 16777216, u / 8388608 % 2, u / 4194304 % 2, u / 4096 % 1024, u / 2 % 2048) == u
  {
    var h := u / 2;
    var t4 := h / 2048;
    var t3 := t4 / 1024;
    var t2 := t3 / 2;
    assert u == 2 * h && h == 2048 * t4 + h % 2048 && t4 == 1024 * t3 + t4 % 1024;
    assert t3 == 2 * t2 + t3 % 2 && t2 == 2 * (t2 / 2) + t2 % 2;
    DivModUnique(u, 4096, t4, 2 * (h % 2048));
    DivModUnique(u, 4194304, t3, 4096 * (t4 % 1024) + 2 * (h % 2048));
    DivModUnique(u, 8388608, t2, 4194304 * (t3 % 2) + 4096 * (t4 % 1024) + 2 * (h % 2048));
    DivModUnique(u, 16777216, t2 / 2, 8388608 * (t2 % 2) + 4194304 * (t3 % 2) + 4096 * (t4 % 1024) + 2 * (h % 2048));
  }

  /** Every BL pair decodes to an even offset in range, and encoding that offset gives the pair back. */
  lemma DecodeThenEncode(hw1: half, hw2: half)
    requires IsPrefix(hw1) && IsBL(hw2)
    ensures InRange(Offset(hw1, hw2)) && Encode(Offset(hw1, hw2)) == (hw1, hw2)
  {
    hide IsPrefix, IsBL, S, J1, J2, Imm10, Imm11, Join1, Join2, Inverted;
    FieldBounds(hw1, hw2);
    var s, i1, i2 := S(hw1), Inverted(J1(hw2), S(hw1)), Inverted(J2(hw2), S(hw1));
    var u := Assemble(s, i1, i2, Imm10(hw1), Imm11(hw2));
    var off := Offset(hw1, hw2);
    AssembleFields(s, i1, i2, Imm10(hw1), Imm11(hw2));
    AssembleRange(s, i1, i2, Imm10(hw1), Imm11(hw2));
    InvertedTwice(J1(hw2), s);
    InvertedTwice(J2(hw2), s);
    Halfword1(0, 0, hw1);
    Halfword2Back(hw2);
    assert u == if off < 0 then off + 33554432 else off;
  }

  lemma FieldBounds(hw1: half, hw2: half)
    ensures Imm10(hw1) < 1024 && Imm11(hw2) < 2048
  {
  }

  lemma AssembleRange(s: bit, i1: bit, i2: bit, imm10: nat, imm11: nat)
    requires imm10 < 1024 && imm11 < 2048
    ensures var u := Assemble(s, i1, i2, imm10, imm11);
            16777216 * s <= u <= 16777216 * s + MAX_OFFSET && (if s == 1 then u - 33554432 else u) % 2 == 0
  {
    var h := 8388608 * s + 4194304 * i1 + 2097152 * i2 + 2048 * imm10 + imm11;
    assert Assemble(s, i1, i2, imm10, imm11) == 2 * h;
  }

  /** Every even offset in range encodes to a BL pair, and decoding the pair gives the offset back. */
  lemma EncodeThenDecode(off: int)
    requires InRange(off)
    ensures var (hw1, hw2) := Encode(off);
            IsPrefix(hw1) && IsBL(hw2) && Offset(hw1, hw2) == off
  {
    hide IsPrefix, IsBL, S, J1, J2, Imm10, Imm11, Join1, Join2, Inverted, Assemble;
    var u: nat := if off < 0 then off + 33554432 else off;
    assert u < 33554432 && u % 2 == 0;
    var s: bit := u / 16777216;
    var i1: bit, i2: bit := u / 8388608 % 2, u / 4194304 % 2;
    var imm10, imm11 := u / 4096 % 1024, u / 2 % 2048;
    FieldsAssemble(u);
    InvertedTwice(i1, s);
    InvertedTwice(i2, s);
    Halfword1(s, imm10, 0);
    Halfword2(Inverted(i1, s), Inverted(i2, s), imm11);
    assert s == 1 <==> off < 0;
  }

  //////////////////////////////////////////////////////////////////////////////
  // The scanner
  //////////////////////////////////////////////////////////////////////////////

  /** struct.unpack_from("<H", d, i) */
  function HalfAt(d: seq<byte>, i: nat): half
    requires i + 1 < |d|
  {
    Le16(d[i], d[i + 1])
  }

  predicate SiteAt(d: seq<byte>, i: nat) {
    i + 3 < |d| && IsPrefix(HalfAt(d, i)) && IsBranch(HalfAt(d, i + 2))
  }

  function Entry(d: seq<byte>, base: int, i: nat): (int, int)
    requires i + 3 < |d|
  {
    (base + i, base + i + 4 + Offset(HalfAt(d, i), HalfAt(d, i + 2)))
  }

  /** The entries for positions i, i + 2, i + 4, ... */
  function Scan(d: seq<byte>, base: int, i: nat): seq<(int, int)>
    decreases |d| - i
  {
    if i + 3 >= |d| then []
    else (if SiteAt(d, i) then [Entry(d, base, i)] else []) + Scan(d, base, i + 2)
  }

  /** `bl_targets` */
  method BlTargets(d: seq<byte>, base: int) returns (out: seq<(int, int)>)
    ensures out == Scan(d, base, 0)
  {
    hide IsPrefix, IsBranch, Offset, HalfAt, S, J1, J2, Imm10, Imm11, Inverted, Assemble;
    out := [];
    var i := 0;
    while i + 3 < |d|
      invariant out + Scan(d, base, i) == Scan(d, base, 0)
      decreases |d| - i
    {
      var hw1, hw2 := HalfAt(d, i), HalfAt(d, i + 2);
      ghost var rest := Scan(d, base, i + 2);
      if !IsPrefix(hw1) {
        assert Scan(d, base, i) == rest;
        i := i + 2;
        continue;
      }
      if !IsBranch(hw2) {
        assert Scan(d, base, i) == rest;
        i := i + 2;
        continue;
      }
      var s := S(hw1);
      var i1, i2 := Inverted(J1(hw2), s), Inverted(J2(hw2), s);
      var off: int := Assemble(s, i1, i2, Imm10(hw1), Imm11(hw2));
      if s == 1 {
        off := off - 33554432;
      }
      assert off == Offset(hw1, hw2) by { OffsetUnfolds(hw1, hw2); }
      var tgt := base + i + 4 + off;
      assert out + ([(base + i, tgt)] + rest) == out + [(base + i, tgt)] + rest;
      out := out + [(base + i, tgt)];
      i := i + 2;
    }
  }

  lemma OffsetUnfolds(hw1: half, hw2: half)
    ensures var s := S(hw1);
            var u := Assemble(s, Inverted(J1(hw2), s), Inverted(J2(hw2), s), Imm10(hw1), Imm11(hw2));
            Offset(hw1, hw2) == if s == 1 then u - 33554432 else u
  {
  }

  /** The scan reports exactly the even positions whose two halfwords match, each once, in address order. */
  lemma {:induction false} ScanExact(d: seq<byte>, base: int, i: nat, e: (int, int))
    requires i % 2 == 0
    ensures e in Scan(d, base, i) <==>
            exists j: nat :: i <= j && j % 2 == 0 && SiteAt(d, j) && e == Entry(d, base, j)
    decreases |d| - i
  {
    hide IsPrefix, IsBranch, Offset, HalfAt;
    if i + 3 < |d| {
      ScanExact(d, base, i + 2, e);
      if j: nat :| i <= j && j % 2 == 0 && SiteAt(d, j) && e == Entry(d, base, j) {
        assert j == i || i + 2 <= j;
      }
    }
  }

  lemma {:induction false} ScanAscends(d: seq<byte>, base: int, i: nat)
    ensures forall k :: 0 <= k < |Scan(d, base, i)| ==> Scan(d, base, i)[k].0 >= base + i
    ensures forall j, k :: 0 <= j < k < |Scan(d, base, i)| ==> Scan(d, base, i)[j].0 < Scan(d, base, i)[k].0
    decreases |d| - i
  {
    hide SiteAt, HalfAt, Offset;
    if i + 3 < |d| {
      ScanAscends(d, base, i + 2);
    }
  }

  /** The bytes of a BL, little-endian. */
  function BlBytes(off: int): seq<byte>
    requires InRange(off)
  {
    var (hw1, hw2) := Encode(off);
    [LowByte(hw1), HighByte(hw1), LowByte(hw2), HighByte(hw2)]
  }

  lemma HalfBytes(hw: half)
    ensures Le16(LowByte(hw), HighByte(hw)) == hw
  {
    SplitThenJoin(hw);
  }

  /** A BL with any offset in range, placed at any even position of an image, is reported with the
      target it reaches. */
  lemma CallsFound(before: seq<byte>, off: int, after: seq<byte>, base: int)
    requires |before| % 2 == 0 && InRange(off)
    ensures var src := base + |before|;
            (src, src + 4 + off) in Scan(before + BlBytes(off) + after, base, 0)
  {
    hide Encode, Offset, IsPrefix, IsBL, IsBranch, LowByte, HighByte, Le16;
    var j := |before|;
    var d := before + BlBytes(off) + after;
    var (hw1, hw2) := Encode(off);
    EncodeThenDecode(off);
    HalfBytes(hw1);
    HalfBytes(hw2);
    BlIsBranch(hw2);
    assert HalfAt(d, j) == hw1 && HalfAt(d, j + 2) == hw2;
    assert SiteAt(d, j);
    ScanExact(d, base, 0, (base + j, base + j + 4 + off));
  }

  lemma BlIsBranch(hw2: half)
    requires IsBL(hw2)
    ensures IsBranch(hw2)
  {
  }

  /** Every entry reported for a BL is such a call, byte for byte. */
  lemma EntriesAreCalls(d: seq<byte>, base: int, e: (int, int))
    requires e in Scan(d, base, 0)
    ensures exists j: nat :: j % 2 == 0 && j + 3 < |d| && e.0 == base + j && IsBranch(HalfAt(d, j + 2)) &&
              (IsBL(HalfAt(d, j + 2)) ==> InRange(e.1 - e.0 - 4) && d[j..j + 4] == BlBytes(e.1 - e.0 - 4))
  {
    hide Encode, Offset, IsPrefix, IsBL, IsBranch, LowByte, HighByte, Le16;
    ScanExact(d, base, 0, e);
    var j: nat :| j % 2 == 0 && SiteAt(d, j) && e == Entry(d, base, j);
    if IsBL(HalfAt(d, j + 2)) {
      DecodeThenEncode(HalfAt(d, j), HalfAt(d, j + 2));
      JoinThenSplit(d[j], d[j + 1]);
      JoinThenSplit(d[j + 2], d[j + 3]);
      FourBytes(d, j);
    }
  }

  lemma FourBytes(d: seq<byte>, j: nat)
    requires j + 4 <= |d|
    ensures d[j..j + 4] == [d[j], d[j + 1], d[j + 2], d[j + 3]]
  {
  }
}
