/** The source writes the codec's fields with shifts and masks; the model writes them with `/`, `%`
    and `+`. These lemmas prove, field by field, that the two spellings agree. */
module Masks {
  import opened Bits
  import opened Bytes
  import opened Codec

  lemma ByteFieldsAreMasks(n: nat, lo: byte, hi: byte)
    ensures LowByte(n) == And(n, 0xFF)
    ensures HighByte(n) == And(Shr(n, 8), 0xFF)
    ensures Le16(lo, hi) == Or(lo, Shl(hi, 8))
  {
    hide And, Or;
    Pow2Values();
    AndMask(n, 8);
    ShrIsQuotient(n, 8);
    AndMask(n / 256, 8);
    ShlIsProduct(hi, 8);
    OrLow(hi, lo, 8);
    OrCommutes(lo, Shl(hi, 8));
  }

  lemma TypeByteIsMask(ptype: int, flags: int)
    ensures TypeByte(ptype, flags) == Or(And(Shl(ptype, 4), 0xF0), And(flags, 0x0F))
  {
    hide And, Or;
    Pow2Values();
    var t, f := ptype % 16, flags % 16;
    assert And(flags, 0x0F) == f by { AndMask(flags, 4); }
    assert And(Shl(ptype, 4), 0xF0) == Shl(t, 4) by {
      assert Shl(15, 4) == 0xF0 by { ShlIsProduct(15, 4); }
      AndHigh(Shl(ptype, 4), 15, 4);
      ShlShr(ptype, 4);
      AndMask(ptype, 4);
    }
    OrLow(t, f, 4);
    ShlIsProduct(t, 4);
  }

  lemma CmdByteIsMask(cmd0: int, cmd1: int)
    ensures CmdByte(cmd0, cmd1) == And(Or(Shl(cmd0, 4), Shl(cmd1, 1)), 0xFF)
  {
    hide And, Or;
    Pow2Values();
    var q, r := cmd1 / 8, cmd1 % 8;
    var x := Or(cmd0, q);
    assert Shl(cmd1, 1) == Shl(q, 4) + 2 * r by {
      ShlIsProduct(cmd1, 1);
      ShlIsProduct(q, 4);
    }
    OrAbove(cmd0, q, 2 * r, 4);
    ShlIsProduct(x, 4);
    AndMask(16 * x + 2 * r, 8);
    assert (16 * x + 2 * r) % 256 == 16 * (x % 16) + 2 * r by {
      DivModUnique(16 * x + 2 * r, 256, x / 16, 16 * (x % 16) + 2 * r);
    }
    NibbleOr(cmd0, q);
  }

  lemma NibblesAreMasks(b: byte)
    ensures HighNibble(b) == Cmd0(b) == Shr(b, 4)
    ensures LowNibble(b) == And(b, 0x0F)
    ensures Cmd1(b) == And(Shr(b, 1), 7)
  {
    hide And;
    Pow2Values();
    ShrIsQuotient(b, 4);
    ShrIsQuotient(b, 1);
    AndMask(b, 4);
    AndMask(b / 2, 3);
  }
}
