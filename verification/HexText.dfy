/** The text formats of the debugfs files of kernel/gxfp.c, on byte strings: `strim`, `strsep` and
    `kstrtouint` as the kernel documents them, and the hex printer of `gxfp_raw_read`. */
module HexText {
  import opened Bytes

  //////////////////////////////////////////////////////////////////////////////
  // C strings
  //////////////////////////////////////////////////////////////////////////////

  /** The kernel's isspace: tab to carriage return, blank, and the no-break space. */
  predicate IsSpace(c: byte) {
    9 <= c <= 13 || c == 32 || c == 160
  }

  /** The delimiters the driver hands to `strsep`. */
  predicate IsDelim(c: byte) {
    c == 32 || c == 9
  }

  /** `memdup_user_nul` copies every byte, but a string ends at its first NUL. */
  function CString(s: seq<byte>): seq<byte> {
    if s == [] || s[0] == 0 then [] else [s[0]] + CString(s[1..])
  }

  function TrimRight(s: seq<byte>): seq<byte> {
    if s != [] && IsSpace(s[|s| - 1]) then TrimRight(s[..|s| - 1]) else s
  }

  function TrimLeft(s: seq<byte>): seq<byte> {
    if s != [] && IsSpace(s[0]) then TrimLeft(s[1..]) else s
  }

  function Strim(s: seq<byte>): seq<byte> {
    TrimLeft(TrimRight(s))
  }

  /** Index of the first delimiter, or the length. */
  function FirstDelim(s: seq<byte>): (k: nat)
    ensures k <= |s|
    ensures k < |s| ==> IsDelim(s[k])
  {
    if s == [] || IsDelim(s[0]) then 0 else 1 + FirstDelim(s[1..])
  }

  /** One `strsep`: the token, and the string that is left (None once it is NULL). */
  function Strsep(s: seq<byte>): (r: (seq<byte>, Option<seq<byte>>))
    ensures r.1.Some? ==> |r.0| + 1 + |r.1.value| == |s|
    ensures r.1.None? ==> r.0 == s
  {
    var k := FirstDelim(s);
    if k == |s| then (s, None) else (s[..k], Some(s[k + 1..]))
  }

  /** All the fields `strsep` delivers until nothing is left, empty ones included. */
  function Fields(p: Option<seq<byte>>): seq<seq<byte>>
    decreases if p.None? then 0 else 1 + |p.value|
  {
    if p.None? then []
    else
      var (tok, rest) := Strsep(p.value);
      [tok] + Fields(rest)
  }

  function NonEmpty(fs: seq<seq<byte>>): seq<seq<byte>> {
    if fs == [] then []
    else (if fs[0] == [] then [] else [fs[0]]) + NonEmpty(fs[1..])
  }

  /** The tokens a parse loop consumes. */
  function Tokens(p: Option<seq<byte>>): seq<seq<byte>> {
    NonEmpty(Fields(p))
  }

  lemma TokensStep(s: seq<byte>)
    ensures var (tok, rest) := Strsep(s);
            Tokens(Some(s)) == (if tok == [] then [] else [tok]) + Tokens(rest)
  {
    var (tok, rest) := Strsep(s);
    assert ([tok] + Fields(rest))[1..] == Fields(rest);
  }

  /** A string of L bytes holds at most (L + 1) / 2 non-empty tokens. */
  lemma {:induction false} TokenCount(p: Option<seq<byte>>)
    ensures p.Some? ==> 2 * |Tokens(p)| <= |p.value| + 1
    ensures p.None? ==> Tokens(p) == []
    decreases if p.None? then 0 else 1 + |p.value|
  {
    if p.Some? {
      TokensStep(p.value);
      TokenCount(Strsep(p.value).1);
    }
  }

  //////////////////////////////////////////////////////////////////////////////
  // Numbers
  //////////////////////////////////////////////////////////////////////////////

  function HexValue(c: byte): Option<nat> {
    if 48 <= c <= 57 then Some(c - 48)
    else if 97 <= c <= 102 then Some(c - 87)
    else if 65 <= c <= 70 then Some(c - 55)
    else None
  }

  /** Length of the run of hex digits s starts with. */
  function DigitRun(s: seq<byte>): (k: nat)
    ensures k <= |s|
  {
    if s == [] || HexValue(s[0]).None? then 0 else 1 + DigitRun(s[1..])
  }

  function Accumulate(s: seq<byte>, acc: nat): nat {
    if s == [] || HexValue(s[0]).None? then acc
    else Accumulate(s[1..], 16 * acc + HexValue(s[0]).value)
  }

  /** `kstrtouint(s, 16, &v)`: an optional plus sign, an optional 0x, at least one digit, an optional
      final newline, nothing else, and a value below 2^32. */
  function Kstrtouint(s: seq<byte>): Option<nat> {
    var s1 := if |s| >= 1 && s[0] == 43 then s[1..] else s;
    var s2 := if |s1| >= 2 && s1[0] == 48 && s1[1] in {120, 88} then s1[2..] else s1;
    var k := DigitRun(s2);
    var v := Accumulate(s2, 0);
    if k == 0 || v >= 0x1_0000_0000 then None
    else if s2[k..] == [] || s2[k..] == [10] then Some(v)
    else None
  }

  /** The bytes a list of tokens denotes, or None if some token is no number. */
  function ParseTokens(ts: seq<seq<byte>>): Option<seq<byte>> {
    if ts == [] then Some([])
    else
      var v, rest := Kstrtouint(ts[0]), ParseTokens(ts[1..]);
      if v.None? || rest.None? then None else Some([LowByte(v.value)] + rest.value)
  }

  lemma {:induction false} ParseTokensSnoc(ts: seq<seq<byte>>, t: seq<byte>)
    ensures ParseTokens(ts + [t]) ==
            if ParseTokens(ts).None? || Kstrtouint(t).None? then None
            else Some(ParseTokens(ts).value + [LowByte(Kstrtouint(t).value)])
  {
    hide Kstrtouint, LowByte;
    if ts == [] {
      assert ts + [t] == [t] && [t][1..] == [];
      assert ParseTokens([]) == Some([]);
      if Kstrtouint(t).Some? {
        var last := [LowByte(Kstrtouint(t).value)];
        assert last + [] == [] + last;
      }
    } else {
      ParseTokensSnoc(ts[1..], t);
      assert (ts + [t])[1..] == ts[1..] + [t] && (ts + [t])[0] == ts[0];
      var v, rest := Kstrtouint(ts[0]), ParseTokens(ts[1..]);
      if v.Some? && rest.Some? && Kstrtouint(t).Some? {
        var last := [LowByte(Kstrtouint(t).value)];
        assert [LowByte(v.value)] + (rest.value + last) == [LowByte(v.value)] + rest.value + last;
      }
    }
  }

  lemma {:induction false} ParseTokensLength(ts: seq<seq<byte>>)
    ensures ParseTokens(ts).Some? ==> |ParseTokens(ts).value| == |ts|
  {
    if ts != [] {
      ParseTokensLength(ts[1..]);
    }
  }

  /** What the `raw` file makes of its input text. */
  function ParseHex(text: seq<byte>): Option<seq<byte>> {
    ParseTokens(Tokens(Some(Strim(CString(text)))))
  }

  //////////////////////////////////////////////////////////////////////////////
  // Printing
  //////////////////////////////////////////////////////////////////////////////

  function HexDigit(v: nat): byte
    requires v < 16
  {
    if v < 10 then 48 + v else 87 + v
  }

  /** "%02x" */
  function Hex2(b: byte): (s: seq<byte>)
    ensures |s| == 2
  {
    [HexDigit(b / 16), HexDigit(b % 16)]
  }

  function HexDump(s: seq<byte>): (t: seq<byte>)
    ensures |t| == 3 * |s|
  {
    if s == [] then [] else Hex2(s[0]) + [32] + HexDump(s[1..])
  }

  /** The whole text a read of `raw` serves. */
  function RawText(s: seq<byte>): (t: seq<byte>)
    ensures |t| == 3 * |s| + 1
  {
    HexDump(s) + [10]
  }

  lemma EmptyDump()
    ensures HexDump([]) == []
  {
  }

  lemma {:induction false} HexDumpSnoc(s: seq<byte>, b: byte)
    ensures HexDump(s + [b]) == HexDump(s) + Hex2(b) + [32]
  {
    if s == [] {
      assert [b][1..] == [];
    } else {
      HexDumpSnoc(s[1..], b);
      assert (s + [b])[1..] == s[1..] + [b];
    }
  }

  //////////////////////////////////////////////////////////////////////////////
  // The printed text parses back to the bytes
  //////////////////////////////////////////////////////////////////////////////

  /** The dump without its final blank. */
  function Core(s: seq<byte>): seq<byte>
    requires s != []
  {
    if |s| == 1 then Hex2(s[0]) else Hex2(s[0]) + [32] + Core(s[1..])
  }

  predicate IsDigitChar(c: byte) {
    48 <= c <= 57 || 97 <= c <= 102
  }

  lemma Hex2Digits(b: byte)
    ensures IsDigitChar(Hex2(b)[0]) && IsDigitChar(Hex2(b)[1])
    ensures Kstrtouint(Hex2(b)) == Some(b as nat)
  {
    var t := Hex2(b);
    var hi, lo := b / 16, b % 16;
    assert HexValue(t[0]) == Some(hi) && HexValue(t[1]) == Some(lo);
    assert t[1..] == [t[1]] && t[1..][1..] == [];
    assert DigitRun(t[1..]) == 1 && DigitRun(t) == 2;
    assert Accumulate(t, 0) == Accumulate(t[1..], hi) == Accumulate(t[1..][1..], 16 * hi + lo);
    assert t[2..] == [];
  }

  lemma {:induction false} CoreShape(s: seq<byte>)
    requires s != []
    ensures |Core(s)| == 3 * |s| - 1
    ensures HexDump(s) == Core(s) + [32]
    ensures IsDigitChar(Core(s)[0]) && IsDigitChar(Core(s)[|Core(s)| - 1])
    ensures forall i :: 0 <= i < |Core(s)| ==> Core(s)[i] != 0
  {
    hide Hex2;
    Hex2Digits(s[0]);
    var x := Hex2(s[0]) + [32];
    if |s| > 1 {
      CoreShape(s[1..]);
      assert Core(s) == x + Core(s[1..]);
      assert x + Core(s[1..]) + [32] == x + (Core(s[1..]) + [32]);
    } else {
      assert HexDump(s[1..]) == [];
    }
  }

  lemma {:induction false} CStringWhole(s: seq<byte>)
    requires forall i :: 0 <= i < |s| ==> s[i] != 0
    ensures CString(s) == s
  {
    if s != [] {
      CStringWhole(s[1..]);
    }
  }

  lemma TrimmedText(s: seq<byte>)
    requires s != []
    ensures Strim(CString(RawText(s))) == Core(s)
  {
    hide Core, HexDump, CString;
    CoreShape(s);
    var t := RawText(s);
    CStringWhole(t);
    var u := Core(s) + [32];
    assert t[..|t| - 1] == u && u[..|u| - 1] == Core(s);
    assert TrimRight(Core(s)) == Core(s);
    assert TrimRight(u) == Core(s);
    assert TrimRight(t) == TrimRight(u);
  }

  lemma FirstDelimAfterHex(b: byte, rest: seq<byte>)
    ensures FirstDelim(Hex2(b)) == 2
    ensures FirstDelim(Hex2(b) + [32] + rest) == 2
  {
    hide Hex2;
    Hex2Digits(b);
    var t := Hex2(b);
    assert t[1..] == [t[1]] && t[1..][1..] == [];
    var w := t + [32] + rest;
    assert w[0] == t[0] && w[1..][0] == t[1] && w[1..][1..][0] == 32;
    assert FirstDelim(w[1..][1..]) == 0;
    assert FirstDelim(w[1..]) == 1;
  }

  lemma {:induction false} CoreTokens(s: seq<byte>)
    requires s != []
    ensures ParseTokens(Tokens(Some(Core(s)))) == Some(s)
  {
    hide Hex2, Kstrtouint, FirstDelim, Tokens, LowByte;
    var w := Core(s);
    Hex2Digits(s[0]);
    FirstDelimAfterHex(s[0], []);
    TokensStep(w);
    assert LowByte(s[0]) == s[0] by { LowByteOfByte(s[0]); }
    TokenCount(None);
    if |s| == 1 {
      assert Tokens(Some(w)) == [Hex2(s[0])] + [];
      ParseTokensSnoc([], Hex2(s[0]));
      assert [] + [Hex2(s[0])] == [Hex2(s[0])] + [];
      assert s == [] + [s[0]];
      assert ParseTokens([]) == Some([]);
    } else {
      FirstDelimAfterHex(s[0], Core(s[1..]));
      assert w[..2] == Hex2(s[0]) && w[3..] == Core(s[1..]);
      CoreTokens(s[1..]);
      var ts, rest := Tokens(Some(w)), Tokens(Some(Core(s[1..])));
      assert ts == [Hex2(s[0])] + rest && ts[1..] == rest;
      assert [s[0]] + s[1..] == s;
    }
  }

  /** Parsing the text a read serves gives back the buffer; an empty buffer prints a bare newline,
      which denotes no bytes at all. */
  lemma PrintThenParse(s: seq<byte>)
    ensures ParseHex(RawText(s)) == Some(s)
  {
    if s == [] {
      var t := RawText([]);
      assert t == [10] && t[1..] == [];
      assert CString(t) == [10] + CString([]);
      assert [10 as byte][..0] == [];
      assert Strim([10]) == [] by {
        assert TrimRight([10]) == TrimRight([]) == [];
      }
      TokensStep([]);
      TokenCount(None);
      assert Tokens(Some([])) == [];
    } else {
      hide Strim, CString, Tokens, ParseTokens, Core, RawText;
      TrimmedText(s);
      CoreTokens(s);
    }
  }

  //////////////////////////////////////////////////////////////////////////////
  // Parts of two texts compared
  //////////////////////////////////////////////////////////////////////////////

  lemma RawTextInjective(a: seq<byte>, b: seq<byte>)
    ensures RawText(a) == RawText(b) <==> a == b
  {
    hide ParseHex, RawText;
    PrintThenParse(a);
    PrintThenParse(b);
  }

  /** The text of a begins with k characters the text of b begins with: whole bytes, and up to two characters
      of the next. */
  predicate SamePrefix(a: seq<byte>, b: seq<byte>, k: nat)
    requires k <= 3 * |a| + 1
  {
    var n, j := k / 3, k % 3;
    if n == |a| then if j == 0 then a <= b else a == b
    else
      && a[..n] <= b
      && (j == 0 || (n < |b| && if j == 1 then a[n] / 16 == b[n] / 16 else a[n] == b[n]))
  }

  /** From character k on the two texts are the same. */
  predicate SameSuffix(a: seq<byte>, b: seq<byte>, k: nat)
    requires k <= 3 * |a| + 1
  {
    var n, j := k / 3, k % 3;
    |a| == |b| &&
    (n == |a| ||
     if j == 0 then a[n..] == b[n..] else a[n + 1..] == b[n + 1..] && (j == 1 ==> a[n] % 16 == b[n] % 16))
  }

  lemma RawTextStep(s: seq<byte>)
    requires s != []
    ensures RawText(s) == Hex2(s[0]) + [32] + RawText(s[1..])
    ensures RawText(s)[3..] == RawText(s[1..])
  {
    hide Hex2;
  }

  lemma DigitsInjective(a: byte, b: byte)
    ensures Hex2(a)[0] == Hex2(b)[0] <==> a / 16 == b / 16
    ensures Hex2(a)[1] == Hex2(b)[1] <==> a % 16 == b % 16
    ensures a == b <==> a / 16 == b / 16 && a % 16 == b % 16
    ensures Hex2(a)[0] != 10
  {
  }

  lemma Thirds(k: nat)
    requires k >= 3
    ensures (k - 3) / 3 == k / 3 - 1 && (k - 3) % 3 == k % 3
  {
  }

  lemma {:induction false} PrefixExact(a: seq<byte>, b: seq<byte>, k: nat)
    requires k <= 3 * |a| + 1
    ensures RawText(a)[..k] <= RawText(b) <==> SamePrefix(a, b, k)
  {
    hide Hex2, HexDump, SamePrefix, RawText;
    if a != [] && b != [] {
      RawTextStep(a);
      RawTextStep(b);
      DigitsInjective(a[0], b[0]);
      if k >= 3 {
        PrefixExact(a[1..], b[1..], k - 3);
        PrefixStep(a, b, k);
        var x, y := Hex2(a[0]) + [32], Hex2(b[0]) + [32];
        assert RawText(a)[..k] == x + RawText(a[1..])[..k - 3];
        PrefixAfter(x, y, RawText(a[1..])[..k - 3], RawText(b[1..]));
        assert x[0] == Hex2(a[0])[0] && x[1] == Hex2(a[0])[1] && y[0] == Hex2(b[0])[0] && y[1] == Hex2(b[0])[1];
        assert x == y <==> a[0] == b[0];
      } else {
        ShortPrefix(a, b, k);
      }
    } else {
      PrefixOfEmpty(a, b, k);
    }
  }

  lemma PrefixOfEmpty(a: seq<byte>, b: seq<byte>, k: nat)
    requires (a == [] || b == []) && k <= 3 * |a| + 1
    ensures RawText(a)[..k] <= RawText(b) <==> SamePrefix(a, b, k)
  {
    hide Hex2, HexDump;
    EmptyDump();
    if a != [] {
      RawTextStep(a);
      DigitsInjective(a[0], a[0]);
      assert RawText(a)[0] == Hex2(a[0])[0] && RawText(b) == [10];
      if k > 0 {
        assert RawText(a)[..k][0] != 10;
        assert k / 3 > 0 ==> |a[..k / 3]| > 0;
      }
    } else if b != [] {
      RawTextStep(b);
      DigitsInjective(b[0], b[0]);
      assert RawText(b)[0] == Hex2(b[0])[0];
      if k == 1 {
        assert RawText(a)[..k][0] == 10;
      }
    }
  }

  lemma PrefixAfter(x: seq<byte>, y: seq<byte>, u: seq<byte>, v: seq<byte>)
    requires |x| == |y|
    ensures x + u <= y + v <==> x == y && u <= v
  {
    var s, t := x + u, y + v;
    assert s[..|x|] == x && t[..|x|] == y && s[|x|..] == u && t[|x|..] == v;
    if s <= t {
      assert x == s[..|x|] == t[..|x|] == y;
      assert u == s[|x|..] == t[|x|..|s|];
    }
  }

  lemma ShortPrefix(a: seq<byte>, b: seq<byte>, k: nat)
    requires a != [] && b != [] && k < 3
    ensures RawText(a)[..k] <= RawText(b) <==> SamePrefix(a, b, k)
  {
    hide Hex2, RawText;
    RawTextStep(a);
    RawTextStep(b);
    DigitsInjective(a[0], b[0]);
    var ta, tb := RawText(a), RawText(b);
    assert k / 3 == 0 && k % 3 == k && a[..0] == [];
    assert ta[0] == Hex2(a[0])[0] && tb[0] == Hex2(b[0])[0] && ta[1] == Hex2(a[0])[1] && tb[1] == Hex2(b[0])[1];
    assert ta[..k] <= tb <==> forall i :: 0 <= i < k ==> ta[i] == tb[i];
  }

  lemma PrefixStep(a: seq<byte>, b: seq<byte>, k: nat)
    requires a != [] && b != [] && 3 <= k <= 3 * |a| + 1
    ensures SamePrefix(a, b, k) <==> a[0] == b[0] && SamePrefix(a[1..], b[1..], k - 3)
  {
    Thirds(k);
    var n := k / 3;
    assert a == [a[0]] + a[1..] && b == [b[0]] + b[1..];
    assert a[..n] == [a[0]] + a[1..][..n - 1];
  }

  lemma {:induction false} SuffixExact(a: seq<byte>, b: seq<byte>, k: nat)
    requires k <= 3 * |a| + 1 && k <= 3 * |b| + 1
    ensures RawText(a)[k..] == RawText(b)[k..] <==> SameSuffix(a, b, k)
  {
    hide Hex2, HexDump, RawText;
    if |a| == |b| && a != [] {
      RawTextStep(a);
      RawTextStep(b);
      if k >= 3 {
        SuffixExact(a[1..], b[1..], k - 3);
        SuffixStep(a, b, k);
        assert RawText(a)[k..] == RawText(a[1..])[k - 3..] && RawText(b)[k..] == RawText(b[1..])[k - 3..];
      } else {
        DigitsInjective(a[0], b[0]);
        RawTextInjective(a, b);
        RawTextInjective(a[1..], b[1..]);
        ShortCut(a, b, k);
      }
    }
  }

  lemma ShortCut(a: seq<byte>, b: seq<byte>, k: nat)
    requires a != [] && b != [] && k < 3
    ensures RawText(a)[k..] == RawText(b)[k..] <==>
            && (k == 0 ==> Hex2(a[0])[0] == Hex2(b[0])[0])
            && (k <= 1 ==> Hex2(a[0])[1] == Hex2(b[0])[1])
            && RawText(a[1..]) == RawText(b[1..])
  {
    hide Hex2, RawText;
    RawTextStep(a);
    RawTextStep(b);
    var ta, tb := RawText(a)[k..], RawText(b)[k..];
    assert ta == ta[..3 - k] + RawText(a[1..]) && tb == tb[..3 - k] + RawText(b[1..]);
    assert ta[3 - k..] == RawText(a[1..]) && tb[3 - k..] == RawText(b[1..]);
    var x, y := (Hex2(a[0]) + [32])[k..], (Hex2(b[0]) + [32])[k..];
    assert ta[..3 - k] == x && tb[..3 - k] == y;
    assert forall i :: 0 <= i < 3 - k ==> x[i] == (Hex2(a[0]) + [32])[k + i] && y[i] == (Hex2(b[0]) + [32])[k + i];
    if k == 0 {
      assert x[0] == Hex2(a[0])[0] && y[0] == Hex2(b[0])[0] && x[1] == Hex2(a[0])[1] && y[1] == Hex2(b[0])[1];
    } else if k == 1 {
      assert x[0] == Hex2(a[0])[1] && y[0] == Hex2(b[0])[1];
    }
  }

  lemma SuffixStep(a: seq<byte>, b: seq<byte>, k: nat)
    requires |a| == |b| > 0 && 3 <= k <= 3 * |a| + 1
    ensures SameSuffix(a, b, k) <==> SameSuffix(a[1..], b[1..], k - 3)
  {
    Thirds(k);
    var n := k / 3;
    assert a[1..][n - 1..] == a[n..] && b[1..][n - 1..] == b[n..];
    if n < |a| {
      assert a[1..][n..] == a[n + 1..] && b[1..][n..] == b[n + 1..];
    }
  }

  lemma {:induction false} HexDumpAppend(a: seq<byte>, b: seq<byte>)
    ensures HexDump(a + b) == HexDump(a) + HexDump(b)
  {
    hide Hex2;
    if a == [] {
      assert a + b == b;
    } else {
      HexDumpAppend(a[1..], b);
      assert (a + b)[0] == a[0] && (a + b)[1..] == a[1..] + b;
      var x, y, z := Hex2(a[0]) + [32], HexDump(a[1..]), HexDump(b);
      assert x + (y + z) == x + y + z;
    }
  }
}
