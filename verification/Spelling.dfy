/** What text the debugfs files of kernel/gxfp.c accept, spelling by spelling: upper and lower case, signs,
    prefixes, leading zeros, blanks, tabs and line ends. */
module Spelling {
  import Bits
  import opened Bytes
  import opened Codec
  import opened Wire
  import opened HexText
  import opened Driver

  const LOWER_DIGITS: string := "0123456789abcdef"
  const UPPER_DIGITS: string := "0123456789ABCDEF"

  //////////////////////////////////////////////////////////////////////////////
  // Characters
  //////////////////////////////////////////////////////////////////////////////

  /** The digits, read and printed, are those of the two tables. */
  lemma DigitTables(c: byte, v: nat)
    ensures HexValue(c) == Some(v) <==> v < 16 && (c == LOWER_DIGITS[v] as int || c == UPPER_DIGITS[v] as int)
    ensures v < 16 ==> HexDigit(v) == LOWER_DIGITS[v] as int
  {
  }

  /** White space and delimiters: tab, line feed, vertical tab, form feed, carriage return, blank and the no-break
      space of Latin-1; of these, blank and tab separate tokens. */
  lemma SpaceTable(c: byte)
    ensures IsSpace(c) <==> c in {'\t' as int, '\n' as int, 0x0B, 0x0C, '\r' as int, ' ' as int, 0xA0}
    ensures IsDelim(c) <==> c in {' ' as int, '\t' as int}
  {
  }

  /** Every character of the text a read serves. */
  lemma {:induction false} RawTextAt(s: seq<byte>, i: nat)
    requires i <= |s|
    ensures |RawText(s)| == 3 * |s| + 1
    ensures i < |s| ==>
              && RawText(s)[3 * i] == LOWER_DIGITS[s[i] / 16] as int
              && RawText(s)[3 * i + 1] == LOWER_DIGITS[s[i] % 16] as int
              && RawText(s)[3 * i + 2] == ' ' as int
    ensures RawText(s)[3 * |s|] == '\n' as int
  {
    hide HexDigit;
    if i < |s| {
      DigitTables(0, s[i] / 16);
      DigitTables(0, s[i] % 16);
      RawTextStep(s);
      if i > 0 {
        RawTextAt(s[1..], i - 1);
        assert RawText(s)[3..][3 * (i - 1)] == RawText(s)[3 * i];
        assert RawText(s)[3..][3 * (i - 1) + 1] == RawText(s)[3 * i + 1];
        assert RawText(s)[3..][3 * (i - 1) + 2] == RawText(s)[3 * i + 2];
      }
    }
  }

  //////////////////////////////////////////////////////////////////////////////
  // Upper case
  //////////////////////////////////////////////////////////////////////////////

  function Up(c: byte): byte {
    if 97 <= c <= 122 then c - 32 else c
  }

  lemma UpTable(c: byte)
    ensures Up(c) == if 'a' as int <= c <= 'z' as int then c - 'a' as int + 'A' as int else c
    ensures forall v :: 0 <= v < 16 ==> Up(LOWER_DIGITS[v] as int) == UPPER_DIGITS[v] as int
  {
  }

  function Upper(s: seq<byte>): (r: seq<byte>)
    ensures |r| == |s| && forall i :: 0 <= i < |s| ==> r[i] == Up(s[i])
  {
    seq(|s|, i requires 0 <= i < |s| => Up(s[i]))
  }

  function UpperAll(ts: seq<seq<byte>>): (r: seq<seq<byte>>)
    ensures |r| == |ts| && forall i :: 0 <= i < |ts| ==> r[i] == Upper(ts[i])
  {
    seq(|ts|, i requires 0 <= i < |ts| => Upper(ts[i]))
  }

  function UpperRest(p: Option<seq<byte>>): Option<seq<byte>> {
    if p.None? then None else Some(Upper(p.value))
  }

  lemma UpperCut(s: seq<byte>, i: nat, j: nat)
    requires i <= j <= |s|
    ensures Upper(s)[i..j] == Upper(s[i..j]) && Upper(s)[i..] == Upper(s[i..])
  {
  }

  lemma UpChar(c: byte)
    ensures HexValue(Up(c)) == HexValue(c)
    ensures IsSpace(Up(c)) == IsSpace(c) && IsDelim(Up(c)) == IsDelim(c)
    ensures Up(c) in {120, 88} <==> c in {120, 88}
    ensures c in {0, 10, 43, 48} || Up(c) in {0, 10, 43, 48} ==> Up(c) == c
  {
  }

  lemma {:induction false} UpperNumber(s: seq<byte>, acc: nat)
    ensures DigitRun(Upper(s)) == DigitRun(s) && Accumulate(Upper(s), acc) == Accumulate(s, acc)
  {
    hide HexValue, Up;
    if s != [] {
      UpChar(s[0]);
      UpperCut(s, 1, |s|);
      if HexValue(s[0]).Some? {
        UpperNumber(s[1..], 16 * acc + HexValue(s[0]).value);
      }
    }
  }

  /** A token means the same in upper case. */
  lemma UpperToken(t: seq<byte>)
    ensures Kstrtouint(Upper(t)) == Kstrtouint(t)
  {
    hide DigitRun, Accumulate, Up;
    var s1 := if |t| >= 1 && t[0] == 43 then t[1..] else t;
    var s2 := if |s1| >= 2 && s1[0] == 48 && s1[1] in {120, 88} then s1[2..] else s1;
    forall c
      ensures Up(c) in {120, 88} <==> c in {120, 88}
      ensures c in {0, 10, 43, 48} || Up(c) in {0, 10, 43, 48} ==> Up(c) == c
    {
      UpChar(c);
    }
    if |t| >= 1 {
      UpperCut(t, 1, |t|);
    }
    if |s1| >= 2 {
      UpperCut(s1, 2, |s1|);
    }
    UpperNumber(s2, 0);
    var k := DigitRun(s2);
    UpperCut(s2, k, |s2|);
    UpperEnd(s2[k..]);
  }

  lemma UpperEnd(s: seq<byte>)
    ensures Upper(s) == [10] <==> s == [10]
  {
    if |s| == 1 {
      UpChar(s[0]);
    }
  }

  lemma {:induction false} UpperDelim(s: seq<byte>)
    ensures FirstDelim(Upper(s)) == FirstDelim(s)
  {
    hide Up;
    if s != [] {
      UpChar(s[0]);
      UpperCut(s, 1, |s|);
      UpperDelim(s[1..]);
    }
  }

  lemma UpperStrsep(s: seq<byte>)
    ensures Strsep(Upper(s)) == (Upper(Strsep(s).0), UpperRest(Strsep(s).1))
  {
    hide FirstDelim, Upper;
    UpperDelim(s);
    var k := FirstDelim(s);
    if k < |s| {
      UpperCut(s, 0, k);
      UpperCut(s, k + 1, |s|);
      assert s[0..k] == s[..k] && Upper(s)[0..k] == Upper(s)[..k];
    }
  }

  lemma {:induction false} UpperTokens(p: Option<seq<byte>>)
    ensures Tokens(UpperRest(p)) == UpperAll(Tokens(p))
    decreases if p.None? then 0 else 1 + |p.value|
  {
    hide Tokens, Upper, Strsep;
    if p.None? {
      TokenCount(None);
    } else {
      var s := p.value;
      var (tok, rest) := Strsep(s);
      StrsepShortens(s);
      UpperStrsep(s);
      TokensStep(s);
      TokensStep(Upper(s));
      UpperTokens(rest);
      assert Upper(tok) == [] <==> tok == [];
    }
  }

  lemma {:induction false} UpperBytes(ts: seq<seq<byte>>)
    ensures ParseTokens(UpperAll(ts)) == ParseTokens(ts)
  {
    hide Kstrtouint, Upper, LowByte;
    if ts != [] {
      UpperToken(ts[0]);
      UpperBytes(ts[1..]);
      assert UpperAll(ts)[1..] == UpperAll(ts[1..]);
    }
  }

  lemma {:induction false} UpperCString(s: seq<byte>)
    ensures CString(Upper(s)) == Upper(CString(s))
  {
    hide Up;
    if s != [] {
      UpChar(s[0]);
      UpperCut(s, 1, |s|);
      UpperCString(s[1..]);
    }
  }

  lemma {:induction false} UpperLeft(s: seq<byte>)
    ensures TrimLeft(Upper(s)) == Upper(TrimLeft(s))
  {
    hide Up, IsSpace;
    if s != [] {
      UpChar(s[0]);
      UpperCut(s, 1, |s|);
      UpperLeft(s[1..]);
    }
  }

  lemma {:induction false} UpperRight(s: seq<byte>)
    ensures TrimRight(Upper(s)) == Upper(TrimRight(s))
  {
    hide Up, IsSpace;
    if s != [] {
      var n := |s| - 1;
      UpChar(s[n]);
      UpperCut(s, 0, n);
      assert s[0..n] == s[..n] && Upper(s)[0..n] == Upper(s)[..n];
      UpperRight(s[..n]);
    }
  }

  lemma UpperText(s: seq<byte>)
    ensures Strim(CString(Upper(s))) == Upper(Strim(CString(s)))
  {
    hide CString, TrimLeft, TrimRight, Upper;
    UpperCString(s);
    UpperRight(CString(s));
    UpperLeft(TrimRight(CString(s)));
  }

  /** Neither file tells upper case from lower case, in any text. */
  lemma CaseIgnored(text: seq<byte>)
    ensures ParseRaw(Upper(text)) == ParseRaw(text)
    ensures ParseCmd(Upper(text)) == ParseCmd(text)
  {
    hide Strim, CString, Tokens, ParseTokens, Strsep, Kstrtouint, Upper;
    UpperText(text);
    var core := Strim(CString(text));
    UpperTokens(Some(core));
    UpperBytes(Tokens(Some(core)));
    UpperStrsep(core);
    var (t0, p0) := Strsep(core);
    UpperToken(t0);
    if p0.Some? {
      UpperStrsep(p0.value);
      var (t1, p1) := Strsep(p0.value);
      UpperToken(t1);
      UpperTokens(p1);
      UpperBytes(Capped(Tokens(p1), PAYLOAD_MAX));
      assert Capped(UpperAll(Tokens(p1)), PAYLOAD_MAX) == UpperAll(Capped(Tokens(p1), PAYLOAD_MAX));
    }
  }

  /** So what is printed or written as a command can be given back in upper case. */
  lemma UpperRoundTrips(s: seq<byte>, cmd0: group, cmd1: index)
    ensures ParseRaw(Upper(RawText(s))) == Some(s) <==> 1 <= |s| <= 1365
    ensures ParseCmd(Upper(CmdText(cmd0, cmd1, s))) ==
            if |s| > 340 then None
            else Some(Command(cmd0, cmd1, if |s| <= 256 then s else s[..256], true))
  {
    hide ParseRaw, ParseCmd, Upper, RawText, CmdText;
    CaseIgnored(RawText(s));
    RawFileRoundTrip(s);
    CaseIgnored(CmdText(cmd0, cmd1, s));
    CmdFileRoundTrip(cmd0, cmd1, s);
  }

  //////////////////////////////////////////////////////////////////////////////
  // Numbers
  //////////////////////////////////////////////////////////////////////////////

  predicate Digits(ds: seq<byte>) {
    ds != [] && forall i :: 0 <= i < |ds| ==> HexValue(ds[i]).Some?
  }

  /** The number that digits denote, place by place. */
  function Number(ds: seq<byte>): nat
    requires forall i :: 0 <= i < |ds| ==> HexValue(ds[i]).Some?
  {
    if ds == [] then 0 else 16 * Number(ds[..|ds| - 1]) + HexValue(ds[|ds| - 1]).value
  }

  lemma {:induction false} AccumulateOn(ds: seq<byte>, rest: seq<byte>, acc: nat)
    requires forall i :: 0 <= i < |ds| ==> HexValue(ds[i]).Some?
    ensures Accumulate(ds + rest, acc) == Accumulate(rest, Accumulate(ds, acc))
    ensures DigitRun(ds + rest) == |ds| + DigitRun(rest)
  {
    hide HexValue;
    if ds == [] {
      assert ds + rest == rest;
    } else {
      assert (ds + rest)[1..] == ds[1..] + rest;
      AccumulateOn(ds[1..], rest, 16 * acc + HexValue(ds[0]).value);
    }
  }

  lemma {:induction false} AccumulateIsNumber(ds: seq<byte>)
    requires forall i :: 0 <= i < |ds| ==> HexValue(ds[i]).Some?
    ensures Accumulate(ds, 0) == Number(ds)
  {
    hide HexValue;
    if ds != [] {
      var n := |ds| - 1;
      var last := [ds[n]];
      AccumulateIsNumber(ds[..n]);
      AccumulateOn(ds[..n], last, 0);
      assert ds == ds[..n] + last;
      assert last[1..] == [];
    }
  }

  /** A token in its parts: sign, prefix, digits, line end. */
  predicate Spells(t: seq<byte>, sign: seq<byte>, prefix: seq<byte>, ds: seq<byte>, end: seq<byte>) {
    && sign in {[], ['+' as int]}
    && prefix in {[], ['0' as int, 'x' as int], ['0' as int, 'X' as int]}
    && end in {[], ['\n' as int]}
    && Digits(ds) && t == sign + prefix + ds + end
  }

  lemma Unsigned(t: seq<byte>, sign: seq<byte>, prefix: seq<byte>, ds: seq<byte>, end: seq<byte>)
    requires Spells(t, sign, prefix, ds, end)
    ensures (if |t| >= 1 && t[0] == 43 then t[1..] else t) == prefix + ds + end
  {
    if sign == [] {
      assert t == prefix + ds + end;
    } else {
      assert t[1..] == prefix + ds + end;
    }
  }

  lemma Unprefixed(t: seq<byte>, prefix: seq<byte>, ds: seq<byte>, end: seq<byte>)
    requires Spells(t, [], prefix, ds, end)
    ensures (if |t| >= 2 && t[0] == 48 && t[1] in {120, 88} then t[2..] else t) == ds + end
  {
    if prefix == [] {
      assert t == ds + end;
      if |t| >= 2 {
        assert t[1] == if |ds| > 1 then ds[1] else 10;
      }
    } else {
      assert t[2..] == ds + end;
    }
  }

  lemma SpelledValue(t: seq<byte>, sign: seq<byte>, prefix: seq<byte>, ds: seq<byte>, end: seq<byte>)
    requires Spells(t, sign, prefix, ds, end)
    ensures Kstrtouint(t) == if Number(ds) < 0x1_0000_0000 then Some(Number(ds)) else None
  {
    hide Number, DigitRun, Accumulate;
    Unsigned(t, sign, prefix, ds, end);
    Unprefixed(prefix + ds + end, prefix, ds, end) by {
      assert [] + prefix + ds + end == prefix + ds + end;
    }
    AccumulateOn(ds, end, 0);
    AccumulateIsNumber(ds);
    NoDigits(end, Number(ds));
    assert (ds + end)[|ds|..] == end;
  }

  lemma NoDigits(end: seq<byte>, acc: nat)
    requires end in {[], [10]}
    ensures DigitRun(end) == 0 && Accumulate(end, acc) == acc
  {
  }

  lemma {:induction false} RunOfDigits(s: seq<byte>)
    ensures forall i :: 0 <= i < DigitRun(s) ==> HexValue(s[i]).Some?
    ensures DigitRun(s) < |s| ==> HexValue(s[DigitRun(s)]).None?
  {
    hide HexValue;
    if s != [] && HexValue(s[0]).Some? {
      RunOfDigits(s[1..]);
    }
  }

  /** Exactly which tokens are numbers, and which: an optional plus sign, an optional 0x or 0X, one or more digits of
      either case, an optional line end, nothing else, and less than 2^32. */
  lemma TokenExact(t: seq<byte>, v: nat)
    ensures Kstrtouint(t) == Some(v) <==>
            v < 0x1_0000_0000 && exists sign, prefix, ds, end :: Spells(t, sign, prefix, ds, end) && Number(ds) == v
  {
    if sign, prefix, ds, end :| Spells(t, sign, prefix, ds, end) && Number(ds) == v && v < 0x1_0000_0000 {
      SpelledValue(t, sign, prefix, ds, end);
    }
    if Kstrtouint(t) == Some(v) {
      var sign, prefix, ds, end := Parts(t);
      SpelledValue(t, sign, prefix, ds, end);
    }
  }

  lemma Parts(t: seq<byte>) returns (sign: seq<byte>, prefix: seq<byte>, ds: seq<byte>, end: seq<byte>)
    requires Kstrtouint(t).Some?
    ensures Spells(t, sign, prefix, ds, end)
  {
    hide Kstrtouint, Digits, DigitRun;
    var s1 := if |t| >= 1 && t[0] == 43 then t[1..] else t;
    var s2 := if |s1| >= 2 && s1[0] == 48 && s1[1] in {120, 88} then s1[2..] else s1;
    sign := if |t| >= 1 && t[0] == 43 then [43] else [];
    prefix := if |s1| >= 2 && s1[0] == 48 && s1[1] in {120, 88} then [48, s1[1]] else [];
    PutTogether(t, sign, s1, prefix, s2);
    NumberFound(t, s2);
    ds, end := s2[..DigitRun(s2)], s2[DigitRun(s2)..];
    TakenDigits(s2);
    InOneRow(sign, prefix, ds, end, s2);
  }

  lemma TakenDigits(s: seq<byte>)
    requires DigitRun(s) > 0
    ensures Digits(s[..DigitRun(s)]) && s == s[..DigitRun(s)] + s[DigitRun(s)..]
  {
    hide HexValue, DigitRun;
    RunOfDigits(s);
  }

  lemma InOneRow(a: seq<byte>, b: seq<byte>, c: seq<byte>, d: seq<byte>, s: seq<byte>)
    requires s == c + d
    ensures a + (b + s) == a + b + c + d
  {
  }

  lemma NumberFound(t: seq<byte>, s2: seq<byte>)
    requires Kstrtouint(t).Some?
    requires var s1 := if |t| >= 1 && t[0] == 43 then t[1..] else t;
             s2 == if |s1| >= 2 && s1[0] == 48 && s1[1] in {120, 88} then s1[2..] else s1
    ensures DigitRun(s2) > 0 && s2[DigitRun(s2)..] in {[], [10]}
  {
    hide DigitRun, Accumulate;
  }

  lemma PutTogether(t: seq<byte>, sign: seq<byte>, s1: seq<byte>, prefix: seq<byte>, s2: seq<byte>)
    requires s1 == (if |t| >= 1 && t[0] == 43 then t[1..] else t)
    requires sign == if |t| >= 1 && t[0] == 43 then [43] else []
    requires s2 == (if |s1| >= 2 && s1[0] == 48 && s1[1] in {120, 88} then s1[2..] else s1)
    requires prefix == if |s1| >= 2 && s1[0] == 48 && s1[1] in {120, 88} then [48, s1[1]] else []
    ensures t == sign + (prefix + s2)
  {
    assert s1 == prefix + s2;
    assert t == sign + s1;
  }

  /** Of a number of two digits or more the files keep the last two. */
  lemma StoredByte(ds: seq<byte>)
    requires Digits(ds)
    ensures var n := |ds|;
            LowByte(Number(ds)) == if n == 1 then HexValue(ds[0]).value
                                   else 16 * HexValue(ds[n - 2]).value + HexValue(ds[n - 1]).value
  {
    hide HexValue, LowByte;
    var n := |ds|;
    DigitValue(ds[n - 1]);
    if n == 1 {
      assert Number(ds) == 16 * Number(ds[..0]) + HexValue(ds[0]).value;
      LastTwo(0, 0, HexValue(ds[0]).value);
    } else {
      DigitValue(ds[n - 2]);
      LastTwo(Number(ds[..n - 2]), HexValue(ds[n - 2]).value, HexValue(ds[n - 1]).value);
      var init := ds[..n - 1];
      assert init[..|init| - 1] == ds[..n - 2] && init[|init| - 1] == ds[n - 2];
      assert Number(init) == 16 * Number(ds[..n - 2]) + HexValue(ds[n - 2]).value;
      assert Number(ds) == 16 * Number(init) + HexValue(ds[n - 1]).value;
    }
  }

  lemma LastTwo(n: nat, hi: nat, lo: nat)
    requires hi < 16 && lo < 16
    ensures LowByte(16 * (16 * n + hi) + lo) == 16 * hi + lo
  {
    Bits.DivModUnique(16 * (16 * n + hi) + lo, 256, n, 16 * hi + lo);
  }

  lemma DigitValue(c: byte)
    ensures HexValue(c).Some? ==> HexValue(c).value < 16
  {
  }

  //////////////////////////////////////////////////////////////////////////////
  // Whole texts
  //////////////////////////////////////////////////////////////////////////////

  /** A word: a number as a user may write it. */
  datatype Word = Word(sign: bool, prefix: bool, digits: seq<byte>)

  predicate Fits(w: Word) {
    Digits(w.digits) && Number(w.digits) < 0x1_0000_0000
  }

  function Written(w: Word): seq<byte> {
    (if w.sign then ['+' as int] else []) + (if w.prefix then ['0' as int, 'x' as int] else []) + w.digits
  }

  predicate Blanks(s: seq<byte>) {
    forall i :: 0 <= i < |s| ==> s[i] in {' ' as int, '\t' as int}
  }

  /** The words, each followed by its gap of blanks and tabs, the last by none. */
  function Spaced(ws: seq<Word>, gaps: seq<seq<byte>>): seq<byte>
    requires |gaps| >= |ws|
  {
    if ws == [] then []
    else if |ws| == 1 then Written(ws[0])
    else Written(ws[0]) + gaps[0] + Spaced(ws[1..], gaps[1..])
  }

  /** The byte of a word that is kept. */
  function Kept(w: Word): byte
    requires Fits(w)
  {
    LowByte(Number(w.digits))
  }

  function Stored(ws: seq<Word>): (r: seq<byte>)
    requires forall i :: 0 <= i < |ws| ==> Fits(ws[i])
    ensures |r| == |ws| && forall i :: 0 <= i < |ws| ==> r[i] == Kept(ws[i])
  {
    seq(|ws|, i requires 0 <= i < |ws| => Kept(ws[i]))
  }

  predicate Gaps(gaps: seq<seq<byte>>) {
    forall i :: 0 <= i < |gaps| ==> gaps[i] != [] && Blanks(gaps[i])
  }

  lemma DigitChar(c: byte)
    requires HexValue(c).Some?
    ensures c != 0 && !IsSpace(c) && !IsDelim(c)
  {
  }

  lemma WrittenChars(w: Word)
    requires Digits(w.digits)
    ensures Written(w) != []
    ensures forall i :: 0 <= i < |Written(w)| ==> var c := Written(w)[i]; c != 0 && !IsSpace(c) && !IsDelim(c)
  {
    hide HexValue;
    forall i | 0 <= i < |w.digits|
      ensures w.digits[i] != 0 && !IsSpace(w.digits[i]) && !IsDelim(w.digits[i])
    {
      DigitChar(w.digits[i]);
    }
  }

  lemma WrittenValue(w: Word)
    requires Fits(w)
    ensures Kstrtouint(Written(w)) == Some(Number(w.digits))
  {
    hide Number;
    var sign: seq<byte> := if w.sign then [43] else [];
    var prefix: seq<byte> := if w.prefix then [48, 120] else [];
    assert Written(w) == sign + prefix + w.digits + [];
    SpelledValue(Written(w), sign, prefix, w.digits, []);
  }

  lemma {:induction false} NoDelim(t: seq<byte>, rest: seq<byte>)
    requires forall i :: 0 <= i < |t| ==> !IsDelim(t[i])
    ensures FirstDelim(t) == |t|
    ensures rest != [] && IsDelim(rest[0]) ==> FirstDelim(t + rest) == |t|
  {
    hide IsDelim;
    if t == [] {
      assert t + rest == rest;
    } else {
      NoDelim(t[1..], rest);
      assert (t + rest)[1..] == t[1..] + rest;
    }
  }

  /** One `strsep` takes a word off, and one delimiter after it. */
  lemma SplitWord(w: Word, gap: byte, rest: seq<byte>)
    requires Digits(w.digits) && IsDelim(gap)
    ensures Strsep(Written(w)) == (Written(w), None)
    ensures Strsep(Written(w) + [gap] + rest) == (Written(w), Some(rest))
  {
    hide FirstDelim, Written;
    WrittenChars(w);
    NoDelim(Written(w), [gap] + rest);
    var s := Written(w) + [gap] + rest;
    assert s == Written(w) + ([gap] + rest);
    assert s[..|Written(w)|] == Written(w) && s[|Written(w)| + 1..] == rest;
  }

  lemma {:induction false} SkipBlanks(gap: seq<byte>, rest: seq<byte>)
    requires Blanks(gap)
    ensures Tokens(Some(gap + rest)) == Tokens(Some(rest))
  {
    hide Tokens;
    if gap == [] {
      assert gap + rest == rest;
    } else {
      SkipBlanks(gap[1..], rest);
      var s := gap + rest;
      TokensStep(s);
      assert FirstDelim(s) == 0;
      assert s[1..] == gap[1..] + rest && s[..0] == [];
    }
  }

  lemma {:induction false} SpacedTokens(ws: seq<Word>, gaps: seq<seq<byte>>)
    requires ws != [] && |gaps| >= |ws| && Gaps(gaps) && forall i :: 0 <= i < |ws| ==> Fits(ws[i])
    ensures |Tokens(Some(Spaced(ws, gaps)))| == |ws|
    ensures forall i :: 0 <= i < |ws| ==> Tokens(Some(Spaced(ws, gaps)))[i] == Written(ws[i])
    decreases |ws|
  {
    hide Tokens, Written, Strsep, Number, Digits;
    assert Digits(ws[0].digits);
    WrittenChars(ws[0]);
    TokenCount(None);
    if |ws| == 1 {
      SplitWord(ws[0], 32, []);
      TokensStep(Written(ws[0]));
    } else {
      var gap, tail := gaps[0], Spaced(ws[1..], gaps[1..]);
      var rest := gap[1..] + tail;
      assert Spaced(ws, gaps) == Written(ws[0]) + [gap[0]] + rest;
      SplitWord(ws[0], gap[0], rest);
      TokensStep(Spaced(ws, gaps));
      SkipBlanks(gap[1..], tail);
      SpacedTokens(ws[1..], gaps[1..]);
    }
  }

  lemma {:induction false} TokensParse(ws: seq<Word>, ts: seq<seq<byte>>)
    requires |ts| == |ws| && forall i :: 0 <= i < |ws| ==> Fits(ws[i]) && ts[i] == Written(ws[i])
    ensures ParseTokens(ts) == Some(Stored(ws))
  {
    hide Kstrtouint, LowByte, Written, Fits;
    if ws != [] {
      WrittenValue(ws[0]);
      TokensParse(ws[1..], ts[1..]);
      assert Stored(ws) == [Kept(ws[0])] + Stored(ws[1..]);
    }
  }

  lemma {:induction false} SpacedShape(ws: seq<Word>, gaps: seq<seq<byte>>)
    requires ws != [] && |gaps| >= |ws| && Gaps(gaps) && forall i :: 0 <= i < |ws| ==> Digits(ws[i].digits)
    ensures var s := Spaced(ws, gaps);
            s != [] && !IsSpace(s[0]) && !IsSpace(s[|s| - 1]) && forall i :: 0 <= i < |s| ==> s[i] != 0
    decreases |ws|
  {
    hide Written, Digits, IsSpace;
    WrittenChars(ws[0]);
    if |ws| > 1 {
      SpacedShape(ws[1..], gaps[1..]);
    }
  }

  predicate Spaces(s: seq<byte>) {
    forall i :: 0 <= i < |s| ==> s[i] != 0 && IsSpace(s[i])
  }

  lemma {:induction false} TrimLead(lead: seq<byte>, s: seq<byte>)
    requires Spaces(lead) && s != [] && !IsSpace(s[0])
    ensures TrimLeft(lead + s) == s
  {
    hide IsSpace;
    if lead == [] {
      assert lead + s == s;
    } else {
      TrimLead(lead[1..], s);
      assert (lead + s)[1..] == lead[1..] + s;
    }
  }

  lemma {:induction false} TrimTrail(s: seq<byte>, trail: seq<byte>)
    requires Spaces(trail) && s != [] && !IsSpace(s[|s| - 1])
    ensures TrimRight(s + trail) == s
  {
    hide IsSpace;
    var t := s + trail;
    if trail == [] {
      assert t == s;
    } else {
      TrimTrail(s, trail[..|trail| - 1]);
      assert t[..|t| - 1] == s + trail[..|trail| - 1];
    }
  }

  /** White space around a text is trimmed. */
  lemma TrimBoth(lead: seq<byte>, s: seq<byte>, trail: seq<byte>)
    requires Spaces(lead) && Spaces(trail) && s != [] && !IsSpace(s[0]) && !IsSpace(s[|s| - 1])
    requires forall i :: 0 <= i < |s| ==> s[i] != 0
    ensures Strim(CString(lead + s + trail)) == s
  {
    hide IsSpace, CString, TrimLeft, TrimRight;
    var t := lead + s + trail;
    CStringWhole(t);
    TrimTrail(lead + s, trail);
    TrimLead(lead, s);
  }

  /** Any way of writing a list of numbers down is understood by the `raw` file: signs, prefixes, leading zeros,
      either case, any blanks and tabs between them, any white space around them. One byte of each is kept. */
  lemma AnyRawText(lead: seq<byte>, ws: seq<Word>, gaps: seq<seq<byte>>, trail: seq<byte>)
    requires ws != [] && |gaps| >= |ws| && Gaps(gaps) && forall i :: 0 <= i < |ws| ==> Fits(ws[i])
    requires Spaces(lead) && Spaces(trail)
    ensures var text := lead + Spaced(ws, gaps) + trail;
            ParseRaw(text) == if |text| <= 4096 then Some(Stored(ws)) else None
  {
    hide Strim, CString, Tokens, ParseTokens, Spaced, Stored, Number, Written;
    SpacedShape(ws, gaps);
    TrimBoth(lead, Spaced(ws, gaps), trail);
    SpacedTokens(ws, gaps);
    TokensParse(ws, Tokens(Some(Spaced(ws, gaps))));
    assert |Stored(ws)| == |ws|;
  }

  /** The text of a command: two words, one blank or tab apart, and the payload words. */
  function CommandText(a: Word, d: byte, b: Word, gap: seq<byte>, ws: seq<Word>, gaps: seq<seq<byte>>): seq<byte>
    requires |gaps| >= |ws|
  {
    Written(a) + [d] + (Written(b) + if ws == [] then [] else gap + Spaced(ws, gaps))
  }

  function FirstOf(s: seq<byte>, n: nat): seq<byte> {
    if |s| <= n then s else s[..n]
  }

  lemma CommandShape(a: Word, d: byte, b: Word, gap: seq<byte>, ws: seq<Word>, gaps: seq<seq<byte>>)
    requires Fits(a) && Fits(b) && |gaps| >= |ws| && Gaps(gaps) && forall i :: 0 <= i < |ws| ==> Fits(ws[i])
    requires Blanks([d]) && gap != [] && Blanks(gap)
    ensures var s := CommandText(a, d, b, gap, ws, gaps);
            s != [] && !IsSpace(s[0]) && !IsSpace(s[|s| - 1]) && forall i :: 0 <= i < |s| ==> s[i] != 0
  {
    hide Written, Digits, IsSpace, Spaced, Number;
    WrittenChars(a);
    WrittenChars(b);
    assert [d][0] == d;
    if ws != [] {
      SpacedShape(ws, gaps);
    }
  }

  /** Any way of writing a command down is understood by the `cmd` file, and its two fields are cut to 4 and 3
      bits. */
  lemma AnyCmdText(lead: seq<byte>, a: Word, d: byte, b: Word, gap: seq<byte>, ws: seq<Word>, gaps: seq<seq<byte>>,
                   trail: seq<byte>)
    requires Fits(a) && Fits(b) && |gaps| >= |ws| && Gaps(gaps) && forall i :: 0 <= i < |ws| ==> Fits(ws[i])
    requires Blanks([d]) && gap != [] && Blanks(gap) && Spaces(lead) && Spaces(trail)
    ensures var text := lead + CommandText(a, d, b, gap, ws, gaps) + trail;
            ParseCmd(text) == if |text| > 1024 then None
                              else Some(Command(Number(a.digits) % 16, Number(b.digits) % 8,
                                           FirstOf(Stored(ws), 256), true))
  {
    hide Strim, CString, Tokens, ParseTokens, Spaced, Number, Written, Strsep, Kstrtouint;
    var s := CommandText(a, d, b, gap, ws, gaps);
    CommandShape(a, d, b, gap, ws, gaps);
    TrimBoth(lead, s, trail);
    assert [d][0] == d;
    var after := Written(b) + if ws == [] then [] else gap + Spaced(ws, gaps);
    SplitWord(a, d, after);
    WrittenValue(a);
    WrittenValue(b);
    if ws == [] {
      SplitWord(b, 32, []);
      assert after == Written(b);
      TokenCount(None);
      ParseNothing();
      assert Stored(ws) == [];
    } else {
      assert after == Written(b) + [gap[0]] + (gap[1..] + Spaced(ws, gaps));
      SplitWord(b, gap[0], gap[1..] + Spaced(ws, gaps));
      SkipBlanks(gap[1..], Spaced(ws, gaps));
      SpacedTokens(ws, gaps);
      CappedParse(ws, Tokens(Some(Spaced(ws, gaps))));
    }
  }

  lemma CappedParse(ws: seq<Word>, ts: seq<seq<byte>>)
    requires |ts| == |ws| && forall i :: 0 <= i < |ws| ==> Fits(ws[i]) && ts[i] == Written(ws[i])
    ensures ParseTokens(Capped(ts, PAYLOAD_MAX)) == Some(FirstOf(Stored(ws), 256))
  {
    hide ParseTokens, Written, Fits;
    var few := if |ws| <= 256 then ws else ws[..256];
    TokensParse(few, Capped(ts, PAYLOAD_MAX));
    assert Stored(few) == FirstOf(Stored(ws), 256);
  }

  /** Between the two fields, though, a second blank or tab makes an empty field, and the write is refused. */
  lemma DoubleBlankRefused(lead: seq<byte>, a: Word, d: byte, e: byte, rest: seq<byte>)
    requires Fits(a) && Spaces(lead) && Blanks([d, e]) && rest != [] && !IsSpace(rest[|rest| - 1])
    requires forall i :: 0 <= i < |rest| ==> rest[i] != 0
    ensures ParseCmd(lead + (Written(a) + [d] + ([e] + rest))) == None
  {
    hide Strim, CString, Tokens, ParseTokens, Number, Written, Strsep, Kstrtouint, IsSpace;
    var s := Written(a) + [d] + ([e] + rest);
    WrittenChars(a);
    assert [d, e][0] == d && [d, e][1] == e;
    assert forall i :: 0 <= i < |s| ==> s[i] != 0;
    TrimBoth(lead, s, []);
    assert lead + s + [] == lead + s;
    SplitWord(a, d, [e] + rest);
    EmptyField(e, rest);
  }

  lemma EmptyField(e: byte, rest: seq<byte>)
    requires IsDelim(e)
    ensures Strsep([e] + rest).0 == [] && Kstrtouint([]).None?
  {
    assert ([e] + rest)[..0] == [];
  }
}
