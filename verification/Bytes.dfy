/** Bytes, their 16-bit little-endian pairs, and the additive sums every checksum is built from. */
module Bytes {
  import opened Bits

  type byte = b: int | 0 <= b < 256

  datatype Option<+T> = None | Some(value: T)

  /** n & 0xFF */
  function LowByte(n: nat): byte {
    n % 256
  }

  /** (n >> 8) & 0xFF */
  function HighByte(n: nat): byte {
    n / 256 % 256
  }

  /** lo | (hi << 8) */
  function Le16(lo: byte, hi: byte): nat {
    lo + 256 * hi
  }

  /** b >> 4 */
  function HighNibble(b: byte): nat {
    b / 16
  }

  /** b & 0x0F */
  function LowNibble(b: byte): nat {
    b % 16
  }

  lemma LowByteOfByte(b: byte)
    ensures LowByte(b) == b
  {
  }

  /** Two sums less than 256 apart never share a low byte. */
  lemma LowByteDiffers(a: nat, b: nat)
    requires a != b && a < b + 256 && b < a + 256
    ensures LowByte(a) != LowByte(b)
  {
  }

  lemma SplitThenJoin(n: nat)
    ensures Le16(LowByte(n), HighByte(n)) == n % 0x1_0000
  {
    var q := n / 256;
    assert n == 256 * q + n % 256;
    assert q == 256 * (q / 256) + q % 256;
    DivModUnique(n, 0x1_0000, q / 256, n % 256 + 256 * (q % 256));
  }

  lemma JoinThenSplit(lo: byte, hi: byte)
    ensures LowByte(Le16(lo, hi)) == lo && HighByte(Le16(lo, hi)) == hi
  {
    DivModUnique(lo + 256 * hi, 256, hi, lo);
  }

  /** struct.unpack_from("<I", d, at) */
  function UInt32(d: seq<byte>, at: nat): (r: nat)
    requires at + 4 <= |d|
  {
    Le16(d[at], d[at + 1]) + 0x1_0000 * Le16(d[at + 2], d[at + 3])
  }

  /** The four little-endian bytes of a 32-bit number. */
  function Bytes32(u: nat): (s: seq<byte>)
    ensures |s| == 4
  {
    [LowByte(u), HighByte(u), LowByte(u / 0x1_0000), HighByte(u / 0x1_0000)]
  }

  lemma UInt32OfBytes(before: seq<byte>, u: nat, after: seq<byte>)
    requires u < 0x1_0000_0000
    ensures UInt32(before + Bytes32(u) + after, |before|) == u
  {
    hide LowByte, HighByte, Le16;
    var d, at := before + Bytes32(u) + after, |before|;
    SplitThenJoin(u);
    SplitThenJoin(u / 0x1_0000);
    assert d[at..at + 4] == Bytes32(u);
    assert d[at] == Bytes32(u)[0] && d[at + 1] == Bytes32(u)[1];
    assert d[at + 2] == Bytes32(u)[2] && d[at + 3] == Bytes32(u)[3];
    HighHalf(u);
  }

  lemma BytesOfUInt32(d: seq<byte>, at: nat)
    requires at + 4 <= |d|
    ensures UInt32(d, at) < 0x1_0000_0000 && Bytes32(UInt32(d, at)) == d[at..at + 4]
  {
    hide LowByte, HighByte, Le16;
    var lo, hi := Le16(d[at], d[at + 1]), Le16(d[at + 2], d[at + 3]);
    JoinThenSplit(d[at], d[at + 1]);
    JoinThenSplit(d[at + 2], d[at + 3]);
    PairBound(d[at], d[at + 1]);
    PairBound(d[at + 2], d[at + 3]);
    LowHalf(lo, hi);
  }

  lemma PairBound(lo: byte, hi: byte)
    ensures Le16(lo, hi) < 0x1_0000
  {
  }

  lemma LowHalf(lo: nat, hi: nat)
    requires lo < 0x1_0000
    ensures (lo + 0x1_0000 * hi) / 0x1_0000 == hi
    ensures LowByte(lo + 0x1_0000 * hi) == LowByte(lo) && HighByte(lo + 0x1_0000 * hi) == HighByte(lo)
  {
    var q, r := lo / 256, lo % 256;
    DivModUnique(lo + 0x1_0000 * hi, 0x1_0000, hi, lo);
    DivModUnique(lo + 0x1_0000 * hi, 256, q + 256 * hi, r);
    DivModUnique(q + 256 * hi, 256, hi, q);
  }

  lemma HighHalf(u: nat)
    requires u < 0x1_0000_0000
    ensures u % 0x1_0000 + 0x1_0000 * (u / 0x1_0000 % 0x1_0000) == u
  {
    var q := u / 0x1_0000;
    assert u == 0x1_0000 * q + u % 0x1_0000;
    assert q < 0x1_0000;
  }

  function Sum(s: seq<byte>): (r: nat) {
    if s == [] then 0 else s[0] + Sum(s[1..])
  }

  function Repeat(b: byte, n: nat): (s: seq<byte>)
    ensures |s| == n && forall i :: 0 <= i < n ==> s[i] == b
  {
    seq(n, _ => b)
  }

  /** Concatenation of a list of byte strings: the bytes of a list of bus transactions. */
  function Flatten(ss: seq<seq<byte>>): (r: seq<byte>) {
    if ss == [] then [] else ss[0] + Flatten(ss[1..])
  }

  lemma {:induction false} SumAppend(a: seq<byte>, b: seq<byte>)
    ensures Sum(a + b) == Sum(a) + Sum(b)
  {
    if a == [] {
      assert a + b == b;
    } else {
      SumAppend(a[1..], b);
      assert (a + b)[1..] == a[1..] + b;
    }
  }

  lemma SumOne(b: byte)
    ensures Sum([b]) == b
  {
    assert [b][1..] == [];
  }

  lemma SumUpdate(s: seq<byte>, i: nat, v: byte)
    requires i < |s|
    ensures Sum(s[i := v]) == Sum(s) - s[i] + v
  {
    hide Sum;
    SumOne(s[i]);
    SumOne(v);
    assert s == s[..i] + ([s[i]] + s[i + 1..]);
    assert s[i := v] == s[..i] + ([v] + s[i + 1..]);
    SumAppend(s[..i], [s[i]] + s[i + 1..]);
    SumAppend(s[..i], [v] + s[i + 1..]);
    SumAppend([s[i]], s[i + 1..]);
    SumAppend([v], s[i + 1..]);
  }

  lemma SumWithout(s: seq<byte>, k: nat)
    requires k < |s|
    ensures Sum(s) == s[k] + Sum(s[..k] + s[k + 1..])
  {
    hide Sum;
    var a, b := s[..k], s[k + 1..];
    assert s == a + ([s[k]] + b);
    SumAppend(a, [s[k]] + b);
    SumAppend([s[k]], b);
    SumOne(s[k]);
    SumAppend(a, b);
  }

  lemma WithoutMembers(s: seq<byte>, k: nat)
    requires k < |s|
    ensures multiset(s[..k] + s[k + 1..]) == multiset(s) - multiset{s[k]}
  {
    assert s == s[..k] + ([s[k]] + s[k + 1..]);
  }

  /** Reordering bytes does not change their sum. */
  lemma {:induction false} SumPermutation(a: seq<byte>, b: seq<byte>)
    requires multiset(a) == multiset(b)
    ensures Sum(a) == Sum(b)
    decreases |a|
  {
    if a == [] {
      assert |multiset(b)| == 0;
    } else {
      assert a[0] in multiset(b);
      var k :| 0 <= k < |b| && b[k] == a[0];
      SumWithout(b, k);
      WithoutMembers(b, k);
      assert a == [a[0]] + a[1..];
      var rest := b[..k] + b[k + 1..];
      assert multiset(a[1..]) == multiset(a) - multiset{a[0]};
      assert multiset(rest) == multiset(a[1..]);
      SumPermutation(a[1..], rest);
    }
  }

  lemma {:induction false} FlattenAppend(a: seq<seq<byte>>, b: seq<seq<byte>>)
    ensures Flatten(a + b) == Flatten(a) + Flatten(b)
  {
    if a == [] {
      assert a + b == b;
    } else {
      FlattenAppend(a[1..], b);
      assert (a + b)[1..] == a[1..] + b && (a + b)[0] == a[0];
      assert a[0] + (Flatten(a[1..]) + Flatten(b)) == (a[0] + Flatten(a[1..])) + Flatten(b);
    }
  }

  lemma FlattenPair(a: seq<byte>, b: seq<byte>)
    ensures Flatten([a, b]) == a + b && Flatten([a]) == a
  {
    assert Flatten([a]) == a + Flatten([]) by {
      assert [a][1..] == [];
    }
    assert Flatten([b]) == b + Flatten([]) by {
      assert [b][1..] == [];
    }
    assert [a, b][1..] == [b];
  }
}
