/** `dump` of tools/cshigh_repro.py: sixteen bytes a row, with a constant tail collapsed. */
module Dump {
  import opened Bytes

  const ROW := 16

  /** The printed rows (offset and bytes), and the collapsed tail: filler byte and last index. */
  datatype Listing = Listing(rows: seq<(nat, seq<byte>)>, tail: Option<(byte, nat)>)

  /** len(set(s)) == 1 */
  predicate Constant(s: seq<byte>) {
    s != [] && forall k :: 0 <= k < |s| ==> s[k] == s[0]
  }

  /** rx[i:i + 16] at the start of row n */
  function Chunk(rx: seq<byte>, n: nat): seq<byte>
    requires ROW * n <= |rx|
  {
    if ROW * n + ROW <= |rx| then rx[ROW * n..ROW * n + ROW] else rx[ROW * n..]
  }

  /** The buffer is constant from row n on, and n is not the first row. */
  predicate CollapsesAt(rx: seq<byte>, n: nat) {
    n > 0 && ROW * n < |rx| && Constant(rx[ROW * n..])
  }

  /** What is printed from row n on. */
  function DumpFrom(rx: seq<byte>, n: nat): Listing
    decreases |rx| - ROW * n
  {
    if ROW * n >= |rx| then Listing([], None)
    else if CollapsesAt(rx, n) then Listing([], Some((rx[ROW * n], |rx| - 1)))
    else
      var rest := DumpFrom(rx, n + 1);
      Listing([(ROW * n, Chunk(rx, n))] + rest.rows, rest.tail)
  }

  function Prefixed(rows: seq<(nat, seq<byte>)>, l: Listing): Listing {
    Listing(rows + l.rows, l.tail)
  }

  lemma PrefixStep(rows: seq<(nat, seq<byte>)>, row: (nat, seq<byte>), l: Listing)
    ensures Prefixed(rows, Listing([row] + l.rows, l.tail)) == Prefixed(rows + [row], l)
    ensures Prefixed([], l) == l
    ensures l.rows == [] ==> Prefixed(rows, l) == Listing(rows, l.tail)
  {
    assert rows + ([row] + l.rows) == rows + [row] + l.rows;
  }

  /** The loop of the source. */
  method DumpBytes(rx: seq<byte>) returns (out: Listing)
    ensures out == DumpFrom(rx, 0)
  {
    hide Constant, Prefixed;
    var rows: seq<(nat, seq<byte>)> := [];
    var i := 0;
    ghost var n: nat := 0;
    PrefixStep([], (0, []), DumpFrom(rx, 0));
    while i < |rx|
      invariant i == ROW * n
      invariant DumpFrom(rx, 0) == Prefixed(rows, DumpFrom(rx, n))
    {
      var chunk := if i + ROW <= |rx| then rx[i..i + ROW] else rx[i..];
      PrefixStep(rows, (i, chunk), DumpFrom(rx, n));
      if i != 0 && Constant(rx[i..]) {
        return Listing(rows, Some((rx[i], |rx| - 1)));
      }
      PrefixStep(rows, (i, chunk), DumpFrom(rx, n + 1));
      rows := rows + [(i, chunk)];
      i := i + ROW;
      n := n + 1;
    }
    PrefixStep(rows, (0, []), DumpFrom(rx, n));
    out := Listing(rows, None);
  }

  //////////////////////////////////////////////////////////////////////////////
  // Nothing is lost
  //////////////////////////////////////////////////////////////////////////////

  function RowBytes(rows: seq<(nat, seq<byte>)>): seq<byte> {
    if rows == [] then [] else rows[0].1 + RowBytes(rows[1..])
  }

  /** Read a listing back: the rows in order, then the filler up to the last index. */
  function Reconstruct(l: Listing): seq<byte> {
    var s := RowBytes(l.rows);
    match l.tail
    case None => s
    case Some(t) => s + Repeat(t.0, if t.1 + 1 >= |s| then t.1 + 1 - |s| else 0)
  }

  lemma ConstantIsRepeat(s: seq<byte>)
    requires Constant(s)
    ensures s == Repeat(s[0], |s|)
  {
  }

  /** The rows from row n on hold the bytes up to the tail, and the tail the rest. */
  predicate Covers(l: Listing, s: seq<byte>, last: int) {
    match l.tail
    case None => RowBytes(l.rows) == s
    case Some(t) => |RowBytes(l.rows)| <= |s| && t.1 == last
                    && s == RowBytes(l.rows) + Repeat(t.0, |s| - |RowBytes(l.rows)|)
  }

  lemma CoversStep(row: (nat, seq<byte>), l: Listing, s: seq<byte>, last: int)
    requires Covers(l, s, last)
    ensures Covers(Listing([row] + l.rows, l.tail), row.1 + s, last)
  {
    assert ([row] + l.rows)[1..] == l.rows;
    var b := RowBytes(l.rows);
    assert RowBytes([row] + l.rows) == row.1 + b;
    if l.tail.Some? {
      var r := Repeat(l.tail.value.0, |s| - |b|);
      assert row.1 + (b + r) == row.1 + b + r;
    }
  }

  lemma {:induction false} RowsCover(rx: seq<byte>, n: nat)
    requires ROW * n <= |rx|
    ensures Covers(DumpFrom(rx, n), rx[ROW * n..], |rx| - 1)
    decreases |rx| - ROW * n
  {
    hide Constant;
    var i := ROW * n;
    var s := rx[i..];
    if i < |rx| {
      if CollapsesAt(rx, n) {
        ConstantIsRepeat(s);
        assert RowBytes([]) == [] && s == [] + Repeat(rx[i], |s|);
      } else if i + ROW <= |rx| {
        RowsCover(rx, n + 1);
        CoversStep((i, Chunk(rx, n)), DumpFrom(rx, n + 1), rx[i + ROW..], |rx| - 1);
        assert s == Chunk(rx, n) + rx[i + ROW..];
      } else {
        CoversStep((i, Chunk(rx, n)), Listing([], None), [], |rx| - 1);
        assert s == Chunk(rx, n) + [];
      }
    }
  }

  /** Any buffer is reconstructed exactly from its listing. */
  lemma DumpIsLossless(rx: seq<byte>)
    ensures Reconstruct(DumpFrom(rx, 0)) == rx
  {
    hide DumpFrom, RowBytes;
    RowsCover(rx, 0);
    assert rx[0..] == rx;
  }

  lemma {:induction false} CollapseFrom(rx: seq<byte>, n: nat)
    ensures var l := DumpFrom(rx, n);
            && (l.tail.Some? ==> CollapsesAt(rx, n + |l.rows|) && l.tail.value == (rx[ROW * (n + |l.rows|)], |rx| - 1))
            && (l.tail.None? ==> ROW * (n + |l.rows|) >= |rx|)
            && (forall k: nat :: n <= k < n + |l.rows| ==> !CollapsesAt(rx, k))
    decreases |rx| - ROW * n
  {
    hide Constant, Chunk;
    if ROW * n < |rx| && !CollapsesAt(rx, n) {
      CollapseFrom(rx, n + 1);
      assert |DumpFrom(rx, n).rows| == 1 + |DumpFrom(rx, n + 1).rows|;
    }
  }

  /** From row n on, which is not the first, there are bytes, and all of them are equal. */
  lemma CollapseMeans(rx: seq<byte>, n: nat)
    ensures CollapsesAt(rx, n) <==>
            0 < 16 * n < |rx| && forall j, k :: 16 * n <= j < |rx| && 16 * n <= k < |rx| ==> rx[j] == rx[k]
  {
    var i := 16 * n;
    if 0 < i < |rx| {
      var s := rx[i..];
      assert forall k :: 0 <= k < |s| ==> s[k] == rx[i + k];
      if forall j, k :: i <= j < |rx| && i <= k < |rx| ==> rx[j] == rx[k] {
        assert Constant(s);
      }
      if Constant(s) {
        forall j, k | i <= j < |rx| && i <= k < |rx|
          ensures rx[j] == rx[k]
        {
          assert s[j - i] == s[0] && s[k - i] == s[0];
        }
      }
    }
  }

  /** The tail collapses at the first row but row 0 from which the buffer is constant, and not at all if
      there is none. */
  lemma CollapsePoint(rx: seq<byte>)
    ensures var l := DumpFrom(rx, 0);
            && (l.tail.Some? <==> exists n :: CollapsesAt(rx, n))
            && (l.tail.Some? ==> CollapsesAt(rx, |l.rows|) && l.tail.value == (rx[ROW * |l.rows|], |rx| - 1)
                                 && forall n :: CollapsesAt(rx, n) ==> |l.rows| <= n)
  {
    hide DumpFrom;
    CollapseFrom(rx, 0);
    var l := DumpFrom(rx, 0);
    forall n: nat | CollapsesAt(rx, n)
      ensures l.tail.Some? && |l.rows| <= n
    {
      assert !(0 <= n < 0 + |l.rows|);
    }
  }

  /** Row k is printed with its offset 16 * k and holds the bytes from there on, sixteen of them unless the buffer
      ends before. */
  lemma {:induction false} RowsExact(rx: seq<byte>, n: nat, k: nat)
    requires k < |DumpFrom(rx, n).rows|
    ensures var (offset, bytes) := DumpFrom(rx, n).rows[k];
            && offset == 16 * (n + k) < |rx|
            && |bytes| == (if offset + 16 <= |rx| then 16 else |rx| - offset)
            && forall j :: 0 <= j < |bytes| ==> bytes[j] == rx[offset + j]
    decreases |rx| - ROW * n
  {
    hide CollapsesAt;
    if k > 0 {
      RowsExact(rx, n + 1, k - 1);
      assert DumpFrom(rx, n).rows[k] == DumpFrom(rx, n + 1).rows[k - 1];
    }
  }
}
