/** tools/pdata.py: the function table of a PE exception directory, and the lookup by bisection. */
module Pdata {
  import opened Bytes
  import opened Pe

  /** [start, end) of one function */
  type Func = (nat, nat)

  const ENTRY := 12

  predicate Contains(f: Func, rva: int) {
    f.0 <= rva < f.1
  }

  /** Python's order on pairs. */
  predicate Leq(a: Func, b: Func) {
    a.0 < b.0 || (a.0 == b.0 && a.1 <= b.1)
  }

  predicate Sorted(fs: seq<Func>) {
    forall j, k :: 0 <= j < k < |fs| ==> Leq(fs[j], fs[k])
  }

  //////////////////////////////////////////////////////////////////////////////
  // Building the table
  //////////////////////////////////////////////////////////////////////////////

  /** The entries from offset i on, all-zero ones left out; None if one runs past the end of the file. */
  function Entries(d: seq<byte>, i: nat, stop: nat): Option<seq<Func>>
    decreases stop - i
  {
    if i >= stop then Some([])
    else if i + ENTRY > |d| then None
    else
      var f := (UInt32(d, i), UInt32(d, i + 4));
      var rest := Entries(d, i + ENTRY, stop);
      if rest.None? then None
      else Some((if f == (0, 0) then [] else [f]) + rest.value)
  }

  /** One 12-byte entry of the section. */
  function EntryBytes(f: Func, unwind: nat): (s: seq<byte>)
    ensures |s| == ENTRY
  {
    Bytes32(f.0) + Bytes32(f.1) + Bytes32(unwind)
  }

  function TableBytes(fs: seq<(Func, nat)>): (s: seq<byte>)
    ensures |s| == ENTRY * |fs|
  {
    if fs == [] then [] else EntryBytes(fs[0].0, fs[0].1) + TableBytes(fs[1..])
  }

  function Functions(fs: seq<(Func, nat)>): seq<Func> {
    if fs == [] then []
    else (if fs[0].0 == (0, 0) then [] else [fs[0].0]) + Functions(fs[1..])
  }

  lemma EntryReadsBack(before: seq<byte>, f: Func, unwind: nat, rest: seq<byte>)
    requires f.0 < 0x1_0000_0000 && f.1 < 0x1_0000_0000
    ensures var d := before + EntryBytes(f, unwind) + rest;
            UInt32(d, |before|) == f.0 && UInt32(d, |before| + 4) == f.1
  {
    hide UInt32, Bytes32;
    var d := before + EntryBytes(f, unwind) + rest;
    assert d == before + Bytes32(f.0) + (Bytes32(f.1) + Bytes32(unwind) + rest);
    assert d == (before + Bytes32(f.0)) + Bytes32(f.1) + (Bytes32(unwind) + rest);
    UInt32OfBytes(before, f.0, Bytes32(f.1) + Bytes32(unwind) + rest);
    UInt32OfBytes(before + Bytes32(f.0), f.1, Bytes32(unwind) + rest);
  }

  /** A table written anywhere in a file, with any unwind words, reads back as its functions, the all-zero
      padding entries left out. */
  lemma {:induction false} EntriesOfTable(before: seq<byte>, fs: seq<(Func, nat)>, after: seq<byte>)
    requires forall k :: 0 <= k < |fs| ==> fs[k].0.0 < 0x1_0000_0000 && fs[k].0.1 < 0x1_0000_0000
    ensures Entries(before + TableBytes(fs) + after, |before|, |before| + ENTRY * |fs|) == Some(Functions(fs))
    decreases |fs|
  {
    hide UInt32, EntryBytes;
    if fs != [] {
      var (f, unwind) := fs[0];
      var rest := TableBytes(fs[1..]) + after;
      assert before + TableBytes(fs) + after == before + EntryBytes(f, unwind) + rest;
      assert before + EntryBytes(f, unwind) + rest == before + EntryBytes(f, unwind) + TableBytes(fs[1..]) + after;
      EntryReadsBack(before, f, unwind, rest);
      EntriesOfTable(before + EntryBytes(f, unwind), fs[1..], after);
    }
  }

  function Insert(f: Func, fs: seq<Func>): (r: seq<Func>)
    ensures |r| == |fs| + 1
  {
    if fs == [] || Leq(f, fs[0]) then [f] + fs else [fs[0]] + Insert(f, fs[1..])
  }

  /** list.sort() */
  function Sort(fs: seq<Func>): (r: seq<Func>)
    ensures |r| == |fs|
  {
    if fs == [] then [] else Insert(fs[0], Sort(fs[1..]))
  }

  lemma {:induction false} InsertSorts(f: Func, fs: seq<Func>)
    requires Sorted(fs)
    ensures Sorted(Insert(f, fs))
    ensures multiset(Insert(f, fs)) == multiset(fs) + multiset{f}
  {
    if fs == [] {
    } else if Leq(f, fs[0]) {
      assert forall k :: 0 <= k < |fs| ==> Leq(f, fs[k]);
    } else {
      InsertSorts(f, fs[1..]);
      var r := Insert(f, fs[1..]);
      assert fs == [fs[0]] + fs[1..];
      forall k | 0 <= k < |r|
        ensures Leq(fs[0], r[k])
      {
        assert r[k] in multiset(r);
        if r[k] != f {
          assert r[k] in multiset(fs[1..]);
          var j :| 0 <= j < |fs[1..]| && fs[1..][j] == r[k];
          assert fs[j + 1] == r[k];
        }
      }
    }
  }

  lemma {:induction false} SortSorts(fs: seq<Func>)
    ensures Sorted(Sort(fs)) && multiset(Sort(fs)) == multiset(fs)
  {
    if fs != [] {
      SortSorts(fs[1..]);
      InsertSorts(fs[0], Sort(fs[1..]));
      assert fs == [fs[0]] + fs[1..];
    }
  }

  /** The table of a file, sorted; a file without the section has none. None when reading it raises. */
  function FuncsOf(d: seq<byte>, secs: seq<Section>): Option<seq<Func>> {
    var pdata := FindSec(secs, ".pdata");
    if pdata.None? then Some([])
    else
      var s := pdata.value;
      var es := Entries(d, s.ra, s.ra + if s.vs <= s.rs then s.vs else s.rs);
      if es.None? then None else Some(Sort(es.value))
  }

  /** None when reading the section raises. */
  method Funcs(pe: PE) returns (r: Option<seq<Func>>)
    ensures r == FuncsOf(pe.d, pe.secs)
  {
    hide UInt32, FindSec;
    var d := pe.d;
    var pdata := pe.Sec(".pdata");
    if pdata.None? {
      return Some([]);
    }
    var s := pdata.value;
    var stop := s.ra + if s.vs <= s.rs then s.vs else s.rs;
    var out: seq<Func> := [];
    var i := s.ra;
    ghost var all := Entries(d, i, stop);
    assert all.Some? ==> out + all.value == all.value;
    while i < stop
      invariant all == Prepend(out, Entries(d, i, stop))
      decreases stop - i
    {
      if i + ENTRY > |d| {
        return None;
      }
      var f := (UInt32(d, i), UInt32(d, i + 4));
      PrependStep(out, f, Entries(d, i + ENTRY, stop));
      if f != (0, 0) {
        out := out + [f];
      }
      i := i + ENTRY;
    }
    assert out + [] == out;
    r := Some(Sort(out));
  }

  function Prepend(out: seq<Func>, rest: Option<seq<Func>>): Option<seq<Func>> {
    if rest.None? then None else Some(out + rest.value)
  }

  lemma PrependStep(out: seq<Func>, f: Func, rest: Option<seq<Func>>)
    ensures rest.Some? ==> out + ([f] + rest.value) == out + [f] + rest.value
    ensures rest.Some? ==> out + ([] + rest.value) == out + rest.value
  {
  }

  /** Reading raises exactly when the last entry begun, whole or not, runs past the end of the file. */
  lemma {:induction false} EntriesRaise(d: seq<byte>, i: nat, stop: nat)
    ensures Entries(d, i, stop).None? <==> i < stop && i + 12 * ((stop - i + 11) / 12) > |d|
    decreases stop - i
  {
    hide UInt32;
    if i < stop {
      RoundsUp(stop - i);
      if i + 12 < stop {
        EntriesRaise(d, i + 12, stop);
        RoundsUp(stop - i - 12);
        assert (stop - i + 11) / 12 == (stop - i - 12 + 11) / 12 + 1;
      }
    }
  }

  lemma RoundsUp(n: nat)
    requires n > 0
    ensures (n + 11) / 12 >= 1 && (n <= 12 ==> (n + 11) / 12 == 1)
  {
  }

  /** A table written at the raw offset of the first section of that name, wherever it is mapped, is what the file's
      functions are, sorted and without padding. */
  lemma {:induction false} FuncsOfTable(before: seq<byte>, fs: seq<(Func, nat)>, after: seq<byte>,
                                        secs: seq<Section>, k: nat)
    requires forall j :: 0 <= j < |fs| ==> fs[j].0.0 < 0x1_0000_0000 && fs[j].0.1 < 0x1_0000_0000
    requires k < |secs| && secs[k].name == ".pdata" && forall j :: 0 <= j < k ==> secs[j].name != ".pdata"
    requires secs[k].ra == |before|
    requires 12 * |fs| == if secs[k].vs <= secs[k].rs then secs[k].vs else secs[k].rs
    ensures var r := FuncsOf(before + TableBytes(fs) + after, secs);
            r.Some? && Sorted(r.value) && multiset(r.value) == multiset(Functions(fs))
  {
    hide Entries, Sort, Sorted, Functions, FindSec;
    FindSecAt(secs, ".pdata", k);
    EntriesOfTable(before, fs, after);
    SortSorts(Functions(fs));
  }

  /** Without the section there are no functions; with it, reading raises exactly when its last entry runs past the
      end of the file. */
  lemma FuncsRaise(d: seq<byte>, secs: seq<Section>)
    ensures (forall j :: 0 <= j < |secs| ==> secs[j].name != ".pdata") ==> FuncsOf(d, secs) == Some([])
    ensures FuncsOf(d, secs).None? <==>
            exists k :: && 0 <= k < |secs| && secs[k].name == ".pdata"
                        && (forall j :: 0 <= j < k ==> secs[j].name != ".pdata")
                        && EntriesOverrun(d, secs[k])
  {
    hide Entries, Sort, FindSec;
    FindSecExact(secs, ".pdata");
    forall k | 0 <= k < |secs| && secs[k].name == ".pdata" && forall j :: 0 <= j < k ==> secs[j].name != ".pdata"
      ensures FuncsOf(d, secs).None? <==> EntriesOverrun(d, secs[k])
    {
      FindSecAt(secs, ".pdata", k);
      EntriesRaise(d, secs[k].ra, secs[k].ra + if secs[k].vs <= secs[k].rs then secs[k].vs else secs[k].rs);
    }
  }

  predicate EntriesOverrun(d: seq<byte>, s: Section) {
    var size := if s.vs <= s.rs then s.vs else s.rs;
    size > 0 && s.ra + 12 * ((size + 11) / 12) > |d|
  }

  //////////////////////////////////////////////////////////////////////////////
  // Looking an address up
  //////////////////////////////////////////////////////////////////////////////

  datatype Verdict = NotFound | Inside(f: Func) | PastEnd(f: Func)

  /** bisect.bisect_right */
  method BisectRight(a: seq<nat>, x: int) returns (i: nat)
    requires forall j, k :: 0 <= j < k < |a| ==> a[j] <= a[k]
    ensures i <= |a|
    ensures forall k :: 0 <= k < i ==> a[k] <= x
    ensures forall k :: i <= k < |a| ==> a[k] > x
  {
    var lo, hi := 0, |a|;
    while lo < hi
      invariant 0 <= lo <= hi <= |a|
      invariant forall k :: 0 <= k < lo ==> a[k] <= x
      invariant forall k :: hi <= k < |a| ==> a[k] > x
    {
      var mid := (lo + hi) / 2;
      if x < a[mid] {
        hi := mid;
      } else {
        lo := mid + 1;
      }
    }
    i := lo;
  }

  /** What the printed answer must be, in terms of the table in any order: the greatest entry that starts
      at or below the address, and whether it still holds it. */
  ghost predicate IsAnswer(table: seq<Func>, rva: int, v: Verdict) {
    match v
    case NotFound => forall f :: f in table ==> f.0 > rva
    case Inside(g) => g in table && Contains(g, rva) && forall f :: f in table && f.0 <= rva ==> Leq(f, g)
    case PastEnd(g) => g in table && g.0 <= rva && g.1 <= rva && forall f :: f in table && f.0 <= rva ==> Leq(f, g)
  }

  lemma SameMembers(table: seq<Func>)
    ensures forall f :: f in table <==> f in Sort(table)
  {
    hide Sort;
    SortSorts(table);
    forall f
      ensures f in table <==> f in Sort(table)
    {
      assert f in multiset(table) <==> f in multiset(Sort(table));
    }
  }

  /** Splitting a sorted table at i. */
  lemma SplitAnswers(fs: seq<Func>, i: nat, rva: int)
    requires Sorted(fs) && i <= |fs|
    requires forall k :: 0 <= k < i ==> fs[k].0 <= rva
    requires forall k :: i <= k < |fs| ==> fs[k].0 > rva
    ensures IsAnswer(fs, rva, if i == 0 then NotFound
                              else if rva < fs[i - 1].1 then Inside(fs[i - 1]) else PastEnd(fs[i - 1]))
  {
    if i > 0 {
      forall f | f in fs && f.0 <= rva
        ensures Leq(f, fs[i - 1])
      {
        var k :| 0 <= k < |fs| && fs[k] == f;
        assert k < i;
        assert k < i - 1 ==> Leq(fs[k], fs[i - 1]);
      }
    }
  }

  lemma StartsSorted(fs: seq<Func>, starts: seq<nat>)
    requires Sorted(fs) && |starts| == |fs| && forall k :: 0 <= k < |fs| ==> starts[k] == fs[k].0
    ensures forall j, k :: 0 <= j < k < |starts| ==> starts[j] <= starts[k]
  {
    forall j, k | 0 <= j < k < |starts|
      ensures starts[j] <= starts[k]
    {
      assert Leq(fs[j], fs[k]);
    }
  }

  /** The body of the main loop, from a table in any order to the verdict. */
  method Lookup(table: seq<Func>, rva: int) returns (v: Verdict)
    ensures IsAnswer(table, rva, v)
  {
    hide Sort, Sorted, Leq;
    var fs := Sort(table);
    SortSorts(table);
    SameMembers(table);
    var starts := seq(|fs|, k requires 0 <= k < |fs| => fs[k].0);
    StartsSorted(fs, starts);
    var i := BisectRight(starts, rva);
    assert forall k :: 0 <= k < |fs| ==> fs[k].0 == starts[k];
    SplitAnswers(fs, i, rva);
    v := if i == 0 then NotFound else if rva < fs[i - 1].1 then Inside(fs[i - 1]) else PastEnd(fs[i - 1]);
  }

  /** From the file to the answer; None when reading the table raises. */
  method LookupInFile(pe: PE, rva: int) returns (v: Option<Verdict>)
    ensures v.None? <==> FuncsOf(pe.d, pe.secs).None?
    ensures v.Some? ==> IsAnswer(FuncsOf(pe.d, pe.secs).value, rva, v.value)
  {
    var fs := Funcs(pe);
    if fs.None? {
      return None;
    }
    var answer := Lookup(fs.value, rva);
    v := Some(answer);
  }

  /** For a file with a table written where its section says, that is the answer for the functions written. */
  lemma {:induction false} AnswerInFile(before: seq<byte>, fs: seq<(Func, nat)>, after: seq<byte>,
                                        secs: seq<Section>, k: nat, rva: int, v: Verdict)
    requires forall j :: 0 <= j < |fs| ==> fs[j].0.0 < 0x1_0000_0000 && fs[j].0.1 < 0x1_0000_0000
    requires k < |secs| && secs[k].name == ".pdata" && forall j :: 0 <= j < k ==> secs[j].name != ".pdata"
    requires secs[k].ra == |before|
    requires 12 * |fs| == if secs[k].vs <= secs[k].rs then secs[k].vs else secs[k].rs
    ensures var r := FuncsOf(before + TableBytes(fs) + after, secs);
            r.Some? && (IsAnswer(r.value, rva, v) <==> IsAnswer(Functions(fs), rva, v))
  {
    hide FuncsOf, Functions, Sorted;
    FuncsOfTable(before, fs, after, secs, k);
    var r, w := FuncsOf(before + TableBytes(fs) + after, secs).value, Functions(fs);
    forall f
      ensures f in r <==> f in w
    {
      assert f in multiset(r) <==> f in multiset(w);
    }
  }

  //////////////////////////////////////////////////////////////////////////////
  // Agreement with linear search
  //////////////////////////////////////////////////////////////////////////////

  /** Non-empty functions, no two of which share an address. */
  ghost predicate WellFormed(table: seq<Func>) {
    && (forall k :: 0 <= k < |table| ==> table[k].0 < table[k].1)
    && (forall j, k, x: int :: 0 <= j < k < |table| && Contains(table[j], x) ==> !Contains(table[k], x))
  }

  /** For a well-formed table in any order, "INSIDE" names the one function that contains the address,
      "past-end" means some start lies at or below it but no function contains it, and "not found" means
      every start lies above it. */
  lemma AnswerAgreesWithSearch(table: seq<Func>, rva: int, v: Verdict)
    requires WellFormed(table) && IsAnswer(table, rva, v)
    ensures v.NotFound? <==> forall k :: 0 <= k < |table| ==> table[k].0 > rva
    ensures v.Inside? <==> exists k :: 0 <= k < |table| && Contains(table[k], rva)
    ensures v.Inside? ==> exists k :: 0 <= k < |table| && table[k] == v.f && Contains(table[k], rva) &&
                            forall j :: 0 <= j < |table| && j != k ==> !Contains(table[j], rva)
    ensures v.PastEnd? <==> (exists k :: 0 <= k < |table| && table[k].0 <= rva) &&
                            forall k :: 0 <= k < |table| ==> !Contains(table[k], rva)
  {
    if v.NotFound? {
      forall k | 0 <= k < |table|
        ensures table[k].0 > rva
      {
        assert table[k] in table;
      }
    } else {
      var g: nat :| g < |table| && table[g] == v.f;
      forall k | 0 <= k < |table| && k != g
        ensures !Contains(table[k], rva)
      {
        if Contains(table[k], rva) {
          assert table[k] in table && Leq(table[k], v.f);
          assert Contains(table[k], table[g].0) && Contains(table[g], table[g].0);
        }
      }
    }
  }

  /** "INSIDE" is printed for exactly the addresses that some function contains. */
  ghost predicate FindsContained(table: seq<Func>) {
    forall rva: int, v :: IsAnswer(table, rva, v) ==> (v.Inside? <==> exists f :: f in table && Contains(f, rva))
  }

  /** f goes on past the end of g, which starts after it, and no entry after g takes over there. */
  ghost predicate Outlasts(table: seq<Func>, f: Func, g: Func) {
    && f in table && g in table && f.0 <= g.0 && Max(g.0, g.1) < f.1
    && forall h :: h in table && h.0 <= Max(g.0, g.1) ==> Leq(h, g)
  }

  /** For any table at all, whether the answers agree with linear search can be read off the table. */
  lemma SearchExact(table: seq<Func>)
    ensures FindsContained(table) <==> forall f, g :: !Outlasts(table, f, g)
  {
    hide IsAnswer, Outlasts;
    if forall f, g :: !Outlasts(table, f, g) {
      forall rva: int, v | IsAnswer(table, rva, v)
        ensures v.Inside? <==> exists f :: f in table && Contains(f, rva)
      {
        MissOutlasts(table, rva, v);
      }
    }
    if f, g :| Outlasts(table, f, g) {
      OutlastedIsMissed(table, f, g);
    }
  }

  lemma MissOutlasts(table: seq<Func>, rva: int, v: Verdict)
    requires IsAnswer(table, rva, v)
    ensures v.Inside? ==> exists f :: f in table && Contains(f, rva)
    ensures (exists f :: f in table && Contains(f, rva)) && !v.Inside? ==>
              v.PastEnd? && exists f :: Outlasts(table, f, v.f)
  {
    if f :| f in table && Contains(f, rva) && !v.Inside? {
      assert v.PastEnd? && Leq(f, v.f);
      assert Outlasts(table, f, v.f);
    }
  }

  lemma OutlastedIsMissed(table: seq<Func>, f: Func, g: Func)
    requires Outlasts(table, f, g)
    ensures var m := Max(g.0, g.1); f in table && Contains(f, m) && IsAnswer(table, m, PastEnd(g))
  {
  }

  /** With overlapping entries the lookup can answer "past-end" for an address some function contains. */
  lemma OverlapHidesFunction()
    ensures IsAnswer([(0, 100), (10, 20)], 50, PastEnd((10, 20))) && Contains((0, 100), 50)
    ensures Outlasts([(0, 100), (10, 20)], (0, 100), (10, 20))
  {
    var table: seq<Func> := [(0, 100), (10, 20)];
    assert table[0] in table && table[1] in table;
    assert forall h :: h in table ==> h in {table[0], table[1]};
  }

  /** The table and the address alone determine the answer, so the order of the table does not matter. */
  lemma AnswerUnique(table: seq<Func>, other: seq<Func>, rva: int, v: Verdict, w: Verdict)
    requires multiset(table) == multiset(other) && IsAnswer(table, rva, v) && IsAnswer(other, rva, w)
    ensures v == w
  {
    forall f
      ensures f in table <==> f in other
    {
      assert f in multiset(table) <==> f in multiset(other);
    }
    if !v.NotFound? && !w.NotFound? {
      assert Leq(v.f, w.f) && Leq(w.f, v.f);
    }
  }
}
