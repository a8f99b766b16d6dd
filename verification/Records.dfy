/** `find_records` of tools/extract_firmware.py: every occurrence of a length-prefixed name in a blob. */
module Records {
  import opened Bytes

  predicate MatchAt(blob: seq<byte>, marker: seq<byte>, i: nat) {
    i + |marker| <= |blob| && blob[i..i + |marker|] == marker
  }

  /** blob.find(marker, at): the first occurrence at or after `at`, or -1. */
  method Find(blob: seq<byte>, marker: seq<byte>, at: nat) returns (r: int)
    requires marker != []
    ensures r == -1 || (at <= r && MatchAt(blob, marker, r))
    ensures forall k: nat :: at <= k && (r == -1 || k < r) ==> !MatchAt(blob, marker, k)
  {
    var i := at;
    while i + |marker| <= |blob|
      invariant at <= i
      invariant forall k: nat :: at <= k < i ==> !MatchAt(blob, marker, k)
      decreases |blob| - i
    {
      if blob[i..i + |marker|] == marker {
        return i;
      }
      i := i + 1;
    }
    r := -1;
  }

  /** A Python string: how many characters it has, and its UTF-8 encoding. */
  datatype Name = Name(chars: nat, encoded: seq<byte>)

  /** The marker of a name: the number of its characters in one byte, then its encoding. A name of more than
      255 characters has none. */
  function Marker(name: Name): Option<seq<byte>> {
    if name.chars > 255 then None else Some([name.chars] + name.encoded)
  }

  /** The ends of all occurrences at or after i, in order. */
  function Ends(blob: seq<byte>, marker: seq<byte>, i: nat): (r: seq<nat>)
    decreases |blob| - i
  {
    if i >= |blob| then []
    else (if MatchAt(blob, marker, i) then [i + |marker|] else []) + Ends(blob, marker, i + 1)
  }

  lemma {:induction false} EndsSkip(blob: seq<byte>, marker: seq<byte>, i: nat, j: nat)
    requires i <= j && forall k: nat :: i <= k < j ==> !MatchAt(blob, marker, k)
    ensures Ends(blob, marker, i) == Ends(blob, marker, j)
    decreases j - i
  {
    hide MatchAt;
    if i < j {
      EndsSkip(blob, marker, i + 1, j);
    }
  }

  /** None when the name is too long for its length byte. */
  method FindRecords(blob: seq<byte>, name: Name) returns (hits: Option<seq<nat>>)
    ensures hits == if Marker(name).None? then None else Some(Ends(blob, Marker(name).value, 0))
  {
    hide MatchAt;
    if name.chars > 255 {
      return None;
    }
    var marker := [name.chars] + name.encoded;
    var found: seq<nat> := [];
    var at := 0;
    while true
      invariant at <= |blob|
      invariant Ends(blob, marker, 0) == found + Ends(blob, marker, at)
      decreases |blob| - at
    {
      var r := Find(blob, marker, at);
      if r < 0 {
        EndsSkip(blob, marker, at, |blob|);
        assert found + [] == found;
        return Some(found);
      }
      EndsSkip(blob, marker, at, r);
      MatchInside(blob, marker, r);
      ghost var rest := Ends(blob, marker, r + 1);
      assert found + ([r + |marker|] + rest) == found + [r + |marker|] + rest;
      found := found + [r + |marker|];
      at := r + 1;
    }
  }

  lemma MatchInside(blob: seq<byte>, marker: seq<byte>, i: nat)
    requires marker != [] && MatchAt(blob, marker, i)
    ensures i < |blob|
  {
  }

  /** The hits are exactly the ends of all occurrences, overlapping ones included. */
  lemma {:induction false} EndsExact(blob: seq<byte>, marker: seq<byte>, i: nat, e: nat)
    requires marker != []
    ensures e in Ends(blob, marker, i) <==> e >= i + |marker| && MatchAt(blob, marker, e - |marker|)
    decreases |blob| - i
  {
    hide MatchAt;
    if i < |blob| {
      EndsExact(blob, marker, i + 1, e);
    } else if e >= i + |marker| && MatchAt(blob, marker, e - |marker|) {
      MatchInside(blob, marker, e - |marker|);
    }
  }

  lemma {:induction false} EndsAscend(blob: seq<byte>, marker: seq<byte>, i: nat)
    ensures forall k :: 0 <= k < |Ends(blob, marker, i)| ==> Ends(blob, marker, i)[k] >= i + |marker|
    ensures forall j, k :: 0 <= j < k < |Ends(blob, marker, i)| ==> Ends(blob, marker, i)[j] < Ends(blob, marker, i)[k]
    decreases |blob| - i
  {
    hide MatchAt;
    if i < |blob| {
      EndsAscend(blob, marker, i + 1);
    }
  }

  /** The record format of docs/PROTOCOL.md: length in bytes, name, image. */
  function Record(name: seq<byte>, image: seq<byte>): seq<byte>
    requires |name| <= 255
  {
    [|name|] + name + image
  }

  /** A record placed anywhere in a file is found, with the offset of its image, if and only if its name has
      as many characters as bytes: the record counts bytes and the search counts characters. */
  lemma RecordFound(before: seq<byte>, name: Name, image: seq<byte>, after: seq<byte>)
    requires name.chars <= |name.encoded| <= 255
    ensures var blob := before + Record(name.encoded, image) + after;
            var at := |before| + 1 + |name.encoded|;
            && (at in Ends(blob, Marker(name).value, 0) <==> name.chars == |name.encoded|)
            && blob[at..at + |image|] == image
  {
    var blob := before + Record(name.encoded, image) + after;
    var marker := Marker(name).value;
    var here := blob[|before|..|before| + |marker|];
    assert here == [|name.encoded|] + name.encoded;
    assert here[0] == |name.encoded| && marker[0] == name.chars;
    EndsExact(blob, marker, 0, |before| + |marker|);
  }
}
