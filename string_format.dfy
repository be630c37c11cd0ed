/** The string table that follows a structure's formatted area (section 6.1.3
    of DSP0134): each string is stored with a NUL terminator, and the table
    ends with one more NUL; a structure without strings carries two NULs. */
module StringTableFormat {
  import opened Bytes

  const NUL: u8 := 0

  /** A storable string: at least one byte and no NUL inside. */
  predicate ValidString(s: seq<u8>) {
    |s| > 0 && forall i :: 0 <= i < |s| ==> s[i] != NUL
  }

  predicate ValidStrings(ss: seq<seq<u8>>) {
    forall i :: 0 <= i < |ss| ==> ValidString(ss[i])
  }

  /** True when two NUL bytes stand next to each other somewhere in data. */
  predicate HasDoubleNul(data: seq<u8>) {
    exists i :: 0 <= i < |data| - 1 && data[i] == NUL && data[i + 1] == NUL
  }

  predicate StartsWith(data: seq<u8>, prefix: seq<u8>) {
    |prefix| <= |data| && data[..|prefix|] == prefix
  }

  /** The strings, each followed by its NUL terminator. */
  function Terminated(ss: seq<seq<u8>>): seq<u8> {
    if ss == [] then [] else ss[0] + [NUL] + Terminated(ss[1..])
  }

  /** The bytes of the string table holding ss. Its terminator is the first
      pair of adjacent NULs in it. */
  function Encode(ss: seq<seq<u8>>): (bs: seq<u8>)
    ensures |bs| >= 2 && bs[|bs| - 2] == NUL && bs[|bs| - 1] == NUL
  {
    if ss == [] then [NUL, NUL]
    else
      TerminatedShape(ss);
      Terminated(ss) + [NUL]
  }

  /** The double NUL that ends the table is the first one in it. */
  lemma EncodeTerminatorFirst(ss: seq<seq<u8>>)
    requires ValidStrings(ss)
    ensures !HasDoubleNul(Encode(ss)[..|Encode(ss)| - 1])
  {
    if ss != [] {
      TerminatedShape(ss);
      assert Encode(ss)[..|Encode(ss)| - 1] == Terminated(ss);
    }
  }

  /** The number of bytes the table needs: every string and its NUL, plus
      the final NUL; two bytes when there are no strings. */
  lemma {:induction false} EncodeSize(ss: seq<seq<u8>>)
    ensures |Terminated(ss)| == SizeOfStrings(ss) + |ss|
    ensures |Encode(ss)| == if ss == [] then 2 else SizeOfStrings(ss) + |ss| + 1
  {
    if ss != [] {
      EncodeSize(ss[1..]);
      assert SizeOfStrings(ss) == |ss[0]| + SizeOfStrings(ss[1..]);
    }
  }

  /** Total byte length of the strings, without terminators. */
  function SizeOfStrings(ss: seq<seq<u8>>): nat {
    if ss == [] then 0 else |ss[0]| + SizeOfStrings(ss[1..])
  }

  /** A non-empty list of valid strings ends its terminated form with a NUL,
      starts it with a non-NUL byte, and puts no two NULs side by side. */
  lemma {:induction false} TerminatedShape(ss: seq<seq<u8>>)
    requires ss != []
    ensures |Terminated(ss)| >= 1 && Terminated(ss)[|Terminated(ss)| - 1] == NUL
    ensures ValidStrings(ss) ==> |Terminated(ss)| >= 2 && Terminated(ss)[0] != NUL
    ensures ValidStrings(ss) ==> !HasDoubleNul(Terminated(ss))
  {
    var t := Terminated(ss);
    var head := ss[0] + [NUL];
    assert t == head + Terminated(ss[1..]);
    if ss[1..] != [] {
      TerminatedShape(ss[1..]);
    }
    if ValidStrings(ss) {
      assert ValidString(ss[0]);
      var rest := Terminated(ss[1..]);
      assert ValidStrings(ss[1..]) by {
        forall i | 0 <= i < |ss[1..]| ensures ValidString(ss[1..][i]) {
          assert ss[1..][i] == ss[i + 1];
        }
      }
      forall i | 0 <= i < |t| - 1 ensures !(t[i] == NUL && t[i + 1] == NUL) {
        if i + 1 < |ss[0]| {
          assert t[i] == ss[0][i];
        } else if i + 1 == |ss[0]| {
          assert t[i] == ss[0][i];
        } else if i == |ss[0]| {
          assert t[i + 1] == rest[0] == ss[1][0];
        } else {
          assert t[i] == rest[i - |head|] && t[i + 1] == rest[i + 1 - |head|];
        }
      }
    }
  }

  /** Appending one string to the list appends it and a NUL to the bytes. */
  lemma {:induction false} TerminatedSnoc(ss: seq<seq<u8>>, s: seq<u8>)
    ensures Terminated(ss + [s]) == Terminated(ss) + s + [NUL]
  {
    if ss == [] {
      assert [s][1..] == [];
    } else {
      assert (ss + [s])[0] == ss[0] && (ss + [s])[1..] == ss[1..] + [s];
      TerminatedSnoc(ss[1..], s);
    }
  }

  /** build_string_table skips one leading NUL when the byte after it is not
      a NUL; the table is read from this offset on. */
  function LeadingSkip(data: seq<u8>): (k: nat)
    ensures k <= |data|
  {
    if |data| >= 2 && data[0] == NUL && data[1] != NUL then 1 else 0
  }

  /** data, after any leading skip, begins with the table that holds ss. */
  predicate Decodes(data: seq<u8>, ss: seq<seq<u8>>) {
    ValidStrings(ss) && StartsWith(data[LeadingSkip(data)..], Encode(ss))
  }

  lemma StartsWithConcat(d: seq<u8>, p: seq<u8>, q: seq<u8>)
    requires StartsWith(d, p + q)
    ensures StartsWith(d, p) && StartsWith(d[|p|..], q)
  {
    assert d[..|p|] == (d[..|p + q|])[..|p|];
    assert d[|p|..][..|q|] == (d[..|p + q|])[|p|..];
  }

  /** Only the list without strings puts a NUL first. */
  lemma FirstByte(d: seq<u8>, a: seq<seq<u8>>)
    requires ValidStrings(a)
    requires StartsWith(d, Terminated(a) + [NUL])
    ensures |d| > 0 && (d[0] == NUL <==> a == [])
  {
    assert d[0] == (Terminated(a) + [NUL])[0];
    if a != [] {
      assert ValidString(a[0]);
      assert (Terminated(a) + [NUL])[0] == a[0][0];
    }
  }

  /** Two lists of valid strings, each followed by its terminated form and one
      NUL at the start of the same bytes, are the same list. */
  lemma {:induction false} TerminatedUnique(d: seq<u8>, a: seq<seq<u8>>, b: seq<seq<u8>>)
    requires ValidStrings(a) && ValidStrings(b)
    requires StartsWith(d, Terminated(a) + [NUL]) && StartsWith(d, Terminated(b) + [NUL])
    ensures a == b
  {
    FirstByte(d, a);
    FirstByte(d, b);
    if a != [] && b != [] {
      var x, y := a[0], b[0];
      assert ValidString(x) && ValidString(y);
      assert Terminated(a) + [NUL] == x + [NUL] + (Terminated(a[1..]) + [NUL]);
      assert Terminated(b) + [NUL] == y + [NUL] + (Terminated(b[1..]) + [NUL]);
      StartsWithConcat(d, x + [NUL], Terminated(a[1..]) + [NUL]);
      StartsWithConcat(d, x, [NUL]);
      StartsWithConcat(d, y + [NUL], Terminated(b[1..]) + [NUL]);
      StartsWithConcat(d, y, [NUL]);
      assert d[..|x|] == x && d[|x|] == NUL;
      assert d[..|y|] == y && d[|y|] == NUL;
      assert x == y;
      var d' := d[|x| + 1..];
      assert ValidStrings(a[1..]) by {
        forall i | 0 <= i < |a[1..]| ensures ValidString(a[1..][i]) { assert a[1..][i] == a[i + 1]; }
      }
      assert ValidStrings(b[1..]) by {
        forall i | 0 <= i < |b[1..]| ensures ValidString(b[1..][i]) { assert b[1..][i] == b[i + 1]; }
      }
      TerminatedUnique(d', a[1..], b[1..]);
      assert a == [x] + a[1..] && b == [y] + b[1..];
    }
  }

  /** The bytes determine the decoded list: at most one list Decodes them. */
  lemma DecodesUnique(data: seq<u8>, a: seq<seq<u8>>, b: seq<seq<u8>>)
    requires Decodes(data, a) && Decodes(data, b)
    ensures a == b
  {
    var d := data[LeadingSkip(data)..];
    if a == [] { assert Terminated(a) + [NUL] == [NUL]; }
    if b == [] { assert Terminated(b) + [NUL] == [NUL]; }
    TerminatedUnique(d, a, b);
  }

  /** The table holding valid strings, followed by anything, decodes to those
      strings, and it contains the double NUL that ends the scan. */
  lemma EncodeDecodes(ss: seq<seq<u8>>, rest: seq<u8>)
    requires ValidStrings(ss)
    ensures Decodes(Encode(ss) + rest, ss)
    ensures HasDoubleNul(Encode(ss) + rest)
  {
    var data := Encode(ss) + rest;
    var n := |Encode(ss)|;
    assert data[..n] == Encode(ss);
    assert data[n - 2] == NUL && data[n - 1] == NUL;
    if ss != [] {
      TerminatedShape(ss);
      assert data[0] == Terminated(ss)[0];
    }
    assert LeadingSkip(data) == 0;
    assert data[0..] == data;
  }

  /** Round trip: whatever list the bytes of a table holding ss decode to is ss. */
  lemma RoundTrip(ss: seq<seq<u8>>, rest: seq<u8>, r: seq<seq<u8>>)
    requires ValidStrings(ss)
    requires Decodes(Encode(ss) + rest, r)
    ensures r == ss
  {
    EncodeDecodes(ss, rest);
    DecodesUnique(Encode(ss) + rest, ss, r);
  }
}
