/** Bytes and the few that frame records. */
module Bytes {
  type Byte = bv8

  const LF: Byte := 10
  const CR: Byte := 13

  /** The position of the first line feed, or the length if there is none. */
  function LineEnd(bytes: seq<Byte>): (n: nat)
    ensures n <= |bytes|
    ensures LF !in bytes[..n]
    ensures n < |bytes| ==> bytes[n] == LF
  {
    if bytes == [] || bytes[0] == LF then 0
    else
      var n := 1 + LineEnd(bytes[1..]);
      assert bytes[..n] == [bytes[0]] + bytes[1..][..n - 1];
      n
  }

  lemma {:induction false} LineEndOfConcat(a: seq<Byte>, b: seq<Byte>)
    ensures LF !in a ==> LineEnd(a + b) == |a| + LineEnd(b)
    ensures LF in a ==> LineEnd(a + b) == LineEnd(a)
  {
    if a == [] {
      assert a + b == b;
    } else {
      LineEndOfConcat(a[1..], b);
      assert (a + b)[1..] == a[1..] + b && (a + b)[0] == a[0];
      assert a == [a[0]] + a[1..];
    }
  }

  /** The concatenation of some chunks. */
  function Flatten<T>(chunks: seq<seq<T>>): seq<T> {
    if chunks == [] then [] else chunks[0] + Flatten(chunks[1..])
  }

  lemma {:induction false} FlattenConcat<T>(a: seq<seq<T>>, b: seq<seq<T>>)
    ensures Flatten(a + b) == Flatten(a) + Flatten(b)
  {
    if a == [] {
      assert a + b == b;
    } else {
      FlattenConcat(a[1..], b);
      assert (a + b)[1..] == a[1..] + b;
      assert Flatten(a + b) == a[0] + (Flatten(a[1..]) + Flatten(b));
    }
  }

  lemma FlattenSplit<T>(s: seq<seq<T>>, i: nat)
    requires i <= |s|
    ensures Flatten(s) == Flatten(s[..i]) + Flatten(s[i..])
  {
    assert s == s[..i] + s[i..];
    FlattenConcat(s[..i], s[i..]);
  }

  lemma FlattenLast<T>(chunks: seq<seq<T>>)
    requires chunks != []
    ensures Flatten(chunks) == Flatten(chunks[..|chunks| - 1]) + chunks[|chunks| - 1]
  {
    var last := chunks[|chunks| - 1];
    assert chunks == chunks[..|chunks| - 1] + [last];
    FlattenConcat(chunks[..|chunks| - 1], [last]);
    assert [last][1..] == [];
  }
}
