/** Three-way comparison and the order of Rust strings.

    Rust compares `str` values byte by byte; on valid UTF-8 that is the order of the
    Unicode scalar values, which is what `Compare` follows. */
module Text {
  datatype Ordering = Less | Equal | Greater {
    /** `self` unless it is `Equal`, in which case the next key decides. */
    function Then(next: Ordering): (r: Ordering)
      ensures r.Equal? <==> Equal? && next.Equal?
    {
      if Equal? then next else this
    }

    function Flip(): Ordering {
      match this
      case Less => Greater
      case Equal => Equal
      case Greater => Less
    }
  }

  function CompareInt(a: int, b: int): Ordering {
    if a < b then Less else if a == b then Equal else Greater
  }

  function Compare(a: string, b: string): (r: Ordering)
    ensures r.Equal? <==> a == b
  {
    if a == [] && b == [] then Equal
    else if a == [] then Less
    else if b == [] then Greater
    else if a[0] < b[0] then Less
    else if a[0] > b[0] then Greater
    else
      var r := Compare(a[1..], b[1..]);
      assert r.Equal? ==> a == [a[0]] + a[1..] && b == [b[0]] + b[1..];
      r
  }

  predicate AtMost(a: string, b: string) {
    !Compare(a, b).Greater?
  }

  /** Where the two first differ, `a` ends or has the smaller character. */
  ghost predicate Precedes(a: string, b: string) {
    exists k :: 0 <= k <= |a| && k < |b| && a[..k] == b[..k] && (k == |a| || a[k] < b[k])
  }

  lemma PrecedesTail(a: string, b: string)
    requires a != [] && b != [] && a[0] == b[0]
    ensures Precedes(a, b) <==> Precedes(a[1..], b[1..])
  {
    if k :| 0 <= k <= |a| && k < |b| && a[..k] == b[..k] && (k == |a| || a[k] < b[k]) {
      assert k > 0 && a[1..][..k - 1] == a[..k][1..] == b[1..][..k - 1];
    }
    var s, t := a[1..], b[1..];
    if k :| 0 <= k <= |s| && k < |t| && s[..k] == t[..k] && (k == |s| || s[k] < t[k]) {
      var n := k + 1;
      assert a[..n] == [a[0]] + s[..k] && b[..n] == [b[0]] + t[..k];
    }
  }

  /** The comparison goes by the first difference. */
  lemma {:induction false} LessIsPrecedes(a: string, b: string)
    ensures Compare(a, b).Less? <==> Precedes(a, b)
  {
    if a == [] {
      assert b != [] ==> a[..0] == b[..0];
    } else if b != [] {
      if a[0] == b[0] {
        LessIsPrecedes(a[1..], b[1..]);
        PrecedesTail(a, b);
      } else {
        assert a[..0] == b[..0];
        forall k | 0 < k <= |a| && k < |b| ensures a[..k] != b[..k] {
          assert a[..k][0] == a[0] && b[..k][0] == b[0];
        }
      }
    }
  }

  lemma AtMostIsPrecedes(a: string, b: string)
    ensures AtMost(a, b) <==> a == b || Precedes(a, b)
    ensures Compare(a, b).Greater? <==> Precedes(b, a)
  {
    LessIsPrecedes(a, b);
    LessIsPrecedes(b, a);
    CompareFlips(a, b);
  }

  lemma {:induction false} CompareFlips(a: string, b: string)
    ensures Compare(b, a) == Compare(a, b).Flip()
  {
    if a != [] && b != [] && a[0] == b[0] {
      CompareFlips(a[1..], b[1..]);
    }
  }

  /** The string order is transitive, and strict as soon as one of the two steps is. */
  lemma {:induction false} CompareTransitive(a: string, b: string, c: string)
    requires !Compare(a, b).Greater? && !Compare(b, c).Greater?
    ensures !Compare(a, c).Greater?
    ensures Compare(a, b).Less? || Compare(b, c).Less? ==> Compare(a, c).Less?
  {
    if a != [] && b != [] && c != [] && a[0] == b[0] == c[0] {
      CompareTransitive(a[1..], b[1..], c[1..]);
    }
  }

  /** ASCII letters without their case. */
  function LowerAscii(c: char): char {
    if 'A' <= c <= 'Z' then (c as int + 32) as char else c
  }

  function LowerAsciiText(s: string): (r: string)
    ensures |r| == |s| && forall i :: 0 <= i < |s| ==> r[i] == LowerAscii(s[i])
  {
    seq(|s|, i requires 0 <= i < |s| => LowerAscii(s[i]))
  }
}
