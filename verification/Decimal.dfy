/** Decimal notation, most significant digit first. */
module Decimal {
  type Digit = d: int | 0 <= d < 10

  function Power10(n: nat): (p: nat)
    ensures p > 0
  {
    if n == 0 then 1 else 10 * Power10(n - 1)
  }

  function Value(ds: seq<Digit>): nat {
    if ds == [] then 0 else 10 * Value(ds[..|ds| - 1]) + ds[|ds| - 1]
  }

  /** The digits of `n` without leading zeros; zero is the single digit 0. */
  function Digits(n: nat): (ds: seq<Digit>)
    ensures Canonical(ds)
  {
    if n < 10 then [n] else Digits(n / 10) + [n % 10]
  }

  predicate Canonical(ds: seq<Digit>) {
    ds != [] && (|ds| > 1 ==> ds[0] != 0)
  }

  lemma {:induction false} ValueOfDigits(n: nat)
    ensures Value(Digits(n)) == n
  {
    if n < 10 {
      assert [n][..0] == [];
    } else {
      ValueOfDigits(n / 10);
      assert Digits(n)[..|Digits(n)| - 1] == Digits(n / 10);
    }
  }

  /** Canonical notation is unique: it is the notation of its own value. */
  lemma {:induction false} DigitsOfValue(ds: seq<Digit>)
    requires Canonical(ds)
    ensures Digits(Value(ds)) == ds
  {
    var front, last := ds[..|ds| - 1], ds[|ds| - 1];
    assert ds == front + [last];
    if front == [] {
      assert Value(ds) == last;
    } else {
      assert front[0] == ds[0];
      DigitsOfValue(front);
      PositiveValue(front);
      OneMoreDigit(Value(front), last);
    }
  }

  lemma {:induction false} OneMoreDigit(n: nat, last: Digit)
    requires n > 0
    ensures Digits(10 * n + last) == Digits(n) + [last]
  {
    assert (10 * n + last) / 10 == n && (10 * n + last) % 10 == last;
  }

  lemma {:induction false} PositiveValue(ds: seq<Digit>)
    requires ds != [] && ds[0] != 0
    ensures Value(ds) >= Power10(|ds| - 1)
  {
    if |ds| > 1 {
      PositiveValue(ds[..|ds| - 1]);
    } else {
      assert ds[..0] == [];
    }
  }

  lemma {:induction false} ValueBound(ds: seq<Digit>)
    ensures Value(ds) < Power10(|ds|)
  {
    if ds != [] {
      ValueBound(ds[..|ds| - 1]);
    }
  }

  lemma {:induction false} ValueOfConcat(a: seq<Digit>, b: seq<Digit>)
    ensures Value(a + b) == Value(a) * Power10(|b|) + Value(b)
  {
    if b == [] {
      assert a + b == a;
    } else {
      var front, last := b[..|b| - 1], b[|b| - 1];
      ValueOfConcat(a, front);
      assert (a + b)[..|a + b| - 1] == a + front;
      assert Value(a) * (10 * Power10(|front|)) == 10 * (Value(a) * Power10(|front|));
    }
  }

  /** Dictionary order on digit strings of one length is the order of their values. */
  predicate Below(a: seq<Digit>, b: seq<Digit>) {
    if a == [] then b != []
    else b != [] && (a[0] < b[0] || (a[0] == b[0] && Below(a[1..], b[1..])))
  }

  lemma LeadingDigitDecides(x: nat, y: nat, p: nat, u: nat, v: nat)
    requires x < y && u < p
    ensures x * p + u < y * p + v
  {
    var k: nat := y - x - 1;
    assert y * p == (x + 1 + k) * p == x * p + p + k * p;
    assert k * p >= 0;
  }

  lemma ValueOfHead(ds: seq<Digit>)
    requires ds != []
    ensures Value(ds) == ds[0] * Power10(|ds| - 1) + Value(ds[1..])
  {
    ValueOfConcat([ds[0]], ds[1..]);
    assert ds == [ds[0]] + ds[1..];
    assert [ds[0]][..0] == [];
    assert Value([ds[0]]) == ds[0];
  }

  lemma {:induction false} BelowIsLess(a: seq<Digit>, b: seq<Digit>)
    requires |a| == |b|
    ensures Below(a, b) <==> Value(a) < Value(b)
  {
    if a != [] {
      BelowIsLess(a[1..], b[1..]);
      ValueOfHead(a);
      ValueOfHead(b);
      ValueBound(a[1..]);
      ValueBound(b[1..]);
      if a[0] < b[0] {
        LeadingDigitDecides(a[0], b[0], Power10(|a| - 1), Value(a[1..]), Value(b[1..]));
      } else if b[0] < a[0] {
        LeadingDigitDecides(b[0], a[0], Power10(|a| - 1), Value(b[1..]), Value(a[1..]));
      }
    }
  }

  // ----- as text -----

  predicate IsDigit(c: char) {
    '0' <= c <= '9'
  }

  function DigitOf(c: char): Digit
    requires IsDigit(c)
  {
    c as int - '0' as int
  }

  function DigitChar(d: Digit): (c: char)
    ensures IsDigit(c) && DigitOf(c) == d
  {
    (d + '0' as int) as char
  }

  predicate AllDigits(s: string) {
    forall i :: 0 <= i < |s| ==> IsDigit(s[i])
  }

  function Read(s: string): (ds: seq<Digit>)
    requires AllDigits(s)
    ensures |ds| == |s|
  {
    seq(|s|, i requires 0 <= i < |s| => DigitOf(s[i]))
  }

  function Print(ds: seq<Digit>): (s: string)
    ensures |s| == |ds| && AllDigits(s)
    ensures Read(s) == ds
  {
    seq(|ds|, i requires 0 <= i < |ds| => DigitChar(ds[i]))
  }

  function Text(n: nat): (s: string)
    ensures AllDigits(s) && Canonical(Read(s))
  {
    Print(Digits(n))
  }

  lemma PrintOfRead(s: string)
    requires AllDigits(s)
    ensures Print(Read(s)) == s
  {
    forall i | 0 <= i < |s| ensures Print(Read(s))[i] == s[i] {
      assert DigitOf(DigitChar(DigitOf(s[i]))) == DigitOf(s[i]);
    }
  }

  /** Reading what `Text` wrote gives the number back. */
  lemma ValueOfText(n: nat)
    ensures Value(Read(Text(n))) == n
  {
    ValueOfDigits(n);
  }

  /** Printing the value of a canonical digit string gives the string back. */
  lemma TextOfValue(s: string)
    requires AllDigits(s) && Canonical(Read(s))
    ensures Text(Value(Read(s))) == s
  {
    DigitsOfValue(Read(s));
    PrintOfRead(s);
  }
}
