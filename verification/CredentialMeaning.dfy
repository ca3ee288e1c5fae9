/** Which bytes the credential reader takes, without its own tests: text in UTF-8 behind its length in
    decimal digits. */
module CredentialMeaning {
  import opened Results
  import opened Bytes
  import opened Credential
  import Decimal

  // ----- UTF-8 as an encoding (section 3 of RFC 3629) -----

  /** A Unicode scalar value. */
  type Scalar = u: bv32 | u <= 0x10FFFF && !(0xD800 <= u <= 0xDFFF)

  /** The bits of the value behind the marks of the lead and continuation bytes. */
  function EncodeScalar(u: Scalar): seq<Byte> {
    if u <= 0x7F then [ToByte(u)]
    else if u <= 0x7FF then [LeadOfTwo(u), Continuation(u)]
    else if u <= 0xFFFF then [LeadOfThree(u), Continuation(u >> 6), Continuation(u)]
    else [LeadOfFour(u), Continuation(u >> 12), Continuation(u >> 6), Continuation(u)]
  }

  /** The six lowest bits. */
  function Continuation(bits: bv32): Byte {
    ToByte(0x80 | (bits & 0x3F))
  }

  function LeadOfTwo(u: bv32): Byte
    requires u <= 0x7FF
  {
    ToByte(0xC0 | (u >> 6))
  }

  function LeadOfThree(u: bv32): Byte
    requires u <= 0xFFFF
  {
    ToByte(0xE0 | (u >> 12))
  }

  function LeadOfFour(u: bv32): Byte
    requires u <= 0x10FFFF
  {
    ToByte(0xF0 | (u >> 18))
  }

  function ToByte(bits: bv32): (b: Byte)
    requires bits <= 0xFF
    ensures b as bv32 == bits
  {
    bits as Byte
  }

  function EncodeText(text: seq<Scalar>): seq<Byte> {
    if text == [] then [] else EncodeScalar(text[0]) + EncodeText(text[1..])
  }

  lemma OneByte(a: Byte)
    requires a <= 0x7F
    ensures EncodeScalar(a as bv32) == [a]
  {
  }

  lemma TwoBytes(a: Byte, b: Byte) returns (u: Scalar)
    requires 0xC2 <= a <= 0xDF && 0x80 <= b <= 0xBF
    ensures EncodeScalar(u) == [a, b]
  {
    u := ((a as bv32 & 0x1F) << 6) | (b as bv32 & 0x3F);
  }

  predicate StartsThree(a: Byte, b: Byte) {
    (a == 0xE0 && 0xA0 <= b <= 0xBF) || ((0xE1 <= a <= 0xEC || 0xEE <= a <= 0xEF) && 0x80 <= b <= 0xBF)
    || (a == 0xED && 0x80 <= b <= 0x9F)
  }

  predicate StartsFour(a: Byte, b: Byte) {
    (a == 0xF0 && 0x90 <= b <= 0xBF) || (0xF1 <= a <= 0xF3 && 0x80 <= b <= 0xBF) || (a == 0xF4 && 0x80 <= b <= 0x8F)
  }

  function OfThree(a: Byte, b: Byte, c: Byte): bv32 {
    ((a as bv32 & 0x0F) << 12) | ((b as bv32 & 0x3F) << 6) | (c as bv32 & 0x3F)
  }

  function OfFour(a: Byte, b: Byte, c: Byte, d: Byte): bv32 {
    ((a as bv32 & 0x07) << 18) | ((b as bv32 & 0x3F) << 12) | ((c as bv32 & 0x3F) << 6) | (d as bv32 & 0x3F)
  }

  lemma RangeOfThree(a: Byte, b: Byte, c: Byte)
    requires StartsThree(a, b) && 0x80 <= c <= 0xBF
    ensures 0x7FF < OfThree(a, b, c) <= 0xFFFF && !(0xD800 <= OfThree(a, b, c) <= 0xDFFF)
  {
  }

  lemma BackOfThree(a: Byte, b: Byte, c: Byte, u: bv32)
    requires StartsThree(a, b) && 0x80 <= c <= 0xBF && u == OfThree(a, b, c) && u <= 0xFFFF
    ensures LeadOfThree(u) == a && Continuation(u >> 6) == b && Continuation(u) == c
  {
  }

  lemma RangeOfFour(a: Byte, b: Byte, c: Byte, d: Byte)
    requires StartsFour(a, b) && 0x80 <= c <= 0xBF && 0x80 <= d <= 0xBF
    ensures 0xFFFF < OfFour(a, b, c, d) <= 0x10FFFF
  {
  }

  lemma BackOfFour(a: Byte, b: Byte, c: Byte, d: Byte, u: bv32)
    requires StartsFour(a, b) && 0x80 <= c <= 0xBF && 0x80 <= d <= 0xBF && u == OfFour(a, b, c, d) && u <= 0x10FFFF
    ensures LeadOfFour(u) == a && Continuation(u >> 12) == b
    ensures Continuation(u >> 6) == c && Continuation(u) == d
  {
  }

  lemma EncodesThree(u: Scalar, a: Byte, b: Byte, c: Byte)
    requires 0x7FF < u <= 0xFFFF && LeadOfThree(u) == a && Continuation(u >> 6) == b && Continuation(u) == c
    ensures EncodeScalar(u) == [a, b, c]
  {
  }

  lemma EncodesFour(u: Scalar, a: Byte, b: Byte, c: Byte, d: Byte)
    requires 0xFFFF < u && LeadOfFour(u) == a && Continuation(u >> 12) == b
    requires Continuation(u >> 6) == c && Continuation(u) == d
    ensures EncodeScalar(u) == [a, b, c, d]
  {
  }

  lemma ThreeBytes(a: Byte, b: Byte, c: Byte) returns (u: Scalar)
    requires StartsThree(a, b) && 0x80 <= c <= 0xBF
    ensures EncodeScalar(u) == [a, b, c]
  {
    RangeOfThree(a, b, c);
    u := OfThree(a, b, c);
    BackOfThree(a, b, c, u);
    EncodesThree(u, a, b, c);
  }

  lemma FourBytes(a: Byte, b: Byte, c: Byte, d: Byte) returns (u: Scalar)
    requires StartsFour(a, b) && 0x80 <= c <= 0xBF && 0x80 <= d <= 0xBF
    ensures EncodeScalar(u) == [a, b, c, d]
  {
    RangeOfFour(a, b, c, d);
    u := OfFour(a, b, c, d);
    BackOfFour(a, b, c, d, u);
    EncodesFour(u, a, b, c, d);
  }

  lemma SequenceIsScalar(s: seq<Byte>) returns (u: Scalar)
    requires s != [] && SequenceLength(s) > 0
    ensures EncodeScalar(u) == s[..SequenceLength(s)]
  {
    var n := SequenceLength(s);
    if n == 1 {
      u := s[0] as bv32;
      OneByte(s[0]);
      assert s[..1] == [s[0]];
    } else if n == 2 {
      u := TwoBytes(s[0], s[1]);
      assert s[..2] == [s[0], s[1]];
    } else if n == 3 {
      u := ThreeBytes(s[0], s[1], s[2]);
      assert s[..3] == [s[0], s[1], s[2]];
    } else {
      u := FourBytes(s[0], s[1], s[2], s[3]);
      assert s[..4] == [s[0], s[1], s[2], s[3]];
    }
  }

  lemma ScalarIsSequence(u: Scalar, rest: seq<Byte>)
    ensures EncodeScalar(u) != [] && SequenceLength(EncodeScalar(u) + rest) == |EncodeScalar(u)|
  {
    var e := EncodeScalar(u);
    var s := e + rest;
    assert forall i :: 0 <= i < |e| ==> s[i] == e[i];
  }

  /** Bytes are accepted as text exactly when they are the encoding of some text. */
  lemma {:induction false} Utf8Decodes(s: seq<Byte>) returns (text: seq<Scalar>)
    requires IsUtf8(s)
    ensures EncodeText(text) == s
    decreases |s|
  {
    if s == [] {
      text := [];
    } else {
      var n := SequenceLength(s);
      var u := SequenceIsScalar(s);
      var more := Utf8Decodes(s[n..]);
      text := [u] + more;
      assert text[1..] == more && s == s[..n] + s[n..];
    }
  }

  lemma {:induction false} TextIsUtf8(text: seq<Scalar>)
    ensures IsUtf8(EncodeText(text))
  {
    if text != [] {
      var e, rest := EncodeScalar(text[0]), EncodeText(text[1..]);
      TextIsUtf8(text[1..]);
      ScalarIsSequence(text[0], rest);
      assert (e + rest)[|e|..] == rest;
    }
  }

  ghost predicate IsText(s: seq<Byte>) {
    exists text :: EncodeText(text) == s
  }

  lemma Utf8IsExact(s: seq<Byte>)
    ensures IsUtf8(s) <==> IsText(s)
  {
    if IsUtf8(s) {
      var text := Utf8Decodes(s);
    }
    if text :| EncodeText(text) == s {
      TextIsUtf8(text);
    }
  }

  // ----- the frame -----

  /** The byte of an ASCII digit. */
  lemma DigitsAreAscii(d: Decimal.Digit)
    ensures ByteOfDigit(d) as int == '0' as int + d
  {
  }

  /** The decimal digits of `n` in ASCII, most significant first and without leading zeros. */
  ghost predicate IsDecimalText(digits: seq<Byte>, n: nat) {
    exists ds: seq<Decimal.Digit> ::
      && |ds| == |digits| > 0 && (|ds| > 1 ==> ds[0] != 0) && Decimal.Value(ds) == n
      && forall i :: 0 <= i < |ds| ==> digits[i] as int == '0' as int + ds[i]
  }

  lemma LengthIsDecimalText(n: nat)
    ensures IsDecimalText(PrintDigits(Decimal.Digits(n)), n)
  {
    var ds := Decimal.Digits(n);
    Decimal.ValueOfDigits(n);
    forall i | 0 <= i < |ds| ensures PrintDigits(ds)[i] as int == '0' as int + ds[i] {
      DigitsAreAscii(ds[i]);
    }
  }

  /** The accepted streams are exactly: the length of a text of 1 to 16384 bytes, a colon, the text
      in UTF-8, and a comma. */
  lemma CredentialsExactly(data: seq<Byte>, payload: seq<Byte>)
    ensures ReadFrame(data) == Ok(payload)
       <==> && 1 <= |payload| <= 16384 && IsText(payload)
            && exists digits :: IsDecimalText(digits, |payload|) && data == digits + [58] + payload + [44]
  {
    ReadFrameIsExact(data, payload);
    Utf8IsExact(payload);
    LengthIsDecimalText(|payload|);
    forall digits | IsDecimalText(digits, |payload|) ensures digits == PrintDigits(Decimal.Digits(|payload|)) {
      DecimalTextIsUnique(digits, |payload|);
    }
  }

  lemma DecimalTextIsUnique(digits: seq<Byte>, n: nat)
    requires IsDecimalText(digits, n)
    ensures digits == PrintDigits(Decimal.Digits(n))
  {
    var ds: seq<Decimal.Digit> :|
      && |ds| == |digits| > 0 && (|ds| > 1 ==> ds[0] != 0) && Decimal.Value(ds) == n
      && forall i :: 0 <= i < |ds| ==> digits[i] as int == '0' as int + ds[i];
    Decimal.DigitsOfValue(ds);
    var printed := PrintDigits(ds);
    forall i | 0 <= i < |ds| ensures digits[i] == printed[i] {
      DigitsAreAscii(ds[i]);
      assert printed[i] == ByteOfDigit(ds[i]);
      SameCode(digits[i], printed[i]);
    }
  }

  lemma SameCode(a: Byte, b: Byte)
    requires a as int == b as int
    ensures a == b
  {
    assert a as int as Byte == a && b as int as Byte == b;
  }

  // ----- what a refusal tells -----

  predicate AsciiDigits(s: seq<Byte>) {
    forall i :: 0 <= i < |s| ==> '0' as int <= s[i] as int <= '9' as int
  }

  lemma DigitBytesAreAscii(b: Byte)
    ensures IsDigitByte(b) <==> '0' as int <= b as int <= '9' as int
  {
    if IsDigitByte(b) {
      DigitByteExact(b);
      DigitsAreAscii(DigitOfByte(b));
    }
  }

  lemma AsciiDigitsAreDigits(s: seq<Byte>)
    ensures AllDigitBytes(s) <==> AsciiDigits(s)
  {
    forall i | 0 <= i < |s| ensures IsDigitByte(s[i]) <==> '0' as int <= s[i] as int <= '9' as int {
      DigitBytesAreAscii(s[i]);
    }
  }

  /** Behind a length of one to five digits without leading zeros, what is wrong is told in this order:
      no bytes announced, too many, too few sent, no comma, more behind it, no text. */
  lemma FramesAreTold(digits: seq<Byte>, n: nat, rest: seq<Byte>)
    requires IsDecimalText(digits, n) && |digits| <= 5
    ensures
      ReadFrame(digits + [58] + rest)
        == if n == 0 then Err(Empty)
           else if n > 16384 then Err(TooLarge)
           else if |rest| < n then Err(Truncated)
           else if |rest| == n || rest[n] != 44 then Err(MissingTerminator)
           else if |rest| > n + 1 then Err(TrailingData)
           else if !IsText(rest[..n]) then Err(InvalidUtf8)
           else Ok(rest[..n])
  {
    DecimalTextIsUnique(digits, n);
    PrefixOfDigits(digits, rest, []);
    assert [] + digits == digits;
    Decimal.ValueOfDigits(n);
    var ds := Decimal.Digits(n);
    if |digits| > 1 {
      DigitByteExact(digits[0]);
      assert ReadDigits(digits)[0] == DigitOfByte(digits[0]) && ds[0] != 0;
    }
    if 0 < n <= |rest| {
      Utf8IsExact(rest[..n]);
    }
  }

  lemma {:induction false} PrefixRuns(digits: seq<Byte>, rest: seq<Byte>, before: seq<Byte>)
    requires AllDigitBytes(digits) && |before| + |digits| <= 5
    ensures ReadPrefix(digits + rest, before) == ReadPrefix(rest, before + digits)
    decreases |digits|
  {
    if digits == [] {
      assert digits + rest == rest && before + digits == before;
    } else {
      PrefixRuns(digits[1..], rest, before + [digits[0]]);
      assert (digits + rest)[1..] == digits[1..] + rest && before + [digits[0]] + digits[1..] == before + digits;
    }
  }

  /** A stream that ends among the digits is cut off; one that goes on with anything else than a colon
      behind one to five digits, or with a colon behind a leading zero, has no length. */
  lemma LengthsAreTold(digits: seq<Byte>, next: Byte, rest: seq<Byte>)
    requires AsciiDigits(digits) && |digits| <= 5
    ensures ReadFrame(digits) == Err(Truncated)
    ensures next != 58 && !AsciiDigits([next]) ==> ReadFrame(digits + ([next] + rest)) == Err(InvalidLengthPrefix)
    ensures |digits| == 5 && AsciiDigits([next]) ==> ReadFrame(digits + ([next] + rest)) == Err(InvalidLengthPrefix)
    ensures next == 58 && (digits == [] || (|digits| > 1 && digits[0] as int == '0' as int)) ==>
              ReadFrame(digits + ([next] + rest)) == Err(InvalidLengthPrefix)
  {
    AsciiDigitsAreDigits(digits);
    AsciiDigitsAreDigits([next]);
    assert [next][0] == next && digits + [] == digits && [] + digits == digits;
    PrefixRuns(digits, [], []);
    PrefixRuns(digits, [next] + rest, []);
    assert ([next] + rest)[1..] == rest;
    if digits != [] && digits[0] as int == '0' as int {
      DigitsAreAscii(0);
      SameCode(digits[0], ByteOfDigit(0));
    }
  }
}
