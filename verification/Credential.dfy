/** The one-shot credential reader: one canonical netstring, then end of stream
    (crates/ipc/src/credential.rs). */
module Credential {
  import opened Results
  import opened Bytes
  import Decimal

  const MAX_CREDENTIAL := 16 * 1024
  const MAX_LENGTH_DIGITS := 5
  const COLON: Byte := 58
  const COMMA: Byte := 44

  datatype Error =
    | Truncated
    | InvalidLengthPrefix
    | MissingTerminator
    | TrailingData
    | DeadlineElapsed
    | ReadFailed
    | Empty
    | TooLarge
    | InvalidUtf8

  // ----- UTF-8 (RFC 3629) -----

  predicate IsContinuation(b: Byte) {
    0x80 <= b <= 0xBF
  }

  /** The length of the well-formed sequence a text starts with, or 0. */
  function SequenceLength(s: seq<Byte>): (n: nat)
    requires s != []
    ensures n <= |s|
  {
    var lead := s[0];
    if lead <= 0x7F then 1
    else if 0xC2 <= lead <= 0xDF && |s| >= 2 && IsContinuation(s[1]) then 2
    else if |s| >= 3 && IsContinuation(s[2])
      && ((lead == 0xE0 && 0xA0 <= s[1] <= 0xBF)
          || ((0xE1 <= lead <= 0xEC || 0xEE <= lead <= 0xEF) && IsContinuation(s[1]))
          || (lead == 0xED && 0x80 <= s[1] <= 0x9F)) then 3
    else if |s| >= 4 && IsContinuation(s[2]) && IsContinuation(s[3])
      && ((lead == 0xF0 && 0x90 <= s[1] <= 0xBF)
          || (0xF1 <= lead <= 0xF3 && IsContinuation(s[1]))
          || (lead == 0xF4 && 0x80 <= s[1] <= 0x8F)) then 4
    else 0
  }

  predicate IsUtf8(s: seq<Byte>) {
    s == [] || (SequenceLength(s) > 0 && IsUtf8(s[SequenceLength(s)..]))
  }

  // ----- decimal digits as bytes -----

  predicate IsDigitByte(b: Byte) {
    48 <= b <= 57
  }

  function DigitOfByte(b: Byte): Decimal.Digit
    requires IsDigitByte(b)
  {
    if b == 48 then 0 else if b == 49 then 1 else if b == 50 then 2 else if b == 51 then 3 else if b == 52 then 4
    else if b == 53 then 5 else if b == 54 then 6 else if b == 55 then 7 else if b == 56 then 8 else 9
  }

  function ByteOfDigit(d: Decimal.Digit): (b: Byte)
    ensures IsDigitByte(b) && DigitOfByte(b) == d
  {
    if d == 0 then 48 else if d == 1 then 49 else if d == 2 then 50 else if d == 3 then 51 else if d == 4 then 52
    else if d == 5 then 53 else if d == 6 then 54 else if d == 7 then 55 else if d == 8 then 56 else 57
  }

  lemma DigitByteExact(b: Byte)
    requires IsDigitByte(b)
    ensures ByteOfDigit(DigitOfByte(b)) == b
  {
  }

  predicate AllDigitBytes(s: seq<Byte>) {
    forall i :: 0 <= i < |s| ==> IsDigitByte(s[i])
  }

  function ReadDigits(s: seq<Byte>): (ds: seq<Decimal.Digit>)
    requires AllDigitBytes(s)
    ensures |ds| == |s|
  {
    seq(|s|, i requires 0 <= i < |s| => DigitOfByte(s[i]))
  }

  function PrintDigits(ds: seq<Decimal.Digit>): (s: seq<Byte>)
    ensures |s| == |ds| && AllDigitBytes(s)
    ensures ReadDigits(s) == ds
  {
    seq(|ds|, i requires 0 <= i < |ds| => ByteOfDigit(ds[i]))
  }

  lemma PrintOfRead(s: seq<Byte>)
    requires AllDigitBytes(s)
    ensures PrintDigits(ReadDigits(s)) == s
  {
    forall i | 0 <= i < |s| ensures PrintDigits(ReadDigits(s))[i] == s[i] {
      DigitByteExact(s[i]);
    }
  }

  // ----- the frame as a function of the bytes sent -----

  datatype Prefix = Prefix(digits: seq<Byte>, rest: seq<Byte>)

  /** Digits up to the colon; `digits` were read already. */
  function ReadPrefix(data: seq<Byte>, digits: seq<Byte>): (r: Result<Prefix, Error>)
    decreases |data|
  {
    if data == [] then Err(Truncated)
    else if data[0] == COLON then
      if digits == [] then Err(InvalidLengthPrefix) else Ok(Prefix(digits, data[1..]))
    else if IsDigitByte(data[0]) && |digits| < MAX_LENGTH_DIGITS then ReadPrefix(data[1..], digits + [data[0]])
    else Err(InvalidLengthPrefix)
  }

  function LengthOf(digits: seq<Byte>): Result<nat, Error>
    requires AllDigitBytes(digits)
  {
    if |digits| > 1 && digits[0] == 48 then Err(InvalidLengthPrefix)
    else Ok(Decimal.Value(ReadDigits(digits)))
  }

  function ReadLength(data: seq<Byte>): (r: Result<(nat, seq<Byte>), Error>) {
    match ReadPrefix(data, [])
    case Err(e) => Err(e)
    case Ok(p) =>
      PrefixShape(data, []);
      match LengthOf(p.digits)
      case Err(e) => Err(e)
      case Ok(n) => Ok((n, p.rest))
  }

  function ReadFrame(data: seq<Byte>): Result<seq<Byte>, Error> {
    match ReadLength(data)
    case Err(e) => Err(e)
    case Ok((length, rest)) =>
      if length == 0 then Err(Empty)
      else if length > MAX_CREDENTIAL then Err(TooLarge)
      else if |rest| < length then Err(Truncated)
      else if |rest| == length || rest[length] != COMMA then Err(MissingTerminator)
      else if |rest| > length + 1 then Err(TrailingData)
      else if !IsUtf8(rest[..length]) then Err(InvalidUtf8)
      else Ok(rest[..length])
  }

  lemma {:induction false} PrefixShape(data: seq<Byte>, digits: seq<Byte>)
    requires AllDigitBytes(digits) && |digits| <= MAX_LENGTH_DIGITS
    ensures ReadPrefix(data, digits).Ok? ==>
              var p := ReadPrefix(data, digits).value;
              && digits <= p.digits && p.digits != [] && AllDigitBytes(p.digits)
              && digits + data == p.digits + [COLON] + p.rest
    decreases |data|
  {
    if data != [] {
      if data[0] == COLON {
        assert digits + data == digits + [COLON] + data[1..];
      } else if IsDigitByte(data[0]) && |digits| < MAX_LENGTH_DIGITS {
        PrefixShape(data[1..], digits + [data[0]]);
        assert digits + [data[0]] + data[1..] == digits + data;
      }
    }
  }

  lemma {:induction false} PrefixOfDigits(digits: seq<Byte>, rest: seq<Byte>, before: seq<Byte>)
    requires AllDigitBytes(digits) && |before| + |digits| <= MAX_LENGTH_DIGITS && before + digits != []
    ensures ReadPrefix(digits + [COLON] + rest, before) == Ok(Prefix(before + digits, rest))
    decreases |digits|
  {
    var data := digits + [COLON] + rest;
    if digits == [] {
      assert data == [COLON] + rest && before + digits == before;
    } else {
      PrefixOfDigits(digits[1..], rest, before + [digits[0]]);
      assert data[1..] == digits[1..] + [COLON] + rest;
      assert before + [digits[0]] + digits[1..] == before + digits;
    }
  }

  /** The canonical frame of a credential. */
  function Netstring(payload: seq<Byte>): seq<Byte> {
    PrintDigits(Decimal.Digits(|payload|)) + [COLON] + payload + [COMMA]
  }

  predicate IsCredential(payload: seq<Byte>) {
    0 < |payload| <= MAX_CREDENTIAL && IsUtf8(payload)
  }

  lemma ManyDigits(ds: seq<Decimal.Digit>)
    requires Decimal.Canonical(ds) && |ds| > MAX_LENGTH_DIGITS
    ensures Decimal.Value(ds) >= 100_000
  {
    Decimal.PositiveValue(ds);
    Power10Grows(|ds| - 1);
  }

  lemma FewDigits(n: nat)
    requires n < 100_000
    ensures |Decimal.Digits(n)| <= MAX_LENGTH_DIGITS
  {
    Decimal.ValueOfDigits(n);
    if |Decimal.Digits(n)| > MAX_LENGTH_DIGITS {
      ManyDigits(Decimal.Digits(n));
    }
  }

  lemma {:induction false} Power10Grows(k: nat)
    requires k >= 5
    ensures Decimal.Power10(k) >= 100_000
  {
    if k > 5 {
      Power10Grows(k - 1);
    } else {
      assert Decimal.Power10(5) == 10 * Decimal.Power10(4) == 100 * Decimal.Power10(3) == 1000 * Decimal.Power10(2);
      assert Decimal.Power10(2) == 10 * Decimal.Power10(1) == 100 * Decimal.Power10(0);
    }
  }

  /** The reader returns the credential whose frame was sent. */
  lemma ReadOfNetstring(payload: seq<Byte>)
    requires IsCredential(payload)
    ensures ReadFrame(Netstring(payload)) == Ok(payload)
  {
    var digits := PrintDigits(Decimal.Digits(|payload|));
    var rest := payload + [COMMA];
    FewDigits(|payload|);
    assert Netstring(payload) == digits + [COLON] + rest;
    PrefixOfDigits(digits, rest, []);
    assert [] + digits == digits;
    Decimal.ValueOfDigits(|payload|);
    assert |digits| > 1 ==> digits[0] != 48 by {
      assert DigitOfByte(48) == 0 && ReadDigits(digits)[0] == DigitOfByte(digits[0]);
    }
    assert rest[..|payload|] == payload;
  }

  /** Only canonical frames are accepted. */
  lemma NetstringOfRead(data: seq<Byte>)
    requires ReadFrame(data).Ok?
    ensures IsCredential(ReadFrame(data).value) && Netstring(ReadFrame(data).value) == data
  {
    PrefixShape(data, []);
    assert [] + data == data;
    var p := ReadPrefix(data, []).value;
    var payload := ReadFrame(data).value;
    var digits := ReadDigits(p.digits);
    assert |digits| > 1 ==> digits[0] != 0 by {
      if |digits| > 1 { DigitByteExact(p.digits[0]); }
    }
    Decimal.DigitsOfValue(digits);
    PrintOfRead(p.digits);
    assert p.rest == payload + [COMMA];
    FrameParts(p.digits, payload);
  }

  lemma FrameParts(digits: seq<Byte>, payload: seq<Byte>)
    ensures digits + [COLON] + (payload + [COMMA]) == digits + [COLON] + payload + [COMMA]
  {
  }

  /** The accepted streams are exactly the frames of credentials. */
  lemma ReadFrameIsExact(data: seq<Byte>, payload: seq<Byte>)
    ensures ReadFrame(data) == Ok(payload) <==> IsCredential(payload) && data == Netstring(payload)
  {
    if ReadFrame(data).Ok? {
      NetstringOfRead(data);
    }
    if IsCredential(payload) {
      ReadOfNetstring(payload);
    }
  }
}
