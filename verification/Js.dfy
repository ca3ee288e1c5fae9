/** Parsed JSON as the display client sees it, and the byte length of its strings. */
module Js {
  /** The largest integer up to which a double is exact. */
  const MAX_EXACT_INTEGER := 9007199254740991

  /** A JavaScript number; the infinities and NaN never satisfy a rule. */
  datatype Number = Finite(value: real) | NegativeZero | Infinite | NotANumber

  datatype Field = Field(name: string, value: Value)

  /** Object fields in the order of `Object.keys`. */
  datatype Value =
    | Null
    | Bool(flag: bool)
    | Num(number: Number)
    | Str(chars: string)
    | Array(items: seq<Value>)
    | Object(fields: seq<Field>)

  // ----- UTF-8 length -----

  function Utf8Width(c: char): nat {
    if c as int <= 0x7F then 1
    else if c as int <= 0x7FF then 2
    else if c as int <= 0xFFFF then 3
    else 4
  }

  function Utf8Size(s: string): nat {
    if s == [] then 0 else Utf8Width(s[0]) + Utf8Size(s[1..])
  }

  /** A UTF-16 code unit, which is what the client's string functions count. */
  type CodeUnit = u: int | 0 <= u < 0x10000

  predicate IsHighSurrogate(u: CodeUnit) {
    0xD800 <= u <= 0xDBFF
  }

  predicate IsLowSurrogate(u: CodeUnit) {
    0xDC00 <= u <= 0xDFFF
  }

  function Utf16Of(c: char): (units: seq<CodeUnit>) {
    if c as int <= 0xFFFF then [c as int]
    else [0xD800 + (c as int - 0x10000) / 0x400, 0xDC00 + (c as int - 0x10000) % 0x400]
  }

  function Utf16(s: string): seq<CodeUnit> {
    if s == [] then [] else Utf16Of(s[0]) + Utf16(s[1..])
  }

  /** The bytes counted from a position on; an unpaired surrogate counts three. */
  function BytesFrom(units: seq<CodeUnit>): nat {
    if units == [] then 0
    else if units[0] <= 0x7F then 1 + BytesFrom(units[1..])
    else if units[0] <= 0x7FF then 2 + BytesFrom(units[1..])
    else if IsHighSurrogate(units[0]) && |units| > 1 && IsLowSurrogate(units[1]) then 4 + BytesFrom(units[2..])
    else 3 + BytesFrom(units[1..])
  }

  lemma {:induction false} BytesOfUtf16(s: string)
    ensures BytesFrom(Utf16(s)) == Utf8Size(s)
  {
    if s != [] {
      var head, tail := Utf16Of(s[0]), Utf16(s[1..]);
      BytesOfUtf16(s[1..]);
      assert (head + tail)[|head|..] == tail;
    }
  }

  /** The counting loop of the client gives the UTF-8 length of the text. */
  method Utf8Length(units: seq<CodeUnit>) returns (length: nat)
    ensures length == BytesFrom(units)
    ensures forall s :: units == Utf16(s) ==> length == Utf8Size(s)
  {
    forall s | units == Utf16(s) ensures BytesFrom(units) == Utf8Size(s) {
      BytesOfUtf16(s);
    }
    length := 0;
    var i := 0;
    while i < |units|
      invariant 0 <= i <= |units| && length + BytesFrom(units[i..]) == BytesFrom(units)
    {
      var code := units[i];
      assert units[i..][1..] == units[i + 1..];
      if code <= 0x7F {
        length := length + 1;
      } else if code <= 0x7FF {
        length := length + 2;
      } else if IsHighSurrogate(code) && i + 1 < |units| && IsLowSurrogate(units[i + 1]) {
        assert units[i..][2..] == units[i + 2..];
        length := length + 4;
        i := i + 1;
      } else {
        length := length + 3;
      }
      i := i + 1;
    }
  }
}
