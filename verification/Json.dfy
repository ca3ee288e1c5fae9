/** JSON values and JSON string literals, as `serde_json` prints them. */
module Json {
  import opened Results
  import Decimal

  /** A number is known by its printed text. */
  type NumberText = s: string | IsNumberText(s) witness "0"

  datatype Field = Field(name: string, value: Value)

  /** Object fields are listed in iteration order. */
  datatype Value =
    | Null
    | Bool(flag: bool)
    | Number(text: NumberText)
    | String(chars: string)
    | Array(items: seq<Value>)
    | Object(fields: seq<Field>)

  // ----- number texts -----

  function DigitRun(s: string): (n: nat)
    ensures n <= |s|
    ensures Decimal.AllDigits(s[..n])
    ensures n < |s| ==> !Decimal.IsDigit(s[n])
  {
    if s != [] && Decimal.IsDigit(s[0]) then
      var n := 1 + DigitRun(s[1..]);
      assert s[..n] == [s[0]] + s[1..][..n - 1];
      n
    else 0
  }

  predicate IsSign(c: char) {
    c == '+' || c == '-'
  }

  function DropSign(s: string): string {
    if s != [] && IsSign(s[0]) then s[1..] else s
  }

  predicate IsExponent(s: string) {
    && s != []
    && (s[0] == 'e' || s[0] == 'E')
    && DropSign(s[1..]) != []
    && Decimal.AllDigits(DropSign(s[1..]))
  }

  /** Digits with an optional fraction and exponent; at least one digit before the exponent. */
  predicate IsDecimal(s: string) {
    var whole := DigitRun(s);
    var rest := s[whole..];
    if rest != [] && rest[0] == '.' then
      var fraction := DigitRun(rest[1..]);
      && whole + fraction > 0
      && (rest[1..][fraction..] == [] || IsExponent(rest[1..][fraction..]))
    else
      whole > 0 && (rest == [] || IsExponent(rest))
  }

  /** A decimal with an optional minus sign that starts with a digit: contains every JSON number. */
  predicate IsNumberText(s: string) {
    var magnitude := if s != [] && s[0] == '-' then s[1..] else s;
    magnitude != [] && Decimal.IsDigit(magnitude[0]) && IsDecimal(magnitude)
  }

  predicate NumberChar(c: char) {
    Decimal.IsDigit(c) || IsSign(c) || c == '.' || c == 'e' || c == 'E'
  }

  lemma DigitsAreNumberChars(s: string)
    requires Decimal.AllDigits(s)
    ensures forall c :: c in s ==> NumberChar(c)
  {
  }

  lemma ExponentChars(s: string)
    requires IsExponent(s)
    ensures forall c :: c in s ==> NumberChar(c)
  {
    DigitsAreNumberChars(DropSign(s[1..]));
    assert s == [s[0]] + s[1..];
    var t := s[1..];
    assert t == if IsSign(t[0]) then [t[0]] + DropSign(t) else DropSign(t);
  }

  lemma DecimalChars(s: string)
    requires IsDecimal(s)
    ensures forall c :: c in s ==> NumberChar(c)
  {
    var whole := DigitRun(s);
    var rest := s[whole..];
    DigitsAreNumberChars(s[..whole]);
    assert s == s[..whole] + rest;
    if rest != [] && rest[0] == '.' {
      var tail := rest[1..];
      var fraction := DigitRun(tail);
      DigitsAreNumberChars(tail[..fraction]);
      assert rest == ['.'] + tail[..fraction] + tail[fraction..];
      if tail[fraction..] != [] {
        ExponentChars(tail[fraction..]);
      }
    } else if rest != [] {
      ExponentChars(rest);
    }
  }

  lemma NumberTextChars(s: string)
    requires IsNumberText(s)
    ensures forall c :: c in s ==> NumberChar(c)
  {
    if s[0] == '-' {
      DecimalChars(s[1..]);
      assert s == ['-'] + s[1..];
    } else {
      DecimalChars(s);
    }
  }

  // ----- string literals -----

  function HexChar(n: nat): (c: char)
    requires n < 16
  {
    if n < 10 then ('0' as int + n) as char else ('a' as int + n - 10) as char
  }

  function HexValue(c: char): Option<nat> {
    if '0' <= c <= '9' then Some(c as int - '0' as int)
    else if 'a' <= c <= 'f' then Some(c as int - 'a' as int + 10)
    else None
  }

  predicate IsAsciiControl(c: char) {
    c as int < 32
  }

  /** One character inside a string literal. */
  function Escape(c: char): (s: string)
    ensures s != []
    ensures '\n' !in s
  {
    if c == '"' then "\\\""
    else if c == '\\' then "\\\\"
    else if c as int == 8 then "\\b"
    else if c as int == 9 then "\\t"
    else if c as int == 10 then "\\n"
    else if c as int == 12 then "\\f"
    else if c as int == 13 then "\\r"
    else if IsAsciiControl(c) then "\\u00" + [HexChar(c as int / 16), HexChar(c as int % 16)]
    else [c]
  }

  function EscapeAll(s: string): (r: string)
    ensures '\n' !in r
  {
    if s == [] then [] else Escape(s[0]) + EscapeAll(s[1..])
  }

  function Quote(s: string): (r: string)
    ensures '\n' !in r
  {
    "\"" + EscapeAll(s) + "\""
  }

  datatype Parsed<+T> = Parsed(value: T, rest: string)

  /** Reads one escape whose backslash has been consumed. */
  function ReadEscape(t: string): (r: Option<Parsed<char>>)
    ensures r.Some? ==> |r.value.rest| < |t|
  {
    if t == [] then None
    else if t[0] == '"' || t[0] == '\\' then Some(Parsed(t[0], t[1..]))
    else if t[0] == 'b' then Some(Parsed(8 as char, t[1..]))
    else if t[0] == 't' then Some(Parsed(9 as char, t[1..]))
    else if t[0] == 'n' then Some(Parsed(10 as char, t[1..]))
    else if t[0] == 'f' then Some(Parsed(12 as char, t[1..]))
    else if t[0] == 'r' then Some(Parsed(13 as char, t[1..]))
    else if |t| >= 5 && t[..3] == "u00" then
      match (HexValue(t[3]), HexValue(t[4]))
      case (Some(high), Some(low)) => Some(Parsed((16 * high + low) as char, t[5..]))
      case _ => None
    else None
  }

  /** Reads a string literal whose opening quote has been consumed. */
  function ReadString(t: string): (r: Option<Parsed<string>>)
    ensures r.Some? ==> |r.value.rest| < |t|
    decreases |t|
  {
    if t == [] then None
    else if t[0] == '"' then Some(Parsed([], t[1..]))
    else if t[0] == '\\' then
      match ReadEscape(t[1..])
      case Some(Parsed(c, rest)) =>
        (match ReadString(rest)
         case Some(Parsed(s, tail)) => Some(Parsed([c] + s, tail))
         case None => None)
      case None => None
    else
      match ReadString(t[1..])
      case Some(Parsed(s, tail)) => Some(Parsed([t[0]] + s, tail))
      case None => None
  }

  lemma ReadEscapeOfEscape(c: char, rest: string)
    requires |Escape(c)| > 1
    ensures Escape(c)[0] == '\\'
    ensures ReadEscape(Escape(c)[1..] + rest) == Some(Parsed(c, rest))
  {
    var t := Escape(c)[1..] + rest;
    if IsAsciiControl(c) && |Escape(c)| == 6 {
      assert t[..3] == "u00" && t[5..] == rest;
      assert HexValue(t[3]) == Some(c as int / 16) && HexValue(t[4]) == Some(c as int % 16);
    } else {
      assert t[1..] == rest;
    }
  }

  lemma ReadStringStep(c: char, tail: string, s: string, rest: string)
    requires ReadString(tail) == Some(Parsed(s, rest))
    ensures ReadString(Escape(c) + tail) == Some(Parsed([c] + s, rest))
  {
    var t := Escape(c) + tail;
    if |Escape(c)| > 1 {
      ReadEscapeOfEscape(c, tail);
      assert t[1..] == Escape(c)[1..] + tail;
    } else {
      assert Escape(c) == [c] && t == [c] + tail && t[1..] == tail;
    }
  }

  lemma QuoteStep(head: string, tail: string, rest: string)
    ensures head + tail + "\"" + rest == head + (tail + "\"" + rest)
  {
  }

  /** A quoted string reads back as itself, whatever follows it. */
  lemma {:induction false} ReadStringOfQuote(s: string, rest: string)
    ensures ReadString(EscapeAll(s) + "\"" + rest) == Some(Parsed(s, rest))
  {
    if s == [] {
      assert EscapeAll(s) + "\"" + rest == "\"" + rest;
    } else {
      var tail := EscapeAll(s[1..]) + "\"" + rest;
      ReadStringOfQuote(s[1..], rest);
      ReadStringStep(s[0], tail, s[1..], rest);
      QuoteStep(Escape(s[0]), EscapeAll(s[1..]), rest);
      assert s == [s[0]] + s[1..];
    }
  }
}
