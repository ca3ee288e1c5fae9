/** The texts a TOON document is made of, character by character: which keys and strings are bare,
    and what a quoted one looks like. */
module ToonMeaning {
  import opened Results
  import opened Bytes
  import opened Json
  import opened Sequences
  import opened Toon
  import opened ToonRoundTrip
  import Decimal
  import Text

  // ----- JSON string literals -----

  const HEX := "0123456789abcdef"

  /** How one character is written inside a literal. */
  predicate IsPiece(c: char, piece: string) {
    var n := c as int;
    if c == '"' then piece == ['\\', '"']
    else if c == '\\' then piece == ['\\', '\\']
    else if n == 8 then piece == ['\\', 'b']
    else if n == 9 then piece == ['\\', 't']
    else if n == 10 then piece == ['\\', 'n']
    else if n == 12 then piece == ['\\', 'f']
    else if n == 13 then piece == ['\\', 'r']
    else if n < 32 then piece == ['\\', 'u', '0', '0', HEX[n / 16], HEX[n % 16]]
    else piece == [c]
  }

  /** A quote, the characters one after the other, and a quote. */
  ghost predicate IsLiteral(text: string, s: string) {
    exists pieces: seq<string> ::
      && |pieces| == |s| && (forall i :: 0 <= i < |s| ==> IsPiece(s[i], pieces[i]))
      && text == ['"'] + Flatten(pieces) + ['"']
  }

  lemma HexChars(n: nat)
    requires n < 16
    ensures HexChar(n) == HEX[n]
  {
    assert HEX[0] == '0' && HEX[1] == '1' && HEX[2] == '2' && HEX[3] == '3' && HEX[4] == '4' && HEX[5] == '5';
    assert HEX[6] == '6' && HEX[7] == '7' && HEX[8] == '8' && HEX[9] == '9' && HEX[10] == 'a' && HEX[11] == 'b';
    assert HEX[12] == 'c' && HEX[13] == 'd' && HEX[14] == 'e' && HEX[15] == 'f';
  }

  lemma EscapeIsPiece(c: char)
    ensures IsPiece(c, Escape(c))
  {
    if IsAsciiControl(c) {
      HexChars(c as int / 16);
      HexChars(c as int % 16);
    }
  }

  function Pieces(s: string): (pieces: seq<string>)
    ensures |pieces| == |s| && forall i :: 0 <= i < |s| ==> pieces[i] == Escape(s[i])
  {
    seq(|s|, i requires 0 <= i < |s| => Escape(s[i]))
  }

  lemma {:induction false} EscapeAllIsFlat(s: string)
    ensures EscapeAll(s) == Flatten(Pieces(s))
  {
    if s == [] {
      assert Pieces(s) == [];
    } else {
      EscapeAllIsFlat(s[1..]);
      assert Pieces(s)[1..] == Pieces(s[1..]);
    }
  }

  lemma QuoteIsLiteral(s: string)
    ensures IsLiteral(Quote(s), s)
  {
    EscapeAllIsFlat(s);
    forall i | 0 <= i < |s| ensures IsPiece(s[i], Pieces(s)[i]) {
      EscapeIsPiece(s[i]);
    }
  }

  lemma LiteralsStart(text: string, s: string)
    requires IsLiteral(text, s)
    ensures |text| >= 2 && text[0] == '"'
  {
  }

  // ----- words and floats -----

  /** ASCII letters, digits and four marks, and at least one of them. */
  predicate IsWordText(s: string) {
    && s != []
    && forall c :: c in s ==>
         || 'a' <= c <= 'z' || 'A' <= c <= 'Z' || '0' <= c <= '9' || c == '_' || c == '-' || c == '.' || c == '/'
  }

  predicate Digits(s: string) {
    forall c :: c in s ==> '0' <= c <= '9'
  }

  /** Nothing, or an e, perhaps a sign, and digits. */
  ghost predicate IsPower(s: string) {
    s == [] ||
    exists e, sign, digits ::
      (e == "e" || e == "E") && (sign == "" || sign == "+" || sign == "-")
      && digits != [] && Digits(digits) && s == e + sign + digits
  }

  /** Digits with at most one point among them, at least one digit, and perhaps a power of ten. */
  ghost predicate IsPlainDecimal(s: string) {
    exists whole, point, fraction, power ::
      AreParts(whole, point, fraction, power) && s == whole + point + fraction + power
  }

  ghost predicate AreParts(whole: string, point: string, fraction: string, power: string) {
    && Digits(whole) && Digits(fraction) && whole + fraction != []
    && (point == "." || (point == "" && fraction == ""))
    && IsPower(power)
  }

  /** A text that Rust reads as a float. */
  ghost predicate IsFloatText(s: string) {
    exists sign, rest ::
      (sign == "" || sign == "+" || sign == "-") && s == sign + rest
      && (IsPlainDecimal(rest) || IsNameOfFloat(rest))
  }

  /** Infinity or not a number, in letters of any case. */
  predicate IsNameOfFloat(s: string) {
    SameLetters(s, "inf") || SameLetters(s, "infinity") || SameLetters(s, "nan")
  }

  predicate SameLetters(s: string, lower: string) {
    |s| == |lower| && forall i :: 0 <= i < |s| ==> s[i] == lower[i] || s[i] as int + 32 == lower[i] as int
  }

  lemma LowerIsSame(s: string, lower: string)
    requires forall i :: 0 <= i < |lower| ==> 'a' <= lower[i] <= 'z'
    ensures Text.LowerAsciiText(s) == lower <==> SameLetters(s, lower)
  {
    if Text.LowerAsciiText(s) == lower {
      forall i | 0 <= i < |s| ensures s[i] == lower[i] || s[i] as int + 32 == lower[i] as int {
        assert Text.LowerAscii(s[i]) == lower[i];
      }
    }
    if SameLetters(s, lower) {
      assert forall i :: 0 <= i < |s| ==> Text.LowerAscii(s[i]) == lower[i];
    }
  }

  lemma AllDigitsIsDigits(s: string)
    ensures Decimal.AllDigits(s) <==> Digits(s)
  {
    if Digits(s) {
      forall i | 0 <= i < |s| ensures Decimal.IsDigit(s[i]) {
        assert s[i] in s;
      }
    }
  }

  lemma ExponentSplit(s: string)
    requires IsExponent(s)
    ensures IsPower(s)
  {
    var t := s[1..];
    var sign, digits := if IsSign(t[0]) then t[..1] else "", DropSign(t);
    AllDigitsIsDigits(digits);
    var e := s[..1];
    assert e == [s[0]] && s == e + t && (sign == "" || sign == [t[0]]) && t == sign + digits;
    Regroup(e, sign, digits);
  }

  lemma ExponentJoin(e: string, sign: string, digits: string)
    requires (e == "e" || e == "E") && (sign == "" || sign == "+" || sign == "-") && digits != [] && Digits(digits)
    ensures IsExponent(e + sign + digits)
  {
    var t := sign + digits;
    Regroup(e, sign, digits);
    DropPrefix(e, t);
    AllDigitsIsDigits(digits);
    SignDrops(sign, digits);
  }

  lemma SignDrops(sign: string, digits: string)
    requires (sign == "" || sign == "+" || sign == "-") && digits != [] && Digits(digits)
    ensures DropSign(sign + digits) == digits
  {
    assert digits[0] in digits;
    if sign == "" {
      AddNothing(digits);
    } else {
      DropPrefix(sign, digits);
    }
  }

  lemma ExponentIsPower(s: string)
    ensures s == [] || IsExponent(s) <==> IsPower(s)
  {
    if IsExponent(s) {
      ExponentSplit(s);
    }
    if s != [] && IsPower(s) {
      var e, sign, digits :| (e == "e" || e == "E") && (sign == "" || sign == "+" || sign == "-")
        && digits != [] && Digits(digits) && s == e + sign + digits;
      ExponentJoin(e, sign, digits);
    }
  }

  lemma RunOfDigits(s: string)
    ensures Digits(s[..DigitRun(s)]) && s == s[..DigitRun(s)] + s[DigitRun(s)..]
  {
    AllDigitsIsDigits(s[..DigitRun(s)]);
  }

  lemma WithPoint(whole: string, fraction: string, power: string)
    ensures whole + ("." + (fraction + power)) == whole + "." + fraction + power
  {
  }

  lemma WithoutPoint(whole: string, power: string)
    ensures whole + "" + "" + power == whole + power
  {
  }

  lemma DecimalSplit(s: string) returns (whole: string, point: string, fraction: string, power: string)
    requires IsDecimal(s)
    ensures AreParts(whole, point, fraction, power) && s == whole + point + fraction + power
  {
    var n := DigitRun(s);
    var rest := s[n..];
    whole := s[..n];
    RunOfDigits(s);
    if rest != [] && rest[0] == '.' {
      var tail := rest[1..];
      point, fraction, power := ".", tail[..DigitRun(tail)], tail[DigitRun(tail)..];
      RunOfDigits(tail);
      ExponentIsPower(power);
      assert rest == "." + tail;
      WithPoint(whole, fraction, power);
    } else {
      point, fraction, power := "", "", rest;
      ExponentIsPower(rest);
      WithoutPoint(whole, rest);
    }
  }

  lemma PowerStarts(power: string)
    requires IsPower(power)
    ensures power == [] || power[0] == 'e' || power[0] == 'E'
  {
  }

  lemma JoinWithPoint(whole: string, fraction: string, power: string)
    requires AreParts(whole, ".", fraction, power)
    ensures IsDecimal(whole + ("." + (fraction + power)))
  {
    var tail := fraction + power;
    var rest := "." + tail;
    AllDigitsIsDigits(whole);
    AllDigitsIsDigits(fraction);
    PowerStarts(power);
    ExponentIsPower(power);
    DigitRunEnds(whole, rest);
    DigitRunEnds(fraction, power);
    DropPrefix(whole, rest);
    DropPrefix(".", tail);
    DropPrefix(fraction, power);
  }

  lemma JoinWithoutPoint(whole: string, power: string)
    requires AreParts(whole, "", "", power)
    ensures IsDecimal(whole + power)
  {
    AllDigitsIsDigits(whole);
    AddNothing(whole);
    PowerStarts(power);
    ExponentIsPower(power);
    DigitRunEnds(whole, power);
    DropPrefix(whole, power);
  }

  lemma DecimalsExactly(s: string)
    ensures IsDecimal(s) <==> IsPlainDecimal(s)
  {
    if IsDecimal(s) {
      var whole, point, fraction, power := DecimalSplit(s);
    }
    if whole, point, fraction, power :|
      AreParts(whole, point, fraction, power) && s == whole + point + fraction + power {
      if point == "." {
        JoinWithPoint(whole, fraction, power);
        WithPoint(whole, fraction, power);
      } else {
        JoinWithoutPoint(whole, power);
        WithoutPoint(whole, power);
      }
    }
  }

  lemma NamesOfFloats(s: string)
    ensures Text.LowerAsciiText(s) in {"inf", "infinity", "nan"} <==> IsNameOfFloat(s)
  {
    LowerIsSame(s, "inf");
    LowerIsSame(s, "infinity");
    LowerIsSame(s, "nan");
  }

  lemma NoSignInside(rest: string)
    requires IsPlainDecimal(rest) || IsNameOfFloat(rest)
    ensures rest != [] && !IsSign(rest[0])
  {
    if IsPlainDecimal(rest) {
      DecimalsExactly(rest);
    }
  }

  lemma FloatsExactly(s: string)
    ensures ParsesAsFloat(s) <==> IsFloatText(s)
  {
    var rest := DropSign(s);
    DecimalsExactly(rest);
    NamesOfFloats(rest);
    if ParsesAsFloat(s) {
      var sign := if s != [] && IsSign(s[0]) then s[..1] else "";
      assert s == sign + rest;
    }
    if sign, other :| (sign == "" || sign == "+" || sign == "-") && s == sign + other
                      && (IsPlainDecimal(other) || IsNameOfFloat(other)) {
      NoSignInside(other);
      assert rest == other;
    }
  }

  lemma WordsExactly(s: string)
    ensures IsPlain(s) <==> IsWordText(s)
  {
    if IsWordText(s) {
      forall i | 0 <= i < |s| ensures PlainChar(s[i]) {
        assert s[i] in s;
      }
    }
  }

  // ----- keys and strings in a document -----

  /** A key is written as it is exactly when it is a word, and as a string literal otherwise. */
  lemma KeysAreWritten(name: string, v: Value)
    ensures
      exists key, tail :: Document(Object([Field(name, v)])) == key + tail && tail != [] && tail[0] in {':', '['}
        && (if IsWordText(name) then key == name else IsLiteral(key, name))
  {
    var key, tail := KeyText(name), FieldTail(v, 0);
    var fields := [Field(name, v)];
    WordsExactly(name);
    QuoteIsLiteral(name);
    FieldTailStart(v);
    assert fields[1..] == [] && Fields(fields[1..], 0) == "";
    AddNothing(key);
    AddNothing(key + tail);
    assert Fields(fields, 0) == "" + key + tail + "";
    assert Document(Object(fields)) == key + tail;
  }

  lemma FieldTailStart(v: Value)
    ensures FieldTail(v, 0) != [] && FieldTail(v, 0)[0] in {':', '['}
  {
  }

  /** A string is written as it is exactly when it is a word that is neither a constant of JSON nor
      read as a float, and as a string literal otherwise. */
  lemma StringsAreWritten(s: string)
    ensures
      exists text :: Document(String(s)) == text + "\n"
        && (if IsWordText(s) && s != "true" && s != "false" && s != "null" && !IsFloatText(s) then text == s
            else IsLiteral(text, s))
  {
    WordsExactly(s);
    FloatsExactly(s);
    QuoteIsLiteral(s);
    assert Document(String(s)) == ScalarText(String(s)) + "\n";
  }

  /** A bare text and a literal are never the same, so the documents above say which one it is. */
  lemma WordsAreNoLiterals(text: string, s: string, t: string)
    requires IsWordText(s) && IsLiteral(text, t)
    ensures text != s
  {
    LiteralsStart(text, t);
    assert s[0] in s;
  }

  // ----- one whole document -----

  lemma OneField(field: Field, depth: nat)
    ensures Fields([field], depth) == Indent(depth) + KeyText(field.name) + FieldTail(field.value, depth)
  {
    assert [field][1..] == [];
  }

  lemma FirstField(field: Field, rest: seq<Field>, depth: nat)
    ensures Fields([field] + rest, depth)
         == Indent(depth) + KeyText(field.name) + FieldTail(field.value, depth) + Fields(rest, depth)
  {
    assert ([field] + rest)[1..] == rest;
  }

  lemma FirstItem(v: Value, rest: seq<Value>, depth: nat)
    ensures Items([v] + rest, depth) == Item(v, depth) + Items(rest, depth)
  {
    assert ([v] + rest)[1..] == rest;
  }

  lemma Indents()
    ensures Indent(0) == "" && Indent(1) == "  " && Indent(2) == "    "
  {
    assert Indent(1) == "  " + Indent(0) && Indent(2) == "  " + Indent(1);
  }

  lemma OneItem(v: Value, depth: nat)
    ensures Items([v], depth) == Item(v, depth)
  {
    AddNothing(Item(v, depth));
    assert [v][1..] == [];
  }

  lemma SampleKeys()
    ensures KeyText("a") == "a" && KeyText("b") == "b" && Decimal.Text(2) == "2"
  {
    assert Decimal.Digits(2) == [2];
  }

  lemma SampleItems(items: seq<Value>)
    requires items == [Null, Array([])]
    ensures Items(items, 1) == "  - null\n" + "  - []\n"
  {
    Indents();
    OneItem(Array([]), 1);
    FirstItem(Null, [Array([])], 1);
    assert [Null] + [Array([])] == items;
    assert Item(Null, 1) == "  - null\n" && Item(Array([]), 1) == "  - []\n";
  }

  /** A list with a scalar and an empty array. */
  lemma SampleList()
    ensures Document(Object([Field("a", Array([Null, Array([])]))])) == "a[2]:\n" + "  - null\n" + "  - []\n"
  {
    var items := [Null, Array([])];
    var a := Field("a", Array(items));
    SampleItems(items);
    SampleKeys();
    Indents();
    assert FieldTail(a.value, 0) == "[2]:\n" + ("  - null\n" + "  - []\n");
    OneField(a, 0);
    assert Fields([a], 0) == "" + "a" + FieldTail(a.value, 0);
  }

  /** An empty object and an empty array under a key. */
  lemma SampleObject()
    ensures Document(Object([Field("a", Object([])), Field("b", Array([]))])) == "a:\n\n" + "b: []\n"
  {
    Indents();
    SampleKeys();
    var a, b := Field("a", Object([])), Field("b", Array([]));
    OneField(b, 0);
    assert Fields([b], 0) == "b: []\n";
    FirstField(a, [b], 0);
    assert [a] + [b] == [a, b];
    assert FieldTail(a.value, 0) == ":\n\n";
  }

  /** An object in a list. */
  lemma SampleEntry()
    ensures Document(Array([Object([Field("a", Null)])])) == "-\n" + "  a: null\n"
  {
    Indents();
    SampleKeys();
    var a := Field("a", Null);
    OneField(a, 1);
    assert Fields([a], 1) == "  a: null\n";
    OneItem(Object([a]), 0);
    assert Item(Object([a]), 0) == "" + "-\n" + "  a: null\n";
  }
}
