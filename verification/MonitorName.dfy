/** The canonical base64 decoder for monitor names (crates/app/src/hyprland_events.rs). */
module MonitorName {
  import opened Results
  import opened Bytes

  const MAX_NAME := 4 * 1024
  const MAX_ENCODED := (MAX_NAME + 2) / 3 * 4
  const PAD: Byte := 61

  function DecodeDigit(b: Byte): Option<Byte> {
    if 65 <= b <= 90 then Some(b - 65)
    else if 97 <= b <= 122 then Some(b - 97 + 26)
    else if 48 <= b <= 57 then Some(b - 48 + 52)
    else if b == 43 then Some(62)
    else if b == 47 then Some(63)
    else None
  }

  function TrailingZeros(b: Byte): nat {
    if b & 1 != 0 then 0
    else if b & 2 != 0 then 1
    else if b & 4 != 0 then 2
    else if b & 8 != 0 then 3
    else if b & 16 != 0 then 4
    else if b & 32 != 0 then 5
    else if b & 64 != 0 then 6
    else if b & 128 != 0 then 7
    else 8
  }

  /** One group of four digits; only the last group may be padded, and the bits the padding
      leaves unused must be zero. */
  function DecodeGroup(group: seq<Byte>, last: bool): Option<seq<Byte>>
    requires |group| == 4
  {
    match (DecodeDigit(group[0]), DecodeDigit(group[1]))
    case (Some(first), Some(second)) =>
      if group[2] == PAD && group[3] == PAD && last && TrailingZeros(second) >= 4 then
        Some([(first << 2) | (second >> 4)])
      else if group[3] == PAD && last then
        match DecodeDigit(group[2])
        case Some(third) =>
          if TrailingZeros(third) < 2 then None
          else Some([(first << 2) | (second >> 4), (second << 4) | (third >> 2)])
        case None => None
      else if group[2] != PAD && group[3] != PAD then
        match (DecodeDigit(group[2]), DecodeDigit(group[3]))
        case (Some(third), Some(fourth)) =>
          Some([(first << 2) | (second >> 4), (second << 4) | (third >> 2), (third << 6) | fourth])
        case _ => None
      else None
    case _ => None
  }

  function DecodeGroups(input: seq<Byte>): Option<seq<Byte>>
    requires |input| % 4 == 0
  {
    if input == [] then Some([])
    else
      match DecodeGroup(input[..4], |input| == 4)
      case Some(head) =>
        (match DecodeGroups(input[4..])
         case Some(tail) => Some(head + tail)
         case None => None)
      case None => None
  }

  function Padding(input: seq<Byte>): nat {
    if |input| >= 2 && input[|input| - 1] == PAD && input[|input| - 2] == PAD then 2
    else if |input| >= 1 && input[|input| - 1] == PAD then 1
    else 0
  }

  /** The number of bytes that the length and the padding of a text stand for. */
  function StandsFor(text: seq<Byte>): int {
    |text| / 4 * 3 - Padding(text)
  }

  predicate IsDelimiter(b: Byte) {
    b == 0 || b == LF || b == CR
  }

  predicate IsName(name: seq<Byte>) {
    0 < |name| <= MAX_NAME && forall i :: 0 <= i < |name| ==> !IsDelimiter(name[i])
  }

  function DecodeName(input: seq<Byte>): Option<seq<Byte>> {
    if input == [] || |input| > MAX_ENCODED || |input| % 4 != 0 then None
    else
      var length := StandsFor(input);
      if length == 0 || length > MAX_NAME then None
      else
        match DecodeGroups(input)
        case Some(name) => if |name| == length && IsName(name) then Some(name) else None
        case None => None
  }

  /** One more group after the bytes decoded so far. */
  lemma {:induction false} NextGroup(bytes: seq<Byte>, input: seq<Byte>, head: Option<seq<Byte>>)
    requires input != [] && |input| % 4 == 0 && head == DecodeGroup(input[..4], |input| == 4)
    ensures head.None? ==> Prefixed(bytes, DecodeGroups(input)) == None
    ensures head.Some? ==>
              Prefixed(bytes, DecodeGroups(input)) == Prefixed(bytes + head.value, DecodeGroups(input[4..]))
  {
    if head.Some? {
      PrefixedTwice(bytes, head.value, DecodeGroups(input[4..]));
    }
  }

  /** The loop over the groups, pushing bytes onto a growing buffer. */
  method DecodeEach(input: seq<Byte>) returns (decoded: Option<seq<Byte>>)
    requires |input| % 4 == 0
    ensures decoded == DecodeGroups(input)
  {
    var bytes: seq<Byte> := [];
    ghost var goal := DecodeGroups(input);
    var index := 0;
    assert input[0..] == input;
    PrefixedTwice([], [], goal);
    while index < |input|
      invariant 0 <= index <= |input| && (|input| - index) % 4 == 0
      invariant Prefixed(bytes, DecodeGroups(input[index..])) == goal
    {
      ghost var left := input[index..];
      assert |left| % 4 == 0 && left[..4] == input[index..index + 4] && left[4..] == input[index + 4..];
      var head := DecodeGroup(input[index..index + 4], index + 4 == |input|);
      NextGroup(bytes, left, head);
      if head.None? {
        return None;
      }
      bytes := bytes + head.value;
      index := index + 4;
    }
    assert bytes + [] == bytes;
    decoded := Some(bytes);
  }

  /** Length checks, the groups, and a last look at what came out. */
  method DecodeMonitorName(input: seq<Byte>) returns (r: Option<seq<Byte>>)
    ensures r == DecodeName(input)
    ensures r.Some? ==> IsName(r.value) && Encode(r.value) == input
  {
    if input == [] || |input| > MAX_ENCODED || |input| % 4 != 0 {
      return None;
    }
    var length := |input| / 4 * 3 - Padding(input);
    if length == 0 || length > MAX_NAME {
      return None;
    }
    var decoded := DecodeEach(input);
    if decoded.None? || |decoded.value| != length
       || exists i :: 0 <= i < |decoded.value| && IsDelimiter(decoded.value[i]) {
      return None;
    }
    r := decoded;
    AcceptedNames(input);
  }

  // ----- canonical base64 -----

  /** The digit of a six-bit value. */
  function EncodeDigit(d: Byte): (b: Byte)
    requires d < 64
    ensures b != PAD
  {
    if d < 26 then d + 65
    else if d < 52 then d - 26 + 97
    else if d < 62 then d - 52 + 48
    else if d == 62 then 43
    else 47
  }

  function EncodeGroup(bytes: seq<Byte>): (group: seq<Byte>)
    requires 1 <= |bytes| <= 3
    ensures |group| == 4
  {
    var a := bytes[0];
    if |bytes| == 1 then
      [EncodeDigit(a >> 2), EncodeDigit((a & 3) << 4), PAD, PAD]
    else
      var b := bytes[1];
      if |bytes| == 2 then
        [EncodeDigit(a >> 2), EncodeDigit(((a & 3) << 4) | (b >> 4)), EncodeDigit((b & 15) << 2), PAD]
      else
        var c := bytes[2];
        [EncodeDigit(a >> 2), EncodeDigit(((a & 3) << 4) | (b >> 4)),
         EncodeDigit(((b & 15) << 2) | (c >> 6)), EncodeDigit(c & 63)]
  }

  /** Padded base64 with the standard alphabet (sections 3.5 and 4 of RFC 4648). */
  function Encode(bytes: seq<Byte>): (text: seq<Byte>)
    ensures |text| == (|bytes| + 2) / 3 * 4
  {
    if bytes == [] then []
    else if |bytes| <= 3 then EncodeGroup(bytes)
    else EncodeGroup(bytes[..3]) + Encode(bytes[3..])
  }

  lemma DigitInverse(d: Byte)
    requires d < 64
    ensures DecodeDigit(EncodeDigit(d)) == Some(d)
  {
  }

  lemma DigitExact(b: Byte)
    ensures DecodeDigit(b).Some? ==> DecodeDigit(b).value < 64 && EncodeDigit(DecodeDigit(b).value) == b
    ensures DecodeDigit(PAD) == None
  {
  }

  lemma TrailingBits(b: Byte)
    ensures TrailingZeros(b) >= 4 <==> b & 15 == 0
    ensures TrailingZeros(b) >= 2 <==> b & 3 == 0
  {
  }

  lemma GroupOfOne(first: Byte, second: Byte, a: Byte)
    requires first < 64 && second < 64 && second & 15 == 0
    ensures a == (first << 2) | (second >> 4) <==> first == a >> 2 && second == (a & 3) << 4
  {
  }

  lemma GroupOfTwo(first: Byte, second: Byte, third: Byte, a: Byte, b: Byte)
    requires first < 64 && second < 64 && third < 64 && third & 3 == 0
    ensures a == (first << 2) | (second >> 4) && b == (second << 4) | (third >> 2)
       <==> first == a >> 2 && second == ((a & 3) << 4) | (b >> 4) && third == (b & 15) << 2
  {
  }

  lemma GroupOfThree(first: Byte, second: Byte, third: Byte, fourth: Byte, a: Byte, b: Byte, c: Byte)
    requires first < 64 && second < 64 && third < 64 && fourth < 64
    ensures a == (first << 2) | (second >> 4) && b == (second << 4) | (third >> 2) && c == (third << 6) | fourth
       <==> && first == a >> 2 && second == ((a & 3) << 4) | (b >> 4)
            && third == ((b & 15) << 2) | (c >> 6) && fourth == c & 63
  {
  }

  lemma DecodeOfOne(a: Byte)
    ensures DecodeGroup(EncodeGroup([a]), true) == Some([a])
  {
    var first, second := a >> 2, (a & 3) << 4;
    DigitInverse(first);
    DigitInverse(second);
    TrailingBits(second);
    GroupOfOne(first, second, a);
  }

  lemma GroupWithOnePad(x: Byte, y: Byte, z: Byte)
    requires DecodeDigit(x).Some? && DecodeDigit(y).Some? && DecodeDigit(z).Some? && z != PAD
    requires TrailingZeros(DecodeDigit(z).value) >= 2
    ensures var first, second, third := DecodeDigit(x).value, DecodeDigit(y).value, DecodeDigit(z).value;
            DecodeGroup([x, y, z, PAD], true) == Some([(first << 2) | (second >> 4), (second << 4) | (third >> 2)])
  {
  }

  lemma DigitsOfTwo(a: Byte, b: Byte) returns (x: Byte, y: Byte, z: Byte)
    ensures EncodeGroup([a, b]) == [x, y, z, PAD] && z != PAD
    ensures DecodeDigit(x) == Some(a >> 2) && DecodeDigit(y) == Some(((a & 3) << 4) | (b >> 4))
    ensures DecodeDigit(z) == Some((b & 15) << 2)
  {
    var first, second, third := a >> 2, ((a & 3) << 4) | (b >> 4), (b & 15) << 2;
    DigitInverse(first);
    DigitInverse(second);
    DigitInverse(third);
    x, y, z := EncodeDigit(first), EncodeDigit(second), EncodeDigit(third);
  }

  lemma DecodeOfTwo(a: Byte, b: Byte)
    ensures DecodeGroup(EncodeGroup([a, b]), true) == Some([a, b])
  {
    var x, y, z := DigitsOfTwo(a, b);
    TrailingBits((b & 15) << 2);
    GroupOfTwo(a >> 2, ((a & 3) << 4) | (b >> 4), (b & 15) << 2, a, b);
    GroupWithOnePad(x, y, z);
  }

  lemma GroupWithoutPad(x: Byte, y: Byte, z: Byte, w: Byte, last: bool)
    requires DecodeDigit(x).Some? && DecodeDigit(y).Some? && DecodeDigit(z).Some? && DecodeDigit(w).Some?
    requires z != PAD && w != PAD
    ensures var first, second := DecodeDigit(x).value, DecodeDigit(y).value;
            var third, fourth := DecodeDigit(z).value, DecodeDigit(w).value;
            DecodeGroup([x, y, z, w], last)
              == Some([(first << 2) | (second >> 4), (second << 4) | (third >> 2), (third << 6) | fourth])
  {
  }

  lemma DigitsOfThree(a: Byte, b: Byte, c: Byte) returns (x: Byte, y: Byte, z: Byte, w: Byte)
    ensures EncodeGroup([a, b, c]) == [x, y, z, w] && z != PAD && w != PAD
    ensures DecodeDigit(x) == Some(a >> 2) && DecodeDigit(y) == Some(((a & 3) << 4) | (b >> 4))
    ensures DecodeDigit(z) == Some(((b & 15) << 2) | (c >> 6)) && DecodeDigit(w) == Some(c & 63)
  {
    var first, second, third, fourth := a >> 2, ((a & 3) << 4) | (b >> 4), ((b & 15) << 2) | (c >> 6), c & 63;
    DigitInverse(first);
    DigitInverse(second);
    DigitInverse(third);
    DigitInverse(fourth);
    x, y, z, w := EncodeDigit(first), EncodeDigit(second), EncodeDigit(third), EncodeDigit(fourth);
  }

  lemma DecodeOfThree(a: Byte, b: Byte, c: Byte, last: bool)
    ensures DecodeGroup(EncodeGroup([a, b, c]), last) == Some([a, b, c])
  {
    var x, y, z, w := DigitsOfThree(a, b, c);
    GroupOfThree(a >> 2, ((a & 3) << 4) | (b >> 4), ((b & 15) << 2) | (c >> 6), c & 63, a, b, c);
    GroupWithoutPad(x, y, z, w, last);
  }

  /** Decoding a group gives back the bytes it encodes. */
  lemma DecodeOfEncodeGroup(bytes: seq<Byte>, last: bool)
    requires 1 <= |bytes| <= 3 && (|bytes| < 3 ==> last)
    ensures DecodeGroup(EncodeGroup(bytes), last) == Some(bytes)
  {
    if |bytes| == 1 {
      assert bytes == [bytes[0]];
      DecodeOfOne(bytes[0]);
    } else if |bytes| == 2 {
      assert bytes == [bytes[0], bytes[1]];
      DecodeOfTwo(bytes[0], bytes[1]);
    } else {
      assert bytes == [bytes[0], bytes[1], bytes[2]];
      DecodeOfThree(bytes[0], bytes[1], bytes[2], last);
    }
  }

  ghost predicate Reencodes(group: seq<Byte>, last: bool)
    requires |group| == 4
  {
    var r := DecodeGroup(group, last);
    r.Some? ==> 1 <= |r.value| <= 3 && (|r.value| < 3 ==> last) && EncodeGroup(r.value) == group
  }

  lemma EncodeOfOne(x: Byte, y: Byte)
    ensures Reencodes([x, y, PAD, PAD], true)
  {
    DigitExact(x);
    DigitExact(y);
    DigitExact(PAD);
    if DecodeDigit(x).Some? && DecodeDigit(y).Some? && TrailingZeros(DecodeDigit(y).value) >= 4 {
      var first, second := DecodeDigit(x).value, DecodeDigit(y).value;
      TrailingBits(second);
      GroupOfOne(first, second, (first << 2) | (second >> 4));
    }
  }

  lemma EncodeOfTwo(x: Byte, y: Byte, z: Byte)
    requires z != PAD
    ensures Reencodes([x, y, z, PAD], true)
  {
    DigitExact(x);
    DigitExact(y);
    DigitExact(z);
    if DecodeDigit(x).Some? && DecodeDigit(y).Some? && DecodeDigit(z).Some? {
      var first, second, third := DecodeDigit(x).value, DecodeDigit(y).value, DecodeDigit(z).value;
      TrailingBits(third);
      if third & 3 == 0 {
        GroupOfTwo(first, second, third, (first << 2) | (second >> 4), (second << 4) | (third >> 2));
      }
    }
  }

  lemma GroupOfDigits(first: Byte, second: Byte, third: Byte, fourth: Byte)
    requires first < 64 && second < 64 && third < 64 && fourth < 64
    ensures EncodeGroup([(first << 2) | (second >> 4), (second << 4) | (third >> 2), (third << 6) | fourth])
         == [EncodeDigit(first), EncodeDigit(second), EncodeDigit(third), EncodeDigit(fourth)]
  {
    var a, b, c := (first << 2) | (second >> 4), (second << 4) | (third >> 2), (third << 6) | fourth;
    GroupOfThree(first, second, third, fourth, a, b, c);
  }

  lemma NoGroup(x: Byte, y: Byte, z: Byte, w: Byte, last: bool)
    requires z != PAD && w != PAD
    requires DecodeDigit(x).None? || DecodeDigit(y).None? || DecodeDigit(z).None? || DecodeDigit(w).None?
    ensures DecodeGroup([x, y, z, w], last) == None
  {
  }

  lemma ReencodesAs(group: seq<Byte>, last: bool, bytes: seq<Byte>)
    requires |group| == 4 && |bytes| == 3 && DecodeGroup(group, last) == Some(bytes) && EncodeGroup(bytes) == group
    ensures Reencodes(group, last)
  {
  }

  lemma ThreeBytes(x: Byte, y: Byte, z: Byte, w: Byte, last: bool) returns (bytes: seq<Byte>)
    requires z != PAD && w != PAD
    requires DecodeDigit(x).Some? && DecodeDigit(y).Some? && DecodeDigit(z).Some? && DecodeDigit(w).Some?
    requires DecodeDigit(x).value < 64 && DecodeDigit(y).value < 64
    requires DecodeDigit(z).value < 64 && DecodeDigit(w).value < 64
    ensures |bytes| == 3 && DecodeGroup([x, y, z, w], last) == Some(bytes)
    ensures EncodeGroup(bytes) == [EncodeDigit(DecodeDigit(x).value), EncodeDigit(DecodeDigit(y).value),
                                   EncodeDigit(DecodeDigit(z).value), EncodeDigit(DecodeDigit(w).value)]
  {
    var first, second := DecodeDigit(x).value, DecodeDigit(y).value;
    var third, fourth := DecodeDigit(z).value, DecodeDigit(w).value;
    bytes := [(first << 2) | (second >> 4), (second << 4) | (third >> 2), (third << 6) | fourth];
    GroupWithoutPad(x, y, z, w, last);
    GroupOfDigits(first, second, third, fourth);
  }

  lemma EncodeOfThree(x: Byte, y: Byte, z: Byte, w: Byte, last: bool)
    requires z != PAD && w != PAD
    ensures Reencodes([x, y, z, w], last)
  {
    if DecodeDigit(x).Some? && DecodeDigit(y).Some? && DecodeDigit(z).Some? && DecodeDigit(w).Some? {
      DigitExact(x);
      DigitExact(y);
      DigitExact(z);
      DigitExact(w);
      var bytes := ThreeBytes(x, y, z, w, last);
      ReencodesAs([x, y, z, w], last, bytes);
    } else {
      NoGroup(x, y, z, w, last);
    }
  }

  /** A group that decodes is the encoding of what it decodes to. */
  lemma EncodeOfDecodeGroup(group: seq<Byte>, last: bool)
    requires |group| == 4
    ensures Reencodes(group, last)
  {
    var x, y, z, w := group[0], group[1], group[2], group[3];
    assert group == [x, y, z, w];
    if z != PAD && w != PAD {
      EncodeOfThree(x, y, z, w, last);
    } else if last && w == PAD {
      if z == PAD {
        EncodeOfOne(x, y);
      } else {
        EncodeOfTwo(x, y, z);
      }
    }
  }

  lemma {:induction false} DecodeOfEncode(bytes: seq<Byte>)
    ensures DecodeGroups(Encode(bytes)) == Some(bytes)
  {
    var text := Encode(bytes);
    if bytes != [] {
      var head := if |bytes| <= 3 then bytes else bytes[..3];
      var tail := bytes[|head|..];
      DecodeOfEncodeGroup(head, |text| == 4);
      DecodeOfEncode(tail);
      assert text[..4] == EncodeGroup(head) && text[4..] == Encode(tail);
      assert bytes == head + tail;
    }
  }

  lemma {:induction false} EncodeOfDecode(input: seq<Byte>)
    requires |input| % 4 == 0 && DecodeGroups(input).Some?
    ensures Encode(DecodeGroups(input).value) == input
  {
    if input != [] {
      var group, rest := input[..4], input[4..];
      var last := |input| == 4;
      EncodeOfDecodeGroup(group, last);
      EncodeOfDecode(rest);
      var head, tail := DecodeGroup(group, last).value, DecodeGroups(rest).value;
      assert input == group + rest;
      if last {
        assert rest == [] && head + tail == head;
      } else {
        assert |head| == 3;
        assert tail == [] ==> Encode(tail) == [];
        assert (head + tail)[..3] == head && (head + tail)[3..] == tail;
      }
    }
  }

  lemma OneGroupMore(n: nat)
    ensures (4 + n) / 4 * 3 == 3 + n / 4 * 3
  {
  }

  lemma GroupInFront(group: seq<Byte>, rest: seq<Byte>)
    requires |group| == 4 && |rest| >= 2
    ensures StandsFor(group + rest) == 3 + StandsFor(rest)
  {
    OneGroupMore(|rest|);
  }

  lemma GroupStandsFor(bytes: seq<Byte>)
    requires 1 <= |bytes| <= 3
    ensures StandsFor(EncodeGroup(bytes)) == |bytes|
  {
  }

  /** The padding characters tell the length apart. */
  lemma {:induction false} PaddingOfEncode(bytes: seq<Byte>)
    requires bytes != []
    ensures StandsFor(Encode(bytes)) == |bytes|
  {
    if |bytes| <= 3 {
      GroupStandsFor(bytes);
    } else {
      PaddingOfEncode(bytes[3..]);
      GroupInFront(EncodeGroup(bytes[..3]), Encode(bytes[3..]));
    }
  }

  lemma AcceptedNames(input: seq<Byte>)
    requires DecodeName(input).Some?
    ensures IsName(DecodeName(input).value) && Encode(DecodeName(input).value) == input
  {
    EncodeOfDecode(input);
  }

  lemma EncodedSize(n: nat)
    requires 0 < n <= MAX_NAME
    ensures 0 < (n + 2) / 3 * 4 <= MAX_ENCODED && (n + 2) / 3 * 4 % 4 == 0
  {
  }

  /** The test vectors of section 10 of RFC 4648, and one for each end of the alphabet's parts. */
  lemma TestVectors()
    ensures EncodeGroup([102]) == [90, 103, 61, 61] && EncodeGroup([102, 111]) == [90, 109, 56, 61]
    ensures EncodeGroup([102, 111, 111]) == [90, 109, 57, 118] && EncodeGroup([98, 97, 114]) == [89, 109, 70, 121]
    ensures EncodeGroup([0, 22, 90]) == [65, 66, 90, 97] && EncodeGroup([107, 61, 62]) == [97, 122, 48, 43]
    ensures EncodeGroup([247, 239, 192]) == [57, 43, 47, 65]
  {
  }

  /** Inside its three ranges the alphabet goes up by one. */
  lemma AlphabetIsConsecutive(d: Byte)
    requires d < 61 && d != 25 && d != 51
    ensures EncodeDigit(d + 1) == EncodeDigit(d) + 1
  {
  }

  /** Encoding a name and decoding it is the identity, so different names never meet. */
  lemma NameRoundTrip(name: seq<Byte>)
    requires IsName(name)
    ensures DecodeName(Encode(name)) == Some(name)
  {
    var text := Encode(name);
    EncodedSize(|name|);
    DecodeOfEncode(name);
    PaddingOfEncode(name);
    assert text != [] && |text| <= MAX_ENCODED && |text| % 4 == 0;
    DecodeNameFrom(text, name);
  }

  lemma DecodeNameFrom(text: seq<Byte>, name: seq<Byte>)
    requires text != [] && |text| <= MAX_ENCODED && |text| % 4 == 0 && IsName(name)
    requires DecodeGroups(text) == Some(name) && StandsFor(text) == |name|
    ensures DecodeName(text) == Some(name)
  {
  }

  /** The decoder accepts exactly the canonical encodings of names and returns the name. */
  lemma DecodeNameIsExact(input: seq<Byte>)
    ensures DecodeName(input).Some? <==> exists name :: IsName(name) && Encode(name) == input
    ensures DecodeName(input).Some? ==> IsName(DecodeName(input).value) && Encode(DecodeName(input).value) == input
  {
    if DecodeName(input).Some? {
      AcceptedNames(input);
    }
    if name :| IsName(name) && Encode(name) == input {
      NameRoundTrip(name);
    }
  }
}
