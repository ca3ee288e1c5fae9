/** The JSON text of the protected credential document, and why it always fits the file. */
module ProtectedEncoding {
  import opened ProtectedDocument
  import Decimal
  import Js
  import Json

  /** Numbers with a comma in front of all but the first. */
  function EncodeNumbers(ns: seq<Octet>): string {
    if ns == [] then ""
    else if |ns| == 1 then Decimal.Text(ns[0])
    else Decimal.Text(ns[0]) + "," + EncodeNumbers(ns[1..])
  }

  function EncodeEntry(e: Entry): string {
    "{\"provider\":" + Json.Quote(e.key.provider) + ",\"account\":" + Json.Quote(e.key.account)
    + ",\"purpose\":" + Json.Quote(e.key.purpose) + ",\"secret\":[" + EncodeNumbers(e.secret) + "]}"
  }

  function EncodeEntries(entries: seq<Entry>): string {
    if entries == [] then ""
    else if |entries| == 1 then EncodeEntry(entries[0])
    else EncodeEntry(entries[0]) + "," + EncodeEntries(entries[1..])
  }

  function Encode(d: Document): string {
    "{\"version\":" + Decimal.Text(d.version) + ",\"entries\":[" + EncodeEntries(d.entries) + "]}"
  }

  // ----- lengths -----

  lemma {:induction false} SizeOfConcat(a: string, b: string)
    ensures Js.Utf8Size(a + b) == Js.Utf8Size(a) + Js.Utf8Size(b)
  {
    if a == [] {
      assert a + b == b;
    } else {
      SizeOfConcat(a[1..], b);
      assert (a + b)[1..] == a[1..] + b;
    }
  }

  lemma {:induction false} SizeOfAscii(s: string)
    requires forall i :: 0 <= i < |s| ==> s[i] as int <= 0x7F
    ensures Js.Utf8Size(s) == |s|
  {
    if s != [] {
      SizeOfAscii(s[1..]);
    }
  }

  lemma SizeOfEscape(c: char)
    requires !IsControl(c)
    ensures Js.Utf8Size(Json.Escape(c)) <= 2 * Js.Utf8Width(c)
  {
    if c == '"' || c == '\\' {
      SizeOfAscii(Json.Escape(c));
    } else {
      assert Json.Escape(c) == [c] && [c][1..] == [];
    }
  }

  lemma {:induction false} SizeOfEscapeAll(s: string)
    requires forall c :: c in s ==> !IsControl(c)
    ensures Js.Utf8Size(Json.EscapeAll(s)) <= 2 * Js.Utf8Size(s)
  {
    if s != [] {
      SizeOfEscape(s[0]);
      SizeOfEscapeAll(s[1..]);
      SizeOfConcat(Json.Escape(s[0]), Json.EscapeAll(s[1..]));
    }
  }

  lemma SizeOfQuote(s: string)
    requires ValidField(s)
    ensures Js.Utf8Size(Json.Quote(s)) <= 514
  {
    SizeOfEscapeAll(s);
    SizeOfAscii("\"");
    SizeOfConcat("\"", Json.EscapeAll(s));
    SizeOfConcat("\"" + Json.EscapeAll(s), "\"");
  }

  lemma OctetText(n: Octet)
    ensures |Decimal.Text(n)| <= 3 && Js.Utf8Size(Decimal.Text(n)) <= 3
  {
    var ds := Decimal.Digits(n);
    assert |ds| <= 3 by {
      if n >= 100 {
        assert Decimal.Digits(n) == Decimal.Digits(n / 10) + [n % 10];
        assert Decimal.Digits(n / 10) == Decimal.Digits(n / 10 / 10) + [n / 10 % 10];
      }
    }
    SizeOfAscii(Decimal.Text(n));
  }

  lemma {:induction false} SizeOfNumbers(ns: seq<Octet>)
    ensures Js.Utf8Size(EncodeNumbers(ns)) <= 4 * |ns|
  {
    if ns != [] {
      OctetText(ns[0]);
      if |ns| > 1 {
        SizeOfNumbers(ns[1..]);
        SizeOfAscii(",");
        SizeOfConcat(Decimal.Text(ns[0]), ",");
        SizeOfConcat(Decimal.Text(ns[0]) + ",", EncodeNumbers(ns[1..]));
      }
    }
  }

  lemma SizeOfThree(a: string, b: string, c: string)
    ensures Js.Utf8Size(a + b + c) == Js.Utf8Size(a) + Js.Utf8Size(b) + Js.Utf8Size(c)
  {
    SizeOfConcat(a, b);
    SizeOfConcat(a + b, c);
  }

  lemma {:induction false} SizeIsBounded(s: string)
    ensures Js.Utf8Size(s) <= 4 * |s|
  {
    if s != [] {
      SizeIsBounded(s[1..]);
    }
  }

  /** Values between labels: the size is at most that of the values and four per label character. */
  lemma SizeOfParts(
    k1: string, v1: string, k2: string, v2: string, k3: string, v3: string, k4: string, v4: string, end: string)
    ensures Js.Utf8Size(k1 + v1 + k2 + v2 + k3 + v3 + k4 + v4 + end)
         <= 4 * (|k1| + |k2| + |k3| + |k4| + |end|)
            + Js.Utf8Size(v1) + Js.Utf8Size(v2) + Js.Utf8Size(v3) + Js.Utf8Size(v4)
  {
    SizeOfThree(k1, v1, k2);
    SizeOfThree(k1 + v1 + k2, v2, k3);
    SizeOfThree(k1 + v1 + k2 + v2 + k3, v3, k4);
    SizeOfThree(k1 + v1 + k2 + v2 + k3 + v3 + k4, v4, end);
    SizeIsBounded(k1);
    SizeIsBounded(k2);
    SizeIsBounded(k3);
    SizeIsBounded(k4);
    SizeIsBounded(end);
  }

  lemma SizeOfEntry(e: Entry)
    requires ValidKey(e.key) && ValidSecret(e.secret)
    ensures Js.Utf8Size(EncodeEntry(e)) <= 68_000
  {
    var provider, account, purpose := Json.Quote(e.key.provider), Json.Quote(e.key.account), Json.Quote(e.key.purpose);
    SizeOfQuote(e.key.provider);
    SizeOfQuote(e.key.account);
    SizeOfQuote(e.key.purpose);
    SizeOfNumbers(e.secret);
    SizeOfParts("{\"provider\":", provider, ",\"account\":", account, ",\"purpose\":", purpose,
                ",\"secret\":[", EncodeNumbers(e.secret), "]}");
  }

  lemma {:induction false} SizeOfEntries(entries: seq<Entry>)
    requires ValidEntries(entries)
    ensures Js.Utf8Size(EncodeEntries(entries)) <= 68_001 * |entries|
  {
    if entries != [] {
      SizeOfEntry(entries[0]);
      if |entries| > 1 {
        SizeOfEntries(entries[1..]);
        SizeOfAscii(",");
        SizeOfThree(EncodeEntry(entries[0]), ",", EncodeEntries(entries[1..]));
      }
    }
  }

  /** A valid document is encoded in well under the 8 MiB of the file. */
  lemma ValidDocumentsFit(d: Document)
    requires Valid(d)
    ensures Js.Utf8Size(Encode(d)) <= MAX_DOCUMENT_BYTES
  {
    SizeOfEntries(d.entries);
    OctetText(d.version);
    var head := "{\"version\":";
    SizeOfParts("", "", "", "", head, Decimal.Text(d.version), ",\"entries\":[", EncodeEntries(d.entries), "]}");
    assert "" + "" + "" + "" + head == head;
  }
}
