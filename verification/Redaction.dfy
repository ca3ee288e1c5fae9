/** Redaction of secrets in diagnostic text (crates/auth/src/redaction.rs). */
module Redaction {
  import opened Results

  const MARKER := "[REDACTED]"
  const MAX_SECRET_BYTES := 16 * 1024

  /** A secret by its text; a secret that is not UTF-8 has none. Secrets are never empty. */
  type Secret = s: Option<string> | s != Some("") witness None

  /** Every occurrence from left to right, without overlaps, becomes the marker. */
  function Replace(text: string, needle: string): string
    requires needle != []
  {
    if |text| < |needle| then text
    else if needle <= text then MARKER + Replace(text[|needle|..], needle)
    else [text[0]] + Replace(text[1..], needle)
  }

  function RedactOne(text: string, secret: Secret): string {
    if secret.Some? then Replace(text, secret.value) else text
  }

  function Redact(text: string, secrets: seq<Secret>): string
    decreases |secrets|
  {
    if secrets == [] then text else Redact(RedactOne(text, secrets[0]), secrets[1..])
  }

  method RedactText(text: string, secrets: seq<Secret>) returns (redacted: string)
    ensures redacted == Redact(text, secrets)
    ensures forall s :: Some(s) in secrets && Clear(s) ==> !Occurs(s, redacted)
  {
    redacted := text;
    for i := 0 to |secrets|
      invariant Redact(redacted, secrets[i..]) == Redact(text, secrets)
    {
      assert secrets[i..][1..] == secrets[i + 1..];
      if secrets[i].Some? {
        redacted := Replace(redacted, secrets[i].value);
      }
    }
    forall s | Some(s) in secrets && Clear(s) ensures !Occurs(s, redacted) {
      ClearSecretsAreGone(s, text, secrets);
    }
  }

  // ----- occurrences -----

  predicate Occurs(s: string, text: string) {
    s <= text || (text != [] && Occurs(s, text[1..]))
  }

  lemma {:induction false} OccursAt(s: string, text: string, p: nat)
    requires p <= |text| && s <= text[p..]
    ensures Occurs(s, text)
  {
    if p > 0 {
      assert text[1..][p - 1..] == text[p..];
      OccursAt(s, text[1..], p - 1);
    } else {
      assert text[0..] == text;
    }
  }

  lemma {:induction false} OccursWhere(s: string, text: string) returns (p: nat)
    requires Occurs(s, text)
    ensures p <= |text| && s <= text[p..]
  {
    if s <= text {
      p := 0;
      assert text[0..] == text;
    } else {
      var q := OccursWhere(s, text[1..]);
      p := q + 1;
      assert text[1..][q..] == text[p..];
    }
  }

  lemma OccursInside(s: string, middle: string, text: string)
    requires Occurs(s, middle) && Occurs(middle, text)
    ensures Occurs(s, text)
  {
    var p := OccursWhere(middle, text);
    var q := OccursWhere(s, middle);
    assert text[p..][..|middle|] == middle;
    assert text[p + q..][..|s|] == middle[q..][..|s|] == s;
    OccursAt(s, text, p + q);
  }

  /** The secret has no part in common with the marker: neither contains the other, and no end of
      one is a beginning of the other. */
  predicate Clear(s: string) {
    && s != [] && !Occurs(s, MARKER) && !Occurs(MARKER, s)
    && forall k :: 0 < k <= |MARKER| && k <= |s| ==> MARKER[|MARKER| - k..] != s[..k] && MARKER[..k] != s[|s| - k..]
  }

  // ----- clear secrets disappear -----

  lemma NotAt(s: string, text: string, p: nat)
    requires !Occurs(s, text) && p <= |text|
    ensures !(s <= text[p..])
  {
    if s <= text[p..] {
      OccursAt(s, text, p);
    }
  }

  lemma EndMissesMarker(s: string, i: nat, rest: string)
    requires Clear(s) && i < |s|
    ensures !(s[i..] <= MARKER + rest)
  {
    var w, out := s[i..], MARKER + rest;
    if |w| <= |MARKER| {
      assert out[..|w|] == MARKER[..|w|] && s[|s| - |w|..] == w;
    } else {
      assert out[..|MARKER|] == MARKER;
      NotAt(MARKER, s, i);
    }
  }

  /** An end of a clear secret at the start of the output was at the start of the text. */
  lemma {:induction false} EndWasInText(s: string, i: nat, text: string, needle: string)
    requires Clear(s) && needle != [] && i <= |s| && s[i..] <= Replace(text, needle)
    ensures s[i..] <= text
    decreases |text|
  {
    if i < |s| && |text| >= |needle| {
      if needle <= text {
        EndMissesMarker(s, i, Replace(text[|needle|..], needle));
      } else {
        assert s[i..][0] == text[0] && s[i..][1..] == s[i + 1..];
        assert s[i..][1..] <= Replace(text[1..], needle);
        EndWasInText(s, i + 1, text[1..], needle);
      }
    }
  }

  lemma PrefixTake(s: string, text: string, k: nat)
    requires s <= text && k <= |s|
    ensures s[..k] == text[..k]
  {
  }

  lemma MissesMarkerAt(s: string, rest: string, p: nat)
    requires Clear(s) && p < |MARKER|
    ensures !(s <= (MARKER + rest)[p..])
  {
    var out, k := MARKER + rest, |MARKER| - p;
    if |s| <= k {
      assert out[p..][..|s|] == MARKER[p..][..|s|];
      NotAt(s, MARKER, p);
    } else {
      assert out[p..][..k] == MARKER[p..] == MARKER[|MARKER| - k..];
      if s <= out[p..] {
        PrefixTake(s, out[p..], k);
      }
    }
  }

  /** A clear secret after a marker does not touch it. */
  lemma OccursAfterMarker(s: string, rest: string)
    requires Clear(s) && Occurs(s, MARKER + rest)
    ensures Occurs(s, rest)
  {
    var out := MARKER + rest;
    var p := OccursWhere(s, out);
    if p < |MARKER| {
      MissesMarkerAt(s, rest, p);
    }
    assert out[p..] == rest[p - |MARKER|..];
    OccursAt(s, rest, p - |MARKER|);
  }

  /** Replacing whatever it may be brings no clear secret into being. */
  lemma {:induction false} ReplaceBringsNothing(s: string, text: string, needle: string)
    requires Clear(s) && needle != [] && Occurs(s, Replace(text, needle))
    ensures Occurs(s, text)
    decreases |text|
  {
    if |text| >= |needle| {
      if needle <= text {
        var rest := text[|needle|..];
        OccursAfterMarker(s, Replace(rest, needle));
        ReplaceBringsNothing(s, rest, needle);
        var p := OccursWhere(s, rest);
        assert rest[p..] == text[|needle| + p..];
        OccursAt(s, text, |needle| + p);
      } else if s <= Replace(text, needle) {
        assert s[0..] == s;
        EndWasInText(s, 0, text, needle);
      } else {
        assert Replace(text, needle)[1..] == Replace(text[1..], needle);
        ReplaceBringsNothing(s, text[1..], needle);
      }
    }
  }

  /** After its own replacement a clear secret is gone. */
  lemma {:induction false} ReplaceRemoves(s: string, text: string)
    requires Clear(s)
    ensures !Occurs(s, Replace(text, s))
    decreases |text|
  {
    if |text| < |s| {
      if Occurs(s, text) {
        var p := OccursWhere(s, text);
      }
    } else if s <= text {
      ReplaceRemoves(s, text[|s|..]);
      if Occurs(s, Replace(text, s)) {
        OccursAfterMarker(s, Replace(text[|s|..], s));
      }
    } else {
      ReplaceRemoves(s, text[1..]);
      assert Replace(text, s)[1..] == Replace(text[1..], s);
      if s <= Replace(text, s) {
        assert s[0..] == s;
        EndWasInText(s, 0, text, s);
      }
    }
  }

  lemma {:induction false} RedactBringsNothing(s: string, text: string, secrets: seq<Secret>)
    requires Clear(s) && !Occurs(s, text)
    ensures !Occurs(s, Redact(text, secrets))
    decreases |secrets|
  {
    if secrets != [] {
      var next := RedactOne(text, secrets[0]);
      if secrets[0].Some? && Occurs(s, next) {
        ReplaceBringsNothing(s, text, secrets[0].value);
      }
      RedactBringsNothing(s, next, secrets[1..]);
    }
  }

  /** Whatever the other secrets are, a listed secret that is clear of the marker does not occur
      in the output. */
  lemma {:induction false} ClearSecretsAreGone(s: string, text: string, secrets: seq<Secret>)
    requires Clear(s) && Some(s) in secrets
    ensures !Occurs(s, Redact(text, secrets))
    decreases |secrets|
  {
    var next := RedactOne(text, secrets[0]);
    if secrets[0] == Some(s) {
      ReplaceRemoves(s, text);
      RedactBringsNothing(s, next, secrets[1..]);
    } else {
      assert secrets == [secrets[0]] + secrets[1..];
      ClearSecretsAreGone(s, next, secrets[1..]);
    }
  }

  // ----- what a replacement does -----

  /** The text up to position `p` stays, the needle there becomes the marker, and what follows is
      treated in the same way. */
  ghost predicate ReplacedAt(text: string, needle: string, p: nat)
    requires needle != [] && p + |needle| <= |text|
  {
    Replace(text, needle) == text[..p] + "[REDACTED]" + Replace(text[p + |needle|..], needle)
  }

  /** The first occurrence is replaced, and the text goes on behind it; without an occurrence nothing
      changes. */
  lemma {:induction false} ReplaceFirst(text: string, needle: string, p: nat)
    requires needle != [] && p <= |text| && needle <= text[p..]
    requires forall q :: 0 <= q < p ==> !(needle <= text[q..])
    ensures ReplacedAt(text, needle, p)
    decreases p
  {
    if p == 0 {
      ReplaceAtStart(text, needle);
    } else {
      LaterInTail(text, needle, p);
      ReplaceFirst(text[1..], needle, p - 1);
      ReplaceSkips(text, needle);
      ReplacedOneLater(text, needle, p);
    }
  }

  lemma {:induction false} ReplacedOneLater(text: string, needle: string, p: nat)
    requires needle != [] && 0 < p && p + |needle| <= |text| && ReplacedAt(text[1..], needle, p - 1)
    requires Replace(text, needle) == [text[0]] + Replace(text[1..], needle)
    ensures ReplacedAt(text, needle, p)
  {
    TailParts(text, p, |needle|);
    Spread([text[0]], text[1..][..p - 1], Replace(text[p + |needle|..], needle));
  }

  lemma {:induction false} ReplaceAtStart(text: string, needle: string)
    requires needle != [] && needle <= text[0..]
    ensures ReplacedAt(text, needle, 0)
  {
    assert text[0..] == text && text[..0] + "[REDACTED]" == "[REDACTED]";
  }

  lemma TailParts(text: string, p: nat, n: nat)
    requires 0 < p && p + n <= |text|
    ensures text[..p] == [text[0]] + text[1..][..p - 1] && text[1..][p - 1 + n..] == text[p + n..]
  {
  }

  lemma LaterInTail(text: string, needle: string, p: nat)
    requires 0 < p <= |text| && needle <= text[p..] && forall q :: 0 <= q < p ==> !(needle <= text[q..])
    ensures needle <= text[1..][p - 1..] && forall q :: 0 <= q < p - 1 ==> !(needle <= text[1..][q..])
  {
    assert text[1..][p - 1..] == text[p..];
    forall q | 0 <= q < p - 1 ensures !(needle <= text[1..][q..]) {
      assert text[1..][q..] == text[q + 1..];
    }
  }

  lemma {:induction false} ReplaceSkips(text: string, needle: string)
    requires needle != [] && |text| >= |needle| && !(needle <= text[0..])
    ensures Replace(text, needle) == [text[0]] + Replace(text[1..], needle)
  {
    assert text[0..] == text;
  }

  lemma Spread(a: string, b: string, rest: string)
    ensures a + (b + "[REDACTED]" + rest) == a + b + "[REDACTED]" + rest
  {
  }

  /** The secrets are replaced one after the other, in their order, each in what the others left. */
  lemma {:induction false} RedactInTurn(text: string, secrets: seq<Secret>, more: seq<Secret>)
    ensures Redact(text, secrets + more) == Redact(Redact(text, secrets), more)
    decreases |secrets|
  {
    if secrets == [] {
      assert secrets + more == more;
    } else {
      assert (secrets + more)[0] == secrets[0] && (secrets + more)[1..] == secrets[1..] + more;
      RedactInTurn(RedactOne(text, secrets[0]), secrets[1..], more);
    }
  }

  // ----- parts of the marker stay -----

  /** A replacement leaves the text alone or leaves a marker in it. */
  lemma {:induction false} ReplaceLeavesMarker(text: string, needle: string)
    requires needle != []
    ensures Replace(text, needle) == text || Occurs(MARKER, Replace(text, needle))
    decreases |text|
  {
    if |text| >= |needle| && !(needle <= text) {
      ReplaceLeavesMarker(text[1..], needle);
      assert Replace(text, needle)[1..] == Replace(text[1..], needle);
      assert [text[0]] + text[1..] == text;
    }
  }

  lemma {:induction false} MarkersStay(text: string, secrets: seq<Secret>)
    requires Occurs(MARKER, text)
    ensures Occurs(MARKER, Redact(text, secrets))
    decreases |secrets|
  {
    if secrets != [] {
      if secrets[0].Some? {
        ReplaceLeavesMarker(text, secrets[0].value);
      }
      MarkersStay(RedactOne(text, secrets[0]), secrets[1..]);
    }
  }

  lemma {:induction false} RedactedSecretLeavesMarker(s: string, secrets: seq<Secret>)
    requires s != [] && Some(s) in secrets
    ensures Occurs(MARKER, Redact(s, secrets))
    decreases |secrets|
  {
    var next := RedactOne(s, secrets[0]);
    if secrets[0] == Some(s) {
      assert next == MARKER + Replace(s[|s|..], s);
      MarkersStay(next, secrets[1..]);
    } else {
      assert secrets == [secrets[0]] + secrets[1..];
      if secrets[0].Some? {
        ReplaceLeavesMarker(s, secrets[0].value);
      }
      if next == s {
        RedactedSecretLeavesMarker(s, secrets[1..]);
      } else {
        MarkersStay(next, secrets[1..]);
      }
    }
  }

  /** A listed secret that is part of the marker shows up in the redaction of itself. */
  lemma MarkerPartsShow(s: string, secrets: seq<Secret>)
    requires s != [] && Some(s) in secrets && Occurs(s, MARKER)
    ensures Occurs(s, Redact(s, secrets))
  {
    RedactedSecretLeavesMarker(s, secrets);
    OccursInside(s, MARKER, Redact(s, secrets));
  }

  // ----- text without secrets -----

  lemma {:induction false} OtherTextIsKept(text: string, needle: string)
    requires needle != [] && !Occurs(needle, text)
    ensures Replace(text, needle) == text
    decreases |text|
  {
    if |text| >= |needle| {
      OtherTextIsKept(text[1..], needle);
    }
  }

  /** Text in which no listed secret occurs is returned as it is. */
  lemma {:induction false} CleanTextIsKept(text: string, secrets: seq<Secret>)
    requires forall s :: Some(s) in secrets ==> !Occurs(s, text)
    ensures Redact(text, secrets) == text
    decreases |secrets|
  {
    if secrets != [] {
      if secrets[0].Some? {
        assert secrets[0] == Some(secrets[0].value);
        OtherTextIsKept(text, secrets[0].value);
      }
      assert forall s :: Some(s) in secrets[1..] ==> Some(s) in secrets;
      CleanTextIsKept(text, secrets[1..]);
    }
  }

  // ----- secrets that meet the marker come back -----

  lemma {:induction false} HeadOccurs(s: string, text: string)
    requires s != [] && Occurs(s, text)
    ensures s[0] in text
  {
    if !(s <= text) {
      HeadOccurs(s, text[1..]);
    }
  }

  function Drop(s: string, c: char): (r: string)
    ensures forall d :: d in r <==> d in s && d != c
    ensures |r| <= |s| && (c in s ==> |r| < |s|)
  {
    if s == [] then []
    else
      assert s == [s[0]] + s[1..];
      if s[0] == c then Drop(s[1..], c) else [s[0]] + Drop(s[1..], c)
  }

  /** Some character of the first `n` is not in a shorter text. */
  lemma {:induction false} FreshChar(s: string, n: nat) returns (c: char)
    requires |s| < n <= 0xD800
    ensures c !in s && c as int < n
    decreases n
  {
    var last := (n - 1) as char;
    if last !in s {
      return last;
    }
    c := FreshChar(Drop(s, last), n - 1);
  }

  lemma {:induction false} PlantMarker(a: string, c: char, b: string)
    requires c !in a && c !in b
    ensures Replace(a + [c] + b, [c]) == a + MARKER + b
    decreases |a|
  {
    var text := a + [c] + b;
    if a == [] {
      assert text[1..] == b && [c] <= text;
      if Occurs([c], b) {
        HeadOccurs([c], b);
      }
      OtherTextIsKept(b, [c]);
      assert MARKER + b == a + MARKER + b;
    } else {
      assert text[0] == a[0] && text[1..] == a[1..] + [c] + b;
      PlantMarker(a[1..], c, b);
      assert [a[0]] + (a[1..] + MARKER + b) == a + MARKER + b;
    }
  }

  lemma TooShortToHold(s: string, text: string, i: nat)
    requires |text| <= |s| && i < |text| && text[i] !in s
    ensures !Occurs(s, text)
  {
    if Occurs(s, text) {
      var p := OccursWhere(s, text);
    }
  }

  lemma RedactTwo(text: string, s: string, t: string)
    requires s != [] && t != []
    ensures Redact(text, [Some(s), Some(t)]) == Replace(Replace(text, s), t)
  {
    var first: seq<Secret>, second: seq<Secret> := [Some(s), Some(t)], [Some(t)];
    var once := Replace(text, s);
    assert first[1..] == second && second[1..] == [];
    assert Redact(text, first) == Redact(once, second);
    assert Redact(once, second) == Redact(Replace(once, t), []);
  }

  /** Next to a secret of one fresh character, a marker can be put between any texts that are
      together shorter than `s`. */
  lemma MarkerAnywhere(s: string, a: string, c: char, b: string)
    requires s != [] && c !in s && c !in a && c !in b && |a| + |b| < |s|
    ensures Redact(a + [c] + b, [Some(s), Some([c])]) == a + MARKER + b
  {
    var text := a + [c] + b;
    assert text[|a|] == c;
    TooShortToHold(s, text, |a|);
    OtherTextIsKept(text, s);
    PlantMarker(a, c, b);
    RedactTwo(text, s, [c]);
  }

  ghost predicate NeverShows(s: string, secrets: seq<Secret>) {
    forall text :: !Occurs(s, Redact(text, secrets))
  }

  /** Whatever else is listed with it, the secret never shows. */
  ghost predicate AlwaysHidden(s: string) {
    forall secrets: seq<Secret> :: Some(s) in secrets ==> NeverShows(s, secrets)
  }

  lemma ShowsOnce(s: string, text: string, secrets: seq<Secret>)
    requires Some(s) in secrets && Occurs(s, Redact(text, secrets))
    ensures !AlwaysHidden(s)
  {
    assert !NeverShows(s, secrets);
  }

  lemma SplitAround(s: string, text: string) returns (a: string, b: string)
    requires Occurs(s, text)
    ensures text == a + s + b && |text| == |a| + |s| + |b|
  {
    var p := OccursWhere(s, text);
    a, b := text[..p], text[p..][|s|..];
    assert text == a + text[p..] && text[p..] == s + b;
  }

  lemma NotInParts(c: char, a: string, s: string, b: string)
    requires c !in a + s + b
    ensures c !in a && c !in b
  {
  }

  /** Texts that make up `s` around a marker, and are shorter than it, bring it back. */
  lemma MarkerBringsBack(s: string, a: string, c: char, b: string)
    requires c !in s && c !in a && c !in b && |a| + |b| < |s| && Occurs(s, a + MARKER + b)
    ensures !AlwaysHidden(s)
  {
    MarkerAnywhere(s, a, c, b);
    ShowsOnce(s, a + [c] + b, [Some(s), Some([c])]);
  }

  /** A secret that holds a marker comes back around a new one. */
  lemma SecretAroundMarkerShows(s: string)
    requires 0 < |s| <= MAX_SECRET_BYTES && Occurs(MARKER, s)
    ensures !AlwaysHidden(s)
  {
    var c := FreshChar(s, |s| + 1);
    var a, b := SplitAround(MARKER, s);
    NotInParts(c, a, MARKER, b);
    OccursSelf(s);
    MarkerBringsBack(s, a, c, b);
  }

  lemma OccursSelf(s: string)
    ensures Occurs(s, s)
  {
  }

  /** A secret that starts with an end of the marker comes back after one. */
  lemma SecretAfterMarkerShows(s: string, k: nat)
    requires 0 < |s| <= MAX_SECRET_BYTES && 0 < k <= |MARKER| && k <= |s| && MARKER[|MARKER| - k..] == s[..k]
    ensures !AlwaysHidden(s)
  {
    var c := FreshChar(s, |s| + 1);
    var rest := s[k..];
    var out := [] + MARKER + rest;
    assert out[|MARKER| - k..] == s[..k] + rest == s;
    OccursAt(s, out, |MARKER| - k);
    MarkerBringsBack(s, [], c, rest);
  }

  /** A secret that ends with a beginning of the marker comes back before one. */
  lemma SecretBeforeMarkerShows(s: string, k: nat)
    requires 0 < |s| <= MAX_SECRET_BYTES && 0 < k <= |MARKER| && k <= |s| && MARKER[..k] == s[|s| - k..]
    ensures !AlwaysHidden(s)
  {
    var c := FreshChar(s, |s| + 1);
    var rest := s[..|s| - k];
    var out := rest + MARKER + [];
    assert out[..|s|] == rest + MARKER[..k] == s;
    OccursAt(s, out, 0);
    MarkerBringsBack(s, rest, c, []);
  }

  /** A listed secret is absent from every output, whatever is listed with it, exactly when it has
      no part in common with the marker. */
  lemma HiddenExactlyWhenClear(s: string)
    requires 0 < |s| <= MAX_SECRET_BYTES
    ensures AlwaysHidden(s) <==> Clear(s)
  {
    if Clear(s) {
      forall text, secrets: seq<Secret> | Some(s) in secrets ensures !Occurs(s, Redact(text, secrets)) {
        ClearSecretsAreGone(s, text, secrets);
      }
      assert forall secrets: seq<Secret> :: Some(s) in secrets ==> NeverShows(s, secrets);
    } else if Occurs(s, MARKER) {
      MarkerPartsShow(s, [Some(s)]);
      ShowsOnce(s, s, [Some(s)]);
    } else if Occurs(MARKER, s) {
      SecretAroundMarkerShows(s);
    } else {
      var k :| 0 < k <= |MARKER| && k <= |s| && (MARKER[|MARKER| - k..] == s[..k] || MARKER[..k] == s[|s| - k..]);
      if MARKER[|MARKER| - k..] == s[..k] {
        SecretAfterMarkerShows(s, k);
      } else {
        SecretBeforeMarkerShows(s, k);
      }
    }
  }

  // ----- secrets without brackets -----

  predicate BracketFree(s: string) {
    '[' !in s && ']' !in s
  }

  lemma BracketFreeSecretsAreClear(s: string)
    requires s != [] && BracketFree(s) && !Occurs(s, "REDACTED")
    ensures Clear(s)
  {
    if Occurs(s, MARKER) {
      var p := OccursWhere(s, MARKER);
      assert MARKER[p..][..|s|] == s;
      assert p > 0 by {
        assert s[0] == MARKER[p] && MARKER[0] == '[';
      }
      assert p + |s| < |MARKER| by {
        assert s[|s| - 1] == MARKER[p + |s| - 1] && MARKER[9] == ']';
      }
      assert "REDACTED" == MARKER[1..9];
      assert "REDACTED"[p - 1..][..|s|] == s;
      OccursAt(s, "REDACTED", p - 1);
    }
    if Occurs(MARKER, s) {
      HeadOccurs(MARKER, s);
    }
    forall k | 0 < k <= |MARKER| && k <= |s| ensures MARKER[|MARKER| - k..] != s[..k] && MARKER[..k] != s[|s| - k..] {
      assert MARKER[|MARKER| - k..][k - 1] == ']' && s[..k][k - 1] == s[k - 1];
      assert MARKER[..k][0] == '[' && s[|s| - k..][0] == s[|s| - k];
    }
  }

  /** With any fixed list around it, a listed secret without brackets is absent from every output
      exactly when it is not part of the word in the marker. */
  lemma RedactionIsExact(s: string, secrets: seq<Secret>)
    requires s != [] && Some(s) in secrets && BracketFree(s)
    ensures NeverShows(s, secrets) <==> !Occurs(s, "REDACTED")
  {
    if Occurs(s, "REDACTED") {
      assert MARKER[1..][..8] == "REDACTED";
      OccursAt("REDACTED", MARKER, 1);
      OccursInside(s, "REDACTED", MARKER);
      MarkerPartsShow(s, secrets);
    } else {
      BracketFreeSecretsAreClear(s);
      forall text ensures !Occurs(s, Redact(text, secrets)) {
        ClearSecretsAreGone(s, text, secrets);
      }
    }
  }

  /** With a bracket a secret can come back: the end of a marker and the text after it. */
  lemma BracketSecretComesBack()
    ensures Occurs("]x", Redact("]xx", [Some("]x")]))
  {
    var out := MARKER + "x";
    assert "]xx"[2..] == "x";
    assert Replace("]xx", "]x") == out;
    assert out[9..] == "]x";
    OccursAt("]x", out, 9);
    assert Redact("]xx", [Some("]x")]) == out;
  }
}
