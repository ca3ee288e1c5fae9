/** When two logins belong to the same person (crates/app/src/codex_accounts.rs). */
module AccountIdentity {
  import opened Results
  import Text

  datatype Identity = Identity(email: Option<string>, workspace: Option<string>)

  /** The White_Space characters of Unicode. */
  predicate IsWhite(c: char) {
    || 0x09 <= c as int <= 0x0D || c == ' ' || c as int == 0x85 || c as int == 0xA0 || c as int == 0x1680
    || 0x2000 <= c as int <= 0x200A || c as int == 0x2028 || c as int == 0x2029 || c as int == 0x202F
    || c as int == 0x205F || c as int == 0x3000
  }

  function TrimStart(s: string): (r: string)
    ensures |r| <= |s| && r == s[|s| - |r|..]
    ensures forall i :: 0 <= i < |s| - |r| ==> IsWhite(s[i])
    ensures r != [] ==> !IsWhite(r[0])
  {
    if s != [] && IsWhite(s[0]) then TrimStart(s[1..]) else s
  }

  function TrimEnd(s: string): (r: string)
    ensures r <= s
    ensures forall i :: |r| <= i < |s| ==> IsWhite(s[i])
    ensures r != [] ==> !IsWhite(r[|r| - 1])
  {
    if s != [] && IsWhite(s[|s| - 1]) then TrimEnd(s[..|s| - 1]) else s
  }

  function Trim(s: string): string {
    TrimEnd(TrimStart(s))
  }

  predicate SameIgnoringCase(a: string, b: string) {
    |a| == |b| && forall i :: 0 <= i < |a| ==> Text.LowerAscii(a[i]) == Text.LowerAscii(b[i])
  }

  predicate SameIdentity(a: Identity, b: Identity) {
    && a.email.Some? && b.email.Some?
    && SameIgnoringCase(Trim(a.email.value), Trim(b.email.value))
    && a.workspace == b.workspace
  }

  /** Logins are the same exactly when both have an email and they agree on one key: being the same
      is an equivalence between logins with an email. */
  lemma SameIdentityIsKeyed(a: Identity, b: Identity)
    ensures SameIdentity(a, b)
       <==> a.email.Some? && b.email.Some?
            && Text.LowerAsciiText(Trim(a.email.value)) == Text.LowerAsciiText(Trim(b.email.value))
            && a.workspace == b.workspace
  {
    if a.email.Some? && b.email.Some? {
      var x, y := Trim(a.email.value), Trim(b.email.value);
      if Text.LowerAsciiText(x) == Text.LowerAsciiText(y) {
        forall i | 0 <= i < |x| ensures Text.LowerAscii(x[i]) == Text.LowerAscii(y[i]) {
          assert Text.LowerAsciiText(x)[i] == Text.LowerAsciiText(y)[i];
        }
      }
    }
  }

  lemma {:induction false} TrimStartStops(before: string, s: string)
    requires s != [] && !IsWhite(s[0]) && forall i :: 0 <= i < |before| ==> IsWhite(before[i])
    ensures TrimStart(before + s) == s
  {
    if before == [] {
      assert before + s == s;
    } else {
      assert (before + s)[0] == before[0] && (before + s)[1..] == before[1..] + s;
      TrimStartStops(before[1..], s);
    }
  }

  lemma {:induction false} TrimEndStops(s: string, after: string)
    requires s != [] && !IsWhite(s[|s| - 1]) && forall i :: 0 <= i < |after| ==> IsWhite(after[i])
    ensures TrimEnd(s + after) == s
  {
    if after == [] {
      assert s + after == s;
    } else {
      var t, front := s + after, after[..|after| - 1];
      assert t[|t| - 1] == after[|after| - 1] && t[..|t| - 1] == s + front;
      TrimEndStops(s, front);
    }
  }

  /** The email compared is what remains between the white space at both ends. */
  lemma TrimIsExact(before: string, s: string, after: string)
    requires s != [] && !IsWhite(s[0]) && !IsWhite(s[|s| - 1])
    requires forall i :: 0 <= i < |before| ==> IsWhite(before[i])
    requires forall i :: 0 <= i < |after| ==> IsWhite(after[i])
    ensures Trim(before + s + after) == s
  {
    TrimStartStops(before, s + after);
    TrimEndStops(s, after);
    assert before + s + after == before + (s + after);
  }
}
